/** Searching for a string in another one, whatever the case of its letters. */
module StrCaseStr {
  import opened Options

  type Char = x: int | 0 <= x < 256

  /** A C string without its terminating zero. */
  ghost predicate IsString(s: seq<Char>) {
    forall i | 0 <= i < |s| :: s[i] != 0
  }

  /** The character at an index, up to and including the terminating zero. */
  function CharAt(s: seq<Char>, i: int): Char
    requires 0 <= i <= |s|
  {
    if i < |s| then s[i] else 0
  }

  function ToLower(c: Char): Char {
    if 'A' as int <= c <= 'Z' as int then c + 32 else c
  }

  function ToUpper(c: Char): Char {
    if 'a' as int <= c <= 'z' as int then c - 32 else c
  }

  /** The letters and their two cases ... */
  lemma Letters(k: nat)
    requires k < 26
    ensures var upper, lower := "ABCDEFGHIJKLMNOPQRSTUVWXYZ"[k] as int, "abcdefghijklmnopqrstuvwxyz"[k] as int;
      ToLower(upper) == ToLower(lower) == lower && ToUpper(lower) == ToUpper(upper) == upper
  {
  }

  /** ... and the characters that have none. */
  lemma NoLetters(c: Char)
    requires c < 65 || 90 < c < 97 || 122 < c
    ensures ToLower(c) == ToUpper(c) == c
  {
  }

  /** Comparing with both cases of a letter is comparing in lower case. */
  lemma BothCases(a: Char, c: Char)
    ensures a == ToLower(c) || a == ToUpper(ToLower(c)) <==> ToLower(a) == ToLower(c)
  {
  }

  /** The needle is found at index `p`, if case is ignored. */
  ghost predicate MatchAt(hay: seq<Char>, needle: seq<Char>, p: int) {
    && 0 <= p && p + |needle| <= |hay|
    && forall k | 0 <= k < |needle| :: ToLower(hay[p + k]) == ToLower(needle[k])
  }

  /** The needle is not found before index `p`. */
  ghost predicate NotBefore(hay: seq<Char>, needle: seq<Char>, p: int) {
    forall q {:trigger MatchAt(hay, needle, q)} | 0 <= q < p :: !MatchAt(hay, needle, q)
  }

  /** The labels of the search: the top of its inner loop, the test at its end, `jin`, and behind the loop. */
  datatype Label = Top | Shloop | Jin | Compare

  /** One more position is excluded, because a character does not match or the string is too short. */
  lemma Exclude(hay: seq<Char>, needle: seq<Char>, p: int, k: int)
    requires NotBefore(hay, needle, p) && 0 <= k < |needle| && 0 <= p
    requires p + k < |hay| ==> ToLower(hay[p + k]) != ToLower(needle[k])
    ensures NotBefore(hay, needle, p + 1)
  {
  }

  /** At the end of the string there is no room for the rest of the needle. */
  lemma NoRoom(hay: seq<Char>, needle: seq<Char>, p: int)
    requires NotBefore(hay, needle, p) && p + |needle| > |hay|
    ensures forall q :: !MatchAt(hay, needle, q)
  {
    forall q
      ensures !MatchAt(hay, needle, q)
    {
      if 0 <= q < p {
        assert !MatchAt(hay, needle, q);
      }
    }
  }

  /** The first two characters match at `p`; compare the rest of the needle, two characters in a round. */
  method CompareRest(hay: seq<Char>, needle: seq<Char>, p: nat) returns (found: bool)
    requires IsString(hay) && IsString(needle) && |needle| >= 2 && p + 2 <= |hay|
    requires ToLower(hay[p]) == ToLower(needle[0]) && ToLower(hay[p + 1]) == ToLower(needle[1])
    ensures found <==> MatchAt(hay, needle, p)
  {
    var rhaystack, n := p + 2, 2;
    var a := ToLower(CharAt(needle, n));
    if ToLower(CharAt(hay, rhaystack)) == a {
      while true
        invariant 2 <= n <= |needle| && rhaystack == p + n <= |hay|
        invariant a == ToLower(CharAt(needle, n)) == ToLower(CharAt(hay, rhaystack))
        invariant forall k | 0 <= k < n :: ToLower(hay[p + k]) == ToLower(needle[k])
        decreases |needle| - n
      {
        if a == 0 {
          return true;
        }
        rhaystack, n := rhaystack + 1, n + 1;
        a := ToLower(CharAt(needle, n));
        if ToLower(CharAt(hay, rhaystack)) != a {
          break;
        }
        if a == 0 {
          return true;
        }
        rhaystack, n := rhaystack + 1, n + 1;
        a := ToLower(CharAt(needle, n));
        if ToLower(CharAt(hay, rhaystack)) != a {
          break;
        }
      }
    }
    found := a == 0;
  }

  function Rank(at: Label): nat {
    match at
    case Top => 2
    case Shloop => 2
    case Jin => 1
    case Compare => 0
  }

  /** Positions before this one have been excluded when the search is at label `at` with the pointer at `h`. */
  function Excluded(at: Label, h: int): int {
    match at
    case Top => h + 1
    case Shloop => h
    case Jin => h
    case Compare => h - 1
  }

  /** What is known at each label. */
  ghost predicate Known(hay: seq<Char>, needle: seq<Char>, at: Label, h: int, a: Char)
    requires |needle| >= 2
  {
    && NotBefore(hay, needle, Excluded(at, h)) && 0 <= h < |hay|
    && (at == Shloop ==> a == hay[h])
    && (at == Jin ==> ToLower(hay[h]) == ToLower(needle[0]))
    && (at == Compare ==> 1 <= h && ToLower(hay[h - 1]) == ToLower(needle[0]) && ToLower(hay[h]) == ToLower(needle[1]))
  }

  /** The inner loop: from one of its labels to a place where the first two characters match. */
  method FindTwo(hay: seq<Char>, needle: seq<Char>, start: Label, h0: int, bl: Char, bu: Char, cl: Char, cu: Char)
    returns (h: int, ended: bool)
    requires IsString(hay) && IsString(needle) && |needle| >= 2 && (start == Top || start == Jin)
    requires bl == ToLower(needle[0]) && bu == ToUpper(bl) && cl == ToLower(needle[1]) && cu == ToUpper(cl)
    requires Known(hay, needle, start, h0, 0)
    ensures ended ==> forall q :: !MatchAt(hay, needle, q)
    ensures !ended ==> Known(hay, needle, Compare, h, 0) && h - 1 >= Excluded(start, h0)
  {
    var at := start;
    var a: Char := 0;
    h := h0;
    while at != Compare
      invariant Known(hay, needle, at, h, a) && Excluded(at, h) >= Excluded(start, h0)
      decreases |hay| + 1 - Excluded(at, h), Rank(at)
    {
      if at == Top {
        h := h + 1;
        a := CharAt(hay, h);
        if a == 0 {
          NoRoom(hay, needle, h);
          return h, true;
        }
        BothCases(a, needle[0]);
        if a == bl || a == bu {
          at := Jin;
        } else {
          Exclude(hay, needle, h, 0);
          h := h + 1;
          a := CharAt(hay, h);
          if a == 0 {
            NoRoom(hay, needle, h);
            return h, true;
          }
          at := Shloop;
        }
      } else if at == Shloop {
        BothCases(a, needle[0]);
        if a != bl && a != bu {
          Exclude(hay, needle, h, 0);
          at := Top;
        } else {
          at := Jin;
        }
      } else {
        h := h + 1;
        a := CharAt(hay, h);
        if a == 0 {
          NoRoom(hay, needle, h - 1);
          return h, true;
        }
        BothCases(a, needle[1]);
        if a != cl && a != cu {
          Exclude(hay, needle, h - 1, 1);
          at := Shloop;
        } else {
          at := Compare;
        }
      }
    }
    ended := false;
  }

  /** strcasestr: the first place at which the needle is found ignoring case, or none if there is none. */
  method StrCaseStr(hay: seq<Char>, needle: seq<Char>) returns (r: Option<nat>)
    requires IsString(hay) && IsString(needle)
    ensures r.Some? ==> MatchAt(hay, needle, r.value) && NotBefore(hay, needle, r.value)
    ensures r == None <==> forall q :: !MatchAt(hay, needle, q)
  {
    var bl := ToLower(CharAt(needle, 0));
    if bl == 0 {
      assert MatchAt(hay, needle, 0);
      return Some(0);
    }
    var bu := ToUpper(bl);
    var h := -1;
    while true
      invariant -1 <= h < |hay| && NotBefore(hay, needle, h + 1)
      decreases |hay| - h
    {
      h := h + 1;
      var c := CharAt(hay, h);
      if c == 0 {
        NoRoom(hay, needle, h);
        return None;
      }
      BothCases(c, needle[0]);
      if c == bl || c == bu {
        break;
      }
      Exclude(hay, needle, h, 0);
    }
    var cl := ToLower(CharAt(needle, 1));
    if cl == 0 {
      assert MatchAt(hay, needle, h);
      return Some(h);
    }
    var cu := ToUpper(cl);
    var at := Jin;
    while true
      invariant Known(hay, needle, at, h, 0) && (at == Top || at == Jin)
      decreases |hay| + 1 - Excluded(at, h)
    {
      var ended;
      h, ended := FindTwo(hay, needle, at, h, bl, bu, cl, cu);
      if ended {
        return None;
      }
      h := h - 1;
      var found := CompareRest(hay, needle, h);
      if found {
        return Some(h);
      }
      at := Top;
    }
  }
}
