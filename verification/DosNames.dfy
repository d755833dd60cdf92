/** Making a short file name differ: the number behind its tilde counts up. */
module DosNames {
  import opened Options
  import opened Sectors

  const TILDE: Byte := '~' as int
  const SPACE: Byte := ' ' as int
  const MINUS: Byte := '-' as int
  const PLUS: Byte := '+' as int
  const COUNT_LIMIT := 10000000

  predicate IsDigit(c: Byte) {
    '0' as int <= c <= '9' as int
  }

  predicate IsBlank(c: Byte) {
    c == ' ' as int || 9 <= c <= 13
  }

  /** How many digits a text begins with. */
  function Leading(s: seq<Byte>): (n: nat)
    ensures n <= |s| && (n < |s| ==> !IsDigit(s[n])) && forall i | 0 <= i < n :: IsDigit(s[i])
  {
    if s == [] || !IsDigit(s[0]) then 0 else 1 + Leading(s[1..])
  }

  /** The value of digits. */
  function Value(s: seq<Byte>): nat
    requires forall i | 0 <= i < |s| :: IsDigit(s[i])
  {
    if s == [] then 0 else
      var d: int := s[|s| - 1];
      assert IsDigit(s[|s| - 1]);
      10 * Value(s[..|s| - 1]) + (d - '0' as int)
  }

  function SkipBlanks(s: seq<Byte>): (r: seq<Byte>)
    ensures |r| <= |s|
  {
    if s == [] || !IsBlank(s[0]) then s else SkipBlanks(s[1..])
  }

  function ParseNat(s: seq<Byte>): nat {
    Value(s[..Leading(s)])
  }

  /** atoi */
  function Atoi(s: seq<Byte>): int {
    var t := SkipBlanks(s);
    if t != [] && t[0] == MINUS then 0 - ParseNat(t[1..]) as int
    else if t != [] && t[0] == PLUS then ParseNat(t[1..])
    else ParseNat(t)
  }

  function Digits(n: nat): (s: seq<Byte>)
    ensures |s| >= 1 && forall i | 0 <= i < |s| :: IsDigit(s[i])
  {
    if n < 10 then ['0' as int + n] else Digits(n / 10) + ['0' as int + n % 10]
  }

  /** What %d prints. */
  function Printed(n: int): seq<Byte> {
    if n < 0 then [MINUS] + Digits(-n) else Digits(n)
  }

  lemma {:induction false} ValueOfDigits(n: nat)
    ensures Value(Digits(n)) == n
  {
    if n >= 10 {
      ValueOfDigits(n / 10);
      var s := Digits(n);
      assert s[..|s| - 1] == Digits(n / 10);
    } else {
      assert Digits(n)[..0] == [];
    }
  }

  /** Digits are read up to the first other character. */
  lemma ParsePrinted(n: nat, rest: seq<Byte>)
    requires rest == [] || !IsDigit(rest[0])
    ensures ParseNat(Digits(n) + rest) == n
  {
    var s, d := Digits(n) + rest, Digits(n);
    var k := Leading(s);
    assert forall i | 0 <= i < |d| :: s[i] == d[i];
    assert rest != [] ==> s[|d|] == rest[0];
    assert k == |d|;
    assert s[..k] == d;
    ValueOfDigits(n);
  }

  /** A printed number is read back, whatever follows but a digit. */
  lemma AtoiPrinted(n: int, rest: seq<Byte>)
    requires rest == [] || !IsDigit(rest[0])
    ensures Atoi(Printed(n) + rest) == n
  {
    if n < 0 {
      AtoiMinus(-n, rest);
      assert Printed(n) + rest == [MINUS] + (Digits(-n) + rest);
    } else {
      AtoiPlain(n, rest);
    }
  }

  lemma AtoiMinus(n: int, rest: seq<Byte>)
    requires 0 <= n && (rest == [] || !IsDigit(rest[0]))
    ensures Atoi([MINUS] + (Digits(n) + rest)) == -n
  {
    var s := [MINUS] + (Digits(n) + rest);
    assert SkipBlanks(s) == s && s[1..] == Digits(n) + rest;
    ParsePrinted(n, rest);
  }

  lemma AtoiPlain(n: nat, rest: seq<Byte>)
    requires rest == [] || !IsDigit(rest[0])
    ensures Atoi(Digits(n) + rest) == n
  {
    var s, d := Digits(n) + rest, Digits(n);
    assert s[0] == d[0] && IsDigit(d[0]);
    assert SkipBlanks(s) == s;
    ParsePrinted(n, rest);
  }

  function Pow10(k: nat): nat {
    if k == 0 then 1 else 10 * Pow10(k - 1)
  }

  lemma {:induction false} ValueBound(s: seq<Byte>)
    requires forall i | 0 <= i < |s| :: IsDigit(s[i])
    ensures Value(s) < Pow10(|s|)
  {
    if s != [] {
      ValueBound(s[..|s| - 1]);
    }
  }

  lemma {:induction false} Pow10Grows(j: nat, k: nat)
    requires j <= k
    ensures 1 <= Pow10(j) <= Pow10(k)
  {
    if k > 0 {
      if j < k {
        Pow10Grows(j, k - 1);
      } else {
        Pow10Grows(j - 1, k - 1);
      }
    }
  }

  lemma {:induction false} DigitsBound(n: nat, k: nat)
    requires n < Pow10(k) && k >= 1
    ensures |Digits(n)| <= k
  {
    if n >= 10 {
      assert k >= 2;
      DigitsBound(n / 10, k - 1);
    }
  }

  /** Seven characters hold no number below -999999 or above 9999999. */
  lemma AtoiBound(s: seq<Byte>)
    requires |s| <= 7
    ensures -999999 <= Atoi(s) <= 9999999
  {
    var t := SkipBlanks(s);
    PowersOfTen();
    if t != [] && (t[0] == MINUS || t[0] == PLUS) {
      var d := t[1..][..Leading(t[1..])];
      ValueBound(d);
      Pow10Grows(|d|, 6);
    } else {
      var d := t[..Leading(t)];
      ValueBound(d);
      Pow10Grows(|d|, 7);
    }
  }

  /** The first tilde of a name, or 8. */
  function TildeAt(name: seq<Byte>, i: nat): (k: nat)
    requires |name| == 11 && i <= 8
    ensures i <= k <= 8 && (k < 8 ==> name[k] == TILDE) && forall j | i <= j < k :: name[j] != TILDE
    decreases 8 - i
  {
    if i == 8 || name[i] == TILDE then i else TildeAt(name, i + 1)
  }

  /** The first space or tilde of a name, or 8: where its proper characters end. */
  function EndAt(name: seq<Byte>, i: nat): (k: nat)
    requires |name| == 11 && i <= 8
    ensures i <= k <= 8 && (k < 8 ==> name[k] == TILDE || name[k] == SPACE)
    ensures forall j | i <= j < k :: name[j] != TILDE && name[j] != SPACE
    decreases 8 - i
  {
    if i == 8 || name[i] == TILDE || name[i] == SPACE then i else EndAt(name, i + 1)
  }

  /** The number behind the first tilde. */
  function Counter(name: seq<Byte>): Option<int>
    requires |name| == 11
  {
    var k := TildeAt(name, 0);
    if k < 8 then Some(Atoi(name[k + 1..8])) else None
  }

  /** C's remainder. */
  function Remainder(a: int, m: int): int
    requires m > 0
  {
    if a >= 0 then a % m else -((-a) % m)
  }

  function NextCounter(name: seq<Byte>): int
    requires |name| == 11
  {
    Remainder(if Counter(name).Some? then Counter(name).value + 1 else 1, COUNT_LIMIT)
  }

  lemma NextCounterFits(name: seq<Byte>)
    requires |name| == 11
    ensures -999999 < NextCounter(name) < COUNT_LIMIT && 1 <= |Printed(NextCounter(name))| <= 7
  {
    var k := TildeAt(name, 0);
    if k < 8 {
      AtoiBound(name[k + 1..8]);
    }
    var n := NextCounter(name);
    if n < 0 {
      assert Pow10(6) == 1000000 by { PowersOfTen(); }
      DigitsBound(-n, 6);
    } else {
      assert Pow10(7) == COUNT_LIMIT by { PowersOfTen(); }
      DigitsBound(n, 7);
    }
  }

  lemma PowersOfTen()
    ensures Pow10(6) == 1000000 && Pow10(7) == 10000000
  {
    assert Pow10(1) == 10;
    assert Pow10(2) == 100;
    assert Pow10(3) == 1000;
    assert Pow10(4) == 10000;
    assert Pow10(5) == 100000;
  }

  function Spaces(n: nat): (r: seq<Byte>)
    ensures |r| == n && forall i | 0 <= i < n :: r[i] == SPACE
  {
    if n == 0 then [] else [SPACE] + Spaces(n - 1)
  }

  /** Look for the first tilde, and for the first space or tilde. */
  method FindMarks(name: seq<Byte>) returns (tilde: nat, lastpt: nat)
    requires |name| == 11
    ensures tilde == TildeAt(name, 0) && lastpt == EndAt(name, 0)
  {
    tilde, lastpt := 8, 8;
    var i := 0;
    while i < 8
      invariant 0 <= i <= 8
      invariant if tilde < 8 then tilde < i && tilde == TildeAt(name, 0) else TildeAt(name, 0) == TildeAt(name, i)
      invariant if lastpt < 8 then lastpt < i && lastpt == EndAt(name, 0) else EndAt(name, 0) == EndAt(name, i)
      invariant tilde <= 8 && lastpt <= 8
    {
      if tilde == 8 && name[i] == TILDE {
        tilde := i;
      }
      if lastpt == 8 && (name[i] == SPACE || name[i] == TILDE) {
        lastpt := i;
      }
      i := i + 1;
    }
  }

  /** randomize_dos_name: the number becomes one higher, and takes the place of the last characters if need be. */
  method RandomizeDosName(name: seq<Byte>) returns (r: seq<Byte>)
    requires |name| == 11
    ensures |r| == 11 && r[8..] == name[8..]
    ensures Counter(r) == Some(NextCounter(name)) && MarkedAtEnd(name, r)
    ensures r == Randomized(name)
  {
    var tilde, lastpt := FindMarks(name);
    var num := NextNumber(name, tilde);
    RandomizedCounter(name);
    RandomizedKeeps(name);
    r := PlaceNumber(name, num, lastpt, NextCounter(name));
  }

  /** Put the number behind the proper characters, or in place of the last ones. */
  method PlaceNumber(name: seq<Byte>, num: seq<Byte>, lastpt: nat, ghost n: int) returns (r: seq<Byte>)
    requires |name| == 11 && lastpt == EndAt(name, 0) && |Printed(n)| <= 7 && num == [TILDE] + Printed(n)
    ensures r == Numbered(name, n)
  {
    var numlen := |num|;
    var offset := lastpt;
    if offset > 8 - numlen {
      offset := 8 - numlen;
    }
    r := PutNumber(name, num, offset);
  }

  /** A tilde and the next number. */
  method NextNumber(name: seq<Byte>, tilde: nat) returns (num: seq<Byte>)
    requires |name| == 11 && tilde == TildeAt(name, 0)
    ensures num == [TILDE] + Printed(NextCounter(name)) && 2 <= |num| <= 8
  {
    var cnt := 1;
    if tilde < 8 {
      cnt := Atoi(name[tilde + 1..8]) + 1;
    }
    cnt := Remainder(cnt, COUNT_LIMIT);
    NextCounterFits(name);
    num := [TILDE] + Printed(cnt);
  }

  /** Put the number there, and spaces behind it. */
  method PutNumber(name: seq<Byte>, num: seq<Byte>, offset: nat) returns (r: seq<Byte>)
    requires |name| == 11 && offset + |num| <= 8
    ensures r == name[..offset] + num + Spaces(8 - offset - |num|) + name[8..]
  {
    r := name[..offset] + num + name[offset + |num|..];
    var at := offset + |num|;
    while at < 8
      invariant offset + |num| <= at <= 8
      invariant r == name[..offset] + num + Spaces(at - offset - |num|) + name[at..]
    {
      OneMoreSpace(at - offset - |num|);
      r := r[at := SPACE];
      at := at + 1;
    }
  }

  lemma {:induction false} OneMoreSpace(n: nat)
    ensures Spaces(n + 1) == Spaces(n) + [SPACE]
  {
    if n > 0 {
      OneMoreSpace(n - 1);
    }
  }

  /** The name with the number `n` put in as far to the front as it has to be, and not behind its proper characters. */
  function Numbered(name: seq<Byte>, n: int): (r: seq<Byte>)
    requires |name| == 11 && |Printed(n)| <= 7
    ensures |r| == 11
  {
    var num := [TILDE] + Printed(n);
    var offset := if EndAt(name, 0) > 8 - |num| then 8 - |num| else EndAt(name, 0);
    name[..offset] + num + Spaces(8 - offset - |num|) + name[8..]
  }

  function Randomized(name: seq<Byte>): (r: seq<Byte>)
    requires |name| == 11
    ensures |r| == 11
  {
    NextCounterFits(name);
    Numbered(name, NextCounter(name))
  }

  /** A name put together from parts. */
  lemma PartsOf(head: seq<Byte>, printed: seq<Byte>, rest: seq<Byte>, ext: seq<Byte>)
    requires |head| + 1 + |printed| + |rest| == 8 && |ext| == 3
    ensures var r := head + ([TILDE] + printed) + rest + ext;
      && r == head + [TILDE] + (printed + rest + ext) && |r| == 11
      && r[|head| + 1..8] == printed + rest && r[8..] == ext
  {
  }

  lemma FirstTilde(head: seq<Byte>, tail: seq<Byte>)
    requires |head| < 8 && |head| + 1 + |tail| == 11 && forall j | 0 <= j < |head| :: head[j] != TILDE
    ensures TildeAt(head + [TILDE] + tail, 0) == |head|
  {
    var r := head + [TILDE] + tail;
    assert r[|head|] == TILDE;
    assert forall j | 0 <= j < |head| :: r[j] == head[j];
  }

  /** The number in a name put together from parts. */
  lemma CounterOfParts(head: seq<Byte>, n: int, printed: seq<Byte>, rest: seq<Byte>, ext: seq<Byte>)
    requires printed == Printed(n) && |head| + 1 + |printed| + |rest| == 8 && |ext| == 3
    requires forall j | 0 <= j < |head| :: head[j] != TILDE
    requires forall j | 0 <= j < |rest| :: rest[j] == SPACE
    ensures var r := head + ([TILDE] + printed) + rest + ext;
      |r| == 11 && r[8..] == ext && Counter(r) == Some(n)
  {
    var r := head + ([TILDE] + printed) + rest + ext;
    PartsOf(head, printed, rest, ext);
    FirstTilde(head, printed + rest + ext);
    assert TildeAt(r, 0) == |head|;
    AtoiPrinted(n, rest);
    assert r[|head| + 1..8] == printed + rest;
  }

  lemma NumberedCounter(name: seq<Byte>, n: int)
    requires |name| == 11 && |Printed(n)| <= 7
    ensures Counter(Numbered(name, n)) == Some(n) && Numbered(name, n)[8..] == name[8..]
  {
    var printed := Printed(n);
    var num := [TILDE] + printed;
    var offset := if EndAt(name, 0) > 8 - |num| then 8 - |num| else EndAt(name, 0);
    CounterOfParts(name[..offset], n, printed, Spaces(8 - offset - |num|), name[8..]);
  }

  /** The new name's first tilde is the one put there, with the next number behind it. */
  lemma RandomizedCounter(name: seq<Byte>)
    requires |name| == 11
    ensures Counter(Randomized(name)) == Some(NextCounter(name))
    ensures Randomized(name)[8..] == name[8..]
  {
    NextCounterFits(name);
    NumberedCounter(name, NextCounter(name));
  }

  /** The numbers count from 1 to 9999999, and then on from 0. */
  lemma CountsUp(name: seq<Byte>)
    requires |name| == 11
    ensures Counter(name) == None ==> NextCounter(name) == 1
    ensures Counter(name) != None ==>
      NextCounter(name) == if Counter(name).value == 9999999 then 0 else Counter(name).value + 1
  {
    var k := TildeAt(name, 0);
    if k < 8 {
      AtoiBound(name[k + 1..8]);
    }
  }

  /** The place of digit `i` of a number gives it its weight. */
  lemma {:induction false} DigitWeighs(s: seq<Byte>, i: nat, x: Byte)
    requires i < |s| && IsDigit(x) && forall j | 0 <= j < |s| :: IsDigit(s[j])
    ensures Value(s[i := x]) == Value(s) + (x - s[i]) * Pow10(|s| - 1 - i)
  {
    var n := |s| - 1;
    var t := s[i := x];
    if i < n {
      assert t[..n] == s[..n][i := x];
      DigitWeighs(s[..n], i, x);
      TenTimes(x - s[i], Pow10(n - 1 - i));
    } else {
      assert t[..n] == s[..n];
    }
  }

  lemma TenTimes(a: int, p: int)
    ensures 10 * (a * p) == a * (10 * p)
  {
  }

  lemma {:induction false} ZerosAreZero(s: seq<Byte>)
    requires forall j | 0 <= j < |s| :: s[j] == 48
    ensures Value(s) == 0
  {
    if s != [] {
      ZerosAreZero(s[..|s| - 1]);
    }
  }

  /** Name `r` is `name` up to a tilde, and then a number with nothing but spaces behind it. */
  predicate Marked(name: seq<Byte>, r: seq<Byte>)
    requires |name| == |r| == 11
  {
    var k := TildeAt(r, 0);
    && k < 7 && r[k] == 126 && r[..k] == name[..k] && r[8..] == name[8..]
    && k <= EndAt(name, 0) && (forall j | 0 <= j < k :: name[j] != 32 && name[j] != 126)
    && k + 2 <= EndAt(r, k + 1) && (forall j | EndAt(r, k + 1) <= j < 8 :: r[j] == 32)
    && forall j | k < j < EndAt(r, k + 1) :: 48 <= r[j] <= 57 || (j == k + 1 && r[j] == 45)
  }

  /** All of the proper characters stay in front of the tilde, or as many as leave room for the number. */
  predicate MarkedAtEnd(name: seq<Byte>, r: seq<Byte>)
    requires |name| == |r| == 11
  {
    var k := TildeAt(r, 0);
    Marked(name, r) && (name[k] == 32 || name[k] == 126 || EndAt(r, k + 1) == 8)
  }

  lemma FirstEnd(r: seq<Byte>, i: nat, k: nat)
    requires |r| == 11 && i <= k <= 8 && (k < 8 ==> r[k] == 32)
    requires forall j | i <= j < k :: r[j] != TILDE && r[j] != SPACE
    ensures EndAt(r, i) == k
  {
  }

  lemma PrintedChars(n: int)
    ensures forall i | 0 <= i < |Printed(n)| :: 48 <= Printed(n)[i] <= 57 || (i == 0 && Printed(n)[i] == 45)
  {
  }

  /** The bytes of a name put together from parts. */
  lemma PartsBytes(head: seq<Byte>, printed: seq<Byte>, rest: seq<Byte>, ext: seq<Byte>, r: seq<Byte>)
    requires |head| + 1 + |printed| + |rest| == 8 && |ext| == 3 && r == head + ([TILDE] + printed) + rest + ext
    ensures var k, m := |head|, |head| + 1 + |printed|;
      && |r| == 11 && r[..k] == head && r[k] == TILDE && r[8..] == ext
      && (forall j | k < j < m :: r[j] == printed[j - k - 1])
      && (forall j | m <= j < 8 :: r[j] == rest[j - m])
  {
    PartsOf(head, printed, rest, ext);
  }

  /** A name put together from parts is marked. */
  lemma PartsMarked(name: seq<Byte>, k: nat, n: int, printed: seq<Byte>, rest: seq<Byte>)
    requires |name| == 11 && printed == Printed(n) && k + 1 + |printed| + |rest| == 8 && k <= EndAt(name, 0)
    requires forall j | 0 <= j < |rest| :: rest[j] == SPACE
    ensures var r := name[..k] + ([TILDE] + printed) + rest + name[8..];
      |r| == 11 && TildeAt(r, 0) == k && EndAt(r, k + 1) == k + 1 + |printed| && Marked(name, r)
  {
    var r := name[..k] + ([TILDE] + printed) + rest + name[8..];
    PartsOf(name[..k], printed, rest, name[8..]);
    FirstTilde(name[..k], printed + rest + name[8..]);
    PartsBytes(name[..k], printed, rest, name[8..], r);
    PrintedChars(n);
    FirstEnd(r, k + 1, k + 1 + |printed|);
  }

  /** randomize_dos_name keeps what stands in front of the number, as much as there is room for. */
  lemma RandomizedKeeps(name: seq<Byte>)
    requires |name| == 11
    ensures MarkedAtEnd(name, Randomized(name))
  {
    NextCounterFits(name);
    var n := NextCounter(name);
    var printed, e := Printed(n), EndAt(name, 0);
    var offset := if e > 7 - |printed| then 7 - |printed| else e;
    PartsMarked(name, offset, n, printed, Spaces(7 - offset - |printed|));
    assert Randomized(name) == name[..offset] + ([TILDE] + printed) + Spaces(7 - offset - |printed|) + name[8..];
  }

  /** However often it is called, the name stays the same up to its tilde. */
  lemma MarkedAgain(name: seq<Byte>, r: seq<Byte>, s: seq<Byte>)
    requires |name| == |r| == |s| == 11 && Marked(name, r) && Marked(r, s)
    ensures Marked(name, s)
  {
    var k, l := TildeAt(r, 0), TildeAt(s, 0);
    assert r[k] == 126;
    assert s[..l] == r[..l] == name[..l];
    forall j | 0 <= j < l
      ensures name[j] != 32 && name[j] != 126
    {
      assert name[..k][j] == r[..k][j];
    }
  }

  /** The next name still begins as the first one. */
  lemma MarkedOn(name: seq<Byte>, r: seq<Byte>)
    requires |name| == |r| == 11 && (r == name || Marked(name, r))
    ensures Marked(name, Randomized(r))
  {
    RandomizedKeeps(r);
    if r != name {
      MarkedAgain(name, r, Randomized(r));
    }
  }

  /** The new name, from where its proper characters end and the number it gets. */
  lemma RandomizedIs(name: seq<Byte>, e: nat, n: int, printed: seq<Byte>, offset: nat)
    requires |name| == 11 && NextCounter(name) == n && Printed(n) == printed && |printed| <= 7
    requires e <= 8 && (e < 8 ==> name[e] == 32 || name[e] == 126) && forall j | 0 <= j < e :: name[j] != 32 && name[j] != 126
    requires offset == if e <= 7 - |printed| then e else 7 - |printed|
    ensures Randomized(name) == name[..offset] + ([126] + printed) + Spaces(7 - offset - |printed|) + name[8..]
  {
    assert EndAt(name, 0) == e;
  }

  /** "FOO     TXT" becomes "FOO~1   TXT". */
  lemma FooBecomes()
    ensures Randomized([70, 79, 79, 32, 32, 32, 32, 32, 84, 88, 84]) == [70, 79, 79, 126, 49, 32, 32, 32, 84, 88, 84]
  {
    var name: seq<Byte> := [70, 79, 79, 32, 32, 32, 32, 32, 84, 88, 84];
    assert TildeAt(name, 0) == 8;
    RandomizedIs(name, 3, 1, [49], 3);
    assert Spaces(3) == [32, 32, 32];
  }

  /** "LONGNAMETXT" becomes "LONGNA~1TXT". */
  lemma LongNameBecomes()
    ensures Randomized([76, 79, 78, 71, 78, 65, 77, 69, 84, 88, 84]) == [76, 79, 78, 71, 78, 65, 126, 49, 84, 88, 84]
  {
    var name: seq<Byte> := [76, 79, 78, 71, 78, 65, 77, 69, 84, 88, 84];
    assert TildeAt(name, 0) == 8;
    RandomizedIs(name, 8, 1, [49], 6);
    assert Spaces(0) == [];
  }

  /** "ABCDEF~9TXT" becomes "ABCDE~10TXT". */
  lemma NinthBecomes()
    ensures Randomized([65, 66, 67, 68, 69, 70, 126, 57, 84, 88, 84]) == [65, 66, 67, 68, 69, 126, 49, 48, 84, 88, 84]
  {
    var name: seq<Byte> := [65, 66, 67, 68, 69, 70, 126, 57, 84, 88, 84];
    assert TildeAt(name, 0) == 6 && name[7..8] == [57] == Digits(9) + [];
    AtoiPrinted(9, []);
    assert Digits(10) == Digits(1) + [48];
    RandomizedIs(name, 6, 10, [49, 48], 5);
    assert Spaces(0) == [];
  }
}
