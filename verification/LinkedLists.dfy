/** Singly linked lists whose links live in a table: `next[x]` is what comes after `x`. */
module LinkedLists {
  import opened Folding

  const NONE := -1      // the null pointer

  function At(q: seq<int>, i: int): int {
    if 0 <= i < |q| then q[i] else NONE
  }

  /** The list that begins at `head` consists of the elements of `q`, in that order. */
  ghost predicate Links(next: seq<int>, head: int, q: seq<int>) {
    && head == At(q, 0)
    && (forall i | 0 <= i < |q| :: 0 <= q[i] < |next|)
    && (forall i {:trigger LinkAt(next, q, i)} | 0 <= i < |q| :: LinkAt(next, q, i))
  }

  ghost predicate LinkAt(next: seq<int>, q: seq<int>, i: int)
    requires 0 <= i < |q| && 0 <= q[i] < |next|
  {
    next[q[i]] == At(q, i + 1)
  }

  ghost predicate Distinct(q: seq<int>) {
    forall i, j | 0 <= i < j < |q| :: q[i] != q[j]
  }

  function InsertedAt(q: seq<int>, k: int, x: int): seq<int>
    requires 0 <= k <= |q|
  {
    q[..k] + [x] + q[k..]
  }

  function RemovedAt(q: seq<int>, k: int): seq<int>
    requires 0 <= k < |q|
  {
    q[..k] + q[k + 1..]
  }

  /** A list does not notice changes to the links of other elements. */
  lemma LinksFrame(next: seq<int>, next': seq<int>, head: int, q: seq<int>)
    requires Links(next, head, q) && |next'| == |next|
    requires forall x | x in q && 0 <= x < |next| :: next'[x] == next[x]
    ensures Links(next', head, q)
  {
    forall i | 0 <= i < |q|
      ensures LinkAt(next', q, i)
    {
      assert LinkAt(next, q, i) && q[i] in q;
    }
  }

  lemma InsertDistinct(q: seq<int>, k: int, x: int)
    requires Distinct(q) && 0 <= k <= |q| && x !in q
    ensures Distinct(InsertedAt(q, k, x))
    ensures forall y :: y in InsertedAt(q, k, x) <==> y in q || y == x
  {
    var q' := InsertedAt(q, k, x);
    forall i, j | 0 <= i < j < |q'|
      ensures q'[i] != q'[j]
    {
      assert i < k ==> q'[i] == q[i];
      assert i > k ==> q'[i] == q[i - 1];
      assert j < k ==> q'[j] == q[j];
      assert j > k ==> q'[j] == q[j - 1];
    }
    assert q == q[..k] + q[k..];
  }

  /** The links of two elements, the new one and its predecessor, make an insertion. */
  lemma InsertLinks(next: seq<int>, head: int, q: seq<int>, k: int, x: int)
    requires Links(next, head, q) && Distinct(q) && 0 <= k <= |q| && 0 <= x < |next| && x !in q
    ensures var next1 := next[x := At(q, k)];
      Links(if k == 0 then next1 else next1[q[k - 1] := x], if k == 0 then x else head, InsertedAt(q, k, x))
  {
    var next1, q' := next[x := At(q, k)], InsertedAt(q, k, x);
    var next' := if k == 0 then next1 else next1[q[k - 1] := x];
    forall i | 0 <= i < |q'|
      ensures 0 <= q'[i] < |next'| && LinkAt(next', q', i)
    {
      if i < k {
        assert LinkAt(next, q, i) && q'[i] == q[i] && q[i] in q;
        assert At(q', i + 1) == if i + 1 == k then x else q[i + 1];
      } else if i > k {
        assert LinkAt(next, q, i - 1) && q'[i] == q[i - 1] && q[i - 1] in q;
        assert At(q', i + 1) == At(q, i);
      } else {
        assert q'[i] == x;
        assert At(q', i + 1) == At(q, k);
      }
    }
  }

  lemma RemoveDistinct(q: seq<int>, k: int)
    requires Distinct(q) && 0 <= k < |q|
    ensures Distinct(RemovedAt(q, k))
    ensures forall y :: y in RemovedAt(q, k) <==> y in q && y != q[k]
  {
    var q' := RemovedAt(q, k);
    forall i, j | 0 <= i < j < |q'|
      ensures q'[i] != q'[j]
    {
      assert q'[i] == if i < k then q[i] else q[i + 1];
      assert q'[j] == if j < k then q[j] else q[j + 1];
    }
    forall y
      ensures y in q' <==> y in q && y != q[k]
    {
      assert q == q[..k] + [q[k]] + q[k + 1..];
    }
  }

  /** Linking around an element removes it. */
  lemma UnlinkLinks(next: seq<int>, head: int, q: seq<int>, k: int)
    requires Links(next, head, q) && Distinct(q) && 0 <= k < |q|
    ensures Links(if k == 0 then next else next[q[k - 1] := next[q[k]]], if k == 0 then next[q[k]] else head, RemovedAt(q, k))
  {
    var q' := RemovedAt(q, k);
    assert LinkAt(next, q, k) && (k > 0 ==> LinkAt(next, q, k - 1));
    var next' := if k == 0 then next else next[q[k - 1] := next[q[k]]];
    forall i | 0 <= i < |q'|
      ensures 0 <= q'[i] < |next'| && LinkAt(next', q', i)
    {
      if i < k {
        assert LinkAt(next, q, i) && q'[i] == q[i];
        assert At(q', i + 1) == if i + 1 == k then At(q, k + 1) else q[i + 1];
      } else {
        assert LinkAt(next, q, i + 1) && q'[i] == q[i + 1];
        assert At(q', i + 1) == At(q, i + 2);
      }
    }
  }

  /** The links after `j` steps of the walk for element `k`: it is unlinked once it has been passed. */
  ghost function WalkLinks(next: seq<int>, q: seq<int>, k: int, j: int): (r: seq<int>)
    requires 0 < k < |q| && forall i | 0 <= i < |q| :: 0 <= q[i] < |next|
    ensures |r| == |next|
  {
    if j < k then next else next[q[k - 1] := next[q[k]]]
  }

  /** Where the walk stands after `j` steps. */
  ghost function WalkAt(q: seq<int>, k: int, j: int): int
    requires 0 < k < |q|
  {
    At(q, if j < k then j else j + 1)
  }

  /** The walk stands at `t` after `j` steps, with links `next'`. The quantifier keeps the definition folded wherever
      `Unfold` is not mentioned. */
  ghost predicate Walks(next: seq<int>, q: seq<int>, k: int, j: int, next': seq<int>, t: int) {
    && 0 < k < |q| && 0 <= j && |next'| == |next|
    && forall x {:trigger Unfold(x)} | Unfold(x) ::
         (forall i | 0 <= i < |q| :: 0 <= q[i] < |next|) && next' == WalkLinks(next, q, k, j) && t == WalkAt(q, k, j)
  }

  /** The list, folded in the same way. */
  ghost predicate Listed(next: seq<int>, head: int, q: seq<int>) {
    forall x {:trigger Unfold(x)} | Unfold(x) :: Links(next, head, q) && Distinct(q)
  }

  lemma WalkBegins(next: seq<int>, head: int, q: seq<int>, k: int)
    requires Listed(next, head, q) && 0 < k < |q|
    ensures Walks(next, q, k, 0, next, head)
    ensures head != NONE
  {
    assert Unfold(0);
  }

  /** One round of the walk, or its end. */
  lemma WalkRound(next: seq<int>, head: int, q: seq<int>, k: int, j: int, next': seq<int>, t: int)
    requires Listed(next, head, q) && Walks(next, q, k, j, next', t)
    ensures t != NONE ==> 0 <= t < |next'| && j < |q|
    ensures 0 <= q[k - 1] < |next| && 0 <= q[k] < |next|
    ensures t == NONE || next'[t] == NONE ==> next' == next[q[k - 1] := next[q[k]]]
    ensures k == |q| - 1 && t != NONE ==> next'[t] != NONE
    ensures next[q[k]] == NONE <==> k == |q| - 1
    ensures t != NONE && next'[t] == q[k] ==> next'[q[k]] == next[q[k]]
    ensures t != NONE && next'[t] != NONE ==>
      var next2 := if next'[t] == q[k] then next'[t := next'[q[k]]] else next';
      Walks(next, q, k, j + 1, next2, next2[t])
  {
    assert Unfold(0);
    WalkStep(next, head, q, k, j);
  }

  lemma WalkStep(next: seq<int>, head: int, q: seq<int>, k: int, j: int)
    requires Links(next, head, q) && Distinct(q) && 0 < k < |q| && 0 <= j
    ensures WalkAt(q, k, j) != NONE ==> 0 <= WalkAt(q, k, j) < |next| && j < |q|
    ensures 0 <= q[k - 1] < |next| && 0 <= q[k] < |next|
    ensures next[q[k]] == NONE <==> k == |q| - 1
    ensures var next', t := WalkLinks(next, q, k, j), WalkAt(q, k, j);
      (k == |q| - 1 && t != NONE ==> next'[t] != NONE) && (t != NONE && next'[t] == q[k] ==> next'[q[k]] == next[q[k]])
    ensures var next', t := WalkLinks(next, q, k, j), WalkAt(q, k, j);
      if t == NONE || next'[t] == NONE then j >= k
      else
        var next2 := if next'[t] == q[k] then next'[t := next'[q[k]]] else next';
        WalkLinks(next, q, k, j + 1) == next2 && WalkAt(q, k, j + 1) == next2[t]
  {
    assert LinkAt(next, q, k - 1) && LinkAt(next, q, k);
    if j < k {
      assert LinkAt(next, q, j);
      assert q[j + 1] == q[k] <==> j + 1 == k;
    } else if j + 1 < |q| {
      assert LinkAt(next, q, j + 1) && q[j + 1] != q[k - 1];
      assert j + 2 < |q| ==> q[j + 2] != q[k];
    }
  }

  /** Unlink `x`, the `k`-th element of the list; the links of no other list change. The walk stops at the end of the
      list; `pastEnd` tells that the original goes on there and reads the link of the null pointer, which it does just
      when the element removed is the last of several. */
  method Unlink(next: seq<int>, head: int, x: int, ghost q: seq<int>, ghost k: nat)
    returns (next': seq<int>, head': int, pastEnd: bool)
    requires Links(next, head, q) && Distinct(q) && k < |q| && q[k] == x
    ensures Links(next', head', RemovedAt(q, k)) && |next'| == |next|
    ensures forall y | 0 <= y < |next| && y !in q :: next'[y] == next[y]
    ensures pastEnd <==> 0 < k == |q| - 1
  {
    next', head', pastEnd := next, head, false;
    UnlinkLinks(next, head, q, k);
    if head == x {
      head' := next[x];
    } else {
      next', pastEnd := UnlinkBehind(next, head, x, q, k);
    }
  }

  /** The loop that looks for the element before `x` and links around `x`. */
  method UnlinkBehind(next: seq<int>, head: int, x: int, ghost q: seq<int>, ghost k: nat)
    returns (next': seq<int>, pastEnd: bool)
    requires Listed(next, head, q) && 0 < k < |q| && q[k] == x && 0 <= q[k - 1] < |next| && 0 <= x < |next|
    ensures next' == next[q[k - 1] := next[x]] && (pastEnd <==> k == |q| - 1)
  {
    next' := next;
    var t := head;
    ghost var j := 0;
    WalkBegins(next, head, q, k);
    WalkRound(next, head, q, k, j, next', t);
    while t != NONE && next'[t] != NONE
      invariant Walks(next, q, k, j, next', t)
      invariant t != NONE ==> 0 <= t < |next'| && j < |q|
      invariant t == NONE ==> k == |q| - 1
      decreases |q| - j
    {
      WalkRound(next, head, q, k, j, next', t);
      if next'[t] == x {
        next' := next'[t := next'[x]];
      }
      t := next'[t];
      j := j + 1;
      WalkRound(next, head, q, k, j, next', t);
    }
    WalkRound(next, head, q, k, j, next', t);
    pastEnd := t == NONE;
  }

  /** Several lists in one table, the `m`-th of them beginning at `heads[m]`. */
  ghost predicate AllLinks(next: seq<int>, heads: seq<int>, lists: seq<seq<int>>) {
    |heads| == |lists| && forall m {:trigger lists[m]} | 0 <= m < |lists| :: Links(next, heads[m], lists[m])
  }

  /** No element is in two lists. */
  ghost predicate AllApart(lists: seq<seq<int>>) {
    forall m, n, x | 0 <= m < |lists| && 0 <= n < |lists| && m != n && x in lists[m] :: x !in lists[n]
  }

  lemma InsertAll(next: seq<int>, heads: seq<int>, lists: seq<seq<int>>, m: int, k: int, x: int)
    requires AllLinks(next, heads, lists) && AllApart(lists) && 0 <= m < |lists| && Distinct(lists[m])
    requires 0 <= k <= |lists[m]| && 0 <= x < |next| && forall n | 0 <= n < |lists| :: x !in lists[n]
    ensures var q, next1 := lists[m], next[x := At(lists[m], k)];
      AllLinks(if k == 0 then next1 else next1[q[k - 1] := x], if k == 0 then heads[m := x] else heads,
               lists[m := InsertedAt(q, k, x)])
  {
    var q, next1 := lists[m], next[x := At(lists[m], k)];
    var next' := if k == 0 then next1 else next1[q[k - 1] := x];
    InsertLinks(next, heads[m], q, k, x);
    forall n | 0 <= n < |lists| && n != m
      ensures Links(next', heads[n], lists[n])
    {
      LinksFrame(next, next', heads[n], lists[n]);
    }
  }

  /** The same for an insertion at the head. */
  lemma PushAll(next: seq<int>, heads: seq<int>, lists: seq<seq<int>>, m: int, x: int)
    requires AllLinks(next, heads, lists) && AllApart(lists) && 0 <= m < |lists| && Distinct(lists[m])
    requires 0 <= x < |next| && forall n | 0 <= n < |lists| :: x !in lists[n]
    ensures AllLinks(next[x := heads[m]], heads[m := x], lists[m := [x] + lists[m]])
  {
    var q, next' := lists[m], next[x := heads[m]];
    assert Links(next, heads[m], q);
    PushLinks(next, heads[m], q, x);
    forall n | 0 <= n < |lists| && n != m
      ensures Links(next', heads[n], lists[n])
    {
      LinksFrame(next, next', heads[n], lists[n]);
    }
  }

  lemma PushLinks(next: seq<int>, head: int, q: seq<int>, x: int)
    requires Links(next, head, q) && 0 <= x < |next| && x !in q
    ensures Links(next[x := head], x, [x] + q)
  {
    var next', q' := next[x := head], [x] + q;
    forall i | 0 <= i < |q'|
      ensures 0 <= q'[i] < |next'| && LinkAt(next', q', i)
    {
      if i > 0 {
        assert LinkAt(next, q, i - 1) && q'[i] == q[i - 1] && q[i - 1] in q && At(q', i + 1) == At(q, i);
      }
    }
  }

  /** Changing the links of the elements of one list leaves the others. */
  lemma ChangeOne(next: seq<int>, heads: seq<int>, lists: seq<seq<int>>, m: int, next': seq<int>, head': int, q': seq<int>)
    requires AllLinks(next, heads, lists) && AllApart(lists) && 0 <= m < |lists| && Links(next', head', q')
    requires |next'| == |next| && forall y | 0 <= y < |next| && y !in lists[m] :: next'[y] == next[y]
    ensures AllLinks(next', heads[m := head'], lists[m := q'])
  {
    forall n | 0 <= n < |lists| && n != m
      ensures Links(next', heads[n], lists[n])
    {
      LinksFrame(next, next', heads[n], lists[n]);
    }
  }
}
