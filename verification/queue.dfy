/** A session's retry queue: a Python list of terms last reported absent, with the
    list operations the resolver applies to it. */
module RetryQueue {

  /** No term appears twice. */
  predicate NoDup(q: seq<string>) {
    forall i, j :: 0 <= i < j < |q| ==> q[i] != q[j]
  }

  /** Position of the first occurrence of `x`. */
  function FirstIndex(q: seq<string>, x: string): (i: nat)
    requires x in q
    ensures i < |q| && q[i] == x && x !in q[..i]
  {
    if q[0] == x then 0
    else
      var j := FirstIndex(q[1..], x);
      assert q[..j + 1] == [q[0]] + q[1..][..j];
      j + 1
  }

  /** Dropping the element at `i` removes one copy of it. */
  lemma DropAtCount(q: seq<string>, i: nat)
    requires i < |q|
    ensures multiset(q[..i] + q[i + 1..]) == multiset(q) - multiset{q[i]}
  {
    assert q == q[..i] + [q[i]] + q[i + 1..];
  }

  /** Dropping the element at `i` from a list without duplicates leaves a list
      without duplicates that no longer holds that element. */
  lemma DropAtNoDup(q: seq<string>, i: nat)
    requires i < |q| && NoDup(q)
    ensures NoDup(q[..i] + q[i + 1..]) && q[i] !in q[..i] + q[i + 1..]
  {
    var r := q[..i] + q[i + 1..];
    forall k | 0 <= k < |r|
      ensures r[k] == q[if k < i then k else k + 1]
    {
      if k >= i {
        assert r[k] == q[i + 1..][k - i];
      }
    }
  }

  /** Python's `list.remove(x)`: drops the first occurrence of `x`. Python raises
      `ValueError` when `x` is absent, so callers must know it is present. */
  function ListRemove(q: seq<string>, x: string): (r: seq<string>)
    requires x in q
    ensures exists i :: 0 <= i < |q| && q[i] == x && x !in q[..i] && r == q[..i] + q[i + 1..]
    ensures |r| == |q| - 1
    ensures multiset(r) == multiset(q) - multiset{x}
    ensures NoDup(q) ==> NoDup(r) && x !in r
  {
    var i := FirstIndex(q, x);
    DropAtCount(q, i);
    if NoDup(q) then
      DropAtNoDup(q, i);
      q[..i] + q[i + 1..]
    else
      q[..i] + q[i + 1..]
  }

  /** Every occurrence of `x` removed, order of the rest kept. */
  function Erase(q: seq<string>, x: string): (r: seq<string>)
    ensures x !in r
    ensures forall t :: t in r <==> t in q && t != x
  {
    if q == [] then []
    else if q[0] == x then Erase(q[1..], x)
    else [q[0]] + Erase(q[1..], x)
  }

  /** The terms of `q`, in order, that `hit` does not find: those still pending. */
  function Pending(q: seq<string>, hit: string -> bool): (r: seq<string>)
    ensures forall t :: t in r <==> t in q && !hit(t)
    ensures |r| <= |q|
    ensures NoDup(q) ==> NoDup(r)
  {
    if q == [] then []
    else if hit(q[0]) then Pending(q[1..], hit)
    else [q[0]] + Pending(q[1..], hit)
  }

  /** Filtering distributes over concatenation. */
  lemma {:induction false} PendingAppend(a: seq<string>, b: seq<string>, hit: string -> bool)
    ensures Pending(a + b, hit) == Pending(a, hit) + Pending(b, hit)
  {
    if a == [] {
      assert a + b == b;
    } else {
      assert (a + b)[0] == a[0];
      assert (a + b)[1..] == a[1..] + b;
      PendingAppend(a[1..], b, hit);
    }
  }

  /** A list none of whose terms is found passes the filter unchanged. */
  lemma {:induction false} PendingKeepsMisses(a: seq<string>, hit: string -> bool)
    requires forall t :: t in a ==> !hit(t)
    ensures Pending(a, hit) == a
  {
    if a != [] {
      PendingKeepsMisses(a[1..], hit);
      assert a == [a[0]] + a[1..];
    }
  }

  /** Removing the first occurrence of a term after a prefix that does not hold it
      removes the element right after the prefix. */
  lemma RemoveAfterPrefix(a: seq<string>, s: seq<string>, x: string)
    requires s != [] && s[0] == x && x !in a
    ensures ListRemove(a + s, x) == a + s[1..]
  {
    var q := a + s;
    var i := FirstIndex(q, x);
    assert q[|a|] == x;
    assert i == |a|;
    assert q[..i] == a;
    assert q[i + 1..] == s[1..];
  }

  /** Sweep step on a term the grep finds: `remove` takes out exactly the element
      being visited, and what remains still filters to the same pending terms. */
  lemma SweepHitStep(done: seq<string>, todo: seq<string>, hit: string -> bool)
    requires todo != [] && hit(todo[0])
    requires forall t :: t in done ==> !hit(t)
    ensures todo[0] in done + todo
    ensures ListRemove(done + todo, todo[0]) == done + todo[1..]
    ensures Pending(done + todo[1..], hit) == Pending(done + todo, hit)
  {
    assert (done + todo)[|done|] == todo[0];
    RemoveAfterPrefix(done, todo, todo[0]);
    PendingSkipsHit(done, todo, hit);
  }

  /** Dropping a hit from the middle of a list does not change what is pending. */
  lemma PendingSkipsHit(done: seq<string>, todo: seq<string>, hit: string -> bool)
    requires todo != [] && hit(todo[0])
    ensures Pending(done + todo[1..], hit) == Pending(done + todo, hit)
  {
    PendingAppend(done, todo[1..], hit);
    PendingAppend(done, todo, hit);
    assert Pending(todo, hit) == Pending(todo[1..], hit);
  }

  /** Sweep step on a term the grep misses: the visited prefix grows by one miss. */
  lemma SweepMissStep(cur: seq<string>, todo: seq<string>, hit: string -> bool)
    requires todo != [] && !hit(todo[0])
    requires |todo| <= |cur| && cur[|cur| - |todo|..] == todo
    requires forall j :: 0 <= j < |cur| - |todo| ==> !hit(cur[j])
    ensures cur[|cur| - |todo[1..]|..] == todo[1..]
    ensures forall j :: 0 <= j < |cur| - |todo[1..]| ==> !hit(cur[j])
  {
    assert cur[|cur| - |todo|] == todo[0];
  }

  /** The reconciliation loop `for term in queue.copy(): if hit(term): queue.remove(term)`.
      `todo` is the part of the copy not yet visited and `cur` the live list; the
      visited part of `cur` holds only misses and the rest of `cur` is exactly `todo`,
      which is why every `remove` finds its term. The loop leaves exactly the misses. */
  function SweepFrom(todo: seq<string>, cur: seq<string>, hit: string -> bool): (r: seq<string>)
    requires |todo| <= |cur| && cur[|cur| - |todo|..] == todo
    requires forall j :: 0 <= j < |cur| - |todo| ==> !hit(cur[j])
    ensures r == Pending(cur, hit)
    decreases |todo|
  {
    var done := cur[..|cur| - |todo|];
    assert cur == done + todo;
    if todo == [] then
      assert cur == done;
      PendingKeepsMisses(done, hit);
      cur
    else if hit(todo[0]) then
      SweepHitStep(done, todo, hit);
      var next := ListRemove(cur, todo[0]);
      assert next[..|next| - |todo[1..]|] == done;
      SweepFrom(todo[1..], next, hit)
    else
      SweepMissStep(cur, todo, hit);
      SweepFrom(todo[1..], cur, hit)
  }

  /** The whole reconciliation sweep over a copy of `q`: it removes every term `hit`
      finds, keeps every other term, and keeps their order. */
  function Sweep(q: seq<string>, hit: string -> bool): (r: seq<string>)
    ensures r == Pending(q, hit)
  {
    SweepFrom(q, q, hit)
  }

  /** Filtering twice is filtering once. */
  lemma PendingTwice(q: seq<string>, hit: string -> bool)
    ensures Pending(Pending(q, hit), hit) == Pending(q, hit)
  {
    PendingKeepsMisses(Pending(q, hit), hit);
  }

  /** Erasing an absent term changes nothing. */
  lemma {:induction false} NotInErase(q: seq<string>, x: string)
    requires x !in q
    ensures Erase(q, x) == q
  {
    if q != [] {
      NotInErase(q[1..], x);
      assert q == [q[0]] + q[1..];
    }
  }

  /** Erasing distributes over concatenation. */
  lemma {:induction false} EraseSplit(a: seq<string>, b: seq<string>, x: string)
    ensures Erase(a + b, x) == Erase(a, x) + Erase(b, x)
  {
    if a == [] {
      assert a + b == b;
    } else {
      assert (a + b)[0] == a[0];
      assert (a + b)[1..] == a[1..] + b;
      EraseSplit(a[1..], b, x);
    }
  }

  /** Erasing a term from a list that ends with its only occurrence drops the end. */
  lemma EraseAppend(q: seq<string>, x: string)
    requires x !in q
    ensures Erase(q + [x], x) == q
  {
    EraseSplit(q, [x], x);
    NotInErase(q, x);
    EraseSingle(x);
  }

  /** In a list without duplicates, nothing after position `i` repeats `q[i]`. */
  lemma NoRepeatAfter(q: seq<string>, i: nat)
    requires NoDup(q) && i < |q|
    ensures q[i] !in q[i + 1..]
  {
    var after := q[i + 1..];
    assert forall k :: 0 <= k < |after| ==> after[k] == q[i + 1 + k];
  }

  /** Erasing `x` from `before + [x] + after` when neither side holds it. */
  lemma EraseAround(before: seq<string>, x: string, after: seq<string>)
    requires x !in before && x !in after
    ensures Erase(before + [x] + after, x) == before + after
  {
    var front := before + [x];
    EraseSplit(front, after, x);
    EraseSplit(before, [x], x);
    NotInErase(before, x);
    NotInErase(after, x);
    EraseSingle(x);
    assert Erase(front, x) == before;
  }

  /** Erasing `x` from `[x]` leaves nothing. */
  lemma EraseSingle(x: string)
    ensures Erase([x], x) == []
  {
    assert [x][1..] == [];
  }

  /** On a list without duplicates, removing a present term erases it. */
  lemma RemovePresentIsErase(q: seq<string>, x: string)
    requires NoDup(q) && x in q
    ensures ListRemove(q, x) == Erase(q, x)
  {
    var i := FirstIndex(q, x);
    var before, after := q[..i], q[i + 1..];
    NoRepeatAfter(q, i);
    assert q == before + [x] + after;
    EraseAround(before, x, after);
  }

  /** On a list without duplicates, `remove` guarded by `in` erases the term. */
  lemma RemoveIsErase(q: seq<string>, x: string)
    requires NoDup(q)
    ensures (if x in q then ListRemove(q, x) else q) == Erase(q, x)
  {
    if x in q {
      RemovePresentIsErase(q, x);
    } else {
      NotInErase(q, x);
    }
  }
}
