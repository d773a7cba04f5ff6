/**
 * What one pass of `Scheduler::terminate` does to the ready queue, as a
 * function of the queue's contents. The pass dequeues the head once per
 * round, drops it when its id is the terminated one and enqueues it again
 * otherwise. As written the loop is bounded by the live queue size, which
 * the drop decrements, so a pass that drops a thread stops early and leaves
 * the survivors rotated; `FixedPass` is the pass bounded by the size the
 * queue had when it started.
 */
module Termination {
  import opened ThreadQueue

  /** The threads of `q` other than those with id `id`, in queue order. */
  function Survivors(q: seq<Thread>, id: int): (r: seq<Thread>)
    ensures |r| <= |q|
  {
    if q == [] then []
    else if q[0].threadId == id then Survivors(q[1..], id)
    else [q[0]] + Survivors(q[1..], id)
  }

  /**
   * The loop as written, from round `i` on: the queue holds `q` and the
   * bound, the live size, equals `|q|`.
   */
  function AsWrittenPass(q: seq<Thread>, id: int, i: nat): (r: seq<Thread>)
    ensures |r| <= |q|
    decreases |q| - i
  {
    if i >= |q| then q else AsWrittenPass(AsWrittenRound(q, id), id, i + 1)
  }

  /** The loop bounded by the starting size: `k` rounds are left. */
  function FixedPass(q: seq<Thread>, id: int, k: nat): (r: seq<Thread>)
    requires k <= |q|
    ensures |r| <= |q|
    decreases k
  {
    if k == 0 then q
    else if q[0].threadId == id then FixedPass(q[1..], id, k - 1)
    else FixedPass(q[1..] + [q[0]], id, k - 1)
  }

  /** The survivors are exactly the queued threads whose id is not `id`. */
  lemma {:induction false} SurvivorsMembers(q: seq<Thread>, id: int)
    ensures forall t :: t in Survivors(q, id) <==> t in q && t.threadId != id
  {
    if q != [] {
      SurvivorsMembers(q[1..], id);
      assert q == [q[0]] + q[1..];
    }
  }

  lemma SurvivorsAppend(a: seq<Thread>, b: seq<Thread>, id: int)
    ensures Survivors(a + b, id) == Survivors(a, id) + Survivors(b, id)
  {
    if a == [] {
      assert a + b == b;
    } else {
      assert (a + b)[1..] == a[1..] + b;
      SurvivorsAppend(a[1..], b, id);
    }
  }

  /** Rounds over threads that do not match only rotate the queue. */
  lemma {:induction false} AsWrittenRotates(q: seq<Thread>, id: int, i: nat, k: nat)
    requires i + k <= |q|
    requires forall j :: 0 <= j < k ==> q[j].threadId != id
    ensures AsWrittenPass(q, id, i) == AsWrittenPass(q[k..] + q[..k], id, i + k)
    decreases k
  {
    if k == 0 {
      assert q[0..] + q[..0] == q;
    } else {
      var r := AsWrittenRound(q, id);
      assert r == q[1..] + [q[0]];
      assert forall j :: 0 <= j < k - 1 ==> r[j] == q[j + 1];
      AsWrittenRotates(r, id, i + 1, k - 1);
      PassUnfolds(q, id, i);
      RotationStep(q, k);
    }
  }

  /** Rotating by one and then by `k - 1` rotates by `k`. */
  lemma RotationStep(q: seq<Thread>, k: nat)
    requires 0 < k <= |q|
    ensures var r := q[1..] + [q[0]]; r[k - 1..] + r[..k - 1] == q[k..] + q[..k]
  {
    var r := q[1..] + [q[0]];
    assert r[k - 1..] == q[k..] + [q[0]];
    assert r[..k - 1] == q[1..k];
    assert q[..k] == [q[0]] + q[1..k];
  }

  /** A pass for a thread that is not queued leaves the queue exactly as it was. */
  lemma {:induction false} AsWrittenWithoutMatch(q: seq<Thread>, id: int)
    requires forall j :: 0 <= j < |q| ==> q[j].threadId != id
    ensures AsWrittenPass(q, id, 0) == q
  {
    AsWrittenRotates(q, id, 0, |q|);
    assert q[|q|..] + q[..|q|] == q;
  }

  /**
   * A pass for a thread queued once, after `a` and before `b`, removes it;
   * when `b` is not empty the last thread of `b` comes out at the front.
   */
  lemma {:induction false} AsWrittenSingleMatch(a: seq<Thread>, x: Thread, b: seq<Thread>, id: int)
    requires x.threadId == id
    requires forall j :: 0 <= j < |a| ==> a[j].threadId != id
    requires forall j :: 0 <= j < |b| ==> b[j].threadId != id
    ensures AsWrittenPass(a + [x] + b, id, 0) ==
      if b == [] then a else [b[|b| - 1]] + a + b[..|b| - 1]
  {
    DropAfterPrefix(a, x, b, id);
    FinishRotation(a, b, id);
  }

  /** The rounds up to and including the one that drops `x`. */
  lemma DropAfterPrefix(a: seq<Thread>, x: Thread, b: seq<Thread>, id: int)
    requires x.threadId == id
    requires forall j :: 0 <= j < |a| ==> a[j].threadId != id
    ensures AsWrittenPass(a + [x] + b, id, 0) == AsWrittenPass(b + a, id, |a| + 1)
  {
    assert a + [x] + b == a + ([x] + b);
    RotateFront(a, [x] + b, id, 0);
    var p := ([x] + b) + a;
    assert AsWrittenRound(p, id) == b + a;
    PassUnfolds(p, id, |a|);
  }

  /** The rounds after the drop, bounded by the decremented size. */
  lemma FinishRotation(a: seq<Thread>, b: seq<Thread>, id: int)
    requires forall j :: 0 <= j < |b| ==> b[j].threadId != id
    ensures AsWrittenPass(b + a, id, |a| + 1) ==
      if b == [] then a else [b[|b| - 1]] + a + b[..|b| - 1]
  {
    if b == [] {
      assert b + a == a;
    } else {
      var n := |b| - 1;
      var c := ([b[n]] + a) + b[..n];
      assert b + a == b[..n] + ([b[n]] + a) by {
        assert b == b[..n] + [b[n]];
      }
      RotateFront(b[..n], [b[n]] + a, id, |a| + 1);
      assert AsWrittenPass(c, id, |a| + |b|) == c;
    }
  }

  /** The first of `k` rounds bounded by the starting size is one round as written. */
  lemma FixedPassUnfolds(q: seq<Thread>, id: int, k: nat)
    requires 0 < k <= |q|
    ensures FixedPass(q, id, k) == FixedPass(AsWrittenRound(q, id), id, k - 1)
  {
  }

  /** A pass with no rounds left leaves the queue as it is. */
  lemma PassDone(q: seq<Thread>, id: int, i: nat)
    requires i >= |q|
    ensures AsWrittenPass(q, id, i) == q
  {
  }

  /** One round of a pass that has rounds left. */
  lemma PassUnfolds(q: seq<Thread>, id: int, i: nat)
    requires i < |q|
    ensures AsWrittenPass(q, id, i) == AsWrittenPass(AsWrittenRound(q, id), id, i + 1)
  {
  }

  /** Rounds over a prefix of non-matching threads move it to the back. */
  lemma RotateFront(a: seq<Thread>, c: seq<Thread>, id: int, i: nat)
    requires i <= |c|
    requires forall j :: 0 <= j < |a| ==> a[j].threadId != id
    ensures AsWrittenPass(a + c, id, i) == AsWrittenPass(c + a, id, i + |a|)
  {
    var q := a + c;
    AsWrittenRotates(q, id, i, |a|);
    assert q[|a|..] == c && q[..|a|] == a;
  }

  /**
   * Whatever the queue, a pass as written keeps every thread that does not
   * match, each as often as before.
   */
  lemma AsWrittenKeepsSurvivors(q: seq<Thread>, id: int, i: nat)
    ensures multiset(Survivors(AsWrittenPass(q, id, i), id)) == multiset(Survivors(q, id))
  {
    PassKeepsSurvivorsFrom(q, id, i);
    BagIsMultiset(Survivors(AsWrittenPass(q, id, i), id));
    BagIsMultiset(Survivors(q, id));
  }

  /** The threads of `s` as a bag, one element at a time. */
  ghost function Bag(s: seq<Thread>): multiset<Thread> {
    if s == [] then multiset{} else multiset{s[0]} + Bag(s[1..])
  }

  lemma {:induction false} BagIsMultiset(s: seq<Thread>)
    ensures Bag(s) == multiset(s)
  {
    if s != [] {
      BagIsMultiset(s[1..]);
      assert s == [s[0]] + s[1..];
    }
  }

  /** The rounds of a pass from round `i` on keep the survivors. */
  ghost predicate PassKeepsSurvivors(q: seq<Thread>, id: int, i: nat) {
    Bag(Survivors(AsWrittenPass(q, id, i), id)) == Bag(Survivors(q, id))
  }

  lemma {:induction false} PassKeepsSurvivorsFrom(q: seq<Thread>, id: int, i: nat)
    ensures PassKeepsSurvivors(q, id, i)
    decreases |q| - i
  {
    if i < |q| {
      PassKeepsSurvivorsFrom(AsWrittenRound(q, id), id, i + 1);
      KeepsSurvivorsStep(q, id, i);
    } else {
      PassDone(q, id, i);
    }
  }

  /** The first round of a pass keeps the survivors when the rest of the pass does. */
  lemma KeepsSurvivorsStep(q: seq<Thread>, id: int, i: nat)
    requires i < |q|
    requires PassKeepsSurvivors(AsWrittenRound(q, id), id, i + 1)
    ensures PassKeepsSurvivors(q, id, i)
  {
    RoundKeepsSurvivors(q, id);
    BagIsMultiset(Survivors(AsWrittenRound(q, id), id));
    BagIsMultiset(Survivors(q, id));
    PassUnfolds(q, id, i);
  }

  /** The queue after the first round of a pass. */
  function AsWrittenRound(q: seq<Thread>, id: int): (r: seq<Thread>)
    requires q != []
    ensures |r| == if q[0].threadId == id then |q| - 1 else |q|
  {
    if q[0].threadId == id then q[1..] else q[1..] + [q[0]]
  }

  lemma RoundKeepsSurvivors(q: seq<Thread>, id: int)
    requires q != []
    ensures multiset(Survivors(AsWrittenRound(q, id), id)) == multiset(Survivors(q, id))
  {
    if q[0].threadId != id {
      SurvivorsRotate(q, id);
    }
  }

  /** Moving a non-matching head to the back moves it among the survivors too. */
  lemma SurvivorsRotate(q: seq<Thread>, id: int)
    requires q != [] && q[0].threadId != id
    ensures multiset(Survivors(q[1..] + [q[0]], id)) == multiset(Survivors(q, id))
  {
    SurvivorsAppend(q[1..], [q[0]], id);
    assert [q[0]][1..] == [];
    assert Survivors([q[0]], id) == [q[0]];
    assert Survivors(q, id) == [q[0]] + Survivors(q[1..], id);
  }

  /** A pass as written only ever removes threads. */
  lemma AsWrittenOnlyRemoves(q: seq<Thread>, id: int, i: nat)
    ensures multiset(AsWrittenPass(q, id, i)) <= multiset(q)
  {
    PassOnlyRemovesFrom(q, id, i);
    BagIsMultiset(AsWrittenPass(q, id, i));
    BagIsMultiset(q);
  }

  /** The rounds of a pass from round `i` on only remove threads. */
  ghost predicate PassOnlyRemoves(q: seq<Thread>, id: int, i: nat) {
    Bag(AsWrittenPass(q, id, i)) <= Bag(q)
  }

  lemma {:induction false} PassOnlyRemovesFrom(q: seq<Thread>, id: int, i: nat)
    ensures PassOnlyRemoves(q, id, i)
    decreases |q| - i
  {
    if i < |q| {
      PassOnlyRemovesFrom(AsWrittenRound(q, id), id, i + 1);
      OnlyRemovesStep(q, id, i);
    } else {
      PassDone(q, id, i);
    }
  }

  /** The first round of a pass only removes when the rest of the pass does. */
  lemma OnlyRemovesStep(q: seq<Thread>, id: int, i: nat)
    requires i < |q|
    requires PassOnlyRemoves(AsWrittenRound(q, id), id, i + 1)
    ensures PassOnlyRemoves(q, id, i)
  {
    RoundOnlyRemoves(q, id);
    BagIsMultiset(AsWrittenRound(q, id));
    BagIsMultiset(q);
    PassUnfolds(q, id, i);
  }

  lemma RoundOnlyRemoves(q: seq<Thread>, id: int)
    requires q != []
    ensures multiset(AsWrittenRound(q, id)) <= multiset(q)
  {
    assert q == [q[0]] + q[1..];
  }

  /**
   * Rounds bounded by a fixed count keep the survivors in order: after
   * `|s|` rounds over `s + r`, the queue is `r` followed by the survivors
   * of `s`.
   */
  lemma {:induction false} FixedPassAppendsSurvivors(s: seq<Thread>, r: seq<Thread>, id: int)
    ensures FixedPass(s + r, id, |s|) == r + Survivors(s, id)
  {
    if s == [] {
      assert s + r == r;
    } else {
      assert (s + r)[1..] == s[1..] + r;
      if s[0].threadId == id {
        FixedPassAppendsSurvivors(s[1..], r, id);
      } else {
        assert (s + r)[1..] + [s[0]] == s[1..] + (r + [s[0]]);
        FixedPassAppendsSurvivors(s[1..], r + [s[0]], id);
      }
    }
  }

  /** A pass over the whole queue, bounded by its starting size, filters it. */
  lemma FixedPassFilters(q: seq<Thread>, id: int)
    ensures FixedPass(q, id, |q|) == Survivors(q, id)
  {
    FixedPassAppendsSurvivors(q, [], id);
    assert q + [] == q;
  }

  /**
   * Terminating the head of a three-thread queue as written returns the two
   * other threads in reverse order, where a filter keeps their order.
   */
  lemma TerminateReordersSurvivors(x: Thread, b1: Thread, b2: Thread)
    requires b1 != b2
    requires b1.threadId != x.threadId && b2.threadId != x.threadId
    ensures AsWrittenPass([x, b1, b2], x.threadId, 0) == [b2, b1]
    ensures Survivors([x, b1, b2], x.threadId) == [b1, b2]
    ensures AsWrittenPass([x, b1, b2], x.threadId, 0) != Survivors([x, b1, b2], x.threadId)
  {
    AsWrittenSingleMatch([], x, [b1, b2], x.threadId);
    assert [] + [x] + [b1, b2] == [x, b1, b2];
    assert Survivors([b2], x.threadId) == [b2];
    assert Survivors([b1, b2], x.threadId) == [b1] + Survivors([b2], x.threadId);
    assert [b2, b1][0] != [b1, b2][0];
  }
}
