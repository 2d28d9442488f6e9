/** Reference-counted, chained packet buffers, as far as the driver relies on them:
    pbuf_ref and pbuf_free of lwIP (an assumed contract, stated as code). */
module PbufHeap {
  import opened CInt

  type Buf = nat

  datatype Pbuf = Pbuf(ref: nat, next: Option<Buf>, len: nat)

  type Store = map<Buf, Pbuf>

  /** The live buffers whose next pointer is q: each holds one reference to it. */
  ghost function Before(live: Store, q: Buf): set<Buf> {
    set p | p in live && live[p].next == Some(q)
  }

  ghost predicate Closed(live: Store) {
    forall p :: p in live && live[p].next.Some? ==> live[p].next.value in live
  }

  /** Each count is the references from chains plus those held outside, and one more
      for the buffer in debt, whose release is under way. */
  ghost predicate Balanced(live: Store, held: multiset<Buf>, debt: Option<Buf>) {
    && Closed(live)
    && (debt.Some? ==> debt.value in live)
    && (forall q :: q in held ==> q in live)
    && (forall q :: q in live ==>
          && live[q].ref > 0
          && live[q].ref == |Before(live, q)| + held[q] + if debt == Some(q) then 1 else 0)
  }

  function WithRef(live: Store, p: Buf, ref: nat): Store
    requires p in live
  {
    live[p := live[p].(ref := ref)]
  }

  /** A count does not show in the chains. */
  lemma CountIsNotLink(live: Store, p: Buf, ref: nat)
    requires p in live
    ensures forall q :: Before(WithRef(live, p, ref), q) == Before(live, q)
    ensures Closed(live) ==> Closed(WithRef(live, p, ref))
    ensures |WithRef(live, p, ref)| == |live|
  {
    assert WithRef(live, p, ref).Keys == live.Keys;
  }

  /** Counting one reference up: the buffer is held once more. */
  lemma RefBalances(live: Store, held: multiset<Buf>, p: Buf)
    requires Balanced(live, held, None) && p in live
    ensures Balanced(WithRef(live, p, live[p].ref + 1), held + multiset{p}, None)
  {
    hide Before, Closed;
    CountIsNotLink(live, p, live[p].ref + 1);
    var after := WithRef(live, p, live[p].ref + 1);
    forall q | q in after
      ensures after[q].ref > 0 && after[q].ref == |Before(after, q)| + (held + multiset{p})[q]
    {
      assert Before(after, q) == Before(live, q);
    }
  }

  /** Giving a held reference up puts its buffer in debt. */
  lemma GivingUpOwes(live: Store, held: multiset<Buf>, p: Buf)
    requires Balanced(live, held, None) && p in held
    ensures Balanced(live, held - multiset{p}, Some(p))
  {
  }

  /** A buffer that others still refer to pays its debt and survives. */
  lemma SharedSurvives(live: Store, held: multiset<Buf>, p: Buf)
    requires Balanced(live, held, Some(p)) && live[p].ref > 1
    ensures Balanced(WithRef(live, p, live[p].ref - 1), held, None)
  {
    hide Before, Closed;
    CountIsNotLink(live, p, live[p].ref - 1);
    var after := WithRef(live, p, live[p].ref - 1);
    forall q | q in after ensures after[q].ref > 0 && after[q].ref == |Before(after, q)| + held[q] {
      assert Before(after, q) == Before(live, q);
    }
  }

  /** Removing a buffer takes its reference off its successor only. */
  lemma RemovedBefore(live: Store, p: Buf, q: Buf)
    requires p in live
    ensures |Before(live - {p}, q)| == |Before(live, q)| - if live[p].next == Some(q) then 1 else 0
  {
    if live[p].next == Some(q) {
      assert p in Before(live, q) && Before(live - {p}, q) == Before(live, q) - {p};
    } else {
      assert Before(live - {p}, q) == Before(live, q);
    }
  }

  lemma NobodyBefore(live: Store, p: Buf)
    requires Closed(live) && |Before(live, p)| == 0
    ensures Closed(live - {p})
  {
    assert Before(live, p) == {};
    assert forall q :: q in live && live[q].next == Some(p) ==> q in Before(live, p);
  }

  /** One that nobody else refers to goes, and its debt passes down the chain. */
  lemma UnsharedGoes(live: Store, held: multiset<Buf>, p: Buf)
    requires Balanced(live, held, Some(p)) && live[p].ref == 1
    ensures Balanced(live - {p}, held, live[p].next)
  {
    var rest := live - {p};
    assert |Before(live, p)| == 0 && held[p] == 0;
    NobodyBefore(live, p);
    RemovedBefore(live, p, p);
    assert live[p].next != Some(p);
    hide Before;
    forall q | q in rest
      ensures rest[q].ref == |Before(rest, q)| + held[q] + if live[p].next == Some(q) then 1 else 0
    {
      RemovedBefore(live, p, q);
    }
  }

  lemma DebtIsLive(live: Store, held: multiset<Buf>, p: Buf)
    requires Balanced(live, held, Some(p))
    ensures p in live && live[p].ref > 0
  {
  }

  lemma FewerKeys(live: Store, p: Buf)
    requires p in live
    ensures |live - {p}| < |live|
  {
    assert (live - {p}).Keys == live.Keys - {p};
  }

  /** Buffers keep their links and lengths; none is created. */
  ghost predicate Within(after: Store, before: Store) {
    forall q :: q in after ==> q in before && after[q].next == before[q].next && after[q].len == before[q].len
  }

  lemma WithinItself(live: Store)
    ensures Within(live, live)
  {
  }

  lemma WithinChains(c: Store, b: Store, a: Store)
    requires Within(c, b) && Within(b, a)
    ensures Within(c, a)
  {
  }

  lemma StaysWithin(live: Store, p: Buf, ref: nat, before: Store)
    requires Within(live, before) && p in live
    ensures Within(WithRef(live, p, ref), before) && Within(live - {p}, before)
  {
  }

  class Heap {
    var live: Store
    /** The references held by anyone but a chain. */
    ghost var held: multiset<Buf>

    ghost predicate Valid()
      reads this
    {
      Balanced(live, held, None)
    }

    constructor ()
      ensures Valid() && live == map[] && held == multiset{}
    {
      live, held := map[], multiset{};
    }

    method Ref(p: Buf)
      requires Valid() && p in live
      modifies this
      ensures Valid() && held == old(held) + multiset{p}
      ensures live == WithRef(old(live), p, old(live[p].ref) + 1)
    {
      RefBalances(live, held, p);
      live := WithRef(live, p, live[p].ref + 1);
      held := held + multiset{p};
    }

    /** pbuf_free: count down, and go on along the chain as long as buffers die. */
    method Free(p: Buf)
      requires Valid() && p in held
      modifies this
      ensures Valid() && held == old(held) - multiset{p}
      ensures Within(live, old(live))
    {
      hide Balanced, Before, Within, WithRef;
      WithinItself(live);
      GivingUpOwes(live, held, p);
      held := held - multiset{p};
      var cur := Some(p);
      while cur.Some?
        invariant Balanced(live, held, cur)
        invariant held == old(held) - multiset{p}
        invariant Within(live, old(live))
        decreases |live|, cur.Some?
      {
        var q := cur.value;
        DebtIsLive(live, held, q);
        StaysWithin(live, q, live[q].ref - 1, old(live));
        if live[q].ref == 1 {
          UnsharedGoes(live, held, q);
          FewerKeys(live, q);
          cur := live[q].next;
          live := live - {q};
        } else {
          SharedSurvives(live, held, q);
          CountIsNotLink(live, q, live[q].ref - 1);
          live := WithRef(live, q, live[q].ref - 1);
          cur := None;
        }
      }
    }
  }

  // ----- Chains

  /** The buffers from p to the end of its chain. */
  ghost predicate IsChain(live: Store, p: Buf, chain: seq<Buf>) {
    && chain != [] && chain[0] == p
    && (forall k :: 0 <= k < |chain| ==> chain[k] in live)
    && (forall k :: 0 <= k < |chain| - 1 ==> live[chain[k]].next == Some(chain[k + 1]))
    && live[chain[|chain| - 1]].next == None
  }
}
