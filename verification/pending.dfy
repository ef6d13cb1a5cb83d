/** The resolver's working map of output states, keyed by output identifier
    (`QMap<QString, QSharedPointer<TargetState>>` in `Model::calculate`). A
    key may hold a null state: the non-const `operator[]` of `QMap` inserts a
    null pointer for a key it does not hold. */
module PendingStates {
  import opened Wrappers
  import opened TargetStates

  type Pending = map<string, Option<TargetState>>

  /** The state stored for `k`, `None` for null or absent. */
  function Get(p: Pending, k: string): (r: Option<TargetState>)
    ensures k !in p ==> r.None?
    ensures k in p ==> r == p[k]
  {
    if k in p then p[k] else None
  }

  /** The effect of `pendingOutputStates[k]` on the map itself: a missing key
      is inserted with a null state, a present one is left alone. */
  function Touch(p: Pending, k: string): (r: Pending)
    ensures r.Keys == p.Keys + {k}
    ensures forall j :: j in p ==> r[j] == p[j]
    ensures k !in p ==> r[k].None?
    ensures forall j :: Get(r, j) == Get(p, j)
  {
    if k in p then p else p[k := None]
  }

  /** An output that the horizontal chain and the anchor pass lay out: known,
      switched on and not mirroring. */
  predicate Eligible(s: Option<TargetState>) {
    s.Some? && s.value.on && !IsMirroring(s.value)
  }

  /** Every known state either mirrors or sits relative to another output,
      never both. */
  predicate AllExclusive(p: Pending) {
    forall k :: k in p && p[k].Some? ==> Exclusive(p[k].value)
  }

  /** `q` is `p` with only null states added and positions possibly changed:
      what a placement step may do to the map. */
  predicate Extends(p: Pending, q: Pending) {
    && p.Keys <= q.Keys
    && (forall k :: k in q && k !in p ==> q[k].None?)
    && (forall k :: k in p ==> q[k].None? == p[k].None?)
    && (forall k :: k in p && p[k].Some? ==> q[k].value.(position := p[k].value.position) == p[k].value)
  }

  lemma ExtendsTransitive(p: Pending, q: Pending, r: Pending)
    requires Extends(p, q) && Extends(q, r)
    ensures Extends(p, r)
  {
    forall k | k in p && p[k].Some?
      ensures r[k].value.(position := p[k].value.position) == p[k].value
    {
      assert q[k].value.(position := p[k].value.position) == p[k].value;
      assert r[k].value.(position := q[k].value.position) == q[k].value;
    }
  }

  lemma ExtendsKeepsExclusive(p: Pending, q: Pending)
    requires Extends(p, q) && AllExclusive(p)
    ensures AllExclusive(q)
  {
    forall k | k in q && q[k].Some?
      ensures Exclusive(q[k].value)
    {
      assert k in p;
      assert q[k].value.(position := p[k].value.position) == p[k].value;
    }
  }

  lemma ExtendsKeepsEligible(p: Pending, q: Pending, k: string)
    requires Extends(p, q)
    ensures Eligible(Get(q, k)) <==> Eligible(Get(p, k))
  {
    if k in p && p[k].Some? {
      assert q[k].value.(position := p[k].value.position) == p[k].value;
    }
  }
}
