/** What applying a preset does to the batch system and to the heads, shared
    by `Config::Outputs::Group::apply` (`config/outputs/group.cpp`) and
    `DisplayConfig::apply` (`config/display.cpp`): a run of `addAction` calls
    on the queue, the anchoring written back to the matching head, and the
    primary flag set on every head. */
module PresetQueue {
  import opened Anchors
  import opened Actions
  import opened ActionStore
  import opened MetaHeads

  /** A single `addAction` keeps only actions it was given. */
  lemma AddActionDrawsFrom(store: Store, a: Action, x: Action)
    requires x in AddAction(store, a)
    ensures x in store || x == a
  {
    var r := AddAction(store, a);
    if !IsSwitchOff(a) && x != a {
      var i :| 0 <= i < |r| && r[i] == x;
      assert i < |r| - 1;
      assert x in multiset(r[..|r| - 1]);
    }
  }

  /** `addAction` for each action in turn. */
  function Enqueue(store: Store, acts: seq<Action>): Store
    decreases |acts|
  {
    if acts == [] then store
    else AddAction(Enqueue(store, acts[..|acts| - 1]), acts[|acts| - 1])
  }

  /** A run only keeps actions that were queued or added. */
  lemma {:induction false} EnqueueDrawsFrom(store: Store, acts: seq<Action>, x: Action)
    requires x in Enqueue(store, acts)
    ensures x in store || x in acts
    decreases |acts|
  {
    if acts != [] {
      var front := acts[..|acts| - 1];
      AddActionDrawsFrom(Enqueue(store, front), acts[|acts| - 1], x);
      if x in Enqueue(store, front) {
        EnqueueDrawsFrom(store, front, x);
      }
    }
  }

  /** A run keeps the queue free of two actions for the same output and kind. */
  lemma {:induction false} EnqueueKeepsUnique(store: Store, acts: seq<Action>)
    requires UniqueKeys(store)
    ensures UniqueKeys(Enqueue(store, acts))
    decreases |acts|
  {
    if acts != [] {
      EnqueueKeepsUnique(store, acts[..|acts| - 1]);
    }
  }

  lemma {:induction false} EnqueueAppend(store: Store, a: seq<Action>, b: seq<Action>)
    ensures Enqueue(store, a + b) == Enqueue(Enqueue(store, a), b)
    decreases |b|
  {
    if b == [] {
      assert a + b == a;
    } else {
      var front := b[..|b| - 1];
      assert (a + b)[..|a + b| - 1] == a + front;
      assert (a + b)[|a + b| - 1] == b[|b| - 1];
      EnqueueAppend(store, a, front);
    }
  }

  /** Switching an output off in the middle of a run discards everything
      queued before it, whatever output it was for: only the switch-off and
      what follows it remain to be queued. */
  lemma SwitchOffDiscardsEarlier(store: Store, before: seq<Action>, serial: string, after: seq<Action>)
    ensures Enqueue(store, before + [ExplicitOff(serial)] + after) == Enqueue([ExplicitOff(serial)], after)
  {
    EnqueueAppend(store, before + [ExplicitOff(serial)], after);
    assert (before + [ExplicitOff(serial)])[..|before|] == before;
    SwitchOffClearsQueue(Enqueue(store, before), serial);
  }

  /** The anchoring a preset writes back to the head with this identifier: a
      non-empty relative output with its two anchors, or, for an empty one, no
      anchoring at all. Heads without that identifier are left alone. */
  function AnchorHead(heads: seq<MetaHead>, id: string, relative: string, h: HorizontalAnchor, v: VerticalAnchor, src: IdSource): (r: seq<MetaHead>)
    ensures |r| == |heads|
    ensures GetOutputHead(heads, id).None? ==> r == heads
    ensures GetOutputHead(heads, id).Some? ==>
      var i := GetOutputHead(heads, id).value;
      && r[i].relativeOutput == relative
      && r[i].hAnchor == (if relative != "" then h else HNone)
      && r[i].vAnchor == (if relative != "" then v else VNone)
      && r[i].(relativeOutput := heads[i].relativeOutput, hAnchor := heads[i].hAnchor,
               vAnchor := heads[i].vAnchor, identifier := heads[i].identifier) == heads[i]
      && forall j :: 0 <= j < |heads| && j != i ==> r[j] == heads[j]
  {
    match GetOutputHead(heads, id)
    case None => heads
    case Some(i) =>
      var ha := if relative != "" then h else HNone;
      var va := if relative != "" then v else VNone;
      heads[i := SetVerticalAnchoring(SetHorizontalAnchoring(SetRelativeOutput(heads[i], relative, src), ha, src), va, src)]
  }

  /** Every head has been asked for its identifier, as `apply` leaves them. */
  predicate AllIdentified(heads: seq<MetaHead>) {
    forall j :: 0 <= j < |heads| ==> Identified(heads[j])
  }

  /** The anchoring a preset writes for `relative`: the relative output with
      its two anchors, or no anchoring at all when it is empty. */
  predicate AnchoredAs(h: MetaHead, relative: string, ha: HorizontalAnchor, va: VerticalAnchor) {
    && h.relativeOutput == relative
    && h.hAnchor == (if relative != "" then ha else HNone)
    && h.vAnchor == (if relative != "" then va else VNone)
  }

  /** Writing anchoring to identified heads changes no head's identifier. */
  lemma AnchorHeadKeepsIdentifiers(heads: seq<MetaHead>, id: string, relative: string, ha: HorizontalAnchor, va: VerticalAnchor, src: IdSource)
    requires AllIdentified(heads)
    ensures var r := AnchorHead(heads, id, relative, ha, va, src);
      && AllIdentified(r)
      && forall j :: 0 <= j < |heads| ==> Identifier(r[j]) == Identifier(heads[j])
  {
  }

  /** Heads with the same identifiers, position by position, give the same
      lookup result. */
  lemma SameIdentifiersSameLookup(a: seq<MetaHead>, b: seq<MetaHead>, id: string)
    requires |a| == |b| && forall j :: 0 <= j < |a| ==> Identifier(a[j]) == Identifier(b[j])
    ensures GetOutputHead(a, id) == GetOutputHead(b, id)
  {
    var ra, rb := GetOutputHead(a, id), GetOutputHead(b, id);
    if ra.Some? && rb.Some? {
      assert !(ra.value < rb.value) && !(rb.value < ra.value);
    }
  }

  /** The closing loop of both `apply`s: when a primary output is named, each
      head is primary exactly when its identifier is that name; otherwise the
      heads are untouched. */
  function MarkPrimary(heads: seq<MetaHead>, primary: string, src: IdSource): (r: seq<MetaHead>)
    ensures primary == "" ==> r == heads
    ensures |r| == |heads|
    ensures primary != "" ==> forall i :: 0 <= i < |heads| ==>
      && (r[i].primary <==> Identifier(r[i]) == primary)
      && r[i].(primary := false) == Identify(heads[i], src).(primary := false)
  {
    if primary == "" then heads
    else
      seq(|heads|, i requires 0 <= i < |heads| =>
        var h := Identify(heads[i], src);
        SetPrimary(h, Identifier(h) == primary))
  }
}
