/** The queue of pending configuration actions kept by the batch system's
    `Model` (`outputs/config/model.cpp`, `addAction`, `removeAction`, `reset`,
    `getActions`). The queue is an ordered list; adding an action replaces the
    earlier action of the same kind for the same output. */
module ActionStore {
  import opened Wrappers
  import opened ActionTypes
  import opened Actions
  import Seqs

  type Store = seq<Action>

  /** What `removeAction` and the replacement rule compare: output and kind. */
  function Key(a: Action): (string, ActionType) {
    (a.serial, a.kind)
  }

  function KeysOf(s: Store): (r: seq<(string, ActionType)>)
    ensures |r| == |s| && forall i :: 0 <= i < |s| ==> r[i] == Key(s[i])
  {
    seq(|s|, i requires 0 <= i < |s| => Key(s[i]))
  }

  predicate Matches(a: Action, serial: string, kind: ActionType) {
    a.serial == serial && a.kind == kind
  }

  /** `Model::removeAction`: drops the first action for this output and kind,
      keeping the others in order; nothing happens when there is none. */
  function RemoveAction(store: Store, serial: string, kind: ActionType): (r: Store)
    ensures (forall i :: 0 <= i < |store| ==> !Matches(store[i], serial, kind)) ==> r == store
    ensures forall i :: (0 <= i < |store| && Matches(store[i], serial, kind)
                         && forall j :: 0 <= j < i ==> !Matches(store[j], serial, kind))
                        ==> r == Seqs.RemoveAt(store, i)
  {
    match Seqs.FirstIndexWhere(store, a => Matches(a, serial, kind))
    case Some(i) => Seqs.RemoveAt(store, i)
    case None => store
  }

  /** The loops of `addAction` that drop the first action of a kind, whatever
      output it belongs to. */
  function RemoveFirstOfKind(store: Store, kind: ActionType): (r: Store)
    ensures (forall i :: 0 <= i < |store| ==> store[i].kind != kind) ==> r == store
    ensures forall i :: (0 <= i < |store| && store[i].kind == kind
                         && forall j :: 0 <= j < i ==> store[j].kind != kind)
                        ==> r == Seqs.RemoveAt(store, i)
  {
    match Seqs.FirstIndexWhere(store, (a: Action) => a.kind == kind)
    case Some(i) => Seqs.RemoveAt(store, i)
    case None => store
  }

  /** The loop for a switch-off action: for every action of the queue as it was
      when the loop started, `removeAction` with that action's own output and
      kind. (In the source the loop variable shadows the new action, so the
      test that was meant to select the switched-off output compares an
      action's serial with itself and always holds.) */
  function RemoveEach(snapshot: Store, current: Store): Store
    decreases |snapshot|
  {
    if snapshot == [] then current
    else RemoveEach(snapshot[1..], RemoveAction(current, snapshot[0].serial, snapshot[0].kind))
  }

  /** Is `a` a request to switch an output off? */
  predicate IsSwitchOff(a: Action) {
    a.kind == SetOnOff && !a.on
  }

  /** The three removal steps of `addAction`, before the new action is
      appended. */
  function Removals(store: Store, a: Action): Store {
    var s1 := if IsSwitchOff(a) then RemoveEach(store, store) else RemoveAction(store, a.serial, a.kind);
    var s2 := if a.kind == SetPrimary then RemoveFirstOfKind(s1, SetPrimary) else s1;
    if a.kind == SetAbsolutePosition then RemoveFirstOfKind(s2, SetPositionAnchor) else s2
  }

  /** `Model::addAction`. Apart from a switch-off, which empties the queue,
      the queued actions stay in order, less exactly those at the positions
      `DroppedAt` names; the new action goes last. */
  function AddAction(store: Store, a: Action): (r: Store)
    ensures |r| > 0 && r[|r| - 1] == a
    ensures IsSwitchOff(a) ==> r == [a]
    ensures !IsSwitchOff(a) ==> Seqs.SubseqAt(r[..|r| - 1], store, KeptPositions(store, a, |store|))
    ensures !IsSwitchOff(a) ==> |store| - 2 <= |r| - 1 <= |store|
    ensures !IsSwitchOff(a) ==> multiset(r[..|r| - 1]) <= multiset(store)
    ensures !IsSwitchOff(a) ==> forall x :: x in multiset(store) - multiset(r[..|r| - 1]) ==> Replaces(a, x)
    ensures UniqueKeys(store) ==> UniqueKeys(r)
    ensures AtMostOneOfKind(store, SetPrimary) ==> AtMostOneOfKind(r, SetPrimary)
  {
    AddActionFacts(store, a);
    Removals(store, a) + [a]
  }

  /** Position `i` of the queue holds its first action with `a`'s output and
      kind. */
  predicate FirstSameKey(store: Store, a: Action, i: int) {
    && 0 <= i < |store|
    && Matches(store[i], a.serial, a.kind)
    && forall j :: 0 <= j < i ==> !Matches(store[j], a.serial, a.kind)
  }

  /** Position `i` holds the first action of `kind`, not counting the one at
      the first position with `a`'s output and kind. */
  predicate FirstOfKindBesides(store: Store, a: Action, kind: ActionType, i: int) {
    && 0 <= i < |store|
    && !FirstSameKey(store, a, i)
    && store[i].kind == kind
    && forall j :: 0 <= j < i && !FirstSameKey(store, a, j) ==> store[j].kind != kind
  }

  /** The positions of the queue whose actions adding `a` (other than a
      switch-off) removes: the first with `a`'s output and kind; when `a`
      chooses the primary output, the first other primary-output action; when
      `a` sets an absolute position, the first anchoring action, whatever
      output it belongs to. */
  predicate DroppedAt(store: Store, a: Action, i: int) {
    || FirstSameKey(store, a, i)
    || (a.kind == SetPrimary && FirstOfKindBesides(store, a, SetPrimary, i))
    || (a.kind == SetAbsolutePosition && FirstOfKindBesides(store, a, SetPositionAnchor, i))
  }

  /** The positions below `n` that adding `a` keeps, in increasing order. */
  function KeptPositions(store: Store, a: Action, n: nat): (ix: seq<int>)
    requires n <= |store|
    ensures Seqs.Increasing(ix)
    ensures forall x :: x in ix <==> 0 <= x < n && !DroppedAt(store, a, x)
  {
    if n == 0 then []
    else
      var before := KeptPositions(store, a, n - 1);
      var r := before + (if DroppedAt(store, a, n - 1) then [] else [n - 1]);
      assert forall k :: 0 <= k < |before| ==> before[k] in before;
      r
  }

  /** `Model::reset` empties the queue. */
  function Reset(): (r: Store)
    ensures |r| == 0 && UniqueKeys(r) && AtMostOneOfKind(r, SetPrimary)
  {
    []
  }

  /** Which queued actions adding `a` may drop: the one with its output and
      kind, any primary-output action when `a` chooses the primary output, and
      any anchoring action when `a` sets an absolute position. */
  predicate Replaces(a: Action, x: Action) {
    Key(x) == Key(a)
    || (a.kind == SetPrimary && x.kind == SetPrimary)
    || (a.kind == SetAbsolutePosition && x.kind == SetPositionAnchor)
  }

  /** No two queued actions share output and kind. */
  predicate UniqueKeys(s: Store) {
    forall i, j :: 0 <= i < j < |s| ==> Key(s[i]) != Key(s[j])
  }

  /** At most one queued action has this kind. */
  predicate AtMostOneOfKind(s: Store, kind: ActionType) {
    forall i, j :: 0 <= i < j < |s| ==> !(s[i].kind == kind && s[j].kind == kind)
  }

  // ---------------------------------------------------------------------------
  // Proofs

  lemma KeysOfRemoveAt(c: Store, i: nat)
    requires i < |c|
    ensures KeysOf(Seqs.RemoveAt(c, i)) == Seqs.RemoveAt(KeysOf(c), i)
  {
  }

  /** Removing by key takes exactly one occurrence of that key out of the
      queue's multiset of keys. */
  lemma RemoveActionKeys(c: Store, serial: string, kind: ActionType)
    requires (serial, kind) in multiset(KeysOf(c))
    ensures multiset(KeysOf(RemoveAction(c, serial, kind))) == multiset(KeysOf(c)) - multiset{(serial, kind)}
  {
    var ks := KeysOf(c);
    var w :| 0 <= w < |ks| && ks[w] == (serial, kind);
    var f := Seqs.FirstIndexWhere(c, (a: Action) => Matches(a, serial, kind));
    assert Matches(c[w], serial, kind);
    assert f.Some?;
    var i := f.value;
    assert RemoveAction(c, serial, kind) == Seqs.RemoveAt(c, i);
    KeysOfRemoveAt(c, i);
    assert ks[i] == (serial, kind);
    assert multiset(Seqs.RemoveAt(ks, i)) + multiset{ks[i]} == multiset(ks);
  }

  /** The switch-off loop empties the queue: every action of the snapshot
      removes one action with its own key, and the keys of the snapshot are
      exactly the keys of the queue. */
  lemma {:induction false} RemoveEachEmpties(t: Store, c: Store)
    requires multiset(KeysOf(c)) == multiset(KeysOf(t))
    ensures RemoveEach(t, c) == []
    decreases |t|
  {
    if t == [] {
      assert |multiset(KeysOf(c))| == 0;
      assert |KeysOf(c)| == 0;
    } else {
      var k := Key(t[0]);
      assert KeysOf(t) == [k] + KeysOf(t[1..]);
      assert k in multiset(KeysOf(c));
      RemoveActionKeys(c, t[0].serial, t[0].kind);
      RemoveEachEmpties(t[1..], RemoveAction(c, t[0].serial, t[0].kind));
    }
  }

  lemma RemoveAtKeepsUnique(s: Store, i: nat)
    requires i < |s| && UniqueKeys(s)
    ensures UniqueKeys(Seqs.RemoveAt(s, i))
  {
    var r := Seqs.RemoveAt(s, i);
    forall p, q | 0 <= p < q < |r|
      ensures Key(r[p]) != Key(r[q])
    {
      var p' := if p < i then p else p + 1;
      var q' := if q < i then q else q + 1;
      assert r[p] == s[p'] && r[q] == s[q'];
    }
  }

  lemma RemoveAtKeepsAtMostOne(s: Store, i: nat, kind: ActionType)
    requires i < |s| && AtMostOneOfKind(s, kind)
    ensures AtMostOneOfKind(Seqs.RemoveAt(s, i), kind)
  {
    var r := Seqs.RemoveAt(s, i);
    forall p, q | 0 <= p < q < |r|
      ensures !(r[p].kind == kind && r[q].kind == kind)
    {
      var p' := if p < i then p else p + 1;
      var q' := if q < i then q else q + 1;
      assert r[p] == s[p'] && r[q] == s[q'];
    }
  }

  /** A removal by key drops at most one action, and only a matching one. */
  lemma RemoveActionDrops(s: Store, serial: string, kind: ActionType)
    ensures var r := RemoveAction(s, serial, kind);
      && |s| - 1 <= |r| <= |s|
      && multiset(r) <= multiset(s)
      && forall x :: x in multiset(s) - multiset(r) ==> Matches(x, serial, kind)
  {
    var f := Seqs.FirstIndexWhere(s, (a: Action) => Matches(a, serial, kind));
    if f.Some? {
      var i := f.value;
      assert RemoveAction(s, serial, kind) == Seqs.RemoveAt(s, i);
      assert multiset(s) - multiset(Seqs.RemoveAt(s, i)) == multiset{s[i]};
    } else {
      assert RemoveAction(s, serial, kind) == s;
    }
  }

  /** After a removal by key in a queue with unique keys, none with that key is left. */
  lemma RemoveActionUnique(s: Store, serial: string, kind: ActionType)
    requires UniqueKeys(s)
    ensures var r := RemoveAction(s, serial, kind);
      UniqueKeys(r) && forall k :: 0 <= k < |r| ==> !Matches(r[k], serial, kind)
  {
    var f := Seqs.FirstIndexWhere(s, (a: Action) => Matches(a, serial, kind));
    if f.Some? {
      var i := f.value;
      var r := Seqs.RemoveAt(s, i);
      assert RemoveAction(s, serial, kind) == r;
      RemoveAtKeepsUnique(s, i);
      forall k | 0 <= k < |r|
        ensures !Matches(r[k], serial, kind)
      {
        var k' := if k < i then k else k + 1;
        assert r[k] == s[k'];
      }
    } else {
      assert RemoveAction(s, serial, kind) == s;
    }
  }

  lemma RemoveActionAtMostOne(s: Store, serial: string, kind: ActionType, kd: ActionType)
    requires AtMostOneOfKind(s, kd)
    ensures AtMostOneOfKind(RemoveAction(s, serial, kind), kd)
  {
    var f := Seqs.FirstIndexWhere(s, (a: Action) => Matches(a, serial, kind));
    if f.Some? {
      assert RemoveAction(s, serial, kind) == Seqs.RemoveAt(s, f.value);
      RemoveAtKeepsAtMostOne(s, f.value, kd);
    } else {
      assert RemoveAction(s, serial, kind) == s;
    }
  }

  /** A removal by kind drops at most one action, and only one of that kind. */
  lemma RemoveFirstOfKindDrops(s: Store, kind: ActionType)
    ensures var r := RemoveFirstOfKind(s, kind);
      && |s| - 1 <= |r| <= |s|
      && multiset(r) <= multiset(s)
      && forall x :: x in multiset(s) - multiset(r) ==> x.kind == kind
  {
    var f := Seqs.FirstIndexWhere(s, (a: Action) => a.kind == kind);
    if f.Some? {
      var i := f.value;
      assert RemoveFirstOfKind(s, kind) == Seqs.RemoveAt(s, i);
      assert multiset(s) - multiset(Seqs.RemoveAt(s, i)) == multiset{s[i]};
    } else {
      assert RemoveFirstOfKind(s, kind) == s;
    }
  }

  lemma RemoveFirstOfKindUnique(s: Store, kind: ActionType)
    requires UniqueKeys(s)
    ensures UniqueKeys(RemoveFirstOfKind(s, kind))
  {
    var f := Seqs.FirstIndexWhere(s, (a: Action) => a.kind == kind);
    if f.Some? {
      assert RemoveFirstOfKind(s, kind) == Seqs.RemoveAt(s, f.value);
      RemoveAtKeepsUnique(s, f.value);
    } else {
      assert RemoveFirstOfKind(s, kind) == s;
    }
  }

  lemma RemoveFirstOfKindAtMostOne(s: Store, kind: ActionType, kd: ActionType)
    requires AtMostOneOfKind(s, kd)
    ensures AtMostOneOfKind(RemoveFirstOfKind(s, kind), kd)
  {
    var f := Seqs.FirstIndexWhere(s, (a: Action) => a.kind == kind);
    if f.Some? {
      assert RemoveFirstOfKind(s, kind) == Seqs.RemoveAt(s, f.value);
      RemoveAtKeepsAtMostOne(s, f.value, kd);
    } else {
      assert RemoveFirstOfKind(s, kind) == s;
    }
  }

  /** With at most one action of a kind queued, a removal by kind leaves none. */
  lemma RemoveFirstOfKindEmptiesKind(s: Store, kind: ActionType)
    requires AtMostOneOfKind(s, kind)
    ensures var r := RemoveFirstOfKind(s, kind);
      forall k :: 0 <= k < |r| ==> r[k].kind != kind
  {
    var f := Seqs.FirstIndexWhere(s, (a: Action) => a.kind == kind);
    if f.Some? {
      var i := f.value;
      var r := Seqs.RemoveAt(s, i);
      assert RemoveFirstOfKind(s, kind) == r;
      forall k | 0 <= k < |r|
        ensures r[k].kind != kind
      {
        var k' := if k < i then k else k + 1;
        assert r[k] == s[k'];
        if k' > i {
          assert !(s[i].kind == kind && s[k'].kind == kind);
        }
      }
    } else {
      assert RemoveFirstOfKind(s, kind) == s;
    }
  }

  /** What the removal steps of `addAction` do, together. */
  lemma AddActionFacts(store: Store, a: Action)
    ensures (Removals(store, a) + [a])[..|Removals(store, a)|] == Removals(store, a)
    ensures IsSwitchOff(a) ==> Removals(store, a) == []
    ensures !IsSwitchOff(a) ==> Seqs.SubseqAt(Removals(store, a), store, KeptPositions(store, a, |store|))
    ensures !IsSwitchOff(a) ==> |store| - 2 <= |Removals(store, a)| <= |store|
    ensures !IsSwitchOff(a) ==> multiset(Removals(store, a)) <= multiset(store)
    ensures !IsSwitchOff(a) ==> forall x :: x in multiset(store) - multiset(Removals(store, a)) ==> Replaces(a, x)
    ensures UniqueKeys(store) ==> UniqueKeys(Removals(store, a) + [a])
    ensures AtMostOneOfKind(store, SetPrimary) ==> AtMostOneOfKind(Removals(store, a) + [a], SetPrimary)
  {
    var s3 := Removals(store, a);
    assert (s3 + [a])[..|s3|] == s3;
    if IsSwitchOff(a) {
      RemoveEachEmpties(store, store);
    } else {
      AddActionRemovals(store, a);
      RemovalsKeepOrder(store, a);
    }
    if UniqueKeys(store) {
      AddActionKeepsUnique(store, a);
    }
    if AtMostOneOfKind(store, SetPrimary) {
      AddActionKeepsOnePrimary(store, a);
    }
  }

  /** Apart from a switch-off, the removals drop at most two actions, each
      one the new action replaces. */
  lemma AddActionRemovals(store: Store, a: Action)
    requires !IsSwitchOff(a)
    ensures var s3 := Removals(store, a);
      && |store| - 2 <= |s3| <= |store|
      && multiset(s3) <= multiset(store)
      && forall x :: x in multiset(store) - multiset(s3) ==> Replaces(a, x)
  {
    var s1 := RemoveAction(store, a.serial, a.kind);
    RemoveActionDrops(store, a.serial, a.kind);
    if a.kind == SetPrimary {
      RemoveFirstOfKindDrops(s1, SetPrimary);
    } else if a.kind == SetAbsolutePosition {
      RemoveFirstOfKindDrops(s1, SetPositionAnchor);
    }
  }

  /** The first step: removing by key deletes the first position with `a`'s
      output and kind. */
  lemma RemoveActionPositions(store: Store, a: Action) returns (ix: seq<int>)
    ensures Seqs.SubseqAt(RemoveAction(store, a.serial, a.kind), store, ix)
    ensures forall x :: x in ix <==> 0 <= x < |store| && !FirstSameKey(store, a, x)
  {
    var ix0 := Seqs.Iota(|store|);
    Seqs.SubseqAll(store);
    var f := Seqs.FirstIndexWhere(store, (x: Action) => Matches(x, a.serial, a.kind));
    if f.Some? {
      var i0 := f.value;
      assert FirstSameKey(store, a, i0);
      assert RemoveAction(store, a.serial, a.kind) == Seqs.RemoveAt(store, i0);
      Seqs.SubseqRemoveAt(store, store, ix0, i0);
      ix := Seqs.RemoveAt(ix0, i0);
      forall x | 0 <= x < |store|
        ensures FirstSameKey(store, a, x) <==> x == i0
      {
        if x > i0 {
          assert Matches(store[i0], a.serial, a.kind);
        }
      }
    } else {
      assert RemoveAction(store, a.serial, a.kind) == store;
      ix := ix0;
    }
  }

  /** A later step: removing the first action of `kind` from what the first
      step left deletes the first position of that kind besides the one the
      first step deleted. */
  lemma RemoveFirstOfKindPositions(store: Store, a: Action, s1: Store, ix1: seq<int>, kind: ActionType) returns (ix: seq<int>)
    requires Seqs.SubseqAt(s1, store, ix1)
    requires forall x :: x in ix1 <==> 0 <= x < |store| && !FirstSameKey(store, a, x)
    ensures Seqs.SubseqAt(RemoveFirstOfKind(s1, kind), store, ix)
    ensures forall x :: x in ix <==> x in ix1 && !FirstOfKindBesides(store, a, kind, x)
  {
    var f := Seqs.FirstIndexWhere(s1, (x: Action) => x.kind == kind);
    if f.Some? {
      var m := f.value;
      var p := ix1[m];
      assert RemoveFirstOfKind(s1, kind) == Seqs.RemoveAt(s1, m);
      Seqs.SubseqRemoveAt(s1, store, ix1, m);
      ix := Seqs.RemoveAt(ix1, m);
      assert p in ix1;
      forall j | 0 <= j < p && !FirstSameKey(store, a, j)
        ensures store[j].kind != kind
      {
        assert j in ix1;
        var k :| 0 <= k < |ix1| && ix1[k] == j;
        assert ix1[k] < ix1[m];
        assert k < m;
        assert s1[k] == store[j];
      }
      assert FirstOfKindBesides(store, a, kind, p);
      forall x | x in ix1
        ensures FirstOfKindBesides(store, a, kind, x) <==> x == p
      {
      }
    } else {
      assert RemoveFirstOfKind(s1, kind) == s1;
      ix := ix1;
      forall x | x in ix1
        ensures !FirstOfKindBesides(store, a, kind, x)
      {
        var k :| 0 <= k < |ix1| && ix1[k] == x;
        assert s1[k] == store[x] && s1[k].kind != kind;
      }
    }
  }

  /** Apart from a switch-off, the removals keep the queue in order and delete
      exactly the positions `DroppedAt` names. */
  lemma RemovalsKeepOrder(store: Store, a: Action)
    requires !IsSwitchOff(a)
    ensures Seqs.SubseqAt(Removals(store, a), store, KeptPositions(store, a, |store|))
  {
    var s1 := RemoveAction(store, a.serial, a.kind);
    var ix1 := RemoveActionPositions(store, a);
    var ix3: seq<int>;
    if a.kind == SetPrimary {
      ix3 := RemoveFirstOfKindPositions(store, a, s1, ix1, SetPrimary);
    } else if a.kind == SetAbsolutePosition {
      ix3 := RemoveFirstOfKindPositions(store, a, s1, ix1, SetPositionAnchor);
    } else {
      ix3 := ix1;
    }
    assert Seqs.SubseqAt(Removals(store, a), store, ix3);
    forall x
      ensures x in ix3 <==> x in KeptPositions(store, a, |store|)
    {
    }
    Seqs.IncreasingSameElements(ix3, KeptPositions(store, a, |store|));
  }

  /** What `addAction` is meant to drop is gone: the first action with the new
      action's output and kind; for a primary-output action, the first
      primary-output action; for an absolute position, the first anchoring
      action. */
  lemma AddActionDropsFirsts(store: Store, a: Action, i: int)
    requires !IsSwitchOff(a) && 0 <= i < |store|
    ensures FirstSameKey(store, a, i) ==> i !in KeptPositions(store, a, |store|)
    ensures a.kind == SetPrimary && store[i].kind == SetPrimary
            && (forall j :: 0 <= j < i ==> store[j].kind != SetPrimary)
            ==> i !in KeptPositions(store, a, |store|)
    ensures a.kind == SetAbsolutePosition && store[i].kind == SetPositionAnchor
            && (forall j :: 0 <= j < i ==> store[j].kind != SetPositionAnchor)
            ==> i !in KeptPositions(store, a, |store|)
  {
  }

  /** Adding `a` keeps unique keys unique. */
  lemma AddActionKeepsUnique(store: Store, a: Action)
    requires UniqueKeys(store)
    ensures UniqueKeys(Removals(store, a) + [a])
  {
    var s1 := if IsSwitchOff(a) then [] else RemoveAction(store, a.serial, a.kind);
    if IsSwitchOff(a) {
      RemoveEachEmpties(store, store);
    } else {
      RemoveActionUnique(store, a.serial, a.kind);
    }
    var s3 := Removals(store, a);
    assert UniqueKeys(s1) && forall k :: 0 <= k < |s1| ==> !Matches(s1[k], a.serial, a.kind);
    if a.kind == SetPrimary {
      RemoveFirstOfKindUnique(s1, SetPrimary);
      RemoveFirstOfKindDrops(s1, SetPrimary);
      NoMatchInSubset(s1, s3, a.serial, a.kind);
    } else if a.kind == SetAbsolutePosition {
      RemoveFirstOfKindUnique(s1, SetPositionAnchor);
      RemoveFirstOfKindDrops(s1, SetPositionAnchor);
      NoMatchInSubset(s1, s3, a.serial, a.kind);
    }
    assert UniqueKeys(s3) && forall k :: 0 <= k < |s3| ==> !Matches(s3[k], a.serial, a.kind);
    UniqueAppend(s3, a);
  }

  lemma NoMatchInSubset(big: Store, small: Store, serial: string, kind: ActionType)
    requires multiset(small) <= multiset(big)
    requires forall k :: 0 <= k < |big| ==> !Matches(big[k], serial, kind)
    ensures forall k :: 0 <= k < |small| ==> !Matches(small[k], serial, kind)
  {
    forall k | 0 <= k < |small|
      ensures !Matches(small[k], serial, kind)
    {
      assert small[k] in multiset(small);
      assert small[k] in big;
    }
  }

  lemma UniqueAppend(s: Store, a: Action)
    requires UniqueKeys(s) && forall k :: 0 <= k < |s| ==> !Matches(s[k], a.serial, a.kind)
    ensures UniqueKeys(s + [a])
  {
  }

  /** Adding `a` keeps at most one primary-output action queued. */
  lemma AddActionKeepsOnePrimary(store: Store, a: Action)
    requires AtMostOneOfKind(store, SetPrimary)
    ensures AtMostOneOfKind(Removals(store, a) + [a], SetPrimary)
  {
    var s1 := if IsSwitchOff(a) then RemoveEach(store, store) else RemoveAction(store, a.serial, a.kind);
    if IsSwitchOff(a) {
      RemoveEachEmpties(store, store);
    } else {
      RemoveActionAtMostOne(store, a.serial, a.kind, SetPrimary);
    }
    var s2 := if a.kind == SetPrimary then RemoveFirstOfKind(s1, SetPrimary) else s1;
    if a.kind == SetPrimary {
      RemoveFirstOfKindEmptiesKind(s1, SetPrimary);
    }
    var s3 := if a.kind == SetAbsolutePosition then RemoveFirstOfKind(s2, SetPositionAnchor) else s2;
    if a.kind == SetAbsolutePosition {
      RemoveFirstOfKindAtMostOne(s2, SetPositionAnchor, SetPrimary);
    }
    assert s3 == Removals(store, a);
    assert AtMostOneOfKind(s3, SetPrimary);
    assert a.kind == SetPrimary ==> forall k :: 0 <= k < |s3| ==> s3[k].kind != SetPrimary;
  }

  /** After a reset, the next action queued is the only one. */
  lemma ResetThenAdd(a: Action)
    ensures AddAction(Reset(), a) == [a]
  {
    AddActionFacts([], a);
  }

  /** A switch-off request leaves only itself in the queue. */
  lemma SwitchOffClearsQueue(store: Store, serial: string)
    ensures AddAction(store, ExplicitOff(serial)) == [ExplicitOff(serial)]
  {
  }
}
