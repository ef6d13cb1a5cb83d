/** `Model::buildHorizontalChain`: the left-to-right order in which the
    resolver lays outputs side by side. Outputs anchored to the right of
    another (and not above or below it) form a chain starting at an output
    that is anchored to nothing; every other output follows in key order. */
module HorizontalChain {
  import opened Wrappers
  import opened Anchors
  import opened ActionTypes
  import opened Actions
  import opened PendingStates
  import Text
  import Seqs

  /** The anchoring actions the chain follows. */
  predicate Links(a: Action) {
    a.kind == SetPositionAnchor && a.hAnchor == Right && a.vAnchor != Above && a.vAnchor != Below
  }

  /** Position `i` holds the last linking action for output `k`. */
  predicate LastLinkOf(store: seq<Action>, i: int, k: string) {
    0 <= i < |store| && Links(store[i]) && store[i].serial == k
    && forall j :: i < j < |store| ==> !(Links(store[j]) && store[j].serial == k)
  }

  /** Position `i` holds the last linking action naming `k` as its relative. */
  predicate LastLinkTo(store: seq<Action>, i: int, k: string) {
    0 <= i < |store| && Links(store[i]) && store[i].relative == k
    && forall j :: i < j < |store| ==> !(Links(store[j]) && store[j].relative == k)
  }

  /** `rightOfMap`: output to the output it sits right of; a later action
      for the same output replaces an earlier one. */
  function RightOfMap(store: seq<Action>): (m: map<string, string>)
    ensures forall k :: k in m <==> exists a :: a in store && Links(a) && a.serial == k
    ensures forall k :: k in m ==> exists i :: LastLinkOf(store, i, k) && store[i].relative == m[k]
  {
    if store == [] then map[]
    else
      var last := store[|store| - 1];
      var init := store[..|store| - 1];
      var m := RightOfMap(init);
      assert forall a :: a in store <==> a in init || a == last;
      var r := if Links(last) then m[last.serial := last.relative] else m;
      assert forall k :: k in r ==> exists i :: LastLinkOf(store, i, k) && store[i].relative == r[k] by {
        forall k | k in r
          ensures exists i :: LastLinkOf(store, i, k) && store[i].relative == r[k]
        {
          if Links(last) && k == last.serial {
            assert LastLinkOf(store, |store| - 1, k);
          } else {
            var i :| LastLinkOf(init, i, k) && init[i].relative == m[k];
            LastLinkStep(store, i, k);
          }
        }
      }
      r
  }

  /** `referencedByMap`: output to the output that sits right of it; a later
      action naming the same relative replaces an earlier one. */
  function ReferencedByMap(store: seq<Action>): (m: map<string, string>)
    ensures forall k :: k in m <==> exists a :: a in store && Links(a) && a.relative == k
    ensures forall k :: k in m ==> exists a :: a in store && Links(a) && a.relative == k && a.serial == m[k]
    ensures forall k :: k in m ==> exists i :: LastLinkTo(store, i, k) && store[i].serial == m[k]
  {
    if store == [] then map[]
    else
      var last := store[|store| - 1];
      var init := store[..|store| - 1];
      var m := ReferencedByMap(init);
      assert forall a :: a in store <==> a in init || a == last;
      var r := if Links(last) then m[last.relative := last.serial] else m;
      assert forall k :: k in r ==> exists i :: LastLinkTo(store, i, k) && store[i].serial == r[k] by {
        forall k | k in r
          ensures exists i :: LastLinkTo(store, i, k) && store[i].serial == r[k]
        {
          if Links(last) && k == last.relative {
            assert LastLinkTo(store, |store| - 1, k);
          } else {
            var i :| LastLinkTo(init, i, k) && init[i].serial == m[k];
            LastLinkStep(store, i, k);
          }
        }
      }
      r
  }

  /** A last link of the queue without its final action stays the last one
      when the final action links elsewhere. */
  lemma LastLinkStep(store: seq<Action>, i: int, k: string)
    requires store != []
    ensures var n := |store| - 1;
      && (LastLinkOf(store[..n], i, k) && !(Links(store[n]) && store[n].serial == k) ==> LastLinkOf(store, i, k) && store[i] == store[..n][i])
      && (LastLinkTo(store[..n], i, k) && !(Links(store[n]) && store[n].relative == k) ==> LastLinkTo(store, i, k) && store[i] == store[..n][i])
  {
  }

  /** `allRelatives`. */
  function Relatives(store: seq<Action>): (r: set<string>)
    ensures forall k :: k in r <==> exists a :: a in store && Links(a) && a.relative == k
  {
    set a | a in store && Links(a) :: a.relative
  }

  /** The first key, in the given order, that does not sit right of anything;
      the empty name when there is none. */
  function FirstUnanchored(keys: seq<string>, rightOf: map<string, string>): (r: string)
    ensures r != "" ==> r in keys && r !in rightOf
    ensures (forall k :: k in keys ==> k in rightOf) ==> r == ""
    ensures (r == "" && forall k :: k in keys ==> k in rightOf)
            || exists i :: 0 <= i < |keys| && keys[i] == r && r !in rightOf
                           && forall j :: 0 <= j < i ==> keys[j] in rightOf
  {
    if keys == [] then ""
    else if keys[0] !in rightOf then keys[0]
    else FirstUnanchored(keys[1..], rightOf)
  }

  /** The start of the chain: some relative that does not itself sit right of
      anything (the source takes the first one in the iteration order of a
      hash set, modelled as an unspecified choice); failing that, the first
      output key that does not sit right of anything. */
  ghost function Leftmost(p: Pending, store: seq<Action>): (r: string)
    ensures r != "" ==> r !in RightOfMap(store)
    ensures r != "" ==> r in Relatives(store) || r in p
    ensures Relatives(store) - RightOfMap(store).Keys == {} ==>
              r == FirstUnanchored(Text.SortedKeys(p.Keys), RightOfMap(store))
    ensures (r != "" && r in Relatives(store) && r !in RightOfMap(store))
            || r == FirstUnanchored(Text.SortedKeys(p.Keys), RightOfMap(store))
  {
    var rightOf := RightOfMap(store);
    var candidates := Relatives(store) - rightOf.Keys;
    var chosen := if candidates != {} then (var c :| c in candidates; c) else "";
    if chosen != "" then chosen else FirstUnanchored(Text.SortedKeys(p.Keys), rightOf)
  }

  /** The walk from `current` along `next` until a name repeats or is empty. */
  function Walk(current: string, next: map<string, string>, visited: set<string>, ghost universe: set<string>): (r: seq<string>)
    requires current in universe && next.Values <= universe
    ensures Seqs.Distinct(r)
    ensures forall i :: 0 <= i < |r| ==> r[i] != "" && r[i] !in visited && r[i] in universe
    ensures |r| > 0 <==> current != "" && current !in visited
    ensures |r| > 0 ==> r[0] == current
    ensures forall i :: 0 <= i < |r| - 1 ==> r[i] in next && next[r[i]] == r[i + 1]
    decreases universe - visited
  {
    if current == "" || current in visited then []
    else if current in next then
      assert next[current] in next.Values;
      var rest := Walk(next[current], next, visited + {current}, universe);
      [current] + rest
    else [current]
  }

  /** The keys, in order, that are not in `visited`. */
  function Unvisited(keys: seq<string>, visited: set<string>): (r: seq<string>)
    ensures forall k :: k in r <==> k in keys && k !in visited
    ensures Seqs.Distinct(keys) ==> Seqs.Distinct(r)
  {
    if keys == [] then []
    else
      var rest := Unvisited(keys[1..], visited);
      assert forall k :: k in keys <==> k == keys[0] || k in keys[1..];
      if keys[0] in visited then rest else [keys[0]] + rest
  }

  /** The walk from the leftmost output along `referencedByMap`: each output
      on it is the one anchored right of the previous. */
  ghost function WalkFromLeftmost(p: Pending, store: seq<Action>): (walked: seq<string>)
    ensures Seqs.Distinct(walked)
    ensures forall k :: k in walked ==> k != ""
    ensures forall i :: 0 <= i < |walked| - 1 ==> walked[i] in ReferencedByMap(store) && ReferencedByMap(store)[walked[i]] == walked[i + 1]
  {
    var next := ReferencedByMap(store);
    var start := Leftmost(p, store);
    Walk(start, next, {}, next.Values + {start})
  }

  /** Every name on the walk is an output or is named by an anchoring action. */
  lemma WalkFromLeftmostKnown(p: Pending, store: seq<Action>)
    ensures forall k :: k in WalkFromLeftmost(p, store) ==> k in p || k in Relatives(store) || k in RightOfMap(store)
  {
    var next := ReferencedByMap(store);
    var start := Leftmost(p, store);
    var walked := Walk(start, next, {}, next.Values + {start});
    forall k | k in walked
      ensures k != "" && (k == start || k in next.Values)
    {
      var i :| 0 <= i < |walked| && walked[i] == k;
      assert walked[i] in next.Values + {start};
    }
    WalkedNamesAreKnown(walked, start, next, p, store);
  }

  /** The chain: the walk from the leftmost output, then every output key not
      on it in key order. */
  ghost function BuildHorizontalChain(p: Pending, store: seq<Action>): (chain: seq<string>)
    ensures Seqs.Distinct(chain)
    ensures forall k :: k in p ==> k in chain
    ensures forall k :: k in chain ==> k in p || k in Relatives(store) || k in RightOfMap(store)
  {
    var walked := WalkFromLeftmost(p, store);
    WalkFromLeftmostKnown(p, store);
    var keys := Text.SortedKeys(p.Keys);
    Text.SortedDistinct(keys);
    var rest := Unvisited(keys, set k | k in walked);
    ChainPartsDisjoint(walked, rest);
    assert forall k :: k in walked + rest <==> k in walked || k in rest;
    walked + rest
  }

  lemma ChainPartsDisjoint(walked: seq<string>, rest: seq<string>)
    requires Seqs.Distinct(walked) && Seqs.Distinct(rest)
    requires forall k :: k in rest ==> k !in walked
    ensures Seqs.Distinct(walked + rest)
  {
    var c := walked + rest;
    forall i, j | 0 <= i < j < |c|
      ensures c[i] != c[j]
    {
      if j >= |walked| && i < |walked| {
        assert c[j] in rest && c[i] in walked;
      }
    }
  }

  lemma WalkedNamesAreKnown(walked: seq<string>, start: string, next: map<string, string>, p: Pending, store: seq<Action>)
    requires next == ReferencedByMap(store)
    requires start == Leftmost(p, store)
    requires forall k :: k in walked ==> k != "" && (k == start || k in next.Values)
    ensures forall k :: k in walked ==> k in p || k in Relatives(store) || k in RightOfMap(store)
  {
    forall k | k in walked
      ensures k in p || k in Relatives(store) || k in RightOfMap(store)
    {
      if k != start {
        var r :| r in next && next[r] == k;
        var a :| a in store && Links(a) && a.relative == r && a.serial == k;
      }
    }
  }
}
