/** The order in which merged events replay the changes of a request: a stable sort by the
    first occurrence of what they are merged by. */
module Replay {
  import opened Json
  import opened Collections
  import opened Sorting
  import Events

  /** One change, and what it is merged by. */
  datatype Step<T> = Step(group: Events.Group, item: T)

  function Items<T>(steps: seq<Step<T>>): (items: seq<T>)
    ensures |items| == |steps|
  {
    if steps == [] then [] else Items(steps[..|steps| - 1]) + [steps[|steps| - 1].item]
  }

  /** One `add_event` per change. */
  function AdditionsOf<T>(steps: seq<Step<T>>): seq<Events.Addition<T>> {
    if steps == [] then []
    else
      var n := |steps| - 1;
      AdditionsOf(steps[..n]) + [Events.Addition(steps[n].group, Null, [steps[n].item])]
  }

  function EventsOf<T>(steps: seq<Step<T>>): seq<Events.Event<T>> {
    Events.AddAll([], 1, AdditionsOf(steps))
  }

  /** The changes as the listeners see them. */
  function Replayed<T>(steps: seq<Step<T>>): seq<T> {
    Events.Everything(EventsOf(steps))
  }

  /** What the changes are merged by, in the order of first occurrence. */
  function FirstSeen<T>(steps: seq<Step<T>>): seq<Events.Group> {
    if steps == [] then []
    else
      var n := |steps| - 1;
      var before := FirstSeen(steps[..n]);
      if steps[n].group in before then before else before + [steps[n].group]
  }

  function Rank(seen: seq<Events.Group>, g: Events.Group): (r: nat)
    ensures r <= |seen|
    ensures r < |seen| ==> seen[r] == g
    ensures g in seen ==> r < |seen|
  {
    if seen == [] || seen[0] == g then 0 else 1 + Rank(seen[1..], g)
  }

  function ByRank<T>(seen: seq<Events.Group>): Step<T> -> Value {
    (s: Step<T>) => Present(Num(Rank(seen, s.group) as real))
  }

  /** No change follows one whose kind was first seen later. */
  predicate InOrder<T>(steps: seq<Step<T>>, seen: seq<Events.Group>) {
    forall i, j :: 0 <= i < j < |steps| ==> Rank(seen, steps[i].group) <= Rank(seen, steps[j].group)
  }

  function InGroup<T>(g: Events.Group): Step<T> -> bool {
    (s: Step<T>) => s.group == g
  }

  // ---------- What the events of a request hold ----------

  ghost predicate Distinct(seen: seq<Events.Group>) {
    forall i, j :: 0 <= i < j < |seen| ==> seen[i] != seen[j]
  }

  /** The events are the kinds in order of first occurrence, each with its changes in order. */
  ghost predicate Merged<T>(events: seq<Events.Event<T>>, seen: seq<Events.Group>, steps: seq<Step<T>>) {
    Distinct(seen) && Known(steps, seen) && AllKinds(events, seen, steps)
  }

  predicate Known<T>(steps: seq<Step<T>>, seen: seq<Events.Group>) {
    forall i :: 0 <= i < |steps| ==> steps[i].group in seen
  }

  ghost predicate AllKinds<T>(events: seq<Events.Event<T>>, seen: seq<Events.Group>, steps: seq<Step<T>>) {
    |events| == |seen| && forall i :: 0 <= i < |seen| ==> HoldsKind(events[i], seen[i], steps)
  }

  predicate HoldsKind<T(==)>(e: Events.Event<T>, g: Events.Group, steps: seq<Step<T>>) {
    e.level == 1 && e.group == g && e.impacted == Items(Select(steps, InGroup(g)))
  }

  lemma {:induction false} AddAllLast<T>(events: seq<Events.Event<T>>, adds: seq<Events.Addition<T>>,
                                         a: Events.Addition<T>)
    ensures Events.AddAll(events, 1, adds + [a]) == Events.Add(Events.AddAll(events, 1, adds), 1, a)
    decreases adds
  {
    if adds == [] {
      assert adds + [a] == [a] && [a][1..] == [];
    } else {
      assert (adds + [a])[1..] == adds[1..] + [a];
      AddAllLast(Events.Add(events, 1, adds[0]), adds[1..], a);
    }
  }

  lemma {:induction false} ItemsLast<T>(steps: seq<Step<T>>, s: Step<T>)
    ensures Items(steps + [s]) == Items(steps) + [s.item]
  {
    assert (steps + [s])[..|steps|] == steps;
  }

  lemma {:induction false} SelectLast<T>(steps: seq<Step<T>>, s: Step<T>, g: Events.Group)
    ensures Items(Select(steps + [s], InGroup(g)))
            == Items(Select(steps, InGroup(g))) + if s.group == g then [s.item] else []
  {
    SelectAppend(steps, [s], InGroup(g));
    assert Select([s], InGroup(g)) == (if s.group == g then [s] else []) + Select([], InGroup(g));
    var before := Select(steps, InGroup(g));
    if s.group == g { ItemsLast(before, s); } else { assert before + [] == before; }
  }

  lemma {:induction false} PositionIsRank<T>(events: seq<Events.Event<T>>, seen: seq<Events.Group>, g: Events.Group)
    requires |events| == |seen| && forall i :: 0 <= i < |seen| ==> events[i].level == 1 && events[i].group == seen[i]
    ensures Events.Position(events, 1, g) == Rank(seen, g)
  {
    if events != [] {
      assert forall i :: 0 <= i < |seen[1..]| ==> events[1..][i] == events[i + 1] && seen[1..][i] == seen[i + 1];
      assert events[0].group == seen[0];
      PositionIsRank(events[1..], seen[1..], g);
    }
  }

  lemma {:induction false} MergedStep<T>(events: seq<Events.Event<T>>, seen: seq<Events.Group>, steps: seq<Step<T>>,
                                         s: Step<T>)
    requires Merged(events, seen, steps)
    ensures Merged(Events.Add(events, 1, Events.Addition(s.group, Null, [s.item])),
                   if s.group in seen then seen else seen + [s.group], steps + [s])
  {
    var seen' := if s.group in seen then seen else seen + [s.group];
    var next := Events.Add(events, 1, Events.Addition(s.group, Null, [s.item]));
    AddedAt(events, seen, steps, s);
    SeenGrows(seen, steps, s);
    KindsAfter(events, seen, steps, s, next);
  }

  lemma SeenGrows<T>(seen: seq<Events.Group>, steps: seq<Step<T>>, s: Step<T>)
    requires Distinct(seen) && Known(steps, seen)
    ensures var seen' := if s.group in seen then seen else seen + [s.group];
            Distinct(seen') && Known(steps + [s], seen')
  {
  }

  lemma KindsAfter<T>(events: seq<Events.Event<T>>, seen: seq<Events.Group>, steps: seq<Step<T>>, s: Step<T>,
                      next: seq<Events.Event<T>>)
    requires Merged(events, seen, steps) && Extends(events, seen, s, next)
    ensures AllKinds(next, if s.group in seen then seen else seen + [s.group], steps + [s])
  {
    var seen', more := if s.group in seen then seen else seen + [s.group], steps + [s];
    forall i | 0 <= i < |seen'| ensures HoldsKind(next[i], seen'[i], more) {
      if i < |seen| { OldKind(events[i], next[i], seen[i], steps, s); } else { NewKind(steps, s); }
    }
  }

  /** The event of the kind of `s` holds it last, or there is a new last one. */
  ghost predicate Extends<T>(events: seq<Events.Event<T>>, seen: seq<Events.Group>, s: Step<T>,
                             next: seq<Events.Event<T>>)
    requires |events| == |seen|
  {
    && |next| == (if s.group in seen then |seen| else |seen| + 1)
    && (forall i :: 0 <= i < |seen| ==>
          next[i] == if s.group == seen[i] then events[i].(impacted := events[i].impacted + [s.item]) else events[i])
    && (s.group !in seen ==> next[|seen|] == Events.Event(1, s.group, Null, [s.item]))
  }

  lemma {:induction false} AddedAt<T>(events: seq<Events.Event<T>>, seen: seq<Events.Group>, steps: seq<Step<T>>,
                                      s: Step<T>)
    requires AllKinds(events, seen, steps) && Distinct(seen)
    ensures Extends(events, seen, s, Events.Add(events, 1, Events.Addition(s.group, Null, [s.item])))
  {
    Events.AddAtPosition(events, 1, Events.Addition(s.group, Null, [s.item]));
    forall i | 0 <= i < |seen| ensures events[i].level == 1 && events[i].group == seen[i] {
      assert HoldsKind(events[i], seen[i], steps);
    }
    PositionIsRank(events, seen, s.group);
  }

  lemma OldKind<T>(e: Events.Event<T>, next: Events.Event<T>, g: Events.Group, steps: seq<Step<T>>, s: Step<T>)
    requires HoldsKind(e, g, steps)
    requires next == if s.group == g then e.(impacted := e.impacted + [s.item]) else e
    ensures HoldsKind(next, g, steps + [s])
  {
    SelectLast(steps, s, g);
    assert e.impacted + [] == e.impacted;
  }

  lemma NewKind<T>(steps: seq<Step<T>>, s: Step<T>)
    requires forall i :: 0 <= i < |steps| ==> steps[i].group != s.group
    ensures HoldsKind<T>(Events.Event(1, s.group, Null, [s.item]), s.group, steps + [s])
  {
    SelectLast(steps, s, s.group);
    SelectNone(steps, InGroup<T>(s.group));
  }

  lemma {:induction false} EventsStep<T>(steps: seq<Step<T>>, s: Step<T>)
    ensures EventsOf(steps + [s]) == Events.Add(EventsOf(steps), 1, Events.Addition(s.group, Null, [s.item]))
    ensures FirstSeen(steps + [s])
            == if s.group in FirstSeen(steps) then FirstSeen(steps) else FirstSeen(steps) + [s.group]
  {
    assert (steps + [s])[..|steps|] == steps;
    AddAllLast([], AdditionsOf(steps), Events.Addition(s.group, Null, [s.item]));
  }

  lemma {:induction false} EventsAreMerged<T>(steps: seq<Step<T>>)
    ensures Merged(EventsOf(steps), FirstSeen(steps), steps)
  {
    if steps != [] {
      var n := |steps| - 1;
      EventsAreMerged(steps[..n]);
      LastApart(steps);
      EventsStep(steps[..n], steps[n]);
      MergedStep(EventsOf(steps[..n]), FirstSeen(steps[..n]), steps[..n], steps[n]);
    }
  }

  /** What has been seen is of some change. */
  lemma {:induction false} SeenIn<T>(steps: seq<Step<T>>, g: Events.Group) returns (i: nat)
    requires g in FirstSeen(steps)
    ensures i < |steps| && steps[i].group == g
  {
    var n := |steps| - 1;
    if steps[n].group == g { i := n; } else { i := SeenIn(steps[..n], g); }
  }

  // ---------- Kind by kind is sorted by rank ----------

  /** The changes kind by kind. */
  function Grouped<T>(steps: seq<Step<T>>, groups: seq<Events.Group>): seq<Step<T>> {
    if groups == [] then []
    else Grouped(steps, groups[..|groups| - 1]) + Select(steps, InGroup(groups[|groups| - 1]))
  }

  lemma {:induction false} ItemsAppend<T>(s: seq<Step<T>>, t: seq<Step<T>>)
    ensures Items(s + t) == Items(s) + Items(t)
  {
    if t == [] {
      assert s + t == s;
    } else {
      var n := |t| - 1;
      assert (s + t)[..|s| + n] == s + t[..n];
      ItemsAppend(s, t[..n]);
      assert Items(s) + (Items(t[..n]) + [t[n].item]) == Items(s) + Items(t[..n]) + [t[n].item];
    }
  }

  lemma {:induction false} MergedIsGrouped<T>(events: seq<Events.Event<T>>, seen: seq<Events.Group>,
                                              steps: seq<Step<T>>)
    requires |events| == |seen|
    requires forall i :: 0 <= i < |seen| ==> events[i].impacted == Items(Select(steps, InGroup(seen[i])))
    ensures Events.Everything(events) == Items(Grouped(steps, seen))
  {
    if seen != [] {
      var n := |seen| - 1;
      MergedIsGrouped(events[..n], seen[..n], steps);
      ItemsAppend(Grouped(steps, seen[..n]), Select(steps, InGroup(seen[n])));
    }
  }

  lemma {:induction false} RankAt(seen: seq<Events.Group>, k: nat)
    requires Distinct(seen) && k < |seen|
    ensures Rank(seen, seen[k]) == k
  {
    var r := Rank(seen, seen[k]);
    assert seen[k] in seen;
    assert seen[r] == seen[k];
  }

  lemma {:induction false} GroupedBelow<T>(steps: seq<Step<T>>, seen: seq<Events.Group>, k: nat, s: Step<T>)
    requires Distinct(seen) && k <= |seen| && s in Grouped(steps, seen[..k])
    ensures s in steps && Rank(seen, s.group) < k
  {
    var n := k - 1;
    assert seen[..k][..n] == seen[..n];
    if s in Grouped(steps, seen[..n]) {
      GroupedBelow(steps, seen, n, s);
    } else {
      SelectIn(steps, InGroup(seen[n]), s);
      RankAt(seen, n);
    }
  }

  lemma {:induction false} GroupedInOrder<T>(steps: seq<Step<T>>, seen: seq<Events.Group>, k: nat)
    requires Distinct(seen) && k <= |seen|
    ensures InOrder(Grouped(steps, seen[..k]), seen)
  {
    if k > 0 {
      var n := k - 1;
      assert seen[..k][..n] == seen[..n];
      GroupedInOrder(steps, seen, n);
      RankAt(seen, n);
      var before, last := Grouped(steps, seen[..n]), Select(steps, InGroup(seen[n]));
      forall s | s in before ensures Rank(seen, s.group) < n { GroupedBelow(steps, seen, n, s); }
      forall s | s in last ensures Rank(seen, s.group) == n { SelectIn(steps, InGroup(seen[n]), s); }
      forall i, j | 0 <= i < j < |before + last|
        ensures Rank(seen, (before + last)[i].group) <= Rank(seen, (before + last)[j].group)
      {
        assert i < |before| ==> before[i] in before;
        assert j >= |before| ==> last[j - |before|] in last;
        assert i >= |before| ==> last[i - |before|] in last;
      }
    }
  }

  function RankKeys<T>(seen: seq<Events.Group>): seq<SortKey<Step<T>>> {
    [SortKey(ByRank(seen), false)]
  }

  lemma {:induction false} SameRank<T>(seen: seq<Events.Group>, s: Step<T>, g: Step<T>)
    ensures SameAs(g, RankKeys(seen))(s) <==> Rank(seen, s.group) == Rank(seen, g.group)
  {
    assert SameAs(g, RankKeys(seen))(s) <==> SameKeys(s, g, RankKeys(seen));
    assert RankKeys<T>(seen)[0].key(s) == Present(Num(Rank(seen, s.group) as real));
    assert RankKeys<T>(seen)[0].key(g) == Present(Num(Rank(seen, g.group) as real));
  }

  lemma {:induction false} OrderedByRank<T(!new)>(s: seq<Step<T>>, seen: seq<Events.Group>)
    ensures Ordered(s, RankKeys(seen)) <==> InOrder(s, seen)
  {
    forall a: Step<T>, b: Step<T>
      ensures KeyLess(a, b, RankKeys(seen)) <==> Rank(seen, a.group) < Rank(seen, b.group)
    {
      RankLess(seen, a, b);
    }
  }

  lemma {:induction false} RankLess<T>(seen: seq<Events.Group>, a: Step<T>, b: Step<T>)
    ensures KeyLess(a, b, RankKeys(seen)) <==> Rank(seen, a.group) < Rank(seen, b.group)
  {
    var keys := RankKeys<T>(seen);
    assert keys[1..] == [] && keys[0] == SortKey(ByRank(seen), false);
  }

  /** Among the changes of one rank, those of its kind, in order. */
  lemma {:induction false} KindAmongEqual<T(!new)>(steps: seq<Step<T>>, seen: seq<Events.Group>, k: nat, g: Step<T>)
    requires Distinct(seen) && Known(steps, seen) && k < |seen|
    ensures Select(Select(steps, InGroup(seen[k])), SameAs(g, RankKeys(seen)))
            == if Rank(seen, g.group) == k then Select(steps, SameAs(g, RankKeys(seen))) else []
  {
    var kind, same := InGroup<T>(seen[k]), SameAs(g, RankKeys(seen));
    SelectTwice(steps, kind, same);
    RankAt(seen, k);
    forall s | s in steps ensures Both(kind, same)(s) == (Rank(seen, g.group) == k && same(s)) {
      var i :| 0 <= i < |steps| && steps[i] == s;
      assert s.group in seen;
      SameRank(seen, s, g);
    }
    if Rank(seen, g.group) == k { SelectSame(steps, Both(kind, same), same); }
    else { SelectNone(steps, Both(kind, same)); }
  }

  lemma {:induction false} GroupedIsStable<T(!new)>(steps: seq<Step<T>>, seen: seq<Events.Group>, k: nat, g: Step<T>)
    requires Distinct(seen) && Known(steps, seen) && k <= |seen|
    ensures Select(Grouped(steps, seen[..k]), SameAs(g, RankKeys(seen)))
            == if Rank(seen, g.group) < k then Select(steps, SameAs(g, RankKeys(seen))) else []
  {
    if k > 0 {
      var n := k - 1;
      assert seen[..k][..n] == seen[..n];
      GroupedIsStable(steps, seen, n, g);
      KindAmongEqual(steps, seen, n, g);
      SelectAppend(Grouped(steps, seen[..n]), Select(steps, InGroup(seen[n])), SameAs(g, RankKeys(seen)));
    }
  }

  /** Nothing known has the rank of an unknown kind. */
  lemma {:induction false} NoneUnknown<T>(steps: seq<Step<T>>, seen: seq<Events.Group>, g: Step<T>)
    requires Known(steps, seen) && Rank(seen, g.group) == |seen|
    ensures Select(steps, SameAs(g, RankKeys(seen))) == []
  {
    forall s | s in steps ensures !SameAs(g, RankKeys(seen))(s) {
      var i :| 0 <= i < |steps| && steps[i] == s;
      assert s.group in seen;
      SameRank(seen, s, g);
    }
    SelectNone(steps, SameAs(g, RankKeys(seen)));
  }

  /** The changes in the order of replay. */
  function ByFirstSeen<T>(steps: seq<Step<T>>): seq<Step<T>> {
    SortBy(steps, ByRank(FirstSeen(steps)), false)
  }

  lemma {:induction false} SortedByRank<T(!new)>(steps: seq<Step<T>>, seen: seq<Events.Group>)
    ensures var sorted := SortBy(steps, ByRank(seen), false);
            Ordered(sorted, RankKeys(seen)) &&
            forall g :: Select(sorted, SameAs(g, RankKeys(seen))) == Select(steps, SameAs(g, RankKeys(seen)))
  {
    var keys := RankKeys<T>(seen);
    assert keys[1..] == [] && keys[0] == SortKey(ByRank(seen), false);
    assert Ordered(steps, keys[1..]);
    SortByOrdered(steps, keys);
    assert SortChain(steps, keys) == SortBy(SortChain(steps, keys[1..]), ByRank(seen), false);
    ChainSorts(steps, keys);
  }

  lemma ScalarRanks<T>(s: seq<Step<T>>, seen: seq<Events.Group>)
    ensures ScalarKeys(s, RankKeys(seen))
  {
  }

  lemma {:induction false} GroupedIsSorted<T(!new)>(steps: seq<Step<T>>, seen: seq<Events.Group>)
    requires Distinct(seen) && Known(steps, seen)
    ensures Grouped(steps, seen) == SortBy(steps, ByRank(seen), false)
  {
    var grouped, sorted, keys := Grouped(steps, seen), SortBy(steps, ByRank(seen), false), RankKeys<T>(seen);
    assert seen[..|seen|] == seen;
    GroupedInOrder(steps, seen, |seen|);
    OrderedByRank(grouped, seen);
    SortedByRank(steps, seen);
    ScalarRanks(grouped, seen);
    forall g ensures Select(grouped, SameAs(g, keys)) == Select(sorted, SameAs(g, keys)) {
      GroupedIsStable(steps, seen, |seen|, g);
      if Rank(seen, g.group) == |seen| { NoneUnknown(steps, seen, g); }
    }
    StableSortUnique(grouped, sorted, keys);
  }

  /** Main result: merged events replay the changes stably sorted by the first occurrence of
      what they are merged by. */
  lemma {:induction false} ReplayedIsStableSort<T(!new)>(steps: seq<Step<T>>)
    ensures Replayed(steps) == Items(ByFirstSeen(steps))
  {
    var events, seen := EventsOf(steps), FirstSeen(steps);
    EventsAreMerged(steps);
    forall i | 0 <= i < |seen| ensures events[i].impacted == Items(Select(steps, InGroup(seen[i]))) {
      assert HoldsKind(events[i], seen[i], steps);
    }
    MergedIsGrouped(events, seen, steps);
    GroupedIsSorted(steps, seen);
  }

  /** Some of the changes keep their order in the replay exactly when none of them follows one
      of a kind first seen later. */
  lemma {:induction false} KeepsOrderIff<T(!new)>(steps: seq<Step<T>>, p: Step<T> -> bool)
    ensures Select(ByFirstSeen(steps), p) == Select(steps, p) <==> InOrder(Select(steps, p), FirstSeen(steps))
  {
    var seen, sorted := FirstSeen(steps), ByFirstSeen(steps);
    var keys := RankKeys<T>(seen);
    SortedByRank(steps, seen);
    SelectIsOrdered(sorted, p, keys);
    OrderedByRank(Select(steps, p), seen);
    if InOrder(Select(steps, p), seen) {
      forall g ensures Select(Select(sorted, p), SameAs(g, keys)) == Select(Select(steps, p), SameAs(g, keys)) {
        SelectsCommute(sorted, p, SameAs(g, keys));
        SelectsCommute(steps, p, SameAs(g, keys));
      }
      ScalarRanks(Select(sorted, p), seen);
      StableSortUnique(Select(sorted, p), Select(steps, p), keys);
    }
  }

  lemma {:induction false} SelectsCommute<T>(s: seq<T>, p: T -> bool, q: T -> bool)
    ensures Select(Select(s, p), q) == Select(Select(s, q), p)
  {
    SelectTwice(s, p, q);
    SelectTwice(s, q, p);
    SelectSame(s, Both(p, q), Both(q, p));
  }

  /** Three changes of two kinds. */
  lemma {:induction false} ThreeSteps<T>(x: Step<T>, y: Step<T>, z: Step<T>)
    requires x.group != y.group && (z.group == x.group || z.group == y.group)
    ensures ByFirstSeen([x, y, z]) == if z.group == x.group then [x, z, y] else [x, y, z]
  {
    var steps, seen := [x, y, z], [x.group, y.group];
    assert steps[..2] == [x, y] && [x, y][..1] == [x] && [x][..0] == [];
    assert FirstSeen([x]) == [] + [x.group];
    assert FirstSeen([x, y]) == [x.group] + [y.group];
    assert FirstSeen(steps) == seen;
    ThreeRanked(x, y, z, seen);
  }

  lemma {:induction false} ThreeRanked<T>(x: Step<T>, y: Step<T>, z: Step<T>, seen: seq<Events.Group>)
    requires x.group != y.group && (z.group == x.group || z.group == y.group) && seen == [x.group, y.group]
    ensures SortBy([x, y, z], ByRank(seen), false) == if z.group == x.group then [x, z, y] else [x, y, z]
  {
    var key := ByRank<T>(seen);
    assert Rank(seen, x.group) == 0;
    assert Rank(seen, y.group) == 1 + Rank([y.group], y.group) == 1;
    assert [x, y, z][1..] == [y, z] && [y, z][1..] == [z] && [z][1..] == [];
    assert SortBy([z], key, false) == Insert(z, [], key, false) == [z];
    assert z.group == x.group ==> Insert(y, [z], key, false) == [z] + Insert(y, [], key, false);
    assert SortBy([y, z], key, false) == if z.group == x.group then [z] + [y] else [y] + [z];
    assert SortBy([x, y, z], key, false) == [x] + SortBy([y, z], key, false);
  }
}
