/** Resource events of a request: collection with merging, draining while listeners add
    more, and the replay after commit. */
module Events {
  import opened Options
  import opened Json

  datatype Action = CREATE | DELETE | READ | UPDATE

  /** What events are merged by, within one cascade level. */
  datatype Group = Group(resource: string, parent: string, action: Action)

  /** One entry of the ordered dict; its key is the level and the group. */
  datatype Event<T> = Event(level: nat, group: Group, payload: Json, impacted: seq<T>)

  /** The arguments of one `add_event`. */
  datatype Addition<T> = Addition(group: Group, payload: Json, impacted: seq<T>)

  // ---------- The ordered dict ----------

  function Add<T>(events: seq<Event<T>>, level: nat, a: Addition<T>): seq<Event<T>> {
    if events == [] then [Event(level, a.group, a.payload, a.impacted)]
    else if events[0].level == level && events[0].group == a.group then
      [events[0].(impacted := events[0].impacted + a.impacted)] + events[1..]
    else [events[0]] + Add(events[1..], level, a)
  }

  /** Where a key stands in the dict, its size when it does not. */
  function Position<T>(events: seq<Event<T>>, level: nat, group: Group): (i: nat)
    ensures i <= |events|
  {
    if events == [] || (events[0].level == level && events[0].group == group) then 0
    else 1 + Position(events[1..], level, group)
  }

  lemma {:induction false} AddAtPosition<T>(events: seq<Event<T>>, level: nat, a: Addition<T>)
    ensures var i := Position(events, level, a.group);
            Add(events, level, a) ==
            if i == |events| then events + [Event(level, a.group, a.payload, a.impacted)]
            else events[i := events[i].(impacted := events[i].impacted + a.impacted)]
  {
    if events != [] { AddAtPosition(events[1..], level, a); }
  }

  function AddAll<T>(events: seq<Event<T>>, level: nat, adds: seq<Addition<T>>): seq<Event<T>>
    decreases adds
  {
    if adds == [] then events else AddAll(Add(events, level, adds[0]), level, adds[1..])
  }

  /** The objects waiting under one key, in order. */
  function Waiting<T>(events: seq<Event<T>>, level: nat, group: Group): seq<T> {
    if events == [] then []
    else (if events[0].level == level && events[0].group == group then events[0].impacted else [])
         + Waiting(events[1..], level, group)
  }

  /** The objects of a group over a list of events, in order. */
  function OfGroup<T>(events: seq<Event<T>>, group: Group): seq<T> {
    if events == [] then []
    else (if events[0].group == group then events[0].impacted else []) + OfGroup(events[1..], group)
  }

  function AddedTo<T>(adds: seq<Addition<T>>, group: Group): seq<T> {
    if adds == [] then [] else (if adds[0].group == group then adds[0].impacted else []) + AddedTo(adds[1..], group)
  }

  function KeysOf<T>(events: seq<Event<T>>): (keys: seq<(nat, Group)>)
    ensures |keys| == |events| && forall i :: 0 <= i < |events| ==> keys[i] == (events[i].level, events[i].group)
  {
    seq(|events|, i requires 0 <= i < |events| => (events[i].level, events[i].group))
  }

  ghost predicate UniqueKeys<T>(events: seq<Event<T>>) {
    forall i, j :: 0 <= i < j < |events| ==> KeysOf(events)[i] != KeysOf(events)[j]
  }

  /** Events are in order of level, none beyond the current one. */
  ghost predicate ByLevel<T>(events: seq<Event<T>>, level: nat) {
    && (forall i, j :: 0 <= i < j < |events| ==> KeysOf(events)[i].0 <= KeysOf(events)[j].0)
    && (forall i :: 0 <= i < |events| ==> KeysOf(events)[i].0 <= level)
  }

  ghost predicate WellKept<T>(events: seq<Event<T>>, level: nat) {
    UniqueKeys(events) && ByLevel(events, level)
  }

  lemma {:induction false} AddKeys<T>(events: seq<Event<T>>, level: nat, a: Addition<T>)
    ensures KeysOf(Add(events, level, a))
            == if (level, a.group) in KeysOf(events) then KeysOf(events) else KeysOf(events) + [(level, a.group)]
    decreases events
  {
    if events != [] {
      var rest := events[1..];
      KeysOfCons(events[0], rest);
      assert events == [events[0]] + rest;
      if events[0].level == level && events[0].group == a.group {
        KeysOfCons(events[0].(impacted := events[0].impacted + a.impacted), rest);
      } else {
        AddKeys(rest, level, a);
        KeysOfCons(events[0], Add(rest, level, a));
        Associates([(events[0].level, events[0].group)], KeysOf(rest), [(level, a.group)]);
      }
    }
  }

  lemma KeysOfCons<T>(e: Event<T>, rest: seq<Event<T>>)
    ensures KeysOf([e] + rest) == [(e.level, e.group)] + KeysOf(rest)
  {
  }

  lemma {:induction false} AddKeepsShape<T>(events: seq<Event<T>>, level: nat, a: Addition<T>)
    requires WellKept(events, level)
    ensures WellKept(Add(events, level, a), level) && |Add(events, level, a)| <= |events| + 1
  {
    AddKeys(events, level, a);
    assert |KeysOf(Add(events, level, a))| == |Add(events, level, a)|;
  }

  lemma TailKeepsShape<T>(events: seq<Event<T>>, level: nat)
    requires WellKept(events, level) && events != []
    ensures WellKept(events[1..], level)
    ensures forall i :: 0 <= i < |events[1..]| ==> KeysOf(events[1..])[i] != KeysOf(events)[0]
  {
    forall i | 0 <= i < |events[1..]| ensures KeysOf(events[1..])[i] == KeysOf(events)[i + 1] {}
  }

  /** An addition joins the end of its own key and leaves the other keys alone. */
  lemma {:induction false} AddWaits<T>(events: seq<Event<T>>, level: nat, a: Addition<T>, l: nat, g: Group)
    requires WellKept(events, level)
    ensures Waiting(Add(events, level, a), l, g)
            == Waiting(events, l, g) + if l == level && g == a.group then a.impacted else []
    decreases events
  {
    if events == [] {
      assert Add(events, level, a)[1..] == [];
    } else {
      var rest := events[1..];
      TailKeepsShape(events, level);
      if events[0].level == level && events[0].group == a.group {
        NothingWaits(rest, level, a.group);
        assert Add(events, level, a)[1..] == rest;
      } else {
        AddWaits(rest, level, a, l, g);
        assert Add(events, level, a)[1..] == Add(rest, level, a);
      }
    }
  }

  lemma {:induction false} NothingWaits<T>(events: seq<Event<T>>, level: nat, group: Group)
    requires forall i :: 0 <= i < |events| ==> KeysOf(events)[i] != (level, group)
    ensures Waiting(events, level, group) == []
  {
    if events != [] {
      assert KeysOf(events)[0] == (events[0].level, events[0].group);
      forall i | 0 <= i < |events[1..]| ensures KeysOf(events[1..])[i] == KeysOf(events)[i + 1] {}
      NothingWaits(events[1..], level, group);
    }
  }

  /** At the current level an addition joins the end of its whole group. */
  lemma {:induction false} AddJoinsGroup<T>(events: seq<Event<T>>, level: nat, a: Addition<T>, g: Group)
    requires WellKept(events, level)
    ensures OfGroup(Add(events, level, a), g) == OfGroup(events, g) + if g == a.group then a.impacted else []
    decreases events
  {
    if events == [] {
      assert Add(events, level, a)[1..] == [];
    } else {
      var rest := events[1..];
      TailKeepsShape(events, level);
      if events[0].level == level && events[0].group == a.group {
        forall i | 0 <= i < |rest| ensures rest[i].group != a.group {
          assert KeysOf(rest)[i] == KeysOf(events)[i + 1] && KeysOf(events)[0].0 == level;
        }
        NoneOfGroup(rest, a.group);
        assert Add(events, level, a)[1..] == rest;
      } else {
        AddJoinsGroup(rest, level, a, g);
        assert Add(events, level, a)[1..] == Add(rest, level, a);
        Associates(if events[0].group == g then events[0].impacted else [], OfGroup(rest, g),
                   if g == a.group then a.impacted else []);
      }
    }
  }

  lemma {:induction false} NoneOfGroup<T>(events: seq<Event<T>>, group: Group)
    requires forall i :: 0 <= i < |events| ==> events[i].group != group
    ensures OfGroup(events, group) == []
  {
    if events != [] { NoneOfGroup(events[1..], group); }
  }

  lemma Associates<T>(a: seq<T>, b: seq<T>, c: seq<T>)
    ensures (a + b) + c == a + (b + c)
  {
  }

  lemma {:induction false} AddAllKeepsShape<T>(events: seq<Event<T>>, level: nat, adds: seq<Addition<T>>)
    requires WellKept(events, level)
    ensures WellKept(AddAll(events, level, adds), level) && |AddAll(events, level, adds)| <= |events| + |adds|
    decreases adds
  {
    if adds != [] {
      AddKeepsShape(events, level, adds[0]);
      AddAllKeepsShape(Add(events, level, adds[0]), level, adds[1..]);
    }
  }

  lemma {:induction false} AddAllJoinsGroup<T>(events: seq<Event<T>>, level: nat, adds: seq<Addition<T>>, g: Group)
    requires WellKept(events, level)
    ensures OfGroup(AddAll(events, level, adds), g) == OfGroup(events, g) + AddedTo(adds, g)
    decreases adds
  {
    if adds != [] {
      AddKeepsShape(events, level, adds[0]);
      AddJoinsGroup(events, level, adds[0], g);
      AddAllJoinsGroup(Add(events, level, adds[0]), level, adds[1..], g);
      Associates(OfGroup(events, g), if adds[0].group == g then adds[0].impacted else [], AddedTo(adds[1..], g));
    }
  }

  lemma {:induction false} AddAllWaits<T>(events: seq<Event<T>>, level: nat, adds: seq<Addition<T>>, l: nat, g: Group)
    requires WellKept(events, level)
    ensures Waiting(AddAll(events, level, adds), l, g)
            == Waiting(events, l, g) + if l == level then AddedTo(adds, g) else []
    decreases adds
  {
    if adds != [] {
      AddKeepsShape(events, level, adds[0]);
      AddWaits(events, level, adds[0], l, g);
      AddAllWaits(Add(events, level, adds[0]), level, adds[1..], l, g);
      Associates(Waiting(events, l, g), if adds[0].group == g then adds[0].impacted else [], AddedTo(adds[1..], g));
    }
  }

  /** All the objects, over all keys. */
  function Everything<T>(events: seq<Event<T>>): seq<T> {
    if events == [] then [] else Everything(events[..|events| - 1]) + events[|events| - 1].impacted
  }

  function AllAdded<T>(adds: seq<Addition<T>>): seq<T> {
    if adds == [] then [] else adds[0].impacted + AllAdded(adds[1..])
  }

  lemma {:induction false} EverythingGrows<T>(events: seq<Event<T>>, e: Event<T>)
    ensures Everything(events + [e]) == Everything(events) + e.impacted
  {
    assert (events + [e])[..|events|] == events;
  }

  lemma {:induction false} EverythingFrom<T>(e: Event<T>, rest: seq<Event<T>>)
    ensures Everything([e] + rest) == e.impacted + Everything(rest)
  {
    if rest == [] {
      assert [e] + rest == [] + [e];
      EverythingGrows([], e);
    } else {
      var n := |rest| - 1;
      assert rest == rest[..n] + [rest[n]];
      EverythingFrom(e, rest[..n]);
      assert [e] + rest == ([e] + rest[..n]) + [rest[n]];
      EverythingGrows([e] + rest[..n], rest[n]);
      Associates(e.impacted, Everything(rest[..n]), rest[n].impacted);
    }
  }

  lemma {:induction false} AddKeepsObjects<T>(events: seq<Event<T>>, level: nat, a: Addition<T>)
    ensures multiset(Everything(Add(events, level, a))) == multiset(Everything(events)) + multiset(a.impacted)
    decreases events
  {
    if events == [] {
      EverythingGrows([], Event(level, a.group, a.payload, a.impacted));
      assert [] + [Event(level, a.group, a.payload, a.impacted)] == Add(events, level, a);
    } else {
      var e, rest := events[0], events[1..];
      assert events == [e] + rest;
      EverythingFrom(e, rest);
      if e.level == level && e.group == a.group {
        EverythingFrom(e.(impacted := e.impacted + a.impacted), rest);
      } else {
        AddKeepsObjects(rest, level, a);
        EverythingFrom(e, Add(rest, level, a));
      }
    }
  }

  /** Merging loses no object and repeats none. */
  lemma {:induction false} NothingIsLost<T>(events: seq<Event<T>>, level: nat, adds: seq<Addition<T>>)
    ensures multiset(Everything(AddAll(events, level, adds))) == multiset(Everything(events)) + multiset(AllAdded(adds))
    decreases adds
  {
    if adds != [] {
      AddKeepsObjects(events, level, adds[0]);
      NothingIsLost(Add(events, level, adds[0]), level, adds[1..]);
    }
  }

  lemma RaiseLevel<T>(events: seq<Event<T>>, level: nat)
    requires WellKept(events, level)
    ensures WellKept(events, level + 1)
  {
  }

  lemma NothingAbove<T>(events: seq<Event<T>>, level: nat, g: Group)
    requires WellKept(events, level)
    ensures Waiting(events, level + 1, g) == []
  {
    forall i | 0 <= i < |events| ensures KeysOf(events)[i] != (level + 1, g) {
      assert KeysOf(events)[i].0 <= level;
    }
    NothingWaits(events, level + 1, g);
  }

  // ---------- Collector and drain ----------

  class EventCollector<T> {
    var cascadeLevel: nat
    var events: seq<Event<T>>

    ghost predicate Valid()
      reads this
    {
      WellKept(events, cascadeLevel)
    }

    constructor ()
      ensures Valid() && cascadeLevel == 1 && events == []
    {
      cascadeLevel, events := 1, [];
    }

    /** `add_event` */
    method AddEvent(a: Addition<T>)
      requires Valid()
      modifies this`events
      ensures Valid() && events == Add(old(events), cascadeLevel, a)
    {
      AddKeepsShape(events, cascadeLevel, a);
      AddAtPosition(events, cascadeLevel, a);
      var i := Position(events, cascadeLevel, a.group);
      if i == |events| {
        events := events + [Event(cascadeLevel, a.group, a.payload, a.impacted)];
      } else {
        events := events[i := events[i].(impacted := events[i].impacted + a.impacted)];
      }
    }

    method AddEvents(adds: seq<Addition<T>>)
      requires Valid()
      modifies this`events
      ensures Valid() && events == AddAll(old(events), cascadeLevel, adds)
    {
      for i := 0 to |adds|
        invariant Valid() && AddAll(events, cascadeLevel, adds[i..]) == AddAll(old(events), cascadeLevel, adds)
      {
        assert adds[i..][0] == adds[i] && adds[i..][1..] == adds[i + 1..];
        AddEvent(adds[i]);
      }
      assert adds[|adds|..] == [];
    }

    /** `drain`: what is added from now on belongs to the next level. */
    method Drain()
      requires Valid()
      modifies this`cascadeLevel
      ensures Valid() && cascadeLevel == old(cascadeLevel) + 1
    {
      RaiseLevel(events, cascadeLevel);
      cascadeLevel := cascadeLevel + 1;
    }

    /** `EventCollectorDrain.__next__` */
    method Next() returns (e: Option<Event<T>>)
      requires Valid()
      modifies this`events
      ensures Valid()
      ensures e.None? <==> old(events) == []
      ensures events == if e.None? then [] else old(events)[1..]
      ensures e.Some? ==> e.value == old(events)[0]
    {
      if events == [] {
        return None;
      }
      TailKeepsShape(events, cascadeLevel);
      e := Some(events[0]);
      events := events[1..];
    }
  }

  // ---------- One pass ----------

  function AsAddition<T>(e: Event<T>): Addition<T> {
    Addition(e.group, e.payload, e.impacted)
  }

  function Concat<T>(reactions: seq<seq<Addition<T>>>): seq<Addition<T>> {
    if reactions == [] then [] else Concat(reactions[..|reactions| - 1]) + reactions[|reactions| - 1]
  }

  lemma {:induction false} AddedAppend<T>(adds: seq<Addition<T>>, more: seq<Addition<T>>, g: Group)
    ensures AddedTo(adds + more, g) == AddedTo(adds, g) + AddedTo(more, g)
  {
    if adds == [] {
      assert adds + more == more;
    } else {
      assert (adds + more)[1..] == adds[1..] + more;
      AddedAppend(adds[1..], more, g);
    }
  }

  lemma {:induction false} OfGroupAppend<T>(events: seq<Event<T>>, e: Event<T>, g: Group)
    ensures OfGroup(events + [e], g) == OfGroup(events, g) + if e.group == g then e.impacted else []
  {
    if events == [] {
      assert (events + [e])[1..] == [];
    } else {
      assert (events + [e])[1..] == events[1..] + [e];
      OfGroupAppend(events[1..], e, g);
    }
  }

  lemma {:induction false} WaitingAppend<T>(events: seq<Event<T>>, e: Event<T>, l: nat, g: Group)
    ensures Waiting(events + [e], l, g)
            == Waiting(events, l, g) + if e.level == l && e.group == g then e.impacted else []
  {
    if events == [] {
      assert (events + [e])[1..] == [];
    } else {
      assert (events + [e])[1..] == events[1..] + [e];
      WaitingAppend(events[1..], e, l, g);
    }
  }

  /** What a pass keeps for one group and one level: what was emitted, then what still
      waits, is what was there at the start, then what listeners added. */
  ghost predicate Conserved<T>(start: seq<Event<T>>, level: nat, emitted: seq<Event<T>>, events: seq<Event<T>>,
                               added: seq<Addition<T>>, l: nat, g: Group) {
    && OfGroup(emitted, g) + OfGroup(events, g) == OfGroup(start, g) + AddedTo(added, g)
    && Waiting(emitted, l, g) + Waiting(events, l, g)
       == Waiting(start, l, g) + if l == level then AddedTo(added, g) else []
  }

  lemma {:induction false} ConservedStep<T>(start: seq<Event<T>>, level: nat, emitted: seq<Event<T>>,
                                            events: seq<Event<T>>, added: seq<Addition<T>>,
                      reaction: seq<Addition<T>>, l: nat, g: Group)
    requires WellKept(events, level) && events != [] && Conserved(start, level, emitted, events, added, l, g)
    ensures Conserved(start, level, emitted + [events[0]], AddAll(events[1..], level, reaction), added + reaction, l, g)
  {
    TailKeepsShape(events, level);
    OfGroupAppend(emitted, events[0], g);
    WaitingAppend(emitted, events[0], l, g);
    AddAllJoinsGroup(events[1..], level, reaction, g);
    AddAllWaits(events[1..], level, reaction, l, g);
    AddedAppend(added, reaction, g);
    Regroup(OfGroup(emitted, g), if events[0].group == g then events[0].impacted else [], OfGroup(events[1..], g),
            AddedTo(reaction, g), OfGroup(start, g), AddedTo(added, g));
    var more := if l == level then AddedTo(reaction, g) else [];
    Regroup(Waiting(emitted, l, g), if events[0].level == l && events[0].group == g then events[0].impacted else [],
            Waiting(events[1..], l, g), more, Waiting(start, l, g), if l == level then AddedTo(added, g) else []);
  }

  lemma Regroup<T>(e: seq<T>, h: seq<T>, r: seq<T>, m: seq<T>, s: seq<T>, a: seq<T>)
    requires e + (h + r) == s + a
    ensures (e + h) + (r + m) == s + (a + m)
  {
    assert (e + h) + (r + m) == (e + (h + r)) + m;
    assert (s + a) + m == s + (a + m);
  }

  /** The additions that listeners made during the pass. */
  function Made<T>(reactions: seq<seq<Addition<T>>>, n: nat): seq<Addition<T>> {
    Concat(if n <= |reactions| then reactions[..n] else reactions)
  }

  lemma MadeGrows<T>(reactions: seq<seq<Addition<T>>>, n: nat)
    ensures Made(reactions, n + 1) == Made(reactions, n) + if n < |reactions| then reactions[n] else []
  {
    if n < |reactions| {
      assert reactions[..n + 1][..n] == reactions[..n];
    } else if n == |reactions| {
      assert reactions[..n] == reactions;
    }
  }

  /** The levels and groups of what a whole pass emits. */
  ghost predicate Emits<T>(start: seq<Event<T>>, level: nat, emitted: seq<Event<T>>, added: seq<Addition<T>>) {
    && (forall g :: OfGroup(emitted, g) == OfGroup(start, g) + AddedTo(added, g))
    && (forall l: nat, g :: l <= level ==> Waiting(emitted, l, g) == Waiting(start, l, g))
    && (forall g :: Waiting(emitted, level + 1, g) == AddedTo(added, g))
  }

  lemma PassEmits<T>(start: seq<Event<T>>, level: nat, top: nat, emitted: seq<Event<T>>, added: seq<Addition<T>>)
    requires WellKept(start, level) && top == level + 1
    requires forall l: nat, g :: Conserved(start, top, emitted, [], added, l, g)
    ensures Emits(start, level, emitted, added)
  {
    forall l: nat, g ensures OfGroup(emitted, g) == OfGroup(start, g) + AddedTo(added, g)
                          && Waiting(emitted, l, g) == Waiting(start, l, g) + if l == top then AddedTo(added, g) else []
    {
      EmptiedGroup(start, top, emitted, added, l, g);
    }
    forall g ensures Waiting(emitted, level + 1, g) == AddedTo(added, g) {
      NothingAbove(start, level, g);
      EmptiedGroup(start, top, emitted, added, top, g);
    }
  }

  lemma {:induction false} EmptiedGroup<T>(start: seq<Event<T>>, top: nat, emitted: seq<Event<T>>,
                                           added: seq<Addition<T>>, l: nat, g: Group)
    requires Conserved(start, top, emitted, [], added, l, g)
    ensures OfGroup(emitted, g) == OfGroup(start, g) + AddedTo(added, g)
    ensures Waiting(emitted, l, g) == Waiting(start, l, g) + if l == top then AddedTo(added, g) else []
  {
    assert OfGroup<T>([], g) == [] && Waiting<T>([], l, g) == [];
  }

  /** All groups and levels at once. */
  ghost predicate AllConserved<T>(start: seq<Event<T>>, top: nat, emitted: seq<Event<T>>, events: seq<Event<T>>,
                                  added: seq<Addition<T>>) {
    forall l: nat, g :: Conserved(start, top, emitted, events, added, l, g)
  }

  ghost predicate SameGroups<T>(a: seq<Event<T>>, b: seq<Event<T>>) {
    forall g :: OfGroup(a, g) == OfGroup(b, g)
  }

  /** One turn of the pass. */
  lemma {:induction false} PassStep<T>(start: seq<Event<T>>, top: nat, emitted: seq<Event<T>>, events: seq<Event<T>>,
                                       added: seq<Addition<T>>,
                 reaction: seq<Addition<T>>, afterwards: seq<Event<T>>)
    requires WellKept(events, top) && events != [] && WellKept(afterwards, 1)
    requires AllConserved(start, top, emitted, events, added) && SameGroups(afterwards, emitted)
    ensures AllConserved(start, top, emitted + [events[0]], AddAll(events[1..], top, reaction), added + reaction)
    ensures SameGroups(Add(afterwards, 1, AsAddition(events[0])), emitted + [events[0]])
  {
    forall l: nat, g
      ensures Conserved(start, top, emitted + [events[0]], AddAll(events[1..], top, reaction), added + reaction, l, g)
    {
      assert Conserved(start, top, emitted, events, added, l, g);
      ConservedStep(start, top, emitted, events, added, reaction, l, g);
    }
    forall g ensures OfGroup(Add(afterwards, 1, AsAddition(events[0])), g) == OfGroup(emitted + [events[0]], g) {
      AddJoinsGroup(afterwards, 1, AsAddition(events[0]), g);
      OfGroupAppend(emitted, events[0], g);
    }
  }

  /** `get_resource_events`: `reactions[i]` is what listeners add when the `i`-th event is
      emitted.  Each waiting or added object is emitted once, in order within its group; what
      was added while draining is never merged with what was there before; the collector left
      for the next pass holds the same objects. */
  method GetResourceEvents<T>(collector: EventCollector<T>, reactions: seq<seq<Addition<T>>>)
    returns (emitted: seq<Event<T>>, afterwards: EventCollector<T>)
    requires collector.Valid()
    modifies collector
    ensures fresh(afterwards) && afterwards.Valid() && afterwards.cascadeLevel == 1
    ensures collector.Valid() && collector.events == []
    ensures Emits(old(collector.events), old(collector.cascadeLevel), emitted, Made(reactions, |emitted|))
    ensures |emitted| <= |old(collector.events)| + |Made(reactions, |emitted|)|
    ensures SameGroups(afterwards.events, emitted) && |afterwards.events| <= |emitted|
  {
    ghost var start, level := collector.events, collector.cascadeLevel;
    afterwards := new EventCollector<T>();
    emitted := [];
    collector.Drain();
    ghost var top := level + 1;
    ghost var added: seq<Addition<T>> := [];
    while collector.events != []
      invariant fresh(afterwards) && collector.Valid() && afterwards.Valid()
      invariant collector.cascadeLevel == top && afterwards.cascadeLevel == 1
      invariant added == Made(reactions, |emitted|)
      invariant AllConserved(start, top, emitted, collector.events, added)
      invariant |emitted| + |collector.events| <= |start| + |added|
      invariant SameGroups(afterwards.events, emitted) && |afterwards.events| <= |emitted|
      decreases if |emitted| < |reactions| then |reactions| - |emitted| else 0, |collector.events|
    {
      ghost var events, was := collector.events, afterwards.events;
      var e := collector.Next();
      afterwards.AddEvent(AsAddition(e.value));
      var reaction := if |emitted| < |reactions| then reactions[|emitted|] else [];
      collector.AddEvents(reaction);
      MadeGrows(reactions, |emitted|);
      AddAllKeepsShape(events[1..], top, reaction);
      AddKeepsShape(was, 1, AsAddition(e.value));
      PassStep(start, top, emitted, events, added, reaction, was);
      emitted := emitted + [e.value];
      added := added + reaction;
    }
    PassEmits(start, level, top, emitted, added);
  }

  // ---------- A whole request ----------

  /** Main result: whatever the handler adds and whatever listeners add while events are
      emitted, before commit each object is emitted once and in order within its group, and
      after commit once more; events are never more than the additions. */
  method ServeRequest<T>(adds: seq<Addition<T>>, reactions: seq<seq<Addition<T>>>,
                         reactionsAfter: seq<seq<Addition<T>>>)
    returns (before: seq<Event<T>>, after: seq<Event<T>>)
    ensures forall g :: OfGroup(before, g) == AddedTo(adds, g) + AddedTo(Made(reactions, |before|), g)
    ensures forall g :: Waiting(before, 1, g) == AddedTo(adds, g)
    ensures forall g :: Waiting(before, 2, g) == AddedTo(Made(reactions, |before|), g)
    ensures forall g :: OfGroup(after, g) == OfGroup(before, g) + AddedTo(Made(reactionsAfter, |after|), g)
    ensures |before| <= |adds| + |Made(reactions, |before|)|
    ensures |after| <= |before| + |Made(reactionsAfter, |after|)|
  {
    var collector := new EventCollector<T>();
    collector.AddEvents(adds);
    ghost var start := collector.events;
    AddAllKeepsShape([], 1, adds);
    forall g ensures OfGroup(start, g) == AddedTo(adds, g) && Waiting(start, 1, g) == AddedTo(adds, g) {
      AddAllJoinsGroup([], 1, adds, g);
      AddAllWaits([], 1, adds, 1, g);
    }
    var afterwards, rest;
    before, afterwards := GetResourceEvents(collector, reactions);
    after, rest := GetResourceEvents(afterwards, reactionsAfter);
  }
}
