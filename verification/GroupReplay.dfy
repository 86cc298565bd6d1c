/** The order in which the group listeners replay the changes of a request: events merge
    changes by bucket and action.  When that keeps principals and memberships in agreement. */
module GroupReplay {
  import opened Json
  import opened Collections
  import opened Sorting
  import opened Groups
  import Events
  import Replay
  import Condense

  // ---------- The order of replay ----------

  function ActionOf(c: Change): Events.Action {
    match c
    case Created(_, _) => Events.CREATE
    case Updated(_, _, _) => Events.UPDATE
    case Removed(_) => Events.DELETE
  }

  function BucketUri(bucket: string): string {
    "/buckets/" + bucket
  }

  /** A group is one level below its bucket. */
  lemma {:induction false} GroupIsBelowBucket(g: GroupId)
    requires SlashFree(g.id)
    ensures Condense.ParentUri(Uri(g)) == BucketUri(g.bucket)
  {
    Condense.ParentOfChild(BucketUri(g.bucket), "groups", g.id);
    assert BucketUri(g.bucket) + "/" + "groups" + "/" + g.id == Uri(g);
  }

  /** What changes are merged by. */
  function KeyOf(c: Change): Events.Group {
    Events.Group("group", BucketUri(c.g.bucket), ActionOf(c))
  }

  function StepsOf(changes: seq<Change>): (steps: seq<Replay.Step<Change>>)
    ensures |steps| == |changes|
  {
    seq(|changes|, i requires 0 <= i < |changes| => Replay.Step(KeyOf(changes[i]), changes[i]))
  }

  /** One `add_event` per change. */
  function Additions(changes: seq<Change>): (adds: seq<Events.Addition<Change>>)
    ensures |adds| == |changes|
  {
    seq(|changes|, i requires 0 <= i < |changes| => Events.Addition(KeyOf(changes[i]), Null, [changes[i]]))
  }

  function EventsOf(changes: seq<Change>): seq<Events.Event<Change>> {
    Events.AddAll([], 1, Additions(changes))
  }

  /** The changes in the order in which the listeners see them. */
  function Regrouped(changes: seq<Change>): seq<Change> {
    Events.Everything(EventsOf(changes))
  }

  function Of(g: GroupId): Change -> bool {
    (c: Change) => c.g == g
  }

  function HasAction(a: Events.Action): Change -> bool {
    (c: Change) => ActionOf(c) == a
  }

  function HasKey(key: Events.Group): Change -> bool {
    (c: Change) => KeyOf(c) == key
  }

  /** The changes of one group action by action. */
  function Blocks(w: seq<Change>, actions: seq<Events.Action>): seq<Change> {
    if actions == [] then []
    else Blocks(w, actions[..|actions| - 1]) + Select(w, HasAction(actions[|actions| - 1]))
  }

  /** The actions of the events of a bucket, in order. */
  function ActionsOf(keys: seq<(nat, Events.Group)>, parent: string): seq<Events.Action> {
    if keys == [] then []
    else
      var n := |keys| - 1;
      ActionsOf(keys[..n], parent) + if keys[n].1.parent == parent then [keys[n].1.action] else []
  }

  ghost predicate Distinct(actions: seq<Events.Action>) {
    forall i, j :: 0 <= i < j < |actions| ==> actions[i] != actions[j]
  }

  // ---------- From events to blocks ----------

  lemma {:induction false} AdditionsOfSteps(changes: seq<Change>)
    ensures Replay.AdditionsOf(StepsOf(changes)) == Additions(changes)
  {
    if changes != [] {
      var n := |changes| - 1;
      AdditionsOfSteps(changes[..n]);
      assert StepsOf(changes)[..n] == StepsOf(changes[..n]);
    }
  }

  lemma {:induction false} StepsOfKey(changes: seq<Change>, key: Events.Group)
    ensures Replay.Items(Select(StepsOf(changes), Replay.InGroup(key))) == Select(changes, HasKey(key))
  {
    if changes != [] {
      var n := |changes| - 1;
      StepsOfKey(changes[..n], key);
      assert StepsOf(changes) == StepsOf(changes[..n]) + [Replay.Step(KeyOf(changes[n]), changes[n])];
      Replay.SelectLast(StepsOf(changes[..n]), Replay.Step(KeyOf(changes[n]), changes[n]), key);
      SelectLast(changes, HasKey(key));
    }
  }

  lemma EventsAreMerged(changes: seq<Change>)
    ensures Replay.Merged(EventsOf(changes), Replay.FirstSeen(StepsOf(changes)), StepsOf(changes))
  {
    AdditionsOfSteps(changes);
    Replay.EventsAreMerged(StepsOf(changes));
  }

  /** Each event holds the changes of its key, in order. */
  lemma {:induction false} EventHoldsItsKey(changes: seq<Change>, i: nat)
    requires i < |EventsOf(changes)|
    ensures var e := EventsOf(changes)[i]; e.level == 1 && e.impacted == Select(changes, HasKey(e.group))
  {
    EventsAreMerged(changes);
    assert Replay.HoldsKind(EventsOf(changes)[i], Replay.FirstSeen(StepsOf(changes))[i], StepsOf(changes));
    StepsOfKey(changes, EventsOf(changes)[i].group);
  }

  /** The changes of one group among those of an event. */
  lemma {:induction false} EventOfGroup(changes: seq<Change>, g: GroupId, key: Events.Group)
    requires key.resource == "group"
    ensures Select(Select(changes, HasKey(key)), Of(g))
            == if key.parent == BucketUri(g.bucket) then Select(Select(changes, Of(g)), HasAction(key.action)) else []
  {
    SelectTwice(changes, HasKey(key), Of(g));
    SelectTwice(changes, Of(g), HasAction(key.action));
    if key.parent == BucketUri(g.bucket) {
      forall c | c in changes ensures Both(HasKey(key), Of(g))(c) == Both(Of(g), HasAction(key.action))(c) {}
      SelectSame(changes, Both(HasKey(key), Of(g)), Both(Of(g), HasAction(key.action)));
    } else {
      SelectNone(changes, Both(HasKey(key), Of(g)));
    }
  }

  /** Replay order of the changes of one group: its actions one after the other, in the
      order in which the bucket's actions first occurred. */
  lemma {:induction false} RegroupedInBlocks(changes: seq<Change>, g: GroupId)
    ensures Select(Regrouped(changes), Of(g))
            == Blocks(Select(changes, Of(g)), ActionsOf(Events.KeysOf(EventsOf(changes)), BucketUri(g.bucket)))
  {
    var events := EventsOf(changes);
    forall i | 0 <= i < |events| ensures HoldsItsKey(events[i], changes) {
      EventHoldsItsKey(changes, i);
      KeyIsGroupKey(changes, i);
    }
    FlatInBlocks(changes, g, events);
  }

  predicate HoldsItsKey(e: Events.Event<Change>, changes: seq<Change>) {
    e.group.resource == "group" && e.impacted == Select(changes, HasKey(e.group))
  }

  lemma {:induction false} FlatInBlocks(changes: seq<Change>, g: GroupId, events: seq<Events.Event<Change>>)
    requires forall i :: 0 <= i < |events| ==> HoldsItsKey(events[i], changes)
    ensures Select(Events.Everything(events), Of(g))
            == Blocks(Select(changes, Of(g)), ActionsOf(Events.KeysOf(events), BucketUri(g.bucket)))
  {
    if events != [] {
      var n, parent := |events| - 1, BucketUri(g.bucket);
      var e, before := events[n], events[..n];
      FlatInBlocks(changes, g, before);
      EventOfGroup(changes, g, e.group);
      LastApart(events);
      FlatGrows(before, e, g);
      ActionsGrow(before, e, parent);
      var actions := ActionsOf(Events.KeysOf(before), parent);
      assert actions + [] == actions;
      BlocksGrow(Select(changes, Of(g)), actions, e.group.action);
    }
  }

  lemma {:induction false} FlatGrows(before: seq<Events.Event<Change>>, e: Events.Event<Change>, g: GroupId)
    ensures Select(Events.Everything(before + [e]), Of(g))
            == Select(Events.Everything(before), Of(g)) + Select(e.impacted, Of(g))
  {
    assert (before + [e])[..|before|] == before;
    SelectAppend(Events.Everything(before), e.impacted, Of(g));
  }

  lemma {:induction false} ActionsGrow(before: seq<Events.Event<Change>>, e: Events.Event<Change>, parent: string)
    ensures ActionsOf(Events.KeysOf(before + [e]), parent)
            == ActionsOf(Events.KeysOf(before), parent) + if e.group.parent == parent then [e.group.action] else []
  {
    var keys := Events.KeysOf(before + [e]);
    assert keys[..|before|] == Events.KeysOf(before);
  }

  lemma {:induction false} BlocksGrow(w: seq<Change>, actions: seq<Events.Action>, a: Events.Action)
    ensures Blocks(w, actions + [a]) == Blocks(w, actions) + Select(w, HasAction(a))
  {
    assert (actions + [a])[..|actions|] == actions;
  }

  /** Events concern groups and some change of the request. */
  lemma {:induction false} KeyIsGroupKey(changes: seq<Change>, i: nat)
    requires i < |EventsOf(changes)|
    ensures exists c :: c in changes && EventsOf(changes)[i].group == KeyOf(c)
  {
    var steps := StepsOf(changes);
    EventsAreMerged(changes);
    assert Replay.HoldsKind(EventsOf(changes)[i], Replay.FirstSeen(steps)[i], steps);
    var j := Replay.SeenIn(steps, EventsOf(changes)[i].group);
    assert changes[j] in changes;
  }

  /** The keys of the events: one per kind of change, each once. */
  lemma KeysAreSeen(changes: seq<Change>)
    ensures var keys := Events.KeysOf(EventsOf(changes));
            && (forall i, j :: 0 <= i < j < |keys| ==> keys[i] != keys[j])
            && (forall i :: 0 <= i < |keys| ==> keys[i].0 == 1)
            && (forall c :: c in changes ==> (1, KeyOf(c)) in keys)
  {
    var steps, seen, events := StepsOf(changes), Replay.FirstSeen(StepsOf(changes)), EventsOf(changes);
    EventsAreMerged(changes);
    forall i | 0 <= i < |seen| ensures Events.KeysOf(events)[i] == (1, seen[i]) {
      assert Replay.HoldsKind(events[i], seen[i], steps);
    }
    forall c | c in changes ensures (1, KeyOf(c)) in Events.KeysOf(events) {
      var j :| 0 <= j < |changes| && changes[j] == c;
      assert steps[j].group in seen;
      var i :| 0 <= i < |seen| && seen[i] == KeyOf(c);
      assert Events.KeysOf(events)[i] == (1, seen[i]);
    }
  }

  /** The actions of a bucket: each once, and every action of a change of the bucket. */
  lemma {:induction false} ActionsAreDistinct(changes: seq<Change>, g: GroupId)
    ensures var actions := ActionsOf(Events.KeysOf(EventsOf(changes)), BucketUri(g.bucket));
            && Distinct(actions)
            && (forall c :: c in Select(changes, Of(g)) ==> ActionOf(c) in actions)
  {
    var keys, parent := Events.KeysOf(EventsOf(changes)), BucketUri(g.bucket);
    KeysAreSeen(changes);
    forall i | 0 <= i < |keys| ensures keys[i].1.resource == "group" {
      KeyIsGroupKey(changes, i);
    }
    ActionsOfDistinct(keys, parent);
    forall c | c in Select(changes, Of(g)) ensures ActionOf(c) in ActionsOf(keys, parent) {
      SelectIn(changes, Of(g), c);
      KeyHasAction(keys, parent, KeyOf(c));
    }
  }

  lemma {:induction false} KeyHasAction(keys: seq<(nat, Events.Group)>, parent: string, key: Events.Group)
    requires (1, key) in keys && key.parent == parent
    ensures key.action in ActionsOf(keys, parent)
  {
    var n := |keys| - 1;
    if keys[n] != (1, key) { KeyHasAction(keys[..n], parent, key); }
  }

  lemma {:induction false} ActionsOfDistinct(keys: seq<(nat, Events.Group)>, parent: string)
    requires forall i :: 0 <= i < |keys| ==> keys[i].0 == 1 && keys[i].1.resource == "group"
    requires forall i, j :: 0 <= i < j < |keys| ==> keys[i] != keys[j]
    ensures Distinct(ActionsOf(keys, parent))
    ensures forall a :: a in ActionsOf(keys, parent) ==> (1, Events.Group("group", parent, a)) in keys
  {
    if keys != [] {
      var n := |keys| - 1;
      ActionsOfDistinct(keys[..n], parent);
      var before, a := ActionsOf(keys[..n], parent), keys[n].1.action;
      assert keys == keys[..n] + [keys[n]] && keys[n] !in keys[..n];
      assert before + [] == before;
      assert keys[n] == (1, Events.Group("group", keys[n].1.parent, a));
      forall b | b in ActionsOf(keys, parent) ensures (1, Events.Group("group", parent, b)) in keys {
        if b in before { assert (1, Events.Group("group", parent, b)) in keys[..n]; }
        else { assert b == a && keys[n].1.parent == parent; }
      }
      if keys[n].1.parent == parent {
        assert a !in before;
        forall i, j | 0 <= i < j < |before + [a]| ensures (before + [a])[i] != (before + [a])[j] {
          assert before[i] in before;
        }
      }
    }
  }

  // ---------- Principals of one group ----------

  /** Only the changes of a group move its principal. */
  lemma {:induction false} OnlyItsChanges(own: set<string>, user: string, changes: seq<Change>, g: GroupId)
    requires PlainId(g) && forall c :: c in changes ==> PlainId(c.g)
    ensures Uri(g) in Turns(own, user, changes) <==> Uri(g) in Turns(own, user, Select(changes, Of(g)))
  {
    if changes != [] {
      var n := |changes| - 1;
      var init, c := changes[..n], changes[n];
      OnlyItsChanges(own, user, init, g);
      SelectLast(changes, Of(g));
      var mine := Select(init, Of(g));
      if c.g == g {
        assert (mine + [c])[..|mine|] == mine;
        TurnFollows(Turns(own, user, init), Turns(own, user, mine), user, c, g);
      } else {
        assert mine + [] == mine;
        if Uri(c.g) == Uri(g) { UriIsInjective(c.g, g); }
      }
    }
  }

  lemma TurnFollows(own: set<string>, other: set<string>, user: string, c: Change, g: GroupId)
    requires c.g == g && (Uri(g) in own <==> Uri(g) in other)
    ensures Uri(g) in Turn(own, user, c) <==> Uri(g) in Turn(other, user, c)
  {
  }

  lemma {:induction false} SelectLast<T>(s: seq<T>, p: T -> bool)
    requires s != []
    ensures var n := |s| - 1; Select(s, p) == Select(s[..n], p) + if p(s[n]) then [s[n]] else []
  {
    var n := |s| - 1;
    assert s == s[..n] + [s[n]];
    SelectAppend(s[..n], [s[n]], p);
    assert Select([s[n]], p) == (if p(s[n]) then [s[n]] else []) + Select([], p);
  }

  // ---------- Requests that change a group any number of times ----------

  /** Each change fits the groups as they are when it is made. */
  ghost predicate ValidRun(live: Stored, changes: seq<Change>) {
    changes == [] ||
    var n := |changes| - 1;
    ValidRun(live, changes[..n]) && PlainId(changes[n].g) && Fits(AfterAll(live, changes[..n]), changes[n])
  }

  lemma {:induction false} ValidIsPlain(live: Stored, changes: seq<Change>)
    requires ValidRun(live, changes)
    ensures forall c :: c in changes ==> PlainId(c.g)
  {
    if changes != [] { ValidIsPlain(live, changes[..|changes| - 1]); }
  }

  /** Replayed as they were made, changes keep the agreement. */
  lemma {:induction false} InOrderAgrees(own: set<string>, user: string, live: Stored, changes: seq<Change>)
    requires Agrees(own, user, live) && ValidRun(live, changes)
    ensures Agrees(Turns(own, user, changes), user, AfterAll(live, changes))
  {
    if changes != [] {
      var n := |changes| - 1;
      InOrderAgrees(own, user, live, changes[..n]);
      var before, now, c := Turns(own, user, changes[..n]), AfterAll(live, changes[..n]), changes[n];
      forall g | PlainId(g) ensures Uri(g) in Turn(before, user, c) <==> IsMember(After(now, c), g, user) {
        TurnEffect(before, user, c, now, g);
      }
    }
  }

  predicate EndsDeleted(w: seq<Change>) {
    w != [] && w[|w| - 1].Removed?
  }

  /** The replay keeps the order of a group's changes, or it ends with the deletion with which
      they end. */
  predicate SafeFor(changes: seq<Change>, replayed: seq<Change>, g: GroupId) {
    var w, r := Select(changes, Of(g)), Select(replayed, Of(g));
    r == w || (EndsDeleted(w) && EndsDeleted(r))
  }

  lemma {:induction false} DeletedIsGone(live: Stored, changes: seq<Change>, g: GroupId)
    requires ValidRun(live, changes) && EndsDeleted(Select(changes, Of(g)))
    ensures g !in AfterAll(live, changes)
  {
    var n := |changes| - 1;
    SelectLast(changes, Of(g));
    if changes[n].g != g { DeletedIsGone(live, changes[..n], g); }
  }

  /** Main result: a request keeps the agreement if its replay is safe for every group. */
  lemma {:induction false} SafeReplayAgrees(own: set<string>, user: string, live: Stored, changes: seq<Change>,
                                            replayed: seq<Change>)
    requires Agrees(own, user, live) && ValidRun(live, changes)
    requires forall c :: c in replayed ==> PlainId(c.g)
    requires forall g :: PlainId(g) ==> SafeFor(changes, replayed, g)
    ensures Agrees(Turns(own, user, replayed), user, AfterAll(live, changes))
  {
    ValidIsPlain(live, changes);
    forall g | PlainId(g)
      ensures Uri(g) in Turns(own, user, replayed) <==> IsMember(AfterAll(live, changes), g, user)
    {
      SafeForGroup(own, user, live, changes, replayed, g);
    }
  }

  lemma {:induction false} SafeForGroup(own: set<string>, user: string, live: Stored, changes: seq<Change>,
                                        replayed: seq<Change>, g: GroupId)
    requires Agrees(own, user, live) && ValidRun(live, changes)
    requires PlainId(g) && (forall c :: c in changes ==> PlainId(c.g)) && (forall c :: c in replayed ==> PlainId(c.g))
    requires SafeFor(changes, replayed, g)
    ensures Uri(g) in Turns(own, user, replayed) <==> IsMember(AfterAll(live, changes), g, user)
  {
    InOrderAgrees(own, user, live, changes);
    OnlyItsChanges(own, user, changes, g);
    OnlyItsChanges(own, user, replayed, g);
    var w, r := Select(changes, Of(g)), Select(replayed, Of(g));
    if r != w {
      DeletedIsGone(live, changes, g);
      EndsWithout(own, user, replayed, g);
    }
  }

  lemma {:induction false} EndsWithout(own: set<string>, user: string, replayed: seq<Change>, g: GroupId)
    requires EndsDeleted(Select(replayed, Of(g)))
    ensures Uri(g) !in Turns(own, user, Select(replayed, Of(g)))
  {
    var r := Select(replayed, Of(g));
    SelectIn(replayed, Of(g), r[|r| - 1]);
  }
}
