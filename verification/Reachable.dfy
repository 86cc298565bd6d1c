/** Runs from the empty store after which a protocol falls short of what a client expects. */
module Reachable {
  import opened Options
  import opened Json
  import opened Collections
  import opened Sorting
  import opened Query
  import opened Pagination
  import opened Paging
  import opened Storage
  import opened Sync
  import opened History
  import Snapshot
  import Recording
  import Replay
  import Events
  import PluralDelete

  // ---------- A tie across two pages ----------

  /** The third timestamp is in the past, and that of the first object. */
  function CreationsWithTie(): seq<Op> {
    [Create("a", Some(5), map[], 1), Create("b", Some(9), map[], 2), Create("c", Some(5), map[], 3)]
  }

  lemma CreationsAreStored()
    ensures Run(EMPTY_CELL, CreationsWithTie()).live
            == map["a" := Version(5, map[]), "b" := Version(9, map[]), "c" := Version(5, map[])]
  {
    var ops := CreationsWithTie();
    var c1 := Apply(EMPTY_CELL, ops[0]);
    var c2 := Apply(c1, ops[1]);
    var c3 := Apply(c2, ops[2]);
    assert Clock(c1) == 5 && Clock(c2) == 9;
    assert c3.live == map["a" := Version(5, map[]), "b" := Version(9, map[]), "c" := Version(5, map[])];
    assert ops[1..][1..] == [ops[2]] && [ops[2]][1..] == [];
    assert Run(EMPTY_CELL, ops) == Run(c1, ops[1..]) == Run(c2, [ops[2]]) == Run(c3, []);
  }

  const NEWEST_FIRST := [Sort("last_modified", true)]

  /** The default order is that of the timestamps. */
  lemma NewestFirst(a: string, v: Version, b: string, w: Version)
    requires PluralDelete.PlainData(v.data) && PluralDelete.PlainData(w.data)
    ensures KeyLess(LiveObject(a, v), LiveObject(b, w), Keys(NEWEST_FIRST)) <==> v.stamp > w.stamp
  {
    PluralDelete.LiveFields(a, v);
    PluralDelete.LiveFields(b, w);
    var keys := Keys(NEWEST_FIRST);
    assert keys[0] == SortKey(Column("last_modified"), true) && keys[1..] == [];
  }

  /** With two objects a page, in the default order, a walk over these three serves two at most. */
  lemma {:induction false} TieLosesAnObject(pages: seq<seq<Dict>>)
    requires var objects := PluralDelete.ObjectsOf(Run(EMPTY_CELL, CreationsWithTie()).live, ["a", "b", "c"]);
             Walked(SortedList(objects, [], [], NEWEST_FIRST), NEWEST_FIRST, PageSizes(2, 2), pages)
    ensures |Flatten(pages)| < 3
  {
    CreationsAreStored();
    var old5, new9 := Version(5, map[]), Version(9, map[]);
    var a, b, c := LiveObject("a", old5), LiveObject("b", new9), LiveObject("c", old5);
    var objects := PluralDelete.ObjectsOf(Run(EMPTY_CELL, CreationsWithTie()).live, ["a", "b", "c"]);
    assert objects == [a, b, c];
    var keys, s := Keys(NEWEST_FIRST), SortedList(objects, [], [], NEWEST_FIRST);
    assert Listed(objects, [], []) == objects;
    SelectAll(objects, Accepting([]));
    ChainElements(objects, keys);
    ChainOrdered(objects, keys);
    NewestFirst("b", new9, "a", old5);
    NewestFirst("b", new9, "c", old5);
    NewestFirst("a", old5, "c", old5);
    NewestFirst("c", old5, "a", old5);
    NewestFirst("a", old5, "a", old5);
    NewestFirst("c", old5, "c", old5);
    TieComesLast(a, b, c, s, keys);
  }

  /** Three objects of which the second comes first and the others tie. */
  lemma {:induction false} TieComesLast(a: Dict, b: Dict, c: Dict, s: seq<Dict>, keys: seq<SortKey<Dict>>)
    requires multiset(s) == multiset([a, b, c]) && Ordered(s, keys)
    requires KeyLess(b, a, keys) && KeyLess(b, c, keys) && !KeyLess(a, c, keys) && !KeyLess(c, a, keys)
    requires !KeyLess(a, a, keys) && !KeyLess(c, c, keys)
    ensures |s| == 3 && !KeyLess(s[1], s[2], keys)
  {
    var t := [a, b, c];
    assert |s| == |multiset(s)| == |multiset(t)| == 3;
    forall x | x in s ensures x == a || x == b || x == c { SameElements(s, t, x); }
    assert s[0] in s && s[1] in s && s[2] in s;
    AppearsOnce(t, 1);
    EqualAppearsTwice(s, 0, 1);
    EqualAppearsTwice(s, 0, 2);
    assert !KeyLess(s[1], s[0], keys) && !KeyLess(s[2], s[0], keys);
  }

  lemma EqualAppearsTwice(s: seq<Dict>, i: nat, j: nat)
    requires i < j < |s|
    ensures s[i] == s[j] ==> multiset(s)[s[i]] >= 2
  {
    if s[i] == s[j] { AppearsTwice(s, i, j); }
  }

  // ---------- A tombstone in a snapshot ----------

  /** A record is created, deleted and created again. */
  function Rebirth(): seq<Op> {
    [Create("x", None, map[], 1), Op.Delete("x", None, true, 2), Create("x", None, map[], 3)]
  }

  function RebirthEntries(): seq<Entry> {
    [Entry(1, "record", "u", "x", Live(Version(1, map[]))),
     Entry(2, "record", "u", "x", Dead(2)),
     Entry(3, "record", "u", "x", Live(Version(3, map[])))]
  }

  lemma RebirthIsRun()
    ensures Run(EMPTY_CELL, Rebirth()).live == map["x" := Version(3, map[])]
    ensures SlotOf(Snapshot.AtTime(EMPTY_CELL, Rebirth(), 2), "x") == Dead(2)
    ensures forall id :: Snapshot.Changes(EMPTY_CELL, Rebirth(), id)
                         == if id == "x" then [Live(Version(1, map[])), Dead(2), Live(Version(3, map[]))] else []
  {
    var ops := Rebirth();
    var c1 := Apply(EMPTY_CELL, ops[0]);
    var c2 := Apply(c1, ops[1]);
    var c3 := Apply(c2, ops[2]);
    assert c1.live == map["x" := Version(1, map[])] && Clock(c1) == 1;
    assert SlotOf(c2, "x") == Dead(2) && Clock(c2) == 2;
    assert c3.live == map["x" := Version(3, map[])] && Clock(c3) == 3;
    assert ops[1..][0] == ops[1] && ops[1..][1..] == [ops[2]] && [ops[2]][1..] == [];
    assert Run(EMPTY_CELL, ops) == Run(c1, ops[1..]) == Run(c2, [ops[2]]) == Run(c3, []);
    assert Snapshot.AtTime(EMPTY_CELL, ops, 2) == Snapshot.AtTime(c1, ops[1..], 2)
      == Snapshot.AtTime(c2, [ops[2]], 2) == c2;
    forall id ensures Snapshot.Changes(EMPTY_CELL, ops, id)
                      == if id == "x" then [Live(Version(1, map[])), Dead(2), Live(Version(3, map[]))] else []
    {
      assert Snapshot.Changes(c2, [ops[2]], id) == (if id == "x" then [SlotOf(c3, id)] else [])
        + Snapshot.Changes(c3, [], id);
    }
  }

  /** The history is full, and every snapshot at the time of the deletion holds the tombstone. */
  lemma {:induction false} SnapshotHoldsTombstone(items: seq<Snapshot.Item>)
    requires Snapshot.Reports(items, Run(EMPTY_CELL, Rebirth()), RebirthEntries(), 2)
    ensures Snapshot.FullHistory(RebirthEntries(), Rebirth()) && Snapshot.AllClockChosen(Rebirth())
    ensures Snapshot.Item("x", Dead(2)) in items
  {
    RebirthIsRun();
    forall id ensures Snapshot.TargetsOf(Select(RebirthEntries(), Snapshot.OfRecord(id)))
                      == Snapshot.Changes(EMPTY_CELL, Rebirth(), id)
    {
      var s := RebirthEntries();
      assert s[1..][0] == s[1] && s[1..][1..] == [s[2]] && [s[2]][1..] == [];
      assert Select(s, Snapshot.OfRecord(id)) == if id == "x" then s else [];
    }
    Snapshot.SnapshotIsTheCollection(Rebirth(), RebirthEntries(), 2, items);
  }

  // ---------- A record that is changed twice in one request ----------

  /** A record is created; a batch creates another one, deletes the first and creates it again;
      it is updated. */
  function BatchRun(): seq<seq<Op>> {
    [[Create("r", None, map[], 1)],
     [Create("x", None, map[], 2), Op.Delete("r", None, true, 3), Create("r", None, map[], 4)],
     [Update("r", None, map[], 5)]]
  }

  const AFTER_FIRST := Cell(Some(1), map["r" := Version(1, map[])], map[])
  const AFTER_BATCH := Cell(Some(4), map["r" := Version(4, map[]), "x" := Version(2, map[])], map[])

  lemma BatchStates()
    ensures Run(EMPTY_CELL, BatchRun()[0]) == AFTER_FIRST
    ensures Run(AFTER_FIRST, BatchRun()[1]) == AFTER_BATCH
    ensures SlotOf(Run(AFTER_BATCH, BatchRun()[2]), "r") == Live(Version(5, map[]))
    ensures BatchRun()[0] == [Create("r", None, map[], 1)] && BatchRun()[2] == [Update("r", None, map[], 5)]
    ensures SlotOf(Apply(EMPTY_CELL, Create("r", None, map[], 1)), "r") == Live(Version(1, map[]))
    ensures SlotOf(Apply(AFTER_BATCH, Update("r", None, map[], 5)), "r") == Live(Version(5, map[]))
  {
    var batch := BatchRun()[1];
    var a := Apply(AFTER_FIRST, batch[0]);
    var b := Apply(a, batch[1]);
    assert a == Cell(Some(2), map["r" := Version(1, map[]), "x" := Version(2, map[])], map[]);
    assert b == Cell(Some(3), map["x" := Version(2, map[])], map["r" := 3]);
    assert Apply(b, batch[2]) == AFTER_BATCH;
    assert batch[1..][0] == batch[1] && batch[1..][1..] == [batch[2]] && [batch[2]][1..] == [];
    assert Run(AFTER_FIRST, batch) == Run(a, batch[1..]) == Run(b, [batch[2]]) == Run(AFTER_BATCH, []);
    assert BatchRun()[0][1..] == [] && BatchRun()[2][1..] == [];
    assert Apply(EMPTY_CELL, BatchRun()[0][0]) == AFTER_FIRST;
    assert Run(EMPTY_CELL, BatchRun()[0]) == Run(AFTER_FIRST, []);
    var d := Apply(AFTER_BATCH, BatchRun()[2][0]);
    assert Run(AFTER_BATCH, BatchRun()[2]) == Run(d, []);
  }

  /** The batch is replayed with both creations first. */
  lemma {:induction false} BatchReplay(uri: string)
    ensures var x := Replay.Step(Events.Group("record", uri, Events.CREATE),
                                 Impacted(Recording.RecordUri(uri, "x"), "x", Live(Version(2, map[]))));
            var dead := Replay.Step(Events.Group("record", uri, Events.DELETE),
                                    Impacted(Recording.RecordUri(uri, "r"), "r", Dead(3)));
            var again := Replay.Step(Events.Group("record", uri, Events.CREATE),
                                     Impacted(Recording.RecordUri(uri, "r"), "r", Live(Version(4, map[]))));
            && Recording.StepsOf(AFTER_FIRST, BatchRun()[1], uri) == [x, dead, again]
            && Replay.ByFirstSeen([x, dead, again]) == [x, again, dead]
  {
    var batch := BatchRun()[1];
    var x := Replay.Step(Events.Group("record", uri, Events.CREATE),
                         Impacted(Recording.RecordUri(uri, "x"), "x", Live(Version(2, map[]))));
    var dead := Replay.Step(Events.Group("record", uri, Events.DELETE),
                            Impacted(Recording.RecordUri(uri, "r"), "r", Dead(3)));
    var again := Replay.Step(Events.Group("record", uri, Events.CREATE),
                             Impacted(Recording.RecordUri(uri, "r"), "r", Live(Version(4, map[]))));
    var a := Apply(AFTER_FIRST, batch[0]);
    var b := Apply(a, batch[1]);
    assert batch[1..][0] == batch[1] && batch[1..][1..] == [batch[2]] && [batch[2]][1..] == [];
    assert Recording.StepsOf(b, [batch[2]], uri) == [again] + [];
    assert Recording.StepsOf(a, batch[1..], uri) == [dead] + [again];
    assert Recording.StepsOf(AFTER_FIRST, batch, uri) == [x] + [dead, again];
    Replay.ThreeSteps(x, dead, again);
  }

  lemma BatchBefore()
    ensures Recording.Before(BatchRun(), 0) == EMPTY_CELL
    ensures Recording.Before(BatchRun(), 1) == AFTER_FIRST
    ensures Recording.Before(BatchRun(), 2) == AFTER_BATCH
    ensures Run(EMPTY_CELL, Flatten(BatchRun())) == Run(AFTER_BATCH, BatchRun()[2])
  {
    BatchStates();
    Recording.RunMore(BatchRun(), 0);
    Recording.RunMore(BatchRun(), 1);
    Recording.RunMore(BatchRun(), 2);
    WholePrefix(BatchRun());
    assert BatchRun()[..0] == [];
  }

  /** A request with one operation on `r`. */
  lemma {:induction false} SingleRecorded(c: Cell, op: Op, uri: string)
    requires !op.ReadClock? && op.id == "r" && Snapshot.Writes(c, op)
    ensures Snapshot.For(Recording.Recorded(c, [op], uri), "r") == [SlotOf(Apply(c, op), "r")]
    ensures Snapshot.Changes(c, [op], "r") == [SlotOf(Apply(c, op), "r")]
  {
    Recording.AtMostOnceIsInOrder(c, [op], uri);
    assert Recording.RecordInOrder(c, [op], uri, "r");
    Recording.RecordedInOrder(c, [op], uri, "r");
    assert [op][1..] == [];
    assert Snapshot.Changes(c, [op], "r") == [SlotOf(Apply(c, op), "r")] + Snapshot.Changes(Apply(c, op), [], "r");
  }

  /** What the batch records of `r`, and what happens to it. */
  lemma {:induction false} BatchRecorded(uri: string)
    ensures Snapshot.For(Recording.Recorded(AFTER_FIRST, BatchRun()[1], uri), "r")
            == [Live(Version(4, map[])), Dead(3)]
    ensures Snapshot.Changes(AFTER_FIRST, BatchRun()[1], "r") == [Dead(3), Live(Version(4, map[]))]
  {
    BatchReplay(uri);
    Recording.RecordedAndChanges(AFTER_FIRST, BatchRun()[1], uri, "r");
    var steps := Recording.StepsOf(AFTER_FIRST, BatchRun()[1], uri);
    SelectLastTwo(steps[0], steps[1], steps[2]);
    SelectLastTwo(steps[0], steps[2], steps[1]);
  }

  lemma SelectLastTwo(x: Replay.Step<Impacted>, a: Replay.Step<Impacted>, b: Replay.Step<Impacted>)
    requires x.item.id != "r" && a.item.id == b.item.id == "r"
    ensures Select([x, a, b], Recording.OfId("r")) == [a, b]
  {
    var p := Recording.OfId("r");
    assert [x, a, b][1..] == [a, b] && [a, b][1..] == [b] && [b][1..] == [];
    assert Select([b], p) == [b] && Select([a, b], p) == [a] + [b];
  }

  const V1 := Live(Version(1, map[]))
  const V4 := Live(Version(4, map[]))
  const V5 := Live(Version(5, map[]))

  /** What three requests leave of `r` in the history. */
  lemma {:induction false} ThreeRecorded(requests: seq<seq<Op>>, added: seq<seq<Entry>>, uri: string)
    requires |requests| == 3 && Recording.Listened(requests, added, uri)
    ensures Snapshot.TargetsOf(Select(Flatten(added), Snapshot.OfRecord("r")))
            == [] + RecordedIn(requests, uri, 0) + RecordedIn(requests, uri, 1) + RecordedIn(requests, uri, 2)
  {
    Recording.TargetsMore(requests, added, uri, 0, "r");
    Recording.TargetsMore(requests, added, uri, 1, "r");
    Recording.TargetsMore(requests, added, uri, 2, "r");
    WholePrefix(added);
    NothingYet(added, requests);
  }

  /** What happens to `r` over three requests. */
  lemma {:induction false} ThreeChanged(requests: seq<seq<Op>>)
    requires |requests| == 3
    ensures Snapshot.Changes(EMPTY_CELL, Flatten(requests), "r")
            == [] + ChangedIn(requests, 0) + ChangedIn(requests, 1) + ChangedIn(requests, 2)
  {
    NothingYet([], requests);
    ChangesMore(requests, 0, []);
    ChangesMore(requests, 1, [] + ChangedIn(requests, 0));
    ChangesMore(requests, 2, [] + ChangedIn(requests, 0) + ChangedIn(requests, 1));
    WholePrefix(requests);
  }

  function RecordedIn(requests: seq<seq<Op>>, uri: string, i: nat): seq<Slot>
    requires i < |requests|
  {
    Snapshot.For(Recording.Recorded(Recording.Before(requests, i), requests[i], uri), "r")
  }

  function ChangedIn(requests: seq<seq<Op>>, i: nat): seq<Slot>
    requires i < |requests|
  {
    Snapshot.Changes(Recording.Before(requests, i), requests[i], "r")
  }

  lemma NothingYet(added: seq<seq<Entry>>, requests: seq<seq<Op>>)
    ensures Snapshot.TargetsOf(Select(Flatten(added[..0]), Snapshot.OfRecord("r"))) == []
    ensures Snapshot.Changes(EMPTY_CELL, Flatten(requests[..0]), "r") == []
  {
  }

  /** The listener leaves the deletion after the record that was created later. */
  lemma {:induction false} BatchEntries(added: seq<seq<Entry>>, uri: string)
    requires Recording.Listened(BatchRun(), added, uri)
    ensures Snapshot.TargetsOf(Select(Flatten(added), Snapshot.OfRecord("r"))) == [V1, V4, Dead(3), V5]
    ensures Snapshot.Changes(EMPTY_CELL, Flatten(BatchRun()), "r") == [V1, Dead(3), V4, V5]
  {
    ThreeRecorded(BatchRun(), added, uri);
    ThreeChanged(BatchRun());
    EachRequest(uri);
    assert [] + [V1] + [V4, Dead(3)] + [V5] == [V1, V4, Dead(3), V5];
    assert [] + [V1] + [Dead(3), V4] + [V5] == [V1, Dead(3), V4, V5];
  }

  lemma {:induction false} EachRequest(uri: string)
    ensures RecordedIn(BatchRun(), uri, 1) == [V4, Dead(3)] && ChangedIn(BatchRun(), 1) == [Dead(3), V4]
    ensures RecordedIn(BatchRun(), uri, 0) == ChangedIn(BatchRun(), 0) == [V1]
    ensures RecordedIn(BatchRun(), uri, 2) == ChangedIn(BatchRun(), 2) == [V5]
  {
    BatchBefore();
    BatchStates();
    BatchRecorded(uri);
    SingleRecorded(EMPTY_CELL, Create("r", None, map[], 1), uri);
    SingleRecorded(AFTER_BATCH, Update("r", None, map[], 5), uri);
  }

  lemma {:induction false} ChangesMore(requests: seq<seq<Op>>, i: nat, before: seq<Slot>)
    requires i < |requests| && Snapshot.Changes(EMPTY_CELL, Flatten(requests[..i]), "r") == before
    ensures Snapshot.Changes(EMPTY_CELL, Flatten(requests[..i + 1]), "r") == before + ChangedIn(requests, i)
  {
    PrefixStep(requests, i);
    FlattenMore(requests[..i], requests[i]);
    Snapshot.ChangesAppend(EMPTY_CELL, Flatten(requests[..i]), requests[i], "r");
  }

  lemma BatchIsClockChosen()
    ensures Snapshot.AllClockChosen(Flatten(BatchRun()))
  {
    var requests := BatchRun();
    assert requests[..2][..1] == [requests[0]] && [requests[0]][..0] == [];
    assert Flatten([requests[0]]) == [] + requests[0];
    assert Flatten(requests[..2]) == requests[0] + requests[1];
    assert Flatten(requests) == requests[0] + requests[1] + requests[2];
  }

  /** Between the batch and the update the record lives, and the snapshot reports a tombstone. */
  lemma {:induction false} BatchMisreportsRecord(added: seq<seq<Entry>>, uri: string)
    requires Recording.Listened(BatchRun(), added, uri)
    ensures var ops := Flatten(BatchRun());
            && Snapshot.AllClockChosen(ops)
            && SlotOf(Snapshot.AtTime(EMPTY_CELL, ops, 4), "r") == Live(Version(4, map[]))
            && Snapshot.Reported(Run(EMPTY_CELL, ops), Flatten(added), "r", 4) == Dead(3)
  {
    BatchEntries(added, uri);
    BatchIsClockChosen();
    BatchBefore();
    BatchStates();
    AtFour(Flatten(BatchRun()), Flatten(added));
  }

  lemma {:induction false} AtFour(ops: seq<Op>, entries: seq<Entry>)
    requires Snapshot.AllClockChosen(ops) && SlotOf(Run(EMPTY_CELL, ops), "r") == V5
    requires Snapshot.TargetsOf(Select(entries, Snapshot.OfRecord("r"))) == [V1, V4, Dead(3), V5]
    requires Snapshot.Changes(EMPTY_CELL, ops, "r") == [V1, Dead(3), V4, V5]
    ensures SlotOf(Snapshot.AtTime(EMPTY_CELL, ops, 4), "r") == V4
    ensures Snapshot.Reported(Run(EMPTY_CELL, ops), entries, "r", 4) == Dead(3)
  {
    Snapshot.LastChangeIsTheState(EMPTY_CELL, ops, "r", 4);
    LastAtFour(V1, Dead(3), V4, V5);
    LastAtFour(V1, V4, Dead(3), V5);
  }

  lemma LastAtFour(a: Slot, b: Slot, c: Slot, d: Slot)
    requires !c.Absent? && StampOf(c) <= 4 && !d.Absent? && StampOf(d) > 4
    ensures Snapshot.LastBefore([a, b, c, d], 4) == c
  {
    assert [a, b, c, d][..3] == [a, b, c];
  }
}
