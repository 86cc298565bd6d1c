/** The delta of `_since` as pages serve it, and what a client learns from them. */
module DeltaPages {
  import opened Options
  import opened Json
  import opened Collections
  import opened Sorting
  import opened Query
  import opened Pagination
  import opened Paging
  import opened Storage
  import opened Sync
  import opened PluralDelete

  function TombstonesOf(graves: map<string, int>, ids: seq<string>): (r: seq<Dict>)
    requires forall id :: id in ids ==> id in graves
    ensures |r| == |ids| && forall i :: 0 <= i < |ids| ==> r[i] == TombstoneObject(ids[i], graves[ids[i]])
  {
    seq(|ids|, i requires 0 <= i < |ids| => TombstoneObject(ids[i], graves[ids[i]]))
  }

  // ---------- What the client learns ----------

  /** The objects of the live versions. */
  function Seen(live: map<string, Version>): map<string, Dict> {
    map id | id in live :: LiveObject(id, live[id])
  }

  /** A tombstone takes its id away, an object replaces what was held. */
  function LearnOne(held: map<string, Dict>, o: Dict): map<string, Dict> {
    if Tombstone(o) then held - {IdOf(o)} else held[IdOf(o) := o]
  }

  function Learn(held: map<string, Dict>, objects: seq<Dict>): map<string, Dict> {
    if objects == [] then held
    else LearnOne(Learn(held, objects[..|objects| - 1]), objects[|objects| - 1])
  }

  /** What is not mentioned stays as it was held. */
  lemma {:induction false} NothingLearnt(held: map<string, Dict>, objects: seq<Dict>, id: string)
    requires forall o :: o in objects ==> IdOf(o) != id
    ensures HeldAs(Learn(held, objects), id) == HeldAs(held, id)
  {
    if objects != [] {
      LastApart(objects);
      NothingLearnt(held, objects[..|objects| - 1], id);
    }
  }

  function HeldAs(held: map<string, Dict>, id: string): Option<Dict> {
    if id in held then Some(held[id]) else None
  }

  /** Of an object that is listed the client holds that object, or nothing if it is dead. */
  lemma {:induction false} LearntObject(held: map<string, Dict>, objects: seq<Dict>, k: nat)
    requires Distinct(IdsOf(objects)) && k < |objects|
    ensures var o := objects[k]; HeldAs(Learn(held, objects), IdOf(o)) == if Tombstone(o) then None else Some(o)
  {
    var n := |objects| - 1;
    if k < n {
      DistinctInit(objects);
      assert IdsOf(objects)[k] != IdsOf(objects)[n];
      LearntObject(held, objects[..n], k);
    }
  }

  lemma DistinctInit(objects: seq<Dict>)
    requires objects != [] && Distinct(IdsOf(objects))
    ensures Distinct(IdsOf(objects[..|objects| - 1]))
  {
    var init := objects[..|objects| - 1];
    forall i, j | 0 <= i < j < |init| ensures IdsOf(init)[i] != IdsOf(init)[j] {
      assert IdsOf(objects)[i] != IdsOf(objects)[j];
    }
  }

  // ---------- What the pages hold ----------

  predicate IsLive(live: map<string, Version>, o: Dict) {
    IdOf(o) in live && o == LiveObject(IdOf(o), live[IdOf(o)])
  }

  predicate IsDead(graves: map<string, int>, o: Dict) {
    IdOf(o) in graves && o == TombstoneObject(IdOf(o), graves[IdOf(o)])
  }

  /** The objects of the delta: live ones and tombstones, each as it is listed. */
  predicate InDelta(d: Delta, o: Dict) {
    IsLive(d.live, o) || IsDead(d.graves, o)
  }

  /** The store's answer to a listing: its live objects and its tombstones, in some order. */
  ghost predicate Lists(c: Cell, ids: seq<string>, graves: seq<string>) {
    Enumerates(ids, c.live) && Enumerates(graves, c.graves)
  }

  function Everything(c: Cell, ids: seq<string>, graves: seq<string>): seq<Dict>
    requires (forall id :: id in ids ==> id in c.live) && (forall id :: id in graves ==> id in c.graves)
  {
    ObjectsOf(c.live, ids) + TombstonesOf(c.graves, graves)
  }

  lemma {:induction false} ListedIn(c: Cell, ids: seq<string>, graves: seq<string>, o: Dict)
    requires Lists(c, ids, graves)
    ensures o in Everything(c, ids, graves) <==> IsLive(c.live, o) || IsDead(c.graves, o)
  {
    LiveListed(c.live, ids, o);
    DeadListed(c.graves, graves, o);
  }

  lemma LiveListed(live: map<string, Version>, ids: seq<string>, o: Dict)
    requires Enumerates(ids, live)
    ensures o in ObjectsOf(live, ids) <==> IsLive(live, o)
  {
    var s := ObjectsOf(live, ids);
    if o in s {
      var i :| 0 <= i < |s| && s[i] == o;
      assert ids[i] in live;
    }
    if IsLive(live, o) {
      var i :| 0 <= i < |ids| && ids[i] == IdOf(o);
      assert s[i] == o;
    }
  }

  lemma DeadListed(dead: map<string, int>, ids: seq<string>, o: Dict)
    requires Enumerates(ids, dead)
    ensures o in TombstonesOf(dead, ids) <==> IsDead(dead, o)
  {
    var s := TombstonesOf(dead, ids);
    if o in s {
      var i :| 0 <= i < |s| && s[i] == o;
      assert ids[i] in dead;
    }
    if IsDead(dead, o) {
      var i :| 0 <= i < |ids| && ids[i] == IdOf(o);
      assert s[i] == o;
    }
  }

  /** Everything that `_since` selects, as a filtered listing. */
  lemma {:induction false} SinceSelectsDelta(c: Cell, ids: seq<string>, graves: seq<string>, t: int, o: Dict)
    requires Lists(c, ids, graves)
    ensures o in Select(Everything(c, ids, graves), Accepting(SinceFilter(t))) <==> InDelta(Since(c, t), o)
  {
    SelectIn(Everything(c, ids, graves), Accepting(SinceFilter(t)), o);
    ListedIn(c, ids, graves, o);
    SinceIsTheFilter(c, t, IdOf(o));
  }

  // ---------- Distinct stamps: nothing is lost between pages ----------

  function SlotIn(c: Cell, o: Dict): Slot {
    SlotOf(c, IdOf(o))
  }

  /** The listing shows each id once, with its stamp. */
  lemma ListedShowsSlots(c: Cell, ids: seq<string>, graves: seq<string>, i: nat)
    requires Inv(c) && Lists(c, ids, graves) && i < |Everything(c, ids, graves)|
    ensures var o := Everything(c, ids, graves)[i];
            && IdOf(o) == (ids + graves)[i] && !SlotIn(c, o).Absent?
            && Column("last_modified")(o) == Present(Num(StampOf(SlotIn(c, o)) as real))
  {
    var o := Everything(c, ids, graves)[i];
    if i < |ids| {
      assert ids[i] in ids && o == LiveObject(ids[i], c.live[ids[i]]);
    } else {
      assert graves[i - |ids|] in graves && o == TombstoneObject(graves[i - |ids|], c.graves[graves[i - |ids|]]);
    }
  }

  lemma IdsAreApart(c: Cell, ids: seq<string>, graves: seq<string>, i: nat, j: nat)
    requires Inv(c) && Lists(c, ids, graves) && i < j < |ids + graves|
    ensures (ids + graves)[i] != (ids + graves)[j]
  {
    assert i < |ids| ==> ids[i] in c.live;
    assert j >= |ids| ==> graves[j - |ids|] in c.graves;
  }

  lemma {:induction false} ListedApart(c: Cell, ids: seq<string>, graves: seq<string>)
    requires Inv(c) && DistinctStamps(c) && Lists(c, ids, graves)
    ensures var all := Everything(c, ids, graves);
            forall i, j :: 0 <= i < j < |all| ==>
              IdOf(all[i]) != IdOf(all[j]) && Column("last_modified")(all[i]) != Column("last_modified")(all[j])
  {
    var all := Everything(c, ids, graves);
    forall i, j | 0 <= i < j < |all|
      ensures IdOf(all[i]) != IdOf(all[j]) && Column("last_modified")(all[i]) != Column("last_modified")(all[j])
    {
      ListedShowsSlots(c, ids, graves, i);
      ListedShowsSlots(c, ids, graves, j);
      IdsAreApart(c, ids, graves, i, j);
    }
  }

  /** Main result: the pages that a walk with `_since=t` serves hold exactly the delta, each
      object and tombstone once, for any page size and any sorting that a request can yield. */
  lemma {:induction false} PagesHoldDelta(c: Cell, ids: seq<string>, graves: seq<string>, t: int, sorting: seq<Sort>,
                                          z: Sizes, pages: seq<seq<Dict>>)
    requires Inv(c) && DistinctStamps(c) && Lists(c, ids, graves)
    requires ReadsTimestamp(sorting) && ScalarKeys(Everything(c, ids, graves), Keys(sorting))
    requires Walked(SortedList(ObjectsOf(c.live, ids), TombstonesOf(c.graves, graves), SinceFilter(t), sorting),
                    sorting, z, pages)
    ensures Distinct(IdsOf(Flatten(pages)))
    ensures forall o :: o in Flatten(pages) <==> InDelta(Since(c, t), o)
  {
    var live, dead := ObjectsOf(c.live, ids), TombstonesOf(c.graves, graves);
    var all, keys := Everything(c, ids, graves), Keys(sorting);
    var filtered := Select(all, Accepting(SinceFilter(t)));
    TombstonesAreListed(live, dead, SinceFilter(t));
    assert SinceFilter(t)[0] in SinceFilter(t) && SinceFilter(t)[0].field == "last_modified";
    assert Listed(live, dead, SinceFilter(t)) == all;
    FilteredApart(c, ids, graves, t);
    forall o | o in filtered ensures o in all { SelectIn(all, Accepting(SinceFilter(t)), o); }
    TimestampSortingNeverTies(filtered, sorting, z);
    assert Flatten(pages) == SortChain(filtered, keys);
    ChainElements(filtered, keys);
    PermutationKeepsDistinct(filtered, Flatten(pages), IdOf);
    forall o ensures o in Flatten(pages) <==> InDelta(Since(c, t), o) {
      SameElements(Flatten(pages), filtered, o);
      SinceSelectsDelta(c, ids, graves, t, o);
    }
  }

  lemma {:induction false} FilteredApart(c: Cell, ids: seq<string>, graves: seq<string>, t: int)
    requires Inv(c) && DistinctStamps(c) && Lists(c, ids, graves)
    ensures var filtered := Select(Everything(c, ids, graves), Accepting(SinceFilter(t)));
            && DistinctTimestamps(filtered)
            && forall i, j :: 0 <= i < j < |filtered| ==> IdOf(filtered[i]) != IdOf(filtered[j])
  {
    var all, p := Everything(c, ids, graves), Accepting(SinceFilter(t));
    var filtered, stamp := Select(all, p), Column("last_modified");
    ListedApart(c, ids, graves);
    forall i, j | 0 <= i < j < |filtered|
      ensures FindNested(filtered[i], "last_modified") != FindNested(filtered[j], "last_modified")
      ensures IdOf(filtered[i]) != IdOf(filtered[j])
    {
      SelectKeepsDistinct(all, p, stamp, i, j);
      SelectKeepsDistinct(all, p, IdOf, i, j);
      assert stamp(filtered[i]) != stamp(filtered[j]);
    }
  }

  // ---------- What the client learns from them is the delta ----------

  /** Stored data never holds the reserved fields. */
  lemma LiveIsNoTombstone(live: map<string, Version>, o: Dict)
    requires PlainLive(live) && IsLive(live, o)
    ensures !Tombstone(o)
  {
  }

  /** Main result: a client that learns from objects that are exactly the delta holds what the
      delta makes of what it held. */
  lemma {:induction false} LearningAppliesDelta(c: Cell, local: map<string, Version>, t: int, objects: seq<Dict>)
    requires Inv(c) && PlainLive(c.live) && Distinct(IdsOf(objects))
    requires forall o :: o in objects <==> InDelta(Since(c, t), o)
    ensures Learn(Seen(local), objects) == Seen(ApplyDelta(local, Since(c, t)))
  {
    var d := Since(c, t);
    forall id ensures HeldAs(Learn(Seen(local), objects), id) == HeldAs(Seen(ApplyDelta(local, d)), id) {
      LearntOfId(c, local, t, objects, id);
    }
    SameMaps(Learn(Seen(local), objects), Seen(ApplyDelta(local, d)));
  }

  lemma SameMaps(m: map<string, Dict>, n: map<string, Dict>)
    requires forall id :: HeldAs(m, id) == HeldAs(n, id)
    ensures m == n
  {
    assert forall id :: id in m ==> HeldAs(m, id) == HeldAs(n, id);
    assert forall id :: id in n ==> HeldAs(m, id) == HeldAs(n, id);
  }

  lemma {:induction false} LearntOfId(c: Cell, local: map<string, Version>, t: int, objects: seq<Dict>, id: string)
    requires Inv(c) && PlainLive(c.live) && Distinct(IdsOf(objects))
    requires forall o :: o in objects <==> InDelta(Since(c, t), o)
    ensures HeldAs(Learn(Seen(local), objects), id) == HeldAs(Seen(ApplyDelta(local, Since(c, t))), id)
  {
    var d := Since(c, t);
    if id in d.live {
      LearntListed(local, objects, LiveObject(id, d.live[id]));
      LiveIsNoTombstone(c.live, LiveObject(id, d.live[id]));
    } else if id in d.graves {
      LearntListed(local, objects, TombstoneObject(id, d.graves[id]));
    } else {
      forall o | o in objects ensures IdOf(o) != id { assert InDelta(d, o); }
      NothingLearnt(Seen(local), objects, id);
    }
  }

  lemma {:induction false} LearntListed(local: map<string, Version>, objects: seq<Dict>, o: Dict)
    requires Distinct(IdsOf(objects)) && o in objects
    ensures HeldAs(Learn(Seen(local), objects), IdOf(o)) == if Tombstone(o) then None else Some(o)
  {
    var k :| 0 <= k < |objects| && objects[k] == o;
    LearntObject(Seen(local), objects, k);
  }
}
