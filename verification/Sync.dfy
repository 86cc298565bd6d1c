/** Client synchronisation with `_since`: read the clock, list, then fetch what is newer
    than the clock, tombstones included. */
module Sync {
  import opened Options
  import opened Json
  import opened Query
  import opened Storage

  // ---------- The delta ----------

  /** What `_since=t` returns: everything stamped after `t`, live or dead. */
  datatype Delta = Delta(live: map<string, Version>, graves: map<string, int>)

  function Since(c: Cell, t: int): Delta {
    Delta(map id | id in c.live && c.live[id].stamp > t :: c.live[id],
          map id | id in c.graves && c.graves[id] > t :: c.graves[id])
  }

  /** The client drops what the tombstones name and stores the rest. */
  function ApplyDelta(local: map<string, Version>, d: Delta): map<string, Version> {
    (local - d.graves.Keys) + d.live
  }

  /** The objects as the query engine sees them. */
  function LiveObject(id: string, v: Version): Dict {
    v.data["id" := Str(id)]["last_modified" := Num(v.stamp as real)]
  }

  function TombstoneObject(id: string, stamp: int): Dict {
    map["id" := Str(id), "last_modified" := Num(stamp as real), "deleted" := Bool(true)]
  }

  /** The filter of `_extract_filters` for `_since`. */
  function SinceFilter(t: int): seq<Filter> {
    [Filter("last_modified", Present(Num(t as real)), GT)]
  }

  /** The delta is what that filter accepts among live objects and tombstones. */
  lemma SinceIsTheFilter(c: Cell, t: int, id: string)
    ensures id in c.live ==> (Matches(LiveObject(id, c.live[id]), SinceFilter(t)) <==> id in Since(c, t).live)
    ensures id in c.graves ==>
            (Matches(TombstoneObject(id, c.graves[id]), SinceFilter(t)) <==> id in Since(c, t).graves)
  {
    var f := SinceFilter(t)[0];
    assert SinceFilter(t)[..0] == [];
    forall o: Dict ensures Matches(o, SinceFilter(t)) <==> Holds(o, f) {
      assert Matches(o, SinceFilter(t)[..0]);
    }
  }

  // ---------- Convergence ----------

  predicate Tombstoning(op: Op) {
    op.Delete? ==> op.withDeleted
  }

  ghost predicate Faithful(c: Cell, ops: seq<Op>) {
    NoPastRun(c, ops) && forall i :: 0 <= i < |ops| ==> Tombstoning(ops[i])
  }

  /** Over a run, an id keeps its slot or ends in one stamped after the starting clock. */
  lemma {:induction false} SlotAfterRun(c: Cell, ops: seq<Op>, id: string)
    requires Inv(c) && Faithful(c, ops)
    ensures var s := SlotOf(Run(c, ops), id); s == SlotOf(c, id) || (!s.Absent? && StampOf(s) > Clock(c))
    decreases ops
  {
    if ops != [] {
      var c' := Apply(c, ops[0]);
      StepKeepsInv(c, ops[0]);
      StepEffect(c, ops[0], id);
      assert Tombstoning(ops[0]);
      forall i | 0 <= i < |ops[1..]| ensures Tombstoning(ops[1..][i]) { assert ops[1..][i] == ops[i + 1]; }
      SlotAfterRun(c', ops[1..], id);
    }
  }

  lemma {:induction false} FaithfulParts(c: Cell, ops: seq<Op>, k: nat)
    requires k <= |ops| && Faithful(c, ops)
    ensures Faithful(c, ops[..k]) && Faithful(Run(c, ops[..k]), ops[k..])
    decreases ops
  {
    if k == 0 {
      assert ops[..0] == [] && ops[0..] == ops;
    } else {
      var c' := Apply(c, ops[0]);
      forall i | 0 <= i < |ops[1..]| ensures Tombstoning(ops[1..][i]) { assert ops[1..][i] == ops[i + 1]; }
      FaithfulParts(c', ops[1..], k - 1);
      assert ops[..k][1..] == ops[1..][..k - 1] && ops[k..] == ops[1..][k - 1..] && ops[..k][0] == ops[0];
    }
  }

  /** The cell after the first `k` operations. */
  function After(c: Cell, ops: seq<Op>, k: nat): Cell
    requires k <= |ops|
  {
    Run(c, ops[..k])
  }

  predicate Agrees(local: map<string, Version>, c: Cell, id: string) {
    (id in local <==> id in c.live) && (id in local ==> local[id] == c.live[id])
  }

  ghost predicate ReadDuring(c: Cell, ops: seq<Op>, local: map<string, Version>, id: string) {
    exists k :: 0 <= k <= |ops| && Agrees(local, After(c, ops, k), id)
  }

  /** A listing taken while writes go on: each id was read in some state of the run, not
      necessarily the same one for all. */
  ghost predicate Listing(c: Cell, ops: seq<Op>, local: map<string, Version>) {
    forall id :: ReadDuring(c, ops, local, id)
  }

  lemma AgreeEverywhere(local: map<string, Version>, c: Cell)
    requires forall id :: Agrees(local, c, id)
    ensures local == c.live
  {
    assert forall id :: id in local ==> Agrees(local, c, id);
    assert forall id :: id in c.live ==> Agrees(local, c, id);
  }

  /** What one id looks like after the delta: it matters only how it was read if nothing has
      happened to it. */
  lemma DeltaCatchesUp(start: Cell, end: Cell, local: map<string, Version>, since: int, id: string)
    requires Inv(end)
    requires SlotOf(end, id) == SlotOf(start, id) ==> Agrees(local, end, id)
    requires SlotOf(end, id) == SlotOf(start, id) || (!SlotOf(end, id).Absent? && StampOf(SlotOf(end, id)) > since)
    ensures Agrees(ApplyDelta(local, Since(end, since)), end, id)
  {
  }

  /** The listing holds the objects that nothing happens to as they are, and whatever else: a
      walk over pages may miss an object that is written meanwhile, or show it twice. */
  ghost predicate ListsUntouched(c: Cell, end: Cell, local: map<string, Version>) {
    forall id :: SlotOf(end, id) == SlotOf(c, id) ==> Agrees(local, c, id)
  }

  /** Main result: the clock is read in `c`, objects are listed while `ops` run, the delta
      since that clock (or an older one) is fetched at the end; the client then holds the live
      objects exactly. */
  lemma {:induction false} SyncConverges(c: Cell, ops: seq<Op>, local: map<string, Version>, since: int)
    requires Inv(c) && Faithful(c, ops) && ListsUntouched(c, Run(c, ops), local) && since <= Clock(c)
    ensures ApplyDelta(local, Since(Run(c, ops), since)) == Run(c, ops).live
  {
    var end := Run(c, ops);
    RunKeepsInv(c, ops);
    forall id ensures Agrees(ApplyDelta(local, Since(end, since)), end, id) {
      SlotAfterRun(c, ops, id);
      if SlotOf(end, id) == SlotOf(c, id) { SameSlotAgrees(local, c, end, id); }
      DeltaCatchesUp(c, end, local, since, id);
    }
    AgreeEverywhere(ApplyDelta(local, Since(end, since)), end);
  }

  lemma SameSlotAgrees(local: map<string, Version>, c: Cell, d: Cell, id: string)
    requires SlotOf(c, id) == SlotOf(d, id)
    ensures Agrees(local, c, id) <==> Agrees(local, d, id)
  {
  }

  /** In particular when each id was read in some state of the run. */
  lemma {:induction false} ReadInSomeState(c: Cell, ops: seq<Op>, local: map<string, Version>)
    requires Inv(c) && Faithful(c, ops) && Listing(c, ops, local)
    ensures ListsUntouched(c, Run(c, ops), local)
  {
    forall id | SlotOf(Run(c, ops), id) == SlotOf(c, id) ensures Agrees(local, c, id) {
      assert ReadDuring(c, ops, local, id);
      var k :| 0 <= k <= |ops| && Agrees(local, After(c, ops, k), id);
      UntouchedInBetween(c, ops, k, id);
      SameSlotAgrees(local, After(c, ops, k), c, id);
    }
  }

  /** An id that ends as it began was so all along: stamps never come back. */
  lemma {:induction false} UntouchedInBetween(c: Cell, ops: seq<Op>, k: nat, id: string)
    requires Inv(c) && Faithful(c, ops) && k <= |ops| && SlotOf(Run(c, ops), id) == SlotOf(c, id)
    ensures SlotOf(After(c, ops, k), id) == SlotOf(c, id)
  {
    var mid := After(c, ops, k);
    FaithfulParts(c, ops, k);
    RunKeepsInv(c, ops[..k]);
    RunAppend(c, ops[..k], ops[k..]);
    assert ops == ops[..k] + ops[k..];
    SlotAfterRun(c, ops[..k], id);
    SlotAfterRun(mid, ops[k..], id);
  }

  /** One write with a timestamp below the clock: a client that was in sync misses it,
      unless it put back exactly what was there. */
  lemma PastStampEscapesSync(c: Cell, id: string, s: int, data: Dict, now: int)
    requires Inv(c)
    ensures var c' := Apply(c, Update(id, Some(s), data, now));
            ApplyDelta(c.live, Since(c', Clock(c))) == c'.live
            <==> s >= Clock(c) || (id in c.live && c.live[id] == Version(s, data))
  {
    var c' := Apply(c, Update(id, Some(s), data, now));
    var got := ApplyDelta(c.live, Since(c', Clock(c)));
    assert c'.live[id].data == data;
    if s >= Clock(c) {
      forall other ensures Agrees(got, c', other) {}
      AgreeEverywhere(got, c');
    } else {
      assert c'.live[id] == Version(s, data);
      assert id in got <==> id in c.live;
      assert id in got ==> got[id] == c.live[id];
      if id in c.live && c.live[id] == Version(s, data) {
        forall other ensures Agrees(got, c', other) {}
        AgreeEverywhere(got, c');
      }
    }
  }

  /** The same for a delete: a tombstone stamped below the clock never reaches the client. */
  lemma PastTombstoneEscapesSync(c: Cell, id: string, s: int, now: int)
    requires Inv(c) && id in c.live
    ensures var c' := Apply(c, Delete(id, Some(s), true, now));
            ApplyDelta(c.live, Since(c', Clock(c))) == c'.live <==> s >= Clock(c)
  {
    var c' := Apply(c, Delete(id, Some(s), true, now));
    var got := ApplyDelta(c.live, Since(c', Clock(c)));
    if s >= Clock(c) {
      forall other ensures Agrees(got, c', other) {}
      AgreeEverywhere(got, c');
    } else {
      assert id in got && id !in c'.live;
    }
  }

  // ---------- Sessions ----------

  /** One synchronisation: writes happen, the clock is read, more writes happen, the delta
      since the previous clock is fetched. */
  datatype Round = Round(before: seq<Op>, now: int, between: seq<Op>)

  datatype Session = Session(server: Cell, local: map<string, Version>, since: int)

  function Read(r: Round, c: Cell): Cell {
    Apply(Run(c, r.before), ReadClock(r.now))
  }

  function Synchronise(s: Session, r: Round): Session {
    var read := Read(r, s.server);
    var end := Run(read, r.between);
    Session(end, ApplyDelta(s.local, Since(end, s.since)), Clock(read))
  }

  function SyncAll(s: Session, rounds: seq<Round>): Session
    decreases rounds
  {
    if rounds == [] then s else SyncAll(Synchronise(s, rounds[0]), rounds[1..])
  }

  ghost predicate FaithfulRound(c: Cell, r: Round) {
    Faithful(c, r.before + [ReadClock(r.now)]) && Faithful(Read(r, c), r.between)
  }

  ghost predicate FaithfulRounds(s: Session, rounds: seq<Round>)
    decreases rounds
  {
    rounds != [] ==> FaithfulRound(s.server, rounds[0]) && FaithfulRounds(Synchronise(s, rounds[0]), rounds[1..])
  }

  /** What holds between rounds: the client holds the live objects, and everything that
      happens next is stamped after the clock it will ask from. */
  ghost predicate InSync(s: Session) {
    Inv(s.server) && s.local == s.server.live && s.since <= Clock(s.server)
  }

  lemma {:induction false} FaithfulAppend(c: Cell, ops: seq<Op>, more: seq<Op>)
    requires Faithful(c, ops) && Faithful(Run(c, ops), more)
    ensures Faithful(c, ops + more)
    decreases ops
  {
    if ops == [] {
      assert ops + more == more;
    } else {
      forall i | 0 <= i < |ops[1..]| ensures Tombstoning(ops[1..][i]) { assert ops[1..][i] == ops[i + 1]; }
      FaithfulAppend(Apply(c, ops[0]), ops[1..], more);
      assert (ops + more)[0] == ops[0] && (ops + more)[1..] == ops[1..] + more;
      forall i | 0 <= i < |ops + more| ensures Tombstoning((ops + more)[i]) {}
    }
  }

  lemma RoundConverges(s: Session, r: Round)
    requires InSync(s) && FaithfulRound(s.server, r)
    ensures InSync(Synchronise(s, r))
  {
    var c := s.server;
    var read := Read(r, c);
    var first := r.before + [ReadClock(r.now)];
    RunAppend(c, r.before, [ReadClock(r.now)]);
    assert Run(Run(c, r.before), [ReadClock(r.now)]) == read;
    var ops := first + r.between;
    FaithfulAppend(c, first, r.between);
    RunAppend(c, first, r.between);
    var end := Run(c, ops);
    assert end == Run(read, r.between);
    RunKeepsInv(c, ops);
    RunKeepsInv(c, first);
    RunKeepsInv(read, r.between);
    SyncConverges(c, ops, s.local, s.since);
  }

  /** Main result over a whole session: after any number of rounds the client holds the
      server's live objects. */
  lemma {:induction false} SessionStaysInSync(s: Session, rounds: seq<Round>)
    requires InSync(s) && FaithfulRounds(s, rounds)
    ensures InSync(SyncAll(s, rounds))
    decreases rounds
  {
    if rounds != [] {
      RoundConverges(s, rounds[0]);
      SessionStaysInSync(Synchronise(s, rounds[0]), rounds[1..]);
    }
  }
}
