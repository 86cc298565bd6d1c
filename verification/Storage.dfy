/** The versioned object store.  A cell is what one (parent, resource) pair holds: a
    logical clock, live objects and tombstones.  The class keeps all the cells. */
module Storage {
  import opened Options
  import opened Json

  datatype Version = Version(stamp: int, data: Dict)

  datatype Cell = Cell(clock: Option<int>, live: map<string, Version>, graves: map<string, int>)

  const EMPTY_CELL := Cell(None, map[], map[])

  /** The clock that a bump starts from. */
  function Clock(c: Cell): int {
    match c.clock
    case None => 0
    case Some(t) => t
  }

  // ---------- The clock ----------

  datatype Bumped = Bumped(current: int, clock: int)

  /** `bump_timestamp`: the stamp an object gets and the new clock.  `now` is the wall clock. */
  function Bump(clock: int, specified: Option<int>, now: int): (b: Bumped)
    ensures b.clock >= clock && b.current <= b.clock
    ensures b.current > clock <==> specified.None? || specified.value >= clock
    ensures b.current > clock ==> b.current == b.clock
    ensures specified.Some? && specified.value != clock ==> b.current == specified.value
    ensures specified.None? && now > clock ==> b.current == now
    ensures specified == Some(clock) || (specified.None? && now <= clock) ==> b.current == clock + 1
  {
    match specified
    case Some(current) =>
      if current == clock then Bumped(clock + 1, clock + 1)
      else if current > clock then Bumped(current, current)
      else Bumped(current, clock)
    case None =>
      if now <= clock then Bumped(clock + 1, clock + 1) else Bumped(now, now)
  }

  // ---------- Operations on one cell ----------

  datatype Op =
    | ReadClock(now: int)
    | Create(id: string, specified: Option<int>, data: Dict, now: int)
    | Update(id: string, specified: Option<int>, data: Dict, now: int)
    | Delete(id: string, specified: Option<int>, withDeleted: bool, now: int)

  function Put(c: Cell, id: string, specified: Option<int>, data: Dict, now: int): Cell {
    var b := Bump(Clock(c), specified, now);
    Cell(Some(b.clock), c.live[id := Version(b.current, data)], c.graves - {id})
  }

  function Remove(c: Cell, id: string, specified: Option<int>, withDeleted: bool, now: int): Cell {
    var b := Bump(Clock(c), specified, now);
    Cell(Some(b.clock), c.live - {id}, if withDeleted then c.graves[id := b.current] else c.graves)
  }

  /** A create over a live id and a delete of an absent one fail and change nothing. */
  function Apply(c: Cell, op: Op): Cell {
    match op
    case ReadClock(now) =>
      if c.clock.Some? then c else c.(clock := Some(Bump(0, None, now).clock))
    case Create(id, specified, data, now) =>
      if id in c.live then c else Put(c, id, specified, data, now)
    case Update(id, specified, data, now) => Put(c, id, specified, data, now)
    case Delete(id, specified, withDeleted, now) =>
      if id in c.live then Remove(c, id, specified, withDeleted, now) else c
  }

  function Run(c: Cell, ops: seq<Op>): Cell
    decreases ops
  {
    if ops == [] then c else Run(Apply(c, ops[0]), ops[1..])
  }

  lemma {:induction false} RunAppend(c: Cell, ops: seq<Op>, more: seq<Op>)
    ensures Run(c, ops + more) == Run(Run(c, ops), more)
    decreases ops
  {
    if ops == [] {
      assert ops + more == more;
    } else {
      assert (ops + more)[0] == ops[0] && (ops + more)[1..] == ops[1..] + more;
      RunAppend(Apply(c, ops[0]), ops[1..], more);
    }
  }

  // ---------- What every run keeps ----------

  /** No id is both live and dead, and no stamp is ahead of the clock. */
  ghost predicate Inv(c: Cell) {
    && c.live.Keys !! c.graves.Keys
    && Clock(c) >= 0
    && (c.clock.None? ==> c.live == map[] && c.graves == map[])
    && (forall id :: id in c.live ==> c.live[id].stamp <= Clock(c))
    && (forall id :: id in c.graves ==> c.graves[id] <= Clock(c))
  }

  /** What a cell knows of one id. */
  datatype Slot = Absent | Live(version: Version) | Dead(at: int)

  function SlotOf(c: Cell, id: string): Slot {
    if id in c.live then Live(c.live[id])
    else if id in c.graves then Dead(c.graves[id])
    else Absent
  }

  function StampOf(s: Slot): int
    requires !s.Absent?
  {
    match s
    case Live(v) => v.stamp
    case Dead(at) => at
  }

  /** All the stamps of the cell, of live objects and tombstones, are distinct. */
  ghost predicate DistinctStamps(c: Cell) {
    forall i, j :: i != j && !SlotOf(c, i).Absent? && !SlotOf(c, j).Absent? ==>
      StampOf(SlotOf(c, i)) != StampOf(SlotOf(c, j))
  }

  /** The operation specifies no timestamp below the current clock. */
  predicate NoPast(c: Cell, op: Op) {
    op.ReadClock? || op.specified.None? || op.specified.value >= Clock(c)
  }

  ghost predicate NoPastRun(c: Cell, ops: seq<Op>)
    decreases ops
  {
    ops != [] ==> NoPast(c, ops[0]) && NoPastRun(Apply(c, ops[0]), ops[1..])
  }

  lemma StepKeepsInv(c: Cell, op: Op)
    requires Inv(c)
    ensures Inv(Apply(c, op)) && Clock(Apply(c, op)) >= Clock(c)
  {
  }

  /** An operation touches its own id only, and a stamp it chooses is ahead of the old clock. */
  lemma StepEffect(c: Cell, op: Op, id: string)
    requires Inv(c)
    ensures var s := SlotOf(Apply(c, op), id);
            || s == SlotOf(c, id)
            || (&& !op.ReadClock? && id == op.id
                && (op.Delete? && !op.withDeleted ==> s == Absent)
                && (!(op.Delete? && !op.withDeleted) ==>
                      !s.Absent? && (NoPast(c, op) ==> StampOf(s) > Clock(c))))
  {
  }

  lemma StepKeepsDistinct(c: Cell, op: Op)
    requires Inv(c) && DistinctStamps(c) && NoPast(c, op)
    ensures DistinctStamps(Apply(c, op))
  {
    var c' := Apply(c, op);
    forall i, j | i != j && !SlotOf(c', i).Absent? && !SlotOf(c', j).Absent?
      ensures StampOf(SlotOf(c', i)) != StampOf(SlotOf(c', j))
    {
      StepEffect(c, op, i);
      StepEffect(c, op, j);
    }
  }

  /** Main result: every reachable cell satisfies the invariant, and the clock never goes
      back, whatever the wall clock does and whatever timestamps are specified. */
  lemma {:induction false} RunKeepsInv(c: Cell, ops: seq<Op>)
    requires Inv(c)
    ensures Inv(Run(c, ops)) && Clock(Run(c, ops)) >= Clock(c)
    decreases ops
  {
    if ops != [] {
      StepKeepsInv(c, ops[0]);
      RunKeepsInv(Apply(c, ops[0]), ops[1..]);
    }
  }

  lemma {:induction false} RunKeepsDistinct(c: Cell, ops: seq<Op>)
    requires Inv(c) && DistinctStamps(c) && NoPastRun(c, ops)
    ensures DistinctStamps(Run(c, ops))
    decreases ops
  {
    if ops != [] {
      StepKeepsInv(c, ops[0]);
      StepKeepsDistinct(c, ops[0]);
      RunKeepsDistinct(Apply(c, ops[0]), ops[1..]);
    }
  }

  /** The same from the empty store. */
  lemma {:induction false} EveryReachableCell(ops: seq<Op>)
    ensures Inv(Run(EMPTY_CELL, ops))
    ensures NoPastRun(EMPTY_CELL, ops) ==> DistinctStamps(Run(EMPTY_CELL, ops))
  {
    RunKeepsInv(EMPTY_CELL, ops);
    if NoPastRun(EMPTY_CELL, ops) { RunKeepsDistinct(EMPTY_CELL, ops); }
  }

  /** A stamp from the past breaks distinctness exactly when another id already bears it. */
  lemma PastStampMayRepeat(c: Cell, id: string, past: int, data: Dict, now: int)
    requires Inv(c) && DistinctStamps(c) && past < Clock(c)
    ensures DistinctStamps(Apply(c, Update(id, Some(past), data, now)))
            <==> forall other :: other != id && !SlotOf(c, other).Absent? ==> StampOf(SlotOf(c, other)) != past
  {
    var c' := Apply(c, Update(id, Some(past), data, now));
    assert SlotOf(c', id) == Live(Version(past, data));
    forall other | other != id ensures SlotOf(c', other) == SlotOf(c, other) {
      StepEffect(c, Update(id, Some(past), data, now), other);
    }
  }

  // ---------- The store ----------

  datatype Place = Place(parent: string, resource: string)

  datatype Error = Unicity(existing: Version) | NotFound(id: string) | Readonly

  datatype Result<+T> = Ok(value: T) | Failed(error: Error)

  /** `ids` lists the keys of a map, each once, in some order. */
  ghost predicate Enumerates<V>(ids: seq<string>, m: map<string, V>) {
    && (forall i, j :: 0 <= i < j < |ids| ==> ids[i] != ids[j])
    && (forall id :: id in ids <==> id in m)
  }

  class Store {
    var objects: map<Place, map<string, Version>>
    var cemetery: map<Place, map<string, int>>
    var timestamps: map<Place, int>
    const readonly: bool

    constructor (readonly: bool)
      ensures this.readonly == readonly
      ensures forall p :: CellAt(p) == EMPTY_CELL
    {
      this.readonly := readonly;
      objects, cemetery, timestamps := map[], map[], map[];
    }

    /** The cell at `p`; the nested default dictionaries read as empty. */
    function CellAt(p: Place): Cell
      reads this
    {
      Cell(if p in timestamps then Some(timestamps[p]) else None,
           if p in objects then objects[p] else map[],
           if p in cemetery then cemetery[p] else map[])
    }

    /** Everything that is not at `p` is as it was. */
    twostate predicate OnlyAt(p: Place)
      reads this
    {
      forall q :: q != p ==> CellAt(q) == old(CellAt(q))
    }

    /** `bump_and_store_timestamp` */
    method BumpAndStore(p: Place, specified: Option<int>, now: int) returns (current: int)
      modifies this`timestamps
      ensures var b := Bump(Clock(old(CellAt(p))), specified, now);
              current == b.current && CellAt(p) == old(CellAt(p)).(clock := Some(b.clock))
      ensures OnlyAt(p)
    {
      var clock := if p in timestamps then timestamps[p] else 0;
      var b := Bump(clock, specified, now);
      timestamps := timestamps[p := b.clock];
      current := b.current;
    }

    /** `resource_timestamp`: reading an unset clock sets it, unless readonly. */
    method ResourceTimestamp(p: Place, now: int) returns (r: Result<int>)
      modifies this`timestamps
      ensures r.Failed? <==> old(CellAt(p)).clock.None? && readonly
      ensures r.Failed? ==> r.error == Readonly && CellAt(p) == old(CellAt(p))
      ensures r.Ok? ==> CellAt(p) == Apply(old(CellAt(p)), ReadClock(now)) && CellAt(p).clock == Some(r.value)
      ensures OnlyAt(p)
    {
      if p in timestamps {
        return Ok(timestamps[p]);
      }
      if readonly {
        return Failed(Readonly);
      }
      var t := BumpAndStore(p, None, now);
      r := Ok(t);
    }

    method Get(p: Place, id: string) returns (r: Result<Version>)
      ensures r == if id in CellAt(p).live then Ok(CellAt(p).live[id]) else Failed(NotFound(id))
    {
      var here := if p in objects then objects[p] else map[];
      r := if id in here then Ok(here[id]) else Failed(NotFound(id));
    }

    /** The ids of the live objects, in the order of the dictionary. */
    method List(p: Place) returns (ids: seq<string>)
      ensures Enumerates(ids, CellAt(p).live)
    {
      var here := if p in objects then objects[p] else map[];
      var rest := here.Keys;
      ids := [];
      while rest != {}
        invariant rest <= here.Keys
        invariant forall id :: id in ids <==> id in here && id !in rest
        invariant forall i, j :: 0 <= i < j < |ids| ==> ids[i] != ids[j]
        decreases rest
      {
        var id :| id in rest;
        ids := ids + [id];
        rest := rest - {id};
      }
    }

    /** Stores a version under `id` and drops its tombstone. */
    method Set(p: Place, id: string, specified: Option<int>, data: Dict, now: int) returns (v: Version)
      modifies this
      ensures CellAt(p) == Put(old(CellAt(p)), id, specified, data, now)
      ensures id in CellAt(p).live && v == CellAt(p).live[id]
      ensures OnlyAt(p)
    {
      var current := BumpAndStore(p, specified, now);
      v := Version(current, data);
      objects := objects[p := (if p in objects then objects[p] else map[])[id := v]];
      cemetery := cemetery[p := (if p in cemetery then cemetery[p] else map[]) - {id}];
    }

    /** `create`; `generated` is the id that the generator would yield, under which an object
        is overwritten if there is one. */
    method Create(p: Place, id: Option<string>, generated: string, specified: Option<int>, data: Dict, now: int)
      returns (r: Result<(string, Version)>)
      modifies this
      ensures var key := if id.Some? then id.value else generated;
              var op := if id.Some? then Op.Create(key, specified, data, now) else Op.Update(key, specified, data, now);
              && CellAt(p) == Apply(old(CellAt(p)), op)
              && r == (if id.Some? && key in old(CellAt(p)).live then Failed(Unicity(old(CellAt(p)).live[key]))
                       else Ok((key, CellAt(p).live[key])))
      ensures OnlyAt(p)
    {
      var key := generated;
      if id.Some? {
        key := id.value;
        var existing := Get(p, key);
        if existing.Ok? {
          return Failed(Unicity(existing.value));
        }
      }
      var v := Set(p, key, specified, data, now);
      r := Ok((key, v));
    }

    /** `update` creates the object when there is none. */
    method Update(p: Place, id: string, specified: Option<int>, data: Dict, now: int) returns (v: Version)
      modifies this
      ensures CellAt(p) == Apply(old(CellAt(p)), Op.Update(id, specified, data, now))
      ensures v == CellAt(p).live[id]
      ensures OnlyAt(p)
    {
      v := Set(p, id, specified, data, now);
    }

    /** `delete` returns the stamp of the tombstone. */
    method Delete(p: Place, id: string, specified: Option<int>, withDeleted: bool, now: int) returns (r: Result<int>)
      modifies this
      ensures CellAt(p) == Apply(old(CellAt(p)), Op.Delete(id, specified, withDeleted, now))
      ensures r == if id in old(CellAt(p)).live
                   then Ok(Bump(Clock(old(CellAt(p))), specified, now).current) else Failed(NotFound(id))
      ensures OnlyAt(p)
    {
      var existing := Get(p, id);
      if existing.Failed? {
        return Failed(existing.error);
      }
      var current := BumpAndStore(p, specified, now);
      assert OnlyAt(p);
      if withDeleted {
        cemetery := cemetery[p := (if p in cemetery then cemetery[p] else map[])[id := current]];
      }
      objects := objects[p := objects[p] - {id}];
      r := Ok(current);
    }
  }
}
