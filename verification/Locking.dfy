/** Optimistic locking: the object endpoints, their preconditions (section 13.1.1 of
    RFC 9110) and the timestamps they hand to the store.  A request is one atomic step. */
module Locking {
  import opened Options
  import opened Json
  import opened Storage

  // ---------- Preconditions ----------

  /** A conditional header: absent, `*`, or a quoted timestamp. */
  datatype Header = Unset | Star | ETag(t: int)

  /** Whether Python takes the header as given: an ETag of 0 is falsy. */
  predicate Given(h: Header) {
    h.Star? || (h.ETag? && h.t != 0)
  }

  /** `_raise_412_if_modified`: `obj` is the existing object, `clock` the resource timestamp. */
  predicate Modified(ifMatch: Header, ifNoneMatch: Header, obj: Option<Version>, clock: int) {
    var current := if obj.Some? then obj.value.stamp else clock;
    if !Given(ifMatch) && !Given(ifNoneMatch) then false
    else if ifNoneMatch == Star && obj.Some? then current != -1
    else if Given(ifMatch) && obj.None? then current != -1
    else if Given(ifMatch) && ifMatch != Star then current != ifMatch.t
    else false
  }

  // ---------- Timestamps in requests ----------

  /** The `last_modified` of a body: not mentioned, not an integer (or removed), or an integer. */
  datatype StampField = Unmentioned | NotInteger | Integer(t: int)

  /** The timestamp part of `process_object`: one that is not newer is dropped, but 0 is
      falsy and escapes. */
  function ProcessStamp(field: StampField, prior: Option<Version>): Option<int> {
    match field
    case Integer(t) => if t != 0 && prior.Some? && t <= prior.value.stamp then None else Some(t)
    case _ => None
  }

  datatype Request =
    | PutObject(id: string, body: Option<(StampField, Dict)>, ifMatch: Header, ifNoneMatch: Header, now: int)
    | PatchObject(id: string, field: StampField, data: Dict, ifMatch: Header, ifNoneMatch: Header, now: int)
    | DeleteObject(id: string, lastModified: Option<int>, ifMatch: Header, ifNoneMatch: Header, now: int)
    | PostObject(id: string, field: StampField, data: Dict, ifMatch: Header, ifNoneMatch: Header, now: int)

  datatype Outcome = Written | Untouched | NotFound404 | Precondition412

  function Existing(c: Cell, id: string): Option<Version> {
    if id in c.live then Some(c.live[id]) else None
  }

  /** What a write would hand to the store, once the preconditions pass: `None` when the
      endpoint writes nothing. */
  function WriteOf(req: Request, prior: Option<Version>): Option<Op> {
    match req
    case PutObject(id, body, _, _, now) =>
      // Without data the existing object is taken, its timestamp included.
      var (field, data) := if body.Some? then body.value
                           else if prior.Some? then (Integer(prior.value.stamp), prior.value.data)
                           else (Unmentioned, map[]);
      if prior.Some? then Some(Update(id, ProcessStamp(field, prior), data, now))
      else Some(Create(id, ProcessStamp(field, prior), data, now))
    case PatchObject(id, field, data, _, _, now) =>
      if prior.None? then None
      else
        // The patch is applied on a copy of the object, timestamp included.
        var merged := if field.Unmentioned? then Integer(prior.value.stamp) else field;
        Some(Update(id, ProcessStamp(merged, prior), data, now))
    case DeleteObject(id, lastModified, _, _, now) =>
      if prior.None? then None
      else
        var kept := if lastModified.Some? && lastModified.value != 0 && lastModified.value <= prior.value.stamp
                    then None else lastModified;
        Some(Op.Delete(id, kept, true, now))
    case PostObject(id, field, data, _, _, now) =>
      if prior.Some? then None else Some(Create(id, ProcessStamp(field, None), data, now))
  }

  /** One request: the clock is initialised, the object fetched, the preconditions checked,
      the object written. */
  function Handle(c: Cell, req: Request): (Outcome, Cell) {
    var c' := Apply(c, ReadClock(req.now));
    var prior := Existing(c', req.id);
    if (req.PatchObject? || req.DeleteObject?) && prior.None? then (NotFound404, c')
    else if Modified(req.ifMatch, req.ifNoneMatch, prior, Clock(c')) then (Precondition412, c')
    else
      match WriteOf(req, prior)
      case None => (Untouched, c')
      case Some(op) => (Written, Apply(c', op))
  }

  // ---------- The endpoints ----------

  /** What every endpoint does first; the object is looked up and the preconditions checked. */
  method Prepare(store: Store, p: Place, id: string, ifMatch: Header, ifNoneMatch: Header, now: int)
    returns (prior: Option<Version>, refused: bool)
    requires !store.readonly
    modifies store
    ensures store.CellAt(p) == Apply(old(store.CellAt(p)), ReadClock(now)) && store.OnlyAt(p)
    ensures prior == Existing(store.CellAt(p), id)
    ensures refused == Modified(ifMatch, ifNoneMatch, prior, Clock(store.CellAt(p)))
  {
    var timestamp := store.ResourceTimestamp(p, now);
    var got := store.Get(p, id);
    prior := if got.Ok? then Some(got.value) else None;
    refused := Modified(ifMatch, ifNoneMatch, prior, timestamp.value);
  }

  /** `put` */
  method Put(store: Store, p: Place, id: string, body: Option<(StampField, Dict)>,
             ifMatch: Header, ifNoneMatch: Header, now: int)
    returns (outcome: Outcome)
    requires !store.readonly
    modifies store
    ensures (outcome, store.CellAt(p)) == Handle(old(store.CellAt(p)), PutObject(id, body, ifMatch, ifNoneMatch, now))
    ensures store.OnlyAt(p)
  {
    var prior, refused := Prepare(store, p, id, ifMatch, ifNoneMatch, now);
    if refused { return Precondition412; }
    var (field, data) := if body.Some? then body.value
                         else if prior.Some? then (Integer(prior.value.stamp), prior.value.data)
                         else (Unmentioned, map[]);
    var specified := ProcessStamp(field, prior);
    if prior.Some? {
      var _ := store.Update(p, id, specified, data, now);
    } else {
      var _ := store.Create(p, Some(id), id, specified, data, now);
    }
    outcome := Written;
  }

  /** `patch` */
  method Patch(store: Store, p: Place, id: string, field: StampField, data: Dict,
               ifMatch: Header, ifNoneMatch: Header, now: int)
    returns (outcome: Outcome)
    requires !store.readonly
    modifies store
    ensures (outcome, store.CellAt(p))
            == Handle(old(store.CellAt(p)), PatchObject(id, field, data, ifMatch, ifNoneMatch, now))
    ensures store.OnlyAt(p)
  {
    var prior, refused := Prepare(store, p, id, ifMatch, ifNoneMatch, now);
    if prior.None? { return NotFound404; }
    if refused { return Precondition412; }
    var merged := if field.Unmentioned? then Integer(prior.value.stamp) else field;
    var _ := store.Update(p, id, ProcessStamp(merged, prior), data, now);
    outcome := Written;
  }

  /** `delete` */
  method Delete(store: Store, p: Place, id: string, lastModified: Option<int>,
                ifMatch: Header, ifNoneMatch: Header, now: int)
    returns (outcome: Outcome)
    requires !store.readonly
    modifies store
    ensures (outcome, store.CellAt(p))
            == Handle(old(store.CellAt(p)), DeleteObject(id, lastModified, ifMatch, ifNoneMatch, now))
    ensures store.OnlyAt(p)
  {
    var prior, refused := Prepare(store, p, id, ifMatch, ifNoneMatch, now);
    if prior.None? { return NotFound404; }
    if refused { return Precondition412; }
    var kept := lastModified;
    if kept.Some? && kept.value != 0 && kept.value <= prior.value.stamp {
      kept := None;
    }
    var _ := store.Delete(p, id, kept, true, now);
    outcome := Written;
  }

  /** `plural_post` with an id in the body */
  method Post(store: Store, p: Place, id: string, field: StampField, data: Dict,
              ifMatch: Header, ifNoneMatch: Header, now: int)
    returns (outcome: Outcome)
    requires !store.readonly
    modifies store
    ensures (outcome, store.CellAt(p))
            == Handle(old(store.CellAt(p)), PostObject(id, field, data, ifMatch, ifNoneMatch, now))
    ensures store.OnlyAt(p)
  {
    var prior, refused := Prepare(store, p, id, ifMatch, ifNoneMatch, now);
    if refused { return Precondition412; }
    if prior.Some? { return Untouched; }
    var _ := store.Create(p, Some(id), id, ProcessStamp(field, None), data, now);
    outcome := Written;
  }

  // ---------- Runs of requests ----------

  function Serve(c: Cell, reqs: seq<Request>): Cell
    decreases reqs
  {
    if reqs == [] then c else Serve(Handle(c, reqs[0]).1, reqs[1..])
  }

  // ---------- What a request does ----------

  /** Every outcome, in terms of the headers and of the object. */
  lemma HandleOutcome(c: Cell, req: Request)
    requires Inv(c)
    ensures var known, m, n := req.id in c.live, req.ifMatch, req.ifNoneMatch;
            var lacks := (req.PatchObject? || req.DeleteObject?) && !known;
            var named := m.ETag? && m.t != 0;
            var refused := if !known then m.Star? || named
                           else if n.Star? then c.live[req.id].stamp != -1
                           else named && c.live[req.id].stamp != m.t;
            Handle(c, req).0 == if lacks then NotFound404
                                else if refused then Precondition412
                                else if req.PostObject? && known then Untouched
                                else Written
  {
  }

  /** An accepted request stores its data under its id, or a tombstone, and nothing else moves. */
  lemma HandleStores(c: Cell, req: Request)
    requires Handle(c, req).0 == Written
    ensures var c', id := Handle(c, req).1, req.id;
            && (req.PutObject? && req.body.Some? ==> id in c'.live && c'.live[id].data == req.body.value.1)
            && (req.PutObject? && req.body.None? ==>
                  id in c'.live && c'.live[id].data == if id in c.live then c.live[id].data else map[])
            && (req.PatchObject? ==> id in c'.live && c'.live[id].data == req.data)
            && (req.PostObject? ==> id in c'.live && c'.live[id].data == req.data)
            && (req.DeleteObject? ==> id !in c'.live && id in c'.graves)
            && (!req.DeleteObject? ==> id !in c'.graves)
            && (forall other :: other != id ==> SlotOf(c', other) == SlotOf(c, other))
  {
  }

  /** A request that is not accepted changes no object. */
  lemma HandleKeeps(c: Cell, req: Request)
    requires Handle(c, req).0 != Written
    ensures Handle(c, req).1.live == c.live && Handle(c, req).1.graves == c.graves
  {
  }

  /** The timestamp that a request carries: its own, or that of the object it starts from. */
  function Carried(c: Cell, req: Request): Option<int> {
    var known := if req.id in c.live then Some(c.live[req.id].stamp) else None;
    match req
    case PutObject(_, body, _, _, _) =>
      if body.None? then known else if body.value.0.Integer? then Some(body.value.0.t) else None
    case PatchObject(_, field, _, _, _, _) =>
      if field.Unmentioned? then known else if field.Integer? then Some(field.t) else None
    case PostObject(_, field, _, _, _, _) => if field.Integer? then Some(field.t) else None
    case DeleteObject(_, lastModified, _, _, _) => lastModified
  }

  /** Which stamp an accepted request leaves, and where the clock then stands: a carried one
      that is not newer than the object is dropped, 0 excepted; one that is newer than the clock
      is taken; one that the clock has passed is taken and leaves the clock; otherwise the wall
      clock decides, or the clock steps by one. */
  lemma HandleStamps(c: Cell, req: Request)
    requires Inv(c) && Handle(c, req).0 == Written
    ensures var c', t, now := Handle(c, req).1, Carried(c, req), req.now;
            var clock := if c.clock.Some? then c.clock.value else if now > 0 then now else 1;
            var stamp, next := StampOf(SlotOf(c', req.id)), if now > clock then now else clock + 1;
            var dropped := t.Some? && t.value != 0 && req.id in c.live && t.value <= c.live[req.id].stamp;
            if t.None? || dropped then stamp == next == Clock(c')
            else if t.value > clock then stamp == t.value == Clock(c')
            else if t.value == clock then stamp == clock + 1 == Clock(c')
            else stamp == t.value && Clock(c') == clock
  {
    var c1 := Apply(c, ReadClock(req.now));
    assert Clock(c1) == if c.clock.Some? then c.clock.value else if req.now > 0 then req.now else 1;
    var w := WriteOf(req, Existing(c1, req.id)).value;
    assert Handle(c, req).1 == Apply(c1, w) && !w.ReadClock? && w.id == req.id;
    if req.DeleteObject? { assert w.Delete?; } else { assert w.Create? || w.Update?; }
  }

  function Content(c: Cell, id: string): Option<Dict> {
    if id in c.live then Some(c.live[id].data) else None
  }

  /** Which requests of a run are accepted. */
  function Outcomes(c: Cell, reqs: seq<Request>): (r: seq<Outcome>)
    ensures |r| == |reqs|
    decreases reqs
  {
    if reqs == [] then [] else [Handle(c, reqs[0]).0] + Outcomes(Handle(c, reqs[0]).1, reqs[1..])
  }

  /** What a client that knows the outcomes expects to find under an id. */
  function Expected(start: Option<Dict>, reqs: seq<Request>, outcomes: seq<Outcome>, id: string): Option<Dict>
    requires |outcomes| == |reqs|
    decreases reqs
  {
    if reqs == [] then start
    else
      var next := if reqs[0].id != id || outcomes[0] != Written then start
                  else
                    match reqs[0]
                    case PutObject(_, body, _, _, _) =>
                      if body.Some? then Some(body.value.1) else if start.Some? then start else Some(map[])
                    case PatchObject(_, _, data, _, _, _) => Some(data)
                    case PostObject(_, _, data, _, _, _) => Some(data)
                    case DeleteObject(_, _, _, _, _) => None;
      Expected(next, reqs[1..], outcomes[1..], id)
  }

  /** Main result: after any run an object holds the data of the last accepted write on it. */
  lemma {:induction false} HoldsLastWrite(c: Cell, reqs: seq<Request>, id: string)
    ensures Content(Serve(c, reqs), id) == Expected(Content(c, id), reqs, Outcomes(c, reqs), id)
    decreases reqs
  {
    if reqs != [] {
      var c' := Handle(c, reqs[0]).1;
      if Handle(c, reqs[0]).0 == Written { HandleStores(c, reqs[0]); } else { HandleKeeps(c, reqs[0]); }
      SameSlotContent(c, c', reqs[0], id);
      HoldsLastWrite(c', reqs[1..], id);
      assert Outcomes(c, reqs)[1..] == Outcomes(c', reqs[1..]);
    }
  }

  lemma SameSlotContent(c: Cell, c': Cell, req: Request, id: string)
    requires id != req.id ==> SlotOf(c', id) == SlotOf(c, id)
    ensures id != req.id ==> Content(c', id) == Content(c, id)
  {
  }

  // ---------- Stamps of an object within its lifetime ----------

  lemma HandleKeepsInv(c: Cell, req: Request)
    requires Inv(c)
    ensures Inv(Handle(c, req).1) && Clock(Handle(c, req).1) >= Clock(c)
  {
    StepKeepsInv(c, ReadClock(req.now));
    var c' := Apply(c, ReadClock(req.now));
    var w := WriteOf(req, Existing(c', req.id));
    if w.Some? { StepKeepsInv(c', w.value); }
  }

  /** Exactly when an accepted update raises the stamp: not when a 0 gets through over an
      object that is not older. */
  lemma UpdateRaisesStamp(c: Cell, req: Request)
    requires Inv(c) && req.id in c.live && (req.PutObject? || req.PatchObject?)
    requires Handle(c, req).0 == Written
    ensures var prior, raised := c.live[req.id].stamp, Handle(c, req).1.live[req.id].stamp;
            var specified := WriteOf(req, Some(c.live[req.id])).value.specified;
            raised > prior <==> !(specified == Some(0) && prior >= 0 && Clock(c) > 0)
  {
  }

  /** No request specifies the timestamp 0. */
  predicate NonZero(req: Request) {
    match req
    case PutObject(_, body, _, _, _) => body.Some? ==> body.value.0 != Integer(0)
    case PatchObject(_, field, _, _, _, _) => field != Integer(0)
    case DeleteObject(_, lastModified, _, _, _) => lastModified != Some(0)
    case PostObject(_, field, _, _, _, _) => field != Integer(0)
  }

  predicate AllNonZero(reqs: seq<Request>) {
    forall i :: 0 <= i < |reqs| ==> NonZero(reqs[i])
  }

  /** No object is stamped 0. */
  ghost predicate NoZeroStamp(c: Cell) {
    forall id :: id in c.live ==> c.live[id].stamp != 0
  }

  /** An accepted write on a live object raises its stamp or ends its lifetime; anything
      else leaves it alone. */
  lemma HandleEffect(c: Cell, req: Request, id: string)
    requires Inv(c) && NoZeroStamp(c) && NonZero(req)
    ensures NoZeroStamp(Handle(c, req).1)
    ensures var (outcome, c') := Handle(c, req);
            && (outcome != Written || req.id != id ==> SlotOf(c', id) == SlotOf(c, id))
            && (outcome == Written && req.id == id && id in c.live && id in c'.live ==>
              c'.live[id].stamp > c.live[id].stamp)
  {
  }

  /** `id` is live in every state of the run: one lifetime. */
  predicate LiveThroughout(c: Cell, reqs: seq<Request>, id: string)
    decreases reqs
  {
    id in c.live && (reqs != [] ==> LiveThroughout(Handle(c, reqs[0]).1, reqs[1..], id))
  }

  /** Some request of the run was accepted and wrote `id`. */
  predicate Writes(c: Cell, reqs: seq<Request>, id: string)
    decreases reqs
  {
    reqs != [] &&
    ((reqs[0].id == id && Handle(c, reqs[0]).0 == Written) || Writes(Handle(c, reqs[0]).1, reqs[1..], id))
  }

  lemma {:induction false} ServeKeepsInv(c: Cell, reqs: seq<Request>)
    requires Inv(c) && NoZeroStamp(c) && AllNonZero(reqs)
    ensures Inv(Serve(c, reqs)) && NoZeroStamp(Serve(c, reqs))
    decreases reqs
  {
    if reqs != [] {
      HandleKeepsInv(c, reqs[0]);
      HandleEffect(c, reqs[0], reqs[0].id);
      forall i | 0 <= i < |reqs[1..]| ensures NonZero(reqs[1..][i]) { assert reqs[1..][i] == reqs[i + 1]; }
      ServeKeepsInv(Handle(c, reqs[0]).1, reqs[1..]);
    }
  }

  /** Within a lifetime the stamp rises with each write and the object is unchanged without one. */
  lemma {:induction false} StampTellsWrites(c: Cell, reqs: seq<Request>, id: string)
    requires Inv(c) && NoZeroStamp(c) && AllNonZero(reqs) && LiveThroughout(c, reqs, id)
    ensures id in Serve(c, reqs).live
    ensures Writes(c, reqs, id) ==> Serve(c, reqs).live[id].stamp > c.live[id].stamp
    ensures !Writes(c, reqs, id) ==> Serve(c, reqs).live[id] == c.live[id]
    decreases reqs
  {
    if reqs != [] {
      HandleKeepsInv(c, reqs[0]);
      HandleEffect(c, reqs[0], id);
      forall i | 0 <= i < |reqs[1..]| ensures NonZero(reqs[1..][i]) { assert reqs[1..][i] == reqs[i + 1]; }
      StampTellsWrites(Handle(c, reqs[0]).1, reqs[1..], id);
    }
  }

  // ---------- Across lifetimes ----------

  /** The write that a request makes, if it is accepted. */
  function Accepted(c: Cell, req: Request): Option<Op> {
    var c' := Apply(c, ReadClock(req.now));
    if Handle(c, req).0 == Written then WriteOf(req, Existing(c', req.id)) else None
  }

  /** The request stores `id` under a stamp `t` that it specifies and that is in the past. */
  predicate PutsBack(c: Cell, req: Request, id: string, t: int) {
    var w := Accepted(c, req);
    && w.Some? && !w.value.ReadClock? && !w.value.Delete? && w.value.id == id
    && w.value.specified == Some(t) && t < Clock(Apply(c, ReadClock(req.now)))
  }

  /** The last accepted write on `id`, if any, puts the stamp `t` back. */
  predicate LastPutsBack(c: Cell, reqs: seq<Request>, id: string, t: int)
    decreases reqs
  {
    reqs != [] &&
    var c' := Handle(c, reqs[0]).1;
    if Writes(c', reqs[1..], id) then LastPutsBack(c', reqs[1..], id, t) else PutsBack(c, reqs[0], id, t)
  }

  /** The request names the timestamp `t` for `id`. */
  predicate Names(req: Request, id: string, t: int) {
    req.id == id &&
    match req
    case PutObject(_, body, _, _, _) => body.Some? && body.value.0 == Integer(t)
    case PatchObject(_, field, _, _, _, _) => field == Integer(t)
    case DeleteObject(_, _, _, _, _) => false
    case PostObject(_, field, _, _, _, _) => field == Integer(t)
  }

  predicate Bears(c: Cell, id: string, t: int) {
    id in c.live && c.live[id].stamp == t
  }

  /** A written object bears a stamp that the clock has reached exactly when it was put back. */
  lemma WrittenBears(c: Cell, req: Request, t: int)
    requires Inv(c) && t <= Clock(c) && Handle(c, req).0 == Written
    ensures Bears(Handle(c, req).1, req.id, t) <==> PutsBack(c, req, req.id, t)
  {
  }

  lemma UntouchedStays(c: Cell, req: Request, id: string)
    requires Inv(c) && !(req.id == id && Handle(c, req).0 == Written)
    ensures SlotOf(Handle(c, req).1, id) == SlotOf(c, id)
  {
  }

  /** Only a request that names a stamp other than 0 puts it back. */
  lemma PutBackIsNamed(c: Cell, req: Request, id: string, t: int)
    requires PutsBack(c, req, id, t) && t != 0
    ensures Names(req, id, t)
  {
  }

  /** Over any run, deletions and re-creations included, the object bears a stamp that the
      clock had reached iff it was not written and bore it, or its last write put it back. */
  lemma {:induction false} BearsAfterRun(c: Cell, reqs: seq<Request>, id: string, t: int)
    requires Inv(c) && t <= Clock(c)
    ensures Inv(Serve(c, reqs))
    ensures Bears(Serve(c, reqs), id, t)
            <==> if Writes(c, reqs, id) then LastPutsBack(c, reqs, id, t) else Bears(c, id, t)
    ensures !Writes(c, reqs, id) ==> SlotOf(Serve(c, reqs), id) == SlotOf(c, id)
    decreases reqs
  {
    if reqs != [] {
      var c' := Handle(c, reqs[0]).1;
      HandleKeepsInv(c, reqs[0]);
      BearsAfterRun(c', reqs[1..], id, t);
      if reqs[0].id == id && Handle(c, reqs[0]).0 == Written {
        WrittenBears(c, reqs[0], t);
      } else {
        UntouchedStays(c, reqs[0], id);
      }
    }
  }

  lemma {:induction false} UnnamedIsNotPutBack(c: Cell, reqs: seq<Request>, id: string, t: int)
    requires t != 0 && forall i :: 0 <= i < |reqs| ==> !Names(reqs[i], id, t)
    ensures !LastPutsBack(c, reqs, id, t)
    decreases reqs
  {
    if reqs != [] {
      if PutsBack(c, reqs[0], id, t) { PutBackIsNamed(c, reqs[0], id, t); }
      forall i | 0 <= i < |reqs[1..]| ensures !Names(reqs[1..][i], id, t) { assert reqs[1..][i] == reqs[i + 1]; }
      UnnamedIsNotPutBack(Handle(c, reqs[0]).1, reqs[1..], id, t);
    }
  }

  /** An update or delete conditioned on a stamp is accepted iff the object bears it. */
  lemma ConditionedOnStamp(c: Cell, req: Request, t: int)
    requires Inv(c) && !req.PostObject? && req.ifMatch == ETag(t) && req.ifNoneMatch == Unset && t != 0
    ensures Handle(c, req).0 == Written <==> Bears(c, req.id, t)
    ensures Handle(c, req).0 != Written && req.id in c.live ==> Handle(c, req).0 == Precondition412
  {
  }

  /** Main result: a client saw the version stamped `t`; after any run of requests its update
      or delete with `If-Match: t` is accepted exactly when nothing has been written to the
      object since, or the last accepted write on it stored it, below the clock, under the
      specified stamp `t` again.  In the first case it acts on the very version seen. */
  lemma {:induction false} IfMatchAccepted(c: Cell, reqs: seq<Request>, req: Request)
    requires Inv(c) && req.id in c.live && c.live[req.id].stamp != 0
    requires !req.PostObject? && req.ifMatch == ETag(c.live[req.id].stamp) && req.ifNoneMatch == Unset
    ensures var c', t := Serve(c, reqs), c.live[req.id].stamp;
            && (Handle(c', req).0 == Written
                <==> !Writes(c, reqs, req.id) || LastPutsBack(c, reqs, req.id, t))
            && (!Writes(c, reqs, req.id) ==> SlotOf(c', req.id) == SlotOf(c, req.id))
  {
    BearsAfterRun(c, reqs, req.id, c.live[req.id].stamp);
    ConditionedOnStamp(Serve(c, reqs), req, c.live[req.id].stamp);
  }

  /** Main result, what a client can rely on: as long as nobody names the stamp it saw for
      that object, its conditional write is accepted exactly when nothing has been written,
      whatever else happens, and then acts on the very version it saw. */
  lemma {:induction false} UnnamedStampIsSafe(c: Cell, reqs: seq<Request>, req: Request)
    requires Inv(c) && req.id in c.live && c.live[req.id].stamp != 0
    requires !req.PostObject? && req.ifMatch == ETag(c.live[req.id].stamp) && req.ifNoneMatch == Unset
    requires forall i :: 0 <= i < |reqs| ==> !Names(reqs[i], req.id, c.live[req.id].stamp)
    ensures var c' := Serve(c, reqs);
            && (Handle(c', req).0 == Written <==> !Writes(c, reqs, req.id))
            && (Handle(c', req).0 == Written ==> SlotOf(c', req.id) == SlotOf(c, req.id))
  {
    IfMatchAccepted(c, reqs, req);
    UnnamedIsNotPutBack(c, reqs, req.id, c.live[req.id].stamp);
  }

  /** Within a lifetime, stamps may be named: an accepted write raises the stamp anyway. */
  lemma {:induction false} IfMatchMeansUnmodified(c: Cell, reqs: seq<Request>, req: Request)
    requires Inv(c) && NoZeroStamp(c) && AllNonZero(reqs) && LiveThroughout(c, reqs, req.id)
    requires !req.PostObject? && req.ifMatch == ETag(c.live[req.id].stamp) && req.ifNoneMatch == Unset
    ensures var c' := Serve(c, reqs);
            && (Handle(c', req).0 == Written <==> !Writes(c, reqs, req.id))
            && (Handle(c', req).0 != Written ==> Handle(c', req).0 == Precondition412)
            && (Handle(c', req).0 == Written ==> SlotOf(c', req.id) == SlotOf(c, req.id))
  {
    StampTellsWrites(c, reqs, req.id);
    ServeKeepsInv(c, reqs);
  }

  /** No lost update: of two writes conditioned on the same version the later one is refused,
      unless a request in between names the stamp and the object dies meanwhile. */
  lemma {:induction false} NoLostUpdate(c: Cell, first: Request, reqs: seq<Request>, second: Request)
    requires Inv(c) && first.id == second.id && Handle(c, first).0 == Written
    requires first.id in c.live && c.live[first.id].stamp != 0
    requires !second.PostObject? && second.ifMatch == ETag(c.live[first.id].stamp) && second.ifNoneMatch == Unset
    requires || (forall i :: 0 <= i < |reqs| ==> !Names(reqs[i], first.id, c.live[first.id].stamp))
             || (&& NoZeroStamp(c) && NonZero(first) && AllNonZero(reqs)
                 && LiveThroughout(c, [first] + reqs, first.id))
    ensures var c' := Serve(c, [first] + reqs);
            && Handle(c', second).0 != Written
            && (first.id in c'.live ==> Handle(c', second).0 == Precondition412)
  {
    var run, t := [first] + reqs, c.live[first.id].stamp;
    assert run[0] == first && run[1..] == reqs;
    assert Writes(c, run, first.id);
    BearsAfterRun(c, run, first.id, t);
    ConditionedOnStamp(Serve(c, run), second, t);
    if forall i :: 0 <= i < |reqs| ==> !Names(reqs[i], first.id, t) {
      WrittenBears(c, first, t);
      FirstDoesNotPutBack(c, first);
      UnnamedIsNotPutBack(Handle(c, first).1, reqs, first.id, t);
    } else {
      IfMatchMeansUnmodified(c, run, second);
    }
  }

  /** A stamp that the object bears is dropped from a request that names it. */
  lemma FirstDoesNotPutBack(c: Cell, first: Request)
    requires Inv(c) && first.id in c.live && c.live[first.id].stamp != 0
    ensures !PutsBack(c, first, first.id, c.live[first.id].stamp)
  {
  }

  /** `If-None-Match: *` creates and never overwrites: it is refused exactly when the object
      exists, unless the object bears the stamp -1 that the code uses as its marker. */
  lemma IfNoneMatchStar(c: Cell, req: Request)
    requires req.ifNoneMatch == Star && !Given(req.ifMatch) && req.PutObject?
    ensures Handle(c, req).0 == Precondition412 <==> req.id in c.live && c.live[req.id].stamp != -1
    ensures req.id !in c.live ==> Handle(c, req).0 == Written
  {
  }

  /** Across lifetimes the ETag protects nothing: a re-created object may bear the old stamp. */
  lemma NewLifetimeMayReuseStamp(data: Dict, other: Dict)
    ensures var c := Serve(EMPTY_CELL, [PutObject("x", Some((Integer(5), data)), Unset, Unset, 0)]);
            var reqs := [DeleteObject("x", None, Unset, Unset, 0),
                         PutObject("x", Some((Integer(5), other)), Unset, Unset, 0)];
            && c.live == map["x" := Version(5, data)]
            && Inv(c) && NoZeroStamp(c) && AllNonZero(reqs) && Writes(c, reqs, "x")
            && Handle(Serve(c, reqs), DeleteObject("x", None, ETag(5), Unset, 0)).0 == Written
  {
    var first := PutObject("x", Some((Integer(5), data)), Unset, Unset, 0);
    var a, b := DeleteObject("x", None, Unset, Unset, 0), PutObject("x", Some((Integer(5), other)), Unset, Unset, 0);
    var c := Handle(EMPTY_CELL, first).1;
    assert c == Cell(Some(5), map["x" := Version(5, data)], map[]);
    assert [first][1..] == [] && Serve(EMPTY_CELL, [first]) == Serve(c, []) == c;
    var c1 := Handle(c, a).1;
    var c2 := Handle(c1, b).1;
    assert c1.live == map[] && Clock(c1) == 6;
    assert c2.live["x"] == Version(5, other);
    assert [a, b][1..] == [b] && [b][1..] == [];
    assert Serve(c, [a, b]) == Serve(c1, [b]) == Serve(c2, []);
  }

  /** An `If-Match` of 0 is no precondition at all. */
  lemma IfMatchZeroIsIgnored(c: Cell, req: Request)
    requires req.ifMatch == ETag(0) && req.ifNoneMatch == Unset
    ensures Handle(c, req).0 != Precondition412
  {
  }
}
