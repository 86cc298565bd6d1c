/** The snapshot endpoint: a collection as it was at a given timestamp, rebuilt from its
    records, their tombstones and the history. */
module Snapshot {
  import opened Options
  import opened Json
  import opened Collections
  import opened Sorting
  import opened Storage
  import opened History
  import Paging
  import Sync

  // ---------- Runs of record writes, and what the history keeps of them ----------

  predicate ClockChosen(op: Op) {
    match op
    case ReadClock(_) => true
    case Delete(_, specified, withDeleted, _) => specified.None? && withDeleted
    case _ => op.specified.None?
  }

  ghost predicate AllClockChosen(ops: seq<Op>) {
    forall i :: 0 <= i < |ops| ==> ClockChosen(ops[i])
  }

  /** Whether the operation changes an object (a failed one does not). */
  predicate Writes(c: Cell, op: Op) {
    match op
    case ReadClock(_) => false
    case Create(id, _, _, _) => id !in c.live
    case Update(_, _, _, _) => true
    case Delete(id, _, _, _) => id in c.live
  }

  /** The new states of `id` over a run, in order: what a full history must hold for it. */
  function Changes(c: Cell, ops: seq<Op>, id: string): seq<Slot>
    decreases ops
  {
    if ops == [] then []
    else
      var c' := Apply(c, ops[0]);
      (if Writes(c, ops[0]) && ops[0].id == id then [SlotOf(c', id)] else []) + Changes(c', ops[1..], id)
  }

  function OfRecord(id: string): Entry -> bool {
    (e: Entry) => e.resource == "record" && e.id == id
  }

  function TargetsOf(entries: seq<Entry>): seq<Slot> {
    seq(|entries|, i requires 0 <= i < |entries| => entries[i].target)
  }

  /** The history is full: for each record, its entries are its changes in order.  Entries of
      different records may be interleaved in any way. */
  ghost predicate FullHistory(entries: seq<Entry>, ops: seq<Op>) {
    forall id :: TargetsOf(Select(entries, OfRecord(id))) == Changes(EMPTY_CELL, ops, id)
  }

  /** The collection when its clock last stood at or below `t`. */
  function AtTime(c: Cell, ops: seq<Op>, t: int): Cell
    decreases ops
  {
    if ops == [] || Clock(Apply(c, ops[0])) > t then c else AtTime(Apply(c, ops[0]), ops[1..], t)
  }

  /** It is a state of the run: the last one whose clock is not past `t`. */
  lemma {:induction false} AtTimeIsAState(c: Cell, ops: seq<Op>, t: int) returns (k: nat)
    requires Inv(c) && Clock(c) <= t
    ensures k <= |ops| && AtTime(c, ops, t) == Run(c, ops[..k]) && Clock(Run(c, ops[..k])) <= t
    ensures forall j :: k < j <= |ops| ==> Clock(Run(c, ops[..j])) > t
    decreases ops
  {
    assert ops[..0] == [];
    if ops == [] || Clock(Apply(c, ops[0])) > t {
      k := 0;
      forall j | 0 < j <= |ops| ensures Clock(Run(c, ops[..j])) > t {
        var c' := Apply(c, ops[0]);
        assert ops[..j][1..] == ops[1..j] && ops[..j][0] == ops[0];
        StepKeepsInv(c, ops[0]);
        RunKeepsInv(c', ops[1..j]);
      }
    } else {
      var c', rest := Apply(c, ops[0]), ops[1..];
      StepKeepsInv(c, ops[0]);
      var n := AtTimeIsAState(c', rest, t);
      k := n + 1;
      forall j | 0 < j <= |ops| ensures Run(c, ops[..j]) == Run(c', rest[..j - 1]) {
        assert ops[..j][1..] == rest[..j - 1] && ops[..j][0] == ops[0];
      }
    }
  }

  function LastBefore(slots: seq<Slot>, t: int): Slot {
    if slots == [] then Absent
    else
      var s := slots[|slots| - 1];
      if !s.Absent? && StampOf(s) <= t then s else LastBefore(slots[..|slots| - 1], t)
  }

  lemma {:induction false} LastBeforePrepend(s: Slot, slots: seq<Slot>, t: int)
    ensures LastBefore([s] + slots, t)
            == if LastBefore(slots, t) != Absent then LastBefore(slots, t)
               else if !s.Absent? && StampOf(s) <= t then s else Absent
  {
    if slots != [] {
      var n := |slots| - 1;
      assert ([s] + slots)[..n + 1] == [s] + slots[..n];
      LastBeforePrepend(s, slots[..n], t);
    } else {
      assert [s] + slots == [s] && [s][..0] == [];
      assert LastBefore([], t) == Absent;
    }
  }

  /** A clock-chosen write is stamped with the new clock, ahead of the old one. */
  lemma WriteIsNewest(c: Cell, op: Op)
    requires Inv(c) && ClockChosen(op)
    ensures Writes(c, op) ==>
              var s := SlotOf(Apply(c, op), op.id);
              !s.Absent? && StampOf(s) == Clock(Apply(c, op)) > Clock(c)
    ensures forall id :: !(Writes(c, op) && op.id == id) ==> SlotOf(Apply(c, op), id) == SlotOf(c, id)
  {
  }

  lemma {:induction false} ChangesAreLate(c: Cell, ops: seq<Op>, id: string, t: int)
    requires Inv(c) && AllClockChosen(ops) && Clock(c) >= t
    ensures LastBefore(Changes(c, ops, id), t) == Absent
    decreases ops
  {
    if ops != [] {
      var c' := Apply(c, ops[0]);
      StepKeepsInv(c, ops[0]);
      WriteIsNewest(c, ops[0]);
      forall i | 0 <= i < |ops[1..]| ensures ClockChosen(ops[1..][i]) { assert ops[1..][i] == ops[i + 1]; }
      ChangesAreLate(c', ops[1..], id, t);
      if Writes(c, ops[0]) && ops[0].id == id {
        LastBeforePrepend(SlotOf(c', id), Changes(c', ops[1..], id), t);
      } else {
        assert Changes(c, ops, id) == Changes(c', ops[1..], id);
      }
    }
  }

  /** The last change of `id` at or before `t` is its state at `t`, unless it had none since `c`. */
  lemma {:induction false} LastChangeIsTheState(c: Cell, ops: seq<Op>, id: string, t: int)
    requires Inv(c) && AllClockChosen(ops) && Clock(c) <= t
    ensures var s := LastBefore(Changes(c, ops, id), t);
            SlotOf(AtTime(c, ops, t), id) == if s == Absent then SlotOf(c, id) else s
    decreases ops
  {
    if ops != [] {
      var c' := Apply(c, ops[0]);
      StepKeepsInv(c, ops[0]);
      WriteIsNewest(c, ops[0]);
      forall i | 0 <= i < |ops[1..]| ensures ClockChosen(ops[1..][i]) { assert ops[1..][i] == ops[i + 1]; }
      if Clock(c') > t {
        ChangesAreLate(c', ops[1..], id, t);
      } else {
        LastChangeIsTheState(c', ops[1..], id, t);
      }
      if Writes(c, ops[0]) && ops[0].id == id {
        LastBeforePrepend(SlotOf(c', id), Changes(c', ops[1..], id), t);
      } else {
        assert Changes(c, ops, id) == Changes(c', ops[1..], id);
      }
    }
  }

  /** An id whose slot at the end is stamped at or before `t` has not changed since `t`. */
  lemma {:induction false} OldSlotIsTheState(c: Cell, ops: seq<Op>, id: string, t: int)
    requires Inv(c) && AllClockChosen(ops) && Clock(c) <= t
    ensures var s := SlotOf(Run(c, ops), id);
            s == SlotOf(AtTime(c, ops, t), id) || (!s.Absent? && StampOf(s) > t)
    decreases ops
  {
    if ops != [] {
      var c' := Apply(c, ops[0]);
      StepKeepsInv(c, ops[0]);
      WriteIsNewest(c, ops[0]);
      forall i | 0 <= i < |ops[1..]| ensures ClockChosen(ops[1..][i]) { assert ops[1..][i] == ops[i + 1]; }
      if Clock(c') > t {
        ClockChosenIsFaithful(c', ops[1..]);
        Sync.SlotAfterRun(c', ops[1..], id);
      } else {
        OldSlotIsTheState(c', ops[1..], id, t);
      }
    }
  }

  lemma {:induction false} ClockChosenIsFaithful(c: Cell, ops: seq<Op>)
    requires AllClockChosen(ops)
    ensures Sync.Faithful(c, ops)
    decreases ops
  {
    if ops != [] {
      forall i | 0 <= i < |ops[1..]| ensures ClockChosen(ops[1..][i]) { assert ops[1..][i] == ops[i + 1]; }
      assert ClockChosen(ops[0]);
      ClockChosenIsFaithful(Apply(c, ops[0]), ops[1..]);
    }
  }

  // ---------- Requests keep the history full ----------

  ghost predicate DistinctIds(ops: seq<Op>) {
    forall i, j :: 0 <= i < j < |ops| && !ops[i].ReadClock? && !ops[j].ReadClock? ==> ops[i].id != ops[j].id
  }

  /** The entries that a request's operations deserve, in the order of the operations. */
  function Deserved(c: Cell, ops: seq<Op>): seq<(string, Slot)>
    decreases ops
  {
    if ops == [] then []
    else
      var c' := Apply(c, ops[0]);
      (if Writes(c, ops[0]) then [(ops[0].id, SlotOf(c', ops[0].id))] else []) + Deserved(c', ops[1..])
  }

  function For(pairs: seq<(string, Slot)>, id: string): seq<Slot> {
    if pairs == [] then []
    else (if pairs[0].0 == id then [pairs[0].1] else []) + For(pairs[1..], id)
  }

  ghost predicate DistinctFirst(pairs: seq<(string, Slot)>) {
    forall i, j :: 0 <= i < j < |pairs| ==> pairs[i].0 != pairs[j].0
  }

  lemma {:induction false} ForDistinct(pairs: seq<(string, Slot)>, id: string, s: Slot)
    requires DistinctFirst(pairs)
    ensures (id, s) in pairs ==> For(pairs, id) == [s]
    ensures (forall p :: p in pairs ==> p.0 != id) ==> For(pairs, id) == []
  {
    if pairs != [] {
      assert pairs == [pairs[0]] + pairs[1..];
      assert forall i :: 0 < i < |pairs| ==> pairs[i].0 != pairs[0].0;
      assert forall p :: p in pairs[1..] ==> p in pairs && p.0 != pairs[0].0;
      ForDistinct(pairs[1..], id, s);
    }
  }

  lemma PermutationKeepsDistinctFirst(p: seq<(string, Slot)>, q: seq<(string, Slot)>)
    requires DistinctFirst(p) && multiset(p) == multiset(q)
    ensures DistinctFirst(q)
  {
    PermutationKeepsDistinct(p, q, (x: (string, Slot)) => x.0);
  }

  /** When each id has at most one pair, the order of the pairs does not matter to any id. */
  lemma {:induction false} PermutationKeepsFor(p: seq<(string, Slot)>, q: seq<(string, Slot)>, id: string)
    requires DistinctFirst(p) && multiset(p) == multiset(q)
    ensures For(p, id) == For(q, id)
  {
    PermutationKeepsDistinctFirst(p, q);
    forall x ensures x in p <==> x in q { SameElements(p, q, x); }
    if s :| (id, s) in p {
      ForDistinct(p, id, s);
      ForDistinct(q, id, s);
    } else {
      forall x | x in p ensures x.0 != id { assert x == (x.0, x.1); }
      forall x | x in q ensures x.0 != id { assert x == (x.0, x.1); }
      ForDistinct(p, id, Absent);
      ForDistinct(q, id, Absent);
    }
  }

  lemma {:induction false} DeservedAreChanges(c: Cell, ops: seq<Op>, id: string)
    ensures Changes(c, ops, id) == For(Deserved(c, ops), id)
    decreases ops
  {
    if ops != [] {
      var c' := Apply(c, ops[0]);
      DeservedAreChanges(c', ops[1..], id);
      if Writes(c, ops[0]) {
        assert Deserved(c, ops)[1..] == Deserved(c', ops[1..]);
      } else {
        assert Deserved(c, ops) == Deserved(c', ops[1..]);
      }
    }
  }

  lemma {:induction false} DeservedIds(c: Cell, ops: seq<Op>, p: (string, Slot))
    requires p in Deserved(c, ops)
    ensures exists i :: 0 <= i < |ops| && !ops[i].ReadClock? && ops[i].id == p.0
    decreases ops
  {
    var c' := Apply(c, ops[0]);
    if p in Deserved(c', ops[1..]) {
      DeservedIds(c', ops[1..], p);
      var i :| 0 <= i < |ops[1..]| && !ops[1..][i].ReadClock? && ops[1..][i].id == p.0;
      assert ops[i + 1] == ops[1..][i];
    } else {
      assert ops[0].id == p.0;
    }
  }

  lemma {:induction false} DeservedDistinct(c: Cell, ops: seq<Op>)
    requires DistinctIds(ops)
    ensures DistinctFirst(Deserved(c, ops))
    decreases ops
  {
    if ops != [] {
      var rest := Deserved(Apply(c, ops[0]), ops[1..]);
      forall i, j | 0 <= i < j < |ops[1..]| && !ops[1..][i].ReadClock? && !ops[1..][j].ReadClock?
        ensures ops[1..][i].id != ops[1..][j].id
      {
        assert ops[1..][i] == ops[i + 1] && ops[1..][j] == ops[j + 1];
      }
      DeservedDistinct(Apply(c, ops[0]), ops[1..]);
      if Writes(c, ops[0]) {
        forall k | 0 <= k < |rest| ensures rest[k].0 != ops[0].id {
          DeservedIds(Apply(c, ops[0]), ops[1..], rest[k]);
          var i :| 0 <= i < |ops[1..]| && !ops[1..][i].ReadClock? && ops[1..][i].id == rest[k].0;
          assert ops[i + 1] == ops[1..][i];
        }
      }
    }
  }

  function PairsOf(entries: seq<Entry>): seq<(string, Slot)> {
    if entries == [] then [] else [(entries[0].id, entries[0].target)] + PairsOf(entries[1..])
  }

  lemma {:induction false} TargetsArePairs(entries: seq<Entry>, id: string)
    requires forall e :: e in entries ==> e.resource == "record"
    ensures TargetsOf(Select(entries, OfRecord(id))) == For(PairsOf(entries), id)
  {
    if entries != [] {
      assert forall e :: e in entries[1..] ==> e in entries;
      TargetsArePairs(entries[1..], id);
      assert PairsOf(entries)[1..] == PairsOf(entries[1..]);
      assert entries[0] in entries;
      if entries[0].id == id {
        TargetsPrepend(entries[0], Select(entries[1..], OfRecord(id)));
      } else {
        assert Select(entries, OfRecord(id)) == Select(entries[1..], OfRecord(id));
      }
    }
  }

  lemma {:induction false} ChangesAppend(c: Cell, ops: seq<Op>, more: seq<Op>, id: string)
    ensures Changes(c, ops + more, id) == Changes(c, ops, id) + Changes(Run(c, ops), more, id)
    decreases ops
  {
    if ops == [] {
      assert ops + more == more;
    } else {
      assert (ops + more)[0] == ops[0] && (ops + more)[1..] == ops[1..] + more;
      ChangesAppend(Apply(c, ops[0]), ops[1..], more, id);
    }
  }

  /** A request that changes each record at most once keeps the history full, in whatever
      order the entries of the request are written. */
  lemma {:induction false} RequestKeepsHistoryFull(entries: seq<Entry>, ops: seq<Op>, request: seq<Op>,
                                                   added: seq<Entry>)
    requires FullHistory(entries, ops) && DistinctIds(request)
    requires forall e :: e in added ==> e.resource == "record"
    requires multiset(PairsOf(added)) == multiset(Deserved(Run(EMPTY_CELL, ops), request))
    ensures FullHistory(entries + added, ops + request)
  {
    forall id ensures TargetsOf(Select(entries + added, OfRecord(id))) == Changes(EMPTY_CELL, ops + request, id) {
      var c := Run(EMPTY_CELL, ops);
      SelectAppend(entries, added, OfRecord(id));
      TargetsAppend(Select(entries, OfRecord(id)), Select(added, OfRecord(id)));
      ChangesAppend(EMPTY_CELL, ops, request, id);
      AddedAreChanges(c, request, added, id);
    }
  }

  /** Each request writes one entry per change, in some order. */
  ghost predicate RecordsRun(requests: seq<seq<Op>>, added: seq<seq<Entry>>) {
    |added| == |requests| &&
    forall i :: 0 <= i < |requests| ==>
      && DistinctIds(requests[i]) && (forall e :: e in added[i] ==> e.resource == "record")
      && multiset(PairsOf(added[i])) == multiset(Deserved(Run(EMPTY_CELL, Paging.Flatten(requests[..i])), requests[i]))
  }

  /** Over every run of requests from the empty store the history is full. */
  lemma {:induction false} RunsKeepHistoryFull(requests: seq<seq<Op>>, added: seq<seq<Entry>>)
    requires RecordsRun(requests, added)
    ensures FullHistory(Paging.Flatten(added), Paging.Flatten(requests))
  {
    if requests != [] {
      var n := |requests| - 1;
      forall i | 0 <= i < n
        ensures requests[..n][..i] == requests[..i] && requests[..n][i] == requests[i] && added[..n][i] == added[i] {}
      assert RecordsRun(requests[..n], added[..n]);
      RunsKeepHistoryFull(requests[..n], added[..n]);
      RequestKeepsHistoryFull(Paging.Flatten(added[..n]), Paging.Flatten(requests[..n]), requests[n], added[n]);
    }
  }

  lemma TargetsAppend(s: seq<Entry>, t: seq<Entry>)
    ensures TargetsOf(s + t) == TargetsOf(s) + TargetsOf(t)
  {
  }

  lemma {:induction false} AddedAreChanges(c: Cell, request: seq<Op>, added: seq<Entry>, id: string)
    requires DistinctIds(request)
    requires forall e :: e in added ==> e.resource == "record"
    requires multiset(PairsOf(added)) == multiset(Deserved(c, request))
    ensures TargetsOf(Select(added, OfRecord(id))) == Changes(c, request, id)
  {
    TargetsArePairs(added, id);
    DeservedAreChanges(c, request, id);
    DeservedDistinct(c, request);
    PermutationKeepsFor(Deserved(c, request), PairsOf(added), id);
  }

  // ---------- The endpoint ----------

  datatype Item = Item(id: string, slot: Slot)

  ghost predicate DistinctItems(items: seq<Item>) {
    forall i, j :: 0 <= i < j < |items| ==> items[i].id != items[j].id
  }

  /** `all` lists every live record and every tombstone once. */
  ghost predicate ListsAll(c: Cell, all: seq<Item>) {
    && DistinctItems(all)
    && (forall id, s :: Item(id, s) in all <==> s == SlotOf(c, id) && s != Absent)
  }

  function ByItemStamp(): Item -> Value {
    (x: Item) => if x.slot.Absent? then Missing else Present(Num(StampOf(x.slot) as real))
  }

  predicate Relevant(e: Entry, changed: seq<string>, t: int) {
    e.resource == "record" && e.id in changed && !e.target.Absent? && StampOf(e.target) <= t
  }

  function RelevantTo(changed: seq<string>, t: int): Entry -> bool {
    (e: Entry) => Relevant(e, changed, t)
  }

  /** First entry of `id` in a list. */
  function FirstFor(s: seq<Entry>, id: string): (r: Option<Entry>)
    ensures r.Some? ==> r.value in s && r.value.id == id
  {
    if s == [] then None
    else
      var n := |s| - 1;
      var r := FirstFor(s[..n], id);
      if r.Some? then r else if s[n].id == id then Some(s[n]) else None
  }

  lemma {:induction false} FirstForChanged(entries: seq<Entry>, changed: seq<string>, id: string, t: int)
    requires id in changed
    ensures var r := FirstFor(Reverse(Select(entries, RelevantTo(changed, t))), id);
            (if r.Some? then r.value.target else Absent) == LastBefore(TargetsOf(Select(entries, OfRecord(id))), t)
  {
    if entries != [] {
      var p := RelevantTo(changed, t);
      var e, rest := entries[0], entries[1..];
      FirstForChanged(rest, changed, id, t);
      var older, targets := Reverse(Select(rest, p)), TargetsOf(Select(rest, OfRecord(id)));
      SelectFirst(entries, p);
      SelectFirst(entries, OfRecord(id));
      if p(e) {
        ReversePrepend(e, Select(rest, p));
        FirstForSnoc(older, e, id);
      }
      if OfRecord(id)(e) {
        TargetsPrepend(e, Select(rest, OfRecord(id)));
        LastBeforePrepend(e.target, targets, t);
      }
      if FirstFor(older, id).Some? {
        SelectReverseRelevant(rest, changed, t, FirstFor(older, id).value);
      }
    } else {
      assert LastBefore([], t) == Absent;
    }
  }

  lemma {:induction false} SelectFirst(s: seq<Entry>, p: Entry -> bool)
    requires s != []
    ensures Select(s, p) == if p(s[0]) then [s[0]] + Select(s[1..], p) else Select(s[1..], p)
  {
  }

  lemma {:induction false} ReversePrepend(e: Entry, s: seq<Entry>)
    ensures Reverse([e] + s) == Reverse(s) + [e]
  {
    assert ([e] + s)[1..] == s;
  }

  lemma {:induction false} FirstForSnoc(s: seq<Entry>, e: Entry, id: string)
    ensures FirstFor(s + [e], id)
            == if FirstFor(s, id).Some? then FirstFor(s, id) else if e.id == id then Some(e) else None
  {
    assert (s + [e])[..|s|] == s;
  }

  lemma TargetsPrepend(e: Entry, s: seq<Entry>)
    ensures TargetsOf([e] + s) == [e.target] + TargetsOf(s)
  {
  }

  lemma {:induction false} SelectReverseRelevant(s: seq<Entry>, changed: seq<string>, t: int, e: Entry)
    requires e in Reverse(Select(s, RelevantTo(changed, t)))
    ensures Relevant(e, changed, t)
  {
    ReverseElements(Select(s, RelevantTo(changed, t)), e);
    SelectIn(s, RelevantTo(changed, t), e);
  }

  /** What the endpoint reports for an id: its record when that is not newer than `t`, else
      the target of its last entry at or before `t`. */
  function Reported(c: Cell, entries: seq<Entry>, id: string, t: int): Slot {
    var s := SlotOf(c, id);
    if s.Absent? then Absent
    else if StampOf(s) > t then LastBefore(TargetsOf(Select(entries, OfRecord(id))), t)
    else if s.Live? then s
    else Absent
  }

  function NotNewer(t: int): Item -> bool {
    (x: Item) => x.slot.Live? && StampOf(x.slot) <= t
  }

  function Newer(t: int): Item -> bool {
    (x: Item) => !x.slot.Absent? && StampOf(x.slot) > t
  }

  function IdsOf(items: seq<Item>): seq<string> {
    seq(|items|, i requires 0 <= i < |items| => items[i].id)
  }

  /** The items that the result must hold, whatever their order. */
  ghost predicate Reports(items: seq<Item>, c: Cell, entries: seq<Entry>, t: int) {
    && DistinctItems(items)
    && (forall id, s :: Item(id, s) in items <==> s != Absent && s == Reported(c, entries, id, t))
  }

  /** The result so far: the unchanged records, then the rebuilt ones among the first `n` changed ids. */
  ghost predicate ReportsSome(items: seq<Item>, c: Cell, entries: seq<Entry>, t: int, changed: seq<string>, n: nat)
    requires n <= |changed|
  {
    && DistinctItems(items)
    && (forall id, s :: Item(id, s) in items <==>
          s != Absent && s == Reported(c, entries, id, t) && (id in changed ==> id in changed[..n]))
  }

  lemma {:induction false} SelectDistinct(all: seq<Item>, p: Item -> bool)
    requires DistinctItems(all)
    ensures DistinctItems(Select(all, p))
  {
    var id := (x: Item) => x.id;
    assert forall i, j :: 0 <= i < j < |all| ==> id(all[i]) != id(all[j]);
    var r := Select(all, p);
    forall i, j | 0 <= i < j < |r| ensures r[i].id != r[j].id {
      SelectKeepsDistinct(all, p, id, i, j);
      assert id(r[i]) != id(r[j]);
    }
  }

  lemma {:induction false} UnchangedFirst(c: Cell, all: seq<Item>, entries: seq<Entry>, t: int)
    requires ListsAll(c, all)
    ensures var changed := IdsOf(Select(all, Newer(t)));
            && ReportsSome(Select(all, NotNewer(t)), c, entries, t, changed, 0)
            && (forall id :: id in changed <==> SlotOf(c, id) != Absent && StampOf(SlotOf(c, id)) > t)
            && (forall i, j :: 0 <= i < j < |changed| ==> changed[i] != changed[j])
  {
    var newer := Select(all, Newer(t));
    var changed := IdsOf(newer);
    SelectDistinct(all, NotNewer(t));
    SelectDistinct(all, Newer(t));
    forall id ensures id in changed <==> SlotOf(c, id) != Absent && StampOf(SlotOf(c, id)) > t {
      var x := Item(id, SlotOf(c, id));
      SelectIn(all, Newer(t), x);
      if id in changed {
        var i :| 0 <= i < |newer| && newer[i].id == id;
        SelectIn(all, Newer(t), newer[i]);
        assert newer[i] == Item(newer[i].id, newer[i].slot);
      }
      if x in newer {
        var i :| 0 <= i < |newer| && newer[i] == x;
        assert changed[i] == id;
      }
    }
    forall id, s ensures Item(id, s) in Select(all, NotNewer(t)) <==>
                    s != Absent && s == Reported(c, entries, id, t) && (id in changed ==> id in changed[..0])
    {
      SelectIn(all, NotNewer(t), Item(id, s));
    }
  }

  /** One turn of the loop over the changed ids. */
  lemma OneMoreReported(items: seq<Item>, c: Cell, entries: seq<Entry>, t: int, changed: seq<string>, n: nat,
                        items': seq<Item>)
    requires n < |changed| && ReportsSome(items, c, entries, t, changed, n)
    requires forall i, j :: 0 <= i < j < |changed| ==> changed[i] != changed[j]
    requires var s := Reported(c, entries, changed[n], t);
             items' == if s == Absent then items else items + [Item(changed[n], s)]
    ensures ReportsSome(items', c, entries, t, changed, n + 1)
  {
    var id := changed[n];
    assert changed[..n + 1] == changed[..n] + [id];
    assert id in changed && id !in changed[..n];
    forall i | 0 <= i < |items| ensures items[i].id != id {
      assert Item(items[i].id, items[i].slot) in items;
    }
  }

  /** The history lookup: most recent entries first, the first of each record is kept. */
  method MostRecentEntries(entries: seq<Entry>, changed: seq<string>, t: int) returns (mostRecent: map<string, Entry>)
    requires Increasing(entries)
    ensures forall id :: id in changed ==>
              var s := LastBefore(TargetsOf(Select(entries, OfRecord(id))), t);
              if id in mostRecent then mostRecent[id].target == s != Absent else s == Absent
  {
    var historyEntries := SortBy(Select(entries, RelevantTo(changed, t)), ByStamp(), true);
    mostRecent := map[];
    for i := 0 to |historyEntries|
      invariant forall id :: id in mostRecent <==> FirstFor(historyEntries[..i], id).Some?
      invariant forall id :: id in mostRecent ==> mostRecent[id] == FirstFor(historyEntries[..i], id).value
    {
      assert historyEntries[..i + 1][..i] == historyEntries[..i];
      var rid := historyEntries[i].id;
      if rid !in mostRecent {
        mostRecent := mostRecent[rid := historyEntries[i]];
      }
    }
    assert historyEntries[..|historyEntries|] == historyEntries;
    SelectIncreasing(entries, RelevantTo(changed, t));
    SortDescReverses(Select(entries, RelevantTo(changed, t)));
    forall id | id in changed
      ensures var s := LastBefore(TargetsOf(Select(entries, OfRecord(id))), t);
              if id in mostRecent then mostRecent[id].target == s != Absent else s == Absent
    {
      FirstForChanged(entries, changed, id, t);
      if id in mostRecent { SelectReverseRelevant(entries, changed, t, mostRecent[id]); }
    }
  }

  /** `get_snapshot`, past the permission check.  `all` is the listing of the records with
      their tombstones, `entries` the bucket's history in the order of its own timestamps. */
  method GetSnapshot(ghost c: Cell, all: seq<Item>, entries: seq<Entry>, t: int) returns (result: seq<Item>)
    requires ListsAll(c, all) && Increasing(entries)
    ensures Reports(result, c, entries, t)
    ensures Ordered(result, [SortKey(ByItemStamp(), true)])
  {
    result := Select(all, NotNewer(t));
    var changed := IdsOf(Select(all, Newer(t)));
    UnchangedFirst(c, all, entries, t);
    if changed != [] {
      var mostRecent := MostRecentEntries(entries, changed, t);
      for i := 0 to |changed|
        invariant ReportsSome(result, c, entries, t, changed, i)
      {
        ghost var before := result;
        if changed[i] in mostRecent {
          result := result + [Item(changed[i], mostRecent[changed[i]].target)];
        }
        OneMoreReported(before, c, entries, t, changed, i, result);
      }
    }
    SortedReports(result, c, entries, t, changed);
    result := SortBy(result, ByItemStamp(), true);
  }

  lemma {:induction false} SortedReports(items: seq<Item>, c: Cell, entries: seq<Entry>, t: int, changed: seq<string>)
    requires ReportsSome(items, c, entries, t, changed, |changed|)
    ensures Reports(SortBy(items, ByItemStamp(), true), c, entries, t)
    ensures Ordered(SortBy(items, ByItemStamp(), true), [SortKey(ByItemStamp(), true)])
  {
    var keys := [SortKey(ByItemStamp(), true)];
    assert changed[..|changed|] == changed;
    SortByOrdered(items, keys);
    SortElements(items, ByItemStamp(), true);
    PermutationKeepsDistinct(items, SortBy(items, ByItemStamp(), true), (x: Item) => x.id);
    forall x ensures x in SortBy(items, ByItemStamp(), true) <==> x in items {
      SameElements(SortBy(items, ByItemStamp(), true), items, x);
    }
  }

  // ---------- The snapshot is the collection at that time ----------

  lemma {:induction false} LastBeforeIsOld(slots: seq<Slot>, t: int)
    ensures var s := LastBefore(slots, t); !s.Absent? ==> StampOf(s) <= t
  {
    if slots != [] { LastBeforeIsOld(slots[..|slots| - 1], t); }
  }

  lemma {:induction false} ReportedIsTheState(ops: seq<Op>, entries: seq<Entry>, id: string, t: int)
    requires AllClockChosen(ops) && FullHistory(entries, ops) && t >= 0
    ensures Reported(Run(EMPTY_CELL, ops), entries, id, t) == Expected(ops, id, t)
  {
    LastChangeIsTheState(EMPTY_CELL, ops, id, t);
    OldSlotIsTheState(EMPTY_CELL, ops, id, t);
    LastBeforeIsOld(Changes(EMPTY_CELL, ops, id), t);
    assert TargetsOf(Select(entries, OfRecord(id))) == Changes(EMPTY_CELL, ops, id);
    AtTimeIsOld(EMPTY_CELL, ops, id, t);
  }

  lemma {:induction false} AtTimeIsOld(c: Cell, ops: seq<Op>, id: string, t: int)
    requires Inv(c) && Clock(c) <= t
    ensures var s := SlotOf(AtTime(c, ops, t), id); !s.Absent? ==> StampOf(s) <= t
    decreases ops
  {
    if ops != [] && Clock(Apply(c, ops[0])) <= t {
      StepKeepsInv(c, ops[0]);
      AtTimeIsOld(Apply(c, ops[0]), ops[1..], id, t);
    }
  }

  /** The live records among the items are those of a cell. */
  ghost predicate HoldsRecordsOf(items: seq<Item>, at: Cell) {
    forall id, v :: Item(id, Live(v)) in items <==> id in at.live && at.live[id] == v
  }

  /** Main result: over every run of clock-chosen writes with a full history, the live
      records of a snapshot are exactly the records of the collection at `t`.  Its other
      items are the tombstones of records that were dead at `t` and have changed since. */
  lemma {:induction false} SnapshotIsTheCollection(ops: seq<Op>, entries: seq<Entry>, t: int, items: seq<Item>)
    requires AllClockChosen(ops) && FullHistory(entries, ops) && t >= 0
    requires Reports(items, Run(EMPTY_CELL, ops), entries, t)
    ensures var at := AtTime(EMPTY_CELL, ops, t);
            && HoldsRecordsOf(items, at)
            && (forall id, s :: Item(id, Dead(s)) in items <==>
                  SlotOf(at, id) == Dead(s) && SlotOf(Run(EMPTY_CELL, ops), id) != Dead(s))
  {
    forall id, s ensures Item(id, s) in items <==>
        var past := SlotOf(AtTime(EMPTY_CELL, ops, t), id);
        s != Absent && s == past && !(s.Dead? && SlotOf(Run(EMPTY_CELL, ops), id) == s)
    {
      ReportedIsTheState(ops, entries, id, t);
    }
  }

  // ---------- The exact condition on the history ----------

  /** The history holds the changes of each record, in some order. */
  ghost predicate HoldsChanges(entries: seq<Entry>, ops: seq<Op>) {
    forall id :: multiset(TargetsOf(Select(entries, OfRecord(id)))) == multiset(Changes(EMPTY_CELL, ops, id))
  }

  /** What a snapshot at `t` should say of an id: its state then, except that a tombstone that
      is still there is not listed. */
  function Expected(ops: seq<Op>, id: string, t: int): Slot {
    var past := SlotOf(AtTime(EMPTY_CELL, ops, t), id);
    if past.Dead? && SlotOf(Run(EMPTY_CELL, ops), id) == past then Absent else past
  }

  function OtherThan(s: Slot): Slot -> bool {
    (x: Slot) => x != s
  }

  /** The entries of a record are in the order of its changes, its current state aside. */
  predicate OldEntriesInOrder(entries: seq<Entry>, ops: seq<Op>, id: string) {
    var current := SlotOf(Run(EMPTY_CELL, ops), id);
    Select(TargetsOf(Select(entries, OfRecord(id))), OtherThan(current))
    == Select(Changes(EMPTY_CELL, ops, id), OtherThan(current))
  }

  /** Stamps increase, and lie after `t`. */
  predicate Rising(slots: seq<Slot>, t: int) {
    && (forall i :: 0 <= i < |slots| ==> !slots[i].Absent? && StampOf(slots[i]) > t)
    && (forall i, j :: 0 <= i < j < |slots| ==> StampOf(slots[i]) < StampOf(slots[j]))
  }

  lemma RisingFirst(s: Slot, rest: seq<Slot>, t: int)
    requires !s.Absent? && t < StampOf(s) && Rising(rest, StampOf(s))
    ensures Rising([s] + rest, t) && forall u :: LastOr([s] + rest, u) == LastOr(rest, s)
  {
  }

  function LastOr(slots: seq<Slot>, s: Slot): Slot {
    if slots == [] then s else slots[|slots| - 1]
  }

  lemma {:induction false} ChangesRise(c: Cell, ops: seq<Op>, id: string)
    requires Inv(c) && AllClockChosen(ops)
    ensures Rising(Changes(c, ops, id), Clock(c))
    ensures SlotOf(Run(c, ops), id) == LastOr(Changes(c, ops, id), SlotOf(c, id))
    decreases ops
  {
    if ops != [] {
      var c' := Apply(c, ops[0]);
      StepKeepsInv(c, ops[0]);
      WriteIsNewest(c, ops[0]);
      forall i | 0 <= i < |ops[1..]| ensures ClockChosen(ops[1..][i]) { assert ops[1..][i] == ops[i + 1]; }
      ChangesRise(c', ops[1..], id);
      var rest := Changes(c', ops[1..], id);
      if Writes(c, ops[0]) && ops[0].id == id {
        RisingFirst(SlotOf(c', id), rest, Clock(c));
        assert Changes(c, ops, id) == [SlotOf(c', id)] + rest;
      } else {
        assert Changes(c, ops, id) == rest;
      }
    }
  }

  /** A slot that is newer than `t` does not matter at `t`. */
  lemma {:induction false} LastBeforeSkips(slots: seq<Slot>, s: Slot, t: int)
    requires !s.Absent? && StampOf(s) > t
    ensures LastBefore(Select(slots, OtherThan(s)), t) == LastBefore(slots, t)
  {
    if slots != [] {
      var n := |slots| - 1;
      LastBeforeSkips(slots[..n], s, t);
      assert slots == slots[..n] + [slots[n]];
      SelectAppend(slots[..n], [slots[n]], OtherThan(s));
      assert Select([slots[n]], OtherThan(s)) == (if slots[n] != s then [slots[n]] else []) + Select([], OtherThan(s));
      var older := Select(slots[..n], OtherThan(s));
      if slots[n] != s { assert (older + [slots[n]])[..|older|] == older; } else { assert older + [] == older; }
    }
  }

  /** The last slot is the same before every time up to `end`. */
  ghost predicate SameUpTo(s: seq<Slot>, t: seq<Slot>, end: int) {
    forall at :: 0 <= at < end ==> LastBefore(s, at) == LastBefore(t, at)
  }

  predicate AllBelow(slots: seq<Slot>, end: int) {
    forall i :: 0 <= i < |slots| ==> !slots[i].Absent? && StampOf(slots[i]) < end
  }

  lemma RisingButLast(rising: seq<Slot>)
    requires rising != [] && Rising(rising, 0)
    ensures var n := |rising| - 1; Rising(rising[..n], 0) && AllBelow(rising[..n], StampOf(rising[n]))
  {
  }

  lemma SameButLast(s: seq<Slot>, t: seq<Slot>, end: int)
    requires s != [] && t != [] && s[|s| - 1] == t[|t| - 1] && SameUpTo(s, t, end)
    requires var newest := t[|t| - 1]; !newest.Absent? && StampOf(newest) < end
    ensures SameUpTo(s[..|s| - 1], t[..|t| - 1], StampOf(t[|t| - 1]))
  {
    var s', t' := s[..|s| - 1], t[..|t| - 1];
    forall at | 0 <= at < StampOf(t[|t| - 1]) ensures LastBefore(s', at) == LastBefore(t', at) {
      assert LastBefore(s, at) == LastBefore(t, at);
    }
  }

  /** If the last slot before every time is the newest, the slots are in order. */
  lemma {:induction false} OrderShows(slots: seq<Slot>, rising: seq<Slot>, end: int)
    requires multiset(slots) == multiset(rising) && Rising(rising, 0) && AllBelow(rising, end)
    requires SameUpTo(slots, rising, end)
    ensures slots == rising
  {
    assert |slots| == |multiset(slots)| == |multiset(rising)| == |rising|;
    if rising != [] {
      var n := |rising| - 1;
      NewestIsLast(slots, rising, end);
      LastApart(slots);
      LastApart(rising);
      RisingButLast(rising);
      SameButLast(slots, rising, end);
      OrderShows(slots[..n], rising[..n], StampOf(rising[n]));
    }
  }

  lemma NewestIsLast(slots: seq<Slot>, rising: seq<Slot>, end: int)
    requires |slots| == |rising| > 0 && multiset(slots) == multiset(rising) && Rising(rising, 0)
    requires AllBelow(rising, end) && SameUpTo(slots, rising, end)
    ensures slots[|rising| - 1] == rising[|rising| - 1]
  {
    var n := |rising| - 1;
    SameElements(slots, rising, slots[n]);
    assert slots[n] in slots;
    var i :| 0 <= i < |rising| && rising[i] == slots[n];
    assert LastBefore(rising, StampOf(rising[n])) == rising[n];
    assert LastBefore(slots, StampOf(rising[n])) == slots[n];
  }

  lemma {:induction false} SelectPermutes<T>(s: seq<T>, p: T -> bool, x: T)
    ensures multiset(Select(s, p))[x] == if p(x) then multiset(s)[x] else 0
  {
    if s != [] {
      SelectPermutes(s[1..], p, x);
      assert s == [s[0]] + s[1..];
    }
  }

  /** While the current state is newer than `t`, the report is the last entry before `t`. */
  lemma {:induction false} ReportedBeforeCurrent(ops: seq<Op>, entries: seq<Entry>, id: string, t: int)
    requires AllClockChosen(ops) && 0 <= t
    ensures var current := SlotOf(Run(EMPTY_CELL, ops), id);
            if !current.Absent? && t < StampOf(current) then
              && Reported(Run(EMPTY_CELL, ops), entries, id, t)
                 == LastBefore(Select(TargetsOf(Select(entries, OfRecord(id))), OtherThan(current)), t)
              && Expected(ops, id, t) == LastBefore(Select(Changes(EMPTY_CELL, ops, id), OtherThan(current)), t)
            else Reported(Run(EMPTY_CELL, ops), entries, id, t) == Expected(ops, id, t)
  {
    var current, changes := SlotOf(Run(EMPTY_CELL, ops), id), Changes(EMPTY_CELL, ops, id);
    ChangesRise(EMPTY_CELL, ops, id);
    LastChangeIsTheState(EMPTY_CELL, ops, id, t);
    LastBeforeIsOld(changes, t);
    if !current.Absent? && t < StampOf(current) {
      LastBeforeSkips(TargetsOf(Select(entries, OfRecord(id))), current, t);
      LastBeforeSkips(changes, current, t);
    }
  }

  /** Every snapshot is right about the id. */
  ghost predicate AlwaysRight(ops: seq<Op>, entries: seq<Entry>, id: string) {
    forall t :: 0 <= t ==> Reported(Run(EMPTY_CELL, ops), entries, id, t) == Expected(ops, id, t)
  }

  lemma {:induction false} InOrderIsRight(ops: seq<Op>, entries: seq<Entry>, id: string)
    requires AllClockChosen(ops) && OldEntriesInOrder(entries, ops, id)
    ensures AlwaysRight(ops, entries, id)
  {
    forall t | 0 <= t ensures Reported(Run(EMPTY_CELL, ops), entries, id, t) == Expected(ops, id, t) {
      ReportedBeforeCurrent(ops, entries, id, t);
    }
  }

  lemma {:induction false} RightIsInOrder(ops: seq<Op>, entries: seq<Entry>, id: string)
    requires AllClockChosen(ops) && HoldsChanges(entries, ops) && AlwaysRight(ops, entries, id)
    ensures OldEntriesInOrder(entries, ops, id)
  {
    var current, changes := SlotOf(Run(EMPTY_CELL, ops), id), Changes(EMPTY_CELL, ops, id);
    var targets := TargetsOf(Select(entries, OfRecord(id)));
    var slots, rising := Select(targets, OtherThan(current)), Select(changes, OtherThan(current));
    ChangesRise(EMPTY_CELL, ops, id);
    OldOnesRise(changes);
    SamePermutation(targets, changes, OtherThan(current));
    if changes == [] {
      assert |targets| == |multiset(targets)| == 0;
    } else {
      forall t | 0 <= t < StampOf(current) ensures LastBefore(slots, t) == LastBefore(rising, t) {
        ReportedBeforeCurrent(ops, entries, id, t);
        assert Reported(Run(EMPTY_CELL, ops), entries, id, t) == Expected(ops, id, t);
      }
      OrderShows(slots, rising, StampOf(current));
    }
  }

  lemma {:induction false} SamePermutation(s: seq<Slot>, t: seq<Slot>, p: Slot -> bool)
    requires multiset(s) == multiset(t)
    ensures multiset(Select(s, p)) == multiset(Select(t, p))
  {
    forall x ensures multiset(Select(s, p))[x] == multiset(Select(t, p))[x] {
      SelectPermutes(s, p, x);
      SelectPermutes(t, p, x);
    }
  }

  /** All but the last of rising slots. */
  lemma {:induction false} OldOnesRise(changes: seq<Slot>)
    requires Rising(changes, 0)
    ensures changes != [] ==>
              var n := |changes| - 1;
              var older := Select(changes, OtherThan(changes[n]));
              Rising(older, 0) && AllBelow(older, StampOf(changes[n]))
  {
    if changes != [] {
      var n := |changes| - 1;
      var other := OtherThan(changes[n]);
      LastApart(changes);
      RisingButLast(changes);
      SelectAppend(changes[..n], [changes[n]], other);
      SelectAllBelow(changes[..n], changes[n]);
      assert Select([changes[n]], other) == [] + Select([], other);
    }
  }

  lemma {:induction false} SelectAllBelow(slots: seq<Slot>, s: Slot)
    requires !s.Absent? && AllBelow(slots, StampOf(s))
    ensures Select(slots, OtherThan(s)) == slots
  {
    SelectAll(slots, OtherThan(s));
  }

  /** Main result, over every run of clock-chosen writes: all snapshots of it are right exactly
      when the entries of every record are in the order of its changes, current states aside. */
  lemma {:induction false} SnapshotsAreRightIff(ops: seq<Op>, entries: seq<Entry>)
    requires AllClockChosen(ops) && HoldsChanges(entries, ops)
    ensures (forall id :: AlwaysRight(ops, entries, id)) <==> (forall id :: OldEntriesInOrder(entries, ops, id))
  {
    forall id ensures AlwaysRight(ops, entries, id) <==> OldEntriesInOrder(entries, ops, id) {
      if AlwaysRight(ops, entries, id) { RightIsInOrder(ops, entries, id); }
      if OldEntriesInOrder(entries, ops, id) { InOrderIsRight(ops, entries, id); }
    }
  }

  /** The whole chain: requests change each record at most once and the listener records each
      change; then a snapshot holds the collection as it was. */
  lemma {:induction false} SnapshotOfRun(requests: seq<seq<Op>>, added: seq<seq<Entry>>, t: int, items: seq<Item>)
    requires AllClockChosen(Paging.Flatten(requests)) && RecordsRun(requests, added) && t >= 0
    requires Reports(items, Run(EMPTY_CELL, Paging.Flatten(requests)), Paging.Flatten(added), t)
    ensures HoldsRecordsOf(items, AtTime(EMPTY_CELL, Paging.Flatten(requests), t))
  {
    RunsKeepHistoryFull(requests, added);
    SnapshotIsTheCollection(Paging.Flatten(requests), Paging.Flatten(added), t, items);
  }
}
