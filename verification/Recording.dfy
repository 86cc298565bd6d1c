/** From record writes to a snapshot: the events of each request reach the history listener,
    and the snapshot is rebuilt from what it recorded. */
module Recording {
  import opened Options
  import opened Json
  import opened Collections
  import opened Sorting
  import opened Storage
  import opened History
  import opened Snapshot
  import Events
  import Replay
  import Condense
  import Paging

  /** A deployment that records everything: nobody and nothing is excluded, permissions are
      explicit, nothing is trimmed. */
  predicate RecordsAll(st: Settings, user: string) {
    && st.explicitPermissions && st.excludedResources == [] && user !in st.excludedUsers && !Trims(st, user)
  }

  // ---------- Events of a request ----------

  function RecordUri(collectionUri: string, id: string): string {
    collectionUri + "/records/" + id
  }

  /** A record is one level below its collection. */
  lemma {:induction false} RecordIsBelow(collectionUri: string, id: string)
    requires SlashFree(id)
    ensures Condense.ParentUri(RecordUri(collectionUri, id)) == collectionUri
  {
    Condense.ParentOfChild(collectionUri, "records", id);
    assert collectionUri + "/" + "records" + "/" + id == RecordUri(collectionUri, id);
  }

  function ActionOf(c: Cell, op: Op): Events.Action {
    if op.Delete? then Events.DELETE
    else if !op.ReadClock? && op.id in c.live then Events.UPDATE
    else Events.CREATE
  }

  /** The changes of a request, with what their events are merged by. */
  function StepsOf(c: Cell, ops: seq<Op>, collectionUri: string): seq<Replay.Step<Impacted>>
    decreases ops
  {
    if ops == [] then []
    else
      var c' := Apply(c, ops[0]);
      (if Writes(c, ops[0]) then
         [Replay.Step(Events.Group("record", collectionUri, ActionOf(c, ops[0])),
                      Impacted(RecordUri(collectionUri, ops[0].id), ops[0].id, SlotOf(c', ops[0].id)))]
       else [])
      + StepsOf(c', ops[1..], collectionUri)
  }

  function Pair(x: Impacted): (string, Slot) {
    (x.id, x.target)
  }

  function PairsIn(s: seq<Impacted>): seq<(string, Slot)> {
    if s == [] then [] else [Pair(s[0])] + PairsIn(s[1..])
  }

  lemma {:induction false} StepsAreDeserved(c: Cell, ops: seq<Op>, collectionUri: string)
    ensures PairsIn(Replay.Items(StepsOf(c, ops, collectionUri))) == Deserved(c, ops)
    decreases ops
  {
    if ops != [] {
      var c' := Apply(c, ops[0]);
      StepsAreDeserved(c', ops[1..], collectionUri);
      var steps, rest := StepsOf(c, ops, collectionUri), StepsOf(c', ops[1..], collectionUri);
      if Writes(c, ops[0]) {
        Replay.ItemsAppend([steps[0]], rest);
        assert Replay.Items([steps[0]]) == [steps[0].item];
        PairsAppend([steps[0].item], Replay.Items(rest));
        assert PairsIn([steps[0].item]) == [Pair(steps[0].item)] + PairsIn([]);
      } else {
        assert steps == rest;
      }
    }
  }

  // ---------- The order of the entries ----------

  function OfId(id: string): Replay.Step<Impacted> -> bool {
    (s: Replay.Step<Impacted>) => s.item.id == id
  }

  function TargetsIn(steps: seq<Replay.Step<Impacted>>): seq<Slot> {
    seq(|steps|, i requires 0 <= i < |steps| => steps[i].item.target)
  }

  lemma {:induction false} ForIsSelected(steps: seq<Replay.Step<Impacted>>, id: string)
    ensures For(PairsIn(Replay.Items(steps)), id) == TargetsIn(Select(steps, OfId(id)))
  {
    if steps != [] {
      var s, rest := steps[0], steps[1..];
      ForIsSelected(rest, id);
      assert steps == [s] + rest;
      Replay.ItemsAppend([s], rest);
      assert Replay.Items([s]) == [s.item];
      var items := Replay.Items(rest);
      assert PairsIn([s.item] + items) == [Pair(s.item)] + PairsIn(items) by {
        assert ([s.item] + items)[1..] == items;
      }
      assert ([Pair(s.item)] + PairsIn(items))[1..] == PairsIn(items);
    }
  }

  /** What the listener records of a request, in order. */
  function Recorded(c: Cell, request: seq<Op>, collectionUri: string): seq<(string, Slot)> {
    PairsIn(Replay.Replayed(StepsOf(c, request, collectionUri)))
  }

  /** None of the changes of the record follows one by an action that the request first takes
      later on. */
  predicate RecordInOrder(c: Cell, request: seq<Op>, collectionUri: string, id: string) {
    var steps := StepsOf(c, request, collectionUri);
    Replay.InOrder(Select(steps, OfId(id)), Replay.FirstSeen(steps))
  }

  ghost predicate RequestInOrder(c: Cell, request: seq<Op>, collectionUri: string) {
    forall id :: RecordInOrder(c, request, collectionUri, id)
  }

  lemma {:induction false} RecordedAndChanges(c: Cell, request: seq<Op>, collectionUri: string, id: string)
    ensures var steps := StepsOf(c, request, collectionUri);
            && For(Recorded(c, request, collectionUri), id)
               == TargetsIn(Select(Replay.ByFirstSeen(steps), OfId(id)))
            && Changes(c, request, id) == TargetsIn(Select(steps, OfId(id)))
  {
    var steps := StepsOf(c, request, collectionUri);
    Replay.ReplayedIsStableSort(steps);
    ForIsSelected(Replay.ByFirstSeen(steps), id);
    ForIsSelected(steps, id);
    StepsAreDeserved(c, request, collectionUri);
    DeservedAreChanges(c, request, id);
  }

  predicate Newer(s: seq<Replay.Step<Impacted>>, t: int) {
    && (forall i :: 0 <= i < |s| ==> !s[i].item.target.Absent? && StampOf(s[i].item.target) > t)
    && (forall i, j :: 0 <= i < j < |s| ==> StampOf(s[i].item.target) < StampOf(s[j].item.target))
  }

  /** The changes of a request bear increasing stamps. */
  lemma {:induction false} StepsAreNewer(c: Cell, ops: seq<Op>, collectionUri: string)
    requires Inv(c) && AllClockChosen(ops)
    ensures Newer(StepsOf(c, ops, collectionUri), Clock(c))
    decreases ops
  {
    if ops != [] {
      var c' := Apply(c, ops[0]);
      StepKeepsInv(c, ops[0]);
      WriteIsNewest(c, ops[0]);
      forall i | 0 <= i < |ops[1..]| ensures ClockChosen(ops[1..][i]) { assert ops[1..][i] == ops[i + 1]; }
      StepsAreNewer(c', ops[1..], collectionUri);
      var s, rest := StepsOf(c, ops, collectionUri), StepsOf(c', ops[1..], collectionUri);
      if Writes(c, ops[0]) { NewerFirst(s[0], rest, Clock(c), Clock(c')); } else { assert s == rest; }
    }
  }

  lemma NewerFirst(s: Replay.Step<Impacted>, rest: seq<Replay.Step<Impacted>>, t: int, now: int)
    requires !s.item.target.Absent? && t < StampOf(s.item.target) == now && Newer(rest, now)
    ensures Newer([s] + rest, t)
  {
  }

  lemma {:induction false} EqualTargetsEqualSteps(s: seq<Replay.Step<Impacted>>, t: seq<Replay.Step<Impacted>>)
    requires TargetsIn(s) == TargetsIn(t)
    requires forall x, y :: x in s && y in t && x.item.target == y.item.target ==> x == y
    ensures s == t
  {
    assert |s| == |TargetsIn(s)| == |TargetsIn(t)| == |t|;
    forall i | 0 <= i < |s| ensures s[i] == t[i] {
      assert TargetsIn(s)[i] == TargetsIn(t)[i];
      assert s[i] in s && t[i] in t;
    }
  }

  /** The entries of a record are its changes in order exactly when the record is in order. */
  lemma {:induction false} RecordedInOrder(c: Cell, request: seq<Op>, collectionUri: string, id: string)
    ensures RecordInOrder(c, request, collectionUri, id) ==>
              For(Recorded(c, request, collectionUri), id) == Changes(c, request, id)
    ensures Inv(c) && AllClockChosen(request) && !RecordInOrder(c, request, collectionUri, id) ==>
              For(Recorded(c, request, collectionUri), id) != Changes(c, request, id)
  {
    var steps := StepsOf(c, request, collectionUri);
    var sorted := Replay.ByFirstSeen(steps);
    RecordedAndChanges(c, request, collectionUri, id);
    Replay.KeepsOrderIff(steps, OfId(id));
    var s, t := Select(sorted, OfId(id)), Select(steps, OfId(id));
    if Inv(c) && AllClockChosen(request) && TargetsIn(s) == TargetsIn(t) {
      StepsAreNewer(c, request, collectionUri);
      forall x, y | x in s && y in t && x.item.target == y.item.target ensures x == y {
        SelectIn(sorted, OfId(id), x);
        SelectIn(steps, OfId(id), y);
        SortElements(steps, Replay.ByRank(Replay.FirstSeen(steps)), false);
        SameElements(sorted, steps, x);
        var i :| 0 <= i < |steps| && steps[i] == x;
        var j :| 0 <= j < |steps| && steps[j] == y;
      }
      EqualTargetsEqualSteps(s, t);
    }
  }

  lemma {:induction false} PairsAppend(s: seq<Impacted>, t: seq<Impacted>)
    ensures PairsIn(s + t) == PairsIn(s) + PairsIn(t)
  {
    if s == [] {
      assert s + t == t;
    } else {
      assert (s + t)[0] == s[0] && (s + t)[1..] == s[1..] + t;
      PairsAppend(s[1..], t);
    }
  }

  lemma {:induction false} EntriesAppend(s: seq<Entry>, t: seq<Entry>)
    ensures PairsOf(s + t) == PairsOf(s) + PairsOf(t)
  {
    if s == [] {
      assert s + t == t;
    } else {
      assert (s + t)[0] == s[0] && (s + t)[1..] == s[1..] + t;
      EntriesAppend(s[1..], t);
    }
  }

  /** Entries written one for one. */
  ghost predicate WrittenFor(added: seq<Entry>, impacted: seq<Impacted>) {
    |added| == |impacted| &&
    forall i :: 0 <= i < |added| ==> added[i].resource == "record" && added[i].id == impacted[i].id
                                     && added[i].target == impacted[i].target
  }

  lemma {:induction false} WrittenPairs(added: seq<Entry>, impacted: seq<Impacted>)
    requires WrittenFor(added, impacted)
    ensures PairsOf(added) == PairsIn(impacted)
  {
    if added != [] {
      assert forall i :: 0 <= i < |added[1..]| ==> added[1..][i] == added[i + 1] && impacted[1..][i] == impacted[i + 1];
      WrittenPairs(added[1..], impacted[1..]);
    }
  }

  // ---------- The listener over a request ----------

  /** One event. */
  method RecordEvent(h: HistoryStore, st: Settings, user: string, bucketUri: string, collectionUri: string,
                     impacted: seq<Impacted>, now: int)
    returns (ghost added: seq<Entry>)
    requires h.Valid() && Window(st, h.entries, h.created) && RecordsAll(st, user)
    modifies h
    ensures h.Valid() && Window(st, h.entries, h.created)
    ensures h.entries == old(h.entries) + added && WrittenFor(added, impacted)
  {
    ghost var was := h.created;
    AllAreTargets(st, user, bucketUri, collectionUri, impacted);
    h.OnResourceChanged(st, "record", user, bucketUri, Some(collectionUri), impacted, now);
    added := h.created[|was|..];
    forall i | 0 <= i < |added|
      ensures added[i].resource == "record" && added[i].id == impacted[i].id && added[i].target == impacted[i].target
    {
      assert Targets(st, user, bucketUri, Some(collectionUri), impacted)[i] == impacted[i];
      assert added[i] == h.created[|was| + i];
    }
  }

  lemma AllAreTargets(st: Settings, user: string, bucketUri: string, collectionUri: string, impacted: seq<Impacted>)
    requires RecordsAll(st, user)
    ensures Targets(st, user, bucketUri, Some(collectionUri), impacted) == impacted
  {
    SelectAll(impacted, Included(st, bucketUri, Some(collectionUri)));
  }

  lemma {:induction false} OneMoreEvent(events: seq<Events.Event<Impacted>>, i: nat, added: seq<Entry>,
                                        more: seq<Entry>)
    requires i < |events| && WrittenFor(more, events[i].impacted)
    requires PairsOf(added) == PairsIn(Events.Everything(events[..i]))
    requires forall e :: e in added ==> e.resource == "record"
    ensures PairsOf(added + more) == PairsIn(Events.Everything(events[..i + 1]))
    ensures forall e :: e in added + more ==> e.resource == "record"
  {
    WrittenPairs(more, events[i].impacted);
    EntriesAppend(added, more);
    PrefixStep(events, i);
    Events.EverythingGrows(events[..i], events[i]);
    PairsAppend(Events.Everything(events[..i]), events[i].impacted);
  }

  /** The events of one request, in their order. */
  method RecordRequest(h: HistoryStore, st: Settings, user: string, bucketUri: string, collectionUri: string,
                       c: Cell, request: seq<Op>, now: int)
    returns (ghost added: seq<Entry>)
    requires h.Valid() && Window(st, h.entries, h.created) && RecordsAll(st, user)
    modifies h
    ensures h.Valid() && Window(st, h.entries, h.created)
    ensures h.entries == old(h.entries) + added && forall e :: e in added ==> e.resource == "record"
    ensures PairsOf(added) == Recorded(c, request, collectionUri)
  {
    var events := Replay.EventsOf(StepsOf(c, request, collectionUri));
    added := [];
    for i := 0 to |events|
      invariant h.Valid() && Window(st, h.entries, h.created) && h.entries == old(h.entries) + added
      invariant forall e :: e in added ==> e.resource == "record"
      invariant PairsOf(added) == PairsIn(Events.Everything(events[..i]))
    {
      ghost var more := RecordEvent(h, st, user, bucketUri, collectionUri, events[i].impacted, now);
      OneMoreEvent(events, i, added, more);
      Events.Associates(old(h.entries), added, more);
      added := added + more;
    }
    WholePrefix(events);
  }

  /** The state in which a request of a run is served. */
  function Before(requests: seq<seq<Op>>, i: nat): Cell
    requires i <= |requests|
  {
    Run(EMPTY_CELL, Paging.Flatten(requests[..i]))
  }

  /** Each request has left its entries. */
  ghost predicate Listened(requests: seq<seq<Op>>, added: seq<seq<Entry>>, collectionUri: string) {
    |added| == |requests| &&
    forall i :: 0 <= i < |requests| ==> ListenedTo(Before(requests, i), requests[i], added[i], collectionUri)
  }

  ghost predicate ListenedTo(c: Cell, request: seq<Op>, added: seq<Entry>, collectionUri: string) {
    && (forall e :: e in added ==> e.resource == "record")
    && PairsOf(added) == Recorded(c, request, collectionUri)
  }

  ghost predicate AllInOrder(requests: seq<seq<Op>>, collectionUri: string) {
    forall i :: 0 <= i < |requests| ==> RequestInOrder(Before(requests, i), requests[i], collectionUri)
  }

  lemma {:induction false} SameLengthFor(c: Cell, request: seq<Op>, collectionUri: string, id: string)
    ensures |For(Recorded(c, request, collectionUri), id)| == |Changes(c, request, id)|
  {
    var steps := StepsOf(c, request, collectionUri);
    RecordedAndChanges(c, request, collectionUri, id);
    SortByCount(steps, Replay.ByRank(Replay.FirstSeen(steps)), false, OfId(id));
  }

  lemma EqualParts<T>(s: seq<T>, t: seq<T>, s': seq<T>, t': seq<T>)
    requires |t| == |t'|
    ensures s + t == s' + t' <==> s == s' && t == t'
  {
    if s + t == s' + t' {
      assert |s| == |s'|;
      assert s == (s + t)[..|s|] && t == (s + t)[|s|..];
      assert s' == (s' + t')[..|s|] && t' == (s' + t')[|s|..];
    }
  }

  /** What one more request adds to the entries of a record. */
  lemma {:induction false} TargetsMore(requests: seq<seq<Op>>, added: seq<seq<Entry>>, collectionUri: string, i: nat,
                                       id: string)
    requires i < |requests| && Listened(requests, added, collectionUri)
    ensures TargetsOf(Select(Paging.Flatten(added[..i + 1]), OfRecord(id)))
            == TargetsOf(Select(Paging.Flatten(added[..i]), OfRecord(id)))
               + For(Recorded(Before(requests, i), requests[i], collectionUri), id)
  {
    assert ListenedTo(Before(requests, i), requests[i], added[i], collectionUri);
    PrefixStep(added, i);
    Paging.FlattenMore(added[..i], added[i]);
    SelectAppend(Paging.Flatten(added[..i]), added[i], OfRecord(id));
    TargetsAppend(Select(Paging.Flatten(added[..i]), OfRecord(id)), Select(added[i], OfRecord(id)));
    TargetsArePairs(added[i], id);
  }

  /** What a run has recorded of a record, against its changes, when one more request is served. */
  lemma {:induction false} OneMoreRequest(entries: seq<Entry>, ops: seq<Op>, request: seq<Op>, added: seq<Entry>,
                                          collectionUri: string, id: string)
    requires ListenedTo(Run(EMPTY_CELL, ops), request, added, collectionUri)
    ensures TargetsOf(Select(entries + added, OfRecord(id))) == Changes(EMPTY_CELL, ops + request, id)
            <==> && TargetsOf(Select(entries, OfRecord(id))) == Changes(EMPTY_CELL, ops, id)
                 && For(Recorded(Run(EMPTY_CELL, ops), request, collectionUri), id)
                    == Changes(Run(EMPTY_CELL, ops), request, id)
  {
    SelectAppend(entries, added, OfRecord(id));
    TargetsAppend(Select(entries, OfRecord(id)), Select(added, OfRecord(id)));
    TargetsArePairs(added, id);
    ChangesAppend(EMPTY_CELL, ops, request, id);
    SameLengthFor(Run(EMPTY_CELL, ops), request, collectionUri, id);
    EqualParts(TargetsOf(Select(entries, OfRecord(id))), TargetsOf(Select(added, OfRecord(id))),
               Changes(EMPTY_CELL, ops, id), Changes(Run(EMPTY_CELL, ops), request, id));
  }

  lemma {:induction false} ListenedBefore(requests: seq<seq<Op>>, added: seq<seq<Entry>>, collectionUri: string,
                                          n: nat)
    requires |requests| == n + 1 && Listened(requests, added, collectionUri)
    ensures Listened(requests[..n], added[..n], collectionUri)
  {
    var before, left := requests[..n], added[..n];
    forall i | 0 <= i < n ensures ListenedTo(Before(before, i), before[i], left[i], collectionUri) {
      BeforePrefix(requests, n, i);
      assert ListenedTo(Before(requests, i), requests[i], added[i], collectionUri);
    }
  }

  lemma {:induction false} InOrderBefore(requests: seq<seq<Op>>, collectionUri: string, n: nat)
    requires |requests| == n + 1
    ensures AllInOrder(requests, collectionUri)
            <==> AllInOrder(requests[..n], collectionUri)
                 && RequestInOrder(Before(requests, n), requests[n], collectionUri)
  {
    var before := requests[..n];
    if AllInOrder(before, collectionUri) && RequestInOrder(Before(requests, n), requests[n], collectionUri) {
      forall i | 0 <= i <= n ensures RequestInOrder(Before(requests, i), requests[i], collectionUri) {
        if i < n { InOrderAt(requests, collectionUri, n, i); }
      }
    }
    if AllInOrder(requests, collectionUri) {
      forall i | 0 <= i < n ensures RequestInOrder(Before(before, i), before[i], collectionUri) {
        InOrderAt(requests, collectionUri, n, i);
      }
    }
  }

  lemma {:induction false} InOrderAt(requests: seq<seq<Op>>, collectionUri: string, n: nat, i: nat)
    requires i < n <= |requests|
    ensures RequestInOrder(Before(requests[..n], i), requests[..n][i], collectionUri)
            <==> RequestInOrder(Before(requests, i), requests[i], collectionUri)
  {
    BeforePrefix(requests, n, i);
  }

  lemma {:induction false} LastRequest(requests: seq<seq<Op>>, added: seq<seq<Entry>>, collectionUri: string, n: nat)
    requires |requests| == n + 1 && Listened(requests, added, collectionUri)
    ensures Paging.Flatten(requests) == Paging.Flatten(requests[..n]) + requests[n]
    ensures Paging.Flatten(added) == Paging.Flatten(added[..n]) + added[n]
    ensures ListenedTo(Run(EMPTY_CELL, Paging.Flatten(requests[..n])), requests[n], added[n], collectionUri)
  {
    assert ListenedTo(Before(requests, n), requests[n], added[n], collectionUri);
  }

  /** Main result, over every run of requests: the history that the listener leaves is full if,
      and when the clock chooses every stamp only if, every request is in order. */
  lemma {:induction false} FullIffInOrder(requests: seq<seq<Op>>, added: seq<seq<Entry>>, collectionUri: string)
    requires Listened(requests, added, collectionUri)
    ensures AllInOrder(requests, collectionUri) ==> FullHistory(Paging.Flatten(added), Paging.Flatten(requests))
    ensures AllClockChosen(Paging.Flatten(requests)) && FullHistory(Paging.Flatten(added), Paging.Flatten(requests))
            ==> AllInOrder(requests, collectionUri)
  {
    if requests != [] {
      var n := |requests| - 1;
      var entries, ops := Paging.Flatten(added[..n]), Paging.Flatten(requests[..n]);
      ListenedBefore(requests, added, collectionUri, n);
      InOrderBefore(requests, collectionUri, n);
      FullIffInOrder(requests[..n], added[..n], collectionUri);
      LastRequest(requests, added, collectionUri, n);
      FullStep(entries, ops, requests[n], added[n], Paging.Flatten(added), Paging.Flatten(requests), collectionUri);
    }
  }

  /** One more request keeps a history full, if (and with stamps of the clock only if) it is
      in order. */
  lemma {:induction false} FullStep(entries: seq<Entry>, ops: seq<Op>, request: seq<Op>, added: seq<Entry>,
                                    entries': seq<Entry>, ops': seq<Op>, collectionUri: string)
    requires ListenedTo(Run(EMPTY_CELL, ops), request, added, collectionUri)
    requires entries' == entries + added && ops' == ops + request
    ensures FullHistory(entries, ops) && RequestInOrder(Run(EMPTY_CELL, ops), request, collectionUri) ==>
              FullHistory(entries', ops')
    ensures AllClockChosen(ops') && FullHistory(entries', ops') ==>
              AllClockChosen(ops) && FullHistory(entries, ops)
              && RequestInOrder(Run(EMPTY_CELL, ops), request, collectionUri)
  {
    var c := Run(EMPTY_CELL, ops);
    RunKeepsInv(EMPTY_CELL, ops);
    if FullHistory(entries, ops) && RequestInOrder(c, request, collectionUri) {
      forall id ensures TargetsOf(Select(entries', OfRecord(id))) == Changes(EMPTY_CELL, ops', id) {
        OneMoreRequest(entries, ops, request, added, collectionUri, id);
        RecordedInOrder(c, request, collectionUri, id);
        assert RecordInOrder(c, request, collectionUri, id);
      }
    }
    if AllClockChosen(ops') && FullHistory(entries', ops') {
      ClockChosenParts(ops, request);
      forall id
        ensures RecordInOrder(c, request, collectionUri, id)
                && TargetsOf(Select(entries, OfRecord(id))) == Changes(EMPTY_CELL, ops, id)
      {
        OneMoreRequest(entries, ops, request, added, collectionUri, id);
        RecordedInOrder(c, request, collectionUri, id);
      }
    }
  }

  lemma ClockChosenParts(ops: seq<Op>, more: seq<Op>)
    requires AllClockChosen(ops + more)
    ensures AllClockChosen(ops) && AllClockChosen(more)
  {
    forall i | 0 <= i < |ops| ensures ClockChosen(ops[i]) { assert (ops + more)[i] == ops[i]; }
    forall i | 0 <= i < |more| ensures ClockChosen(more[i]) { assert (ops + more)[|ops| + i] == more[i]; }
  }

  /** A request that changes each record at most once is in order. */
  lemma {:induction false} AtMostOnceIsInOrder(c: Cell, request: seq<Op>, collectionUri: string)
    requires DistinctIds(request)
    ensures RequestInOrder(c, request, collectionUri)
  {
    var steps := StepsOf(c, request, collectionUri);
    forall id ensures RecordInOrder(c, request, collectionUri, id) {
      DeservedDistinct(c, request);
      StepsAreDeserved(c, request, collectionUri);
      AtMostOneFor(Deserved(c, request), id);
      ForIsSelected(steps, id);
      assert |Select(steps, OfId(id))| == |TargetsIn(Select(steps, OfId(id)))|;
    }
  }

  lemma {:induction false} AtMostOneFor(pairs: seq<(string, Slot)>, id: string)
    requires DistinctFirst(pairs)
    ensures |For(pairs, id)| <= 1
  {
    if s :| (id, s) in pairs {
      ForDistinct(pairs, id, s);
    } else {
      forall x | x in pairs ensures x.0 != id { assert x == (x.0, x.1); }
      ForDistinct(pairs, id, Absent);
    }
  }

  function HasTarget(x: Slot): Replay.Step<Impacted> -> bool {
    (s: Replay.Step<Impacted>) => s.item.target == x
  }

  lemma {:induction false} CountTargets(steps: seq<Replay.Step<Impacted>>, x: Slot)
    ensures multiset(TargetsIn(steps))[x] == |Select(steps, HasTarget(x))|
  {
    if steps != [] {
      CountTargets(steps[1..], x);
      assert TargetsIn(steps) == [steps[0].item.target] + TargetsIn(steps[1..]);
    }
  }

  /** Whatever their order, the entries that a request leaves of a record are its changes. */
  lemma {:induction false} RecordedArePermuted(c: Cell, request: seq<Op>, collectionUri: string, id: string)
    ensures multiset(For(Recorded(c, request, collectionUri), id)) == multiset(Changes(c, request, id))
  {
    var steps := StepsOf(c, request, collectionUri);
    var sorted := Replay.ByFirstSeen(steps);
    RecordedAndChanges(c, request, collectionUri, id);
    forall x
      ensures multiset(TargetsIn(Select(sorted, OfId(id))))[x] == multiset(TargetsIn(Select(steps, OfId(id))))[x]
    {
      CountTargets(Select(sorted, OfId(id)), x);
      CountTargets(Select(steps, OfId(id)), x);
      SelectTwice(sorted, OfId(id), HasTarget(x));
      SelectTwice(steps, OfId(id), HasTarget(x));
      SortByCount(steps, Replay.ByRank(Replay.FirstSeen(steps)), false, Both(OfId(id), HasTarget(x)));
    }
  }

  /** In any case the history holds every change. */
  lemma {:induction false} ListenedHoldsChanges(requests: seq<seq<Op>>, added: seq<seq<Entry>>, collectionUri: string)
    requires Listened(requests, added, collectionUri)
    ensures HoldsChanges(Paging.Flatten(added), Paging.Flatten(requests))
  {
    if requests != [] {
      var n := |requests| - 1;
      var entries, ops := Paging.Flatten(added[..n]), Paging.Flatten(requests[..n]);
      ListenedBefore(requests, added, collectionUri, n);
      ListenedHoldsChanges(requests[..n], added[..n], collectionUri);
      LastRequest(requests, added, collectionUri, n);
      forall id ensures multiset(TargetsOf(Select(Paging.Flatten(added), OfRecord(id))))
                        == multiset(Changes(EMPTY_CELL, Paging.Flatten(requests), id))
      {
        ChangesHeld(entries, ops, requests[n], added[n], collectionUri, id);
      }
    }
  }

  lemma {:induction false} ChangesHeld(entries: seq<Entry>, ops: seq<Op>, request: seq<Op>, added: seq<Entry>,
                                       collectionUri: string, id: string)
    requires ListenedTo(Run(EMPTY_CELL, ops), request, added, collectionUri) && HoldsChanges(entries, ops)
    ensures multiset(TargetsOf(Select(entries + added, OfRecord(id))))
            == multiset(Changes(EMPTY_CELL, ops + request, id))
  {
    var c := Run(EMPTY_CELL, ops);
    SelectAppend(entries, added, OfRecord(id));
    TargetsAppend(Select(entries, OfRecord(id)), Select(added, OfRecord(id)));
    TargetsArePairs(added, id);
    ChangesAppend(EMPTY_CELL, ops, request, id);
    RecordedArePermuted(c, request, collectionUri, id);
  }

  /** Main result: over every run of requests in which the clock chooses the stamps, whatever
      they change and how often, all snapshots are right exactly when the entries of every
      record are in the order of its changes, current states aside. */
  lemma {:induction false} SnapshotsOfRunAreRightIff(requests: seq<seq<Op>>, added: seq<seq<Entry>>,
                                                     collectionUri: string)
    requires Listened(requests, added, collectionUri) && AllClockChosen(Paging.Flatten(requests))
    ensures var ops, entries := Paging.Flatten(requests), Paging.Flatten(added);
            (forall id :: AlwaysRight(ops, entries, id)) <==> (forall id :: OldEntriesInOrder(entries, ops, id))
  {
    ListenedHoldsChanges(requests, added, collectionUri);
    SnapshotsAreRightIff(Paging.Flatten(requests), Paging.Flatten(added));
  }

  /** The listener over a run of requests. */
  method RecordRun(st: Settings, user: string, bucketUri: string, collectionUri: string,
                   requests: seq<seq<Op>>, now: int)
    returns (h: HistoryStore, ghost added: seq<seq<Entry>>)
    requires RecordsAll(st, user)
    ensures fresh(h) && h.Valid() && h.entries == Paging.Flatten(added) && Listened(requests, added, collectionUri)
    ensures AllInOrder(requests, collectionUri) ==> FullHistory(h.entries, Paging.Flatten(requests))
    ensures AllClockChosen(Paging.Flatten(requests)) && FullHistory(h.entries, Paging.Flatten(requests))
            ==> AllInOrder(requests, collectionUri)
  {
    h := new HistoryStore();
    added := [];
    var c := EMPTY_CELL;
    for i := 0 to |requests|
      invariant fresh(h) && h.Valid() && Window(st, h.entries, h.created)
      invariant h.entries == Paging.Flatten(added) && Listened(requests[..i], added, collectionUri)
      invariant c == Before(requests, i)
    {
      ghost var more := RecordRequest(h, st, user, bucketUri, collectionUri, c, requests[i], now);
      ListenedMore(requests, i, added, more, collectionUri);
      Paging.FlattenMore(added, more);
      added := added + [more];
      RunMore(requests, i);
      c := Run(c, requests[i]);
    }
    WholePrefix(requests);
    FullIffInOrder(requests, added, collectionUri);
  }

  lemma {:induction false} RunMore(requests: seq<seq<Op>>, i: nat)
    requires i < |requests|
    ensures Run(EMPTY_CELL, Paging.Flatten(requests[..i + 1]))
            == Run(Run(EMPTY_CELL, Paging.Flatten(requests[..i])), requests[i])
  {
    PrefixStep(requests, i);
    Paging.FlattenMore(requests[..i], requests[i]);
    RunAppend(EMPTY_CELL, Paging.Flatten(requests[..i]), requests[i]);
  }

  lemma BeforePrefix(requests: seq<seq<Op>>, n: nat, k: nat)
    requires k < n <= |requests|
    ensures Before(requests[..n], k) == Before(requests, k) && requests[..n][k] == requests[k]
  {
    PrefixOfPrefix(requests, n, k);
  }

  lemma StillListened(requests: seq<seq<Op>>, i: nat, added: seq<seq<Entry>>, collectionUri: string, k: nat)
    requires k < i <= |requests| && Listened(requests[..i], added, collectionUri)
    ensures ListenedTo(Before(requests, k), requests[k], added[k], collectionUri)
  {
    BeforePrefix(requests, i, k);
    assert ListenedTo(Before(requests[..i], k), requests[..i][k], added[k], collectionUri);
  }

  lemma {:induction false} ListenedMore(requests: seq<seq<Op>>, i: nat, added: seq<seq<Entry>>, more: seq<Entry>,
                                        collectionUri: string)
    requires i < |requests| && Listened(requests[..i], added, collectionUri)
    requires ListenedTo(Before(requests, i), requests[i], more, collectionUri)
    ensures Listened(requests[..i + 1], added + [more], collectionUri)
  {
    var s, all := requests[..i + 1], added + [more];
    forall k | 0 <= k < |s| ensures ListenedTo(Before(s, k), s[k], all[k], collectionUri) {
      BeforePrefix(requests, i + 1, k);
      if k < i { StillListened(requests, i, added, collectionUri, k); }
    }
  }

  /** Main result, end to end: the records of a snapshot at `t`, rebuilt from what the listener
      recorded, are the records of the collection at `t`. */
  method ServeSnapshot(st: Settings, user: string, bucketUri: string, collectionUri: string,
                       requests: seq<seq<Op>>, all: seq<Item>, t: int, now: int)
    returns (items: seq<Item>)
    requires RecordsAll(st, user) && AllInOrder(requests, collectionUri)
    requires AllClockChosen(Paging.Flatten(requests)) && t >= 0
    requires ListsAll(Run(EMPTY_CELL, Paging.Flatten(requests)), all)
    ensures HoldsRecordsOf(items, AtTime(EMPTY_CELL, Paging.Flatten(requests), t))
    ensures Ordered(items, [SortKey(ByItemStamp(), true)])
  {
    var h, added := RecordRun(st, user, bucketUri, collectionUri, requests, now);
    items := GetSnapshot(Run(EMPTY_CELL, Paging.Flatten(requests)), all, h.entries, t);
    SnapshotIsTheCollection(Paging.Flatten(requests), h.entries, t, items);
  }
}
