/** Synchronisation from the pages that are served, while others write: a client reads the clock,
    follows Next-Page to the end, and learns from what the pages show; next time it asks for what
    is newer than the clock it read. */
module PagedSync {
  import opened Options
  import opened Json
  import opened Collections
  import opened Sorting
  import opened Query
  import opened Pagination
  import opened Paging
  import opened Storage
  import opened Sync
  import opened PluralDelete
  import opened DeltaPages

  /** The page asked for in one state: its page size, the order in which the store lists its
      objects and tombstones, the page itself, and what happens before the next request. */
  datatype Reading = Reading(limit: nat, ids: seq<string>, graves: seq<string>, page: Page, ops: seq<Op>)

  function AllOps(readings: seq<Reading>): seq<Op> {
    if readings == [] then [] else readings[0].ops + AllOps(readings[1..])
  }

  /** The objects that the pages have shown. */
  function Shown(readings: seq<Reading>): seq<Dict> {
    if readings == [] then [] else readings[0].page.objects + Shown(readings[1..])
  }

  /** The page is the one that the token asks for in that state. */
  ghost predicate ReadIn(c: Cell, r: Reading, filters: seq<Filter>, sorting: seq<Sort>, token: Option<Dict>) {
    && r.limit > 0 && Lists(c, r.ids, r.graves) && PlainLive(c.live)
    && ScalarKeys(Everything(c, r.ids, r.graves), Keys(sorting))
    && Serves(r.page, Listed(ObjectsOf(c.live, r.ids), TombstonesOf(c.graves, r.graves), filters), filters, sorting,
              r.limit, token)
  }

  /** The state in which a page is read. */
  function StateAt(c: Cell, readings: seq<Reading>, i: nat): Cell
    requires i <= |readings|
  {
    Run(c, AllOps(readings[..i]))
  }

  /** Each page is served in its state from the token of the page before, and the last one
      alone has no token. */
  ghost predicate ReadAt(c: Cell, readings: seq<Reading>, filters: seq<Filter>, sorting: seq<Sort>,
                         token: Option<Dict>, i: nat)
    requires i < |readings|
  {
    && ReadIn(StateAt(c, readings, i), readings[i], filters, sorting,
              if i == 0 then token else readings[i - 1].page.next)
    && (readings[i].page.next.None? <==> i == |readings| - 1)
  }

  /** A walk from a token to the last page. */
  ghost predicate FinishedWalk(c: Cell, readings: seq<Reading>, filters: seq<Filter>, sorting: seq<Sort>,
                               token: Option<Dict>) {
    readings != [] && forall i :: 0 <= i < |readings| ==> ReadAt(c, readings, filters, sorting, token, i)
  }

  lemma {:induction false} StateInRest(c: Cell, readings: seq<Reading>, i: nat)
    requires i < |readings|
    ensures StateAt(Run(c, readings[0].ops), readings[1..], i) == StateAt(c, readings, i + 1)
  {
    assert readings[..i + 1][0] == readings[0] && readings[..i + 1][1..] == readings[1..][..i];
    RunAppend(c, readings[0].ops, AllOps(readings[1..][..i]));
  }

  lemma {:induction false} FirstPage(c: Cell, readings: seq<Reading>, filters: seq<Filter>, sorting: seq<Sort>,
                                     token: Option<Dict>)
    requires FinishedWalk(c, readings, filters, sorting, token)
    ensures ReadIn(c, readings[0], filters, sorting, token)
    ensures readings[0].page.next.None? <==> readings[1..] == []
  {
    assert ReadAt(c, readings, filters, sorting, token, 0);
    assert readings[..0] == [] && AllOps([]) == [];
  }

  lemma {:induction false} RestIsWalk(c: Cell, readings: seq<Reading>, filters: seq<Filter>, sorting: seq<Sort>,
                                      token: Option<Dict>)
    requires FinishedWalk(c, readings, filters, sorting, token) && readings[1..] != []
    ensures FinishedWalk(Run(c, readings[0].ops), readings[1..], filters, sorting, readings[0].page.next)
  {
    var c', rest := Run(c, readings[0].ops), readings[1..];
    forall i | 0 <= i < |rest| ensures ReadAt(c', rest, filters, sorting, readings[0].page.next, i) {
      StateInRest(c, readings, i);
      assert ReadAt(c, readings, filters, sorting, token, i + 1);
    }
  }

  // ---------- One page ----------

  lemma {:induction false} SomeRuleSelects(s: seq<Dict>, rules: seq<seq<Filter>>, x: Dict)
    requires x in s && SomeRule(x, rules)
    ensures x in ByRules(s, rules)
  {
    var n := |rules| - 1;
    if Matches(x, rules[n]) {
      SelectIn(s, Accepting(rules[n]), x);
    } else {
      var i :| 0 <= i < |rules| && Matches(x, rules[i]);
      assert rules[..n][i] == rules[i];
      SomeRuleSelects(s, rules[..n], x);
    }
  }

  /** A matching object that follows the token is among those to be served. */
  lemma {:induction false} FollowsToken(s: seq<Dict>, filters: seq<Filter>, sorting: seq<Sort>, last: Option<Dict>,
                                        x: Dict)
    requires sorting != [] && x in s && Matches(x, filters)
    requires last.Some? ==> KeyLess(last.value, x, Keys(sorting))
    ensures x in Paginated(s, filters, RulesOf(sorting, TokenAt(sorting, last)))
  {
    var filtered := Select(s, Accepting(filters));
    SelectIn(s, Accepting(filters), x);
    if last.Some? {
      RulesAcceptWhatFollows(sorting, last.value, x);
      SomeRuleSelects(filtered, Rules(sorting, TokenOf(sorting, last.value)), x);
    }
  }

  function TokenAt(sorting: seq<Sort>, last: Option<Dict>): Option<Dict> {
    if last.Some? then Some(TokenOf(sorting, last.value)) else None
  }

  /** No other object has the keys of `x`. */
  ghost predicate Alone(x: Dict, s: seq<Dict>, keys: seq<SortKey<Dict>>) {
    forall o :: o in s && o != x ==> !SameKeys(o, x, keys)
  }

  lemma {:induction false} PaginatedElements(s: seq<Dict>, filters: seq<Filter>, rules: seq<seq<Filter>>, x: Dict)
    requires x in Paginated(s, filters, rules)
    ensures x in s && Matches(x, filters)
  {
    var filtered := Select(s, Accepting(filters));
    if rules != [] { ByRulesElements(filtered, rules, x); }
    SelectIn(s, Accepting(filters), x);
  }

  /** A page shows what is listed. */
  lemma {:induction false} PageElements(page: Page, s: seq<Dict>, filters: seq<Filter>, sorting: seq<Sort>, limit: nat,
                                        token: Option<Dict>, x: Dict)
    requires limit > 0 && Serves(page, s, filters, sorting, limit, token) && x in page.objects
    ensures x in s && Matches(x, filters)
  {
    var found := Paginated(s, filters, RulesOf(sorting, token));
    ChainElements(found, Keys(sorting));
    SameElements(SortChain(found, Keys(sorting)), found, x);
    PaginatedElements(s, filters, RulesOf(sorting, token), x);
  }

  /** A matching object that follows the token is on the page, or follows the token of the next
      one. */
  lemma {:induction false} OnThisPageOrLater(page: Page, s: seq<Dict>, filters: seq<Filter>, sorting: seq<Sort>,
                                             limit: nat, last: Option<Dict>, x: Dict)
    returns (next: Option<Dict>)
    requires sorting != [] && limit > 0 && x in s && Matches(x, filters)
    requires ScalarKeys(s, Keys(sorting)) && Alone(x, s, Keys(sorting))
    requires last.Some? ==> KeyLess(last.value, x, Keys(sorting))
    requires Serves(page, s, filters, sorting, limit, TokenAt(sorting, last))
    ensures page.next == TokenAt(sorting, next)
    ensures x in page.objects || (next.Some? && KeyLess(next.value, x, Keys(sorting)))
  {
    var keys, found := Keys(sorting), Paginated(s, filters, RulesOf(sorting, TokenAt(sorting, last)));
    var sorted := SortChain(found, keys);
    FollowsToken(s, filters, sorting, last, x);
    ChainElements(found, keys);
    ChainOrdered(found, keys);
    SameElements(sorted, found, x);
    if |sorted| <= limit {
      next := None;
    } else {
      var t := sorted[limit - 1];
      next := Some(t);
      SameElements(sorted, found, t);
      PaginatedElements(s, filters, RulesOf(sorting, TokenAt(sorting, last)), t);
      CutAt(sorted, keys, limit, x);
    }
  }

  /** In a sorted list, `x` is among the first or follows the last of them. */
  lemma {:induction false} CutAt(sorted: seq<Dict>, keys: seq<SortKey<Dict>>, limit: nat, x: Dict)
    requires 0 < limit < |sorted| && Ordered(sorted, keys) && x in sorted
    requires var t := sorted[limit - 1]; t != x ==> ScalarKeys([t, x], keys) && !SameKeys(t, x, keys)
    ensures x in Take(Take(sorted, limit + 1), limit) || KeyLess(sorted[limit - 1], x, keys)
    ensures Take(sorted, limit + 1)[limit - 1] == sorted[limit - 1]
  {
    var j :| 0 <= j < |sorted| && sorted[j] == x;
    if j < limit {
      assert Take(Take(sorted, limit + 1), limit)[j] == x;
    } else if sorted[limit - 1] == x {
      assert Take(Take(sorted, limit + 1), limit)[limit - 1] == x;
    } else {
      KeyLessTotal(sorted[limit - 1], x, keys);
    }
  }

  // ---------- Distinct stamps make every object stand alone ----------

  /** What a listing shows of an id: its object or its tombstone. */
  function ObjectOf(c: Cell, id: string): Option<Dict> {
    match SlotOf(c, id)
    case Absent => None
    case Live(v) => Some(LiveObject(id, v))
    case Dead(at) => Some(TombstoneObject(id, at))
  }

  lemma ListedIsObjectOf(c: Cell, ids: seq<string>, graves: seq<string>, o: Dict)
    requires Inv(c) && Lists(c, ids, graves)
    ensures o in Everything(c, ids, graves) <==> ObjectOf(c, IdOf(o)) == Some(o)
  {
    ListedIn(c, ids, graves, o);
  }

  lemma ObjectShowsSlot(c: Cell, id: string)
    requires ObjectOf(c, id).Some?
    ensures IdOf(ObjectOf(c, id).value) == id
    ensures Column("last_modified")(ObjectOf(c, id).value) == Present(Num(StampOf(SlotOf(c, id)) as real))
  {
  }

  lemma {:induction false} AloneByStamp(c: Cell, ids: seq<string>, graves: seq<string>, sorting: seq<Sort>, id: string)
    requires Inv(c) && Lists(c, ids, graves) && DistinctStamps(c) && ReadsTimestamp(sorting)
    requires ObjectOf(c, id).Some?
    ensures Alone(ObjectOf(c, id).value, Everything(c, ids, graves), Keys(sorting))
  {
    var x, s, keys := ObjectOf(c, id).value, Everything(c, ids, graves), Keys(sorting);
    var k :| 0 <= k < |sorting| && sorting[k].field == "last_modified";
    assert keys[k] == SortKey(Column("last_modified"), sorting[k].desc);
    ObjectShowsSlot(c, id);
    forall o | o in s && o != x ensures !SameKeys(o, x, keys) {
      ListedIsObjectOf(c, ids, graves, o);
      ObjectShowsSlot(c, IdOf(o));
      assert keys[k].key(o) != keys[k].key(x);
    }
  }

  // ---------- The walk ----------

  /** Tombstones are asked for by a filter on the timestamp. */
  predicate AsksFor(filters: seq<Filter>, x: Dict) {
    Matches(x, filters) && (Tombstone(x) ==> WithDeleted(filters))
  }

  lemma {:induction false} WhatIsListed(c: Cell, r: Reading, filters: seq<Filter>, sorting: seq<Sort>,
                                        token: Option<Dict>, o: Dict)
    requires Inv(c) && ReadIn(c, r, filters, sorting, token)
    ensures var s := Listed(ObjectsOf(c.live, r.ids), TombstonesOf(c.graves, r.graves), filters);
            && (o in s ==> o in Everything(c, r.ids, r.graves) && ObjectOf(c, IdOf(o)) == Some(o))
            && (ObjectOf(c, IdOf(o)) == Some(o) && AsksFor(filters, o) ==> o in s)
  {
    ListedIsObjectOf(c, r.ids, r.graves, o);
    LiveListed(c.live, r.ids, o);
    DeadListed(c.graves, r.graves, o);
  }

  lemma {:induction false} ShownIsListed(c: Cell, r: Reading, filters: seq<Filter>, sorting: seq<Sort>,
                                         token: Option<Dict>, o: Dict)
    requires Inv(c) && ReadIn(c, r, filters, sorting, token) && o in r.page.objects
    ensures ObjectOf(c, IdOf(o)) == Some(o) && AsksFor(filters, o)
  {
    var s := Listed(ObjectsOf(c.live, r.ids), TombstonesOf(c.graves, r.graves), filters);
    PageElements(r.page, s, filters, sorting, r.limit, token, o);
    WhatIsListed(c, r, filters, sorting, token, o);
    if !WithDeleted(filters) {
      LiveListed(c.live, r.ids, o);
      LiveIsNoTombstone(c.live, o);
    }
  }

  /** One page: the object of an id is shown or still to come. */
  lemma {:induction false} OnePage(c: Cell, r: Reading, filters: seq<Filter>, sorting: seq<Sort>, last: Option<Dict>,
                                   id: string)
    returns (next: Option<Dict>)
    requires sorting != [] && Inv(c) && DistinctStamps(c) && ReadsTimestamp(sorting)
    requires ReadIn(c, r, filters, sorting, TokenAt(sorting, last))
    requires ObjectOf(c, id).Some? && AsksFor(filters, ObjectOf(c, id).value)
    requires last.Some? ==> KeyLess(last.value, ObjectOf(c, id).value, Keys(sorting))
    ensures r.page.next == TokenAt(sorting, next)
    ensures var x := ObjectOf(c, id).value;
            x in r.page.objects || (next.Some? && KeyLess(next.value, x, Keys(sorting)))
  {
    var x, all := ObjectOf(c, id).value, Everything(c, r.ids, r.graves);
    var s := Listed(ObjectsOf(c.live, r.ids), TombstonesOf(c.graves, r.graves), filters);
    ObjectShowsSlot(c, id);
    AloneByStamp(c, r.ids, r.graves, sorting, id);
    WhatIsListed(c, r, filters, sorting, TokenAt(sorting, last), x);
    forall o | o in s ensures o in all { WhatIsListed(c, r, filters, sorting, TokenAt(sorting, last), o); }
    next := OnThisPageOrLater(r.page, s, filters, sorting, r.limit, last, x);
  }

  /** The rest of a walk shows what is asked for and still to come, if nothing happens to it. */
  lemma {:induction false} RestShows(c: Cell, readings: seq<Reading>, filters: seq<Filter>, sorting: seq<Sort>,
                                     last: Option<Dict>, id: string)
    requires sorting != [] && Inv(c) && DistinctStamps(c) && ReadsTimestamp(sorting)
    requires Faithful(c, AllOps(readings)) && FinishedWalk(c, readings, filters, sorting, TokenAt(sorting, last))
    requires SlotOf(Run(c, AllOps(readings)), id) == SlotOf(c, id)
    requires ObjectOf(c, id).Some? && AsksFor(filters, ObjectOf(c, id).value)
    requires last.Some? ==> KeyLess(last.value, ObjectOf(c, id).value, Keys(sorting))
    ensures ObjectOf(c, id).value in Shown(readings)
    decreases readings
  {
    var r, rest := readings[0], readings[1..];
    FirstPage(c, readings, filters, sorting, TokenAt(sorting, last));
    var next := OnePage(c, r, filters, sorting, last, id);
    if ObjectOf(c, id).value !in r.page.objects {
      FirstStep(c, r.ops, AllOps(rest), id);
      RestIsWalk(c, readings, filters, sorting, TokenAt(sorting, last));
      RestShows(Run(c, r.ops), rest, filters, sorting, next, id);
    }
  }

  /** And of an id that nothing happens to it shows nothing else. */
  lemma {:induction false} ShowsOnly(c: Cell, readings: seq<Reading>, filters: seq<Filter>, sorting: seq<Sort>,
                                     token: Option<Dict>, o: Dict)
    requires Inv(c) && DistinctStamps(c) && Faithful(c, AllOps(readings))
    requires FinishedWalk(c, readings, filters, sorting, token)
    requires SlotOf(Run(c, AllOps(readings)), IdOf(o)) == SlotOf(c, IdOf(o)) && o in Shown(readings)
    ensures ObjectOf(c, IdOf(o)) == Some(o) && AsksFor(filters, o)
    decreases readings
  {
    var r, rest := readings[0], readings[1..];
    FirstPage(c, readings, filters, sorting, token);
    if o in r.page.objects {
      ShownIsListed(c, r, filters, sorting, token, o);
    } else {
      FirstStep(c, r.ops, AllOps(rest), IdOf(o));
      RestIsWalk(c, readings, filters, sorting, token);
      ShowsOnly(Run(c, r.ops), rest, filters, sorting, r.page.next, o);
    }
  }

  /** The state in which the next page is read. */
  lemma {:induction false} FirstStep(c: Cell, ops: seq<Op>, rest: seq<Op>, id: string)
    requires Inv(c) && DistinctStamps(c) && Faithful(c, ops + rest)
    requires SlotOf(Run(c, ops + rest), id) == SlotOf(c, id)
    ensures var c' := Run(c, ops);
            && Inv(c') && DistinctStamps(c') && Faithful(c', rest)
            && SlotOf(c', id) == SlotOf(c, id) && SlotOf(Run(c', rest), id) == SlotOf(c', id)
  {
    assert (ops + rest)[..|ops|] == ops && (ops + rest)[|ops|..] == rest;
    FaithfulParts(c, ops + rest, |ops|);
    RunKeepsInv(c, ops);
    RunKeepsDistinct(c, ops);
    RunAppend(c, ops, rest);
    UntouchedInBetween(c, ops + rest, |ops|, id);
  }


  // ---------- What the client knows ----------

  /** What a client should hold for an id. */
  function Rightly(c: Cell, id: string): Option<Dict> {
    if id in c.live then Some(LiveObject(id, c.live[id])) else None
  }

  /** What is learnt of an id when all that is shown of it is `x`. */
  lemma {:induction false} LearntUnanimously(held: map<string, Dict>, objects: seq<Dict>, x: Dict)
    requires forall o :: o in objects && IdOf(o) == IdOf(x) ==> o == x
    ensures HeldAs(Learn(held, objects), IdOf(x))
            == if x !in objects then HeldAs(held, IdOf(x)) else if Tombstone(x) then None else Some(x)
  {
    if objects != [] {
      LastApart(objects);
      LearntUnanimously(held, objects[..|objects| - 1], x);
    }
  }

  /** A walk, writes in between, teaches about an id that nothing happens to exactly what is
      asked for. */
  lemma {:induction false} WalkTeaches(c: Cell, readings: seq<Reading>, filters: seq<Filter>, sorting: seq<Sort>,
                                       held: map<string, Dict>, id: string)
    requires sorting != [] && Inv(c) && DistinctStamps(c) && ReadsTimestamp(sorting) && PlainLive(c.live)
    requires Faithful(c, AllOps(readings)) && FinishedWalk(c, readings, filters, sorting, None)
    requires SlotOf(Run(c, AllOps(readings)), id) == SlotOf(c, id)
    ensures var x := ObjectOf(c, id);
            HeldAs(Learn(held, Shown(readings)), id)
            == if x.Some? && AsksFor(filters, x.value) then Rightly(c, id) else HeldAs(held, id)
  {
    forall o | o in Shown(readings) && IdOf(o) == id ensures ObjectOf(c, id) == Some(o) && AsksFor(filters, o) {
      ShowsOnly(c, readings, filters, sorting, None, o);
    }
    if ObjectOf(c, id).None? {
      NothingLearnt(held, Shown(readings), id);
    } else {
      var x := ObjectOf(c, id).value;
      ObjectShowsSlot(c, id);
      LearntUnanimously(held, Shown(readings), x);
      if AsksFor(filters, x) { RestShows(c, readings, filters, sorting, None, id); }
      if id in c.live { LiveIsNoTombstone(c.live, x); }
    }
  }

  /** The filters of a request: none the first time, then `_since`. */
  function FiltersFor(since: Option<int>): seq<Filter> {
    if since.Some? then SinceFilter(since.value) else []
  }

  /** What is asked for: live objects the first time, then what is newer. */
  lemma {:induction false} AskedFor(c: Cell, since: Option<int>, id: string)
    requires Inv(c) && PlainLive(c.live) && ObjectOf(c, id).Some?
    ensures AsksFor(FiltersFor(since), ObjectOf(c, id).value)
            <==> if since.Some? then StampOf(SlotOf(c, id)) > since.value else id in c.live
  {
    var x, filters := ObjectOf(c, id).value, FiltersFor(since);
    if id in c.live { LiveIsNoTombstone(c.live, x); }
    if since.Some? {
      SinceIsTheFilter(c, since.value, id);
      assert filters[0].field == "last_modified";
      var fields := seq(|filters|, i requires 0 <= i < |filters| => filters[i].field);
      assert fields[0] == "last_modified";
    }
  }

  /** The client is right about everything stamped up to the clock it read; before its first
      visit it holds nothing. */
  ghost predicate Knows(held: map<string, Dict>, since: Option<int>, c: Cell) {
    if since.None? then held == map[]
    else
      && since.value <= Clock(c)
      && forall id :: SlotOf(c, id).Absent? || StampOf(SlotOf(c, id)) <= since.value ==>
           HeldAs(held, id) == Rightly(c, id)
  }

  /** One visit of the client: writes happen, the clock is read with the first page, pages are
      read to the end while others write. */
  datatype Visit = Visit(before: seq<Op>, now: int, sorting: seq<Sort>, readings: seq<Reading>)

  function AtRead(c: Cell, v: Visit): Cell {
    Apply(Run(c, v.before), ReadClock(v.now))
  }

  function AfterVisit(c: Cell, v: Visit): Cell {
    Run(AtRead(c, v), AllOps(v.readings))
  }

  ghost predicate Visits(c: Cell, since: Option<int>, v: Visit) {
    && v.sorting != [] && ReadsTimestamp(v.sorting)
    && Faithful(c, v.before + [ReadClock(v.now)]) && Faithful(AtRead(c, v), AllOps(v.readings))
    && FinishedWalk(AtRead(c, v), v.readings, FiltersFor(since), v.sorting, None)
  }

  /** What was right before more writes is right after them, up to the same clock. */
  lemma {:induction false} StillKnows(held: map<string, Dict>, since: Option<int>, c: Cell, ops: seq<Op>)
    requires Inv(c) && Faithful(c, ops) && Knows(held, since, c)
    ensures Knows(held, since, Run(c, ops))
  {
    var d := Run(c, ops);
    RunKeepsInv(c, ops);
    if since.Some? {
      forall id | SlotOf(d, id).Absent? || StampOf(SlotOf(d, id)) <= since.value
        ensures HeldAs(held, id) == Rightly(d, id)
      {
        SlotAfterRun(c, ops, id);
        SameSlotSameObject(c, d, id);
      }
    }
  }

  lemma SameSlotSameObject(c: Cell, d: Cell, id: string)
    requires SlotOf(c, id) == SlotOf(d, id)
    ensures Rightly(c, id) == Rightly(d, id) && ObjectOf(c, id) == ObjectOf(d, id)
  {
  }

  /** The walk of a visit makes the client right up to the clock read before it. */
  lemma {:induction false} WalkMakesRight(held: map<string, Dict>, since: Option<int>, c: Cell,
                                          readings: seq<Reading>, sorting: seq<Sort>)
    requires sorting != [] && Inv(c) && DistinctStamps(c) && ReadsTimestamp(sorting) && Knows(held, since, c)
    requires Faithful(c, AllOps(readings)) && FinishedWalk(c, readings, FiltersFor(since), sorting, None)
    ensures Knows(Learn(held, Shown(readings)), Some(Clock(c)), Run(c, AllOps(readings)))
  {
    var d := Run(c, AllOps(readings));
    RunKeepsInv(c, AllOps(readings));
    FirstPage(c, readings, FiltersFor(since), sorting, None);
    forall id | SlotOf(d, id).Absent? || StampOf(SlotOf(d, id)) <= Clock(c)
      ensures HeldAs(Learn(held, Shown(readings)), id) == Rightly(d, id)
    {
      SlotAfterRun(c, AllOps(readings), id);
      SameSlotSameObject(c, d, id);
      WalkTeaches(c, readings, FiltersFor(since), sorting, held, id);
      if ObjectOf(c, id).Some? { AskedFor(c, since, id); }
    }
  }

  lemma {:induction false} VisitTeaches(held: map<string, Dict>, since: Option<int>, c: Cell, v: Visit)
    requires Inv(c) && DistinctStamps(c) && Knows(held, since, c) && Visits(c, since, v)
    ensures var d := AfterVisit(c, v);
            && Inv(d) && DistinctStamps(d)
            && Knows(Learn(held, Shown(v.readings)), Some(Clock(AtRead(c, v))), d)
  {
    var ops := v.before + [ReadClock(v.now)];
    RunAppend(c, v.before, [ReadClock(v.now)]);
    assert Run(Run(c, v.before), [ReadClock(v.now)]) == AtRead(c, v);
    RunKeepsInv(c, ops);
    RunKeepsDistinct(c, ops);
    StillKnows(held, since, c, ops);
    RunKeepsInv(AtRead(c, v), AllOps(v.readings));
    RunKeepsDistinct(AtRead(c, v), AllOps(v.readings));
    WalkMakesRight(held, since, AtRead(c, v), v.readings, v.sorting);
  }

  // ---------- Whole sessions ----------

  datatype Client = Client(held: map<string, Dict>, since: Option<int>)

  const NEW_CLIENT := Client(map[], None)

  function Visited(client: Client, c: Cell, v: Visit): Client {
    Client(Learn(client.held, Shown(v.readings)), Some(Clock(AtRead(c, v))))
  }

  function VisitAll(client: Client, c: Cell, visits: seq<Visit>): (Client, Cell)
    decreases visits
  {
    if visits == [] then (client, c)
    else VisitAll(Visited(client, c, visits[0]), AfterVisit(c, visits[0]), visits[1..])
  }

  ghost predicate AllVisits(client: Client, c: Cell, visits: seq<Visit>)
    decreases visits
  {
    visits != [] ==>
      && Visits(c, client.since, visits[0])
      && AllVisits(Visited(client, c, visits[0]), AfterVisit(c, visits[0]), visits[1..])
  }

  /** Main result, over any number of visits, from pages alone, others writing all the time: the
      client is right about everything stamped up to the clock it read last. */
  lemma {:induction false} SessionKnows(client: Client, c: Cell, visits: seq<Visit>)
    requires Inv(c) && DistinctStamps(c) && Knows(client.held, client.since, c) && AllVisits(client, c, visits)
    ensures var (client', d) := VisitAll(client, c, visits);
            Inv(d) && DistinctStamps(d) && Knows(client'.held, client'.since, d)
    decreases visits
  {
    if visits != [] {
      VisitTeaches(client.held, client.since, c, visits[0]);
      SessionKnows(Visited(client, c, visits[0]), AfterVisit(c, visits[0]), visits[1..]);
    }
  }

  /** In particular, when nothing has been written since it read the clock it holds the live
      objects exactly. */
  lemma {:induction false} QuietSessionHoldsAll(c: Cell, visits: seq<Visit>)
    requires Inv(c) && DistinctStamps(c) && AllVisits(NEW_CLIENT, c, visits)
    requires var (client, d) := VisitAll(NEW_CLIENT, c, visits); client.since == Some(Clock(d))
    ensures var (client, d) := VisitAll(NEW_CLIENT, c, visits); client.held == Seen(d.live)
  {
    SessionKnows(NEW_CLIENT, c, visits);
    var (client, d) := VisitAll(NEW_CLIENT, c, visits);
    forall id ensures HeldAs(client.held, id) == HeldAs(Seen(d.live), id) {
      assert SlotOf(d, id).Absent? || StampOf(SlotOf(d, id)) <= Clock(d);
    }
    SameMaps(client.held, Seen(d.live));
  }
}
