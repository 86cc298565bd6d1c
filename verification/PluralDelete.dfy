/** Paginated DELETE: each page deletes what it lists and the token of the next page carries
    the tombstone of the last deleted object.  Which sortings drain the list, and single use
    of tokens. */
module PluralDelete {
  import opened Options
  import opened Json
  import opened Collections
  import opened Sorting
  import opened Query
  import opened Pagination
  import opened Paging
  import opened Storage
  import opened Sync
  import Cache

  // ---------- The token of a tombstone against the remaining objects ----------

  /** Stored data never holds the reserved fields. */
  predicate PlainData(data: Dict) {
    "id" !in data && "last_modified" !in data && "deleted" !in data
  }

  ghost predicate PlainLive(live: map<string, Version>) {
    forall id :: id in live ==> PlainData(live[id].data)
  }

  /** Whether the key of a tombstone comes before the keys of all that was still to delete:
      data fields it has lost must be sorted descending (`seen` are those sorted on already),
      its timestamp too, its id either way, its deleted mark ascending. */
  predicate Drains(sorting: seq<Sort>, seen: set<string>) {
    sorting != [] &&
    var Sort(field, desc) := sorting[0];
    if field == "id" then true
    else if field == "last_modified" then desc
    else if field == "deleted" then !desc
    else (desc || field in seen) && Drains(sorting[1..], seen + {field})
  }

  /** The sorting of a request without `_sort` drains. */
  lemma {:induction false} DefaultSortDrains(t: Alphabet, known: string -> bool, r: Option<seq<Sort>>)
    requires Yields(t, known, [], r)
    ensures r.Some? && Drains(r.value, {})
  {
    DefaultIsNewestFirst(t, known, r);
  }

  lemma {:induction false} TombstoneFields(id: string, stamp: int, field: string)
    ensures FindNested(TombstoneObject(id, stamp), field)
            == if field == "id" then Present(Str(id))
               else if field == "last_modified" then Present(Num(stamp as real))
               else if field == "deleted" then Present(Bool(true))
               else Missing
  {
    var d := TombstoneObject(id, stamp);
    if field !in d {
      var r := LongestRoot(d, field, |field|);
      if r.RootAt? { assert !d[field[..r.dot]].Obj?; }
    }
  }

  lemma LiveFields(id: string, v: Version)
    requires PlainData(v.data)
    ensures FindNested(LiveObject(id, v), "id") == Present(Str(id))
    ensures FindNested(LiveObject(id, v), "last_modified") == Present(Num(v.stamp as real))
    ensures FindNested(LiveObject(id, v), "deleted") == Missing
  {
    var d := LiveObject(id, v);
    forall j | 0 <= j < |"deleted"| ensures "deleted"[j] != '.' {}
    assert LongestRoot(d, "deleted", |"deleted"|).NoRoot?;
  }

  /** A reserved field decides at once. */
  lemma ReservedFieldReaches(field: string, desc: bool, x: string, v: Version, stamp: int, o: string, w: Version)
    requires x != o && w.stamp < stamp && PlainData(v.data) && PlainData(w.data)
    requires field == "id" || (field == "last_modified" && desc) || (field == "deleted" && !desc)
    requires !Before(Column(field), desc, LiveObject(o, w), LiveObject(x, v))
    ensures Before(Column(field), desc, TombstoneObject(x, stamp), LiveObject(o, w))
  {
    TombstoneFields(x, stamp, field);
    LiveFields(x, v);
    LiveFields(o, w);
    StrLessTotal(x, o);
  }

  /** A data field decides, or is missing everywhere. */
  lemma {:induction false} DataFieldReaches(field: string, desc: bool, seen: set<string>, x: string, v: Version,
                                            stamp: int, o: string, w: Version)
    requires field != "id" && field != "last_modified" && field != "deleted" && (desc || field in seen)
    requires field in seen ==>
               FindNested(LiveObject(x, v), field) == Missing && FindNested(LiveObject(o, w), field) == Missing
    requires !Before(Column(field), desc, LiveObject(o, w), LiveObject(x, v))
    ensures || Before(Column(field), desc, TombstoneObject(x, stamp), LiveObject(o, w))
            || (&& FindNested(LiveObject(x, v), field) == FindNested(LiveObject(o, w), field) == Missing
                && FindNested(TombstoneObject(x, stamp), field) == Missing)
  {
    TombstoneFields(x, stamp, field);
  }

  /** An object that was not listed before `x` follows the token that `x`'s tombstone yields. */
  lemma {:induction false} TokenReaches(sorting: seq<Sort>, seen: set<string>, x: string, v: Version, stamp: int,
                                        o: string, w: Version)
    requires Drains(sorting, seen) && x != o && w.stamp < stamp && PlainData(v.data) && PlainData(w.data)
    requires forall g :: g in seen ==>
               FindNested(LiveObject(x, v), g) == Missing && FindNested(LiveObject(o, w), g) == Missing
    requires !KeyLess(LiveObject(o, w), LiveObject(x, v), Keys(sorting))
    ensures KeyLess(TombstoneObject(x, stamp), LiveObject(o, w), Keys(sorting))
  {
    var keys, field, desc := Keys(sorting), sorting[0].field, sorting[0].desc;
    assert keys[0] == SortKey(Column(field), desc) && keys[1..] == Keys(sorting[1..]);
    if field == "id" || field == "last_modified" || field == "deleted" {
      ReservedFieldReaches(field, desc, x, v, stamp, o, w);
    } else {
      DataFieldReaches(field, desc, seen, x, v, stamp, o, w);
      if !Before(Column(field), desc, TombstoneObject(x, stamp), LiveObject(o, w)) {
        TokenReaches(sorting[1..], seen + {field}, x, v, stamp, o, w);
      }
    }
  }

  /** The data of objects that a sorting which does not drain leaves behind. */
  function Straggler(sorting: seq<Sort>, seen: set<string>): Dict {
    if sorting == [] then map[]
    else
      var Sort(field, desc) := sorting[0];
      if field == "id" || field == "last_modified" || field == "deleted" then map[]
      else if desc || field in seen then Straggler(sorting[1..], seen + {field})
      else map[field := Null]
  }

  lemma {:induction false} StragglerIsPlain(sorting: seq<Sort>, seen: set<string>)
    ensures PlainData(Straggler(sorting, seen))
  {
    if sorting != [] { StragglerIsPlain(sorting[1..], seen + {sorting[0].field}); }
  }

  /** Lookup in an object whose data has one field, null. */
  lemma {:induction false} OneFieldLookup(id: string, stamp: int, data: Dict, g: string)
    requires PlainData(data) && (forall k :: k in data ==> data[k] == Null)
    requires g != "id" && g != "last_modified"
    ensures FindNested(LiveObject(id, Version(stamp, data)), g) == Get(data, g)
  {
    var d := LiveObject(id, Version(stamp, data));
    if g !in d {
      var r := LongestRoot(d, g, |g|);
      if r.RootAt? { assert !d[g[..r.dot]].Obj?; }
    }
  }

  lemma {:induction false} StragglerShape(sorting: seq<Sort>, seen: set<string>)
    ensures var data := Straggler(sorting, seen); forall k :: k in data ==> data[k] == Null && k !in seen
  {
    if sorting != [] { StragglerShape(sorting[1..], seen + {sorting[0].field}); }
  }

  /** A sorting that does not drain: the token misses the stragglers. */
  lemma {:induction false} TokenMisses(sorting: seq<Sort>, seen: set<string>, x: string, stamp: int, o: string, t: int)
    requires !Drains(sorting, seen) && t < stamp
    ensures !KeyLess(TombstoneObject(x, stamp), LiveObject(o, Version(t, Straggler(sorting, seen))), Keys(sorting))
  {
    if sorting != [] {
      var data := Straggler(sorting, seen);
      var keys, field := Keys(sorting), sorting[0].field;
      assert keys[0] == SortKey(Column(field), sorting[0].desc) && keys[1..] == Keys(sorting[1..]);
      StragglerIsPlain(sorting, seen);
      StragglerShape(sorting, seen);
      TombstoneFields(x, stamp, field);
      LiveFields(o, Version(t, data));
      if field != "id" && field != "last_modified" && field != "deleted" {
        OneFieldLookup(o, t, data, field);
        if sorting[0].desc || field in seen {
          StragglerShape(sorting[1..], seen + {field});
          assert field !in data;
          TokenMisses(sorting[1..], seen + {field}, x, stamp, o, t);
        }
      }
    }
  }

  // ---------- What one page holds ----------

  function ObjectsOf(live: map<string, Version>, ids: seq<string>): (r: seq<Dict>)
    requires forall id :: id in ids ==> id in live
    ensures |r| == |ids| && forall i :: 0 <= i < |ids| ==> r[i] == LiveObject(ids[i], live[ids[i]])
  {
    seq(|ids|, i requires 0 <= i < |ids| => LiveObject(ids[i], live[ids[i]]))
  }

  /** The ids that a filter list selects. */
  function Matching(live: map<string, Version>, filters: seq<Filter>): set<string> {
    set id | id in live && Matches(LiveObject(id, live[id]), filters)
  }

  function IdOf(o: Dict): string {
    match Get(o, "id")
    case Present(Str(id)) => id
    case _ => ""
  }

  function IdsOf(page: seq<Dict>): (ids: seq<string>)
    ensures |ids| == |page| && forall i :: 0 <= i < |page| ==> ids[i] == IdOf(page[i])
  {
    seq(|page|, i requires 0 <= i < |page| => IdOf(page[i]))
  }

  function SetOf(ids: seq<string>): set<string> {
    set i | 0 <= i < |ids| :: ids[i]
  }

  ghost predicate Distinct(ids: seq<string>) {
    forall i, j :: 0 <= i < j < |ids| ==> ids[i] != ids[j]
  }

  /** A page: distinct matching objects as they are stored. */
  ghost predicate PageOf(page: seq<Dict>, live: map<string, Version>, filters: seq<Filter>) {
    && Distinct(IdsOf(page))
    && forall o :: o in page ==> IdOf(o) in Matching(live, filters) && o == LiveObject(IdOf(o), live[IdOf(o)])
  }

  /** The rules of a request let every matching object through, once. */
  ghost predicate LetsThrough(live: map<string, Version>, filters: seq<Filter>, rules: seq<seq<Filter>>) {
    rules == [] ||
    ((forall o :: RuleCount(o, rules) <= 1) &&
     forall id :: id in Matching(live, filters) ==> RuleCount(LiveObject(id, live[id]), rules) == 1)
  }

  lemma {:induction false} DistinctSize(ids: seq<string>)
    requires Distinct(ids)
    ensures |SetOf(ids)| == |ids|
  {
    if ids != [] {
      var n := |ids| - 1;
      assert forall i :: 0 <= i < n ==> ids[..n][i] == ids[i];
      DistinctSize(ids[..n]);
      assert SetOf(ids) == SetOf(ids[..n]) + {ids[n]};
      assert ids[n] !in SetOf(ids[..n]);
    }
  }

  lemma {:induction false} SelectKeepsDistinctIds(objects: seq<Dict>, p: Dict -> bool)
    requires Distinct(IdsOf(objects))
    ensures Distinct(IdsOf(Select(objects, p)))
  {
    forall i, j | 0 <= i < j < |objects| ensures IdOf(objects[i]) != IdOf(objects[j]) {
      assert IdsOf(objects)[i] != IdsOf(objects)[j];
    }
    var r := Select(objects, p);
    forall i, j | 0 <= i < j < |r| ensures IdsOf(r)[i] != IdsOf(r)[j] {
      SelectKeepsDistinct(objects, p, IdOf, i, j);
    }
  }

  /** The filtered listing: all the matching objects, whatever the order of the dictionary. */
  lemma FilteredListing(live: map<string, Version>, ids: seq<string>, filters: seq<Filter>)
    requires Enumerates(ids, live)
    ensures var filtered := Select(ObjectsOf(live, ids), Accepting(filters));
            && PageOf(filtered, live, filters)
            && SetOf(IdsOf(filtered)) == Matching(live, filters)
            && |filtered| == |Matching(live, filters)|
  {
    var filtered := Select(ObjectsOf(live, ids), Accepting(filters));
    ObjectsAreDistinct(live, ids);
    SelectKeepsDistinctIds(ObjectsOf(live, ids), Accepting(filters));
    FilteredObjects(live, ids, filters);
    forall id ensures id in SetOf(IdsOf(filtered)) <==> id in Matching(live, filters) {
      if id in Matching(live, filters) { MatchingIsFiltered(live, ids, filters, id); }
      if id in SetOf(IdsOf(filtered)) {
        var j :| 0 <= j < |filtered| && IdsOf(filtered)[j] == id;
        assert filtered[j] in filtered;
      }
    }
    DistinctSize(IdsOf(filtered));
  }

  lemma ObjectsAreDistinct(live: map<string, Version>, ids: seq<string>)
    requires Enumerates(ids, live)
    ensures Distinct(IdsOf(ObjectsOf(live, ids)))
  {
    assert forall i :: 0 <= i < |ids| ==> IdsOf(ObjectsOf(live, ids))[i] == ids[i];
  }

  lemma FilteredObjects(live: map<string, Version>, ids: seq<string>, filters: seq<Filter>)
    requires Enumerates(ids, live)
    ensures forall o :: o in Select(ObjectsOf(live, ids), Accepting(filters)) ==>
              IdOf(o) in Matching(live, filters) && o == LiveObject(IdOf(o), live[IdOf(o)])
  {
    var objects := ObjectsOf(live, ids);
    forall o | o in Select(objects, Accepting(filters))
      ensures IdOf(o) in Matching(live, filters) && o == LiveObject(IdOf(o), live[IdOf(o)])
    {
      SelectIn(objects, Accepting(filters), o);
      var i :| 0 <= i < |objects| && objects[i] == o;
      assert IdOf(o) == ids[i];
    }
  }

  lemma MatchingIsFiltered(live: map<string, Version>, ids: seq<string>, filters: seq<Filter>, id: string)
    requires Enumerates(ids, live) && id in Matching(live, filters)
    ensures id in SetOf(IdsOf(Select(ObjectsOf(live, ids), Accepting(filters))))
  {
    var objects, o := ObjectsOf(live, ids), LiveObject(id, live[id]);
    var i :| 0 <= i < |ids| && ids[i] == id;
    assert objects[i] == o;
    SelectIn(objects, Accepting(filters), o);
    IdIsListed(Select(objects, Accepting(filters)), o);
  }

  lemma IdIsListed(page: seq<Dict>, o: Dict)
    requires o in page
    ensures IdOf(o) in SetOf(IdsOf(page))
  {
    var j :| 0 <= j < |page| && page[j] == o;
    assert IdsOf(page)[j] == IdOf(o);
  }

  lemma PermutationIsPage(s: seq<Dict>, t: seq<Dict>, live: map<string, Version>, filters: seq<Filter>)
    requires multiset(s) == multiset(t) && PageOf(s, live, filters)
    ensures PageOf(t, live, filters) && |s| == |t| && SetOf(IdsOf(t)) == SetOf(IdsOf(s))
  {
    forall i, j | 0 <= i < j < |s| ensures IdOf(s[i]) != IdOf(s[j]) {
      assert IdsOf(s)[i] != IdsOf(s)[j];
    }
    PermutationKeepsDistinct(s, t, IdOf);
    forall x ensures x in s <==> x in t { SameElements(s, t, x); }
    assert |s| == |multiset(s)| == |multiset(t)| == |t|;
    forall id ensures id in SetOf(IdsOf(t)) <==> id in SetOf(IdsOf(s)) {
      if id in SetOf(IdsOf(t)) {
        var i :| 0 <= i < |t| && IdsOf(t)[i] == id;
        assert t[i] in s;
        var j :| 0 <= j < |s| && s[j] == t[i];
        assert IdsOf(s)[j] == id;
      }
      if id in SetOf(IdsOf(s)) {
        var i :| 0 <= i < |s| && IdsOf(s)[i] == id;
        assert s[i] in t;
        var j :| 0 <= j < |t| && t[j] == s[i];
        assert IdsOf(t)[j] == id;
      }
    }
  }

  /** The list that a request cuts its page from: all the matching objects, sorted. */
  ghost predicate WholeList(whole: seq<Dict>, live: map<string, Version>, filters: seq<Filter>, sorting: seq<Sort>) {
    && PageOf(whole, live, filters)
    && SetOf(IdsOf(whole)) == Matching(live, filters)
    && |whole| == |Matching(live, filters)|
    && Ordered(whole, Keys(sorting))
  }

  lemma ListingIsWhole(live: map<string, Version>, ids: seq<string>, filters: seq<Filter>, sorting: seq<Sort>,
                       rules: seq<seq<Filter>>)
    returns (whole: seq<Dict>)
    requires Enumerates(ids, live) && LetsThrough(live, filters, rules)
    ensures WholeList(whole, live, filters, sorting)
    ensures forall limit: nat :: Extract(ObjectsOf(live, ids), filters, sorting, rules, limit) == Take(whole, limit)
  {
    var filtered := Select(ObjectsOf(live, ids), Accepting(filters));
    var paginated := if rules == [] then filtered else ByRules(filtered, rules);
    whole := SortChain(paginated, Keys(sorting));
    FilteredListing(live, ids, filters);
    if rules != [] { UnionIsPermutation(filtered, rules); }
    ChainElements(paginated, Keys(sorting));
    ChainOrdered(paginated, Keys(sorting));
    PermutationIsPage(filtered, whole, live, filters);
  }

  lemma TakeOfPage(whole: seq<Dict>, live: map<string, Version>, filters: seq<Filter>, limit: nat)
    requires PageOf(whole, live, filters)
    ensures PageOf(Take(whole, limit), live, filters)
  {
    var page := Take(whole, limit);
    forall i, j | 0 <= i < j < |page| ensures IdsOf(page)[i] != IdsOf(page)[j] {
      assert IdsOf(page)[i] == IdsOf(whole)[i] && IdsOf(page)[j] == IdsOf(whole)[j];
    }
  }

  // ---------- Deleting one page ----------

  method WallClock() returns (now: int) {
    now := *;
  }

  /** What deleting the objects of `page` makes of the cell, tombstone by tombstone. */
  ghost predicate Deleted(before: Cell, after: Cell, page: seq<Dict>, deleted: seq<Dict>, stamps: seq<int>) {
    && |deleted| == |stamps| == |page|
    && after.live == before.live - SetOf(IdsOf(page))
    && (forall i :: 0 <= i < |page| ==> deleted[i] == TombstoneObject(IdOf(page[i]), stamps[i]))
    && (forall i :: 0 <= i < |page| ==> stamps[i] > Clock(before) && SlotOf(after, IdOf(page[i])) == Dead(stamps[i]))
    && (forall id :: id !in SetOf(IdsOf(page)) ==> SlotOf(after, id) == SlotOf(before, id))
    && Clock(after) >= Clock(before)
  }

  /** The first `limit` objects of the whole list are deleted. */
  ghost predicate FirstDeleted(before: Cell, after: Cell, filters: seq<Filter>, sorting: seq<Sort>, limit: nat,
                               whole: seq<Dict>, deleted: seq<Dict>, stamps: seq<int>)
  {
    WholeList(whole, before.live, filters, sorting) && Deleted(before, after, Take(whole, limit), deleted, stamps)
  }

  /** `delete_all`: list, extract, delete one by one. */
  method DeleteAll(store: Store, p: Place, filters: seq<Filter>, sorting: seq<Sort>, rules: seq<seq<Filter>>,
                   limit: nat)
    returns (deleted: seq<Dict>, ghost whole: seq<Dict>, ghost stamps: seq<int>)
    requires Inv(store.CellAt(p)) && LetsThrough(store.CellAt(p).live, filters, rules)
    modifies store
    ensures FirstDeleted(old(store.CellAt(p)), store.CellAt(p), filters, sorting, limit, whole, deleted, stamps)
    ensures Inv(store.CellAt(p)) && store.OnlyAt(p)
  {
    ghost var before := store.CellAt(p);
    var ids := store.List(p);
    var live := if p in store.objects then store.objects[p] else map[];
    var page, _ := ExtractObjectSet(ObjectsOf(live, ids), filters, sorting, rules, limit, false);
    whole := ListingIsWhole(live, ids, filters, sorting, rules);
    TakeOfPage(whole, live, filters, limit);
    deleted, stamps := [], [];
    for i := 0 to |page|
      invariant Inv(store.CellAt(p)) && store.OnlyAt(p)
      invariant Deleted(before, store.CellAt(p), page[..i], deleted, stamps)
    {
      ghost var c := store.CellAt(p);
      var id := IdOf(page[i]);
      assert page[i] in page && id in before.live;
      NotYetDeleted(page, i);
      var now := WallClock();
      var r := store.Delete(p, id, None, true, now);
      StepKeepsInv(c, Op.Delete(id, None, true, now));
      deleted := deleted + [TombstoneObject(id, r.value)];
      OneMoreDeleted(before, c, store.CellAt(p), page, i, deleted[..i], stamps, now, r.value);
      stamps := stamps + [r.value];
      assert deleted[..i] + [deleted[i]] == deleted;
    }
    assert page[..|page|] == page;
  }

  lemma NotYetDeleted(page: seq<Dict>, i: nat)
    requires i < |page| && Distinct(IdsOf(page))
    ensures IdOf(page[i]) !in SetOf(IdsOf(page[..i]))
    ensures SetOf(IdsOf(page[..i + 1])) == SetOf(IdsOf(page[..i])) + {IdOf(page[i])}
  {
    var ids := IdsOf(page[..i]);
    assert forall j :: 0 <= j < i ==> ids[j] == IdsOf(page)[j] && ids[j] != IdsOf(page)[i];
    assert IdsOf(page[..i + 1]) == ids + [IdOf(page[i])];
  }

  lemma OneMoreDeleted(before: Cell, c: Cell, after: Cell, page: seq<Dict>, i: nat, deleted: seq<Dict>,
                       stamps: seq<int>, now: int, stamp: int)
    requires i < |page| && Distinct(IdsOf(page)) && Inv(c)
    requires Deleted(before, c, page[..i], deleted, stamps) && IdOf(page[i]) in c.live
    requires after == Apply(c, Op.Delete(IdOf(page[i]), None, true, now)) && stamp == Bump(Clock(c), None, now).current
    ensures Deleted(before, after, page[..i + 1], deleted + [TombstoneObject(IdOf(page[i]), stamp)], stamps + [stamp])
  {
    var id, done := IdOf(page[i]), page[..i];
    NotYetDeleted(page, i);
    DeleteEffect(c, id, now);
    assert page[..i + 1] == done + [page[i]];
    forall j | 0 <= j < i ensures done[j] == page[j] && IdOf(page[j]) != id {
      assert IdsOf(done)[j] == IdOf(done[j]);
    }
    MinusOneMore(before.live, SetOf(IdsOf(done)), id);
  }

  lemma DeleteEffect(c: Cell, id: string, now: int)
    requires Inv(c) && id in c.live
    ensures var after, stamp := Apply(c, Op.Delete(id, None, true, now)), Bump(Clock(c), None, now).current;
            && after.live == c.live - {id} && SlotOf(after, id) == Dead(stamp)
            && (forall other :: other != id ==> SlotOf(after, other) == SlotOf(c, other))
            && stamp > Clock(c) && Clock(after) >= Clock(c)
  {
  }

  // ---------- One request ----------

  lemma MatchingAfter(before: Cell, after: Cell, page: seq<Dict>, deleted: seq<Dict>, stamps: seq<int>,
                      filters: seq<Filter>)
    requires Deleted(before, after, page, deleted, stamps)
    ensures Matching(after.live, filters) == Matching(before.live, filters) - SetOf(IdsOf(page))
    ensures PlainLive(before.live) ==> PlainLive(after.live)
  {
  }

  lemma {:induction false} TokenRuleCount(sorting: seq<Sort>, x: Dict, o: Dict)
    ensures var n := RuleCount(o, Rules(sorting, TokenOf(sorting, x)));
            n <= 1 && (n > 0 <==> KeyLess(x, o, Keys(sorting)))
  {
    RulesAcceptWhatFollows(sorting, x, o);
    CountAtMostOne(o, Rules(sorting, TokenOf(sorting, x)));
  }

  /** Under a sorting that drains, the next token lets every remaining object through. */
  lemma {:induction false} NextTokenLetsThrough(before: Cell, after: Cell, whole: seq<Dict>, limit: nat,
                                                deleted: seq<Dict>, stamps: seq<int>,
                             filters: seq<Filter>, sorting: seq<Sort>)
    requires Inv(before) && PlainLive(before.live) && Drains(sorting, {}) && 0 < limit <= |whole|
    requires WholeList(whole, before.live, filters, sorting)
    requires Deleted(before, after, whole[..limit], deleted, stamps)
    ensures LetsThrough(after.live, filters, Rules(sorting, TokenOf(sorting, deleted[limit - 1])))
  {
    var tomb := deleted[limit - 1];
    MatchingAfter(before, after, whole[..limit], deleted, stamps, filters);
    forall o ensures RuleCount(o, Rules(sorting, TokenOf(sorting, tomb))) <= 1 {
      TokenRuleCount(sorting, tomb, o);
    }
    forall id | id in Matching(after.live, filters)
      ensures RuleCount(LiveObject(id, after.live[id]), Rules(sorting, TokenOf(sorting, tomb))) == 1
    {
      TokenRuleCount(sorting, tomb, LiveObject(id, after.live[id]));
      RemainingFollowsToken(before, after, whole, limit, deleted, stamps, filters, sorting, id);
    }
  }

  lemma {:induction false} RemainingFollowsToken(before: Cell, after: Cell, whole: seq<Dict>, limit: nat,
                                                 deleted: seq<Dict>, stamps: seq<int>,
                              filters: seq<Filter>, sorting: seq<Sort>, id: string)
    requires Inv(before) && PlainLive(before.live) && Drains(sorting, {}) && 0 < limit <= |whole|
    requires WholeList(whole, before.live, filters, sorting)
    requires Deleted(before, after, whole[..limit], deleted, stamps)
    requires id in Matching(before.live, filters) - SetOf(IdsOf(whole[..limit]))
    ensures id in after.live && KeyLess(deleted[limit - 1], LiveObject(id, after.live[id]), Keys(sorting))
  {
    var last := whole[limit - 1];
    var x := IdOf(last);
    assert last in whole && whole[..limit][limit - 1] == last;
    assert deleted[limit - 1] == TombstoneObject(x, stamps[limit - 1]);
    RemainingIsListedLater(whole, limit, before.live, filters, sorting, id);
    TokenReaches(sorting, {}, x, before.live[x], stamps[limit - 1], id, before.live[id]);
    assert SlotOf(after, id) == SlotOf(before, id);
  }

  lemma {:induction false} RemainingIsListedLater(whole: seq<Dict>, limit: nat, live: map<string, Version>,
                                                  filters: seq<Filter>, sorting: seq<Sort>, id: string)
    requires WholeList(whole, live, filters, sorting) && 0 < limit <= |whole|
    requires id in Matching(live, filters) && id !in SetOf(IdsOf(whole[..limit]))
    ensures IdOf(whole[limit - 1]) != id
    ensures !KeyLess(LiveObject(id, live[id]), whole[limit - 1], Keys(sorting))
  {
    var i :| 0 <= i < |whole| && IdsOf(whole)[i] == id;
    assert whole[i] in whole;
    forall j | 0 <= j < limit ensures IdsOf(whole)[j] in SetOf(IdsOf(whole[..limit])) {
      assert IdsOf(whole[..limit])[j] == IdsOf(whole)[j];
    }
    assert IdsOf(whole)[limit - 1] != IdsOf(whole)[i];
  }

  /** The `get_objects` of the endpoint, made only to be counted. */
  method CountUpTo(store: Store, p: Place, filters: seq<Filter>, sorting: seq<Sort>, rules: seq<seq<Filter>>,
                   limit: nat)
    returns (n: nat)
    requires limit > 0 && LetsThrough(store.CellAt(p).live, filters, rules)
    ensures var m := |Matching(store.CellAt(p).live, filters)|; n == if m <= limit then m else limit
  {
    var ids := store.List(p);
    var live := if p in store.objects then store.objects[p] else map[];
    assert ObjectsOf(live, ids) + [] == ObjectsOf(live, ids);
    var objects := ListAll(ObjectsOf(live, ids), [], filters, sorting, rules, limit, false);
    ghost var listed := ListingIsWhole(live, ids, filters, sorting, rules);
    n := |objects|;
  }

  /** `plural_delete`: `objects` tells whether there is more, the last tombstone makes the token. */
  method PluralDelete(store: Store, p: Place, filters: seq<Filter>, sorting: seq<Sort>, limit: nat, token: Option<Dict>)
    returns (deleted: seq<Dict>, next: Option<Dict>, ghost whole: seq<Dict>, ghost stamps: seq<int>)
    requires sorting != [] && limit > 0
    requires Inv(store.CellAt(p)) && LetsThrough(store.CellAt(p).live, filters, RulesOf(sorting, token))
    modifies store
    ensures Inv(store.CellAt(p)) && store.OnlyAt(p)
    ensures FirstDeleted(old(store.CellAt(p)), store.CellAt(p), filters, sorting, limit, whole, deleted, stamps)
    ensures next == if |whole| > limit then Some(TokenOf(sorting, deleted[limit - 1])) else None
  {
    ghost var before := store.CellAt(p);
    var rules := [];
    if token.Some? {
      rules := BuildPaginationRules(sorting, token.value, []);
    }
    assert rules == RulesOf(sorting, token);
    var objects := CountUpTo(store, p, filters, sorting, rules, limit + 1);
    deleted, whole, stamps := DeleteAll(store, p, filters, sorting, rules, limit);
    next := TokenAfter(sorting, deleted, objects, limit);
    DeletedCount(before, store.CellAt(p), filters, sorting, limit, whole, deleted, stamps);
    NextIsOfLast(sorting, limit, |whole|, deleted, objects, next);
  }

  /** The token of the last tombstone, when there were more than `limit` objects. */
  method TokenAfter(sorting: seq<Sort>, deleted: seq<Dict>, objects: nat, limit: nat) returns (next: Option<Dict>)
    ensures next == if deleted == [] || objects != limit + 1 then None
                    else Some(TokenOf(sorting, deleted[|deleted| - 1]))
  {
    next := None;
    if deleted != [] && objects == limit + 1 {
      var last := BuildPaginationToken(sorting, deleted[|deleted| - 1]);
      next := Some(last);
    }
  }

  lemma {:induction false} DeletedCount(before: Cell, after: Cell, filters: seq<Filter>, sorting: seq<Sort>, limit: nat,
                                        whole: seq<Dict>, deleted: seq<Dict>, stamps: seq<int>)
    requires FirstDeleted(before, after, filters, sorting, limit, whole, deleted, stamps) && limit > 0
    ensures |whole| == |Matching(before.live, filters)|
    ensures |deleted| == if |whole| <= limit then |whole| else limit
  {
  }

  lemma {:induction false} NextIsOfLast(sorting: seq<Sort>, limit: nat, n: nat, deleted: seq<Dict>, objects: nat,
                                        next: Option<Dict>)
    requires limit > 0 && |deleted| == (if n <= limit then n else limit)
             && objects == (if n <= limit + 1 then n else limit + 1)
    requires next == if deleted == [] || objects != limit + 1 then None
                     else Some(TokenOf(sorting, deleted[|deleted| - 1]))
    ensures next == if n > limit then Some(TokenOf(sorting, deleted[limit - 1])) else None
  {
  }

  // ---------- The walk ----------

  lemma {:induction false} FlattenIds(pages: seq<seq<string>>, page: seq<string>)
    requires Distinct(Flatten(pages)) && Distinct(page) && SetOf(Flatten(pages)) !! SetOf(page)
    ensures Distinct(Flatten(pages + [page])) && SetOf(Flatten(pages + [page])) == SetOf(Flatten(pages)) + SetOf(page)
  {
    assert (pages + [page])[..|pages|] == pages;
    var a, r := Flatten(pages), Flatten(pages + [page]);
    assert r == a + page;
    forall i, j | 0 <= i < j < |r| ensures r[i] != r[j] {
      if i < |a| && j >= |a| { assert r[i] in SetOf(a) && r[j] == page[j - |a|] && r[j] in SetOf(page); }
    }
    forall id ensures id in SetOf(r) <==> id in SetOf(a) + SetOf(page) {
      if id in SetOf(a) { var i :| 0 <= i < |a| && a[i] == id; assert r[i] == id; }
      if id in SetOf(page) { var i :| 0 <= i < |page| && page[i] == id; assert r[|a| + i] == id; }
    }
  }

  /** A page deletes `ids`, some of the matching objects, and nothing else. */
  ghost predicate PageTaken(live: map<string, Version>, now: map<string, Version>, filters: seq<Filter>,
                            ids: seq<string>) {
    var m := Matching(live, filters);
    && Distinct(ids) && SetOf(ids) <= m
    && now == live - SetOf(ids) && Matching(now, filters) == m - SetOf(ids)
  }

  /** With no next page nothing is left of `m`, otherwise the page was full. */
  ghost predicate PageLeaves(m: set<string>, rest: set<string>, limit: nat, ids: seq<string>, next: Option<Dict>) {
    && |ids| <= limit
    && (next.None? ==> rest == {} && |m| <= limit)
    && (next.Some? ==> |rest| == |m| - limit > 0)
  }

  /** One request of the walk, seen from the ids it deletes. */
  method DeletePage(store: Store, p: Place, filters: seq<Filter>, sorting: seq<Sort>, limit: nat, token: Option<Dict>)
    returns (ids: seq<string>, next: Option<Dict>)
    requires limit > 0 && Drains(sorting, {})
    requires Inv(store.CellAt(p)) && PlainLive(store.CellAt(p).live)
    requires LetsThrough(store.CellAt(p).live, filters, RulesOf(sorting, token))
    modifies store
    ensures Inv(store.CellAt(p)) && PlainLive(store.CellAt(p).live) && store.OnlyAt(p)
    ensures PageTaken(old(store.CellAt(p)).live, store.CellAt(p).live, filters, ids)
    ensures PageLeaves(Matching(old(store.CellAt(p)).live, filters), Matching(store.CellAt(p).live, filters),
                       limit, ids, next)
    ensures next.Some? ==> LetsThrough(store.CellAt(p).live, filters, RulesOf(sorting, next))
  {
    ghost var c := store.CellAt(p);
    var deleted;
    ghost var whole, stamps;
    deleted, next, whole, stamps := PluralDelete(store, p, filters, sorting, limit, token);
    ids := IdsOf(deleted);
    PageOutcome(c, store.CellAt(p), whole, limit, deleted, stamps, filters, sorting, next);
    if |whole| > limit {
      NextTokenLetsThrough(c, store.CellAt(p), whole, limit, deleted, stamps, filters, sorting);
    }
  }

  lemma {:induction false} PageOutcome(c: Cell, after: Cell, whole: seq<Dict>, limit: nat, deleted: seq<Dict>,
                                       stamps: seq<int>,
                                       filters: seq<Filter>, sorting: seq<Sort>, next: Option<Dict>)
    requires limit > 0 && WholeList(whole, c.live, filters, sorting)
    requires Deleted(c, after, Take(whole, limit), deleted, stamps) && (next.None? <==> |whole| <= limit)
    ensures PageTaken(c.live, after.live, filters, IdsOf(deleted))
    ensures PageLeaves(Matching(c.live, filters), Matching(after.live, filters), limit, IdsOf(deleted), next)
    ensures PlainLive(c.live) ==> PlainLive(after.live)
  {
    var page := Take(whole, limit);
    TakeOfPage(whole, c.live, filters, limit);
    MatchingAfter(c, after, page, deleted, stamps, filters);
    PageIds(page, deleted, c.live, filters, stamps);
    PageShrinks(whole, limit, c.live, filters, sorting);
  }

  /** The walk so far: its pages deleted some of the matching objects, and nothing else. */
  ghost predicate WalkTaken(live: map<string, Version>, now: map<string, Version>, filters: seq<Filter>,
                            pages: seq<seq<string>>) {
    var all, done := Matching(live, filters), SetOf(Flatten(pages));
    && Distinct(Flatten(pages)) && done <= all
    && now == live - done && Matching(now, filters) == all - done
  }

  /** `left` pages are still to come. */
  ghost predicate WalkLeaves(all: set<string>, rest: set<string>, z: Sizes, pages: seq<seq<string>>, left: nat,
                             over: bool) {
    && Within(pages, z)
    && |pages| + left == WalkCount(|all|, z)
    && (if over then left == 0 && rest == {}
        else if pages == [] then rest == all
        else left == PageCount(|rest|, z.rest))
  }

  /** Where the walk stands, with the token of the next page. */
  ghost predicate Walk(live: map<string, Version>, cell: Cell, filters: seq<Filter>, sorting: seq<Sort>, z: Sizes,
                       pages: seq<seq<string>>, left: nat, token: Option<Dict>)
  {
    && Inv(cell) && PlainLive(cell.live)
    && WalkTaken(live, cell.live, filters, pages)
    && WalkLeaves(Matching(live, filters), Matching(cell.live, filters), z, pages, left, pages != [] && token.None?)
    && LetsThrough(cell.live, filters, RulesOf(sorting, token))
  }

  lemma TakenStep(live: map<string, Version>, now: map<string, Version>, filters: seq<Filter>, pages: seq<seq<string>>,
                  ids: seq<string>, now': map<string, Version>)
    requires WalkTaken(live, now, filters, pages) && PageTaken(now, now', filters, ids)
    ensures WalkTaken(live, now', filters, pages + [ids])
  {
    FlattenIds(pages, ids);
    MinusMore(live, SetOf(Flatten(pages)), SetOf(ids));
  }

  lemma LeavesStep(all: set<string>, rest: set<string>, z: Sizes, pages: seq<seq<string>>, left: nat,
                   rest': set<string>, ids: seq<string>, next: Option<Dict>)
    requires WalkLeaves(all, rest, z, pages, left, false) && PageLeaves(rest, rest', SizeAt(z, |pages|), ids, next)
    ensures left > 0 && WalkLeaves(all, rest', z, pages + [ids], left - 1, next.None?)
  {
  }

  /** What one `DeletePage` does to the walk. */
  lemma WalkStep(live: map<string, Version>, cell: Cell, filters: seq<Filter>, sorting: seq<Sort>, z: Sizes,
                 pages: seq<seq<string>>, left: nat, token: Option<Dict>, cell': Cell, ids: seq<string>,
                 next: Option<Dict>)
    requires Walk(live, cell, filters, sorting, z, pages, left, token) && (pages == [] || token.Some?)
    requires Inv(cell') && PlainLive(cell'.live) && PageTaken(cell.live, cell'.live, filters, ids)
    requires PageLeaves(Matching(cell.live, filters), Matching(cell'.live, filters), SizeAt(z, |pages|), ids, next)
    requires next.Some? ==> LetsThrough(cell'.live, filters, RulesOf(sorting, next))
    ensures left > 0 && Walk(live, cell', filters, sorting, z, pages + [ids], left - 1, next)
  {
    TakenStep(live, cell.live, filters, pages, ids, cell'.live);
    LeavesStep(Matching(live, filters), Matching(cell.live, filters), z, pages, left, Matching(cell'.live, filters),
               ids, next);
  }

  /** Main result: under a sorting that drains, and the default one does, a client that
      follows Next-Page deletes every matching object exactly once, in pages of the requested
      size, and nothing else. */
  method DeleteFollowingNextPage(store: Store, p: Place, filters: seq<Filter>, sorting: seq<Sort>,
                                 requested: Option<nat>, paginateBy: nat, maxFetchSize: nat)
    returns (pages: seq<seq<string>>)
    requires maxFetchSize > 0 && Drains(sorting, {})
    requires Inv(store.CellAt(p)) && PlainLive(store.CellAt(p).live)
    modifies store
    ensures var live := old(store.CellAt(p)).live;
            && store.CellAt(p).live == live - Matching(live, filters)
            && Distinct(Flatten(pages)) && SetOf(Flatten(pages)) == Matching(live, filters)
            && |pages| == WalkCount(|Matching(live, filters)|, SizesOf(requested, paginateBy, maxFetchSize))
    ensures Within(pages, SizesOf(requested, paginateBy, maxFetchSize))
    ensures store.OnlyAt(p)
  {
    ghost var z := SizesOf(requested, paginateBy, maxFetchSize);
    ghost var live, cell := store.CellAt(p).live, store.CellAt(p);
    ghost var left := WalkCount(|Matching(live, filters)|, z);
    SizeSettles(requested, paginateBy, maxFetchSize);
    NothingDeletedYet(cell, filters, sorting, z);
    var limit := ExtractLimit(requested, paginateBy, maxFetchSize);
    var ids, token := DeletePage(store, p, filters, sorting, limit, None);
    WalkStep(live, cell, filters, sorting, z, [], left, None, store.CellAt(p), ids, token);
    assert [] + [ids] == [ids];
    pages, cell, left := [ids], store.CellAt(p), left - 1;
    while token.Some?
      invariant store.OnlyAt(p) && cell == store.CellAt(p) && pages != []
      invariant Walk(live, cell, filters, sorting, z, pages, left, token)
      invariant ExtractLimit(Some(limit), paginateBy, maxFetchSize) == z.rest
      decreases left
    {
      ghost var previous := token;
      limit := ExtractLimit(Some(limit), paginateBy, maxFetchSize);
      ids, token := DeletePage(store, p, filters, sorting, limit, token);
      WalkStep(live, cell, filters, sorting, z, pages, left, previous, store.CellAt(p), ids, token);
      pages, cell, left := pages + [ids], store.CellAt(p), left - 1;
    }
    WalkEnds(live, cell, filters, sorting, z, pages, left);
  }

  lemma {:induction false} WalkEnds(live: map<string, Version>, cell: Cell, filters: seq<Filter>, sorting: seq<Sort>,
                                    z: Sizes,
                                    pages: seq<seq<string>>, left: nat)
    requires pages != [] && Walk(live, cell, filters, sorting, z, pages, left, None)
    ensures cell.live == live - Matching(live, filters)
    ensures Distinct(Flatten(pages)) && SetOf(Flatten(pages)) == Matching(live, filters)
    ensures |pages| == WalkCount(|Matching(live, filters)|, z) && Within(pages, z)
  {
    var all, done := Matching(live, filters), SetOf(Flatten(pages));
    assert all - done == {};
    forall id | id in all ensures id in done { assert id !in all - done; }
    assert done == all;
  }

  lemma {:induction false} NothingDeletedYet(cell: Cell, filters: seq<Filter>, sorting: seq<Sort>, z: Sizes)
    requires Inv(cell) && PlainLive(cell.live)
    ensures Walk(cell.live, cell, filters, sorting, z, [], WalkCount(|Matching(cell.live, filters)|, z), None)
  {
    assert cell.live - {} == cell.live;
    assert Matching(cell.live, filters) - {} == Matching(cell.live, filters);
  }

  lemma PageIds(page: seq<Dict>, deleted: seq<Dict>, live: map<string, Version>, filters: seq<Filter>, stamps: seq<int>)
    requires PageOf(page, live, filters) && |deleted| == |stamps| == |page|
    requires forall i :: 0 <= i < |page| ==> deleted[i] == TombstoneObject(IdOf(page[i]), stamps[i])
    ensures IdsOf(deleted) == IdsOf(page) && SetOf(IdsOf(page)) <= Matching(live, filters)
  {
    PageIdsMatch(page, live, filters);
  }

  /** A page takes `limit` of the matching objects, or all that are left. */
  lemma {:induction false} PageShrinks(whole: seq<Dict>, limit: nat, live: map<string, Version>, filters: seq<Filter>,
                                       sorting: seq<Sort>)
    requires WholeList(whole, live, filters, sorting) && limit > 0
    ensures var page, m := SetOf(IdsOf(Take(whole, limit))), Matching(live, filters);
            && (|whole| <= limit ==> page == m)
            && |m - page| == (if |whole| <= limit then 0 else |whole| - limit)
  {
    var page, m := Take(whole, limit), Matching(live, filters);
    TakeOfPage(whole, live, filters, limit);
    DistinctSize(IdsOf(page));
    PageIdsMatch(page, live, filters);
    Remaining(m, SetOf(IdsOf(page)));
  }

  lemma PageIdsMatch(page: seq<Dict>, live: map<string, Version>, filters: seq<Filter>)
    requires PageOf(page, live, filters)
    ensures SetOf(IdsOf(page)) <= Matching(live, filters)
  {
    forall id | id in SetOf(IdsOf(page)) ensures id in Matching(live, filters) {
      var i :| 0 <= i < |page| && IdsOf(page)[i] == id;
      assert page[i] in page;
    }
  }

  lemma Remaining(all: set<string>, gone: set<string>)
    requires gone <= all
    ensures |all - gone| == |all| - |gone|
  {
    assert all == (all - gone) + gone;
  }

  // ---------- A sorting that does not drain ----------

  /** The run that makes the two objects of which any such sorting leaves one. */
  function TwoCreations(sorting: seq<Sort>): seq<Op> {
    var data := Straggler(sorting, {});
    [Create("a", None, data, 1), Create("b", None, data, 2)]
  }

  /** The two objects. */
  function TwoStragglers(sorting: seq<Sort>): Cell {
    Run(EMPTY_CELL, TwoCreations(sorting))
  }

  lemma {:induction false} StragglersAreReachable(sorting: seq<Sort>)
    ensures var data := Straggler(sorting, {});
            TwoStragglers(sorting) == Cell(Some(2), map["a" := Version(1, data), "b" := Version(2, data)], map[])
  {
    var ops, data := TwoCreations(sorting), Straggler(sorting, {});
    var c1 := Apply(EMPTY_CELL, ops[0]);
    assert c1 == Cell(Some(1), map["a" := Version(1, data)], map[]);
    var c2 := Apply(c1, ops[1]);
    assert c2.live == map["a" := Version(1, data), "b" := Version(2, data)] && c2.graves == map[];
    assert ops[1..][0] == ops[1] && ops[1..][1..] == [];
    assert Run(EMPTY_CELL, ops) == Run(c1, ops[1..]) == Run(c2, []);
  }

  lemma StragglersArePlain(sorting: seq<Sort>)
    ensures var c := TwoStragglers(sorting); Inv(c) && PlainLive(c.live) && DistinctStamps(c)
  {
    StragglersAreReachable(sorting);
    StragglerIsPlain(sorting, {});
  }

  lemma {:induction false} OneIsDeleted(sorting: seq<Sort>, x: string, now: int)
    requires x in ["a", "b"]
    ensures var c := Apply(TwoStragglers(sorting), Op.Delete(x, None, true, now));
            var o := if x == "a" then "b" else "a";
            && Run(EMPTY_CELL, TwoCreations(sorting) + [Op.Delete(x, None, true, now)]) == c
            && x in c.graves && c.live.Keys == {o} && c.live[o].stamp < c.graves[x]
            && c.live[o] == Version(c.live[o].stamp, Straggler(sorting, {}))
  {
    var delete := Op.Delete(x, None, true, now);
    StragglersAreReachable(sorting);
    RunAppend(EMPTY_CELL, TwoCreations(sorting), [delete]);
    assert Run(TwoStragglers(sorting), [delete]) == Apply(TwoStragglers(sorting), delete);
  }

  /** Main result, the converse: under any other sorting, once two objects have been created
      and the first page, one object long, has deleted either of them, the next page is empty
      and the walk ends with the other object still there. */
  lemma {:induction false} OtherSortingsDoNotDrain(sorting: seq<Sort>, x: string, now: int, limit: nat)
    requires !Drains(sorting, {}) && sorting != [] && x in ["a", "b"]
    ensures var c := Run(EMPTY_CELL, TwoCreations(sorting) + [Op.Delete(x, None, true, now)]);
            && x in c.graves && PlainLive(TwoStragglers(sorting).live)
            && var token := TokenOf(sorting, TombstoneObject(x, c.graves[x]));
            exists o :: Enumerates([o], c.live)
                        && Extract(ObjectsOf(c.live, [o]), [], sorting, Rules(sorting, token), limit) == []
  {
    var o := if x == "a" then "b" else "a";
    var delete := Op.Delete(x, None, true, now);
    StragglersArePlain(sorting);
    OneIsDeleted(sorting, x, now);
    var c := Apply(TwoStragglers(sorting), delete);
    var tomb, obj := TombstoneObject(x, c.graves[x]), LiveObject(o, c.live[o]);
    TokenMisses(sorting, {}, x, c.graves[x], o, c.live[o].stamp);
    TokenRuleCount(sorting, tomb, obj);
    assert ObjectsOf(c.live, [o]) == [obj];
    NoRuleNoPage(obj, sorting, Rules(sorting, TokenOf(sorting, tomb)), limit);
    assert Enumerates([o], c.live);
  }

  lemma {:induction false} NoRuleNoPage(o: Dict, sorting: seq<Sort>, rules: seq<seq<Filter>>, limit: nat)
    requires rules != [] && RuleCount(o, rules) == 0
    ensures Extract([o], [], sorting, rules, limit) == []
  {
    SelectAll([o], Accepting([]));
    UnionHoldsRuleCount(o, rules);
    assert ByRules([o], rules) == [];
    EmptyChain(Keys(sorting));
  }

  // ---------- Tokens are used once ----------

  /** What happens to the cache: a page issues a nonce, a DELETE presents one, and others use
      the same cache. */
  datatype TokenEvent =
    | Issued(nonce: string, validitySeconds: nat, now: int)
    | Presented(nonce: string)
    | Elsewhere(request: Cache.Request)

  function RequestOf(e: TokenEvent): Cache.Request {
    match e
    case Issued(nonce, validitySeconds, now) => Cache.SetKey(nonce, "", validitySeconds * 1000, now)
    case Presented(nonce) => Cache.DeleteKey(nonce)
    case Elsewhere(request) => request
  }

  function RequestsOf(events: seq<TokenEvent>): (r: seq<Cache.Request>)
    ensures |r| == |events|
  {
    if events == [] then [] else RequestsOf(events[..|events| - 1]) + [RequestOf(events[|events| - 1])]
  }

  /** How many times a nonce is accepted over a run. */
  function Acceptances(events: seq<TokenEvent>, accepted: seq<bool>, nonce: string): nat
    requires |accepted| == |events|
  {
    if events == [] then 0
    else
      var n := |events| - 1;
      Acceptances(events[..n], accepted[..n], nonce) + if events[n] == Presented(nonce) && accepted[n] then 1 else 0
  }

  function Issues(events: seq<TokenEvent>, nonce: string): nat {
    if events == [] then 0
    else
      var n := |events| - 1;
      Issues(events[..n], nonce) + if events[n].Issued? && events[n].nonce == nonce then 1 else 0
  }

  /** No other user of the cache stores anything under the nonce. */
  predicate OnlyIssued(events: seq<TokenEvent>, nonce: string) {
    forall i :: 0 <= i < |events| && events[i].Elsewhere? ==>
      !(events[i].request.SetKey? && events[i].request.key == nonce)
  }

  /** A token is accepted when the delete of its nonce returns a value. */
  ghost predicate AcceptedByCache(events: seq<TokenEvent>, answers: seq<Option<string>>, accepted: seq<bool>) {
    |answers| == |accepted| == |events| &&
    forall i :: 0 <= i < |events| ==> (accepted[i] <==> events[i].Presented? && answers[i].Some?)
  }

  lemma {:induction false} AcceptancesAreTaken(events: seq<TokenEvent>, answers: seq<Option<string>>,
                                               accepted: seq<bool>, nonce: string)
    requires AcceptedByCache(events, answers, accepted)
    ensures Acceptances(events, accepted, nonce) <= Cache.Taken(RequestsOf(events), answers, nonce)
  {
    if events != [] {
      var n := |events| - 1;
      AcceptancesAreTaken(events[..n], answers[..n], accepted[..n], nonce);
      assert RequestsOf(events)[..n] == RequestsOf(events[..n]);
    }
  }

  lemma {:induction false} SetsAreIssues(events: seq<TokenEvent>, nonce: string)
    requires OnlyIssued(events, nonce)
    ensures Cache.Sets(RequestsOf(events), nonce) == Issues(events, nonce)
  {
    if events != [] {
      var n := |events| - 1;
      SetsAreIssues(events[..n], nonce);
      assert RequestsOf(events)[..n] == RequestsOf(events[..n]);
    }
  }

  /** The event does not concern the nonce, nor come when it has expired. */
  predicate LeavesAlone(e: TokenEvent, nonce: string, deadline: int) {
    match e
    case Issued(other, _, now) => other != nonce && now < deadline
    case Presented(other) => other != nonce
    case Elsewhere(r) => Cache.Spares(r, nonce, deadline)
  }

  /** The `j`-th event presents the nonce that the `i`-th issued, within its validity. */
  predicate InTime(events: seq<TokenEvent>, i: nat, j: nat)
    requires i < j < |events|
  {
    && events[i].Issued? && events[j] == Presented(events[i].nonce)
    && forall l :: i < l < j ==>
         LeavesAlone(events[l], events[i].nonce, events[i].now + 1000 * events[i].validitySeconds)
  }

  /** Main result, over every run of the cache that holds the nonces: a nonce is accepted at
      most as often as it was issued.  The generator never repeats one, so each token is
      accepted at most once, whatever clients present and whatever else the cache serves.  A
      cache without bound accepts it within its validity. */
  method PresentTokens(cache: Cache.Cache, events: seq<TokenEvent>) returns (accepted: seq<bool>)
    requires cache.Valid() && cache.store == map[] && cache.ttl == map[] && cache.reference == map[]
    requires cache.missed == 0 && cache.replaced == 0
    modifies cache
    ensures |accepted| == |events|
    ensures forall nonce :: OnlyIssued(events, nonce) ==>
              Acceptances(events, accepted, nonce) <= Issues(events, nonce)
    ensures cache.maxSizeBytes.None? ==> forall i, j :: 0 <= i < j < |events| && InTime(events, i, j) ==> accepted[j]
  {
    var requests := RequestsOf(events);
    var answers, _, stored := Cache.Serve(cache, requests);
    accepted := seq(|events|, i requires 0 <= i < |events| => events[i].Presented? && answers[i].Some?);
    forall nonce | OnlyIssued(events, nonce) ensures Acceptances(events, accepted, nonce) <= Issues(events, nonce) {
      AcceptancesAreTaken(events, answers, accepted, nonce);
      SetsAreIssues(events, nonce);
    }
    if cache.maxSizeBytes.None? {
      forall i, j | 0 <= i < j < |events| && InTime(events, i, j) ensures accepted[j] {
        InTimeIsHeld(cache.prefix, events, i, j);
        RequestsAt(events, j);
        Cache.DeleteAnswered(cache.prefix, requests, answers, stored, j);
      }
    }
  }

  lemma {:induction false} RequestsAt(events: seq<TokenEvent>, i: nat)
    requires i < |events|
    ensures RequestsOf(events)[i] == RequestOf(events[i]) && RequestsOf(events)[..i] == RequestsOf(events[..i])
  {
    var n := |events| - 1;
    if i < n {
      RequestsAt(events[..n], i);
      assert events[..n][..i] == events[..i];
      assert RequestsOf(events)[..i] == RequestsOf(events[..n])[..i];
    } else {
      assert RequestsOf(events)[..i] == RequestsOf(events[..n]);
    }
  }

  /** Between its issue and its presentation nothing touches the nonce, and no time comes at
      which it would have expired. */
  lemma {:induction false} InTimeIsHeld(prefix: string, events: seq<TokenEvent>, i: nat, j: nat)
    requires i < j < |events| && InTime(events, i, j)
    ensures prefix + events[j].nonce in Cache.UnboundedRun(prefix, RequestsOf(events)[..j])
    decreases j
  {
    var requests, e := RequestsOf(events), events[i];
    var h := Cache.Held("", e.now + e.validitySeconds * 1000);
    RequestsAt(events, i);
    var later := requests[i + 1..j];
    forall l | 0 <= l < |later| ensures Cache.Spares(later[l], e.nonce, h.expiry) {
      RequestsAt(events, i + 1 + l);
      assert LeavesAlone(events[i + 1 + l], e.nonce, h.expiry);
    }
    assert requests[..i + 1][i] == requests[i] && requests[..i + 1] + later == requests[..j];
    Cache.HeldWhileSpared(prefix, requests[..i + 1], e.nonce, h, later);
  }
}
