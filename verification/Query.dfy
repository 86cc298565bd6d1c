/** The in-memory query engine: filters, cumulative sorting and the extraction
    of one page from a list of objects. */
module Query {
  import opened Json
  import opened Sorting

  datatype Operator = LT | MAX | EQ | NOT | MIN | GT | HAS

  datatype Filter = Filter(field: string, value: Value, operator: Operator)

  /** `desc` is direction -1. */
  datatype Sort = Sort(field: string, desc: bool)

  // ---------- Filters ----------

  /** Truth of a value in a Python condition. */
  predicate Truthy(v: Value) {
    match v
    case Missing => true
    case Present(Null) => false
    case Present(Str(s)) => s != ""
    case Present(Num(n)) => n != 0.0
    case Present(Bool(b)) => b
    case Present(Arr(items)) => items != []
    case Present(Obj(fields)) => fields != map[]
  }

  /** What one filter says of one object, on its own. */
  predicate Holds(o: Dict, f: Filter) {
    var left, right := FindNested(o, f.field), f.value;
    match f.operator
    case LT => Less(left, right)
    case MAX => Less(left, right) || left == right
    case EQ => left == right
    case NOT => left != right
    case MIN => Less(right, left) || left == right
    case GT => Less(right, left)
    case HAS => if Truthy(right) then left != Missing else left == Missing
  }

  /** What the filter operators mean. */
  lemma {:induction false} HoldsMeans(o: Dict, field: string, v: Value)
    ensures var x := FindNested(o, field);
            && (Holds(o, Filter(field, v, EQ)) <==> x == v) && (Holds(o, Filter(field, v, NOT)) <==> x != v)
            && (Holds(o, Filter(field, v, LT)) <==> Less(x, v)) && (Holds(o, Filter(field, v, GT)) <==> Less(v, x))
            && (Holds(o, Filter(field, v, MAX)) <==> Less(x, v) || x == v)
            && (Holds(o, Filter(field, v, MIN)) <==> Less(v, x) || x == v)
            && (Holds(o, Filter(field, v, HAS)) <==>
                  if v in {Present(Null), Present(Bool(false)), Present(Num(0.0)), Present(Str("")), Present(Arr([])),
                           Present(Obj(map[]))} then x == Missing else x != Missing)
  {
  }

  /** The `matches` flag after the inner loop over `fs`: HAS assigns it, the others conjoin. */
  predicate Matches(o: Dict, fs: seq<Filter>) {
    fs == [] ||
    var f := fs[|fs| - 1];
    Holds(o, f) && (f.operator == HAS || Matches(o, fs[..|fs| - 1]))
  }

  function Accepting(fs: seq<Filter>): Dict -> bool {
    o => Matches(o, fs)
  }

  predicate AllHold(o: Dict, fs: seq<Filter>) {
    forall i :: 0 <= i < |fs| ==> Holds(o, fs[i])
  }

  /** Position of the last HAS filter, 0 when there is none. */
  function LastHas(fs: seq<Filter>): (r: nat)
    ensures r <= |fs|
    ensures r < |fs| || fs == []
  {
    if fs == [] then 0
    else if fs[|fs| - 1].operator == HAS then |fs| - 1
    else LastHas(fs[..|fs| - 1])
  }

  /** A filter list is the conjunction of the last HAS and everything after it;
      whatever precedes that HAS has no say. */
  lemma {:induction false} MatchesFromLastHas(o: Dict, fs: seq<Filter>)
    ensures Matches(o, fs) <==> AllHold(o, fs[LastHas(fs)..])
  {
    if fs != [] {
      var n := |fs| - 1;
      var init, k := fs[..n], LastHas(fs);
      if fs[n].operator == HAS {
        assert fs[k..] == [fs[n]];
        assert AllHold(o, fs[k..]) <==> Holds(o, fs[k..][0]);
      } else {
        MatchesFromLastHas(o, init);
        assert fs[k..] == init[k..] + [fs[n]];
        assert AllHold(o, fs[k..]) ==> AllHold(o, init[k..]) && Holds(o, fs[n]) by {
          if AllHold(o, fs[k..]) {
            assert fs[k..][|fs[k..]| - 1] == fs[n];
            forall i | 0 <= i < |init[k..]| ensures Holds(o, init[k..][i]) {
              assert fs[k..][i] == init[k..][i];
            }
          }
        }
      }
    }
  }

  /** A list reads as a conjunction exactly on the objects that the filters before the
      last HAS do not reject against the rest. */
  lemma {:induction false} MatchesIsConjunction(o: Dict, fs: seq<Filter>)
    ensures Matches(o, fs) == AllHold(o, fs)
            <==> (AllHold(o, fs[..LastHas(fs)]) || !AllHold(o, fs[LastHas(fs)..]))
    ensures AllHold(o, fs) ==> Matches(o, fs)
  {
    var k := LastHas(fs);
    MatchesFromLastHas(o, fs);
    assert fs == fs[..k] + fs[k..];
    AllHoldAppend(o, fs[..k], fs[k..]);
  }

  lemma AllHoldAppend(o: Dict, fs: seq<Filter>, gs: seq<Filter>)
    ensures AllHold(o, fs + gs) <==> AllHold(o, fs) && AllHold(o, gs)
  {
    if AllHold(o, fs + gs) {
      forall i | 0 <= i < |fs| ensures Holds(o, fs[i]) { assert (fs + gs)[i] == fs[i]; }
      forall i | 0 <= i < |gs| ensures Holds(o, gs[i]) { assert (fs + gs)[|fs| + i] == gs[i]; }
    }
  }

  lemma {:induction false} LastHasZero(fs: seq<Filter>)
    requires forall i :: 0 < i < |fs| ==> fs[i].operator != HAS
    ensures LastHas(fs) == 0
  {
    if |fs| > 1 { LastHasZero(fs[..|fs| - 1]); }
  }

  /** `apply_filters` */
  method ApplyFilters(objects: seq<Dict>, filters: seq<Filter>) returns (r: seq<Dict>)
    ensures r == Select(objects, Accepting(filters))
  {
    r := [];
    for i := 0 to |objects|
      invariant r == Select(objects[..i], Accepting(filters))
    {
      var matches := true;
      for j := 0 to |filters|
        invariant matches == Matches(objects[i], filters[..j])
      {
        assert filters[..j + 1][..j] == filters[..j];
        if filters[j].operator == HAS {
          matches := Holds(objects[i], filters[j]);
        } else {
          matches := matches && Holds(objects[i], filters[j]);
        }
      }
      assert filters[..|filters|] == filters;
      SelectOneMore(objects, i, Accepting(filters));
      if matches {
        r := r + [objects[i]];
      }
    }
    assert objects[..|objects|] == objects;
  }

  // ---------- Sorting ----------

  function Column(field: string): Dict -> Value {
    o => FindNested(o, field)
  }

  function Keys(sorting: seq<Sort>): (keys: seq<SortKey<Dict>>)
    ensures |keys| == |sorting|
    ensures forall i :: 0 <= i < |keys| ==> keys[i] == SortKey(Column(sorting[i].field), sorting[i].desc)
  {
    if sorting == [] then []
    else [SortKey(Column(sorting[0].field), sorting[0].desc)] + Keys(sorting[1..])
  }

  /** `apply_sorting` */
  method ApplySorting(objects: seq<Dict>, sorting: seq<Sort>) returns (result: seq<Dict>)
    ensures result == SortChain(objects, Keys(sorting))
  {
    result := objects;
    if result == [] {
      EmptyChain(Keys(sorting));
      return;
    }
    for i := |sorting| downto 0
      invariant result == SortChain(objects, Keys(sorting[i..]))
    {
      assert sorting[i..][1..] == sorting[i + 1..];
      assert Keys(sorting[i..])[1..] == Keys(sorting[i + 1..]);
      result := SortBy(result, Column(sorting[i].field), sorting[i].desc);
    }
    assert sorting[0..] == sorting;
  }

  lemma {:induction false} EmptyChain(keys: seq<SortKey<Dict>>)
    ensures SortChain([], keys) == []
  {
    if keys != [] { EmptyChain(keys[1..]); }
  }

  // ---------- Extraction of one page ----------

  /** The loop over pagination rules: one pass per rule, results appended, nothing de-duplicated. */
  function ByRules(objects: seq<Dict>, rules: seq<seq<Filter>>): seq<Dict> {
    if rules == [] then []
    else ByRules(objects, rules[..|rules| - 1]) + Select(objects, Accepting(rules[|rules| - 1]))
  }

  function Take<T>(s: seq<T>, limit: nat): seq<T> {
    if limit == 0 || |s| <= limit then s else s[..limit]
  }

  /** The filtered objects that the rules, if any, let through. */
  function Paginated(objects: seq<Dict>, filters: seq<Filter>, rules: seq<seq<Filter>>): seq<Dict> {
    var filtered := Select(objects, Accepting(filters));
    if rules == [] then filtered else ByRules(filtered, rules)
  }

  /** The page that a list request yields; no limit is written 0. */
  function Extract(objects: seq<Dict>, filters: seq<Filter>, sorting: seq<Sort>,
                   rules: seq<seq<Filter>>, limit: nat): seq<Dict>
  {
    Take(SortChain(Paginated(objects, filters, rules), Keys(sorting)), limit)
  }

  predicate Tombstone(o: Dict) {
    "deleted" in o && o["deleted"] == Bool(true)
  }

  /** `extract_object_set` */
  method ExtractObjectSet(objects: seq<Dict>, filters: seq<Filter>, sorting: seq<Sort>,
                          rules: seq<seq<Filter>>, limit: nat, includeDeleted: bool)
    returns (page: seq<Dict>, total: int)
    ensures page == Extract(objects, filters, sorting, rules, limit)
    ensures total == |Select(objects, Accepting(filters))|
                     - if includeDeleted then 0 else |Select(Paginated(objects, filters, rules), Tombstone)|
    ensures rules == [] ==>
              total == |Select(objects, o => Matches(o, filters) && (includeDeleted || !Tombstone(o)))|
  {
    var filtered := ApplyFilters(objects, filters);
    total := |filtered|;
    var paginated := filtered;
    if rules != [] {
      paginated := [];
      for i := 0 to |rules|
        invariant paginated == ByRules(filtered, rules[..i])
      {
        var values := ApplyFilters(filtered, rules[i]);
        assert rules[..i + 1][..i] == rules[..i];
        paginated := paginated + values;
      }
      assert rules[..|rules|] == rules;
    }
    var sorted := ApplySorting(paginated, sorting);
    if !includeDeleted {
      var deleted := CountTombstones(sorted);
      total := total - deleted;
      ChainCount(paginated, Keys(sorting), Tombstone);
      if rules == [] {
        CountSplit(objects, Accepting(filters), Tombstone,
                   o => Matches(o, filters) && (includeDeleted || !Tombstone(o)));
      }
    } else {
      SelectSame(objects, Accepting(filters), o => Matches(o, filters) && (includeDeleted || !Tombstone(o)));
    }
    if limit != 0 && |sorted| > limit {
      sorted := sorted[..limit];
    }
    page := sorted;
  }

  method CountTombstones(objects: seq<Dict>) returns (n: nat)
    ensures n == |Select(objects, Tombstone)|
  {
    n := 0;
    for i := 0 to |objects|
      invariant n == |Select(objects[..i], Tombstone)|
    {
      SelectOneMore(objects, i, Tombstone);
      if Tombstone(objects[i]) { n := n + 1; }
    }
    assert objects[..|objects|] == objects;
  }

  lemma SelectOneMore<T>(s: seq<T>, i: nat, p: T -> bool)
    requires i < |s|
    ensures Select(s[..i + 1], p) == Select(s[..i], p) + if p(s[i]) then [s[i]] else []
  {
    assert s[..i + 1] == s[..i] + [s[i]];
    SelectAppend(s[..i], [s[i]], p);
    assert Select([s[i]], p) == (if p(s[i]) then [s[i]] else []) + Select([], p);
  }

  lemma {:induction false} CountSplit<T>(s: seq<T>, p: T -> bool, q: T -> bool, r: T -> bool)
    requires forall x :: x in s ==> r(x) == (p(x) && !q(x))
    ensures |Select(s, p)| == |Select(Select(s, p), q)| + |Select(s, r)|
  {
    if s != [] {
      CountSplit(s[1..], p, q, r);
      var head := if p(s[0]) then [s[0]] else [];
      SelectAppend(head, Select(s[1..], p), q);
    }
  }

  /** `list_all`: live objects are filtered once, tombstones join when asked, all are extracted. */
  method ListAll(live: seq<Dict>, cemetery: seq<Dict>, filters: seq<Filter>, sorting: seq<Sort>,
                 rules: seq<seq<Filter>>, limit: nat, includeDeleted: bool)
    returns (page: seq<Dict>)
    ensures page == Extract(live + (if includeDeleted then cemetery else []), filters, sorting, rules, limit)
  {
    var objects, _ := ExtractObjectSet(live, filters, [], [], 0, false);
    var deleted := if includeDeleted then cemetery else [];
    var total;
    page, total := ExtractObjectSet(objects + deleted, filters, sorting, rules, limit, false);
    var acc := Accepting(filters);
    SelectAppend(live, deleted, acc);
    SelectAppend(objects, deleted, acc);
    forall x | x in objects ensures acc(x) { SelectIn(live, acc, x); }
    SelectAll(objects, acc);
  }
}
