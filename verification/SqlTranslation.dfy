/** Filters and pagination rules as PostgreSQL conditions: a condition syntax tree, its
    three-valued meaning, the translation, and its agreement with the in-memory engine. */
module SqlTranslation {
  import opened Options
  import opened Json
  import opened Paths
  import opened Sorting
  import opened Query
  import opened Pagination

  // ---------- Conditions and their meaning ----------

  datatype Column = IdColumn | ModifiedColumn | DataColumn(path: seq<string>)

  datatype Condition =
    | IsNull(column: Column)
    | IsNotNull(column: Column)
    | Compare(column: Column, operator: Operator, rhs: Json)
    | DataContains(container: Json)
    | Always
    | Never
    | And(a: Condition, b: Condition)
    | Or(a: Condition, b: Condition)

  /** One row: the id and timestamp are columns of their own, the rest is JSONB. */
  datatype Row = Row(id: string, lastModified: int, data: Dict)

  datatype Truth = True | False | Unknown

  function OfBool(b: bool): Truth { if b then True else False }

  function And3(a: Truth, b: Truth): Truth {
    if a == False || b == False then False else if a == True && b == True then True else Unknown
  }

  function Or3(a: Truth, b: Truth): Truth {
    if a == True || b == True then True else if a == False && b == False then False else Unknown
  }

  function ColumnValue(row: Row, column: Column): Value {
    match column
    case IdColumn => Present(Str(row.id))
    case ModifiedColumn => Present(Num(row.lastModified as real))
    case DataColumn(path) => Arrow(Obj(row.data), path)
  }

  /** JSONB containment, `container @> part`. */
  predicate Contained(container: Json, part: Json) {
    match part
    case Obj(fields) =>
      container.Obj? && forall k :: k in fields ==> k in container.fields && Contained(container.fields[k], fields[k])
    case Arr(items) =>
      container.Arr? && forall x :: x in items ==> exists y :: y in container.items && Contained(y, x)
    case _ => container == part
  }

  /** The SQL comparison operators; HAS has none. */
  predicate Compares(left: Value, operator: Operator, right: Value) {
    match operator
    case LT => Less(left, right)
    case MAX => Less(left, right) || left == right
    case EQ => left == right
    case NOT => left != right
    case MIN => Less(right, left) || left == right
    case GT => Less(right, left)
    case HAS => false
  }

  function Eval(c: Condition, row: Row): Truth {
    match c
    case IsNull(column) => OfBool(ColumnValue(row, column) == Missing)
    case IsNotNull(column) => OfBool(ColumnValue(row, column) != Missing)
    case Compare(column, operator, rhs) =>
      var left := ColumnValue(row, column);
      if left == Missing then Unknown else OfBool(Compares(left, operator, Present(rhs)))
    case DataContains(container) => OfBool(Contained(Obj(row.data), container))
    case Always => True
    case Never => False
    case And(a, b) => And3(Eval(a, row), Eval(b, row))
    case Or(a, b) => Or3(Eval(a, row), Eval(b, row))
  }

  /** `c1 AND c2 AND ...` */
  function EvalAll(cs: seq<Condition>, row: Row): Truth {
    if cs == [] then True else And3(EvalAll(cs[..|cs| - 1], row), Eval(cs[|cs| - 1], row))
  }

  /** `(rule 1) OR (rule 2) OR ...` */
  function EvalAny(rules: seq<seq<Condition>>, row: Row): Truth {
    if rules == [] then False else Or3(EvalAny(rules[..|rules| - 1], row), EvalAll(rules[|rules| - 1], row))
  }

  /** Containment of arrays: each member is contained in some member, order and repetition aside. */
  lemma {:induction false} ArraysContain(a: Json, b: Json, x: Json)
    requires a.Num? && b.Num? && x.Num?
    ensures Contained(Arr([a, b]), Arr([x])) <==> x == a || x == b
    ensures Contained(Arr([a]), Arr([x, x])) <==> x == a
    ensures Contained(Arr([a]), Arr([])) && !Contained(Arr([]), Arr([x])) && !Contained(Arr([a]), a)
  {
    assert forall y :: y in [a, b] <==> y == a || y == b;
    assert x in [x] && x in [x, x] && a in [a] && a in [a, b] && b in [a, b];
    assert Contained(a, x) <==> a == x;
    assert Contained(b, x) <==> b == x;
  }

  /** SQL's three values, false before unknown before true: AND takes the lesser, OR the greater. */
  lemma ThreeValued(a: Truth)
    ensures And3(a, True) == And3(True, a) == a && Or3(a, False) == Or3(False, a) == a
    ensures And3(a, False) == And3(False, a) == False && Or3(a, True) == Or3(True, a) == True
    ensures And3(Unknown, Unknown) == Or3(Unknown, Unknown) == Unknown
  {
  }

  // ---------- The translation ----------

  function Wrap(path: seq<string>, value: Json): Json {
    if path == [] then value else Obj(map[path[0] := Wrap(path[1..], value)])
  }

  /** `_build_containment_json`: the loop wraps the value from the last subfield outwards. */
  method BuildContainmentJson(field: string, value: Json) returns (obj: Json)
    ensures obj == Wrap(Split(field), value)
  {
    var parts := Split(field);
    obj := value;
    for i := |parts| downto 0
      invariant obj == Wrap(parts[i..], value)
    {
      assert parts[i..][1..] == parts[i + 1..];
      obj := Obj(map[parts[i] := obj]);
    }
    assert parts[0..] == parts;
  }

  predicate DataField(f: Filter) {
    f.field != "id" && f.field != "last_modified"
  }

  function ColumnOf(f: Filter): Column {
    if f.field == "id" then IdColumn
    else if f.field == "last_modified" then ModifiedColumn
    else DataColumn(Split(f.field))
  }

  /** The condition before missing fields are considered. */
  function Bare(f: Filter): Condition
    requires f.value.Present? || f.operator == HAS
  {
    if f.operator == HAS then (if Truthy(f.value) then IsNotNull(ColumnOf(f)) else IsNull(ColumnOf(f)))
    else if DataField(f) && f.operator == EQ && Scalar(f.value) then DataContains(Wrap(Split(f.field), f.value.json))
    else Compare(ColumnOf(f), f.operator, f.value.json)
  }

  /** A missing value on the id or timestamp column: no branch of the source covers it, and
      the condition of the previous filter is used again. */
  predicate Stale(f: Filter) {
    f.value.Missing? && !DataField(f) && f.operator != HAS
  }

  /** The condition of one filter, `None` where the source raises ValueError. */
  function ConditionOf(f: Filter): Option<Condition>
    requires !Stale(f)
  {
    if !DataField(f) then Some(Bare(f))
    else if f.value.Missing? then
      match f.operator
      case EQ | MIN => Some(IsNull(ColumnOf(f)))
      case LT => Some(IsNotNull(ColumnOf(f)))
      case MAX => Some(Always)
      case GT => Some(Never)
      case NOT | HAS => None
    else
      match f.operator
      case EQ => Some(And(IsNotNull(ColumnOf(f)), Bare(f)))
      case NOT | GT | MIN => Some(Or(IsNull(ColumnOf(f)), Bare(f)))
      case LT | MAX | HAS => Some(Bare(f))
  }

  ghost predicate NoneStale(filters: seq<Filter>) {
    forall i :: 0 <= i < |filters| ==> !Stale(filters[i])
  }

  /** The conditions of a filter list; `None` where the source raises, which it also does when
      the first filter is stale. */
  function Formatted(filters: seq<Filter>): (r: Option<seq<Condition>>)
    ensures r.Some? ==> |r.value| == |filters|
  {
    if filters == [] then Some([])
    else
      var n := |filters| - 1;
      var init := Formatted(filters[..n]);
      if init.None? then None
      else if Stale(filters[n]) then (if n == 0 then None else Some(init.value + [init.value[n - 1]]))
      else
        var c := ConditionOf(filters[n]);
        if c.None? then None else Some(init.value + [c.value])
  }

  /** `_format_conditions` */
  method FormatConditions(filters: seq<Filter>) returns (r: Option<seq<Condition>>)
    ensures r == Formatted(filters)
  {
    var conditions, cond := [], None;
    for i := 0 to |filters|
      invariant Formatted(filters[..i]) == Some(conditions)
      invariant cond == if i == 0 then None else Some(conditions[i - 1])
    {
      var f := filters[i];
      var column := ColumnOf(f);
      assert filters[..i + 1][..i] == filters[..i];
      if f.operator == HAS {
        cond := Some(if Truthy(f.value) then IsNotNull(column) else IsNull(column));
      } else if f.value.Present? {
        if DataField(f) && f.operator == EQ && Scalar(f.value) {
          var container := BuildContainmentJson(f.field, f.value.json);
          cond := Some(DataContains(container));
        } else {
          cond := Some(Compare(column, f.operator, f.value.json));
        }
      }
      if DataField(f) {
        if f.value.Missing? {
          if f.operator == EQ || f.operator == MIN {
            cond := Some(IsNull(column));
          } else if f.operator == LT {
            cond := Some(IsNotNull(column));
          } else if f.operator == MAX {
            cond := Some(Always);
          } else if f.operator == GT {
            cond := Some(Never);
          } else {
            FailureStays(filters, i + 1);
            return None;
          }
        } else if f.operator == EQ {
          cond := Some(And(IsNotNull(column), cond.value));
        } else if f.operator == NOT || f.operator == GT || f.operator == MIN {
          cond := Some(Or(IsNull(column), cond.value));
        }
      }
      if cond.None? {
        FailureStays(filters, i + 1);
        return None;
      }
      conditions := conditions + [cond.value];
    }
    assert filters[..|filters|] == filters;
    r := Some(conditions);
  }

  lemma {:induction false} FailureStays(filters: seq<Filter>, i: nat)
    requires i <= |filters| && Formatted(filters[..i]).None?
    ensures Formatted(filters).None?
  {
    if i == |filters| {
      assert filters[..i] == filters;
    } else {
      var n := |filters| - 1;
      assert filters[..n][..i] == filters[..i];
      FailureStays(filters[..n], i);
    }
  }

  ghost predicate Translates(filters: seq<Filter>, conditions: seq<Condition>)
    requires NoneStale(filters)
  {
    |conditions| == |filters| &&
    forall i :: 0 <= i < |filters| ==> ConditionOf(filters[i]) == Some(conditions[i])
  }

  /** Without a stale filter: one condition each, or some filter has none. */
  lemma {:induction false} FormattedTranslates(filters: seq<Filter>)
    requires NoneStale(filters)
    ensures Formatted(filters).Some? ==> Translates(filters, Formatted(filters).value)
    ensures Formatted(filters).None? ==> exists i :: 0 <= i < |filters| && ConditionOf(filters[i]) == None
  {
    if filters != [] {
      var n := |filters| - 1;
      FormattedTranslates(filters[..n]);
      if i :| 0 <= i < n && ConditionOf(filters[..n][i]) == None {
        assert ConditionOf(filters[i]) == None;
      }
    }
  }

  // ---------- Lookups agree ----------

  lemma {:induction false} ContainmentIsEquality(j: Json, path: seq<string>, v: Json)
    requires Scalar(Present(v))
    ensures Contained(j, Wrap(path, v)) <==> Arrow(j, path) == Present(v)
  {
    if path != [] {
      var inner := Wrap(path[1..], v);
      assert Wrap(path, v).fields == map[path[0] := inner];
      if j.Obj? && path[0] in j.fields {
        ContainmentIsEquality(j.fields[path[0]], path[1..], v);
        assert Contained(j, Wrap(path, v)) <==> Contained(j.fields[path[0]], inner);
      }
    }
  }

  /** The same object as the in-memory backend holds it. */
  function MemoryObject(row: Row): Dict {
    row.data["id" := Str(row.id)]["last_modified" := Num(row.lastModified as real)]
  }

  predicate WellFormed(row: Row) {
    "id" !in row.data && "last_modified" !in row.data && Undotted(Obj(row.data))
  }

  lemma ColumnIsField(row: Row, f: Filter)
    requires WellFormed(row)
    ensures FindNested(MemoryObject(row), f.field) == ColumnValue(row, ColumnOf(f))
  {
    var d := MemoryObject(row);
    if DataField(f) {
      assert Undotted(Obj(d));
      FindNestedIsArrow(d, f.field);
      var parts := Split(f.field);
      if parts[0] == "id" || parts[0] == "last_modified" {
        HeadAlone(f.field);
        assert |parts| > 1;
        assert Arrow(Obj(d), parts) == Missing;
      } else {
        assert parts[0] in d <==> parts[0] in row.data;
      }
    }
  }

  // ---------- The translation keeps the meaning ----------

  /** The filters the comparison covers: scalar values on data fields (MISSING included, as
      pagination needs it), a string on the id column, a number on the timestamp column. */
  predicate Translatable(f: Filter) {
    if DataField(f) then
      Scalar(f.value) && (f.value.Missing? ==> f.operator != NOT && f.operator != HAS)
    else
      f.value.Present? && (f.operator == HAS || if f.field == "id" then f.value.json.Str? else f.value.json.Num?)
  }

  /** Main result, one filter: the condition is TRUE exactly when the filter accepts. */
  lemma {:induction false} ConditionMeansFilter(row: Row, f: Filter)
    requires WellFormed(row) && Translatable(f)
    ensures ConditionOf(f).Some?
    ensures Eval(ConditionOf(f).value, row) == True <==> Holds(MemoryObject(row), f)
  {
    ColumnIsField(row, f);
    if DataField(f) && f.operator == EQ && f.value.Present? {
      ContainmentIsEquality(Obj(row.data), Split(f.field), f.value.json);
    }
  }

  ghost predicate AllTranslatable(filters: seq<Filter>) {
    forall i :: 0 <= i < |filters| ==> Translatable(filters[i])
  }

  lemma {:induction false} ConjunctionMeansAll(row: Row, filters: seq<Filter>, conditions: seq<Condition>)
    requires WellFormed(row) && AllTranslatable(filters) && Translates(filters, conditions)
    ensures EvalAll(conditions, row) == True <==> AllHold(MemoryObject(row), filters)
  {
    if filters != [] {
      var n := |filters| - 1;
      ConjunctionMeansAll(row, filters[..n], conditions[..n]);
      ConditionMeansFilter(row, filters[n]);
      assert filters == filters[..n] + [filters[n]];
      HoldsOneMore(MemoryObject(row), filters[..n], filters[n]);
    }
  }

  /** Main result, a filter list: both backends accept the same rows, except where HAS
      overrides in memory what SQL conjoins. */
  lemma {:induction false} WhereMeansFilters(row: Row, filters: seq<Filter>, conditions: seq<Condition>)
    requires WellFormed(row) && AllTranslatable(filters) && Translates(filters, conditions)
    ensures var o, k := MemoryObject(row), LastHas(filters);
            (EvalAll(conditions, row) == True <==> Matches(o, filters))
            <==> (AllHold(o, filters[..k]) || !AllHold(o, filters[k..]))
    ensures (forall i :: 0 < i < |filters| ==> filters[i].operator != HAS) ==>
              (EvalAll(conditions, row) == True <==> Matches(MemoryObject(row), filters))
  {
    ConjunctionMeansAll(row, filters, conditions);
    MatchesIsConjunction(MemoryObject(row), filters);
    if forall i :: 0 < i < |filters| ==> filters[i].operator != HAS {
      LastHasZero(filters);
    }
  }

  // ---------- Stale filters ----------

  /** The filters that are not stale. */
  function Effective(filters: seq<Filter>): seq<Filter> {
    Select(filters, (f: Filter) => !Stale(f))
  }

  lemma {:induction false} EffectiveGrows(filters: seq<Filter>)
    requires filters != []
    ensures var n := |filters| - 1;
            Effective(filters) == Effective(filters[..n]) + if Stale(filters[n]) then [] else [filters[n]]
  {
    var n, p := |filters| - 1, (f: Filter) => !Stale(f);
    assert filters == filters[..n] + [filters[n]];
    SelectAppend(filters[..n], [filters[n]], p);
    assert Select([filters[n]], p) == (if p(filters[n]) then [filters[n]] else []) + Select([], p);
  }

  lemma {:induction false} HoldsOneMore(o: Dict, fs: seq<Filter>, f: Filter)
    ensures AllHold(o, fs + [f]) <==> AllHold(o, fs) && Holds(o, f)
  {
    AllHoldAppend(o, fs, [f]);
    assert AllHold(o, [f]) <==> Holds(o, [f][0]);
  }

  /** SQL ignores a stale filter that is not the first. */
  lemma {:induction false} StaleIsIgnored(row: Row, filters: seq<Filter>)
    requires WellFormed(row) && AllTranslatable(Effective(filters)) && Formatted(filters).Some?
    ensures EvalAll(Formatted(filters).value, row) == True <==> AllHold(MemoryObject(row), Effective(filters))
  {
    if filters != [] {
      var n, o := |filters| - 1, MemoryObject(row);
      var conditions, init := Formatted(filters).value, Formatted(filters[..n]).value;
      EffectiveGrows(filters);
      assert conditions[..n] == init;
      var kept := Effective(filters[..n]);
      if Stale(filters[n]) {
        assert kept + [] == kept;
        StaleIsIgnored(row, filters[..n]);
        assert init[..n] == init;
      } else {
        assert Effective(filters)[..|kept|] == kept && Effective(filters)[|kept|] == filters[n];
        assert AllTranslatable(kept) by {
          forall i | 0 <= i < |kept| ensures Translatable(kept[i]) { assert Effective(filters)[i] == kept[i]; }
        }
        StaleIsIgnored(row, filters[..n]);
        ConditionMeansFilter(row, filters[n]);
        HoldsOneMore(o, kept, filters[n]);
      }
    }
  }

  /** What memory makes of a stale filter: every object has an id and a timestamp. */
  predicate Harmless(f: Filter) {
    Stale(f) ==> f.operator == LT || f.operator == MAX || f.operator == NOT
  }

  predicate AllHarmless(filters: seq<Filter>) {
    forall i :: 0 <= i < |filters| ==> Harmless(filters[i])
  }

  lemma StaleHolds(row: Row, f: Filter)
    requires Stale(f)
    ensures Holds(MemoryObject(row), f) <==> Harmless(f)
  {
    var o := MemoryObject(row);
    assert f.field in o && FindNested(o, f.field) == Present(o[f.field]);
  }

  /** In memory a list holds when its effective filters do and its stale ones are harmless. */
  lemma {:induction false} HoldsSplit(row: Row, filters: seq<Filter>)
    ensures AllHold(MemoryObject(row), filters)
            <==> AllHold(MemoryObject(row), Effective(filters)) && AllHarmless(filters)
  {
    if filters != [] {
      var n, o := |filters| - 1, MemoryObject(row);
      var f, kept := filters[n], Effective(filters[..n]);
      HoldsSplit(row, filters[..n]);
      assert filters == filters[..n] + [f];
      HoldsOneMore(o, filters[..n], f);
      HarmlessOneMore(filters[..n], f);
      EffectiveGrows(filters);
      if Stale(f) {
        StaleHolds(row, f);
        assert kept + [] == kept;
      } else {
        HoldsOneMore(o, kept, f);
      }
    }
  }

  lemma HarmlessOneMore(fs: seq<Filter>, f: Filter)
    ensures AllHarmless(fs + [f]) <==> AllHarmless(fs) && Harmless(f)
  {
    if AllHarmless(fs + [f]) {
      forall i | 0 <= i < |fs| ensures Harmless(fs[i]) { assert (fs + [f])[i] == fs[i]; }
      assert (fs + [f])[|fs|] == f;
    }
  }

  lemma {:induction false} EffectiveAppend(fs: seq<Filter>, gs: seq<Filter>)
    ensures Effective(fs + gs) == Effective(fs) + Effective(gs)
  {
    SelectAppend(fs, gs, (f: Filter) => !Stale(f));
  }

  /** Main result, any filter list that translates, HAS and stale filters included: SQL and
      memory accept the same rows exactly where the filters from the last HAS on reject, or the
      filters before it reject when, and only when, one of the stale filters from it on is
      harmful. */
  lemma {:induction false} BackendsAgree(row: Row, filters: seq<Filter>)
    requires WellFormed(row) && AllTranslatable(Effective(filters)) && Formatted(filters).Some?
    ensures var o, k := MemoryObject(row), LastHas(filters);
            (EvalAll(Formatted(filters).value, row) == True <==> Matches(o, filters))
            <==> || !AllHold(o, Effective(filters[k..]))
                 || (AllHold(o, Effective(filters[..k])) <==> AllHarmless(filters[k..]))
  {
    var o, k := MemoryObject(row), LastHas(filters);
    StaleIsIgnored(row, filters);
    MatchesFromLastHas(o, filters);
    HoldsSplit(row, filters[k..]);
    assert filters == filters[..k] + filters[k..];
    EffectiveAppend(filters[..k], filters[k..]);
    AllHoldAppend(o, Effective(filters[..k]), Effective(filters[k..]));
  }

  /** The same without HAS, as in pagination: the backends agree on every row exactly when the
      stale filters are harmless, or some other filter rejects the row. */
  lemma {:induction false} BackendsAgreeWithoutHas(row: Row, filters: seq<Filter>)
    requires WellFormed(row) && AllTranslatable(Effective(filters)) && Formatted(filters).Some?
    requires forall i :: 0 <= i < |filters| ==> filters[i].operator != HAS
    ensures var o := MemoryObject(row);
            (EvalAll(Formatted(filters).value, row) == True <==> Matches(o, filters))
            <==> AllHarmless(filters) || !AllHold(o, Effective(filters))
  {
    LastHasZero(filters);
    assert filters[0..] == filters && Effective(filters[..0]) == [];
    BackendsAgree(row, filters);
  }

  ghost predicate HasNoCondition(filters: seq<Filter>) {
    exists i :: 0 <= i < |filters| && !Stale(filters[i]) && ConditionOf(filters[i]) == None
  }

  /** When the translation fails, for any filter list. */
  lemma {:induction false} FormattedFails(filters: seq<Filter>)
    ensures Formatted(filters).None? <==> (filters != [] && Stale(filters[0])) || HasNoCondition(filters)
  {
    if filters != [] {
      var n := |filters| - 1;
      FormattedFails(filters[..n]);
      if HasNoCondition(filters[..n]) {
        var i :| 0 <= i < n && !Stale(filters[..n][i]) && ConditionOf(filters[..n][i]) == None;
        assert ConditionOf(filters[i]) == None;
      }
      if HasNoCondition(filters) {
        var i :| 0 <= i < |filters| && !Stale(filters[i]) && ConditionOf(filters[i]) == None;
        assert i < n ==> filters[..n][i] == filters[i];
      }
      assert n > 0 ==> filters[..n][0] == filters[0];
    }
  }

  /** The token holds `a` and no timestamp; the sorting is `a`, then the timestamp, ascending. */
  function TokenRules(): seq<seq<Filter>> {
    Rules([Sort("a", false), Sort("last_modified", false)], map["a" := Null])
  }

  lemma TokenRulesAre()
    ensures TokenRules()[0] == [Filter("a", Present(Null), EQ), Filter("last_modified", Missing, GT)]
    ensures TokenRules()[1] == [Filter("a", Present(Null), GT)]
  {
    var sorting, last := [Sort("a", false), Sort("last_modified", false)], map["a" := Null];
    assert Get(last, "a") == Present(Null) && Get(last, "last_modified") == Missing;
    RulesIndex(sorting, last, 0);
    RulesIndex(sorting, last, 1);
    assert sorting[..2] == sorting && sorting[..1] == [Sort("a", false)];
  }

  lemma {:induction false} EvalAnyOfTwo(rules: seq<seq<Condition>>, row: Row)
    requires |rules| == 2 && EvalAll(rules[0], row) == True
    ensures EvalAny(rules, row) == True
  {
    assert rules[..1][0] == rules[0];
    assert EvalAny(rules[..1], row) == Or3(EvalAny(rules[..1][..0], row), EvalAll(rules[..1][0], row));
  }

  lemma {:induction false} RuleCountOfTwo(o: Dict, rules: seq<seq<Filter>>)
    requires |rules| == 2 && !Matches(o, rules[0]) && !Matches(o, rules[1])
    ensures RuleCount(o, rules) == 0
  {
    assert rules[..1][0] == rules[0];
    assert RuleCount(o, rules[..1]) == RuleCount(o, rules[..1][..0]) + 0;
  }

  /** The translation of such rules exists, and SQL returns a row that memory does not. */
  lemma {:induction false} StaleTokenDisagrees()
    ensures var rules, row := TokenRules(), Row("x", 1, map["a" := Null]);
            && |rules| == 2 && WellFormed(row) && Formatted(rules[0]).Some? && Formatted(rules[1]).Some?
            && EvalAny([Formatted(rules[0]).value, Formatted(rules[1]).value], row) == True
            && RuleCount(MemoryObject(row), rules) == 0
  {
    var rules, row := TokenRules(), Row("x", 1, map["a" := Null]);
    var same, stale := Filter("a", Present(Null), EQ), Filter("last_modified", Missing, GT);
    var after, o := Filter("a", Present(Null), GT), MemoryObject(row);
    TokenRulesAre();
    assert Undotted(Obj(row.data)) && FindNested(o, "a") == Present(Null);
    StaleHolds(row, stale);
    RejectedByOne(o, rules[0], 1);
    RejectedByOne(o, rules[1], 0);
    RuleCountOfTwo(o, rules);
    FormattedFails(rules[0]);
    FormattedFails(rules[1]);
    SameIsAccepted(row, same, stale, Formatted(rules[0]).value);
    EvalAnyOfTwo([Formatted(rules[0]).value, Formatted(rules[1]).value], row);
  }

  lemma {:induction false} RejectedByOne(o: Dict, filters: seq<Filter>, i: nat)
    requires i < |filters| && !Holds(o, filters[i])
    requires forall k :: 0 <= k < |filters| ==> filters[k].operator != HAS
    ensures !Matches(o, filters)
  {
    MatchesWithoutHas(o, filters);
  }

  lemma {:induction false} SameIsAccepted(row: Row, f: Filter, stale: Filter, conditions: seq<Condition>)
    requires WellFormed(row) && Translatable(f) && !Stale(f) && Stale(stale) && Holds(MemoryObject(row), f)
    requires Formatted([f, stale]) == Some(conditions)
    ensures EvalAll(conditions, row) == True
  {
    EffectiveGrows([f, stale]);
    EffectiveGrows([f]);
    assert [f, stale][..1] == [f] && [f][..0] == [];
    assert Effective([]) + [f] == [f] && [f] + [] == [f];
    StaleIsIgnored(row, [f, stale]);
  }

  /** A HAS that is not first makes the backends differ: `lt_a=0` then `has_b=true`. */
  lemma HasOverrides()
    ensures var filters := [Filter("a", Present(Num(0.0)), LT), Filter("b", Present(Bool(true)), HAS)];
            var row := Row("x", 1, map["a" := Num(1.0), "b" := Null]);
            && WellFormed(row) && AllTranslatable(filters)
            && Matches(MemoryObject(row), filters)
            && forall conditions :: Translates(filters, conditions) ==> EvalAll(conditions, row) != True
  {
    var filters := [Filter("a", Present(Num(0.0)), LT), Filter("b", Present(Bool(true)), HAS)];
    var row := Row("x", 1, map["a" := Num(1.0), "b" := Null]);
    assert Undotted(Obj(row.data));
    var o := MemoryObject(row);
    assert FindNested(o, "a") == Present(Num(1.0)) && FindNested(o, "b") == Present(Null);
    assert filters[1].operator == HAS && Holds(o, filters[1]) && !Holds(o, filters[0]);
    assert Matches(o, filters);
    forall conditions | Translates(filters, conditions) ensures EvalAll(conditions, row) != True {
      ConjunctionMeansAll(row, filters, conditions);
    }
  }

  // ---------- Pagination rules ----------

  /** `_format_pagination` */
  method FormatPagination(rules: seq<seq<Filter>>) returns (r: Option<seq<seq<Condition>>>)
    ensures r.Some? ==> |r.value| == |rules| && forall i :: 0 <= i < |rules| ==> Formatted(rules[i]) == Some(r.value[i])
    ensures r.None? ==> exists i :: 0 <= i < |rules| && Formatted(rules[i]).None?
  {
    var formatted := [];
    for i := 0 to |rules|
      invariant |formatted| == i
      invariant forall j :: 0 <= j < i ==> Formatted(rules[j]) == Some(formatted[j])
    {
      var rule := FormatConditions(rules[i]);
      if rule.None? { return None; }
      formatted := formatted + [rule.value];
    }
    r := Some(formatted);
  }

  lemma {:induction false} AnyMeansCount(row: Row, rules: seq<seq<Filter>>, formatted: seq<seq<Condition>>)
    requires WellFormed(row) && |formatted| == |rules|
    requires forall i :: 0 <= i < |rules| ==> AllTranslatable(rules[i]) && Translates(rules[i], formatted[i])
    requires forall i, j :: 0 <= i < |rules| && 0 <= j < |rules[i]| ==> rules[i][j].operator != HAS
    ensures EvalAny(formatted, row) == True <==> RuleCount(MemoryObject(row), rules) > 0
  {
    if rules != [] {
      var n := |rules| - 1;
      AnyMeansCount(row, rules[..n], formatted[..n]);
      WhereMeansFilters(row, rules[n], formatted[n]);
    }
  }

  /** Main result, pagination: the SQL disjunction returns a row once when the in-memory
      union holds it at all, so the two give the same rows exactly when no object matches two rules. */
  lemma {:induction false} PaginationAgrees(row: Row, rules: seq<seq<Filter>>, formatted: seq<seq<Condition>>)
    requires WellFormed(row) && |formatted| == |rules|
    requires forall i :: 0 <= i < |rules| ==> AllTranslatable(rules[i]) && Translates(rules[i], formatted[i])
    requires forall i, j :: 0 <= i < |rules| && 0 <= j < |rules[i]| ==> rules[i][j].operator != HAS
    ensures var o := MemoryObject(row);
            |ByRules([o], rules)| == (if EvalAny(formatted, row) == True then 1 else 0) <==> RuleCount(o, rules) <= 1
  {
    AnyMeansCount(row, rules, formatted);
    UnionHoldsRuleCount(MemoryObject(row), rules);
  }

  /** The rules that a token yields select in SQL exactly the rows after the token's object. */
  lemma {:induction false} SqlPageFollowsToken(row: Row, sorting: seq<Sort>, x: Dict, formatted: seq<seq<Condition>>)
    requires WellFormed(row)
    requires var rules := Rules(sorting, TokenOf(sorting, x));
             && |formatted| == |rules|
             && forall i :: 0 <= i < |rules| ==> AllTranslatable(rules[i]) && Translates(rules[i], formatted[i])
    ensures EvalAny(formatted, row) == True <==> KeyLess(x, MemoryObject(row), Keys(sorting))
  {
    var rules := Rules(sorting, TokenOf(sorting, x));
    RulesAcceptWhatFollows(sorting, x, MemoryObject(row));
    CountAtMostOne(MemoryObject(row), rules);
    RulesHaveNoHas(sorting, TokenOf(sorting, x));
    AnyMeansCount(row, rules, formatted);
  }

  lemma {:induction false} RulesHaveNoHas(sorting: seq<Sort>, last: Dict)
    ensures var rules: seq<seq<Filter>> := Rules(sorting, last);
            forall i, j :: 0 <= i < |rules| && 0 <= j < |rules[i]| ==> rules[i][j].operator != HAS
  {
    var rules: seq<seq<Filter>> := Rules(sorting, last);
    forall i, j | 0 <= i < |rules| && 0 <= j < |rules[i]| ensures rules[i][j].operator != HAS {
      RulesIndex(sorting, last, i);
    }
  }
}
