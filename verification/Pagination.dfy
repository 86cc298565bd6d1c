/** Keyset pagination: the token, the rules rebuilt from it, one page of a plural
    GET, and the walk along Next-Page. */
module Pagination {
  import opened Options
  import opened Json
  import opened Collections
  import opened Sorting
  import opened Query

  // ---------- The page size ----------

  /** `_extract_limit`.  An absent `_limit` is `None`; a setting that is absent is 0.  An
      explicit `_limit` of 0 escapes the `paginate_by` setting. */
  function ExtractLimit(requested: Option<nat>, paginateBy: nat, maxFetchSize: nat): (limit: nat)
    ensures limit <= maxFetchSize && (maxFetchSize > 0 ==> limit > 0)
    ensures requested == Some(0) ==> limit == maxFetchSize
    ensures requested.Some? && requested.value > 0 ==> limit <= requested.value
    ensures requested != Some(0) && paginateBy > 0 ==> limit <= paginateBy
    ensures limit == maxFetchSize || limit == paginateBy || requested == Some(limit)
  {
    var l := if requested.Some? then requested.value else paginateBy;
    var l' := if l != 0 && paginateBy != 0 && paginateBy < l then paginateBy else l;
    if l' == 0 || maxFetchSize < l' then maxFetchSize else l'
  }

  /** Next-Page carries the limit of its own page.  The next page has the same size except
      after an explicit `_limit=0` that the setting would have cut. */
  lemma LimitIsStable(requested: Option<nat>, paginateBy: nat, maxFetchSize: nat)
    ensures var limit := ExtractLimit(requested, paginateBy, maxFetchSize);
            ExtractLimit(Some(limit), paginateBy, maxFetchSize) == limit
            <==> !(requested == Some(0) && 0 < paginateBy < maxFetchSize)
  {
  }

  /** The sizes of the pages of a walk: that of the first page, and that of the others. */
  datatype PageSizes = PageSizes(first: nat, rest: nat)

  type Sizes = z: PageSizes | z.first > 0 && z.rest > 0 witness PageSizes(1, 1)

  function SizesOf(requested: Option<nat>, paginateBy: nat, maxFetchSize: nat): (z: Sizes)
    requires maxFetchSize > 0
  {
    var first := ExtractLimit(requested, paginateBy, maxFetchSize);
    PageSizes(first, ExtractLimit(Some(first), paginateBy, maxFetchSize))
  }

  /** From the second page on the size does not change any more. */
  lemma SizeSettles(requested: Option<nat>, paginateBy: nat, maxFetchSize: nat)
    requires maxFetchSize > 0
    ensures var z := SizesOf(requested, paginateBy, maxFetchSize);
            ExtractLimit(Some(z.rest), paginateBy, maxFetchSize) == z.rest <= z.first
  {
  }

  /** `_limit=0` with 5 objects a page: the first page has 10000, the others 5. */
  lemma ZeroLimitChangesPageSize()
    ensures SizesOf(Some(0), 5, 10000) == PageSizes(10000, 5)
  {
  }

  // ---------- The sorting ----------

  /** The characters that `\w` matches, and those that `strip` removes. */
  datatype Alphabet = Alphabet(word: char -> bool, blank: char -> bool)

  ghost predicate Sane(t: Alphabet) {
    && (forall c :: t.word(c) ==> !t.blank(c))
    && (forall c :: c in "last_modified" ==> t.word(c))
  }

  function Strip(s: string, blank: char -> bool): string {
    if s != "" && blank(s[0]) then Strip(s[1..], blank)
    else if s != "" && blank(s[|s| - 1]) then Strip(s[..|s| - 1], blank)
    else s
  }

  predicate WordsAndDots(t: Alphabet, s: string) {
    s == "" || ((t.word(s[0]) || s[0] == '.') && WordsAndDots(t, s[1..]))
  }

  /** An optional sign, then words and dots. */
  function ParseSort(t: Alphabet, field: string): Option<Sort> {
    var signed := field != "" && field[0] in "-+";
    var name := if signed then field[1..] else field;
    if name != "" && WordsAndDots(t, name) then
      Some(Sort(name, signed && field[0] == '-'))
    else None
  }

  /** The specified fields that parse, `None` when one of them is unknown. */
  function ParsedSorts(t: Alphabet, known: string -> bool, specified: seq<string>): Option<seq<Sort>> {
    if specified == [] then Some([])
    else
      var n := |specified| - 1;
      var init, m := ParsedSorts(t, known, specified[..n]), ParseSort(t, Strip(specified[n], t.blank));
      if init.None? || m.None? then init
      else if known(m.value.field) then Some(init.value + [m.value])
      else None
  }

  /** The sorting of a request, `None` for a bad one. */
  function SortingOf(t: Alphabet, known: string -> bool, specified: seq<string>): Option<seq<Sort>> {
    var parsed := ParsedSorts(t, known, specified);
    if parsed.None? || "last_modified" in specified then parsed
    else Some(parsed.value + [Sort("last_modified", true)])
  }

  /** `_extract_sorting` */
  method ExtractSorting(t: Alphabet, known: string -> bool, specified: seq<string>) returns (r: Option<seq<Sort>>)
    ensures r == SortingOf(t, known, specified)
    ensures Distinguishes(t) ==> Yields(t, known, specified, r)
    ensures specified == [] ==> r == Some([Sort("last_modified", true)])
  {
    if Distinguishes(t) { SortingIsYielded(t, known, specified); }
    var sorting := [];
    var modifiedFieldUsed := "last_modified" in specified;
    for i := 0 to |specified|
      invariant ParsedSorts(t, known, specified[..i]) == Some(sorting)
    {
      assert specified[..i + 1][..i] == specified[..i];
      var m := ParseSort(t, Strip(specified[i], t.blank));
      if m.Some? {
        if !known(m.value.field) {
          UnknownStays(t, known, specified, i + 1);
          return None;
        }
        sorting := sorting + [m.value];
      }
    }
    assert specified[..|specified|] == specified;
    if !modifiedFieldUsed {
      sorting := sorting + [Sort("last_modified", true)];
    }
    r := Some(sorting);
    assert specified == [] ==> sorting == [Sort("last_modified", true)];
  }

  lemma {:induction false} UnknownStays(t: Alphabet, known: string -> bool, specified: seq<string>, i: nat)
    requires i <= |specified| && ParsedSorts(t, known, specified[..i]).None?
    ensures ParsedSorts(t, known, specified).None?
  {
    if i == |specified| {
      assert specified[..i] == specified;
    } else {
      var n := |specified| - 1;
      assert specified[..n][..i] == specified[..i];
      UnknownStays(t, known, specified[..n], i);
    }
  }

  // ---------- What a request's sorting means ----------

  /** Signs, dots and words are told apart, and none of them is blank. */
  ghost predicate Distinguishes(t: Alphabet) {
    Sane(t) && forall c :: c in "-+." ==> !t.blank(c) && !t.word(c)
  }

  predicate AllBlank(t: Alphabet, s: string) {
    forall i :: 0 <= i < |s| ==> t.blank(s[i])
  }

  predicate WellNamed(t: Alphabet, name: string) {
    name != "" && forall i :: 0 <= i < |name| ==> t.word(name[i]) || name[i] == '.'
  }

  lemma {:induction false} WordsAndDotsAt(t: Alphabet, s: string)
    ensures WordsAndDots(t, s) <==> forall i :: 0 <= i < |s| ==> t.word(s[i]) || s[i] == '.'
  {
    if s != "" {
      WordsAndDotsAt(t, s[1..]);
      assert s == [s[0]] + s[1..];
    }
  }

  /** The field is an optional sign and a name, blanks around them; `-` means descending. */
  ghost predicate Says(t: Alphabet, field: string, s: Sort) {
    exists before, sign, after ::
      && AllBlank(t, before) && AllBlank(t, after) && WellNamed(t, s.field)
      && SignOf(sign, s.desc) && field == Spelled(before, sign, s.field, after)
  }

  function Spelled(before: string, sign: string, name: string, after: string): string {
    before + (sign + name) + after
  }

  lemma {:induction false} StripBlanks(t: Alphabet, before: string, s: string, after: string)
    requires AllBlank(t, before) && AllBlank(t, after)
    requires s != "" && !t.blank(s[0]) && !t.blank(s[|s| - 1])
    ensures Strip(before + s + after, t.blank) == s
    decreases |before| + |after|
  {
    var all := before + s + after;
    if before != "" {
      assert all[1..] == before[1..] + s + after && t.blank(all[0]);
      StripBlanks(t, before[1..], s, after);
    } else if after != "" {
      var n := |after| - 1;
      assert all[..|all| - 1] == before + s + after[..n] && t.blank(after[n]);
      assert all[|all| - 1] == after[n] && all[0] == s[0];
      StripBlanks(t, before, s, after[..n]);
    } else {
      assert all == s;
    }
  }

  lemma {:induction false} StripTakesBlanks(t: Alphabet, field: string) returns (before: string, after: string)
    ensures AllBlank(t, before) && AllBlank(t, after) && field == before + Strip(field, t.blank) + after
    decreases |field|
  {
    if field != "" && t.blank(field[0]) {
      var rest;
      rest, after := StripTakesBlanks(t, field[1..]);
      before := [field[0]] + rest;
      assert field == [field[0]] + (rest + Strip(field[1..], t.blank) + after);
    } else if field != "" && t.blank(field[|field| - 1]) {
      var n, rest := |field| - 1, "";
      before, rest := StripTakesBlanks(t, field[..n]);
      after := rest + [field[n]];
      assert field == (before + Strip(field[..n], t.blank) + rest) + [field[n]];
    } else {
      before, after := "", "";
    }
  }

  predicate SignOf(sign: string, desc: bool) {
    if desc then sign == "-" else sign == "" || sign == "+"
  }

  /** A field is read as what it says, and not read when it says nothing. */
  lemma {:induction false} ReadAsSaid(t: Alphabet, field: string, s: Sort)
    requires Distinguishes(t)
    ensures ParseSort(t, Strip(field, t.blank)) == Some(s) <==> Says(t, field, s)
  {
    if Says(t, field, s) {
      var before, sign, after :|
        && AllBlank(t, before) && AllBlank(t, after) && WellNamed(t, s.field) && SignOf(sign, s.desc)
        && field == Spelled(before, sign, s.field, after);
      SpelledIsRead(t, before, sign, s, after);
    }
    if ParseSort(t, Strip(field, t.blank)) == Some(s) { ReadIsSpelled(t, field, s); }
  }

  lemma {:induction false} SpelledIsRead(t: Alphabet, before: string, sign: string, s: Sort, after: string)
    requires Distinguishes(t) && AllBlank(t, before) && AllBlank(t, after)
    requires WellNamed(t, s.field) && SignOf(sign, s.desc)
    ensures ParseSort(t, Strip(Spelled(before, sign, s.field, after), t.blank)) == Some(s)
  {
    SignedIsRead(t, sign, s);
    StripBlanks(t, before, sign + s.field, after);
  }

  lemma {:induction false} ReadIsSpelled(t: Alphabet, field: string, s: Sort)
    requires ParseSort(t, Strip(field, t.blank)) == Some(s)
    ensures Says(t, field, s)
  {
    var before, after := StripTakesBlanks(t, field);
    var sign := ReadHasSign(t, Strip(field, t.blank), s);
    assert field == Spelled(before, sign, s.field, after);
  }

  lemma {:induction false} ReadHasSign(t: Alphabet, core: string, s: Sort) returns (sign: string)
    requires ParseSort(t, core) == Some(s)
    ensures core == sign + s.field && SignOf(sign, s.desc) && WellNamed(t, s.field)
  {
    sign := if core[0] == '-' then "-" else if core[0] == '+' then "+" else "";
    if sign == "" { assert sign + core == core; } else { assert core == sign + core[1..]; }
    WordsAndDotsAt(t, s.field);
  }

  lemma {:induction false} SignedIsRead(t: Alphabet, sign: string, s: Sort)
    requires Distinguishes(t) && WellNamed(t, s.field)
    requires SignOf(sign, s.desc)
    ensures ParseSort(t, sign + s.field) == Some(s)
    ensures var core := sign + s.field; core != "" && !t.blank(core[0]) && !t.blank(core[|core| - 1])
  {
    var core := sign + s.field;
    WordsAndDotsAt(t, s.field);
    assert core[|core| - 1] == s.field[|s.field| - 1];
    if sign == "" { assert core == s.field; } else { assert core[1..] == s.field; }
  }

  /** What a field says, if it says anything. */
  ghost predicate Read(t: Alphabet, field: string, m: Option<Sort>) {
    if m.Some? then Says(t, field, m.value) else forall s :: !Says(t, field, s)
  }

  function Somes(ms: seq<Option<Sort>>): seq<Sort> {
    if ms == [] then []
    else Somes(ms[..|ms| - 1]) + if ms[|ms| - 1].Some? then [ms[|ms| - 1].value] else []
  }

  predicate SomeUnknown(known: string -> bool, ms: seq<Option<Sort>>) {
    exists i :: 0 <= i < |ms| && ms[i].Some? && !known(ms[i].value.field)
  }

  ghost predicate AllRead(t: Alphabet, specified: seq<string>, ms: seq<Option<Sort>>) {
    |ms| == |specified| && forall i :: 0 <= i < |ms| ==> Read(t, specified[i], ms[i])
  }

  /** Newest first, unless the request sorts on the timestamp as such. */
  function DefaultSort(specified: seq<string>): seq<Sort> {
    if "last_modified" in specified then [] else [Sort("last_modified", true)]
  }

  /** The sorting of a request: what its fields say, in order, and the default; an error iff a
      field names what is unknown. */
  ghost predicate Yields(t: Alphabet, known: string -> bool, specified: seq<string>, r: Option<seq<Sort>>) {
    exists ms :: AllRead(t, specified, ms)
                 && r == if SomeUnknown(known, ms) then None else Some(Somes(ms) + DefaultSort(specified))
  }

  function Readings(t: Alphabet, specified: seq<string>): (ms: seq<Option<Sort>>)
    ensures |ms| == |specified|
  {
    seq(|specified|, i requires 0 <= i < |specified| => ParseSort(t, Strip(specified[i], t.blank)))
  }

  lemma {:induction false} ParsedAreSomes(t: Alphabet, known: string -> bool, specified: seq<string>)
    ensures var ms := Readings(t, specified);
            ParsedSorts(t, known, specified) == if SomeUnknown(known, ms) then None else Some(Somes(ms))
  {
    if specified != [] {
      var n, ms := |specified| - 1, Readings(t, specified);
      ParsedAreSomes(t, known, specified[..n]);
      assert ms[..n] == Readings(t, specified[..n]);
      assert SomeUnknown(known, ms) <==>
             SomeUnknown(known, ms[..n]) || (ms[n].Some? && !known(ms[n].value.field));
      assert Somes(ms[..n]) + [] == Somes(ms[..n]);
    }
  }

  lemma {:induction false} SortingIsYielded(t: Alphabet, known: string -> bool, specified: seq<string>)
    requires Distinguishes(t)
    ensures Yields(t, known, specified, SortingOf(t, known, specified))
  {
    var ms := Readings(t, specified);
    ParsedAreSomes(t, known, specified);
    forall i | 0 <= i < |ms| ensures Read(t, specified[i], ms[i]) {
      forall s ensures ms[i] == Some(s) <==> Says(t, specified[i], s) { ReadAsSaid(t, specified[i], s); }
    }
    assert Somes(ms) + [] == Somes(ms);
    assert AllRead(t, specified, ms);
  }

  /** Without `_sort` the newest come first. */
  lemma {:induction false} DefaultIsNewestFirst(t: Alphabet, known: string -> bool, r: Option<seq<Sort>>)
    requires Yields(t, known, [], r)
    ensures r == Some([Sort("last_modified", true)])
  {
    var ms: seq<Option<Sort>> :| AllRead(t, [], ms)
              && r == if SomeUnknown(known, ms) then None else Some(Somes(ms) + DefaultSort([]));
    assert ms == [] && Somes(ms) == [] && [] + DefaultSort([]) == [Sort("last_modified", true)];
  }

  /** A field says one thing only. */
  lemma {:induction false} SaysOneThing(t: Alphabet, field: string, s: Sort, u: Sort)
    requires Distinguishes(t) && Says(t, field, s) && Says(t, field, u)
    ensures s == u
  {
    ReadAsSaid(t, field, s);
    ReadAsSaid(t, field, u);
  }

  /** Fields that all say something known yield exactly that, in order. */
  lemma {:induction false} SaidIsYielded(t: Alphabet, known: string -> bool, specified: seq<string>, sorts: seq<Sort>,
                                         r: Option<seq<Sort>>)
    requires Distinguishes(t) && Yields(t, known, specified, r) && |sorts| == |specified|
    requires forall i :: 0 <= i < |sorts| ==> Says(t, specified[i], sorts[i]) && known(sorts[i].field)
    ensures r == Some(sorts + if "last_modified" in specified then [] else [Sort("last_modified", true)])
  {
    var ms: seq<Option<Sort>> :| AllRead(t, specified, ms)
              && r == if SomeUnknown(known, ms) then None else Some(Somes(ms) + DefaultSort(specified));
    forall i | 0 <= i < |ms| ensures ms[i] == Some(sorts[i]) {
      assert Read(t, specified[i], ms[i]);
      if ms[i].Some? { SaysOneThing(t, specified[i], ms[i].value, sorts[i]); }
    }
    SomesOfAll(ms, sorts);
  }

  lemma {:induction false} SomesOfAll(ms: seq<Option<Sort>>, sorts: seq<Sort>)
    requires |ms| == |sorts| && forall i :: 0 <= i < |ms| ==> ms[i] == Some(sorts[i])
    ensures Somes(ms) == sorts
  {
    if ms != [] {
      var n := |ms| - 1;
      SomesOfAll(ms[..n], sorts[..n]);
      LastApart(sorts);
    }
  }

  predicate ReadsTimestamp(sorting: seq<Sort>) {
    exists k :: 0 <= k < |sorting| && sorting[k].field == "last_modified"
  }

  /** Every sorting that a request yields reads `last_modified`. */
  lemma {:induction false} SortingReadsTimestamp(t: Alphabet, known: string -> bool, specified: seq<string>)
    requires Sane(t) && SortingOf(t, known, specified).Some?
    ensures ReadsTimestamp(SortingOf(t, known, specified).value)
  {
    var sorting := SortingOf(t, known, specified).value;
    if "last_modified" in specified {
      var i :| 0 <= i < |specified| && specified[i] == "last_modified";
      NamedFieldIsParsed(t, known, specified, i);
    } else {
      assert sorting[|sorting| - 1].field == "last_modified";
    }
  }

  lemma LastModifiedParses(t: Alphabet)
    requires Sane(t)
    ensures ParseSort(t, Strip("last_modified", t.blank)) == Some(Sort("last_modified", false))
  {
    var s := "last_modified";
    assert forall j :: 0 <= j < |s| ==> s[j] in s;
    PlainNameParses(t, s);
  }

  lemma {:induction false} PlainNameParses(t: Alphabet, s: string)
    requires s != "" && s[0] !in "-+" && !t.blank(s[0]) && !t.blank(s[|s| - 1])
    requires forall j :: 0 <= j < |s| ==> t.word(s[j])
    ensures ParseSort(t, Strip(s, t.blank)) == Some(Sort(s, false))
  {
    WordsAndDotsAt(t, s);
  }

  lemma {:induction false} NamedFieldIsParsed(t: Alphabet, known: string -> bool, specified: seq<string>, i: nat)
    requires Sane(t) && i < |specified| && specified[i] == "last_modified"
    requires ParsedSorts(t, known, specified).Some?
    ensures ReadsTimestamp(ParsedSorts(t, known, specified).value)
  {
    var n := |specified| - 1;
    var init, m := ParsedSorts(t, known, specified[..n]), ParseSort(t, Strip(specified[n], t.blank));
    if i == n {
      LastModifiedParses(t);
      assert ParsedSorts(t, known, specified).value[|init.value|].field == "last_modified";
    } else {
      NamedFieldIsParsed(t, known, specified[..n], i);
      var k :| 0 <= k < |init.value| && init.value[k].field == "last_modified";
      assert ParsedSorts(t, known, specified).value[k].field == "last_modified";
    }
  }

  // ---------- Token and rules ----------

  /** The token's `last_object`: the sort fields of `o` that are present. */
  function TokenOf(sorting: seq<Sort>, o: Dict): (token: Dict)
    ensures forall i :: 0 <= i < |sorting| ==> Get(token, sorting[i].field) == FindNested(o, sorting[i].field)
    ensures forall k :: k in token ==> Present(token[k]) == FindNested(o, k)
  {
    if sorting == [] then map[]
    else
      var n := |sorting| - 1;
      var rest := TokenOf(sorting[..n], o);
      match FindNested(o, sorting[n].field)
      case Missing => rest
      case Present(v) => rest[sorting[n].field := v]
  }

  /** The loop of `_build_pagination_token`. */
  method BuildPaginationToken(sorting: seq<Sort>, lastObject: Dict) returns (token: Dict)
    ensures token == TokenOf(sorting, lastObject)
  {
    token := map[];
    for i := 0 to |sorting|
      invariant token == TokenOf(sorting[..i], lastObject)
    {
      assert sorting[..i + 1][..i] == sorting[..i];
      var lastValue := FindNested(lastObject, sorting[i].field);
      if lastValue.Present? {
        token := token[sorting[i].field := lastValue.json];
      }
    }
    assert sorting[..|sorting|] == sorting;
  }

  /** Equality on every field but the last, strictly after on the last. */
  function RuleFor(sorting: seq<Sort>, last: Dict): (rule: seq<Filter>)
    requires sorting != []
    ensures |rule| == |sorting|
  {
    var n := |sorting| - 1;
    seq(n, i requires 0 <= i < n => Filter(sorting[i].field, Get(last, sorting[i].field), EQ))
    + [Filter(sorting[n].field, Get(last, sorting[n].field), if sorting[n].desc then LT else GT)]
  }

  /** One rule per non-empty prefix of the sorting, the longest first. */
  function Rules(sorting: seq<Sort>, last: Dict): (rules: seq<seq<Filter>>)
    ensures |rules| == |sorting|
  {
    if sorting == [] then [] else [RuleFor(sorting, last)] + Rules(sorting[..|sorting| - 1], last)
  }

  lemma {:induction false} RulesIndex(sorting: seq<Sort>, last: Dict, i: nat)
    requires i < |sorting|
    ensures Rules(sorting, last)[i] == RuleFor(sorting[..|sorting| - i], last)
  {
    var init := sorting[..|sorting| - 1];
    if i == 0 {
      assert sorting[..|sorting|] == sorting;
    } else {
      RulesIndex(init, last, i - 1);
      assert init[..|init| - (i - 1)] == sorting[..|sorting| - i];
    }
  }

  /** `_build_pagination_rules` */
  method BuildPaginationRules(sorting: seq<Sort>, lastObject: Dict, rules: seq<seq<Filter>>)
    returns (r: seq<seq<Filter>>)
    requires sorting != []
    ensures r == rules + Rules(sorting, lastObject)
    decreases |sorting|
  {
    var nextSorting := sorting[..|sorting| - 1];
    var rule := [];
    for i := 0 to |nextSorting|
      invariant rule == seq(i, j requires 0 <= j < i =>
                                 Filter(sorting[j].field, Get(lastObject, sorting[j].field), EQ))
    {
      rule := rule + [Filter(nextSorting[i].field, Get(lastObject, nextSorting[i].field), EQ)];
    }
    var Sort(field, desc) := sorting[|sorting| - 1];
    rule := rule + [Filter(field, Get(lastObject, field), if desc then LT else GT)];
    assert rule == RuleFor(sorting, lastObject);
    r := rules + [rule];
    if |nextSorting| == 0 {
      return;
    }
    r := BuildPaginationRules(nextSorting, lastObject, r);
  }

  // ---------- What the rules accept ----------

  predicate StrictlyAfterAt(x: Dict, o: Dict, sorting: seq<Sort>, k: nat)
    requires k < |sorting|
  {
    var keys := Keys(sorting);
    (forall i :: 0 <= i < k ==> keys[i].key(x) == keys[i].key(o)) &&
    Before(keys[k].key, keys[k].desc, x, o)
  }

  lemma {:induction false} MatchesWithoutHas(o: Dict, fs: seq<Filter>)
    requires forall i :: 0 <= i < |fs| ==> fs[i].operator != HAS
    ensures Matches(o, fs) <==> AllHold(o, fs)
  {
    LastHasZero(fs);
    MatchesFromLastHas(o, fs);
    assert fs[0..] == fs;
  }

  lemma {:induction false} RuleMeaning(sorting: seq<Sort>, x: Dict, o: Dict, k: nat)
    requires k < |sorting|
    ensures Matches(o, RuleFor(sorting[..k + 1], TokenOf(sorting, x))) <==> StrictlyAfterAt(x, o, sorting, k)
  {
    var rule, keys := RuleFor(sorting[..k + 1], TokenOf(sorting, x)), Keys(sorting);
    MatchesWithoutHas(o, rule);
    forall i | 0 <= i < k ensures Holds(o, rule[i]) <==> keys[i].key(x) == keys[i].key(o) {
      TieHolds(sorting, x, o, k, i);
    }
    StepHolds(sorting, x, o, k);
    assert AllHold(o, rule) <==> (forall i :: 0 <= i < k ==> Holds(o, rule[i])) && Holds(o, rule[k]);
  }

  /** The filters of a rule but the last one: equality on a column. */
  lemma {:induction false} TieHolds(sorting: seq<Sort>, x: Dict, o: Dict, k: nat, i: nat)
    requires i < k < |sorting|
    ensures Holds(o, RuleFor(sorting[..k + 1], TokenOf(sorting, x))[i])
            <==> Keys(sorting)[i].key(x) == Keys(sorting)[i].key(o)
  {
    assert Keys(sorting)[i] == SortKey(Column(sorting[i].field), sorting[i].desc);
  }

  /** The last one: a strict step on its column. */
  lemma {:induction false} StepHolds(sorting: seq<Sort>, x: Dict, o: Dict, k: nat)
    requires k < |sorting|
    ensures Holds(o, RuleFor(sorting[..k + 1], TokenOf(sorting, x))[k])
            <==> Before(Keys(sorting)[k].key, Keys(sorting)[k].desc, x, o)
  {
    var rule, field, desc := RuleFor(sorting[..k + 1], TokenOf(sorting, x)), sorting[k].field, sorting[k].desc;
    assert rule[k] == Filter(field, FindNested(x, field), if desc then LT else GT);
    assert Keys(sorting)[k] == SortKey(Column(field), desc);
    StrictFilter(o, x, field, desc);
  }

  lemma {:induction false} StrictFilter(o: Dict, x: Dict, field: string, desc: bool)
    ensures Holds(o, Filter(field, FindNested(x, field), if desc then LT else GT))
            <==> Before(Column(field), desc, x, o)
  {
  }

  /** A position past the first one is a position in the rest of the sorting, on equal first keys. */
  lemma {:induction false} PositionInTail(x: Dict, o: Dict, sorting: seq<Sort>, k: nat)
    requires 0 < k < |sorting|
    ensures StrictlyAfterAt(x, o, sorting, k)
            <==> Keys(sorting)[0].key(x) == Keys(sorting)[0].key(o) && StrictlyAfterAt(x, o, sorting[1..], k - 1)
  {
    var keys, tail := Keys(sorting), Keys(sorting[1..]);
    assert forall i :: 0 <= i < |tail| ==> tail[i] == keys[i + 1];
    if keys[0].key(x) == keys[0].key(o) && StrictlyAfterAt(x, o, sorting[1..], k - 1) {
      forall i | 0 <= i < k ensures keys[i].key(x) == keys[i].key(o) {
        if i > 0 { assert keys[i] == tail[i - 1]; }
      }
    }
  }

  predicate SomePosition(x: Dict, o: Dict, sorting: seq<Sort>) {
    exists k :: 0 <= k < |sorting| && StrictlyAfterAt(x, o, sorting, k)
  }

  /** A position is the first one, or one in the rest of the sorting. */
  lemma {:induction false} PositionSplit(x: Dict, o: Dict, sorting: seq<Sort>)
    requires sorting != []
    ensures SomePosition(x, o, sorting)
            <==> StrictlyAfterAt(x, o, sorting, 0)
                 || (Keys(sorting)[0].key(x) == Keys(sorting)[0].key(o) && SomePosition(x, o, sorting[1..]))
  {
    if SomePosition(x, o, sorting) && !StrictlyAfterAt(x, o, sorting, 0) {
      var k :| 0 <= k < |sorting| && StrictlyAfterAt(x, o, sorting, k);
      PositionInTail(x, o, sorting, k);
    }
    if Keys(sorting)[0].key(x) == Keys(sorting)[0].key(o) && SomePosition(x, o, sorting[1..]) {
      var k :| 0 <= k < |sorting[1..]| && StrictlyAfterAt(x, o, sorting[1..], k);
      PositionInTail(x, o, sorting, k + 1);
    }
  }

  lemma {:induction false} KeyLessAt(x: Dict, o: Dict, sorting: seq<Sort>)
    ensures KeyLess(x, o, Keys(sorting)) <==> SomePosition(x, o, sorting)
  {
    if sorting != [] {
      assert Keys(sorting)[1..] == Keys(sorting[1..]);
      KeyLessAt(x, o, sorting[1..]);
      PositionSplit(x, o, sorting);
      assert StrictlyAfterAt(x, o, sorting, 0) <==> Before(Keys(sorting)[0].key, Keys(sorting)[0].desc, x, o);
    }
  }

  predicate SomeRule(o: Dict, rules: seq<seq<Filter>>) {
    exists i :: 0 <= i < |rules| && Matches(o, rules[i])
  }

  ghost predicate AtMostOneRule(o: Dict, rules: seq<seq<Filter>>) {
    forall i, j :: 0 <= i < j < |rules| ==> !(Matches(o, rules[i]) && Matches(o, rules[j]))
  }

  /** The positions at which `o` is strictly after `x`. */
  function Positions(x: Dict, o: Dict, sorting: seq<Sort>): nat -> bool {
    (k: nat) => k < |sorting| && StrictlyAfterAt(x, o, sorting, k)
  }

  lemma {:induction false} RuleAt(sorting: seq<Sort>, x: Dict, o: Dict, i: nat)
    requires i < |sorting|
    ensures Matches(o, Rules(sorting, TokenOf(sorting, x))[i]) <==> Positions(x, o, sorting)(|sorting| - 1 - i)
  {
    RulesIndex(sorting, TokenOf(sorting, x), i);
    RuleMeaning(sorting, x, o, |sorting| - 1 - i);
  }

  /** The rules, the longest first, accept at the positions, the first one first. */
  predicate RuleMatches(o: Dict, rules: seq<seq<Filter>>, after: nat -> bool, i: nat)
    requires i < |rules|
  {
    Matches(o, rules[i]) <==> after(|rules| - 1 - i)
  }

  ghost predicate RulesMatch(o: Dict, rules: seq<seq<Filter>>, after: nat -> bool) {
    forall i :: 0 <= i < |rules| ==> RuleMatches(o, rules, after, i)
  }

  lemma {:induction false} AllRulesAt(sorting: seq<Sort>, x: Dict, o: Dict)
    ensures RulesMatch(o, Rules(sorting, TokenOf(sorting, x)), Positions(x, o, sorting))
  {
    var rules := Rules(sorting, TokenOf(sorting, x));
    forall i | 0 <= i < |rules| ensures RuleMatches(o, rules, Positions(x, o, sorting), i) {
      RuleAt(sorting, x, o, i);
    }
  }

  /** Main result: the rules rebuilt from the token of `x` accept exactly the objects
      strictly after `x`, and no object is accepted twice. */
  lemma {:induction false} RulesAcceptWhatFollows(sorting: seq<Sort>, x: Dict, o: Dict)
    ensures SomeRule(o, Rules(sorting, TokenOf(sorting, x))) <==> KeyLess(x, o, Keys(sorting))
    ensures AtMostOneRule(o, Rules(sorting, TokenOf(sorting, x)))
  {
    var rules, after, less := Rules(sorting, TokenOf(sorting, x)), Positions(x, o, sorting),
      KeyLess(x, o, Keys(sorting));
    AllRulesAt(sorting, x, o);
    PositionsDecide(sorting, x, o);
    RulesArePositions(o, rules, after, less, |sorting|);
  }

  ghost predicate OnePosition(after: nat -> bool, n: nat) {
    forall k: nat, l: nat :: k < l < n ==> !(after(k) && after(l))
  }

  ghost predicate Reaches(after: nat -> bool, n: nat) {
    exists k: nat :: k < n && after(k)
  }

  lemma {:induction false} PositionsDecide(sorting: seq<Sort>, x: Dict, o: Dict)
    ensures KeyLess(x, o, Keys(sorting)) <==> Reaches(Positions(x, o, sorting), |sorting|)
    ensures OnePosition(Positions(x, o, sorting), |sorting|)
  {
    var after := Positions(x, o, sorting);
    KeyLessAt(x, o, sorting);
    if KeyLess(x, o, Keys(sorting)) {
      var k :| 0 <= k < |sorting| && StrictlyAfterAt(x, o, sorting, k);
      assert after(k);
    }
    forall k: nat, l: nat | k < l < |sorting| ensures !(after(k) && after(l)) {
      AtMostOnePosition(x, o, sorting, k, l);
    }
  }

  lemma {:induction false} RulesArePositions(o: Dict, rules: seq<seq<Filter>>, after: nat -> bool, less: bool, n: nat)
    requires n == |rules| && RulesMatch(o, rules, after)
    requires OnePosition(after, n) && (less <==> Reaches(after, n))
    ensures SomeRule(o, rules) <==> less
    ensures AtMostOneRule(o, rules)
  {
    if k: nat :| k < |rules| && after(k) {
      assert RuleMatches(o, rules, after, |rules| - 1 - k);
    }
    if SomeRule(o, rules) {
      var i :| 0 <= i < |rules| && Matches(o, rules[i]);
      assert RuleMatches(o, rules, after, i);
    }
    forall i, j | 0 <= i < j < |rules| ensures !(Matches(o, rules[i]) && Matches(o, rules[j])) {
      assert RuleMatches(o, rules, after, i) && RuleMatches(o, rules, after, j);
      assert !(after(|rules| - 1 - j) && after(|rules| - 1 - i));
    }
  }

  lemma AtMostOnePosition(x: Dict, o: Dict, sorting: seq<Sort>, k: nat, l: nat)
    requires k < l < |sorting|
    ensures !(StrictlyAfterAt(x, o, sorting, k) && StrictlyAfterAt(x, o, sorting, l))
  {
    var keys := Keys(sorting);
    if StrictlyAfterAt(x, o, sorting, l) {
      assert keys[k].key(x) == keys[k].key(o);
      LessIrreflexive(keys[k].key(x));
    }
  }

  // ---------- Multiplicities in the union over the rules ----------

  /** How many rules accept an object: the number of copies the in-memory union holds. */
  function RuleCount(o: Dict, rules: seq<seq<Filter>>): nat {
    if rules == [] then 0
    else RuleCount(o, rules[..|rules| - 1]) + if Matches(o, rules[|rules| - 1]) then 1 else 0
  }

  lemma {:induction false} UnionHoldsRuleCount(o: Dict, rules: seq<seq<Filter>>)
    ensures |ByRules([o], rules)| == RuleCount(o, rules)
  {
    if rules != [] {
      var n := |rules| - 1;
      UnionHoldsRuleCount(o, rules[..n]);
      assert Select([o], Accepting(rules[n])) == (if Matches(o, rules[n]) then [o] else [])
        + Select([], Accepting(rules[n]));
    }
  }

  lemma {:induction false} SomeRuleLast(g: Dict, rules: seq<seq<Filter>>)
    requires rules != []
    ensures SomeRule(g, rules) <==> SomeRule(g, rules[..|rules| - 1]) || Matches(g, rules[|rules| - 1])
  {
    var n := |rules| - 1;
    if SomeRule(g, rules[..n]) {
      var i :| 0 <= i < n && Matches(g, rules[..n][i]);
      assert rules[i] == rules[..n][i];
    }
    if SomeRule(g, rules) && !Matches(g, rules[n]) {
      var i :| 0 <= i < |rules| && Matches(g, rules[i]);
      assert rules[..n][i] == rules[i];
    }
  }

  lemma {:induction false} CountAtMostOne(o: Dict, rules: seq<seq<Filter>>)
    requires AtMostOneRule(o, rules)
    ensures RuleCount(o, rules) <= 1
    ensures RuleCount(o, rules) > 0 <==> SomeRule(o, rules)
  {
    if rules != [] {
      var n := |rules| - 1;
      assert forall i :: 0 <= i < n ==> rules[..n][i] == rules[i];
      CountAtMostOne(o, rules[..n]);
      SomeRuleLast(o, rules);
      if SomeRule(o, rules[..n]) {
        var i :| 0 <= i < n && Matches(o, rules[..n][i]);
        assert Matches(o, rules[i]);
      }
    }
  }

  lemma {:induction false} SelectMultiplicity(s: seq<Dict>, p: Dict -> bool, o: Dict)
    ensures multiset(Select(s, p))[o] == if p(o) then multiset(s)[o] else 0
  {
    if s != [] {
      assert s == [s[0]] + s[1..];
      SelectMultiplicity(s[1..], p, o);
    }
  }

  lemma {:induction false} UnionMultiplicity(s: seq<Dict>, rules: seq<seq<Filter>>, o: Dict)
    requires RuleCount(o, rules) <= 1
    ensures multiset(ByRules(s, rules))[o] == if RuleCount(o, rules) == 1 then multiset(s)[o] else 0
  {
    if rules != [] {
      var n := |rules| - 1;
      UnionMultiplicity(s, rules[..n], o);
      SelectMultiplicity(s, Accepting(rules[n]), o);
    }
  }

  /** When each object is accepted by exactly one rule the union permutes the list. */
  lemma {:induction false} UnionIsPermutation(s: seq<Dict>, rules: seq<seq<Filter>>)
    requires forall o :: o in s ==> RuleCount(o, rules) == 1
    requires forall o :: RuleCount(o, rules) <= 1
    ensures multiset(ByRules(s, rules)) == multiset(s)
  {
    forall o ensures multiset(ByRules(s, rules))[o] == multiset(s)[o] {
      UnionMultiplicity(s, rules, o);
    }
  }
}
