/** One page of a plural GET and the whole walk along Next-Page. */
module Paging {
  import opened Options
  import opened Json
  import opened Sorting
  import opened Query
  import opened Pagination

  function After(x: Dict, sorting: seq<Sort>): Dict -> bool {
    o => KeyLess(x, o, Keys(sorting))
  }

  // ---------- A page restarted from a token is the tail of the sorted list ----------

  ghost predicate AlikeFor(g: Dict, s: seq<Dict>, keys: seq<SortKey<Dict>>, rules: seq<seq<Filter>>) {
    forall o, i :: o in s && 0 <= i < |rules| && SameKeys(o, g, keys) ==>
      (Matches(o, rules[i]) <==> Matches(g, rules[i]))
  }

  /** Among ties, one rule selects all of them or none. */
  lemma {:induction false} OneRuleKeepsTies(g: Dict, s: seq<Dict>, keys: seq<SortKey<Dict>>, rule: seq<Filter>)
    requires forall o :: o in s && SameKeys(o, g, keys) ==> (Matches(o, rule) <==> Matches(g, rule))
    ensures Select(Select(s, Accepting(rule)), SameAs(g, keys))
            == if Matches(g, rule) then Select(s, SameAs(g, keys)) else []
  {
    var same, both := SameAs(g, keys), Both(Accepting(rule), SameAs(g, keys));
    SelectTwice(s, Accepting(rule), same);
    forall o | o in s ensures both(o) == (Matches(g, rule) && same(o)) {
      assert same(o) <==> SameKeys(o, g, keys);
    }
    if Matches(g, rule) { SelectSame(s, both, same); } else { SelectNone(s, both); }
  }

  /** Among ties, the union over the rules is all of them in input order, or none. */
  lemma {:induction false} ByRulesKeepsTies(g: Dict, s: seq<Dict>, keys: seq<SortKey<Dict>>, rules: seq<seq<Filter>>)
    requires AlikeFor(g, s, keys, rules) && AtMostOneRule(g, rules)
    ensures Select(ByRules(s, rules), SameAs(g, keys)) == if SomeRule(g, rules) then Select(s, SameAs(g, keys)) else []
  {
    if rules != [] {
      var n := |rules| - 1;
      var init := rules[..n];
      assert forall i :: 0 <= i < |init| ==> init[i] == rules[i];
      ByRulesKeepsTies(g, s, keys, init);
      SelectAppend(ByRules(s, init), Select(s, Accepting(rules[n])), SameAs(g, keys));
      OneRuleKeepsTies(g, s, keys, rules[n]);
      SomeRuleLast(g, rules);
      if SomeRule(g, init) {
        var i :| 0 <= i < |init| && Matches(g, init[i]);
        assert Matches(g, rules[i]);
      }
    }
  }

  lemma {:induction false} ByRulesElements(s: seq<Dict>, rules: seq<seq<Filter>>, x: Dict)
    requires x in ByRules(s, rules)
    ensures x in s
  {
    var n := |rules| - 1;
    if x in ByRules(s, rules[..n]) { ByRulesElements(s, rules[..n], x); }
    else { SelectIn(s, Accepting(rules[n]), x); }
  }

  lemma {:induction false} SameKeysSameRules(sorting: seq<Sort>, x: Dict, g: Dict, o: Dict, i: nat)
    requires i < |sorting| && SameKeys(o, g, Keys(sorting))
    ensures var rules := Rules(sorting, TokenOf(sorting, x)); Matches(o, rules[i]) <==> Matches(g, rules[i])
  {
    RuleAt(sorting, x, o, i);
    RuleAt(sorting, x, g, i);
    StrictlyAfterCongruent(sorting, x, g, o, |sorting| - 1 - i);
  }

  lemma {:induction false} StrictlyAfterCongruent(sorting: seq<Sort>, x: Dict, g: Dict, o: Dict, k: nat)
    requires k < |sorting| && SameKeys(o, g, Keys(sorting))
    ensures StrictlyAfterAt(x, o, sorting, k) <==> StrictlyAfterAt(x, g, sorting, k)
  {
    var keys := Keys(sorting);
    assert forall i :: 0 <= i < |keys| ==> keys[i].key(o) == keys[i].key(g);
  }

  lemma {:induction false} RulesRespectTies(sorting: seq<Sort>, x: Dict, g: Dict, s: seq<Dict>)
    ensures var rules := Rules(sorting, TokenOf(sorting, x));
            && AlikeFor(g, s, Keys(sorting), rules) && AtMostOneRule(g, rules)
            && (SomeRule(g, rules) <==> After(x, sorting)(g))
  {
    RulesAcceptWhatFollows(sorting, x, g);
    forall o, i | o in s && 0 <= i < |sorting| && SameKeys(o, g, Keys(sorting))
      ensures var rules := Rules(sorting, TokenOf(sorting, x)); Matches(o, rules[i]) <==> Matches(g, rules[i])
    {
      SameKeysSameRules(sorting, x, g, o, i);
    }
  }

  lemma {:induction false} TailKeepsTies(s: seq<Dict>, sorting: seq<Sort>, x: Dict, g: Dict)
    ensures Select(Select(s, After(x, sorting)), SameAs(g, Keys(sorting)))
            == if After(x, sorting)(g) then Select(s, SameAs(g, Keys(sorting))) else []
  {
    var keys := Keys(sorting);
    var after, same := After(x, sorting), SameAs(g, keys);
    var both := Both(after, same);
    SelectTwice(s, after, same);
    forall o ensures both(o) == (after(g) && same(o)) {
      if SameKeys(o, g, keys) { KeyLessCongruent(o, g, x, keys); }
    }
    if after(g) { SelectSame(s, both, same); } else { SelectNone(s, both); }
  }

  /** Sorting the union over the rules of a token is cutting the sorted list after its object. */
  lemma {:induction false} TokenRestartsAfter(filtered: seq<Dict>, sorting: seq<Sort>, x: Dict)
    requires ScalarKeys(filtered, Keys(sorting))
    ensures SortChain(ByRules(filtered, Rules(sorting, TokenOf(sorting, x))), Keys(sorting))
            == Select(SortChain(filtered, Keys(sorting)), After(x, sorting))
  {
    var keys, rules := Keys(sorting), Rules(sorting, TokenOf(sorting, x));
    var union, sorted := ByRules(filtered, rules), SortChain(filtered, keys);
    ChainOrdered(union, keys);
    ChainOrdered(filtered, keys);
    SelectIsOrdered(sorted, After(x, sorting), keys);
    forall o | o in SortChain(union, keys) ensures o in filtered {
      ChainElements(union, keys);
      SameElements(SortChain(union, keys), union, o);
      ByRulesElements(filtered, rules, o);
    }
    forall g ensures Select(SortChain(union, keys), SameAs(g, keys))
                  == Select(Select(sorted, After(x, sorting)), SameAs(g, keys))
    {
      ChainStable(union, keys, SameAs(g, keys));
      ChainStable(filtered, keys, SameAs(g, keys));
      RulesRespectTies(sorting, x, g, filtered);
      ByRulesKeepsTies(g, filtered, keys, rules);
      TailKeepsTies(sorted, sorting, x, g);
    }
    StableSortUnique(SortChain(union, keys), Select(sorted, After(x, sorting)), keys);
  }

  /** Where the list resumes after its first `m` elements: ties of the last of them are skipped. */
  function Resume(s: seq<Dict>, keys: seq<SortKey<Dict>>, m: nat, i: nat): (r: nat)
    requires 0 < m <= i <= |s|
    ensures i <= r <= |s|
    ensures forall j :: i <= j < r ==> !KeyLess(s[m - 1], s[j], keys)
    ensures r < |s| ==> KeyLess(s[m - 1], s[r], keys)
    decreases |s| - i
  {
    if i == |s| || KeyLess(s[m - 1], s[i], keys) then i else Resume(s, keys, m, i + 1)
  }

  lemma {:induction false} TailAfter(s: seq<Dict>, sorting: seq<Sort>, m: nat)
    requires 0 < m <= |s| && Ordered(s, Keys(sorting)) && ScalarKeys(s, Keys(sorting))
    ensures Select(s, After(s[m - 1], sorting)) == s[Resume(s, Keys(sorting), m, m)..]
  {
    var r := Resume(s, Keys(sorting), m, m);
    var after := After(s[m - 1], sorting);
    assert s == s[..r] + s[r..];
    SelectAppend(s[..r], s[r..], after);
    forall o | o in s[..r] ensures !after(o) {
      var j :| 0 <= j < r && s[j] == o;
      NotAfterBeforeResume(s, Keys(sorting), m, j);
    }
    SelectNone(s[..r], after);
    forall o | o in s[r..] ensures after(o) {
      var j :| r <= j < |s| && s[j] == o;
      AfterFromResume(s, Keys(sorting), m, j);
    }
    SelectAll(s[r..], after);
  }

  lemma {:induction false} NotAfterBeforeResume(s: seq<Dict>, keys: seq<SortKey<Dict>>, m: nat, j: nat)
    requires 0 < m <= |s| && Ordered(s, keys) && j < Resume(s, keys, m, m)
    ensures !KeyLess(s[m - 1], s[j], keys)
  {
    KeyLessIrreflexive(s[m - 1], keys);
  }

  lemma {:induction false} AfterFromResume(s: seq<Dict>, keys: seq<SortKey<Dict>>, m: nat, j: nat)
    requires 0 < m <= |s| && Ordered(s, keys) && ScalarKeys(s, keys) && Resume(s, keys, m, m) <= j < |s|
    ensures KeyLess(s[m - 1], s[j], keys)
  {
    var x, r := s[m - 1], Resume(s, keys, m, m);
    if j > r {
      assert s[r] in s && s[j] in s;
      assert ScalarKeys([s[r], s[j]], keys);
      KeyLessTotal(s[r], s[j], keys);
      if SameKeys(s[r], s[j], keys) { KeyLessCongruent(s[r], s[j], x, keys); }
      else { KeyLessTransitive(x, s[r], s[j], keys); }
    }
  }

  // ---------- One page ----------

  datatype Page = Page(objects: seq<Dict>, next: Option<Dict>)

  /** Tombstones join a listing that filters on `last_modified`. */
  predicate WithDeleted(filters: seq<Filter>) {
    "last_modified" in seq(|filters|, i requires 0 <= i < |filters| => filters[i].field)
  }

  function Listed(live: seq<Dict>, cemetery: seq<Dict>, filters: seq<Filter>): seq<Dict> {
    live + if WithDeleted(filters) then cemetery else []
  }

  lemma TombstonesAreListed(live: seq<Dict>, cemetery: seq<Dict>, filters: seq<Filter>)
    ensures Listed(live, cemetery, filters)
            == if exists f :: f in filters && f.field == "last_modified" then live + cemetery else live
  {
    var fields := seq(|filters|, i requires 0 <= i < |filters| => filters[i].field);
    if f :| f in filters && f.field == "last_modified" {
      var i :| 0 <= i < |filters| && filters[i] == f;
      assert fields[i] == "last_modified";
    } else {
      forall i | 0 <= i < |fields| ensures fields[i] != "last_modified" { assert filters[i] in filters; }
    }
  }

  function RulesOf(sorting: seq<Sort>, token: Option<Dict>): seq<seq<Filter>> {
    match token
    case None => []
    case Some(last) => Rules(sorting, last)
  }

  /** The page of a list of objects: the first `limit` that the token lets through, and the
      token of the last of them if there are more. */
  predicate Serves(page: Page, objects: seq<Dict>, filters: seq<Filter>, sorting: seq<Sort>, limit: nat,
                   token: Option<Dict>)
    requires limit > 0
  {
    var got := Extract(objects, filters, sorting, RulesOf(sorting, token), limit + 1);
    && page.objects == Take(got, limit)
    && page.next == if |got| == limit + 1 then Some(TokenOf(sorting, got[limit - 1])) else None
  }

  /** `_plural_get`: one object more than the page tells whether there is a next one. */
  method PluralGet(live: seq<Dict>, cemetery: seq<Dict>, filters: seq<Filter>, sorting: seq<Sort>,
                   limit: nat, token: Option<Dict>)
    returns (page: Page)
    requires sorting != [] && limit > 0
    ensures Serves(page, Listed(live, cemetery, filters), filters, sorting, limit, token)
    ensures var asked := exists f :: f in filters && f.field == "last_modified";
            Serves(page, if asked then live + cemetery else live, filters, sorting, limit, token)
  {
    var includeDeleted := WithDeleted(filters);
    var rules := [];
    if token.Some? {
      rules := BuildPaginationRules(sorting, token.value, []);
    }
    assert rules == RulesOf(sorting, token);
    var objects := ListAll(live, cemetery, filters, sorting, rules, limit + 1, includeDeleted);
    var next := None;
    if |objects| == limit + 1 {
      var last := BuildPaginationToken(sorting, objects[|objects| - 2]);
      next := Some(last);
    }
    page := Page(Take(objects, limit), next);
    ServesAsked(page, live, cemetery, filters, sorting, limit, token);
  }

  lemma ServesAsked(page: Page, live: seq<Dict>, cemetery: seq<Dict>, filters: seq<Filter>, sorting: seq<Sort>,
                    limit: nat, token: Option<Dict>)
    requires limit > 0 && Serves(page, Listed(live, cemetery, filters), filters, sorting, limit, token)
    ensures var asked := exists f :: f in filters && f.field == "last_modified";
            Serves(page, if asked then live + cemetery else live, filters, sorting, limit, token)
  {
    TombstonesAreListed(live, cemetery, filters);
  }

  // ---------- The walk ----------

  function Flatten<T>(pages: seq<seq<T>>): seq<T> {
    if pages == [] then [] else Flatten(pages[..|pages| - 1]) + pages[|pages| - 1]
  }

  /** At each page boundary `m`, `m + limit`, ... the order steps strictly: no two
      objects with equal sort keys stand on its two sides. */
  predicate NoTieAcrossPages(s: seq<Dict>, keys: seq<SortKey<Dict>>, limit: nat, m: nat)
    requires limit > 0 && m > 0
    decreases |s| - m
  {
    m >= |s| || (KeyLess(s[m - 1], s[m], keys) && NoTieAcrossPages(s, keys, limit, m + limit))
  }

  /** ceil(n / limit), and one page when there is nothing. */
  function PageCount(n: nat, limit: nat): (c: nat)
    requires limit > 0
    ensures c > 0
  {
    if n <= limit then 1 else 1 + PageCount(n - limit, limit)
  }

  lemma {:induction false} PageCountIsCeil(n: nat, limit: nat)
    requires limit > 0 && n > 0
    ensures (PageCount(n, limit) - 1) * limit < n <= PageCount(n, limit) * limit
  {
    if n > limit {
      PageCountIsCeil(n - limit, limit);
      var c := PageCount(n - limit, limit);
      assert (c + 1) * limit == c * limit + limit && c * limit == (c - 1) * limit + limit;
    }
  }

  function SortedList(live: seq<Dict>, cemetery: seq<Dict>, filters: seq<Filter>, sorting: seq<Sort>): seq<Dict> {
    SortChain(Select(Listed(live, cemetery, filters), Accepting(filters)), Keys(sorting))
  }

  /** The object list behind a token taken from the `m`-th object of the sorted list. */
  lemma {:induction false} PageAt(live: seq<Dict>, cemetery: seq<Dict>, filters: seq<Filter>, sorting: seq<Sort>,
                                  limit: nat, m: nat)
    requires sorting != [] && limit > 0
    requires var s := SortedList(live, cemetery, filters, sorting); ScalarKeys(s, Keys(sorting)) && 0 < m <= |s|
    ensures var s := SortedList(live, cemetery, filters, sorting);
            Extract(Listed(live, cemetery, filters), filters, sorting,
                    Rules(sorting, TokenOf(sorting, s[m - 1])), limit)
            == Take(s[Resume(s, Keys(sorting), m, m)..], limit)
  {
    var keys := Keys(sorting);
    var filtered := Select(Listed(live, cemetery, filters), Accepting(filters));
    var s := SortChain(filtered, keys);
    ChainElements(filtered, keys);
    forall x | x in filtered ensures x in s { SameElements(s, filtered, x); }
    ChainOrdered(filtered, keys);
    TokenRestartsAfter(filtered, sorting, s[m - 1]);
    TailAfter(s, sorting, m);
  }

  /** Index of the first object of the page that follows the first `end` objects. */
  function Start(s: seq<Dict>, keys: seq<SortKey<Dict>>, end: nat): (r: nat)
    requires end <= |s|
    ensures end <= r <= |s|
  {
    if end == 0 then 0 else Resume(s, keys, end, end)
  }

  lemma {:induction false} PageFrom(live: seq<Dict>, cemetery: seq<Dict>, filters: seq<Filter>, sorting: seq<Sort>,
                                    limit: nat, end: nat)
    requires sorting != [] && limit > 0
    requires var s := SortedList(live, cemetery, filters, sorting); ScalarKeys(s, Keys(sorting)) && end <= |s|
    ensures var s := SortedList(live, cemetery, filters, sorting);
            var token := if end == 0 then None else Some(TokenOf(sorting, s[end - 1]));
            Extract(Listed(live, cemetery, filters), filters, sorting, RulesOf(sorting, token), limit)
            == Take(s[Start(s, Keys(sorting), end)..], limit)
  {
    var s := SortedList(live, cemetery, filters, sorting);
    if end > 0 { PageAt(live, cemetery, filters, sorting, limit, end); }
    else { assert s[0..] == s; }
  }

  /** How far a page reads that starts at `start` in a list of `n`. */
  function Stop(n: nat, limit: nat, start: nat): (r: nat)
    requires start <= n
    ensures start <= r <= n
  {
    if n - start <= limit then n else start + limit
  }

  /** The token of a page that reads up to `stop`. */
  function NextToken(s: seq<Dict>, sorting: seq<Sort>, stop: nat): Option<Dict>
    requires stop <= |s| && (stop == 0 ==> s == [])
  {
    if stop == |s| then None else Some(TokenOf(sorting, s[stop - 1]))
  }

  /** The page that starts at `start`. */
  predicate IsPageAt(page: Page, s: seq<Dict>, sorting: seq<Sort>, limit: nat, start: nat)
    requires start <= |s| && limit > 0
  {
    var stop := Stop(|s|, limit, start);
    && page.objects == s[start..stop]
    && page.next == NextToken(s, sorting, stop)
  }

  /** One request of the walk, seen from the sorted list. */
  method NextPage(live: seq<Dict>, cemetery: seq<Dict>, filters: seq<Filter>, sorting: seq<Sort>, limit: nat,
                  token: Option<Dict>, ghost s: seq<Dict>, ghost end: nat)
    returns (page: Page)
    requires sorting != [] && limit > 0
    requires s == SortedList(live, cemetery, filters, sorting) && ScalarKeys(s, Keys(sorting))
    requires end <= |s| && token == if end == 0 then None else Some(TokenOf(sorting, s[end - 1]))
    ensures IsPageAt(page, s, sorting, limit, Start(s, Keys(sorting), end))
  {
    page := PluralGet(live, cemetery, filters, sorting, limit, token);
    PageFrom(live, cemetery, filters, sorting, limit + 1, end);
    PageSlice(s, sorting, limit, Start(s, Keys(sorting), end), page);
  }

  lemma {:induction false} PageSlice(s: seq<Dict>, sorting: seq<Sort>, limit: nat, start: nat, page: Page)
    requires limit > 0 && start <= |s|
    requires var got := Take(s[start..], limit + 1);
             && page.objects == Take(got, limit)
             && page.next == if |got| == limit + 1 then Some(TokenOf(sorting, got[limit - 1])) else None
    ensures IsPageAt(page, s, sorting, limit, start)
  {
    Slice(s, start, limit);
  }

  lemma Slice(s: seq<Dict>, start: nat, limit: nat)
    requires start <= |s| && limit > 0
    ensures var got := Take(s[start..], limit + 1);
            var stop := Stop(|s|, limit, start);
            && Take(got, limit) == s[start..stop]
            && (|got| == limit + 1 <==> stop < |s|)
            && (stop < |s| ==> got[limit - 1] == s[stop - 1])
  {
  }

  /** How many pages a walk over `n` objects takes. */
  function WalkCount(n: nat, z: Sizes): (c: nat)
    ensures z.first == z.rest ==> c == PageCount(n, z.rest)
  {
    if n <= z.first then 1 else 1 + PageCount(n - z.first, z.rest)
  }

  /** No tie crosses a page boundary of the walk. */
  predicate NoTie(s: seq<Dict>, keys: seq<SortKey<Dict>>, z: Sizes) {
    NoTieAcrossPages(s, keys, z.rest, z.first)
  }

  /** The size of the page that is asked for after `end` objects have been read. */
  function SizeAt(z: Sizes, end: nat): nat {
    if end == 0 then z.first else z.rest
  }

  /** What a walk has gathered when it has read up to `end`: a prefix of the list, or
      less than it once a tie was skipped. */
  ghost predicate Gathered(s: seq<Dict>, keys: seq<SortKey<Dict>>, z: Sizes, pages: seq<seq<Dict>>, end: nat,
                           gapless: bool) {
    && end <= |s|
    && (end == 0 ==> gapless && pages == [])
    && (gapless ==> Flatten(pages) == s[..end])
    && (gapless && end == |s| ==> end == 0 || (NoTie(s, keys, z) && |pages| == WalkCount(|s|, z)))
    && (gapless && 0 < end < |s| ==>
          && NoTie(s, keys, z) == NoTieAcrossPages(s, keys, z.rest, end)
          && |pages| + PageCount(|s| - end, z.rest) == WalkCount(|s|, z))
    && (!gapless ==> |Flatten(pages)| < end && !NoTie(s, keys, z))
  }

  lemma {:induction false} FlattenMore<T>(pages: seq<seq<T>>, page: seq<T>)
    ensures Flatten(pages + [page]) == Flatten(pages) + page
  {
    assert (pages + [page])[..|pages|] == pages;
  }

  /** A page that resumes where the last one stopped. */
  lemma {:induction false} GatherNext(s: seq<Dict>, keys: seq<SortKey<Dict>>, z: Sizes, pages: seq<seq<Dict>>,
                                      end: nat, stop: nat)
    requires Gathered(s, keys, z, pages, end, true) && end < |s| && Start(s, keys, end) == end
    requires stop == Stop(|s|, SizeAt(z, end), end)
    ensures Gathered(s, keys, z, pages + [s[end..stop]], stop, true)
  {
    FlattenMore(pages, s[end..stop]);
    assert s[..end] + s[end..stop] == s[..stop];
    assert end > 0 ==> KeyLess(s[end - 1], s[end], keys);
    if stop == |s| { assert NoTieAcrossPages(s, keys, z.rest, end + SizeAt(z, end)); }
  }

  /** A page after which something has been skipped. */
  lemma {:induction false} GatherSkipping(s: seq<Dict>, keys: seq<SortKey<Dict>>, z: Sizes, pages: seq<seq<Dict>>,
                                          end: nat, gapless: bool, stop: nat)
    requires Gathered(s, keys, z, pages, end, gapless) && end < |s|
    requires !(gapless && Start(s, keys, end) == end)
    requires stop == Stop(|s|, SizeAt(z, end), Start(s, keys, end))
    ensures Gathered(s, keys, z, pages + [s[Start(s, keys, end)..stop]], stop, false)
  {
    var start := Start(s, keys, end);
    FlattenMore(pages, s[start..stop]);
    if gapless {
      assert end > 0 && !KeyLess(s[end - 1], s[end], keys);
      assert !NoTieAcrossPages(s, keys, z.rest, end);
    }
  }

  lemma {:induction false} GatherPage(s: seq<Dict>, keys: seq<SortKey<Dict>>, z: Sizes, pages: seq<seq<Dict>>,
                                      end: nat, gapless: bool, stop: nat)
    requires Gathered(s, keys, z, pages, end, gapless) && end < |s|
    requires stop == Stop(|s|, SizeAt(z, end), Start(s, keys, end))
    ensures Gathered(s, keys, z, pages + [s[Start(s, keys, end)..stop]], stop, gapless && Start(s, keys, end) == end)
  {
    if gapless && Start(s, keys, end) == end { GatherNext(s, keys, z, pages, end, stop); }
    else { GatherSkipping(s, keys, z, pages, end, gapless, stop); }
  }

  /** `a` is `b` with some elements left out. */
  predicate Subsequence<T(==)>(a: seq<T>, b: seq<T>) {
    a == [] ||
    (b != [] && (|| Subsequence(a, b[..|b| - 1])
                 || (a[|a| - 1] == b[|b| - 1] && Subsequence(a[..|a| - 1], b[..|b| - 1]))))
  }

  lemma {:induction false} SubsequenceSkips<T>(a: seq<T>, s: seq<T>, end: nat, start: nat)
    requires end <= start <= |s| && Subsequence(a, s[..end])
    ensures Subsequence(a, s[..start])
  {
    if end < start {
      SubsequenceSkips(a, s, end, start - 1);
      assert s[..start][..start - 1] == s[..start - 1];
    }
  }

  lemma {:induction false} SubsequenceTakes<T>(a: seq<T>, s: seq<T>, start: nat, stop: nat)
    requires start <= stop <= |s| && Subsequence(a, s[..start])
    ensures Subsequence(a + s[start..stop], s[..stop])
  {
    if start == stop {
      assert a + s[start..stop] == a;
    } else {
      SubsequenceTakes(a, s, start, stop - 1);
      assert s[..stop][..stop - 1] == s[..stop - 1];
      assert (a + s[start..stop])[..|a| + stop - 1 - start] == a + s[start..stop - 1];
    }
  }

  /** What a whole walk over `s` serves: objects of `s` in order, each at most once, and all
      of them exactly when no tie crosses a page boundary. */
  ghost predicate Walked(s: seq<Dict>, sorting: seq<Sort>, z: Sizes, pages: seq<seq<Dict>>) {
    var complete := NoTie(s, Keys(sorting), z);
    && Subsequence(Flatten(pages), s)
    && (Flatten(pages) == s <==> complete)
    && (complete ==> |pages| == WalkCount(|s|, z))
    && (!complete ==> |Flatten(pages)| < |s|)
  }

  /** Main result: a client that follows Next-Page on an unchanging store stops, and the
      pages make up the whole sorted list exactly when no tie crosses a page boundary;
      otherwise some objects are never served.  None is served twice. */
  method FollowNextPage(live: seq<Dict>, cemetery: seq<Dict>, filters: seq<Filter>, sorting: seq<Sort>,
                        requested: Option<nat>, paginateBy: nat, maxFetchSize: nat)
    returns (pages: seq<seq<Dict>>)
    requires sorting != [] && maxFetchSize > 0
    requires ScalarKeys(SortedList(live, cemetery, filters, sorting), Keys(sorting))
    ensures var z := SizesOf(requested, paginateBy, maxFetchSize);
            && Walked(SortedList(live, cemetery, filters, sorting), sorting, z, pages)
            && Within(pages, z)
  {
    ghost var s, z := SortedList(live, cemetery, filters, sorting), SizesOf(requested, paginateBy, maxFetchSize);
    ghost var end, gapless := 0, true;
    SizeSettles(requested, paginateBy, maxFetchSize);
    pages := [];
    var limit := ExtractLimit(requested, paginateBy, maxFetchSize);
    var page := NextPage(live, cemetery, filters, sorting, limit, None, s, 0);
    while page.next.Some?
      invariant Walking(s, sorting, z, pages, end, gapless, page)
      invariant ExtractLimit(Some(limit), paginateBy, maxFetchSize) == z.rest
      decreases |s| - end
    {
      end, gapless := WalkOn(s, sorting, z, pages, end, gapless, page);
      pages := pages + [page.objects];
      limit := ExtractLimit(Some(limit), paginateBy, maxFetchSize);
      page := NextPage(live, cemetery, filters, sorting, limit, page.next, s, end);
    }
    WalkEnds(s, sorting, z, pages, end, gapless, page);
    pages := pages + [page.objects];
  }

  predicate Within<T>(pages: seq<seq<T>>, z: Sizes) {
    forall i :: 0 <= i < |pages| ==> |pages[i]| <= SizeAt(z, i)
  }

  /** What the pages gathered so far satisfy. */
  ghost predicate GatheredPages(s: seq<Dict>, sorting: seq<Sort>, z: Sizes, pages: seq<seq<Dict>>, end: nat,
                                gapless: bool) {
    && Within(pages, z) && (pages == [] <==> end == 0)
    && Gathered(s, Keys(sorting), z, pages, end, gapless)
    && Subsequence(Flatten(pages), s[..end])
  }

  /** `pages` are gathered, and `page` is the next one, not gathered yet. */
  ghost predicate Walking(s: seq<Dict>, sorting: seq<Sort>, z: Sizes, pages: seq<seq<Dict>>, end: nat, gapless: bool,
                          page: Page)
  {
    && GatheredPages(s, sorting, z, pages, end, gapless)
    && (end < |s| || |s| == 0)
    && IsPageAt(page, s, sorting, SizeAt(z, end), Start(s, Keys(sorting), end))
  }

  lemma {:induction false} WalkOn(s: seq<Dict>, sorting: seq<Sort>, z: Sizes, pages: seq<seq<Dict>>, end: nat,
                                  gapless: bool, page: Page)
    returns (end': nat, gapless': bool)
    requires Walking(s, sorting, z, pages, end, gapless, page) && end < |s|
    ensures GatheredPages(s, sorting, z, pages + [page.objects], end', gapless')
    ensures end < end' <= |s|
    ensures page.next == NextToken(s, sorting, end')
  {
    var start := Start(s, Keys(sorting), end);
    end', gapless' := Stop(|s|, SizeAt(z, end), start), gapless && start == end;
    GatherMore(s, sorting, z, pages, end, gapless, start, end');
  }

  lemma {:induction false} GatherMore(s: seq<Dict>, sorting: seq<Sort>, z: Sizes, pages: seq<seq<Dict>>, end: nat,
                                      gapless: bool, start: nat, stop: nat)
    requires end < |s| && GatheredPages(s, sorting, z, pages, end, gapless)
    requires start == Start(s, Keys(sorting), end) && stop == Stop(|s|, SizeAt(z, end), start)
    ensures GatheredPages(s, sorting, z, pages + [s[start..stop]], stop, gapless && start == end)
  {
    GatherPage(s, Keys(sorting), z, pages, end, gapless, stop);
    StaySubsequence(pages, s, end, start, stop);
  }

  lemma {:induction false} StaySubsequence(pages: seq<seq<Dict>>, s: seq<Dict>, end: nat, start: nat, stop: nat)
    requires end <= start <= stop <= |s| && Subsequence(Flatten(pages), s[..end])
    ensures Subsequence(Flatten(pages + [s[start..stop]]), s[..stop])
  {
    FlattenMore(pages, s[start..stop]);
    SubsequenceSkips(Flatten(pages), s, end, start);
    SubsequenceTakes(Flatten(pages), s, start, stop);
  }

  lemma {:induction false} WalkEnds(s: seq<Dict>, sorting: seq<Sort>, z: Sizes, pages: seq<seq<Dict>>, end: nat,
                                    gapless: bool, page: Page)
    requires Walking(s, sorting, z, pages, end, gapless, page) && page.next.None?
    ensures Walked(s, sorting, z, pages + [page.objects]) && Within(pages + [page.objects], z)
  {
    if s == [] {
      assert [page.objects][..0] == [];
    } else {
      var _, _ := WalkOn(s, sorting, z, pages, end, gapless, page);
      assert s[..|s|] == s;
    }
  }

  ghost predicate DistinctKeys(s: seq<Dict>, keys: seq<SortKey<Dict>>) {
    forall i, j :: 0 <= i < j < |s| ==> !SameKeys(s[i], s[j], keys)
  }

  /** With pairwise distinct sort keys no tie can cross a boundary. */
  lemma {:induction false} DistinctKeysNeverTie(s: seq<Dict>, keys: seq<SortKey<Dict>>, limit: nat, m: nat)
    requires limit > 0 && m > 0 && Ordered(s, keys) && ScalarKeys(s, keys) && DistinctKeys(s, keys)
    ensures NoTieAcrossPages(s, keys, limit, m)
    decreases |s| - m
  {
    if m < |s| {
      DistinctKeysStep(s, keys, m);
      DistinctKeysNeverTie(s, keys, limit, m + limit);
    }
  }

  lemma {:induction false} DistinctKeysStep(s: seq<Dict>, keys: seq<SortKey<Dict>>, m: nat)
    requires 0 < m < |s| && Ordered(s, keys) && ScalarKeys(s, keys) && DistinctKeys(s, keys)
    ensures KeyLess(s[m - 1], s[m], keys)
  {
    assert s[m - 1] in s && s[m] in s;
    assert ScalarKeys([s[m - 1], s[m]], keys);
    KeyLessTotal(s[m - 1], s[m], keys);
  }

  /** Distinct timestamps are enough for complete pages, whatever else is sorted on. */
  lemma {:induction false} TimestampSortingNeverTies(objects: seq<Dict>, sorting: seq<Sort>, z: Sizes)
    requires ScalarKeys(objects, Keys(sorting)) && ReadsTimestamp(sorting)
    requires DistinctTimestamps(objects)
    ensures NoTie(SortChain(objects, Keys(sorting)), Keys(sorting), z)
  {
    var keys := Keys(sorting);
    var s := SortChain(objects, keys);
    ChainElements(objects, keys);
    ChainOrdered(objects, keys);
    forall x | x in s ensures x in objects { SameElements(s, objects, x); }
    var k :| 0 <= k < |sorting| && sorting[k].field == "last_modified";
    assert keys[k] == SortKey(Column("last_modified"), sorting[k].desc);
    PermutationKeepsDistinct(objects, s, Column("last_modified"));
    forall i, j | 0 <= i < j < |s| ensures !SameKeys(s[i], s[j], keys) {
      assert keys[k].key(s[i]) != keys[k].key(s[j]);
    }
    DistinctKeysNeverTie(s, keys, z.rest, z.first);
  }

  ghost predicate DistinctTimestamps(objects: seq<Dict>) {
    forall i, j :: 0 <= i < j < |objects| ==>
      FindNested(objects[i], "last_modified") != FindNested(objects[j], "last_modified")
  }

  /** Every sorting that a request yields reads `last_modified`: with distinct timestamps the
      pages of any request are complete. */
  lemma {:induction false} DistinctTimestampsPaginateCompletely(objects: seq<Dict>, t: Alphabet, known: string -> bool,
                                                                specified: seq<string>, z: Sizes)
    requires Sane(t) && SortingOf(t, known, specified).Some? && DistinctTimestamps(objects)
    requires ScalarKeys(objects, Keys(SortingOf(t, known, specified).value))
    ensures var keys := Keys(SortingOf(t, known, specified).value); NoTie(SortChain(objects, keys), keys, z)
  {
    SortingReadsTimestamp(t, known, specified);
    TimestampSortingNeverTies(objects, SortingOf(t, known, specified).value, z);
  }
}
