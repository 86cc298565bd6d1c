/** Condensing a set of URIs under their ancestors, before a cascading delete. */
module Condense {
  import opened Json
  import opened Collections
  import opened Sorting

  // ---------- Parents ----------

  /** Index of the last slash of `s[..i]`, -1 when there is none. */
  function LastSlash(s: string, i: nat): (r: int)
    requires i <= |s|
    ensures -1 <= r < i && (r >= 0 ==> s[r] == '/')
  {
    if i == 0 then -1 else if s[i - 1] == '/' then i - 1 else LastSlash(s, i - 1)
  }

  /** `get_parent_uri`: what precedes the last but one slash, "" when there are fewer. */
  function ParentUri(uri: string): (p: string)
    ensures p == "" || p < uri
  {
    var last := LastSlash(uri, |uri|);
    if last < 0 then ""
    else
      var previous := LastSlash(uri, last);
      if previous < 0 then "" else uri[..previous]
  }

  lemma {:induction false} NoSlashBetween(s: string, i: nat, j: nat)
    requires i <= j <= |s| && forall k :: i <= k < j ==> s[k] != '/'
    ensures LastSlash(s, j) == LastSlash(s, i)
  {
    if i < j { NoSlashBetween(s, i, j - 1); }
  }

  /** The parent of what lies two segments below `u` is `u`. */
  lemma {:induction false} ParentOfChild(u: string, x: string, y: string)
    requires SlashFree(x) && SlashFree(y)
    ensures ParentUri(u + "/" + x + "/" + y) == u
  {
    var uri, first, second := u + "/" + x + "/" + y, |u|, |u| + 1 + |x|;
    assert uri[first] == '/' && uri[second] == '/';
    assert forall k :: second < k < |uri| ==> uri[k] == y[k - second - 1];
    assert forall k :: first < k < second ==> uri[k] == x[k - first - 1];
    NoSlashBetween(uri, second + 1, |uri|);
    NoSlashBetween(uri, first + 1, second);
    assert uri[..first] == u;
  }

  lemma {:induction false} NoSlashAfterLast(s: string, j: nat)
    requires j <= |s|
    ensures forall k :: LastSlash(s, j) < k < j ==> s[k] != '/'
  {
    if j > 0 && s[j - 1] != '/' { NoSlashAfterLast(s, j - 1); }
  }

  /** And the only one: a uri lies two segments below its parent. */
  lemma {:induction false} ChildOfParent(uri: string) returns (x: string, y: string)
    requires ParentUri(uri) != ""
    ensures SlashFree(x) && SlashFree(y) && uri == ParentUri(uri) + "/" + x + "/" + y
  {
    var second := LastSlash(uri, |uri|);
    var first := LastSlash(uri, second);
    NoSlashAfterLast(uri, |uri|);
    NoSlashAfterLast(uri, second);
    x, y := uri[first + 1..second], uri[second + 1..];
    assert uri == uri[..first] + [uri[first]] + x + [uri[second]] + y;
  }

  // ---------- Ancestors ----------

  /** Two segments. */
  datatype Level = Level(resource: string, id: string)

  function PathOf(levels: seq<Level>): string {
    if levels == [] then ""
    else
      var n := |levels| - 1;
      PathOf(levels[..n]) + "/" + levels[n].resource + "/" + levels[n].id
  }

  predicate Plain(levels: seq<Level>) {
    forall i :: 0 <= i < |levels| ==> SlashFree(levels[i].resource) && SlashFree(levels[i].id)
  }

  /** The uri is `a` and one or more levels below it. */
  ghost predicate LiesBelow(a: string, uri: string) {
    exists levels :: levels != [] && Plain(levels) && uri == a + PathOf(levels)
  }

  lemma {:induction false} WalkGoesUp(a: string, uri: string) returns (levels: seq<Level>)
    requires Ancestor(a, uri)
    ensures a != "" && levels != [] && Plain(levels) && uri == a + PathOf(levels)
    decreases |uri|
  {
    var p := ParentUri(uri);
    var x, y := ChildOfParent(uri);
    var above: seq<Level> := [];
    if a != p { above := WalkGoesUp(a, p); }
    levels := above + [Level(x, y)];
    OneLevelMore(a, above, Level(x, y));
  }

  lemma {:induction false} OneLevelMore(a: string, above: seq<Level>, l: Level)
    ensures a + PathOf(above + [l]) == (a + PathOf(above)) + "/" + l.resource + "/" + l.id
    ensures Plain(above) && Plain([l]) ==> Plain(above + [l])
  {
    assert (above + [l])[..|above|] == above;
  }

  lemma {:induction false} WalkMeets(a: string, levels: seq<Level>)
    requires a != "" && levels != [] && Plain(levels)
    ensures Ancestor(a, a + PathOf(levels))
  {
    var n := |levels| - 1;
    var above, last := levels[..n], levels[n];
    LastApart(levels);
    OneLevelMore(a, above, last);
    ParentOfChild(a + PathOf(above), last.resource, last.id);
    if n > 0 { WalkMeets(a, above); } else { assert a + PathOf(above) == a; }
  }

  /** Main result: the walk to the parents meets exactly what the uri lies below. */
  lemma {:induction false} AncestorLiesAbove(a: string, uri: string)
    ensures Ancestor(a, uri) <==> a != "" && LiesBelow(a, uri)
  {
    if Ancestor(a, uri) { var levels := WalkGoesUp(a, uri); }
    if a != "" && LiesBelow(a, uri) {
      var levels :| levels != [] && Plain(levels) && uri == a + PathOf(levels);
      WalkMeets(a, levels);
    }
  }

  /** `a` is met on the walk from `uri` to its parent, its parent's parent, and so on. */
  predicate Ancestor(a: string, uri: string)
    decreases |uri|
  {
    var p := ParentUri(uri);
    p != "" && (a == p || Ancestor(a, p))
  }

  lemma {:induction false} AncestorTransitive(a: string, b: string, uri: string)
    requires Ancestor(a, b) && Ancestor(b, uri)
    ensures Ancestor(a, uri)
    decreases |uri|
  {
    if b != ParentUri(uri) { AncestorTransitive(a, b, ParentUri(uri)); }
  }

  /** An ancestor is a proper prefix, so it sorts first. */
  lemma {:induction false} AncestorIsPrefix(a: string, uri: string)
    requires Ancestor(a, uri)
    ensures a < uri && StrLess(a, uri)
    decreases |uri|
  {
    if a != ParentUri(uri) {
      AncestorIsPrefix(a, ParentUri(uri));
    }
    PrefixLess(a, uri);
  }

  // ---------- Roots ----------

  predicate HasAncestor(uri: string, uris: set<string>) {
    exists a :: a in uris && Ancestor(a, uri)
  }

  /** The members without an ancestor among the others. */
  function Roots(uris: set<string>): set<string> {
    set u | u in uris && !HasAncestor(u, uris)
  }

  /** Above a member there is a root, unless it is one itself. */
  lemma {:induction false} RootAbove(u: string, uris: set<string>) returns (r: string)
    requires u in uris
    ensures r in Roots(uris) && (r == u || Ancestor(r, u))
    decreases |u|
  {
    if HasAncestor(u, uris) {
      var a :| a in uris && Ancestor(a, u);
      AncestorIsPrefix(a, u);
      r := RootAbove(a, uris);
      if r != a { AncestorTransitive(r, a, u); }
    } else {
      r := u;
    }
  }

  /** The uri lies below a member. */
  ghost predicate Covered(uri: string, uris: set<string>) {
    exists a :: a in uris && a != "" && LiesBelow(a, uri)
  }

  ghost predicate Unrelated(uris: set<string>) {
    forall a, b :: a in uris && b in uris && a != "" ==> !LiesBelow(a, b)
  }

  lemma {:induction false} CoveredHasAncestor(uri: string, uris: set<string>)
    ensures Covered(uri, uris) <==> HasAncestor(uri, uris)
  {
    if Covered(uri, uris) {
      var a :| a in uris && a != "" && LiesBelow(a, uri);
      AncestorLiesAbove(a, uri);
    }
    if HasAncestor(uri, uris) {
      var a :| a in uris && Ancestor(a, uri);
      AncestorLiesAbove(a, uri);
    }
  }

  /** Main result: the roots are the members that lie below no member; they are pairwise
      unrelated, and every member is one of them or lies below one. */
  lemma {:induction false} RootsCondense(uris: set<string>)
    ensures forall u :: u in Roots(uris) <==> u in uris && !Covered(u, uris)
    ensures Unrelated(Roots(uris))
    ensures forall u :: u in uris ==> u in Roots(uris) || Covered(u, Roots(uris))
  {
    forall u ensures u in Roots(uris) <==> u in uris && !Covered(u, uris) { CoveredHasAncestor(u, uris); }
    forall a, b | a in Roots(uris) && b in Roots(uris) && a != "" ensures !LiesBelow(a, b) {
      CoveredHasAncestor(b, uris);
    }
    forall u | u in uris ensures u in Roots(uris) || Covered(u, Roots(uris)) {
      var r := RootAbove(u, uris);
      CoveredHasAncestor(u, Roots(uris));
    }
  }

  /** They are the only subset that does both. */
  lemma {:induction false} RootsAreUnique(uris: set<string>, other: set<string>)
    requires other <= uris && Unrelated(other)
    requires forall u :: u in uris ==> u in other || Covered(u, other)
    ensures other == Roots(uris)
  {
    forall a, b | a in other && b in other ensures !Ancestor(a, b) { AncestorLiesAbove(a, b); }
    forall u | u in uris ensures u in other || HasAncestor(u, other) { CoveredHasAncestor(u, other); }
    OnlyRoots(uris, other);
  }

  lemma OnlyRoots(uris: set<string>, other: set<string>)
    requires other <= uris
    requires forall a, b :: a in other && b in other ==> !Ancestor(a, b)
    requires forall u :: u in uris ==> u in other || HasAncestor(u, other)
    ensures other == Roots(uris)
  {
    forall u | u in other ensures !HasAncestor(u, uris) {
      forall a | a in uris ensures !Ancestor(a, u) {
        if a !in other {
          var b :| b in other && Ancestor(b, a);
          if Ancestor(a, u) { AncestorTransitive(b, a, u); }
        }
      }
    }
  }

  // ---------- The loop ----------

  function Itself(): string -> Value {
    (u: string) => Present(Str(u))
  }

  function Elements(s: seq<string>): set<string> {
    set i | 0 <= i < |s| :: s[i]
  }

  /** In sorted order the ancestors of an element have all been seen. */
  lemma {:induction false} AncestorsComeFirst(s: seq<string>, i: nat, a: string)
    requires i < |s| && Ordered(s, [SortKey(Itself(), false)])
    requires a in s && Ancestor(a, s[i])
    ensures a in s[..i]
  {
    var j :| 0 <= j < |s| && s[j] == a;
    AncestorIsPrefix(a, s[i]);
    SortedStrings(s);
  }

  lemma SortedStrings(s: seq<string>)
    requires Ordered(s, [SortKey(Itself(), false)])
    ensures forall i, j :: 0 <= i < j < |s| ==> !StrLess(s[j], s[i])
  {
    var keys := [SortKey(Itself(), false)];
    forall i, j | 0 <= i < j < |s| ensures !StrLess(s[j], s[i]) {
      assert !KeyLess(s[j], s[i], keys);
      assert Less(Itself()(s[j]), Itself()(s[i])) == StrLess(s[j], s[i]);
    }
  }

  /** The walk to the parents meets a member of `r`. */
  method MeetsAncestor(uri: string, r: set<string>) returns (met: bool)
    ensures met <==> HasAncestor(uri, r)
    ensures met <==> Covered(uri, r)
  {
    CoveredHasAncestor(uri, r);
    var parent := ParentUri(uri);
    while parent != ""
      invariant parent != "" ==> Ancestor(parent, uri)
      invariant forall a :: a in r && Ancestor(a, uri) ==> parent != "" && (a == parent || Ancestor(a, parent))
      decreases |parent|
    {
      if parent in r {
        return true;
      }
      if ParentUri(parent) != "" { AncestorTransitive(ParentUri(parent), parent, uri); }
      parent := ParentUri(parent);
    }
    met := false;
  }

  /** Adding the next element of the sorted list. */
  lemma RootsGrow(s: seq<string>, i: nat)
    requires i < |s| && Ordered(s, [SortKey(Itself(), false)])
    ensures var seen, roots := Elements(s[..i]), Roots(Elements(s[..i]));
            Roots(Elements(s[..i + 1])) == if HasAncestor(s[i], roots) then roots else roots + {s[i]}
  {
    var seen, uri := Elements(s[..i]), s[i];
    var grown := seen + {uri};
    ElementsGrow(s, i);
    RootsSuffice(uri, seen);
    if Ancestor(uri, uri) { AncestorIsPrefix(uri, uri); }
    assert HasAncestor(uri, grown) <==> HasAncestor(uri, seen);
    forall u | u in seen ensures HasAncestor(u, grown) <==> HasAncestor(u, seen) {
      SeenStay(s, i, u);
    }
    RootsOneMore(seen, uri);
  }

  lemma ElementsGrow(s: seq<string>, i: nat)
    requires i < |s|
    ensures Elements(s[..i + 1]) == Elements(s[..i]) + {s[i]}
  {
    assert s[..i + 1] == s[..i] + [s[i]];
    assert forall j :: 0 <= j < i ==> s[..i + 1][j] == s[..i][j];
  }

  /** Having an ancestor in a set is having one among its roots. */
  lemma RootsSuffice(uri: string, seen: set<string>)
    ensures HasAncestor(uri, seen) <==> HasAncestor(uri, Roots(seen))
  {
    if HasAncestor(uri, seen) {
      var a :| a in seen && Ancestor(a, uri);
      var r := RootAbove(a, seen);
      if r != a { AncestorTransitive(r, a, uri); }
    }
  }

  /** The next element of the sorted list is no ancestor of the ones before. */
  lemma SeenStay(s: seq<string>, i: nat, u: string)
    requires i < |s| && Ordered(s, [SortKey(Itself(), false)]) && u in Elements(s[..i])
    ensures HasAncestor(u, Elements(s[..i]) + {s[i]}) <==> HasAncestor(u, Elements(s[..i]))
  {
    var k :| 0 <= k < i && s[..i][k] == u;
    if Ancestor(s[i], u) {
      AncestorsComeFirst(s, k, s[i]);
      var m :| 0 <= m < k && s[..k][m] == s[i];
      assert s[..i][m] == s[i];
    }
  }

  lemma RootsOneMore(seen: set<string>, uri: string)
    requires forall u :: u in seen ==> (HasAncestor(u, seen + {uri}) <==> HasAncestor(u, seen))
    requires HasAncestor(uri, seen + {uri}) <==> HasAncestor(uri, seen)
    ensures Roots(seen + {uri}) == if HasAncestor(uri, seen) then Roots(seen) else Roots(seen) + {uri}
  {
  }

  /** `condense_under_parents` */
  method CondenseUnderParents(objectUris: seq<string>) returns (ancestors: set<string>)
    ensures ancestors == Roots(Elements(objectUris))
    ensures forall u :: u in ancestors <==> u in objectUris && !Covered(u, Elements(objectUris))
  {
    var sorted := SortBy(objectUris, Itself(), false);
    SortElements(objectUris, Itself(), false);
    assert Ordered(objectUris, []);
    SortByOrdered(objectUris, [SortKey(Itself(), false)]);
    ancestors := {};
    for i := 0 to |sorted|
      invariant ancestors == Roots(Elements(sorted[..i]))
    {
      RootsGrow(sorted, i);
      var met := MeetsAncestor(sorted[i], ancestors);
      if !met {
        ancestors := ancestors + {sorted[i]};
      }
    }
    assert sorted[..|sorted|] == sorted;
    forall u ensures u in Elements(sorted) <==> u in Elements(objectUris) {
      SameElements(sorted, objectUris, u);
      assert u in sorted <==> u in Elements(sorted);
      assert u in objectUris <==> u in Elements(objectUris);
    }
    assert Elements(sorted) == Elements(objectUris);
    RootsCondense(Elements(objectUris));
  }
}
