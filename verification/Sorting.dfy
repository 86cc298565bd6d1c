/** Python's stable `sorted`, and the reversed chain of single-key sorts that
    `apply_sorting` builds from it. */
module Sorting {
  import opened Json

  // ---------- A stable sort on one key ----------

  predicate Before<T>(key: T -> Value, desc: bool, a: T, b: T) {
    if desc then Less(key(b), key(a)) else Less(key(a), key(b))
  }

  function Insert<T>(x: T, s: seq<T>, key: T -> Value, desc: bool): seq<T> {
    if s != [] && Before(key, desc, s[0], x) then [s[0]] + Insert(x, s[1..], key, desc)
    else [x] + s
  }

  /** `sorted(s, key=key, reverse=desc)`: equal elements keep their order, reversed or not. */
  function SortBy<T>(s: seq<T>, key: T -> Value, desc: bool): seq<T> {
    if s == [] then [] else Insert(s[0], SortBy(s[1..], key, desc), key, desc)
  }

  // ---------- Selection, multiplicity and uniqueness ----------

  function Select<T>(s: seq<T>, p: T -> bool): (r: seq<T>)
    ensures |r| <= |s|
  {
    if s == [] then []
    else (if p(s[0]) then [s[0]] else []) + Select(s[1..], p)
  }

  lemma {:induction false} SelectAppend<T>(s: seq<T>, t: seq<T>, p: T -> bool)
    ensures Select(s + t, p) == Select(s, p) + Select(t, p)
  {
    if s == [] {
      assert s + t == t;
    } else {
      var head := if p(s[0]) then [s[0]] else [];
      calc {
        Select(s + t, p);
        { assert (s + t)[0] == s[0] && (s + t)[1..] == s[1..] + t; }
        head + Select(s[1..] + t, p);
        { SelectAppend(s[1..], t, p); }
        head + (Select(s[1..], p) + Select(t, p));
        (head + Select(s[1..], p)) + Select(t, p);
      }
    }
  }

  lemma {:induction false} SelectIn<T>(s: seq<T>, p: T -> bool, x: T)
    ensures x in Select(s, p) <==> x in s && p(x)
  {
    if s != [] {
      assert s == [s[0]] + s[1..];
      SelectIn(s[1..], p, x);
    }
  }

  lemma {:induction false} SelectAll<T>(s: seq<T>, p: T -> bool)
    requires forall x :: x in s ==> p(x)
    ensures Select(s, p) == s
  {
    if s != [] {
      SelectAll(s[1..], p);
      assert s == [s[0]] + s[1..];
    }
  }

  lemma {:induction false} SelectNone<T>(s: seq<T>, p: T -> bool)
    requires forall x :: x in s ==> !p(x)
    ensures Select(s, p) == []
  {
    if s != [] { SelectNone(s[1..], p); }
  }

  lemma {:induction false} SelectSame<T>(s: seq<T>, p: T -> bool, q: T -> bool)
    requires forall x :: x in s ==> p(x) == q(x)
    ensures Select(s, p) == Select(s, q)
  {
    if s != [] { SelectSame(s[1..], p, q); }
  }

  /** A selection of distinct elements is distinct: two positions of it are two positions of `s`. */
  lemma {:induction false} SelectKeepsDistinct<T, K>(s: seq<T>, p: T -> bool, f: T -> K, i: nat, j: nat)
    requires forall a, b :: 0 <= a < b < |s| ==> f(s[a]) != f(s[b])
    requires i < j < |Select(s, p)|
    ensures f(Select(s, p)[i]) != f(Select(s, p)[j])
  {
    var rest := s[1..];
    forall a, b | 0 <= a < b < |rest| ensures f(rest[a]) != f(rest[b]) {
      assert f(s[a + 1]) != f(s[b + 1]);
    }
    var kept := Select(rest, p);
    if !p(s[0]) {
      SelectKeepsDistinct(rest, p, f, i, j);
    } else if i > 0 {
      SelectKeepsDistinct(rest, p, f, i - 1, j - 1);
    } else {
      SelectIn(rest, p, kept[j - 1]);
      var a :| 0 <= a < |rest| && rest[a] == kept[j - 1];
      assert f(s[0]) != f(s[a + 1]);
    }
  }

  function Both<T>(p: T -> bool, q: T -> bool): T -> bool {
    x => p(x) && q(x)
  }

  lemma {:induction false} SelectTwice<T>(s: seq<T>, p: T -> bool, q: T -> bool)
    ensures Select(Select(s, p), q) == Select(s, Both(p, q))
  {
    if s != [] {
      SelectTwice(s[1..], p, q);
      var head := if p(s[0]) then [s[0]] else [];
      SelectAppend(head, Select(s[1..], p), q);
    }
  }

  // ---------- The mixed-direction order on whole key tuples ----------

  /** One sort instruction: the column it reads and whether it is descending. */
  datatype SortKey<!T> = SortKey(key: T -> Value, desc: bool)

  predicate KeyLess<T>(a: T, b: T, keys: seq<SortKey<T>>) {
    keys != [] &&
    (Before(keys[0].key, keys[0].desc, a, b) ||
     (keys[0].key(a) == keys[0].key(b) && KeyLess(a, b, keys[1..])))
  }

  predicate SameKeys<T>(a: T, b: T, keys: seq<SortKey<T>>) {
    forall i :: 0 <= i < |keys| ==> keys[i].key(a) == keys[i].key(b)
  }

  ghost predicate ScalarKeys<T>(s: seq<T>, keys: seq<SortKey<T>>) {
    forall x, i :: x in s && 0 <= i < |keys| ==> Scalar(keys[i].key(x))
  }

  ghost predicate Ordered<T(!new)>(s: seq<T>, keys: seq<SortKey<T>>) {
    forall i, j :: 0 <= i < j < |s| ==> !KeyLess(s[j], s[i], keys)
  }

  lemma {:induction false} KeyLessTotal<T>(a: T, b: T, keys: seq<SortKey<T>>)
    requires ScalarKeys([a, b], keys)
    ensures KeyLess(a, b, keys) || KeyLess(b, a, keys) || SameKeys(a, b, keys)
    ensures SameKeys(a, b, keys) ==> !KeyLess(a, b, keys)
  {
    if keys != [] {
      assert a in [a, b] && b in [a, b];
      LessTotal(keys[0].key(a), keys[0].key(b));
      LessIrreflexive(keys[0].key(a));
      KeyLessTotal(a, b, keys[1..]);
      if keys[0].key(a) == keys[0].key(b) && SameKeys(a, b, keys[1..]) {
        forall i | 0 <= i < |keys| ensures keys[i].key(a) == keys[i].key(b) {
          if i > 0 { assert keys[i] == keys[1..][i - 1]; }
        }
      }
      if SameKeys(a, b, keys) {
        forall i | 0 <= i < |keys[1..]| ensures keys[1..][i].key(a) == keys[1..][i].key(b) {}
      }
    }
  }

  lemma {:induction false} KeyLessTransitive<T>(a: T, b: T, c: T, keys: seq<SortKey<T>>)
    requires KeyLess(a, b, keys) && KeyLess(b, c, keys)
    ensures KeyLess(a, c, keys)
  {
    var k := keys[0];
    if Before(k.key, k.desc, a, b) && Before(k.key, k.desc, b, c) {
      if k.desc { LessTransitive(k.key(c), k.key(b), k.key(a)); }
      else { LessTransitive(k.key(a), k.key(b), k.key(c)); }
    } else if !Before(k.key, k.desc, a, b) && !Before(k.key, k.desc, b, c) {
      KeyLessTransitive(a, b, c, keys[1..]);
    }
  }

  lemma {:induction false} KeyLessIrreflexive<T>(a: T, keys: seq<SortKey<T>>)
    ensures !KeyLess(a, a, keys)
  {
    if keys != [] {
      LessIrreflexive(keys[0].key(a));
      KeyLessIrreflexive(a, keys[1..]);
    }
  }

  /** Replacing an argument by one with the same keys changes nothing. */
  lemma {:induction false} KeyLessCongruent<T>(a: T, b: T, c: T, keys: seq<SortKey<T>>)
    requires SameKeys(a, b, keys)
    ensures KeyLess(a, c, keys) == KeyLess(b, c, keys)
    ensures KeyLess(c, a, keys) == KeyLess(c, b, keys)
  {
    if keys != [] {
      assert keys[0].key(a) == keys[0].key(b);
      assert SameKeys(a, b, keys[1..]) by {
        forall i | 0 <= i < |keys[1..]| ensures keys[1..][i].key(a) == keys[1..][i].key(b) {
          assert keys[1..][i] == keys[i + 1];
        }
      }
      KeyLessCongruent(a, b, c, keys[1..]);
    }
  }

  // ---------- One sort on top of an already sorted list ----------

  lemma {:induction false} InsertElements<T>(x: T, s: seq<T>, key: T -> Value, desc: bool)
    ensures multiset(Insert(x, s, key, desc)) == multiset([x]) + multiset(s)
  {
    if s != [] && Before(key, desc, s[0], x) {
      InsertElements(x, s[1..], key, desc);
      assert s == [s[0]] + s[1..];
    }
  }

  lemma {:induction false} SortElements<T>(s: seq<T>, key: T -> Value, desc: bool)
    ensures multiset(SortBy(s, key, desc)) == multiset(s)
  {
    if s != [] {
      SortElements(s[1..], key, desc);
      InsertElements(s[0], SortBy(s[1..], key, desc), key, desc);
      assert s == [s[0]] + s[1..];
    }
  }

  lemma SameElements<T>(s: seq<T>, t: seq<T>, x: T)
    requires multiset(s) == multiset(t)
    ensures x in s <==> x in t
  {
    assert x in s <==> x in multiset(s);
    assert x in t <==> x in multiset(t);
  }

  lemma AppearsTwice<T>(s: seq<T>, i: nat, j: nat)
    requires i < j < |s| && s[i] == s[j]
    ensures multiset(s)[s[i]] >= 2
  {
    assert s == s[..i] + [s[i]] + s[i + 1..j] + [s[j]] + s[j + 1..];
  }

  lemma AppearsOnce<T>(s: seq<T>, a: nat)
    requires a < |s| && forall b :: 0 <= b < |s| && b != a ==> s[b] != s[a]
    ensures multiset(s)[s[a]] == 1
  {
    assert s == s[..a] + [s[a]] + s[a + 1..];
    assert s[a] !in s[..a] && s[a] !in s[a + 1..];
  }

  lemma PermutationKeepsDistinct<T, K>(s: seq<T>, t: seq<T>, f: T -> K)
    requires multiset(s) == multiset(t)
    requires forall i, j :: 0 <= i < j < |s| ==> f(s[i]) != f(s[j])
    ensures forall i, j :: 0 <= i < j < |t| ==> f(t[i]) != f(t[j])
  {
    forall i, j | 0 <= i < j < |t| ensures f(t[i]) != f(t[j]) {
      SameElements(s, t, t[i]);
      SameElements(s, t, t[j]);
      assert t[i] in t && t[j] in t;
      var a :| 0 <= a < |s| && s[a] == t[i];
      var b :| 0 <= b < |s| && s[b] == t[j];
      AppearsOnce(s, a);
      if t[i] == t[j] { AppearsTwice(t, i, j); }
    }
  }

  /** `x` precedes every `y` of `s` in the rest of the order: inserting it keeps the whole order. */
  lemma {:induction false} InsertOrdered<T(!new)>(x: T, s: seq<T>, keys: seq<SortKey<T>>)
    requires keys != [] && Ordered(s, keys)
    requires forall y :: y in s ==> !KeyLess(y, x, keys[1..])
    ensures Ordered(Insert(x, s, keys[0].key, keys[0].desc), keys)
  {
    var key, desc := keys[0].key, keys[0].desc;
    var r := Insert(x, s, key, desc);
    if s != [] && Before(key, desc, s[0], x) {
      assert forall y :: y in s[1..] ==> y in s;
      assert Ordered(s[1..], keys);
      InsertOrdered(x, s[1..], keys);
      InsertElements(x, s[1..], key, desc);
      forall j | 1 <= j < |r| ensures !KeyLess(r[j], r[0], keys) {
        var y := r[j];
        SameElements(r[1..], [x] + s[1..], y);
        assert y in r[1..];
        if y == x {
          if KeyLess(x, s[0], keys) {
            assert KeyLess(s[0], x, keys);
            KeyLessTransitive(x, s[0], x, keys);
            KeyLessIrreflexive(x, keys);
          }
        } else {
          assert y in s[1..];
          var i :| 0 <= i < |s[1..]| && s[1..][i] == y;
          assert s[i + 1] == y;
        }
      }
      assert r == [s[0]] + r[1..];
      forall i, j | 0 <= i < j < |r| ensures !KeyLess(r[j], r[i], keys) {
        if i > 0 { assert r[i] == r[1..][i - 1] && r[j] == r[1..][j - 1]; }
      }
    } else {
      forall j | 0 <= j < |s| ensures !KeyLess(s[j], x, keys) {
        if Before(key, desc, s[j], x) {
          assert j > 0 && !KeyLess(s[j], s[0], keys);
          BeforeThird(s[j], x, s[0], key, desc);
        }
      }
    }
  }

  /** Negative transitivity, where the key values involved are comparable. */
  lemma BeforeThird<T>(a: T, b: T, c: T, key: T -> Value, desc: bool)
    requires Before(key, desc, a, b)
    requires Scalar(key(a)) && Scalar(key(b)) && Scalar(key(c))
    ensures Before(key, desc, a, c) || Before(key, desc, c, b)
  {
    LessTotal(key(a), key(c));
    LessTotal(key(b), key(c));
    var (lo, hi) := if desc then (key(b), key(a)) else (key(a), key(b));
    if Less(key(c), lo) { LessTransitive(key(c), lo, hi); }
    if Less(hi, key(c)) { LessTransitive(lo, hi, key(c)); }
  }

  lemma {:induction false} SortByOrdered<T(!new)>(s: seq<T>, keys: seq<SortKey<T>>)
    requires keys != [] && Ordered(s, keys[1..])
    ensures Ordered(SortBy(s, keys[0].key, keys[0].desc), keys)
  {
    if s != [] {
      var rest := SortBy(s[1..], keys[0].key, keys[0].desc);
      SortByOrdered(s[1..], keys);
      forall y | y in rest ensures !KeyLess(y, s[0], keys[1..]) {
        SortElements(s[1..], keys[0].key, keys[0].desc);
        SameElements(rest, s[1..], y);
        var j :| 0 <= j < |s[1..]| && s[1..][j] == y;
        assert s[j + 1] == y;
      }
      InsertOrdered(s[0], rest, keys);
    }
  }

  /** Elements that the sort cannot tell apart keep their relative order. */
  lemma {:induction false} InsertStable<T(!new)>(x: T, s: seq<T>, key: T -> Value, desc: bool, p: T -> bool)
    requires forall a, b :: p(a) && p(b) ==> !Before(key, desc, a, b)
    ensures Select(Insert(x, s, key, desc), p) == Select([x] + s, p)
  {
    if s != [] && Before(key, desc, s[0], x) {
      InsertStable(x, s[1..], key, desc, p);
      assert ([x] + s)[1..] == s;
      assert ([x] + s[1..])[1..] == s[1..];
    }
  }

  lemma {:induction false} SortByStable<T(!new)>(s: seq<T>, key: T -> Value, desc: bool, p: T -> bool)
    requires forall a, b :: p(a) && p(b) ==> !Before(key, desc, a, b)
    ensures Select(SortBy(s, key, desc), p) == Select(s, p)
  {
    if s != [] {
      var rest := SortBy(s[1..], key, desc);
      SortByStable(s[1..], key, desc, p);
      InsertStable(s[0], rest, key, desc, p);
      assert ([s[0]] + rest)[1..] == rest;
    }
  }

  // ---------- The reversed chain ----------

  /** The loop of `apply_sorting`: the last key is sorted first, the first key last. */
  function SortChain<T>(s: seq<T>, keys: seq<SortKey<T>>): seq<T> {
    if keys == [] then s
    else SortBy(SortChain(s, keys[1..]), keys[0].key, keys[0].desc)
  }

  /** The elements that have exactly the key tuple of `g`. */
  function SameAs<T>(g: T, keys: seq<SortKey<T>>): T -> bool {
    x => SameKeys(x, g, keys)
  }

  lemma {:induction false} ChainElements<T>(s: seq<T>, keys: seq<SortKey<T>>)
    ensures multiset(SortChain(s, keys)) == multiset(s)
  {
    if keys != [] {
      ChainElements(s, keys[1..]);
      SortElements(SortChain(s, keys[1..]), keys[0].key, keys[0].desc);
    }
  }

  lemma {:induction false} InsertCount<T>(x: T, s: seq<T>, key: T -> Value, desc: bool, p: T -> bool)
    ensures |Select(Insert(x, s, key, desc), p)| == |Select(s, p)| + if p(x) then 1 else 0
  {
    if s != [] && Before(key, desc, s[0], x) {
      InsertCount(x, s[1..], key, desc, p);
      assert ([s[0]] + Insert(x, s[1..], key, desc))[1..] == Insert(x, s[1..], key, desc);
    } else {
      assert ([x] + s)[1..] == s;
    }
  }

  lemma {:induction false} SortByCount<T>(s: seq<T>, key: T -> Value, desc: bool, p: T -> bool)
    ensures |Select(SortBy(s, key, desc), p)| == |Select(s, p)|
  {
    if s != [] {
      SortByCount(s[1..], key, desc, p);
      InsertCount(s[0], SortBy(s[1..], key, desc), key, desc, p);
    }
  }

  lemma {:induction false} ChainCount<T>(s: seq<T>, keys: seq<SortKey<T>>, p: T -> bool)
    ensures |Select(SortChain(s, keys), p)| == |Select(s, p)|
  {
    if keys != [] {
      ChainCount(s, keys[1..], p);
      SortByCount(SortChain(s, keys[1..]), keys[0].key, keys[0].desc, p);
    }
  }

  lemma {:induction false} ChainOrdered<T(!new)>(s: seq<T>, keys: seq<SortKey<T>>)
    ensures Ordered(SortChain(s, keys), keys)
  {
    if keys != [] {
      ChainOrdered(s, keys[1..]);
      SortByOrdered(SortChain(s, keys[1..]), keys);
    }
  }

  lemma {:induction false} ChainStable<T(!new)>(s: seq<T>, keys: seq<SortKey<T>>, p: T -> bool)
    requires forall a, b :: p(a) && p(b) ==> SameKeys(a, b, keys)
    ensures Select(SortChain(s, keys), p) == Select(s, p)
  {
    if keys != [] {
      forall a, b | p(a) && p(b)
        ensures SameKeys(a, b, keys[1..]) && !Before(keys[0].key, keys[0].desc, a, b)
      {
        assert SameKeys(a, b, keys) && keys[0].key(a) == keys[0].key(b);
        forall i | 0 <= i < |keys[1..]| ensures keys[1..][i].key(a) == keys[1..][i].key(b) {
          assert keys[1..][i] == keys[i + 1];
        }
        LessIrreflexive(keys[0].key(a));
      }
      ChainStable(s, keys[1..], p);
      SortByStable(SortChain(s, keys[1..]), keys[0].key, keys[0].desc, p);
    }
  }

  /** Main result: the chain permutes its input into the mixed-direction
      lexicographic order, and ties keep their input order. */
  lemma {:induction false} ChainSorts<T(!new)>(s: seq<T>, keys: seq<SortKey<T>>)
    ensures multiset(SortChain(s, keys)) == multiset(s)
    ensures Ordered(SortChain(s, keys), keys)
    ensures forall g :: Select(SortChain(s, keys), SameAs(g, keys)) == Select(s, SameAs(g, keys))
  {
    ChainElements(s, keys);
    ChainOrdered(s, keys);
    forall g ensures Select(SortChain(s, keys), SameAs(g, keys)) == Select(s, SameAs(g, keys)) {
      ChainStable(s, keys, SameAs(g, keys));
    }
  }

  lemma {:induction false} SelectIsOrdered<T(!new)>(s: seq<T>, p: T -> bool, keys: seq<SortKey<T>>)
    requires Ordered(s, keys)
    ensures Ordered(Select(s, p), keys)
  {
    if s != [] {
      forall i, j | 0 <= i < j < |s[1..]| ensures !KeyLess(s[1..][j], s[1..][i], keys) {
        assert !KeyLess(s[j + 1], s[i + 1], keys);
      }
      SelectIsOrdered(s[1..], p, keys);
      var rest, r := Select(s[1..], p), Select(s, p);
      if p(s[0]) {
        forall i, j | 0 <= i < j < |r| ensures !KeyLess(r[j], r[i], keys) {
          if i == 0 {
            SelectIn(s[1..], p, r[j]);
            assert rest[j - 1] == r[j];
            var k :| 0 <= k < |s[1..]| && s[1..][k] == r[j];
            assert s[k + 1] == r[j];
          } else {
            assert r[i] == rest[i - 1] && r[j] == rest[j - 1];
          }
        }
      } else {
        assert r == rest;
      }
    }
  }

  /** The three clauses of `ChainSorts` leave one result only. */
  lemma {:induction false} StableSortUnique<T(!new)>(s: seq<T>, t: seq<T>, keys: seq<SortKey<T>>)
    requires Ordered(s, keys) && Ordered(t, keys)
    requires ScalarKeys(s, keys)
    requires forall g :: Select(s, SameAs(g, keys)) == Select(t, SameAs(g, keys))
    ensures s == t
  {
    forall x ensures x in s <==> x in t {
      SelectIn(s, SameAs(x, keys), x);
      SelectIn(t, SameAs(x, keys), x);
    }
    assert t != [] ==> t[0] in t;
    if s != [] {
      var a := s[0];
      assert a in t;
      var b := t[0];
      assert b in s;
      var i :| 0 <= i < |s| && s[i] == b;
      var j :| 0 <= j < |t| && t[j] == a;
      KeyLessIrreflexive(a, keys);
      assert !KeyLess(b, a, keys) && !KeyLess(a, b, keys);
      assert ScalarKeys([a, b], keys);
      KeyLessTotal(a, b, keys);
      assert SameAs(a, keys)(b) && SameAs(a, keys)(a);
      assert Select(s, SameAs(a, keys))[0] == a;
      assert Select(t, SameAs(a, keys))[0] == b;
      forall g ensures Select(s[1..], SameAs(g, keys)) == Select(t[1..], SameAs(g, keys)) {
        var head := if SameAs(g, keys)(a) then [a] else [];
        assert head + Select(s[1..], SameAs(g, keys)) == head + Select(t[1..], SameAs(g, keys));
        assert Select(s[1..], SameAs(g, keys)) == Select(s, SameAs(g, keys))[|head|..];
        assert Select(t[1..], SameAs(g, keys)) == Select(t, SameAs(g, keys))[|head|..];
      }
      assert forall x :: x in s[1..] ==> x in s;
      StableSortUnique(s[1..], t[1..], keys);
      assert s == [a] + s[1..] && t == [b] + t[1..];
    }
  }
}
