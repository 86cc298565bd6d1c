/** Field selection: `dict_subset` projects a nested dict on dotted keys, `dict_merge` joins
    two projections. */
module DictSubset {
  import opened Json
  import opened Paths

  // ---------- Sub-trees ----------

  /** `a` is `d` with some keys left out, at any depth. */
  predicate SubTree(a: Json, d: Json)
    decreases a
  {
    a == d ||
    (a.Obj? && d.Obj? && forall k :: k in a.fields ==> k in d.fields && SubTree(a.fields[k], d.fields[k]))
  }

  lemma {:induction false} SubTreeTransitive(a: Json, b: Json, c: Json)
    requires SubTree(a, b) && SubTree(b, c)
    ensures SubTree(a, c)
    decreases a
  {
    if a != b && b != c {
      forall k | k in a.fields ensures k in c.fields && SubTree(a.fields[k], c.fields[k]) {
        SubTreeTransitive(a.fields[k], b.fields[k], c.fields[k]);
      }
    }
  }

  lemma {:induction false} SubTreeAntisymmetric(a: Json, b: Json)
    requires SubTree(a, b) && SubTree(b, a)
    ensures a == b
    decreases a
  {
    if a.Obj? && b.Obj? {
      forall k ensures (k in a.fields <==> k in b.fields) && (k in a.fields ==> a.fields[k] == b.fields[k]) {
        if k in a.fields && k in b.fields {
          SubTreeAntisymmetric(a.fields[k], b.fields[k]);
        }
      }
      assert a.fields == b.fields;
    }
  }

  // ---------- The join ----------

  /** `dict_merge`: the values of `a` win, two dicts are merged. */
  function Merge(a: Json, b: Json): (r: Json)
    requires a.Obj? && b.Obj?
    ensures r.Obj?
    decreases a
  {
    Obj(map k | k in a.fields.Keys + b.fields.Keys ::
          if k !in a.fields then b.fields[k]
          else if a.fields[k].Obj? then
            Merge(a.fields[k], if k in b.fields && b.fields[k].Obj? then b.fields[k] else Obj(map[]))
          else a.fields[k])
  }

  /** Where the code would call `dict(**b)` on something that is not a dict. */
  predicate Mergeable(a: Json, b: Json)
    requires a.Obj? && b.Obj?
    decreases a
  {
    forall k :: k in a.fields && a.fields[k].Obj? && k in b.fields ==>
      b.fields[k].Obj? && Mergeable(a.fields[k], b.fields[k])
  }

  /** The loop of `dict_merge`. */
  method DictMerge(a: Json, b: Json) returns (r: Json)
    requires a.Obj? && b.Obj? && Mergeable(a, b)
    ensures r == Merge(a, b)
    decreases a
  {
    var result := b.fields;
    var rest := a.fields.Keys;
    while rest != {}
      invariant rest <= a.fields.Keys
      invariant result == map k | k in (a.fields.Keys - rest) + b.fields.Keys ::
                  if k in a.fields.Keys - rest then Merge(a, b).fields[k] else b.fields[k]
      decreases rest
    {
      var k :| k in rest;
      var value := a.fields[k];
      if value.Obj? {
        assert k in result <==> k in b.fields;
        assert k in b.fields ==> result[k] == b.fields[k];
        value := DictMerge(value, if k in result then result[k] else Obj(map[]));
      }
      assert value == Merge(a, b).fields[k];
      result := result[k := value];
      rest := rest - {k};
    }
    assert result == Merge(a, b).fields;
    r := Obj(result);
  }

  lemma {:induction false} SubTreesAreMergeable(a: Json, b: Json, d: Json)
    requires a.Obj? && b.Obj? && SubTree(a, d) && SubTree(b, d)
    ensures Mergeable(a, b)
    decreases a
  {
    forall k | k in a.fields && a.fields[k].Obj? && k in b.fields
      ensures b.fields[k].Obj? && Mergeable(a.fields[k], b.fields[k])
    {
      assert SubTree(a.fields[k], d.fields[k]) && SubTree(b.fields[k], d.fields[k]);
      SubTreesAreMergeable(a.fields[k], b.fields[k], d.fields[k]);
    }
  }

  lemma {:induction false} MergeIsUpperBound(a: Json, b: Json, d: Json)
    requires a.Obj? && b.Obj? && SubTree(a, d) && SubTree(b, d)
    ensures SubTree(a, Merge(a, b)) && SubTree(b, Merge(a, b))
    decreases a
  {
    var m := Merge(a, b);
    forall k | k in a.fields
      ensures SubTree(a.fields[k], m.fields[k]) && (k in b.fields ==> SubTree(b.fields[k], m.fields[k]))
    {
      assert SubTree(a.fields[k], d.fields[k]);
      if k in b.fields { assert SubTree(b.fields[k], d.fields[k]); }
      if a.fields[k].Obj? {
        MergeIsUpperBound(a.fields[k], if k in b.fields then b.fields[k] else Obj(map[]), d.fields[k]);
      }
    }
  }

  lemma {:induction false} MergeIsLeast(a: Json, b: Json, c: Json)
    requires a.Obj? && b.Obj? && SubTree(a, c) && SubTree(b, c)
    ensures SubTree(Merge(a, b), c)
    decreases a
  {
    var m := Merge(a, b);
    forall k | k in m.fields ensures k in c.fields && SubTree(m.fields[k], c.fields[k]) {
      if k in a.fields {
        assert SubTree(a.fields[k], c.fields[k]);
        if k in b.fields { assert SubTree(b.fields[k], c.fields[k]); }
        if a.fields[k].Obj? {
          MergeIsLeast(a.fields[k], if k in b.fields && b.fields[k].Obj? then b.fields[k] else Obj(map[]), c.fields[k]);
        }
      }
    }
  }

  // ---------- The projection ----------

  /** What one key selects. */
  function One(d: Json, key: string): (r: Json)
    requires d.Obj?
    ensures r.Obj?
    decreases |key|
  {
    var dot := FirstDot(key);
    var field := key[..dot];
    if field !in d.fields then Obj(map[])
    else if dot < |key| && d.fields[field].Obj? then Obj(map[field := One(d.fields[field], key[dot + 1..])])
    else Obj(map[field := d.fields[field]])
  }

  /** The join of what the keys select. */
  function Subset(d: Json, keys: seq<string>): (r: Json)
    requires d.Obj?
    ensures r.Obj?
  {
    if keys == [] then Obj(map[])
    else Merge(One(d, keys[|keys| - 1]), Subset(d, keys[..|keys| - 1]))
  }

  lemma {:induction false} OneIsSubTree(d: Json, key: string)
    requires d.Obj?
    ensures SubTree(One(d, key), d)
    decreases |key|
  {
    var dot := FirstDot(key);
    var field := key[..dot];
    if field in d.fields && dot < |key| && d.fields[field].Obj? {
      OneIsSubTree(d.fields[field], key[dot + 1..]);
    }
  }

  lemma {:induction false} SubsetIsSubTree(d: Json, keys: seq<string>)
    requires d.Obj?
    ensures SubTree(Subset(d, keys), d)
  {
    if keys != [] {
      var n := |keys| - 1;
      OneIsSubTree(d, keys[n]);
      SubsetIsSubTree(d, keys[..n]);
      MergeIsLeast(One(d, keys[n]), Subset(d, keys[..n]), d);
    }
  }

  lemma {:induction false} SubsetIsUpperBound(d: Json, keys: seq<string>, i: nat)
    requires d.Obj? && i < |keys|
    ensures SubTree(One(d, keys[i]), Subset(d, keys))
    decreases |keys|
  {
    var n := |keys| - 1;
    OneIsSubTree(d, keys[n]);
    SubsetIsSubTree(d, keys[..n]);
    MergeIsUpperBound(One(d, keys[n]), Subset(d, keys[..n]), d);
    if i < n {
      SubsetIsUpperBound(d, keys[..n], i);
      SubTreeTransitive(One(d, keys[i]), Subset(d, keys[..n]), Subset(d, keys));
    }
  }

  lemma {:induction false} SubsetIsLeast(d: Json, keys: seq<string>, c: Json)
    requires d.Obj? && c.Obj?
    requires forall i :: 0 <= i < |keys| ==> SubTree(One(d, keys[i]), c)
    ensures SubTree(Subset(d, keys), c)
  {
    if keys != [] {
      var n := |keys| - 1;
      SubsetIsLeast(d, keys[..n], c);
      MergeIsLeast(One(d, keys[n]), Subset(d, keys[..n]), c);
    }
  }

  /** Main result: the selection depends on the set of keys only, not on their order or repetition. */
  lemma {:induction false} SubsetIgnoresOrder(d: Json, keys: seq<string>, others: seq<string>)
    requires d.Obj? && forall k :: k in keys <==> k in others
    ensures Subset(d, keys) == Subset(d, others)
  {
    SubsetBelow(d, keys, others);
    SubsetBelow(d, others, keys);
    SubTreeAntisymmetric(Subset(d, keys), Subset(d, others));
  }

  lemma {:induction false} SubsetBelow(d: Json, keys: seq<string>, others: seq<string>)
    requires d.Obj? && forall k :: k in keys ==> k in others
    ensures SubTree(Subset(d, keys), Subset(d, others))
  {
    forall i | 0 <= i < |keys| ensures SubTree(One(d, keys[i]), Subset(d, others)) {
      assert keys[i] in others;
      var j :| 0 <= j < |others| && others[j] == keys[i];
      SubsetIsUpperBound(d, others, j);
    }
    SubsetIsLeast(d, keys, Subset(d, others));
  }

  lemma {:induction false} OneIsMonotone(a: Json, d: Json, key: string)
    requires a.Obj? && d.Obj? && SubTree(a, d)
    ensures SubTree(One(a, key), One(d, key))
    decreases |key|
  {
    var dot := FirstDot(key);
    var field := key[..dot];
    if field in a.fields {
      assert SubTree(a.fields[field], d.fields[field]);
      if dot < |key| && a.fields[field].Obj? {
        OneIsMonotone(a.fields[field], d.fields[field], key[dot + 1..]);
      }
    }
  }

  lemma {:induction false} OneIsIdempotent(d: Json, key: string)
    requires d.Obj?
    ensures One(One(d, key), key) == One(d, key)
    decreases |key|
  {
    var dot := FirstDot(key);
    var field := key[..dot];
    if field in d.fields && dot < |key| && d.fields[field].Obj? {
      OneIsIdempotent(d.fields[field], key[dot + 1..]);
    }
  }

  /** Main result: selecting again with the same keys changes nothing. */
  lemma {:induction false} SubsetIsProjection(d: Json, keys: seq<string>)
    requires d.Obj?
    ensures SubTree(Subset(d, keys), d)
    ensures Subset(Subset(d, keys), keys) == Subset(d, keys)
  {
    var s := Subset(d, keys);
    SubsetIsSubTree(d, keys);
    SubsetIsSubTree(s, keys);
    forall i | 0 <= i < |keys| ensures SubTree(One(d, keys[i]), Subset(s, keys)) {
      SubsetIsUpperBound(d, keys, i);
      OneIsMonotone(One(d, keys[i]), s, keys[i]);
      OneIsIdempotent(d, keys[i]);
      SubsetIsUpperBound(s, keys, i);
      SubTreeTransitive(One(d, keys[i]), One(s, keys[i]), Subset(s, keys));
    }
    SubsetIsLeast(d, keys, Subset(s, keys));
    SubTreeAntisymmetric(Subset(s, keys), s);
  }

  // ---------- What the caller reads back ----------

  lemma {:induction false} ArrowIsMonotone(a: Json, d: Json, path: seq<string>)
    requires SubTree(a, d) && Arrow(a, path).Present?
    ensures Arrow(d, path).Present? && SubTree(Arrow(a, path).json, Arrow(d, path).json)
  {
    if path != [] {
      assert SubTree(a.fields[path[0]], d.fields[path[0]]);
      ArrowIsMonotone(a.fields[path[0]], d.fields[path[0]], path[1..]);
    }
  }

  lemma {:induction false} OneKeepsTheValue(d: Json, key: string)
    requires d.Obj? && Arrow(d, Split(key)).Present?
    ensures Arrow(One(d, key), Split(key)) == Arrow(d, Split(key))
    decreases |key|
  {
    var dot := FirstDot(key);
    var parts := Split(key);
    if dot == |key| {
      assert key[..dot] == key && key[0..] == key[..dot];
      SplitPlain(key, 0);
      assert parts[1..] == [];
    } else {
      assert key[0..dot] == key[..dot];
      SplitFirst(key, 0, dot);
      assert parts[0] == key[..dot] && parts[1..] == Split(key[dot + 1..]);
      assert d.fields[key[..dot]].Obj?;
      OneKeepsTheValue(d.fields[key[..dot]], key[dot + 1..]);
    }
  }

  /** Main result: each selected path reads in the selection as it does in the whole. */
  lemma {:induction false} SelectedPathsAreKept(d: Json, keys: seq<string>, key: string)
    requires d.Obj? && key in keys
    ensures Arrow(Subset(d, keys), Split(key)) == Arrow(d, Split(key))
  {
    var path, s := Split(key), Subset(d, keys);
    SubsetIsSubTree(d, keys);
    if Arrow(s, path).Present? { ArrowIsMonotone(s, d, path); }
    if Arrow(d, path).Present? {
      var i :| 0 <= i < |keys| && keys[i] == key;
      OneKeepsTheValue(d, key);
      SubsetIsUpperBound(d, keys, i);
      ArrowIsMonotone(One(d, key), s, path);
      SubTreeAntisymmetric(Arrow(s, path).json, Arrow(d, path).json);
    }
  }

  // ---------- The loop ----------

  /** A selected field that is taken whole absorbs what was there. */
  lemma {:induction false} WholeAbsorbs(a: Json, b: Json)
    requires a.Obj? && b.Obj? && SubTree(b, a)
    ensures Merge(a, b) == a
  {
    MergeIsUpperBound(a, b, a);
    MergeIsLeast(a, b, a);
    SubTreeAntisymmetric(Merge(a, b), a);
  }

  /** `dict_subset`; a dotted key recurs on its first field with the rest of the key alone. */
  method DictSubset(d: Json, keys: seq<string>) returns (r: Json)
    requires d.Obj?
    ensures r == Subset(d, keys)
    decreases SumOf(keys)
  {
    var result: Dict := map[];
    for i := 0 to |keys|
      invariant Obj(result) == Subset(d, keys[..i])
    {
      var key := keys[i];
      var dot := FirstDot(key);
      ghost var before := Obj(result);
      assert keys[..i + 1][..i] == keys[..i];
      assert Subset(d, keys[..i + 1]) == Merge(One(d, key), before);
      SubsetIsSubTree(d, keys[..i]);
      LoopTurn(d, key, before);
      assert dot == |key| ==> key[..dot] == key;
      if dot < |key| {
        var field, subfield := key[..dot], key[dot + 1..];
        if field in d.fields && d.fields[field].Obj? {
          KeyShrinks(keys, i, subfield);
          var subvalue := DictSubset(d.fields[field], [subfield]);
          SubsetOfOne(d.fields[field], subfield);
          assert field in result ==> SubTree(result[field], d.fields[field]);
          OneIsSubTree(d.fields[field], subfield);
          SubTreesAreMergeable(subvalue, if field in result then result[field] else Obj(map[]), d.fields[field]);
          var merged := DictMerge(subvalue, if field in result then result[field] else Obj(map[]));
          result := result[field := merged];
        } else if field in d.fields {
          result := result[field := d.fields[field]];
        }
      } else if key in d.fields {
        result := result[key := d.fields[key]];
      }
    }
    assert keys[..|keys|] == keys;
    r := Obj(result);
  }

  /** One turn of the loop joins what its key selects. */
  lemma {:induction false} LoopTurn(d: Json, key: string, before: Json)
    requires d.Obj? && before.Obj? && SubTree(before, d)
    ensures var dot := FirstDot(key);
            var field := key[..dot];
            Merge(One(d, key), before).fields ==
            if field !in d.fields then before.fields
            else if dot < |key| && d.fields[field].Obj? then
              before.fields[field := Merge(One(d.fields[field], key[dot + 1..]),
                                           if field in before.fields && before.fields[field].Obj?
                                           then before.fields[field] else Obj(map[]))]
            else before.fields[field := d.fields[field]]
  {
    var dot := FirstDot(key);
    var field := key[..dot];
    if field in d.fields && d.fields[field].Obj? {
      assert field in before.fields ==> SubTree(before.fields[field], d.fields[field]);
      var there := if field in before.fields then before.fields[field] else Obj(map[]);
      assert SubTree(there, d.fields[field]);
      if dot == |key| { WholeAbsorbs(d.fields[field], there); }
    }
  }

  function SumOf(keys: seq<string>): nat {
    if keys == [] then 0 else |keys[0]| + 1 + SumOf(keys[1..])
  }

  lemma {:induction false} KeyShrinks(keys: seq<string>, i: nat, shorter: string)
    requires i < |keys| && |shorter| < |keys[i]|
    ensures SumOf([shorter]) < SumOf(keys)
  {
    assert SumOf([shorter]) == |shorter| + 1;
    if i > 0 { KeyShrinks(keys[1..], i - 1, shorter); }
  }

  lemma {:induction false} SubsetOfOne(d: Json, key: string)
    requires d.Obj?
    ensures Subset(d, [key]) == One(d, key)
  {
    assert [key][..0] == [];
    assert SubTree(Obj(map[]), One(d, key));
    WholeAbsorbs(One(d, key), Obj(map[]));
  }
}
