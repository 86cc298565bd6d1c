/** `recursive_update_dict` with null as the removal mark, against MergePatch of
    section 2 of RFC 7396. */
module MergePatch {
  import opened Options
  import opened Json

  // ---------- The standard ----------

  /** MergePatch(Target, Patch); `Missing` is a target that is not defined. */
  function Patched(target: Value, patch: Json): Json
    decreases patch
  {
    if !patch.Obj? then patch
    else Obj(PatchedFields(if target.Present? && target.json.Obj? then target.json.fields else map[], patch))
  }

  function PatchedFields(base: Dict, patch: Json): Dict
    requires patch.Obj?
    decreases patch, 0
  {
    map k | k in base.Keys + patch.fields.Keys && !(k in patch.fields && patch.fields[k] == Null) ::
      if k in patch.fields then Patched(Get(base, k), patch.fields[k]) else base[k]
  }

  // ---------- The code ----------

  /** `k in s` for strings. */
  predicate Substring(k: string, s: string) {
    exists i :: 0 <= i <= |s| && k <= s[i..]
  }

  /** The loop over the changes when the root is not a dict: it runs to the end, changing
      nothing, only if it never indexes the root. */
  predicate Survives(root: Json, changes: Dict) {
    match root
    case Str(s) => forall k :: k in changes ==> changes[k] == Null && !Substring(k, s)
    case Arr(items) => forall k :: k in changes ==> changes[k] == Null && Str(k) !in items
    case _ => changes == map[]
  }

  /** Whether Python's `k in root` holds, when it does not raise. */
  function IsIn(root: Json, k: string): Option<bool> {
    match root
    case Obj(fields) => Some(k in fields)
    case Arr(items) => Some(Str(k) in items)
    case Str(s) => Some(Substring(k, s))
    case _ => None
  }

  /** What becomes of one key: its new value, `Missing` once removed; `None` where Python raises. */
  function Entry(base: Dict, k: string, v: Json): Option<Value>
    decreases v, 3
  {
    if v.Obj? then
      var sub := Updated(if k in base then base[k] else Obj(map[]), v);
      if sub.Some? then Some(Present(sub.value)) else None
    else if v == Null then Some(Missing)
    else Some(Present(v))
  }

  /** Base fields outside `done`, new entries inside. */
  function Merge(base: Dict, changes: Json, done: set<string>): Dict
    requires changes.Obj? && done <= changes.fields.Keys
    requires forall k :: k in done ==> Entry(base, k, changes.fields[k]).Some?
    decreases changes, 0
  {
    map k | k in base.Keys + done && !(k in done && Entry(base, k, changes.fields[k]).value == Missing) ::
      if k in done then Entry(base, k, changes.fields[k]).value.json else base[k]
  }

  /** `recursive_update_dict(root, changes, ignores=(None,))`: the updated root, `None` where
      Python raises. */
  function Updated(root: Json, changes: Json): Option<Json>
    decreases changes, 2
  {
    if !changes.Obj? then Some(root)
    else if !root.Obj? then (if Survives(root, changes.fields) then Some(root) else None)
    else if forall k :: k in changes.fields ==> Entry(root.fields, k, changes.fields[k]).Some? then
      Some(Obj(Merge(root.fields, changes, changes.fields.Keys)))
    else None
  }

  /** What a turn of the loop makes of the fields. */
  function Turned(m: Dict, k: string, entry: Value): Dict {
    match entry
    case Missing => m - {k}
    case Present(j) => m[k := j]
  }

  /** One turn of the loop: the key is looked up as it was at first. */
  lemma {:induction false} MergeOneMore(base: Dict, changes: Json, done: set<string>, k: string)
    requires changes.Obj? && done <= changes.fields.Keys && k in changes.fields && k !in done
    requires forall k :: k in done ==> Entry(base, k, changes.fields[k]).Some?
    ensures Get(Merge(base, changes, done), k) == Get(base, k)
    ensures var entry := Entry(base, k, changes.fields[k]);
            entry.Some? ==> Merge(base, changes, done + {k}) == Turned(Merge(base, changes, done), k, entry.value)
  {
    var entry, m := Entry(base, k, changes.fields[k]), Merge(base, changes, done);
    if entry.Some? {
      var grown, turned := Merge(base, changes, done + {k}), Turned(m, k, entry.value);
      forall j ensures j in grown <==> j in turned {}
      forall j | j in grown ensures grown[j] == turned[j] {}
    }
  }

  /** The loop on a root that is not a dict: it cannot be assigned to, nor can it be popped. */
  method UpdateOther(root: Json, changes: Dict) returns (r: Option<Json>)
    requires !root.Obj?
    ensures r == if Survives(root, changes) then Some(root) else None
  {
    var rest := changes.Keys;
    while rest != {}
      invariant rest <= changes.Keys
      invariant forall k :: k in changes.Keys - rest ==> changes[k] == Null && IsIn(root, k) == Some(false)
      decreases rest
    {
      var k :| k in rest;
      if changes[k] != Null || IsIn(root, k) != Some(false) {
        return None;
      }
      rest := rest - {k};
    }
    r := Some(root);
  }

  /** Changes that are not a dict change nothing, whatever the root. */
  lemma {:induction false} OnlyDictsChange(root: Json, changes: Json)
    requires !changes.Obj?
    ensures Updated(root, changes) == Some(root)
  {
  }

  /** A patch object that meets a string, an array or another value. */
  lemma OthersRaise(k: string, before: string, after: string, n: real, v: Json)
    ensures Updated(Str(before + k + after), Obj(map[k := Null])) == None
    ensures k != "" && before != k ==> Updated(Arr([Str(before)]), Obj(map[k := Null])) == Some(Arr([Str(before)]))
    ensures Updated(Arr([Str(k)]), Obj(map[k := Null])) == None
    ensures Updated(Num(n), Obj(map[k := Null])) == None && Updated(Num(n), Obj(map[])) == Some(Num(n))
    ensures v != Null ==> Updated(Str(before), Obj(map[k := v])) == None && Updated(Arr([]), Obj(map[k := v])) == None
    ensures k != "" ==> Updated(Str(""), Obj(map[k := Null])) == Some(Str(""))
  {
    assert (before + k + after)[|before|..] == k + after;
    assert Substring(k, before + k + after);
    var one := map[k := v];
    assert k in one && one[k] == v;
  }

  /** The loop itself, on a dict root. */
  method RecursiveUpdate(root: Json, changes: Json) returns (r: Option<Json>)
    ensures r == Updated(root, changes)
    decreases changes
  {
    if !changes.Obj? {
      return Some(root);
    }
    if !root.Obj? {
      r := UpdateOther(root, changes.fields);
      return;
    }
    var fields := root.fields;
    var rest := changes.fields.Keys;
    while rest != {}
      invariant rest <= changes.fields.Keys
      invariant forall k :: k in changes.fields.Keys - rest ==> Entry(root.fields, k, changes.fields[k]).Some?
      invariant fields == Merge(root.fields, changes, changes.fields.Keys - rest)
      decreases rest
    {
      var k :| k in rest;
      var v := changes.fields[k];
      MergeOneMore(root.fields, changes, changes.fields.Keys - rest, k);
      assert changes.fields.Keys - (rest - {k}) == (changes.fields.Keys - rest) + {k};
      if v.Obj? {
        ghost var before := fields;
        if k !in fields {
          fields := fields[k := Obj(map[])];
        }
        var sub := RecursiveUpdate(fields[k], v);
        if sub.None? {
          return None;
        }
        fields := fields[k := sub.value];
        assert fields == before[k := sub.value];
      } else if v == Null {
        if k in fields {
          fields := fields - {k};
        }
      } else {
        fields := fields[k := v];
      }
      rest := rest - {k};
    }
    assert changes.fields.Keys - rest == changes.fields.Keys;
    r := Some(Obj(fields));
  }

  // ---------- When the code follows the standard ----------

  /** No object of the patch meets a value of the target that is not an object. */
  predicate Compatible(root: Json, changes: Json)
    decreases changes
  {
    root.Obj? && changes.Obj? &&
    forall k :: k in changes.fields && changes.fields[k].Obj? && k in root.fields ==>
      Compatible(root.fields[k], changes.fields[k])
  }

  lemma {:induction false} CompatibleFollowsStandard(root: Json, changes: Json)
    requires Compatible(root, changes)
    ensures Updated(root, changes) == Some(Patched(Present(root), changes))
    decreases changes
  {
    forall k | k in changes.fields
      ensures Entry(root.fields, k, changes.fields[k])
              == Some(if changes.fields[k] == Null then Missing
                else Present(Patched(Get(root.fields, k), changes.fields[k])))
    {
      var v := changes.fields[k];
      if v.Obj? {
        var sub := if k in root.fields then root.fields[k] else Obj(map[]);
        CompatibleFollowsStandard(sub, v);
        assert Patched(Present(sub), v) == Patched(Get(root.fields, k), v);
      }
    }
    assert Merge(root.fields, changes, changes.fields.Keys) == PatchedFields(root.fields, changes);
  }

  lemma {:induction false} FollowingStandardIsCompatible(root: Json, changes: Json)
    requires changes.Obj? && Updated(root, changes) == Some(Patched(Present(root), changes))
    ensures Compatible(root, changes)
    decreases changes
  {
    forall k | k in changes.fields && changes.fields[k].Obj? && k in root.fields
      ensures Compatible(root.fields[k], changes.fields[k])
    {
      var v := changes.fields[k];
      var entry := Entry(root.fields, k, v);
      assert entry.Some?;
      var merged, patched := Merge(root.fields, changes, changes.fields.Keys), PatchedFields(root.fields, changes);
      assert merged == patched;
      assert merged[k] == entry.value.json && patched[k] == Patched(Present(root.fields[k]), v);
      FollowingStandardIsCompatible(root.fields[k], v);
    }
  }

  /** Main result: for every target and patch object, the code computes MergePatch exactly
      when no object of the patch meets a non-object of the target. */
  lemma {:induction false} ComputesMergePatch(root: Json, changes: Json)
    requires changes.Obj?
    ensures Updated(root, changes) == Some(Patched(Present(root), changes)) <==> Compatible(root, changes)
  {
    if Compatible(root, changes) { CompatibleFollowsStandard(root, changes); }
    if Updated(root, changes) == Some(Patched(Present(root), changes)) { FollowingStandardIsCompatible(root, changes); }
  }

  /** Applying a patch again changes nothing, whenever it applied the first time. */
  lemma {:induction false} UpdateIsIdempotent(root: Json, changes: Json)
    requires Updated(root, changes).Some?
    ensures var r := Updated(root, changes).value; Updated(r, changes) == Some(r)
    decreases changes
  {
    if changes.Obj? && root.Obj? {
      var r := Updated(root, changes).value;
      forall k | k in changes.fields ensures Entry(r.fields, k, changes.fields[k]) == Some(Get(r.fields, k)) {
        var v := changes.fields[k];
        assert Entry(root.fields, k, v).Some?;
        if v.Obj? {
          UpdateIsIdempotent(if k in root.fields then root.fields[k] else Obj(map[]), v);
        }
      }
      assert Merge(r.fields, changes, changes.fields.Keys) == r.fields;
    }
  }
}
