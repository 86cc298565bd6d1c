/** JSON documents as Python sees them, the dotted-path lookup, and the total
    order that decorates values for sorting. */
module Json {

  type Dict = map<string, Json>

  datatype Json =
    | Null
    | Str(s: string)
    | Num(n: real)
    | Bool(b: bool)
    | Arr(items: seq<Json>)
    | Obj(fields: Dict)

  /** A looked-up field: `Missing` is the sentinel for an absent one. */
  datatype Value = Missing | Present(json: Json)

  predicate Scalar(v: Value) {
    match v
    case Missing => true
    case Present(j) => !j.Arr? && !j.Obj?
  }

  /** `d.get(k, MISSING)` */
  function Get(d: Dict, k: string): Value {
    if k in d then Present(d[k]) else Missing
  }

  // ---------- Dotted-path lookup ----------

  datatype Root = NoRoot | RootAt(dot: nat)

  /** The longest proper prefix of `path[..i]` that ends before a dot and is a key of `d`. */
  function LongestRoot(d: Dict, path: string, i: nat): (r: Root)
    requires i <= |path|
    ensures r.RootAt? ==> r.dot < i && path[r.dot] == '.' && path[..r.dot] in d
    ensures r.RootAt? ==> forall j :: r.dot < j < i && path[j] == '.' ==> path[..j] !in d
    ensures r.NoRoot? ==> forall j :: 0 <= j < i && path[j] == '.' ==> path[..j] !in d
  {
    if i == 0 then NoRoot
    else if path[i - 1] == '.' && path[..i - 1] in d then RootAt(i - 1)
    else LongestRoot(d, path, i - 1)
  }

  /** Finds a nested value from a dotted path whose keys may themselves hold dots. */
  function FindNested(d: Dict, path: string): Value
    decreases |path|
  {
    if path in d then Present(d[path])
    else
      match LongestRoot(d, path, |path|)
      case NoRoot => Missing
      case RootAt(i) =>
        if d[path[..i]].Obj? then FindNested(d[path[..i]].fields, path[i + 1..])
        else Missing
  }

  // ---------- The order ----------

  predicate StrLess(a: string, b: string) {
    if b == "" then false
    else if a == "" then true
    else a[0] < b[0] || (a[0] == b[0] && StrLess(a[1..], b[1..]))
  }

  /** Object > Array > Boolean > Number > String > Null, and MISSING above them all. */
  function Tag(v: Value): nat {
    match v
    case Missing => 6
    case Present(Null) => 0
    case Present(Str(_)) => 1
    case Present(Num(_)) => 2
    case Present(Bool(_)) => 3
    case Present(Arr(_)) => 4
    case Present(Obj(_)) => 5
  }

  /** Order of the decorated pairs `(tag, value)`.  Two different arrays, or two
      different objects, are left unordered. */
  predicate Less(a: Value, b: Value) {
    Tag(a) < Tag(b) ||
    match (a, b)
    case (Present(Str(x)), Present(Str(y))) => StrLess(x, y)
    case (Present(Num(x)), Present(Num(y))) => x < y
    case (Present(Bool(x)), Present(Bool(y))) => !x && y
    case _ => false
  }

  /** Values of different kinds: null, strings, numbers, booleans, arrays, objects, then what is
      missing. */
  lemma KindsInOrder(s: string, n: real, b: bool, items: seq<Json>, fields: Dict)
    ensures Less(Present(Null), Present(Str(s))) && Less(Present(Str(s)), Present(Num(n)))
    ensures Less(Present(Num(n)), Present(Bool(b))) && Less(Present(Bool(b)), Present(Arr(items)))
    ensures Less(Present(Arr(items)), Present(Obj(fields))) && Less(Present(Obj(fields)), Missing)
  {
  }

  /** Values of one kind: numbers by size, false before true, strings at the first character
      that differs, a prefix first. */
  lemma {:induction false} SameKindInOrder(x: real, y: real, common: string, a: string, b: string)
    ensures Less(Present(Num(x)), Present(Num(y))) <==> x < y
    ensures Less(Present(Bool(false)), Present(Bool(true))) && !Less(Present(Bool(true)), Present(Bool(false)))
    ensures a != "" ==> Less(Present(Str(common)), Present(Str(common + a)))
    ensures a != "" && b != "" && a[0] < b[0] ==> Less(Present(Str(common + a)), Present(Str(common + b)))
  {
    if common == "" {
      assert common + a == a && common + b == b;
    } else {
      SameKindInOrder(x, y, common[1..], a, b);
      assert (common + a)[1..] == common[1..] + a && (common + b)[1..] == common[1..] + b;
    }
  }

  lemma {:induction false} StrLessTransitive(a: string, b: string, c: string)
    requires StrLess(a, b) && StrLess(b, c)
    ensures StrLess(a, c)
  {
    if a != "" && a[0] == b[0] == c[0] {
      StrLessTransitive(a[1..], b[1..], c[1..]);
    }
  }

  lemma {:induction false} StrLessIrreflexive(a: string)
    ensures !StrLess(a, a)
  {
    if a != "" { StrLessIrreflexive(a[1..]); }
  }

  lemma {:induction false} StrLessTotal(a: string, b: string)
    ensures StrLess(a, b) || a == b || StrLess(b, a)
  {
    if a != "" && b != "" && a[0] == b[0] {
      StrLessTotal(a[1..], b[1..]);
      assert a == [a[0]] + a[1..] && b == [b[0]] + b[1..];
    }
  }

  /** A proper prefix sorts first. */
  lemma {:induction false} PrefixLess(a: string, b: string)
    requires a < b
    ensures StrLess(a, b)
  {
    if a != "" { PrefixLess(a[1..], b[1..]); }
  }

  lemma LessTransitive(a: Value, b: Value, c: Value)
    requires Less(a, b) && Less(b, c)
    ensures Less(a, c)
  {
    match (a, b, c) {
      case (Present(Str(x)), Present(Str(y)), Present(Str(z))) => StrLessTransitive(x, y, z);
      case _ =>
    }
  }

  lemma LessIrreflexive(a: Value)
    ensures !Less(a, a)
  {
    match a {
      case Present(Str(x)) => StrLessIrreflexive(x);
      case _ =>
    }
  }

  lemma LessTotal(a: Value, b: Value)
    requires Scalar(a) && Scalar(b)
    ensures Less(a, b) || a == b || Less(b, a)
  {
    match (a, b) {
      case (Present(Str(x)), Present(Str(y))) => StrLessTotal(x, y);
      case _ =>
    }
  }
}
