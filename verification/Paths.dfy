/** Dotted paths as chains of keys, and when the dotted-path search is such a chain. */
module Paths {
  import opened Json

  /** The value at the end of a chain of keys; in SQL, `data -> 'a' -> 'b'`, NULL being `Missing`. */
  function Arrow(j: Json, path: seq<string>): Value {
    if path == [] then Present(j)
    else if j.Obj? && path[0] in j.fields then Arrow(j.fields[path[0]], path[1..])
    else Missing
  }

  /** `path.split(".")` */
  function Split(path: string): (parts: seq<string>)
    ensures parts != []
  {
    SplitAt(path, 0)
  }

  function SplitAt(path: string, i: nat): (parts: seq<string>)
    requires i <= |path|
    ensures parts != []
    decreases |path|, |path| - i
  {
    if i == |path| then [path]
    else if path[i] == '.' then [path[..i]] + SplitAt(path[i + 1..], 0)
    else SplitAt(path, i + 1)
  }

  /** No key of any object inside `j` holds a dot. */
  predicate Undotted(j: Json) {
    j.Obj? ==> forall k :: k in j.fields ==> '.' !in k && Undotted(j.fields[k])
  }

  lemma {:induction false} SplitPlain(path: string, i: nat)
    requires i <= |path| && '.' !in path[i..]
    ensures SplitAt(path, i) == [path]
    decreases |path| - i
  {
    if i < |path| {
      assert path[i] == path[i..][0];
      assert forall c :: c in path[i + 1..] ==> c in path[i..];
      SplitPlain(path, i + 1);
    }
  }

  lemma {:induction false} SplitFirst(path: string, i: nat, dot: nat)
    requires i <= dot < |path| && path[dot] == '.' && '.' !in path[i..dot]
    ensures SplitAt(path, i) == [path[..dot]] + Split(path[dot + 1..])
    decreases dot - i
  {
    if i < dot {
      assert path[i] == path[i..dot][0];
      assert forall c :: c in path[i + 1..dot] ==> c in path[i..dot];
      SplitFirst(path, i + 1, dot);
    }
  }

  function FirstDot(path: string): (i: nat)
    ensures i <= |path| && '.' !in path[..i]
    ensures i < |path| ==> path[i] == '.'
  {
    if path == "" || path[0] == '.' then 0 else 1 + FirstDot(path[1..])
  }

  /** On undotted keys the dotted-path search is the chain of `->` operators. */
  lemma {:induction false} FindNestedIsArrow(d: Dict, path: string)
    requires Undotted(Obj(d))
    ensures FindNested(d, path) == Arrow(Obj(d), Split(path))
    decreases |path|
  {
    var dot := FirstDot(path);
    if dot == |path| {
      assert path[..dot] == path && path[0..] == path;
      SplitPlain(path, 0);
      forall j | 0 <= j < |path| ensures path[j] != '.' { assert path[..dot][j] == path[j]; }
      assert LongestRoot(d, path, |path|).NoRoot?;
      assert path in d ==> Arrow(Obj(d), [path]) == Arrow(d[path], []);
    } else {
      assert path[0..dot] == path[..dot];
      SplitFirst(path, 0, dot);
      assert '.' in path;
      assert path !in d;
      var head, tail := path[..dot], path[dot + 1..];
      var parts := Split(path);
      assert parts[0] == head && parts[1..] == Split(tail);
      forall j | 0 <= j < dot ensures path[j] != '.' { assert path[..dot][j] == path[j]; }
      forall j | dot < j <= |path| ensures '.' in path[..j] { assert path[..j][dot] == '.'; }
      assert LongestRoot(d, path, |path|) == if head in d then RootAt(dot) else NoRoot;
      if head in d && d[head].Obj? {
        FindNestedIsArrow(d[head].fields, tail);
      }
    }
  }

  lemma HeadAlone(path: string)
    ensures |Split(path)| == 1 ==> Split(path)[0] == path
  {
    var dot := FirstDot(path);
    if dot == |path| {
      assert path[0..] == path[..dot];
      SplitPlain(path, 0);
    } else {
      assert path[0..dot] == path[..dot];
      SplitFirst(path, 0, dot);
    }
  }
}
