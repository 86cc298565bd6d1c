/** The changes of one group as words, and what replaying them action by action makes of their
    order. */
module GroupReorder {
  import opened Sorting
  import opened Groups
  import opened GroupReplay
  import Events

  // ---------- Words of changes of one group ----------

  /** Creations and deletions alternate; `live` says whether the group exists at first. */
  predicate Word(w: seq<Change>, live: bool) {
    forall i {:trigger GoneBefore(w, live, i)} :: 0 <= i < |w| ==> (w[i].Created? <==> GoneBefore(w, live, i))
  }

  lemma WordAt(w: seq<Change>, live: bool, i: nat)
    requires Word(w, live) && i < |w|
    ensures w[i].Created? <==> if i == 0 then !live else w[i - 1].Removed?
  {
    assert GoneBefore(w, live, i) == if i == 0 then !live else w[i - 1].Removed?;
  }

  predicate GoneBefore(w: seq<Change>, live: bool, i: nat)
    requires i <= |w|
  {
    if i == 0 then !live else w[i - 1].Removed?
  }

  /** Whether the user is a member after each change: `bit(i)` after the `i`-th, `bit(-1)` at
      first.  How a change of the word moves the principal when it is replayed. */
  predicate Forces(w: seq<Change>, bit: int -> bool, i: nat, v: bool)
    requires i < |w|
  {
    match w[i]
    case Created(_, _) => v && bit(i)
    case Updated(_, _, _) => bit(i) == v && bit(i - 1) != v
    case Removed(_) => !v
  }

  /** Place of an action in a list of distinct actions. */
  function Rank(actions: seq<Events.Action>, a: Events.Action): (r: nat)
    ensures a in actions ==> r < |actions| && actions[r] == a
  {
    if actions == [] then 0
    else if actions[|actions| - 1] == a then |actions| - 1
    else Rank(actions[..|actions| - 1], a)
  }

  function RankAt(w: seq<Change>, actions: seq<Events.Action>, i: nat): nat
    requires i < |w|
  {
    Rank(actions, ActionOf(w[i]))
  }

  /** The `j`-th change is replayed after the `i`-th. */
  predicate Later(w: seq<Change>, actions: seq<Events.Action>, i: nat, j: nat)
    requires i < |w| && j < |w|
  {
    RankAt(w, actions, i) < RankAt(w, actions, j) || (ActionOf(w[i]) == ActionOf(w[j]) && i < j)
  }

  /** The `i`-th change decides the outcome of the replay. */
  predicate Decides(w: seq<Change>, actions: seq<Events.Action>, bit: int -> bool, i: nat, v: bool) {
    && i < |w| && Forces(w, bit, i, v)
    && forall j: nat :: j < |w| && Later(w, actions, i, j) ==> !Forces(w, bit, j, !v)
  }

  /** Whether the user is a member in the end. */
  predicate FinalBit(w: seq<Change>, bit: int -> bool) {
    w != [] && !w[|w| - 1].Removed? && bit(|w| - 1)
  }

  predicate Covers(w: seq<Change>, actions: seq<Events.Action>) {
    forall i :: 0 <= i < |w| ==> ActionOf(w[i]) in actions
  }

  /** Two changes are replayed the other way round. */
  ghost predicate Inverted(w: seq<Change>, actions: seq<Events.Action>) {
    exists i, j :: 0 <= i < j < |w| && RankAt(w, actions, i) > RankAt(w, actions, j)
  }

  /** Nothing outranks the last change. */
  ghost predicate TopLast(w: seq<Change>, actions: seq<Events.Action>) {
    w != [] && forall i :: 0 <= i < |w| ==> RankAt(w, actions, i) <= RankAt(w, actions, |w| - 1)
  }

  // ---------- Blocks without inversion ----------

  lemma {:induction false} RankOfInit(actions: seq<Events.Action>, a: Events.Action)
    requires Distinct(actions) && a in actions
    ensures var n := |actions| - 1;
            if a == actions[n] then Rank(actions, a) == n && a !in actions[..n]
            else Rank(actions, a) == Rank(actions[..n], a) < n && a in actions[..n]
  {
    var n := |actions| - 1;
    forall k | 0 <= k < n ensures actions[..n][k] != actions[n] {
      assert actions[..n][k] == actions[k];
    }
    assert actions == actions[..n] + [actions[n]];
  }

  /** A change of the highest rank comes last. */
  lemma {:induction false} BlocksSnoc(init: seq<Change>, c: Change, actions: seq<Events.Action>)
    requires Distinct(actions) && Covers(init, actions) && ActionOf(c) in actions
    requires forall i :: 0 <= i < |init| ==> RankAt(init, actions, i) <= Rank(actions, ActionOf(c))
    ensures Blocks(init + [c], actions) == Blocks(init, actions) + [c]
  {
    var n, a := |actions| - 1, ActionOf(c);
    RankOfInit(actions, a);
    assert actions == actions[..n] + [actions[n]];
    BlocksGrow(init, actions[..n], actions[n]);
    BlocksGrow(init + [c], actions[..n], actions[n]);
    OneMoreSelected(init, c, actions[n]);
    NothingToAdd(Select(init, HasAction(actions[n])));
    if a == actions[n] {
      BlocksSkip(init, c, actions[..n]);
      Events.Associates(Blocks(init, actions[..n]), Select(init, HasAction(a)), [c]);
    } else {
      LowerRanks(init, actions, a);
      SelectNone(init, HasAction(actions[n]));
      BlocksSnoc(init, c, actions[..n]);
      NothingToAdd(Blocks(init, actions[..n]));
      NothingToAdd(Blocks(init, actions[..n]) + [c]);
    }
  }

  lemma NothingToAdd<T>(s: seq<T>)
    ensures s + [] == s
  {
  }

  lemma {:induction false} OneMoreSelected(init: seq<Change>, c: Change, a: Events.Action)
    ensures Select(init + [c], HasAction(a)) == Select(init, HasAction(a)) + if ActionOf(c) == a then [c] else []
  {
    SelectAppend(init, [c], HasAction(a));
    assert Select([c], HasAction(a)) == (if ActionOf(c) == a then [c] else []) + Select([], HasAction(a));
  }

  lemma {:induction false} LowerRanks(init: seq<Change>, actions: seq<Events.Action>, a: Events.Action)
    requires Distinct(actions) && Covers(init, actions) && a in actions && a != actions[|actions| - 1]
    requires forall i :: 0 <= i < |init| ==> RankAt(init, actions, i) <= Rank(actions, a)
    ensures var fewer := actions[..|actions| - 1];
            && Distinct(fewer) && Covers(init, fewer)
            && (forall i :: 0 <= i < |init| ==> RankAt(init, fewer, i) <= Rank(fewer, a))
            && (forall c :: c in init ==> !HasAction(actions[|actions| - 1])(c))
  {
    var n := |actions| - 1;
    RankOfInit(actions, a);
    forall i | 0 <= i < |init|
      ensures ActionOf(init[i]) in actions[..n] && ActionOf(init[i]) != actions[n]
      ensures RankAt(init, actions[..n], i) <= Rank(actions[..n], a)
    {
      assert RankAt(init, actions, i) <= Rank(actions, a) < n;
      RankOfInit(actions, ActionOf(init[i]));
    }
  }

  /** Actions other than its own do not see a change. */
  lemma {:induction false} BlocksSkip(init: seq<Change>, c: Change, actions: seq<Events.Action>)
    requires ActionOf(c) !in actions
    ensures Blocks(init + [c], actions) == Blocks(init, actions)
  {
    if actions != [] {
      var n := |actions| - 1;
      BlocksSkip(init, c, actions[..n]);
      SelectAppend(init, [c], HasAction(actions[n]));
      assert actions[n] in actions;
      assert Select([c], HasAction(actions[n])) == [];
    }
  }

  /** Without inversion the replay keeps the order. */
  lemma {:induction false} NoInversion(w: seq<Change>, actions: seq<Events.Action>)
    requires Distinct(actions) && Covers(w, actions) && !Inverted(w, actions)
    ensures Blocks(w, actions) == w
  {
    if w == [] {
      NoBlocks(actions);
    } else {
      var n := |w| - 1;
      assert w == w[..n] + [w[n]];
      forall i, j | 0 <= i < j < n ensures RankAt(w[..n], actions, i) <= RankAt(w[..n], actions, j) {
        assert RankAt(w, actions, i) <= RankAt(w, actions, j);
      }
      assert Covers(w[..n], actions) by {
        forall i | 0 <= i < n ensures ActionOf(w[..n][i]) in actions { assert w[..n][i] == w[i]; }
      }
      NoInversion(w[..n], actions);
      forall i | 0 <= i < n ensures RankAt(w[..n], actions, i) <= Rank(actions, ActionOf(w[n])) {
        assert RankAt(w, actions, i) <= RankAt(w, actions, n);
      }
      BlocksSnoc(w[..n], w[n], actions);
    }
  }

  lemma {:induction false} NoBlocks(actions: seq<Events.Action>)
    ensures Blocks([], actions) == []
  {
    if actions != [] { NoBlocks(actions[..|actions| - 1]); }
  }

  /** When nothing outranks the deletion with which a word ends, its replay ends with it too. */
  lemma {:induction false} TopDeletionEnds(w: seq<Change>, actions: seq<Events.Action>)
    requires Distinct(actions) && Covers(w, actions) && EndsDeleted(w) && TopLast(w, actions)
    ensures EndsDeleted(Blocks(w, actions))
  {
    var n := |w| - 1;
    assert w == w[..n] + [w[n]];
    forall i | 0 <= i < n ensures RankAt(w[..n], actions, i) <= Rank(actions, ActionOf(w[n])) {
      assert RankAt(w[..n], actions, i) == RankAt(w, actions, i) <= RankAt(w, actions, n);
    }
    assert Covers(w[..n], actions) by {
      forall i | 0 <= i < n ensures ActionOf(w[..n][i]) in actions { assert w[..n][i] == w[i]; }
    }
    BlocksSnoc(w[..n], w[n], actions);
  }
}
