/** The converse: whenever the replay order of a word is not safe, there are memberships for
    which a user ends with the principal of a group they are no member of, or without that of a
    group they are a member of. */
module GroupSpoil {
  import opened Groups
  import opened GroupReplay
  import opened GroupReorder
  import Events

  // ---------- Memberships that spoil an unsafe replay ----------

  function Always(): int -> bool {
    (k: int) => true
  }

  function AllBut(p: int): int -> bool {
    (k: int) => k != p
  }

  function Until(p: int): int -> bool {
    (k: int) => k < p
  }

  function Only(p: int): int -> bool {
    (k: int) => k == p
  }

  /** The replay of a word reorders it and does not end with its deletion. */
  ghost predicate Unsafe(w: seq<Change>, actions: seq<Events.Action>) {
    && Distinct(actions) && Covers(w, actions)
    && Blocks(w, actions) != w && !(EndsDeleted(w) && EndsDeleted(Blocks(w, actions)))
  }

  ghost predicate Has(w: seq<Change>, a: Events.Action) {
    exists i :: 0 <= i < |w| && ActionOf(w[i]) == a
  }

  /** Index of the last change with an action, if there is one. */
  function LastWith(w: seq<Change>, a: Events.Action): (p: nat)
    ensures Has(w, a) ==> p < |w| && ActionOf(w[p]) == a
    ensures Has(w, a) ==> forall j :: p < j < |w| ==> ActionOf(w[j]) != a
  {
    if w == [] then 0
    else if ActionOf(w[|w| - 1]) == a then |w| - 1
    else LastWith(w[..|w| - 1], a)
  }

  /** The deletions, if any, are replayed before an action. */
  ghost predicate DeletesBefore(w: seq<Change>, actions: seq<Events.Action>, a: Events.Action) {
    Has(w, Events.DELETE) ==> Rank(actions, Events.DELETE) < Rank(actions, a)
  }

  lemma NoLaterDelete(w: seq<Change>, actions: seq<Events.Action>, i: nat, j: nat)
    requires i < |w| && j < |w| && !w[i].Removed? && DeletesBefore(w, actions, ActionOf(w[i]))
    ensures Later(w, actions, i, j) ==> !w[j].Removed?
  {
    if w[j].Removed? { assert ActionOf(w[j]) == Events.DELETE; }
  }

  /** A member all along: creations add, updates do nothing. */
  lemma AlwaysCreated(w: seq<Change>, actions: seq<Events.Action>, i: nat)
    requires i < |w| && w[i].Created? && DeletesBefore(w, actions, Events.CREATE)
    ensures Decides(w, actions, Always(), i, true)
  {
    forall j: nat | j < |w| && Later(w, actions, i, j) ensures !Forces(w, Always(), j, false) {
      NoLaterDelete(w, actions, i, j);
    }
  }

  lemma {:induction false} AlwaysDeleted(w: seq<Change>, actions: seq<Events.Action>, i: nat)
    requires i < |w| && w[i].Removed?
    requires Has(w, Events.CREATE) ==> Rank(actions, Events.CREATE) < Rank(actions, Events.DELETE)
    ensures Decides(w, actions, Always(), i, false)
  {
    forall j: nat | j < |w| && Later(w, actions, i, j) ensures !Forces(w, Always(), j, true) {
      if w[j].Created? { assert ActionOf(w[j]) == Events.CREATE; }
    }
  }

  /** A member after one update only. */
  lemma OnlyUpdated(w: seq<Change>, actions: seq<Events.Action>, p: nat)
    requires p < |w| && w[p].Updated? && DeletesBefore(w, actions, Events.UPDATE)
    requires p + 1 < |w| ==> !w[p + 1].Updated?
    ensures Decides(w, actions, Only(p), p, true)
  {
    forall j: nat | j < |w| && Later(w, actions, p, j) ensures !Forces(w, Only(p), j, false) {
      NoLaterDelete(w, actions, p, j);
    }
  }

  /** A member up to the last update, which is replayed before the creations. */
  lemma {:induction false} AllButLastUpdate(w: seq<Change>, actions: seq<Events.Action>, i: nat)
    requires i < |w| && w[i].Created? && DeletesBefore(w, actions, Events.CREATE)
    requires w[|w| - 1].Updated? && Rank(actions, Events.UPDATE) < Rank(actions, Events.CREATE)
    ensures Decides(w, actions, AllBut(|w| - 1), i, true)
  {
    forall j: nat | j < |w| && Later(w, actions, i, j) ensures !Forces(w, AllBut(|w| - 1), j, false) {
      NoLaterDelete(w, actions, i, j);
    }
  }

  /** A member until the last creation. */
  lemma UntilLastCreation(w: seq<Change>, actions: seq<Events.Action>, i: nat, p: nat)
    requires i < p < |w| && w[i].Created? && w[p].Created? && DeletesBefore(w, actions, Events.CREATE)
    ensures Decides(w, actions, Until(p), i, true)
  {
    forall j: nat | j < |w| && Later(w, actions, i, j) ensures !Forces(w, Until(p), j, false) {
      NoLaterDelete(w, actions, i, j);
    }
  }

  /** A word that ends with a deletion which the replay does not put last. */
  lemma {:induction false} SpoilDeleted(w: seq<Change>, actions: seq<Events.Action>)
    returns (bit: int -> bool, i: nat, v: bool)
    requires Unsafe(w, actions) && EndsDeleted(w)
    ensures Decides(w, actions, bit, i, v) && v != FinalBit(w, bit)
  {
    var n := |w| - 1;
    if TopLast(w, actions) { TopDeletionEnds(w, actions); }
    var k :| 0 <= k < |w| && RankAt(w, actions, k) > RankAt(w, actions, n);
    v := true;
    if Has(w, Events.CREATE) && Rank(actions, Events.CREATE) > Rank(actions, Events.DELETE) {
      bit, i := Always(), LastWith(w, Events.CREATE);
      AlwaysCreated(w, actions, i);
    } else {
      assert ActionOf(w[k]) == Events.UPDATE;
      i := LastWith(w, Events.UPDATE);
      bit := Only(i);
      OnlyUpdated(w, actions, i);
    }
  }

  ghost predicate OneCreation(w: seq<Change>) {
    forall i, j :: 0 <= i < j < |w| ==> !(w[i].Created? && w[j].Created?)
  }

  ghost predicate EndsAlive(w: seq<Change>) {
    w != [] && !w[|w| - 1].Removed?
  }

  lemma UpdatesAfter(w: seq<Change>, live: bool, c: nat)
    requires Word(w, live) && EndsAlive(w) && OneCreation(w) && c < |w| && w[c].Created?
    ensures forall k :: c < k < |w| ==> w[k].Updated?
  {
    forall k | c < k < |w| ensures w[k].Updated? {
      if k + 1 < |w| { WordAt(w, live, k + 1); }
    }
  }

  lemma UpdatesBefore(w: seq<Change>, live: bool, d: nat)
    requires Word(w, live) && OneCreation(w) && d + 1 < |w| && w[d].Removed? && w[d + 1].Created?
    ensures forall k :: 0 <= k < d ==> w[k].Updated?
  {
    forall k | 0 <= k < d ensures w[k].Updated? {
      if k + 1 < |w| { WordAt(w, live, k + 1); }
    }
  }

  /** Updates after the creation that are replayed before it. */
  ghost predicate LateUpdates(w: seq<Change>, actions: seq<Events.Action>) {
    && w != [] && w[|w| - 1].Updated? && Has(w, Events.CREATE)
    && Rank(actions, Events.UPDATE) < Rank(actions, Events.CREATE)
  }

  /** With one creation at most, and the group alive in the end, an inversion that is not one
      of updates after the creation is one of updates before the deletion. */
  lemma {:induction false} UpdateBeforeDeletion(w: seq<Change>, live: bool,
                                                actions: seq<Events.Action>) returns (p: nat)
    requires Word(w, live) && EndsAlive(w) && OneCreation(w) && DeletesBefore(w, actions, Events.CREATE)
    requires Inverted(w, actions) && !LateUpdates(w, actions)
    ensures p + 2 < |w| && w[p].Updated? && w[p + 1].Removed? && DeletesBefore(w, actions, Events.UPDATE)
  {
    WithoutDeletion(w, live, actions);
    var d :| 0 <= d < |w| && w[d].Removed?;
    WordAt(w, live, d + 1);
    assert ActionOf(w[d]) == Events.DELETE && ActionOf(w[d + 1]) == Events.CREATE;
    UpdatesBefore(w, live, d);
    UpdatesAfter(w, live, d + 1);
    InversionBefore(w, actions, d);
    p := d - 1;
  }

  lemma {:induction false} InversionBefore(w: seq<Change>, actions: seq<Events.Action>, d: nat)
    requires d + 1 < |w| && w[d].Removed? && w[d + 1].Created?
    requires forall k :: 0 <= k < |w| && k != d && k != d + 1 ==> w[k].Updated?
    requires Rank(actions, Events.DELETE) < Rank(actions, Events.CREATE)
    requires |w| > d + 2 ==> Rank(actions, Events.CREATE) <= Rank(actions, Events.UPDATE)
    requires Inverted(w, actions)
    ensures d > 0 && Rank(actions, Events.DELETE) < Rank(actions, Events.UPDATE)
  {
    var i, j :| 0 <= i < j < |w| && RankAt(w, actions, i) > RankAt(w, actions, j);
    assert forall k :: 0 <= k < |w| && k != d && k != d + 1 ==> RankAt(w, actions, k) == Rank(actions, Events.UPDATE);
  }

  /** Without deletion the only inversion is that of a creation and the updates after it. */
  lemma {:induction false} WithoutDeletion(w: seq<Change>, live: bool, actions: seq<Events.Action>)
    requires Word(w, live) && EndsAlive(w) && OneCreation(w)
    ensures (forall d :: 0 <= d < |w| ==> !w[d].Removed?) ==> (Inverted(w, actions) ==> LateUpdates(w, actions))
  {
    if (forall d :: 0 <= d < |w| ==> !w[d].Removed?) && Inverted(w, actions) {
      var i, j :| 0 <= i < j < |w| && RankAt(w, actions, i) > RankAt(w, actions, j);
      CreatedThenUpdated(w, live, i, j);
      assert ActionOf(w[i]) == Events.CREATE;
      UpdatesAfter(w, live, i);
    }
  }

  lemma CreatedThenUpdated(w: seq<Change>, live: bool, i: nat, j: nat)
    requires Word(w, live) && i < j < |w| && ActionOf(w[i]) != ActionOf(w[j])
    requires forall d :: 0 <= d < |w| ==> !w[d].Removed?
    ensures w[i].Created? && w[j].Updated?
  {
    WordAt(w, live, j);
  }

  lemma {:induction false} SpoilByDeletion(w: seq<Change>, actions: seq<Events.Action>) returns (i: nat)
    requires Covers(w, actions) && EndsAlive(w) && !DeletesBefore(w, actions, Events.CREATE)
    ensures Decides(w, actions, Always(), i, false) && FinalBit(w, Always())
  {
    i := LastWith(w, Events.DELETE);
    assert ActionOf(w[i]) in actions;
    if c :| 0 <= c < |w| && ActionOf(w[c]) == Events.CREATE {
      assert ActionOf(w[c]) in actions;
    }
    AlwaysDeleted(w, actions, i);
  }

  /** A word that leaves the group alive. */
  lemma {:induction false} SpoilAlive(w: seq<Change>, live: bool, actions: seq<Events.Action>)
    returns (bit: int -> bool, i: nat, v: bool)
    requires Word(w, live) && Unsafe(w, actions) && EndsAlive(w)
    ensures Decides(w, actions, bit, i, v) && v != FinalBit(w, bit)
  {
    if !DeletesBefore(w, actions, Events.CREATE) {
      bit, v := Always(), false;
      i := SpoilByDeletion(w, actions);
    } else if LateUpdates(w, actions) {
      bit, i, v := AllBut(|w| - 1), LastWith(w, Events.CREATE), true;
      AllButLastUpdate(w, actions, i);
    } else if !OneCreation(w) {
      var k, j :| 0 <= k < j < |w| && w[k].Created? && w[j].Created?;
      bit, i, v := Until(j), k, true;
      UntilLastCreation(w, actions, k, j);
    } else {
      if !Inverted(w, actions) { NoInversion(w, actions); }
      i := UpdateBeforeDeletion(w, live, actions);
      bit, v := Only(i), true;
      OnlyUpdated(w, actions, i);
    }
  }

  /** Main step: memberships that spoil the replay of an unsafe word. */
  lemma {:induction false} Spoil(w: seq<Change>, live: bool, actions: seq<Events.Action>)
    returns (bit: int -> bool, i: nat, v: bool)
    requires Word(w, live) && Unsafe(w, actions)
    ensures Decides(w, actions, bit, i, v) && v != FinalBit(w, bit)
  {
    NoBlocks(actions);
    assert w != [];
    if EndsDeleted(w) {
      bit, i, v := SpoilDeleted(w, actions);
    } else {
      bit, i, v := SpoilAlive(w, live, actions);
    }
  }
}
