/** A request keeps principals and memberships in agreement, whatever the memberships are,
    exactly when its replay is safe for every group. */
module GroupAgreement {
  import opened Json
  import opened Sorting
  import opened Groups
  import opened GroupReplay
  import opened GroupReorder
  import opened GroupSpoil
  import Events
  import Replay

  // ---------- Changes with given memberships ----------

  function Members(user: string, member: bool): set<string> {
    if member then {user} else {}
  }

  /** The same change, on memberships of one user. */
  function Label(c: Change, user: string, before: bool, now: bool): Change {
    match c
    case Created(g, _) => Created(g, Members(user, now))
    case Updated(g, _, _) => Updated(g, Members(user, before), Members(user, now))
    case Removed(g) => Removed(g)
  }

  function Labelled(w: seq<Change>, user: string, bit: int -> bool): (r: seq<Change>)
    ensures |r| == |w|
  {
    if w == [] then []
    else
      var n := |w| - 1;
      Labelled(w[..n], user, bit) + [Label(w[n], user, bit(n - 1), bit(n))]
  }

  lemma {:induction false} LabelledAt(w: seq<Change>, user: string, bit: int -> bool, i: nat)
    requires i < |w|
    ensures Labelled(w, user, bit)[i] == Label(w[i], user, bit(i - 1), bit(i))
  {
    var n := |w| - 1;
    if i < n { LabelledAt(w[..n], user, bit, i); }
  }

  lemma {:induction false} LabelTurns(own: set<string>, user: string, w: seq<Change>, bit: int -> bool, i: nat, v: bool)
    requires i < |w|
    ensures var uri, after := Uri(w[i].g), Turn(own, user, Labelled(w, user, bit)[i]);
            && (Forces(w, bit, i, v) ==> (uri in after) == v)
            && (!Forces(w, bit, i, !v) && (uri in own) == v ==> (uri in after) == v)
  {
    LabelledAt(w, user, bit, i);
  }

  lemma {:induction false} TurnsAppend(own: set<string>, user: string, s: seq<Change>, t: seq<Change>)
    ensures Turns(own, user, s + t) == Turns(Turns(own, user, s), user, t)
  {
    if t == [] {
      assert s + t == s;
    } else {
      var n := |t| - 1;
      TurnsAppend(own, user, s, t[..n]);
      assert (s + t)[..|s| + n] == s + t[..n];
    }
  }

  lemma {:induction false} TurnsSnoc(own: set<string>, user: string, s: seq<Change>, c: Change)
    ensures Turns(own, user, s + [c]) == Turn(Turns(own, user, s), user, c)
  {
    assert (s + [c])[..|s|] == s;
  }

  lemma SelectPrefix(l: seq<Change>, n: nat, p: Change -> bool)
    requires 0 < n <= |l|
    ensures Select(l[..n], p) == Select(l[..n - 1], p) + if p(l[n - 1]) then [l[n - 1]] else []
  {
    SelectLast(l[..n], p);
    assert l[..n][..n - 1] == l[..n - 1];
  }

  /** One more change of a word under replay. */
  lemma {:induction false} BlockGrows(own: set<string>, user: string, w: seq<Change>, bit: int -> bool,
                                      a: Events.Action, n: nat)
    requires 0 < n <= |w|
    ensures var l := Labelled(w, user, bit);
            var before := Turns(own, user, Select(l[..n - 1], HasAction(a)));
            Turns(own, user, Select(l[..n], HasAction(a)))
            == if ActionOf(w[n - 1]) == a then Turn(before, user, l[n - 1]) else before
  {
    var l := Labelled(w, user, bit);
    LabelledAt(w, user, bit, n - 1);
    SelectPrefix(l, n, HasAction(a));
    var block := Select(l[..n - 1], HasAction(a));
    assert block + [] == block;
    TurnsSnoc(own, user, block, l[n - 1]);
  }

  // ---------- The change that decides a replay ----------

  /** A block without change to the contrary keeps the outcome. */
  lemma {:induction false} BlockKeeps(own: set<string>, user: string, w: seq<Change>, g: GroupId, bit: int -> bool,
                                      a: Events.Action, v: bool, n: nat)
    requires n <= |w| && (Uri(g) in own) == v && forall c :: c in w ==> c.g == g
    requires forall j: nat :: j < |w| && ActionOf(w[j]) == a ==> !Forces(w, bit, j, !v)
    ensures (Uri(g) in Turns(own, user, Select(Labelled(w, user, bit)[..n], HasAction(a)))) == v
  {
    if n > 0 {
      var l := Labelled(w, user, bit);
      BlockKeeps(own, user, w, g, bit, a, v, n - 1);
      BlockGrows(own, user, w, bit, a, n);
      LabelTurns(Turns(own, user, Select(l[..n - 1], HasAction(a))), user, w, bit, n - 1, v);
    }
  }

  /** The block of the deciding change. */
  lemma {:induction false} BlockDecides(own: set<string>, user: string, w: seq<Change>, g: GroupId, bit: int -> bool,
                                        i: nat, v: bool, n: nat)
    requires i < n <= |w| && (forall c :: c in w ==> c.g == g) && Forces(w, bit, i, v)
    requires forall j: nat :: i < j < |w| && ActionOf(w[j]) == ActionOf(w[i]) ==> !Forces(w, bit, j, !v)
    ensures (Uri(g) in Turns(own, user, Select(Labelled(w, user, bit)[..n], HasAction(ActionOf(w[i]))))) == v
  {
    var l, a := Labelled(w, user, bit), ActionOf(w[i]);
    BlockGrows(own, user, w, bit, a, n);
    LabelTurns(Turns(own, user, Select(l[..n - 1], HasAction(a))), user, w, bit, n - 1, v);
    if i < n - 1 { BlockDecides(own, user, w, g, bit, i, v, n - 1); }
  }

  lemma {:induction false} BlocksSplit(own: set<string>, user: string, l: seq<Change>, actions: seq<Events.Action>,
                                       m: nat)
    requires 0 < m <= |actions|
    ensures Turns(own, user, Blocks(l, actions[..m]))
            == Turns(Turns(own, user, Blocks(l, actions[..m - 1])), user, Select(l[..|l|], HasAction(actions[m - 1])))
  {
    assert actions[..m] == actions[..m - 1] + [actions[m - 1]];
    assert l[..|l|] == l;
    BlocksGrow(l, actions[..m - 1], actions[m - 1]);
    TurnsAppend(own, user, Blocks(l, actions[..m - 1]), Select(l, HasAction(actions[m - 1])));
  }

  /** The replay of a word ends as the deciding change says. */
  lemma {:induction false} ReplayDecided(own: set<string>, user: string, w: seq<Change>, g: GroupId, bit: int -> bool,
                                         actions: seq<Events.Action>, i: nat, v: bool, m: nat)
    requires Distinct(actions) && Covers(w, actions) && (forall c :: c in w ==> c.g == g)
    requires Decides(w, actions, bit, i, v) && RankAt(w, actions, i) < m <= |actions|
    ensures (Uri(g) in Turns(own, user, Blocks(Labelled(w, user, bit), actions[..m]))) == v
  {
    var l, a := Labelled(w, user, bit), actions[m - 1];
    var before := Turns(own, user, Blocks(l, actions[..m - 1]));
    BlocksSplit(own, user, l, actions, m);
    if RankAt(w, actions, i) == m - 1 {
      LaterInBlock(w, actions, bit, i, v);
      BlockDecides(before, user, w, g, bit, i, v, |w|);
    } else {
      ReplayDecided(own, user, w, g, bit, actions, i, v, m - 1);
      LaterBlock(w, actions, bit, i, v, m - 1);
      BlockKeeps(before, user, w, g, bit, a, v, |w|);
    }
  }

  lemma LaterInBlock(w: seq<Change>, actions: seq<Events.Action>, bit: int -> bool, i: nat, v: bool)
    requires Decides(w, actions, bit, i, v)
    ensures forall j: nat :: i < j < |w| && ActionOf(w[j]) == ActionOf(w[i]) ==> !Forces(w, bit, j, !v)
  {
    forall j: nat | i < j < |w| && ActionOf(w[j]) == ActionOf(w[i]) ensures !Forces(w, bit, j, !v) {
      assert Later(w, actions, i, j);
    }
  }

  lemma {:induction false} LaterBlock(w: seq<Change>, actions: seq<Events.Action>, bit: int -> bool, i: nat, v: bool,
                                      k: nat)
    requires Distinct(actions) && Decides(w, actions, bit, i, v) && RankAt(w, actions, i) < k < |actions|
    ensures forall j: nat :: j < |w| && ActionOf(w[j]) == actions[k] ==> !Forces(w, bit, j, !v)
  {
    forall j: nat | j < |w| && ActionOf(w[j]) == actions[k] ensures !Forces(w, bit, j, !v) {
      assert actions[RankAt(w, actions, j)] == actions[k];
      assert Later(w, actions, i, j);
    }
  }

  // ---------- A request with other memberships ----------

  /** The same groups and actions. */
  ghost predicate SameShape(a: seq<Change>, b: seq<Change>) {
    |a| == |b| && forall i :: 0 <= i < |a| ==> a[i].g == b[i].g && ActionOf(a[i]) == ActionOf(b[i])
  }

  /** The request with the changes of one group replaced, from the last one backwards. */
  function Relabelled(changes: seq<Change>, g: GroupId, l: seq<Change>): seq<Change> {
    if changes == [] then []
    else
      var n := |changes| - 1;
      if changes[n].g == g && l != [] then Relabelled(changes[..n], g, l[..|l| - 1]) + [l[|l| - 1]]
      else Relabelled(changes[..n], g, l) + [changes[n]]
  }

  lemma {:induction false} RelabelledShape(changes: seq<Change>, g: GroupId, l: seq<Change>)
    requires SameShape(Select(changes, Of(g)), l)
    ensures SameShape(changes, Relabelled(changes, g, l)) && Select(Relabelled(changes, g, l), Of(g)) == l
  {
    if changes != [] {
      var n, m := |changes| - 1, |l| - 1;
      SelectLast(changes, Of(g));
      var before := Select(changes[..n], Of(g));
      if changes[n].g == g {
        ShapeOfInit(before, changes[n], l);
        RelabelledShape(changes[..n], g, l[..m]);
        ShapeSnoc(changes, Relabelled(changes[..n], g, l[..m]), l[m]);
        SelectSnoc(Relabelled(changes[..n], g, l[..m]), l[m], g);
      } else {
        assert before + [] == before;
        RelabelledShape(changes[..n], g, l);
        ShapeSnoc(changes, Relabelled(changes[..n], g, l), changes[n]);
        SelectSnoc(Relabelled(changes[..n], g, l), changes[n], g);
      }
    }
  }

  lemma ShapeOfInit(before: seq<Change>, c: Change, l: seq<Change>)
    requires SameShape(before + [c], l)
    ensures l != [] && SameShape(before, l[..|l| - 1]) && l[|l| - 1].g == c.g && ActionOf(l[|l| - 1]) == ActionOf(c)
    ensures l == l[..|l| - 1] + [l[|l| - 1]]
  {
    var m := |l| - 1;
    forall i | 0 <= i < m ensures before[i].g == l[i].g && ActionOf(before[i]) == ActionOf(l[i]) {
      assert (before + [c])[i] == before[i];
    }
    assert (before + [c])[m] == c;
  }

  lemma ShapeSnoc(changes: seq<Change>, r: seq<Change>, c: Change)
    requires changes != [] && SameShape(changes[..|changes| - 1], r)
    requires c.g == changes[|changes| - 1].g && ActionOf(c) == ActionOf(changes[|changes| - 1])
    ensures SameShape(changes, r + [c])
  {
    forall i | 0 <= i < |r| ensures (r + [c])[i].g == changes[i].g && ActionOf((r + [c])[i]) == ActionOf(changes[i]) {
      assert changes[..|changes| - 1][i] == changes[i];
    }
  }

  lemma {:induction false} SelectSnoc(r: seq<Change>, c: Change, g: GroupId)
    ensures Select(r + [c], Of(g)) == if c.g == g then Select(r, Of(g)) + [c] else Select(r, Of(g))
  {
    SelectLast(r + [c], Of(g));
    assert (r + [c])[..|r|] == r;
    assert Select(r, Of(g)) + [] == Select(r, Of(g));
  }

  /** The order of events depends on groups and actions only. */
  lemma {:induction false} ShapeGivesKeys(s: seq<Events.Event<Change>>, t: seq<Events.Event<Change>>,
                                          a: seq<Events.Addition<Change>>, b: seq<Events.Addition<Change>>)
    requires Events.KeysOf(s) == Events.KeysOf(t) && |a| == |b|
    requires forall i :: 0 <= i < |a| ==> a[i].group == b[i].group
    ensures Events.KeysOf(Events.AddAll(s, 1, a)) == Events.KeysOf(Events.AddAll(t, 1, b))
    decreases a
  {
    if a != [] {
      Events.AddKeys(s, 1, a[0]);
      Events.AddKeys(t, 1, b[0]);
      forall i | 0 <= i < |a[1..]| ensures a[1..][i].group == b[1..][i].group {
        assert a[1..][i] == a[i + 1] && b[1..][i] == b[i + 1];
      }
      ShapeGivesKeys(Events.Add(s, 1, a[0]), Events.Add(t, 1, b[0]), a[1..], b[1..]);
    }
  }

  lemma {:induction false} SameShapeSameKeys(a: seq<Change>, b: seq<Change>)
    requires SameShape(a, b)
    ensures Events.KeysOf(EventsOf(a)) == Events.KeysOf(EventsOf(b))
  {
    ShapeGivesKeys([], [], Additions(a), Additions(b));
  }

  // ---------- The relabelled request is valid ----------

  /** The groups with one membership replaced. */
  function Regrant(live: Stored, g: GroupId, user: string, member: bool): Stored {
    if g in live then live[g := Members(user, member)] else live
  }

  /** The changes of a group in a valid request form a word. */
  lemma {:induction false} RunIsWord(live: Stored, changes: seq<Change>, g: GroupId)
    requires ValidRun(live, changes)
    ensures var w := Select(changes, Of(g));
            && Word(w, g in live)
            && (g in AfterAll(live, changes) <==> if w == [] then g in live else !w[|w| - 1].Removed?)
  {
    if changes != [] {
      var n := |changes| - 1;
      RunIsWord(live, changes[..n], g);
      SelectLast(changes, Of(g));
      var before := Select(changes[..n], Of(g));
      if changes[n].g == g {
        SelectIsOf(changes, g);
        WordSnoc(before, changes[n], g in live);
      } else {
        assert before + [] == before;
      }
    }
  }

  lemma {:induction false} SelectIsOf(changes: seq<Change>, g: GroupId)
    ensures forall c :: c in Select(changes, Of(g)) ==> c.g == g
  {
    forall c | c in Select(changes, Of(g)) ensures c.g == g { SelectIn(changes, Of(g), c); }
  }

  lemma WordSnoc(before: seq<Change>, c: Change, live: bool)
    requires Word(before, live)
    requires c.Created? <==> GoneBefore(before, live, |before|)
    ensures Word(before + [c], live)
  {
    var w := before + [c];
    forall i | 0 <= i < |w| ensures w[i].Created? <==> GoneBefore(w, live, i) {
      assert GoneBefore(w, live, i) == GoneBefore(before, live, i);
      assert i < |before| ==> w[i] == before[i];
    }
  }

  /** Where the relabelled request stands next to the original one. */
  ghost predicate Alike(now: Stored, now': Stored, g: GroupId, user: string, member: bool) {
    && (forall h :: h in now <==> h in now')
    && (forall h :: h in now && h != g ==> now[h] == now'[h])
    && (g in now ==> now'[g] == Members(user, member))
  }

  lemma AlikeStep(now: Stored, now': Stored, g: GroupId, user: string, c: Change, before: bool, after: bool)
    requires Alike(now, now', g, user, before) && Fits(now, c)
    ensures var c' := if c.g == g then Label(c, user, before, after) else c;
            && Fits(now', c')
            && Alike(After(now, c), After(now', c'), g, user, if c.g == g then after else before)
  {
  }

  lemma {:induction false} ValidSnoc(live: Stored, changes: seq<Change>, c: Change)
    requires ValidRun(live, changes) && PlainId(c.g) && Fits(AfterAll(live, changes), c)
    ensures ValidRun(live, changes + [c]) && AfterAll(live, changes + [c]) == After(AfterAll(live, changes), c)
  {
    assert (changes + [c])[..|changes|] == changes;
  }

  /** The changes of a request with the labelled ones of a group. */
  function WithLabels(changes: seq<Change>, g: GroupId, user: string, bit: int -> bool): seq<Change> {
    Relabelled(changes, g, Labelled(Select(changes, Of(g)), user, bit))
  }

  lemma {:induction false} WithLabelsSnoc(changes: seq<Change>, g: GroupId, user: string, bit: int -> bool)
    requires changes != []
    ensures var n := |changes| - 1;
            var k := |Select(changes[..n], Of(g))|;
            && WithLabels(changes, g, user, bit)
               == WithLabels(changes[..n], g, user, bit)
                  + [if changes[n].g == g then Label(changes[n], user, bit(k - 1), bit(k)) else changes[n]]
            && |Select(changes, Of(g))| == if changes[n].g == g then k + 1 else k
  {
    var n := |changes| - 1;
    var before := Select(changes[..n], Of(g));
    SelectLast(changes, Of(g));
    if changes[n].g == g {
      assert (before + [changes[n]])[..|before|] == before;
      var l := Labelled(before + [changes[n]], user, bit);
      assert l[..|before|] == Labelled(before, user, bit);
    } else {
      assert before + [] == before;
    }
  }

  ghost predicate RunsAlike(live: Stored, changes: seq<Change>, g: GroupId, user: string, bit: int -> bool) {
    var live', k := Regrant(live, g, user, bit(-1)), |Select(changes, Of(g))|;
    && ValidRun(live', WithLabels(changes, g, user, bit))
    && Alike(AfterAll(live, changes), AfterAll(live', WithLabels(changes, g, user, bit)), g, user, bit(k - 1))
  }

  lemma {:induction false} RelabelledRuns(live: Stored, changes: seq<Change>, g: GroupId, user: string,
                                          bit: int -> bool)
    requires ValidRun(live, changes)
    ensures RunsAlike(live, changes, g, user, bit)
  {
    if changes == [] {
      assert WithLabels([], g, user, bit) == [];
    } else {
      var n := |changes| - 1;
      RelabelledRuns(live, changes[..n], g, user, bit);
      WithLabelsSnoc(changes, g, user, bit);
      var earlier, k := WithLabels(changes[..n], g, user, bit), |Select(changes[..n], Of(g))|;
      RelabelledStep(live, changes, g, user, bit, earlier, k);
    }
  }

  /** The request relabelled up to its last change, the `k`-th of the group before it. */
  ghost predicate UpToLast(live: Stored, changes: seq<Change>, g: GroupId, user: string, bit: int -> bool,
                           earlier: seq<Change>, k: nat)
    requires changes != []
  {
    var n, live' := |changes| - 1, Regrant(live, g, user, bit(-1));
    && ValidRun(live', earlier)
    && Alike(AfterAll(live, changes[..n]), AfterAll(live', earlier), g, user, bit(k - 1))
    && WithLabels(changes, g, user, bit)
       == earlier + [if changes[n].g == g then Label(changes[n], user, bit(k - 1), bit(k)) else changes[n]]
    && |Select(changes, Of(g))| == if changes[n].g == g then k + 1 else k
  }

  lemma {:induction false} RelabelledStep(live: Stored, changes: seq<Change>, g: GroupId, user: string,
                                          bit: int -> bool, earlier: seq<Change>, k: nat)
    requires changes != [] && ValidRun(live, changes) && UpToLast(live, changes, g, user, bit, earlier, k)
    ensures RunsAlike(live, changes, g, user, bit)
  {
    var n := |changes| - 1;
    RunStep(AfterAll(live, changes[..n]), Regrant(live, g, user, bit(-1)), earlier, g, user, changes[n],
            bit(k - 1), bit(k));
  }

  lemma {:induction false} RunStep(now: Stored, live: Stored, earlier: seq<Change>, g: GroupId, user: string, c: Change,
                                   before: bool, after: bool)
    requires ValidRun(live, earlier) && Alike(now, AfterAll(live, earlier), g, user, before)
    requires Fits(now, c) && PlainId(c.g)
    ensures var run := earlier + [if c.g == g then Label(c, user, before, after) else c];
            && ValidRun(live, run)
            && Alike(After(now, c), AfterAll(live, run), g, user, if c.g == g then after else before)
  {
    AlikeStep(now, AfterAll(live, earlier), g, user, c, before, after);
    ValidSnoc(live, earlier, if c.g == g then Label(c, user, before, after) else c);
  }

  // ---------- The theorem ----------

  /** The principals of a user for whom one membership was replaced. */
  function Reown(own: set<string>, live: Stored, g: GroupId, member: bool): set<string> {
    if g in live && member then own + {Uri(g)} else own - {Uri(g)}
  }

  lemma {:induction false} ReownAgrees(own: set<string>, user: string, live: Stored, g: GroupId, member: bool)
    requires Agrees(own, user, live) && PlainId(g)
    ensures Agrees(Reown(own, live, g, member), user, Regrant(live, g, user, member))
  {
    forall h | PlainId(h)
      ensures Uri(h) in Reown(own, live, g, member) <==> IsMember(Regrant(live, g, user, member), h, user)
    {
      if Uri(h) == Uri(g) { UriIsInjective(h, g); }
    }
  }

  lemma {:induction false} WordIsUnsafe(live: Stored, changes: seq<Change>, g: GroupId)
    requires ValidRun(live, changes) && !SafeFor(changes, Regrouped(changes), g)
    ensures var w, actions := Select(changes, Of(g)), ActionsOf(Events.KeysOf(EventsOf(changes)), BucketUri(g.bucket));
            Word(w, g in live) && Unsafe(w, actions)
  {
    RunIsWord(live, changes, g);
    RegroupedInBlocks(changes, g);
    ActionsAreDistinct(changes, g);
    var w := Select(changes, Of(g));
    forall i | 0 <= i < |w| ensures ActionOf(w[i]) in ActionsOf(Events.KeysOf(EventsOf(changes)), BucketUri(g.bucket)) {
      assert w[i] in w;
    }
  }

  /** Main result, the converse: when the replay of a request is not safe for some group, the
      same request on other memberships breaks the agreement. */
  lemma {:induction false} UnsafeReplayFails(own: set<string>, user: string, live: Stored, changes: seq<Change>,
                                             g: GroupId)
    returns (own': set<string>, live': Stored, changes': seq<Change>)
    requires Agrees(own, user, live) && ValidRun(live, changes) && PlainId(g)
    requires !SafeFor(changes, Regrouped(changes), g)
    ensures Agrees(own', user, live') && ValidRun(live', changes') && SameShape(changes, changes')
    ensures Uri(g) in Turns(own', user, Regrouped(changes')) <==> !IsMember(AfterAll(live', changes'), g, user)
  {
    var w, actions := Select(changes, Of(g)), ActionsOf(Events.KeysOf(EventsOf(changes)), BucketUri(g.bucket));
    WordIsUnsafe(live, changes, g);
    var bit, i, v := Spoil(w, g in live, actions);
    own', live', changes' := Reown(own, live, g, bit(-1)), Regrant(live, g, user, bit(-1)),
      WithLabels(changes, g, user, bit);
    ReownAgrees(own, user, live, g, bit(-1));
    RelabelledRuns(live, changes, g, user, bit);
    SpoiltMember(live, changes, g, user, bit);
    SpoiltReplay(own', user, live', changes, g, bit, i, v);
  }

  lemma {:induction false} SpoiltMember(live: Stored, changes: seq<Change>, g: GroupId, user: string, bit: int -> bool)
    requires ValidRun(live, changes) && Select(changes, Of(g)) != []
    ensures IsMember(AfterAll(Regrant(live, g, user, bit(-1)), WithLabels(changes, g, user, bit)), g, user)
            <==> FinalBit(Select(changes, Of(g)), bit)
  {
    RelabelledRuns(live, changes, g, user, bit);
    RunIsWord(live, changes, g);
  }

  lemma {:induction false} LabelsKeepShape(changes: seq<Change>, g: GroupId, user: string, bit: int -> bool)
    ensures SameShape(changes, WithLabels(changes, g, user, bit))
    ensures Select(WithLabels(changes, g, user, bit), Of(g)) == Labelled(Select(changes, Of(g)), user, bit)
  {
    var w := Select(changes, Of(g));
    forall i | 0 <= i < |w| ensures w[i].g == Labelled(w, user, bit)[i].g
                                    && ActionOf(w[i]) == ActionOf(Labelled(w, user, bit)[i])
    {
      LabelledAt(w, user, bit, i);
    }
    RelabelledShape(changes, g, Labelled(w, user, bit));
  }

  lemma {:induction false} SpoiltReplay(own: set<string>, user: string, live: Stored, changes: seq<Change>, g: GroupId,
                                        bit: int -> bool, i: nat, v: bool)
    requires PlainId(g) && ValidRun(live, WithLabels(changes, g, user, bit))
    requires var w, actions := Select(changes, Of(g)), ActionsOf(Events.KeysOf(EventsOf(changes)), BucketUri(g.bucket));
             Distinct(actions) && Covers(w, actions) && Decides(w, actions, bit, i, v)
    ensures SameShape(changes, WithLabels(changes, g, user, bit))
    ensures (Uri(g) in Turns(own, user, Regrouped(WithLabels(changes, g, user, bit)))) == v
  {
    var w, changes' := Select(changes, Of(g)), WithLabels(changes, g, user, bit);
    var actions := ActionsOf(Events.KeysOf(EventsOf(changes)), BucketUri(g.bucket));
    LabelsKeepShape(changes, g, user, bit);
    SpoiltBlocks(changes, g, user, bit);
    SelectIsOf(changes, g);
    assert actions[..|actions|] == actions;
    ReplayDecided(own, user, w, g, bit, actions, i, v, |actions|);
    ReplayIsPlain(live, changes');
    OnlyItsChanges(own, user, Regrouped(changes'), g);
  }

  lemma {:induction false} SpoiltBlocks(changes: seq<Change>, g: GroupId, user: string, bit: int -> bool)
    ensures Select(Regrouped(WithLabels(changes, g, user, bit)), Of(g))
            == Blocks(Labelled(Select(changes, Of(g)), user, bit),
                      ActionsOf(Events.KeysOf(EventsOf(changes)), BucketUri(g.bucket)))
  {
    LabelsKeepShape(changes, g, user, bit);
    SameShapeSameKeys(changes, WithLabels(changes, g, user, bit));
    RegroupedInBlocks(WithLabels(changes, g, user, bit), g);
  }

  lemma {:induction false} ReplayIsPlain(live: Stored, changes: seq<Change>)
    requires ValidRun(live, changes)
    ensures forall c :: c in Regrouped(changes) ==> PlainId(c.g)
  {
    ValidIsPlain(live, changes);
    forall c | c in Regrouped(changes) ensures PlainId(c.g) {
      RegroupedHolds(changes, c);
    }
  }

  /** Replaying drops nothing and invents nothing. */
  lemma {:induction false} RegroupedHolds(changes: seq<Change>, c: Change)
    ensures c in Regrouped(changes) <==> c in changes
  {
    var w, actions := Select(changes, Of(c.g)), ActionsOf(Events.KeysOf(EventsOf(changes)), BucketUri(c.g.bucket));
    RegroupedInBlocks(changes, c.g);
    ActionsAreDistinct(changes, c.g);
    SelectIn(changes, Of(c.g), c);
    SelectIn(Regrouped(changes), Of(c.g), c);
    BlocksHold(w, actions, c);
  }

  lemma {:induction false} BlocksHold(w: seq<Change>, actions: seq<Events.Action>, c: Change)
    ensures c in Blocks(w, actions) <==> c in w && ActionOf(c) in actions
  {
    if actions != [] {
      var n := |actions| - 1;
      BlocksHold(w, actions[..n], c);
      SelectIn(w, HasAction(actions[n]), c);
      assert actions == actions[..n] + [actions[n]];
    }
  }

  // ---------- Safety is a matter of groups and actions only ----------

  lemma {:induction false} BlocksSorted(w: seq<Change>, actions: seq<Events.Action>, i: nat, j: nat)
    requires Distinct(actions) && i < j < |Blocks(w, actions)|
    ensures RankAt(Blocks(w, actions), actions, i) <= RankAt(Blocks(w, actions), actions, j)
  {
    var n, r := |actions| - 1, Blocks(w, actions);
    var x, y := Blocks(w, actions[..n]), Select(w, HasAction(actions[n]));
    assert r == x + y && r[i] in r && r[j] in r;
    BlocksHold(w, actions, r[i]);
    BlocksHold(w, actions, r[j]);
    RankOfInit(actions, ActionOf(r[i]));
    RankOfInit(actions, ActionOf(r[j]));
    if j < |x| {
      BlocksSorted(w, actions[..n], i, j);
      assert x[i] in x && x[j] in x;
      BlocksHold(w, actions[..n], x[i]);
      BlocksHold(w, actions[..n], x[j]);
      assert actions[n] !in actions[..n] by { RankOfInit(actions, actions[n]); }
    } else {
      assert r[j] == y[j - |x|];
      SelectIn(w, HasAction(actions[n]), r[j]);
    }
  }

  lemma {:induction false} InOrderIff(w: seq<Change>, actions: seq<Events.Action>)
    requires Distinct(actions) && Covers(w, actions)
    ensures Blocks(w, actions) == w <==> !Inverted(w, actions)
  {
    if !Inverted(w, actions) { NoInversion(w, actions); }
    if Blocks(w, actions) == w {
      forall i, j | 0 <= i < j < |w| ensures RankAt(w, actions, i) <= RankAt(w, actions, j) {
        BlocksSorted(w, actions, i, j);
      }
    }
  }

  lemma {:induction false} EndsDeletedIff(w: seq<Change>, actions: seq<Events.Action>)
    requires Distinct(actions) && Covers(w, actions) && EndsDeleted(w)
    ensures EndsDeleted(Blocks(w, actions)) <==> TopLast(w, actions)
  {
    if TopLast(w, actions) { TopDeletionEnds(w, actions); }
    if EndsDeleted(Blocks(w, actions)) {
      forall i | 0 <= i < |w| ensures RankAt(w, actions, i) <= RankAt(w, actions, |w| - 1) {
        NotAboveLast(w, actions, i);
      }
    }
  }

  lemma {:induction false} NotAboveLast(w: seq<Change>, actions: seq<Events.Action>, i: nat)
    requires Distinct(actions) && Covers(w, actions) && EndsDeleted(Blocks(w, actions)) && i < |w|
    ensures RankAt(w, actions, i) <= Rank(actions, Events.DELETE)
  {
    assert w[i] in w;
    BlocksHold(w, actions, w[i]);
    LastIsTop(w, actions, w[i]);
  }

  lemma {:induction false} LastIsTop(w: seq<Change>, actions: seq<Events.Action>, c: Change)
    requires Distinct(actions) && c in Blocks(w, actions)
    ensures var r := Blocks(w, actions); Rank(actions, ActionOf(c)) <= RankAt(r, actions, |r| - 1)
  {
    var r := Blocks(w, actions);
    var k :| 0 <= k < |r| && r[k] == c;
    if k < |r| - 1 { BlocksSorted(w, actions, k, |r| - 1); }
  }

  /** Safety in terms of the order of actions. */
  lemma {:induction false} SafeIff(changes: seq<Change>, g: GroupId)
    ensures var w, actions := Select(changes, Of(g)), ActionsOf(Events.KeysOf(EventsOf(changes)), BucketUri(g.bucket));
            && Distinct(actions) && Covers(w, actions)
            && (SafeFor(changes, Regrouped(changes), g)
                <==> !Inverted(w, actions) || (EndsDeleted(w) && TopLast(w, actions)))
  {
    var w, actions := Select(changes, Of(g)), ActionsOf(Events.KeysOf(EventsOf(changes)), BucketUri(g.bucket));
    RegroupedInBlocks(changes, g);
    ActionsAreDistinct(changes, g);
    assert forall i :: 0 <= i < |w| ==> w[i] in w;
    InOrderIff(w, actions);
    if EndsDeleted(w) { EndsDeletedIff(w, actions); }
  }

  lemma {:induction false} SelectKeepsShape(a: seq<Change>, b: seq<Change>, g: GroupId)
    requires SameShape(a, b)
    ensures SameShape(Select(a, Of(g)), Select(b, Of(g)))
  {
    if a != [] {
      var n := |a| - 1;
      SelectKeepsShape(a[..n], b[..n], g);
      SelectLast(a, Of(g));
      SelectLast(b, Of(g));
      NothingToAdd(Select(a[..n], Of(g)));
      NothingToAdd(Select(b[..n], Of(g)));
    }
  }

  lemma {:induction false} SafetyIsShape(a: seq<Change>, b: seq<Change>, g: GroupId)
    requires SameShape(a, b)
    ensures SafeFor(a, Regrouped(a), g) <==> SafeFor(b, Regrouped(b), g)
  {
    SafeIff(a, g);
    SafeIff(b, g);
    SameShapeSameKeys(a, b);
    SelectKeepsShape(a, b, g);
    ShapeDecides(Select(a, Of(g)), Select(b, Of(g)), ActionsOf(Events.KeysOf(EventsOf(a)), BucketUri(g.bucket)));
  }

  lemma ShapeDecides(v: seq<Change>, w: seq<Change>, actions: seq<Events.Action>)
    requires SameShape(v, w)
    ensures Inverted(v, actions) <==> Inverted(w, actions)
    ensures EndsDeleted(v) <==> EndsDeleted(w)
    ensures TopLast(v, actions) <==> TopLast(w, actions)
  {
    assert forall i :: 0 <= i < |v| ==> RankAt(v, actions, i) == RankAt(w, actions, i);
    assert v != [] ==> (v[|v| - 1].Removed? <==> ActionOf(v[|v| - 1]) == Events.DELETE);
    assert w != [] ==> (w[|w| - 1].Removed? <==> ActionOf(w[|w| - 1]) == Events.DELETE);
  }

  /** The replay is safe for every group. */
  ghost predicate SafeOrder(changes: seq<Change>) {
    forall g :: PlainId(g) ==> SafeFor(changes, Regrouped(changes), g)
  }

  /** The request keeps the agreement, whatever the memberships. */
  ghost predicate KeepsAgreement(user: string, changes: seq<Change>) {
    forall own, live, other ::
      SameShape(changes, other) && ValidRun(live, other) && Agrees(own, user, live) ==>
        Agrees(Turns(own, user, Regrouped(other)), user, AfterAll(live, other))
  }

  /** Main result: a request keeps principals and memberships in agreement whatever the
      memberships are, exactly when its replay keeps the order of each group's changes or ends
      with the deletion with which they end. */
  lemma {:induction false} KeepsAgreementIff(own: set<string>, user: string, live: Stored, changes: seq<Change>)
    requires Agrees(own, user, live) && ValidRun(live, changes)
    ensures KeepsAgreement(user, changes) <==> SafeOrder(changes)
  {
    if SafeOrder(changes) {
      forall own', live', other | SameShape(changes, other) && ValidRun(live', other) && Agrees(own', user, live')
        ensures Agrees(Turns(own', user, Regrouped(other)), user, AfterAll(live', other))
      {
        RequestAgrees(own', user, live', changes, other);
      }
    }
    if g :| PlainId(g) && !SafeFor(changes, Regrouped(changes), g) {
      var own', live', other := UnsafeReplayFails(own, user, live, changes, g);
      assert !Agrees(Turns(own', user, Regrouped(other)), user, AfterAll(live', other));
    }
  }

  lemma {:induction false} RequestAgrees(own: set<string>, user: string, live: Stored, changes: seq<Change>,
                                         other: seq<Change>)
    requires SafeOrder(changes) && SameShape(changes, other) && ValidRun(live, other) && Agrees(own, user, live)
    ensures Agrees(Turns(own, user, Regrouped(other)), user, AfterAll(live, other))
  {
    ReplayIsPlain(live, other);
    forall g | PlainId(g) ensures SafeFor(other, Regrouped(other), g) { SafetyIsShape(changes, other, g); }
    SafeReplayAgrees(own, user, live, other, Regrouped(other));
  }

  // ---------- Two ways to fail ----------

  lemma {:induction false} ThreeEvents(x: Change, y: Change, z: Change)
    requires KeyOf(x) != KeyOf(y) && (KeyOf(z) == KeyOf(x) || KeyOf(z) == KeyOf(y))
    ensures Regrouped([x, y, z]) == if KeyOf(z) == KeyOf(x) then [x, z, y] else [x, y, z]
  {
    var steps := StepsOf([x, y, z]);
    assert steps == [steps[0], steps[1], steps[2]];
    AdditionsOfSteps([x, y, z]);
    Replay.ReplayedIsStableSort(steps);
    Replay.ThreeSteps(steps[0], steps[1], steps[2]);
    ItemsOfThree(steps[0], steps[1], steps[2]);
    ItemsOfThree(steps[0], steps[2], steps[1]);
  }

  lemma {:induction false} ItemsOfThree(x: Replay.Step<Change>, y: Replay.Step<Change>, z: Replay.Step<Change>)
    ensures Replay.Items([x, y, z]) == [x.item, y.item, z.item]
  {
    Replay.ItemsLast([], x);
    Replay.ItemsLast([x], y);
    Replay.ItemsLast([x, y], z);
    assert [] + [x] == [x] && [x] + [y] == [x, y] && [x, y] + [z] == [x, y, z];
    assert Replay.Items<Change>([]) == [];
  }

  lemma {:induction false} TurnsOfThree(own: set<string>, user: string, x: Change, y: Change, z: Change)
    ensures Turns(own, user, [x, y, z]) == Turn(Turn(Turn(own, user, x), user, y), user, z)
  {
    TurnsSnoc(own, user, [x, y], z);
    TurnsSnoc(own, user, [x], y);
    TurnsSnoc(own, user, [], x);
    assert [x, y, z] == [x, y] + [z] && [x, y] == [x] + [y] && [x] == [] + [x];
  }

  lemma {:induction false} RunOfThree(live: Stored, x: Change, y: Change, z: Change)
    requires PlainId(x.g) && PlainId(y.g) && PlainId(z.g)
    requires Fits(live, x) && Fits(After(live, x), y) && Fits(After(After(live, x), y), z)
    ensures ValidRun(live, [x, y, z]) && AfterAll(live, [x, y, z]) == After(After(After(live, x), y), z)
  {
    assert [] + [x] == [x] && [x] + [y] == [x, y] && [x, y] + [z] == [x, y, z];
    ValidSnoc(live, [], x);
    RunOfMore(live, [x], y, z);
  }

  lemma {:induction false} RunOfMore(live: Stored, run: seq<Change>, y: Change, z: Change)
    requires ValidRun(live, run) && PlainId(y.g) && PlainId(z.g)
    requires Fits(AfterAll(live, run), y) && Fits(After(AfterAll(live, run), y), z)
    ensures ValidRun(live, run + [y] + [z])
    ensures AfterAll(live, run + [y] + [z]) == After(After(AfterAll(live, run), y), z)
  {
    ValidSnoc(live, run, y);
    ValidSnoc(live, run + [y], z);
  }

  const A := GroupId("x", "a")
  const B := GroupId("x", "b")

  lemma OwnsOnly(g: GroupId, user: string, live: Stored)
    requires PlainId(g) && live.Keys <= {g}
    ensures Agrees(if IsMember(live, g, user) then {Uri(g)} else {}, user, live)
  {
    forall h | PlainId(h) && Uri(h) == Uri(g) ensures h == g { UriIsInjective(h, g); }
  }

  /** `b` is deleted and created again after `a` was created: the re-creation is replayed with
      that of `a`, before the deletion, and a member of `b` loses its principal. */
  lemma {:induction false} MembershipIsLost()
    ensures var live, changes := map[B := {"u"}], [Created(A, {}), Removed(B), Created(B, {"u"})];
            && Agrees({Uri(B)}, "u", live) && ValidRun(live, changes)
            && IsMember(AfterAll(live, changes), B, "u")
            && Uri(B) !in Turns({Uri(B)}, "u", Regrouped(changes))
  {
    var live: Stored := map[B := {"u"}];
    var x, y, z := Created(A, {}), Removed(B), Created(B, {"u"});
    OwnsOnly(B, "u", live);
    RunOfThree(live, x, y, z);
    ThreeEvents(x, y, z);
    TurnsOfThree({Uri(B)}, "u", x, z, y);
  }

  /** `b` is created and deleted after `a` was deleted: its deletion is replayed with that of
      `a`, before the creation, and its member keeps the principal of a group that is gone. */
  lemma {:induction false} PrincipalIsStale()
    ensures var live, changes := map[A := {}], [Removed(A), Created(B, {"u"}), Removed(B)];
            && Agrees({}, "u", live) && ValidRun(live, changes)
            && B !in AfterAll(live, changes)
            && Uri(B) in Turns({}, "u", Regrouped(changes))
  {
    var live: Stored := map[A := {}];
    var x, y, z := Removed(A), Created(B, {"u"}), Removed(B);
    OwnsOnly(A, "u", live);
    RunOfThree(live, x, y, z);
    ThreeEvents(x, y, z);
    TurnsOfThree({}, "u", x, z, y);
  }

  // ---------- Runs of requests ----------

  /** The listeners run over the events of a request. */
  method Notify(permission: Permission, changes: seq<Change>)
    modifies permission
    ensures forall user :: permission.Own(user) == Turns(old(permission.Own(user)), user, Regrouped(changes))
    ensures permission.OthersKept()
  {
    var events := EventsOf(changes);
    for i := 0 to |events|
      invariant forall user ::
                  permission.Own(user) == Turns(old(permission.Own(user)), user, Events.Everything(events[..i]))
      invariant permission.OthersKept()
    {
      ghost var before := Events.Everything(events[..i]);
      EventIsUniform(changes, i);
      forall user ensures Turns(old(permission.Own(user)), user, before + events[i].impacted)
                          == Turns(Turns(old(permission.Own(user)), user, before), user, events[i].impacted)
      {
        TurnsAppend(old(permission.Own(user)), user, before, events[i].impacted);
      }
      assert events[..i + 1][..i] == events[..i];
      if events[i].group.action == Events.DELETE {
        permission.OnGroupsDeleted(events[i].impacted);
      } else {
        permission.OnGroupsChanged(events[i].impacted);
      }
    }
    assert events[..|events|] == events;
  }

  lemma {:induction false} EventIsUniform(changes: seq<Change>, i: nat)
    requires i < |EventsOf(changes)|
    ensures var e := EventsOf(changes)[i];
            forall k :: 0 <= k < |e.impacted| ==> (e.impacted[k].Removed? <==> e.group.action == Events.DELETE)
  {
    var e := EventsOf(changes)[i];
    EventHoldsItsKey(changes, i);
    forall k | 0 <= k < |e.impacted| ensures e.impacted[k].Removed? <==> e.group.action == Events.DELETE {
      SelectIn(changes, HasKey(e.group), e.impacted[k]);
    }
  }

  /** Requests one after the other, each replayed as its events have it. */
  function ReplayAll(own: set<string>, user: string, requests: seq<seq<Change>>): set<string> {
    if requests == [] then own
    else Turns(ReplayAll(own, user, requests[..|requests| - 1]), user, Regrouped(requests[|requests| - 1]))
  }

  /** Main result over every run from the empty store. */
  lemma {:induction false} RunsAgree(user: string, requests: seq<seq<Change>>)
    requires forall i :: 0 <= i < |requests| ==>
               ValidRun(Groups.Store(map[], requests[..i]), requests[i]) && SafeOrder(requests[i])
    ensures Agrees(ReplayAll({}, user, requests), user, Groups.Store(map[], requests))
  {
    if requests != [] {
      var n := |requests| - 1;
      forall i | 0 <= i < n ensures requests[..n][..i] == requests[..i] && requests[..n][i] == requests[i] {}
      RunsAgree(user, requests[..n]);
      RequestAgrees(ReplayAll({}, user, requests[..n]), user, Groups.Store(map[], requests[..n]), requests[n],
                    requests[n]);
    }
  }

  /** A request that changes each group at most once is safe. */
  lemma {:induction false} AtMostOnceIsSafe(changes: seq<Change>)
    requires forall i, j :: 0 <= i < j < |changes| ==> changes[i].g != changes[j].g
    ensures SafeOrder(changes)
  {
    forall g | PlainId(g) ensures SafeFor(changes, Regrouped(changes), g) {
      SafeIff(changes, g);
      AtMostOne(changes, g);
    }
  }

  lemma {:induction false} AtMostOne(changes: seq<Change>, g: GroupId)
    requires forall i, j :: 0 <= i < j < |changes| ==> changes[i].g != changes[j].g
    ensures |Select(changes, Of(g))| <= 1
    ensures (forall i :: 0 <= i < |changes| ==> changes[i].g != g) ==> Select(changes, Of(g)) == []
  {
    if changes != [] {
      var n := |changes| - 1;
      AtMostOne(changes[..n], g);
      SelectLast(changes, Of(g));
    }
  }

  /** Over every such run a user, asked for their principals, is given a group's uri exactly
      when the group is stored and lists them, or all authenticated users. */
  lemma {:induction false} PrincipalsAreMemberships(user: string, requests: seq<seq<Change>>, g: GroupId)
    requires forall i :: 0 <= i < |requests| ==>
               ValidRun(Groups.Store(map[], requests[..i]), requests[i]) && SafeOrder(requests[i])
    requires PlainId(g)
    ensures var live := Groups.Store(map[], requests);
            Uri(g) in ReplayAll({}, user, requests) + ReplayAll({}, AUTHENTICATED, requests)
            <==> IsMember(live, g, user) || IsMember(live, g, AUTHENTICATED)
  {
    RunsAgree(user, requests);
    RunsAgree(AUTHENTICATED, requests);
  }
}
