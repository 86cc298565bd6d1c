/** The history plugin's listener: one entry per changed object, and the trimming that
    keeps a window of recent entries. */
module History {
  import opened Options
  import opened Json
  import opened Collections
  import opened Sorting
  import opened Storage

  /** A history entry; `target` is the new state of the object, a tombstone once deleted. */
  datatype Entry = Entry(stamp: int, resource: string, user: string, id: string, target: Slot)

  function ByStamp(): Entry -> Value {
    (e: Entry) => Present(Num(e.stamp as real))
  }

  ghost predicate Increasing(s: seq<Entry>) {
    forall i, j :: 0 <= i < j < |s| ==> s[i].stamp < s[j].stamp
  }

  function Reverse<T>(s: seq<T>): (r: seq<T>)
    ensures |r| == |s| && forall i :: 0 <= i < |s| ==> r[i] == s[|s| - 1 - i]
  {
    if s == [] then [] else Reverse(s[1..]) + [s[0]]
  }

  lemma {:induction false} OldestGoesLast(x: Entry, s: seq<Entry>)
    requires forall y :: y in s ==> x.stamp < y.stamp
    ensures Insert(x, s, ByStamp(), true) == s + [x]
  {
    if s != [] {
      assert Before(ByStamp(), true, s[0], x);
      assert forall y :: y in s[1..] ==> y in s;
      OldestGoesLast(x, s[1..]);
      assert [s[0]] + (s[1..] + [x]) == s + [x];
    }
  }

  /** Most recent first is the reverse of the order of creation. */
  lemma {:induction false} SortDescReverses(s: seq<Entry>)
    requires Increasing(s)
    ensures SortBy(s, ByStamp(), true) == Reverse(s)
  {
    if s != [] {
      forall i, j | 0 <= i < j < |s[1..]| ensures s[1..][i].stamp < s[1..][j].stamp {
        assert s[i + 1].stamp < s[j + 1].stamp;
      }
      SortDescReverses(s[1..]);
      forall y | y in Reverse(s[1..]) ensures s[0].stamp < y.stamp {
        ReverseElements(s[1..], y);
        var i :| 0 <= i < |s[1..]| && s[1..][i] == y;
        assert y == s[i + 1];
      }
      OldestGoesLast(s[0], Reverse(s[1..]));
    }
  }

  lemma {:induction false} SelectIncreasing(s: seq<Entry>, p: Entry -> bool)
    requires Increasing(s)
    ensures Increasing(Select(s, p))
  {
    if s != [] {
      forall i, j | 0 <= i < j < |s[1..]| ensures s[1..][i].stamp < s[1..][j].stamp {
        assert s[i + 1].stamp < s[j + 1].stamp;
      }
      SelectIncreasing(s[1..], p);
      forall y | y in Select(s[1..], p) ensures s[0].stamp < y.stamp {
        SelectIn(s[1..], p, y);
        var i :| 0 <= i < |s[1..]| && s[1..][i] == y;
        assert y == s[i + 1];
      }
    }
  }

  // ---------- Settings and groups ----------

  datatype Settings = Settings(
    trimMax: int, trimThreshold: int, trimUsers: seq<string>,
    excludedUsers: seq<string>, excludedResources: seq<string>, explicitPermissions: bool)

  predicate Trims(st: Settings, user: string) {
    st.trimMax > 0 && (st.trimUsers == [] || user in st.trimUsers)
  }

  /** The filters of a trim: same resource name, and same user when trimming is by user. */
  function Group(st: Settings, resource: string, user: string): Entry -> bool {
    (e: Entry) => e.resource == resource && (st.trimUsers == [] || e.user == user)
  }

  function OfResource(resource: string): Entry -> bool {
    (e: Entry) => e.resource == resource
  }

  function OfUser(resource: string, user: string): Entry -> bool {
    (e: Entry) => e.resource == resource && e.user == user
  }

  function Not(p: Entry -> bool): Entry -> bool {
    (e: Entry) => !p(e)
  }

  /** Every entry but these. */
  function Except(deleted: seq<Entry>): Entry -> bool {
    (e: Entry) => e !in deleted
  }

  function Last<T>(s: seq<T>, n: nat): seq<T> {
    if |s| <= n then s else s[|s| - n..]
  }

  /** `kept` is the most recent part of `all`, neither shorter than the trim size (when
      there are that many) nor longer than what the threshold tolerates. */
  predicate InWindow(st: Settings, kept: seq<Entry>, all: seq<Entry>) {
    && kept == Last(all, |kept|)
    && (st.trimMax <= |kept| || kept == all)
    && (|kept| <= st.trimMax || |kept| <= st.trimMax + st.trimThreshold)
  }

  predicate GroupWindow(st: Settings, entries: seq<Entry>, created: seq<Entry>, resource: string, user: string) {
    var g := Group(st, resource, user);
    if Trims(st, user) then InWindow(st, Select(entries, g), Select(created, g))
    else Select(entries, g) == Select(created, g)
  }

  ghost predicate Window(st: Settings, entries: seq<Entry>, created: seq<Entry>) {
    forall resource, user :: GroupWindow(st, entries, created, resource, user)
  }

  // ---------- What the windows mean ----------

  /** The most recent part of a list. */
  predicate IsTail(kept: seq<Entry>, all: seq<Entry>) {
    |kept| <= |all| && kept == all[|all| - |kept|..]
  }

  lemma {:induction false} SelectGroup(st: Settings, s: seq<Entry>, resource: string, user: string)
    ensures st.trimUsers == [] ==> Select(s, Group(st, resource, user)) == Select(s, OfResource(resource))
    ensures st.trimUsers != [] ==> Select(s, Group(st, resource, user)) == Select(s, OfUser(resource, user))
  {
    var g := Group(st, resource, user);
    if st.trimUsers == [] { SelectSame(s, g, OfResource(resource)); } else { SelectSame(s, g, OfUser(resource, user)); }
  }

  /** Trimming for everybody: of each resource name the last entries are there, whoever wrote
      them, as many as the maximum at least, and no more than the threshold on top of it. */
  lemma {:induction false} WindowOfResource(st: Settings, entries: seq<Entry>, created: seq<Entry>, resource: string)
    requires Window(st, entries, created) && st.trimMax > 0 && st.trimUsers == []
    ensures var kept, all := Select(entries, OfResource(resource)), Select(created, OfResource(resource));
            && IsTail(kept, all) && (|kept| >= st.trimMax || kept == all)
            && |kept| <= st.trimMax + if st.trimThreshold > 0 then st.trimThreshold else 0
  {
    assert GroupWindow(st, entries, created, resource, "");
    SelectGroup(st, entries, resource, "");
    SelectGroup(st, created, resource, "");
  }

  /** Trimming for some: the same of each of their own lists. */
  lemma {:induction false} WindowOfUser(st: Settings, entries: seq<Entry>, created: seq<Entry>, resource: string,
                                        user: string)
    requires Window(st, entries, created) && st.trimMax > 0 && user in st.trimUsers
    ensures var kept, all := Select(entries, OfUser(resource, user)), Select(created, OfUser(resource, user));
            && IsTail(kept, all) && (|kept| >= st.trimMax || kept == all)
            && |kept| <= st.trimMax + if st.trimThreshold > 0 then st.trimThreshold else 0
  {
    assert GroupWindow(st, entries, created, resource, user);
    SelectGroup(st, entries, resource, user);
    SelectGroup(st, created, resource, user);
  }

  /** Nobody else's entries ever go, and none at all without a maximum. */
  lemma {:induction false} WindowOfOthers(st: Settings, entries: seq<Entry>, created: seq<Entry>, resource: string,
                                          user: string)
    requires Window(st, entries, created) && (st.trimMax <= 0 || (st.trimUsers != [] && user !in st.trimUsers))
    ensures Select(entries, OfUser(resource, user)) == Select(created, OfUser(resource, user))
  {
    assert GroupWindow(st, entries, created, resource, user);
    SelectGroup(st, entries, resource, user);
    SelectGroup(st, created, resource, user);
    if st.trimUsers == [] {
      UsersOfResource(entries, resource, user);
      UsersOfResource(created, resource, user);
    }
  }

  lemma {:induction false} UsersOfResource(s: seq<Entry>, resource: string, user: string)
    ensures Select(Select(s, OfResource(resource)), OfUser(resource, user)) == Select(s, OfUser(resource, user))
  {
    SelectTwice(s, OfResource(resource), OfUser(resource, user));
    SelectSame(s, Both(OfResource(resource), OfUser(resource, user)), OfUser(resource, user));
  }

  class HistoryStore {
    /** In order of creation. */
    var entries: seq<Entry>
    var clock: int
    /** Every entry ever created. */
    ghost var created: seq<Entry>

    ghost predicate Valid()
      reads this
    {
      && Increasing(entries)
      && (forall e :: e in entries ==> e.stamp <= clock)
    }

    constructor ()
      ensures Valid() && entries == created == [] && clock == 0 && forall st :: Window(st, entries, created)
    {
      entries, created, clock := [], [], 0;
    }

    /** `storage.create`: the entry gets the next stamp and no entry goes away. */
    method Create(resource: string, user: string, id: string, target: Slot, now: int) returns (entry: Entry)
      requires Valid()
      modifies this
      ensures Valid()
      ensures entry.stamp == (if now > old(clock) then now else old(clock) + 1) == clock
      ensures entry == Entry(entry.stamp, resource, user, id, target)
      ensures entries == old(entries) + [entry] && created == old(created) + [entry]
    {
      var b := Bump(clock, None, now);
      clock := b.clock;
      entry := Entry(b.current, resource, user, id, target);
      entries := entries + [entry];
      created := created + [entry];
    }

    method Delete(e: Entry, now: int)
      requires Valid()
      modifies this`entries, this`clock
      ensures Valid()
      ensures entries == Select(old(entries), Except([e])) && clock == if now > old(clock) then now else old(clock) + 1
    {
      clock := Bump(clock, None, now).clock;
      SelectIncreasing(entries, Except([e]));
      forall x ensures x in Select(entries, Except([e])) ==> x in entries {
        SelectIn(entries, Except([e]), x);
      }
      entries := Select(entries, Except([e]));
    }

    /** `trim_objects`: most recent first, everything past `max` is deleted one by one. */
    method Trim(g: Entry -> bool, max: nat, now: int)
      requires Valid()
      modifies this`entries, this`clock
      ensures Valid()
      ensures Select(entries, g) == Last(Select(old(entries), g), max)
      ensures Select(entries, Not(g)) == Select(old(entries), Not(g))
    {
      var mine := Select(entries, g);
      var sorted := SortBy(mine, ByStamp(), true);
      var toDelete := if |sorted| <= max then [] else sorted[max..];
      SelectAll(entries, Except(toDelete[..0]));
      for i := 0 to |toDelete|
        invariant Valid()
        invariant entries == Select(old(entries), Except(toDelete[..i]))
      {
        Delete(toDelete[i], now);
        DeleteOneMore(old(entries), toDelete[..i], toDelete[i]);
        PrefixStep(toDelete, i);
      }
      assert toDelete[..|toDelete|] == toDelete;
      TrimLeavesLast(old(entries), g, max, toDelete);
    }

    /** One turn of the listener's second loop: create the entry, trim its group if it outgrew
        the threshold. */
    method Record(st: Settings, resource: string, user: string, id: string, target: Slot, now: int)
      requires Valid() && Window(st, entries, created)
      modifies this
      ensures Valid() && Window(st, entries, created)
      ensures |created| == |old(created)| + 1 && created[..|old(created)|] == old(created)
      ensures created[|old(created)|] == Entry(created[|old(created)|].stamp, resource, user, id, target)
      ensures created[|old(created)|].stamp == if now > old(clock) then now else old(clock) + 1
      ensures !Trims(st, user) ==> entries == old(entries) + [created[|old(created)|]]
      ensures Trims(st, user) ==>
                var g := if st.trimUsers == [] then OfResource(resource) else OfUser(resource, user);
                var grown := old(entries) + [created[|old(created)|]];
                if |Select(grown, g)| > st.trimMax + st.trimThreshold then
                  && Select(entries, g) == Last(Select(grown, g), st.trimMax)
                  && Select(entries, Not(g)) == Select(grown, Not(g))
                else entries == grown
    {
      ghost var before := entries;
      var entry := Create(resource, user, id, target, now);
      ghost var all := created;
      if Trims(st, user) {
        var g := Group(st, resource, user);
        var count := |Select(entries, g)|;
        if count > st.trimMax + st.trimThreshold {
          Trim(g, st.trimMax, now);
        }
      }
      WindowStep(st, before, old(created), entry, entries);
      GroupIs(st, before + [entry], entries, resource, user);
    }

    /** `on_resource_changed` for a request inside a bucket; `impacted` holds the uri, id and
        new state of each changed object. */
    method OnResourceChanged(st: Settings, resource: string, user: string, bucketUri: string,
                             collectionUri: Option<string>, impacted: seq<Impacted>, now: int)
      requires Valid() && Window(st, entries, created)
      modifies this
      ensures Valid() && Window(st, entries, created)
      ensures var targets := Targets(st, user, bucketUri, collectionUri, impacted);
              var n := if st.explicitPermissions || targets == [] then |targets| else 1;
              && |created| == |old(created)| + n && created[..|old(created)|] == old(created)
              && forall i :: 0 <= i < n ==>
                   && var e := created[|old(created)| + i];
                   && e == Entry(e.stamp, resource, user, targets[i].id, targets[i].target)
      ensures !Trims(st, user) ==> entries == old(entries) + created[|old(created)|..]
    {
      if user in st.excludedUsers {
        return;
      }
      var targets := [];
      for i := 0 to |impacted|
        invariant unchanged(this)
        invariant targets == Select(impacted[..i], Included(st, bucketUri, collectionUri))
      {
        PrefixStep(impacted, i);
        SelectAppend(impacted[..i], [impacted[i]], Included(st, bucketUri, collectionUri));
        if bucketUri in st.excludedResources {
          continue;
        }
        if collectionUri.Some? && collectionUri.value in st.excludedResources {
          continue;
        }
        if impacted[i].uri in st.excludedResources {
          continue;
        }
        targets := targets + [impacted[i]];
      }
      assert impacted[..|impacted|] == impacted;
      RecordAll(st, resource, user, targets, now);
    }

    /** The listener's second loop. */
    method RecordAll(st: Settings, resource: string, user: string, targets: seq<Impacted>, now: int)
      requires Valid() && Window(st, entries, created)
      modifies this
      ensures Valid() && Window(st, entries, created)
      ensures var n := if st.explicitPermissions || targets == [] then |targets| else 1;
              && |created| == |old(created)| + n && created[..|old(created)|] == old(created)
              && forall i :: 0 <= i < n ==>
                   && var e := created[|old(created)| + i];
                   && e == Entry(e.stamp, resource, user, targets[i].id, targets[i].target)
      ensures !Trims(st, user) ==> entries == old(entries) + created[|old(created)|..]
    {
      for i := 0 to |targets|
        invariant Valid() && Window(st, entries, created)
        invariant st.explicitPermissions || i == 0
        invariant |created| == |old(created)| + i && created[..|old(created)|] == old(created)
        invariant !Trims(st, user) ==> entries == old(entries) + created[|old(created)|..]
        invariant forall j :: 0 <= j < i ==>
                    && var e := created[|old(created)| + j];
                    && e == Entry(e.stamp, resource, user, targets[j].id, targets[j].target)
      {
        ghost var was := created;
        Record(st, resource, user, targets[i].id, targets[i].target, now);
        assert forall j :: 0 <= j < |was| ==> created[j] == created[..|was|][j];
        if !st.explicitPermissions {
          return;
        }
      }
    }
  }

  lemma {:induction false} GroupIs(st: Settings, s: seq<Entry>, t: seq<Entry>, resource: string, user: string)
    ensures var g, h := Group(st, resource, user),
                        if st.trimUsers == [] then OfResource(resource) else OfUser(resource, user);
            && Select(s, g) == Select(s, h) && Select(t, g) == Select(t, h)
            && Select(s, Not(g)) == Select(s, Not(h)) && Select(t, Not(g)) == Select(t, Not(h))
  {
    var g := Group(st, resource, user);
    var h := if st.trimUsers == [] then OfResource(resource) else OfUser(resource, user);
    SelectSame(s, g, h);
    SelectSame(t, g, h);
    SelectSame(s, Not(g), Not(h));
    SelectSame(t, Not(g), Not(h));
  }

  datatype Impacted = Impacted(uri: string, id: string, target: Slot)

  predicate IsIncluded(st: Settings, bucketUri: string, collectionUri: Option<string>, x: Impacted) {
    && bucketUri !in st.excludedResources
    && (collectionUri.Some? ==> collectionUri.value !in st.excludedResources)
    && x.uri !in st.excludedResources
  }

  function Included(st: Settings, bucketUri: string, collectionUri: Option<string>): Impacted -> bool {
    (x: Impacted) => IsIncluded(st, bucketUri, collectionUri, x)
  }

  /** The changes that deserve an entry. */
  function Targets(st: Settings, user: string, bucketUri: string, collectionUri: Option<string>,
                   impacted: seq<Impacted>): seq<Impacted> {
    if user in st.excludedUsers then [] else Select(impacted, Included(st, bucketUri, collectionUri))
  }

  /** Which changes get an entry: none of an excluded user, nor inside an excluded bucket or
      collection, nor to an excluded object. */
  lemma {:induction false} TargetsAre(st: Settings, user: string, bucketUri: string, collectionUri: Option<string>,
                                      impacted: seq<Impacted>, x: Impacted)
    ensures x in Targets(st, user, bucketUri, collectionUri, impacted)
            <==> && x in impacted && user !in st.excludedUsers && bucketUri !in st.excludedResources
                 && x.uri !in st.excludedResources
                 && (collectionUri == None || collectionUri.value !in st.excludedResources)
  {
    SelectIn(impacted, Included(st, bucketUri, collectionUri), x);
  }

  // ---------- The window is kept ----------

  lemma InWindowStep(st: Settings, kept: seq<Entry>, all: seq<Entry>, e: Entry, kept': seq<Entry>)
    requires st.trimMax > 0 && InWindow(st, kept, all)
    requires kept' == if |kept + [e]| > st.trimMax + st.trimThreshold then Last(kept + [e], st.trimMax) else kept + [e]
    ensures InWindow(st, kept', all + [e])
  {
    assert kept + [e] == Last(all + [e], |kept| + 1);
  }

  lemma {:induction false} AppendToGroup(s: seq<Entry>, e: Entry, g: Entry -> bool)
    ensures Select(s + [e], g) == Select(s, g) + if g(e) then [e] else []
  {
    SelectAppend(s, [e], g);
    assert Select([e], g) == (if g(e) then [e] else []) + Select([], g);
  }

  /** A group that shares no entry with the trimmed one is not affected. */
  lemma {:induction false} OtherGroupKept(s: seq<Entry>, t: seq<Entry>, g: Entry -> bool, h: Entry -> bool)
    requires Select(s, Not(g)) == Select(t, Not(g)) && forall e :: h(e) ==> !g(e)
    ensures Select(s, h) == Select(t, h)
  {
    SelectTwice(s, Not(g), h);
    SelectTwice(t, Not(g), h);
    SelectSame(s, Both(Not(g), h), h);
    SelectSame(t, Both(Not(g), h), h);
  }

  lemma {:induction false} WindowStep(st: Settings, entries: seq<Entry>, created: seq<Entry>, e: Entry,
                                      entries': seq<Entry>)
    requires Window(st, entries, created)
    requires var g := Group(st, e.resource, e.user);
             var grown := entries + [e];
             if Trims(st, e.user) && |Select(grown, g)| > st.trimMax + st.trimThreshold then
               Select(entries', g) == Last(Select(grown, g), st.trimMax)
                 && Select(entries', Not(g)) == Select(grown, Not(g))
             else entries' == grown
    ensures Window(st, entries', created + [e])
  {
    forall resource, user ensures GroupWindow(st, entries', created + [e], resource, user) {
      assert GroupWindow(st, entries, created, resource, user);
      GroupStep(st, entries, created, e, entries', resource, user);
    }
  }

  lemma {:induction false} GroupStep(st: Settings, entries: seq<Entry>, created: seq<Entry>, e: Entry,
                                     entries': seq<Entry>, resource: string, user: string)
    requires GroupWindow(st, entries, created, resource, user)
    requires var g := Group(st, e.resource, e.user);
             var grown := entries + [e];
             if Trims(st, e.user) && |Select(grown, g)| > st.trimMax + st.trimThreshold then
               Select(entries', g) == Last(Select(grown, g), st.trimMax)
                 && Select(entries', Not(g)) == Select(grown, Not(g))
             else entries' == grown
    ensures GroupWindow(st, entries', created + [e], resource, user)
  {
    var g, h := Group(st, e.resource, e.user), Group(st, resource, user);
    var grown := entries + [e];
    AppendToGroup(entries, e, h);
    AppendToGroup(created, e, h);
    if h(e) {
      SelectSame(grown, g, h);
      SelectSame(entries', g, h);
      if Trims(st, user) {
        InWindowStep(st, Select(entries, h), Select(created, h), e, Select(entries', h));
      }
    } else if entries' != grown {
      OtherGroupKept(entries', grown, g, h);
    }
  }

  lemma {:induction false} ReverseElements(s: seq<Entry>, x: Entry)
    ensures x in Reverse(s) <==> x in s
  {
    if s != [] {
      ReverseElements(s[1..], x);
      assert s == [s[0]] + s[1..];
    }
  }

  /** Past its first `max` elements, the reverse of a list is what precedes its last `max`. */
  lemma {:induction false} ReverseTail(s: seq<Entry>, max: nat, x: Entry)
    requires max < |s|
    ensures x in Reverse(s)[max..] <==> x in s[..|s| - max]
  {
    assert Reverse(s)[max..] == Reverse(s[..|s| - max]);
    ReverseElements(s[..|s| - max], x);
  }

  /** Deleting the reverse tail of a group leaves its last `max` entries and all the others. */
  lemma {:induction false} TrimLeavesLast(s: seq<Entry>, g: Entry -> bool, max: nat, toDelete: seq<Entry>)
    requires Increasing(s)
    requires var sorted := SortBy(Select(s, g), ByStamp(), true);
             toDelete == if |sorted| <= max then [] else sorted[max..]
    ensures var kept := Select(s, Except(toDelete));
            && Select(kept, g) == Last(Select(s, g), max)
            && Select(kept, Not(g)) == Select(s, Not(g))
  {
    var mine, keep := Select(s, g), Except(toDelete);
    SelectIncreasing(s, g);
    SelectTwice(s, keep, g);
    SelectTwice(s, g, keep);
    SelectSame(s, Both(keep, g), Both(g, keep));
    OldestAreDeleted(mine, max, toDelete);
    DeletionLeavesLast(mine, max, toDelete);
    SelectTwice(s, keep, Not(g));
    forall e | e in s ensures Both(keep, Not(g))(e) == Not(g)(e) {
      if e in toDelete {
        assert e in mine;
        SelectIn(s, g, e);
      }
    }
    SelectSame(s, Both(keep, Not(g)), Not(g));
  }

  lemma {:induction false} OldestAreDeleted(mine: seq<Entry>, max: nat, toDelete: seq<Entry>)
    requires Increasing(mine)
    requires var sorted := SortBy(mine, ByStamp(), true); toDelete == if |sorted| <= max then [] else sorted[max..]
    ensures forall e :: e in toDelete <==> e in mine[..|mine| - |Last(mine, max)|]
  {
    SortDescReverses(mine);
    if |mine| > max {
      forall e ensures e in toDelete <==> e in mine[..|mine| - max] { ReverseTail(mine, max, e); }
    }
  }

  lemma {:induction false} DeletionLeavesLast(mine: seq<Entry>, max: nat, toDelete: seq<Entry>)
    requires Increasing(mine)
    requires forall e :: e in toDelete <==> e in mine[..|mine| - |Last(mine, max)|]
    ensures Select(mine, Except(toDelete)) == Last(mine, max)
  {
    var n := |mine| - |Last(mine, max)|;
    var older, newer := mine[..n], mine[n..];
    assert mine == older + newer;
    forall e | e in newer ensures e !in older {
      var j :| n <= j < |mine| && mine[j] == e;
    }
    DeletePart(older, newer, toDelete);
  }

  lemma {:induction false} DeletePart(older: seq<Entry>, newer: seq<Entry>, deleted: seq<Entry>)
    requires forall e :: e in older ==> e in deleted
    requires forall e :: e in newer ==> e !in deleted
    ensures Select(older + newer, Except(deleted)) == newer
  {
    SelectAppend(older, newer, Except(deleted));
    SelectNone(older, Except(deleted));
    SelectAll(newer, Except(deleted));
  }

  lemma {:induction false} DeleteOneMore(s: seq<Entry>, deleted: seq<Entry>, e: Entry)
    ensures Select(Select(s, Except(deleted)), Except([e])) == Select(s, Except(deleted + [e]))
  {
    SelectTwice(s, Except(deleted), Except([e]));
    SelectSame(s, Both(Except(deleted), Except([e])), Except(deleted + [e]));
  }
}
