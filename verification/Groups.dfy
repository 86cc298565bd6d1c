/** User principals kept by the group listeners: the permission backend's user entries and
    their agreement with the stored groups. */
module Groups {
  import opened Collections

  // ---------- Names ----------

  datatype GroupId = GroupId(bucket: string, id: string)

  /** Bucket and group ids hold no slash. */
  predicate PlainId(g: GroupId) {
    SlashFree(g.bucket) && SlashFree(g.id)
  }

  function Uri(g: GroupId): string {
    "/buckets/" + g.bucket + "/groups/" + g.id
  }

  /** Names without slashes can be read back from the uri. */
  lemma UriIsInjective(g: GroupId, h: GroupId)
    requires PlainId(g) && PlainId(h) && Uri(g) == Uri(h)
    ensures g == h
  {
    UriParts(g);
    UriParts(h);
    PrefixCancels("/buckets/", g.bucket + ['/'] + ("groups/" + g.id), h.bucket + ['/'] + ("groups/" + h.id));
    FirstSlashSplits(g.bucket, "groups/" + g.id, h.bucket, "groups/" + h.id);
    PrefixCancels("groups/", g.id, h.id);
  }

  lemma UriParts(g: GroupId)
    ensures Uri(g) == "/buckets/" + (g.bucket + ['/'] + ("groups/" + g.id))
  {
    assert "/groups/" == ['/'] + "groups/";
  }

  lemma FirstSlashSplits(x: string, s: string, y: string, t: string)
    requires SlashFree(x) && SlashFree(y)
    ensures x + ['/'] + s == y + ['/'] + t ==> x == y && s == t
  {
    var a, b := x + ['/'] + s, y + ['/'] + t;
    forall i | 0 <= i < |x| ensures a[i] != '/' { assert a[i] == x[i]; }
    forall i | 0 <= i < |y| ensures b[i] != '/' { assert b[i] == y[i]; }
    assert a[|x|] == '/' && b[|y|] == '/';
    if a == b {
      assert |x| == |y|;
      assert x == a[..|x|] && y == b[..|y|];
      assert s == a[|x| + 1..] && t == b[|y| + 1..];
    }
  }

  const USER := "user:"

  /** The members of this entry's groups are all authenticated users. */
  const AUTHENTICATED := "system.Authenticated"

  function UserKey(user: string): string {
    USER + user
  }

  // ---------- The permission backend ----------

  class Permission {
    /** User entries and, under other keys, permission entries. */
    var store: map<string, set<string>>

    constructor ()
      ensures store == map[]
    {
      store := map[];
    }

    function Own(user: string): set<string>
      reads this
    {
      if UserKey(user) in store then store[UserKey(user)] else {}
    }

    /** Entries that are not a user's. */
    twostate predicate OthersKept()
      reads this
    {
      forall key :: !(USER <= key) ==>
        (key in store <==> key in old(store)) && (key in store ==> store[key] == old(store)[key])
    }

    /** Nothing but the entry of `user` changed. */
    twostate predicate OnlyUser(user: string)
      reads this
    {
      OthersKept() && forall other :: other != user ==> Own(other) == old(Own(other))
    }

    twostate lemma OneEntryChanged(user: string)
      requires forall key :: key != UserKey(user) ==>
                 (key in store <==> key in old(store)) && (key in store ==> store[key] == old(store)[key])
      ensures OnlyUser(user)
    {
      forall other | other != user ensures Own(other) == old(Own(other)) {
        assert UserKey(other)[|USER|..] == other && UserKey(user)[|USER|..] == user;
        assert UserKey(other) != UserKey(user);
      }
      assert USER <= UserKey(user);
    }

    /** `add_user_principal` */
    method AddUserPrincipal(user: string, principal: string)
      modifies this
      ensures Own(user) == old(Own(user)) + {principal} && OnlyUser(user)
    {
      store := store[UserKey(user) := Own(user) + {principal}];
      OneEntryChanged(user);
    }

    /** `remove_user_principal`: an entry that becomes empty goes away. */
    method RemoveUserPrincipal(user: string, principal: string)
      modifies this
      ensures Own(user) == old(Own(user)) - {principal} && OnlyUser(user)
      ensures Own(user) == {} ==> UserKey(user) !in store
    {
      var principals := Own(user) - {principal};
      if principals == {} {
        if UserKey(user) in store {
          store := store - {UserKey(user)};
        }
      } else {
        store := store[UserKey(user) := principals];
      }
      OneEntryChanged(user);
    }

    /** `remove_principal`: from every user entry, the permission entries are left alone. */
    method RemovePrincipal(principal: string)
      modifies this
      ensures store.Keys == old(store).Keys
      ensures forall key :: key in store ==>
                store[key] == if USER <= key then old(store)[key] - {principal} else old(store)[key]
    {
      var rest := store.Keys;
      while rest != {}
        invariant store.Keys == old(store).Keys && rest <= store.Keys
        invariant forall key :: key in store ==>
                    store[key] == if USER <= key && key !in rest then old(store)[key] - {principal} else old(store)[key]
        decreases rest
      {
        var key :| key in rest;
        rest := rest - {key};
        if USER <= key {
          store := store[key := store[key] - {principal}];
        }
      }
    }

    /** `get_user_principals`: one's own, and those of all authenticated users. */
    method GetUserPrincipals(user: string) returns (principals: set<string>)
      ensures principals == Own(user) + Own(AUTHENTICATED)
      ensures forall live, g ::
                PlainId(g) && Agrees(Own(user), user, live) && Agrees(Own(AUTHENTICATED), AUTHENTICATED, live) ==>
                (Uri(g) in principals <==> IsMember(live, g, user) || IsMember(live, g, AUTHENTICATED))
    {
      principals := Own(user) + Own(AUTHENTICATED);
    }

    // ---------- The listeners ----------

    /** `on_groups_changed` */
    method OnGroupsChanged(impacted: seq<Change>)
      requires forall i :: 0 <= i < |impacted| ==> !impacted[i].Removed?
      modifies this
      ensures forall user :: Own(user) == Turns(old(Own(user)), user, impacted)
      ensures OthersKept()
    {
      for i := 0 to |impacted|
        invariant forall user :: Own(user) == Turns(old(Own(user)), user, impacted[..i])
        invariant OthersKept()
      {
        var change := impacted[i];
        var existing := if change.Updated? then change.before else {};
        AddMembers(change.members - existing, Uri(change.g));
        RemoveMembers(existing - change.members, Uri(change.g));
        assert impacted[..i + 1][..i] == impacted[..i];
      }
      assert impacted[..|impacted|] == impacted;
    }

    method AddMembers(members: set<string>, uri: string)
      modifies this
      ensures forall user :: Own(user) == if user in members then old(Own(user)) + {uri} else old(Own(user))
      ensures OthersKept()
    {
      var rest := members;
      while rest != {}
        invariant rest <= members && OthersKept()
        invariant forall user :: Own(user) == if user in members - rest then old(Own(user)) + {uri} else old(Own(user))
        decreases rest
      {
        var member :| member in rest;
        AddUserPrincipal(member, uri);
        rest := rest - {member};
      }
    }

    method RemoveMembers(members: set<string>, uri: string)
      modifies this
      ensures forall user :: Own(user) == if user in members then old(Own(user)) - {uri} else old(Own(user))
      ensures OthersKept()
    {
      var rest := members;
      while rest != {}
        invariant rest <= members && OthersKept()
        invariant forall user :: Own(user) == if user in members - rest then old(Own(user)) - {uri} else old(Own(user))
        decreases rest
      {
        var member :| member in rest;
        RemoveUserPrincipal(member, uri);
        rest := rest - {member};
      }
    }

    /** `on_groups_deleted` */
    method OnGroupsDeleted(impacted: seq<Change>)
      requires forall i :: 0 <= i < |impacted| ==> impacted[i].Removed?
      modifies this
      ensures forall user :: Own(user) == Turns(old(Own(user)), user, impacted)
      ensures OthersKept()
    {
      for i := 0 to |impacted|
        invariant forall user :: Own(user) == Turns(old(Own(user)), user, impacted[..i])
        invariant OthersKept()
      {
        RemovePrincipal(Uri(impacted[i].g));
        assert impacted[..i + 1][..i] == impacted[..i];
      }
      assert impacted[..|impacted|] == impacted;
    }
  }

  // ---------- Changes and what they do to one user ----------

  /** One impacted group of an event. */
  datatype Change =
    | Created(g: GroupId, members: set<string>)
    | Updated(g: GroupId, before: set<string>, members: set<string>)
    | Removed(g: GroupId)

  function Turn(own: set<string>, user: string, c: Change): set<string> {
    match c
    case Created(g, members) => if user in members then own + {Uri(g)} else own
    case Updated(g, before, members) =>
      if user in members - before then own + {Uri(g)}
      else if user in before - members then own - {Uri(g)}
      else own
    case Removed(g) => own - {Uri(g)}
  }

  function Turns(own: set<string>, user: string, changes: seq<Change>): set<string> {
    if changes == [] then own
    else Turn(Turns(own, user, changes[..|changes| - 1]), user, changes[|changes| - 1])
  }

  // ---------- Agreement ----------

  type Stored = map<GroupId, set<string>>

  function After(live: Stored, c: Change): Stored {
    match c
    case Created(g, members) => live[g := members]
    case Updated(g, _, members) => live[g := members]
    case Removed(g) => live - {g}
  }

  function AfterAll(live: Stored, changes: seq<Change>): Stored {
    if changes == [] then live else After(AfterAll(live, changes[..|changes| - 1]), changes[|changes| - 1])
  }

  /** A request changes each group at most once, as it stands in the store. */
  ghost predicate ValidRequest(live: Stored, changes: seq<Change>) {
    && (forall i, j :: 0 <= i < j < |changes| ==> changes[i].g != changes[j].g)
    && (forall i :: 0 <= i < |changes| ==> PlainId(changes[i].g) && Fits(live, changes[i]))
  }

  predicate Fits(live: Stored, c: Change) {
    match c
    case Created(g, _) => g !in live
    case Updated(g, before, _) => g in live && live[g] == before
    case Removed(g) => g in live
  }

  predicate IsMember(live: Stored, g: GroupId, user: string) {
    g in live && user in live[g]
  }

  /** The user has a group's uri among their own principals exactly when the group is stored
      and lists them. */
  ghost predicate Agrees(own: set<string>, user: string, live: Stored) {
    forall g :: PlainId(g) ==> (Uri(g) in own <==> IsMember(live, g, user))
  }

  /** Replaying one change moves the membership of its group only. */
  lemma TurnEffect(own: set<string>, user: string, c: Change, live: Stored, g: GroupId)
    requires PlainId(g) && PlainId(c.g) && Fits(live, c)
    requires Uri(c.g) in own <==> IsMember(live, c.g, user)
    ensures g == c.g ==> (Uri(g) in Turn(own, user, c) <==> IsMember(After(live, c), g, user))
    ensures g != c.g ==> (Uri(g) in Turn(own, user, c) <==> Uri(g) in own)
  {
    if Uri(g) == Uri(c.g) { UriIsInjective(g, c.g); }
  }

  /** Replayed changes decide their groups, the others are as before. */
  lemma {:induction false} TurnsEffect(own: set<string>, user: string, live: Stored, replayed: seq<Change>, g: GroupId)
    requires Agrees(own, user, live) && ValidRequest(live, replayed) && PlainId(g)
    ensures (forall i :: 0 <= i < |replayed| ==> replayed[i].g != g) ==>
              (Uri(g) in Turns(own, user, replayed) <==> IsMember(live, g, user))
    ensures forall i :: 0 <= i < |replayed| && replayed[i].g == g ==>
              (Uri(g) in Turns(own, user, replayed) <==> IsMember(After(live, replayed[i]), g, user))
  {
    if replayed != [] {
      var n := |replayed| - 1;
      var init, c := replayed[..n], replayed[n];
      assert forall i :: 0 <= i < n ==> init[i] == replayed[i] && replayed[i].g != c.g;
      TurnsEffect(own, user, live, init, g);
      TurnsEffect(own, user, live, init, c.g);
      TurnEffect(Turns(own, user, init), user, c, live, g);
    }
  }

  lemma {:induction false} AfterAllEffect(live: Stored, changes: seq<Change>, g: GroupId)
    requires forall i, j :: 0 <= i < j < |changes| ==> changes[i].g != changes[j].g
    ensures (forall i :: 0 <= i < |changes| ==> changes[i].g != g) ==>
              (g in AfterAll(live, changes) <==> g in live) && (g in live ==> AfterAll(live, changes)[g] == live[g])
    ensures forall i, user :: 0 <= i < |changes| && changes[i].g == g ==>
              (IsMember(AfterAll(live, changes), g, user) <==> IsMember(After(live, changes[i]), g, user))
  {
    if changes != [] {
      var n := |changes| - 1;
      assert forall i :: 0 <= i < n ==> changes[..n][i] == changes[i] && changes[i].g != changes[n].g;
      AfterAllEffect(live, changes[..n], g);
      forall i, user | 0 <= i < |changes| && changes[i].g == g
        ensures IsMember(AfterAll(live, changes), g, user) <==> IsMember(After(live, changes[i]), g, user)
      {
        if i < n {
          assert changes[..n][i] == changes[i] && changes[n].g != g;
          assert IsMember(AfterAll(live, changes[..n]), g, user) <==> IsMember(After(live, changes[..n][i]), g, user);
        }
      }
    }
  }

  /** Main result: a request that changes each group at most once keeps the agreement, in
      whatever order its changes are replayed (events regroup them by action). */
  lemma {:induction false} RequestKeepsAgreement(own: set<string>, user: string, live: Stored, changes: seq<Change>,
                                                 replayed: seq<Change>)
    requires Agrees(own, user, live) && ValidRequest(live, changes) && ValidRequest(live, replayed)
    requires forall c :: c in changes <==> c in replayed
    ensures Agrees(Turns(own, user, replayed), user, AfterAll(live, changes))
  {
    forall g | PlainId(g) ensures Uri(g) in Turns(own, user, replayed) <==> IsMember(AfterAll(live, changes), g, user) {
      TurnsEffect(own, user, live, replayed, g);
      AfterAllEffect(live, changes, g);
      if i :| 0 <= i < |changes| && changes[i].g == g {
        assert changes[i] in replayed;
        var j :| 0 <= j < |replayed| && replayed[j] == changes[i];
      } else {
        forall j | 0 <= j < |replayed| ensures replayed[j].g != g {
          assert replayed[j] in changes;
        }
      }
    }
  }

  /** Requests one after the other; `orders` says how each is replayed. */
  function Replay(own: set<string>, user: string, orders: seq<seq<Change>>): set<string> {
    if orders == [] then own else Turns(Replay(own, user, orders[..|orders| - 1]), user, orders[|orders| - 1])
  }

  function Store(live: Stored, requests: seq<seq<Change>>): Stored {
    if requests == [] then live else AfterAll(Store(live, requests[..|requests| - 1]), requests[|requests| - 1])
  }

  /** Main result over every run from the empty store. */
  lemma {:induction false} RunsAgree(user: string, requests: seq<seq<Change>>, orders: seq<seq<Change>>)
    requires |requests| == |orders|
    requires forall i :: 0 <= i < |requests| ==>
               && ValidRequest(Store(map[], requests[..i]), requests[i])
               && ValidRequest(Store(map[], requests[..i]), orders[i])
               && forall c :: c in requests[i] <==> c in orders[i]
    ensures Agrees(Replay({}, user, orders), user, Store(map[], requests))
  {
    if requests != [] {
      var n := |requests| - 1;
      forall i | 0 <= i < n ensures requests[..n][..i] == requests[..i] {}
      RunsAgree(user, requests[..n], orders[..n]);
      RequestKeepsAgreement(Replay({}, user, orders[..n]), user, Store(map[], requests[..n]), requests[n], orders[n]);
    }
  }
}
