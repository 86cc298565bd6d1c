/** The bounded in-memory cache: what `get` may answer, and how large the cache may grow. */
module Cache {
  import opened Options
  import opened Json
  import opened Collections
  import opened Sorting

  /** `size_of`; `str(None)` has four characters. */
  function SizeOf(key: string, value: Option<string>): nat {
    |key| * 3 + (if value.Some? then |value.value| else 4) + 48
  }

  /** The size of everything stored. */
  ghost function TrueSize(m: map<string, string>): nat
    decreases |m|
  {
    if m == map[] then 0
    else
      var k :| k in m;
      SizeOf(k, Some(m[k])) + TrueSize(m - {k})
  }

  lemma {:induction false} TrueSizeOf(m: map<string, string>, k: string)
    requires k in m
    ensures TrueSize(m) == SizeOf(k, Some(m[k])) + TrueSize(m - {k})
    decreases |m|
  {
    var j :| j in m && TrueSize(m) == SizeOf(j, Some(m[j])) + TrueSize(m - {j});
    if j != k {
      TrueSizeOf(m - {j}, k);
      TrueSizeOf(m - {k}, j);
      assert m - {j} - {k} == m - {k} - {j};
    }
  }

  /** The size of the entry that a new value for `k` replaces. */
  function Overwritten(m: map<string, string>, k: string): nat {
    if k in m then SizeOf(k, Some(m[k])) else 0
  }

  lemma TrueSizeSet(m: map<string, string>, k: string, v: string)
    ensures TrueSize(m[k := v]) + Overwritten(m, k) == TrueSize(m) + SizeOf(k, Some(v))
  {
    TrueSizeOf(m[k := v], k);
    assert m[k := v] - {k} == m - {k};
    if k in m { TrueSizeOf(m, k); } else { assert m - {k} == m; }
  }

  /** What an unbounded cache would hold. */
  datatype Held = Held(value: string, expiry: int)

  function Unexpired(m: map<string, Held>, now: int): map<string, Held> {
    map k | k in m && now < m[k].expiry :: m[k]
  }

  function ByCreation(): ((string, int)) -> Value {
    (x: (string, int)) => Present(Num(x.1 as real))
  }

  /** The unbounded cache holds what is stored, and besides only what was evicted. */
  ghost predicate Mirrors(store: map<string, string>, ttl: map<string, int>, reference: map<string, Held>,
                          evicted: set<string>) {
    && (forall k :: k in store ==> k in ttl && k in reference && reference[k] == Held(store[k], ttl[k]))
    && (forall k :: k in reference ==> k in store || k in evicted)
  }

  /** Every stored key has a creation time and a deadline, and all keys bear the prefix. */
  ghost predicate Keyed(prefix: string, store: map<string, string>, ttl: map<string, int>, createdAt: map<string,
                        int>) {
    store.Keys == createdAt.Keys && store.Keys <= ttl.Keys && forall k :: k in ttl ==> prefix <= k
  }

  lemma KeyedSet(prefix: string, store: map<string, string>, ttl: map<string, int>, createdAt: map<string, int>,
                 k: string, value: string, deadline: int, now: int)
    requires Keyed(prefix, store, ttl, createdAt) && prefix <= k
    ensures Keyed(prefix, store[k := value], ttl[k := deadline], createdAt[k := now])
  {
  }

  lemma MirrorsSet(store: map<string, string>, ttl: map<string, int>, reference: map<string, Held>,
                   evicted: set<string>,
                   k: string, value: string, deadline: int)
    requires Mirrors(store, ttl, reference, evicted)
    ensures Mirrors(store[k := value], ttl[k := deadline], reference[k := Held(value, deadline)], evicted - {k})
  {
  }

  /** What is left keeps its value. */
  predicate Stands<V(==)>(was: map<string, V>, left: map<string, V>) {
    forall k :: k in left ==> k in was && left[k] == was[k]
  }

  /** The key has the value, what else is left keeps its own. */
  predicate OneSet<V(==)>(was: map<string, V>, k: string, value: V, left: map<string, V>) {
    k in left && left[k] == value && Stands(was, left - {k})
  }

  lemma StandsAndSet<V>(was: map<string, V>, mid: map<string, V>, k: string, value: V)
    requires Stands(was, mid)
    ensures OneSet(was, k, value, mid[k := value])
  {
  }

  /** Without the evicted key the quota was at four fifths of the bound or more. */
  predicate WasNeeded(was: map<string, string>, e: string, left: map<string, string>, quota: int, bound: nat) {
    e in was && e !in left && (quota + SizeOf(e, Some(was[e]))) * 5 >= bound * 4
  }

  ghost predicate NoneTooMany(was: map<string, string>, left: map<string, string>, quota: int, bound: nat) {
    exists e :: WasNeeded(was, e, left, quota, bound)
  }

  /** No unexpired key outside `after` was created later than one in `kept`. */
  predicate OldestGo(store: map<string, string>, ttl: map<string, int>, createdAt: map<string, int>, now: int,
                     after: set<string>, kept: set<string>) {
    forall e, k :: e in store && e in ttl && now < ttl[e] && e !in after && k in kept ==>
      e in createdAt && k in createdAt && createdAt[e] <= createdAt[k]
  }

  lemma StandsTwice<V>(was: map<string, V>, mid: map<string, V>, left: map<string, V>)
    requires Stands(was, mid) && Stands(mid, left)
    ensures Stands(was, left)
  {
  }

  lemma OldestOfUnexpired(store: map<string, string>, ttl: map<string, int>, createdAt: map<string, int>, now: int,
                          unexpired: map<string, string>, created: map<string, int>, kept: set<string>)
    requires forall k :: k in unexpired <==> k in store && k in ttl && now < ttl[k]
    requires Stands(createdAt, created) && unexpired.Keys <= created.Keys && kept <= unexpired.Keys
    requires forall k, e :: k in kept && e in unexpired.Keys - kept ==> created[e] <= created[k]
    ensures OldestGo(store, ttl, createdAt, now, kept, kept)
  {
    forall e, k | e in store && e in ttl && now < ttl[e] && e !in kept && k in kept
      ensures e in createdAt && k in createdAt && createdAt[e] <= createdAt[k]
    {
      assert e in unexpired.Keys - kept && e in created && k in created;
    }
  }

  lemma OldestGoAndSet(store: map<string, string>, ttl: map<string, int>, createdAt: map<string, int>, now: int,
                       kept: set<string>, k: string, after: set<string>)
    requires OldestGo(store, ttl, createdAt, now, kept, kept) && after == kept + {k}
    ensures OldestGo(store, ttl, createdAt, now, after, after - {k})
  {
  }

  /** By how much the quota falls short of the true size. */
  function Excess(missed: nat, replaced: nat): nat {
    if missed > replaced then missed - replaced else 0
  }

  lemma SmallerThan(bound: nat, size: nat, size': nat, entry: nat, replaced: nat, replaced': nat, missed: nat)
    requires size' + replaced' == size + replaced + entry && replaced <= replaced'
    requires size < bound + Excess(missed, replaced)
    ensures size' < bound + entry + Excess(missed, replaced')
  {
  }

  lemma StaysBelow(bound: nat, size: nat, size': nat, n: nat, n': nat, missed: nat, missed': nat, replaced: nat)
    requires size < bound + n + Excess(missed, replaced) && size' <= size && n <= n' && missed <= missed'
    ensures size' < bound + n' + Excess(missed', replaced)
  {
  }

  class Cache {
    const prefix: string
    /** `None` for no bound. */
    const maxSizeBytes: Option<nat>
    var store: map<string, string>
    var ttl: map<string, int>
    var createdAt: map<string, int>
    var quota: int
    /** What an unbounded cache would hold after the same operations. */
    ghost var reference: map<string, Held>
    /** Keys dropped for lack of room and not set since. */
    ghost var evicted: set<string>
    /** Sizes subtracted from the quota for keys that were not stored. */
    ghost var missed: nat
    /** Sizes of overwritten entries, never subtracted from the quota. */
    ghost var replaced: nat

    /** What the quota is, and so by how much it is wrong. */
    ghost predicate Balanced()
      reads this
    {
      quota + missed == TrueSize(store) + replaced
    }

    ghost predicate Valid()
      reads this
    {
      && Keyed(prefix, store, ttl, createdAt)
      && Balanced()
      && Mirrors(store, ttl, reference, evicted)
      && (maxSizeBytes.None? ==> evicted == {})
    }

    constructor (prefix: string, maxSizeBytes: Option<nat>)
      ensures Valid() && this.prefix == prefix && this.maxSizeBytes == maxSizeBytes
      ensures store == map[] && ttl == map[] && reference == map[] && quota == 0 && missed == 0 && replaced == 0
    {
      this.prefix, this.maxSizeBytes := prefix, maxSizeBytes;
      store, ttl, createdAt, quota := map[], map[], map[], 0;
      reference, evicted, missed, replaced := map[], {}, 0, 0;
    }

    /** Sizes are missed only while some deadline is that of a key that is not stored. */
    twostate predicate MissesOnlyStrays()
      reads this
    {
      && missed >= old(missed)
      && (old(ttl).Keys == old(store).Keys ==> missed == old(missed) && ttl.Keys == store.Keys)
    }

    /** Nothing expires at `now`. */
    predicate NoneExpires(now: int)
      reads this
    {
      forall k :: k in ttl ==> now < ttl[k]
    }

    /** The cache is smaller than its bound plus `entry`, but for what the quota falls short. */
    ghost predicate Below(entry: nat)
      reads this
    {
      maxSizeBytes.Some? && maxSizeBytes.value > 0 ==>
        TrueSize(store) < maxSizeBytes.value + entry + Excess(missed, replaced)
    }

    /** Nothing fits in the bound and what the quota falls short of: every entry is larger. */
    predicate NoRoom(missed: nat, replaced: nat)
      reads this
    {
      && maxSizeBytes.Some? && maxSizeBytes.value > 0
      && maxSizeBytes.value + Excess(missed, replaced) <= SizeOf(prefix, Some(""))
    }

    /** The request names a key that is not stored, to delete it or to give it a deadline. */
    predicate Stray(r: Request)
      reads this
    {
      (r.DeleteKey? || r.ExpireKey?) && prefix + r.key !in store
    }

    /** What one request of a run does. */
    twostate predicate Served(r: Request, new answer: Option<string>)
      reads this
    {
      && Valid() && reference == Unbounded(prefix, old(reference), r)
      && (!old(Stray(r)) && old(ttl).Keys == old(store).Keys ==> missed == old(missed) && ttl.Keys == store.Keys)
      && (r.SetKey? ==> Below(SizeOf(prefix + r.key, Some(r.value))))
      && (!r.SetKey? ==> TrueSize(store) <= TrueSize(old(store)) && missed >= old(missed) && replaced == old(replaced))
      && (r.GetKey? ==>
            var k := prefix + r.key;
            || answer == (if k in reference then Some(reference[k].value) else None)
            || (maxSizeBytes.Some? && answer.None?))
      && KeysMove(prefix, old(store).Keys, old(reference), r, answer, store.Keys)
      && CreationMoves(prefix, old(createdAt), r, createdAt)
      && (r.SetKey? ==>
            OldestGo(old(store), old(ttl), old(createdAt), r.now, store.Keys, store.Keys - {prefix + r.key}))
    }

    function ValueAt(k: string): Option<string>
      reads this
    {
      if k in store then Some(store[k]) else None
    }

    /** Takes a full key out of the four dictionaries; the reference is left alone. */
    method Drop(k: string)
      modifies this
      ensures store == old(store) - {k} && ttl == old(ttl) - {k} && createdAt == old(createdAt) - {k}
      ensures quota == old(quota) - SizeOf(k, old(ValueAt(k)))
      ensures missed == old(missed) + if k in old(store) then 0 else SizeOf(k, None)
      ensures reference == old(reference) && evicted == old(evicted)
      ensures replaced == old(replaced) && (old(Balanced()) ==> Balanced())
    {
      var value := ValueAt(k);
      if k in store { TrueSizeOf(store, k); } else { missed := missed + SizeOf(k, None); assert store - {k} == store; }
      ttl, createdAt, store := ttl - {k}, createdAt - {k}, store - {k};
      quota := quota - SizeOf(k, value);
    }

    /** `delete` */
    method Delete(key: string) returns (value: Option<string>)
      requires Valid()
      modifies this
      ensures Valid()
      ensures value == old(ValueAt(prefix + key))
      ensures store == old(store) - {prefix + key} && ttl == old(ttl) - {prefix + key}
      ensures createdAt == old(createdAt) - {prefix + key}
      ensures reference == old(reference) - {prefix + key}
      ensures quota == old(quota) - SizeOf(prefix + key, value)
      ensures missed == old(missed) + (if value.Some? then 0 else SizeOf(prefix + key, None))
              && replaced == old(replaced)
      ensures TrueSize(store) <= TrueSize(old(store))
    {
      var k := prefix + key;
      value := ValueAt(k);
      TrueSizeSubset(store - {k}, store);
      Drop(k);
      reference, evicted := reference - {k}, evicted - {k};
    }

    /** `_clean_expired` */
    method CleanExpired(now: int)
      requires Valid()
      modifies this
      ensures Valid()
      ensures forall k :: k in store <==> k in old(store) && now < old(ttl)[k]
      ensures Stands(old(store), store)
      ensures forall k :: k in ttl <==> k in old(ttl) && now < old(ttl)[k]
      ensures Stands(old(createdAt), createdAt)
      ensures reference == Unexpired(old(reference), now)
      ensures evicted == old(evicted) && replaced == old(replaced)
      ensures MissesOnlyStrays()
      ensures old(NoneExpires(now)) ==>
                store == old(store) && ttl == old(ttl) && quota == old(quota) && missed == old(missed)
    {
      var expired := set k | k in ttl && now >= ttl[k];
      DropAll(expired);
      reference := Unexpired(reference, now);
    }

    method DropAll(keys: set<string>)
      requires Balanced() && keys <= ttl.Keys && forall k :: k in ttl ==> prefix <= k
      modifies this
      ensures store == old(store) - keys && ttl == old(ttl) - keys && createdAt == old(createdAt) - keys
      ensures Balanced() && reference == old(reference) && evicted == old(evicted) && replaced == old(replaced)
      ensures keys == {} ==> quota == old(quota) && missed == old(missed)
      ensures missed >= old(missed) && (keys <= old(store).Keys ==> missed == old(missed))
    {
      var rest := keys;
      ghost var gone: set<string> := {};
      while rest != {}
        invariant rest <= keys && gone == keys - rest
        invariant store == old(store) - gone && ttl == old(ttl) - gone && createdAt == old(createdAt) - gone
        invariant Balanced() && reference == old(reference) && evicted == old(evicted) && replaced == old(replaced)
        invariant keys == {} ==> quota == old(quota) && missed == old(missed)
        invariant missed >= old(missed) && (keys <= old(store).Keys ==> missed == old(missed))
        decreases rest
      {
        var k :| k in rest;
        assert prefix + k[|prefix|..] == k;
        MinusOneMore(old(store), gone, k);
        MinusOneMore(old(ttl), gone, k);
        MinusOneMore(old(createdAt), gone, k);
        Drop(prefix + k[|prefix|..]);
        rest, gone := rest - {k}, gone + {k};
      }
      assert gone == keys;
    }

    /** `_clean_oversized`: oldest first, down to four fifths of the bound and no further. */
    method CleanOversized()
      requires Valid()
      modifies this
      ensures Valid()
      ensures Stands(old(store), store)
      ensures forall k, e :: k in store && e in old(store).Keys - store.Keys ==> old(createdAt)[e] <= old(createdAt)[k]
      ensures maxSizeBytes.None? || old(quota) < maxSizeBytes.value ==>
                store == old(store) && ttl == old(ttl) && quota == old(quota)
      ensures maxSizeBytes.Some? && old(quota) >= maxSizeBytes.value ==>
                quota * 5 < maxSizeBytes.value * 4 || store == map[]
      ensures maxSizeBytes.Some? && old(store).Keys != store.Keys ==>
                NoneTooMany(old(store), store, quota, maxSizeBytes.value)
      ensures reference == old(reference) && missed == old(missed) && replaced == old(replaced)
      ensures Stands(old(createdAt), createdAt)
      ensures old(ttl).Keys == old(store).Keys ==> ttl.Keys == store.Keys
    {
      if maxSizeBytes.None? || quota < maxSizeBytes.value {
        return;
      }
      var entries := Items();
      var sorted := SortBy(entries, ByCreation(), false);
      SortedItems(entries, sorted, createdAt);
      ghost var _ := EvictOldest(sorted, maxSizeBytes.value);
    }

    method EvictOldest(sorted: seq<(string, int)>, bound: nat) returns (ghost gone: set<string>)
      requires Balanced() && forall k :: k in store ==> prefix <= k
      requires OldestFirst(sorted, createdAt) && store.Keys == KeysOf(sorted)
      modifies this
      ensures store == old(store) - gone && ttl == old(ttl) - gone && createdAt == old(createdAt) - gone
      ensures Balanced() && replaced == old(replaced)
      ensures reference == old(reference) && missed == old(missed) && evicted == old(evicted) + gone
      ensures CreatedBefore(gone, store.Keys, old(createdAt))
      ensures quota * 5 < bound * 4 || store == map[]
      ensures gone != {} ==> NoneTooMany(old(store), store, quota, bound)
    {
      gone := {};
      ghost var last: string := "";
      var rest := sorted;
      while rest != []
        invariant OldestFirst(rest, old(createdAt)) && store.Keys == KeysOf(rest)
        invariant CreatedBefore(gone, KeysOf(rest), old(createdAt))
        invariant store == old(store) - gone && ttl == old(ttl) - gone && createdAt == old(createdAt) - gone
        invariant Balanced() && replaced == old(replaced)
        invariant reference == old(reference) && missed == old(missed) && evicted == old(evicted) + gone
        invariant gone != {} ==> WasNeeded(old(store), last, store, quota, bound)
      {
        if quota * 5 < bound * 4 {
          break;
        }
        var k := rest[0].0;
        OldestGoes(gone, rest, old(createdAt));
        Evict(k, old(store), old(ttl), old(createdAt), gone);
        gone, last := gone + {k}, k;
        rest := rest[1..];
      }
    }

    /** Drops a stored key for lack of room; `gone` was taken out of the initial dictionaries before. */
    method Evict(k: string, ghost store0: map<string, string>, ghost ttl0: map<string, int>,
                 ghost createdAt0: map<string, int>, ghost gone: set<string>)
      requires k in store && prefix <= k && Balanced()
      requires store == store0 - gone && ttl == ttl0 - gone && createdAt == createdAt0 - gone
      modifies this
      ensures store == store0 - (gone + {k}) && ttl == ttl0 - (gone + {k}) && createdAt == createdAt0 - (gone + {k})
      ensures store.Keys == old(store).Keys - {k} && quota == old(quota) - SizeOf(k, Some(old(store)[k]))
      ensures Balanced() && replaced == old(replaced)
      ensures reference == old(reference) && missed == old(missed) && evicted == old(evicted) + {k}
    {
      assert prefix + k[|prefix|..] == k;
      MinusOneMore(store0, gone, k);
      MinusOneMore(ttl0, gone, k);
      MinusOneMore(createdAt0, gone, k);
      Drop(prefix + k[|prefix|..]);
      evicted := evicted + {k};
    }

    method Items() returns (items: seq<(string, int)>)
      ensures forall x :: x in items <==> x.0 in createdAt && createdAt[x.0] == x.1
      ensures forall a, b :: 0 <= a < b < |items| ==> items[a].0 != items[b].0
    {
      var rest := createdAt.Keys;
      items := [];
      while rest != {}
        invariant rest <= createdAt.Keys
        invariant forall x :: x in items <==> x.0 in createdAt && x.0 !in rest && createdAt[x.0] == x.1
        invariant forall a, b :: 0 <= a < b < |items| ==> items[a].0 != items[b].0
        decreases rest
      {
        var k :| k in rest;
        forall a | 0 <= a < |items| ensures items[a].0 != k { assert items[a] in items; }
        items := items + [(k, createdAt[k])];
        rest := rest - {k};
      }
    }

    /** `expire`: also leaves a deadline for a key that is not stored. */
    method Expire(key: string, ttlMillis: int, now: int)
      requires Valid()
      modifies this
      ensures Valid()
      ensures store == old(store) && quota == old(quota) && evicted == old(evicted)
      ensures missed == old(missed) && replaced == old(replaced)
      ensures ttl == old(ttl)[prefix + key := now + ttlMillis] && createdAt == old(createdAt)
      ensures reference == if prefix + key in old(reference)
                           then old(reference)[prefix + key := old(reference)[prefix + key].(expiry := now + ttlMillis)]
                           else old(reference)
    {
      var k := prefix + key;
      ttl := ttl[k := now + ttlMillis];
      if k in reference { reference := reference[k := reference[k].(expiry := now + ttlMillis)]; }
    }

    /** What `set` starts with. */
    method Clean(now: int)
      requires Valid()
      modifies this
      ensures Valid()
      ensures Stands(old(store), store)
      ensures reference == Unexpired(old(reference), now)
      ensures Below(0)
      ensures Stands(old(createdAt), createdAt)
      ensures OldestGo(old(store), old(ttl), old(createdAt), now, store.Keys, store.Keys)
      ensures MissesOnlyStrays() && replaced == old(replaced)
      ensures old(NoneExpires(now)) && (maxSizeBytes.None? || old(quota) < maxSizeBytes.value) ==>
                store == old(store) && ttl == old(ttl) && quota == old(quota) && missed == old(missed)
    {
      CleanExpired(now);
      ghost var unexpired, created := store, createdAt;
      CleanOversized();
      OldestOfUnexpired(old(store), old(ttl), old(createdAt), now, unexpired, created, store.Keys);
      StandsTwice(old(store), unexpired, store);
      StandsTwice(old(createdAt), created, createdAt);
    }

    /** `set`.  Right after it the cache is smaller than the bound plus the new entry, plus
        what the quota falls short.  Without expiry, below the bound, nothing else goes. */
    method Set(key: string, value: string, ttlMillis: int, now: int)
      requires Valid()
      modifies this
      ensures Valid()
      ensures reference == Unexpired(old(reference), now)[prefix + key := Held(value, now + ttlMillis)]
      ensures OneSet(old(store), prefix + key, value, store)
      ensures OneSet(old(createdAt), prefix + key, now, createdAt)
      ensures OldestGo(old(store), old(ttl), old(createdAt), now, store.Keys, store.Keys - {prefix + key})
      ensures Below(SizeOf(prefix + key, Some(value)))
      ensures MissesOnlyStrays()
      ensures old(NoneExpires(now)) && (maxSizeBytes.None? || old(quota) < maxSizeBytes.value) ==>
                && store == old(store)[prefix + key := value] && ttl == old(ttl)[prefix + key := now + ttlMillis]
                && quota == old(quota) + SizeOf(prefix + key, Some(value)) && missed == old(missed)
                && replaced == old(replaced) + Overwritten(old(store), prefix + key)
    {
      Clean(now);
      var k := prefix + key;
      StandsAndSet(old(store), store, k, value);
      StandsAndSet(old(createdAt), createdAt, k, now);
      OldestGoAndSet(old(store), old(ttl), old(createdAt), now, store.Keys, k, store.Keys + {k});
      ghost var size, r := TrueSize(store), replaced;
      Put(k, value, now + ttlMillis, now);
      if maxSizeBytes.Some? && maxSizeBytes.value > 0 {
        SmallerThan(maxSizeBytes.value, size, TrueSize(store), SizeOf(k, Some(value)), r, replaced, missed);
      }
    }

    /** What follows in `set`: the deadline that `expire` leaves, then the assignments. */
    method Put(k: string, value: string, deadline: int, now: int)
      requires Valid() && prefix <= k
      modifies this
      ensures Valid()
      ensures store == old(store)[k := value] && ttl == old(ttl)[k := deadline]
      ensures reference == old(reference)[k := Held(value, deadline)]
      ensures quota == old(quota) + SizeOf(k, Some(value)) && missed == old(missed)
      ensures replaced == old(replaced) + Overwritten(old(store), k)
      ensures createdAt == old(createdAt)[k := now]
    {
      TrueSizeSet(store, k, value);
      KeyedSet(prefix, store, ttl, createdAt, k, value, deadline, now);
      MirrorsSet(store, ttl, reference, evicted, k, value, deadline);
      ghost var over := Overwritten(store, k);
      ttl := ttl[k := deadline];
      replaced := replaced + over;
      store := store[k := value];
      createdAt := createdAt[k := now];
      quota := quota + SizeOf(k, Some(value));
      reference, evicted := reference[k := Held(value, deadline)], evicted - {k};
    }

    /** `get`.  The answer is what an unbounded cache would give, or nothing for a key that
        was evicted. */
    method Get(key: string, now: int) returns (value: Option<string>)
      requires Valid()
      modifies this
      ensures Valid() && reference == Unexpired(old(reference), now) && evicted == old(evicted)
      ensures value.Some? ==> prefix + key in reference && reference[prefix + key].value == value.value
                              && now < reference[prefix + key].expiry
      ensures value.None? ==> prefix + key !in reference || prefix + key in evicted
      ensures maxSizeBytes.None? ==> evicted == {}
      ensures forall k :: k in store <==> k in old(store) && now < old(ttl)[k]
      ensures value.Some? <==> prefix + key in store
      ensures Stands(old(createdAt), createdAt)
      ensures TrueSize(store) <= TrueSize(old(store)) && replaced == old(replaced)
      ensures MissesOnlyStrays()
    {
      CleanExpired(now);
      value := ValueAt(prefix + key);
      TrueSizeSubset(store, old(store));
    }
  }

  // ---------- Whole runs ----------

  datatype Request =
    | SetKey(key: string, value: string, ttlMillis: int, now: int)
    | GetKey(key: string, now: int)
    | ExpireKey(key: string, ttlMillis: int, now: int)
    | DeleteKey(key: string)

  /** An unbounded cache, which forgets expired keys whenever it is set or read. */
  function Unbounded(prefix: string, m: map<string, Held>, r: Request): map<string, Held> {
    match r
    case SetKey(key, value, ttlMillis, now) => Unexpired(m, now)[prefix + key := Held(value, now + ttlMillis)]
    case GetKey(_, now) => Unexpired(m, now)
    case ExpireKey(key, ttlMillis, now) =>
      if prefix + key in m then m[prefix + key := m[prefix + key].(expiry := now + ttlMillis)] else m
    case DeleteKey(key) => m - {prefix + key}
  }

  function UnboundedRun(prefix: string, requests: seq<Request>): map<string, Held> {
    if requests == [] then map[]
    else Unbounded(prefix, UnboundedRun(prefix, requests[..|requests| - 1]), requests[|requests| - 1])
  }

  // ---------- What an unbounded cache answers ----------

  /** The request leaves the key alone, and at its time the deadline has not come. */
  predicate Spares(r: Request, key: string, deadline: int) {
    match r
    case SetKey(k, _, _, now) => k != key && now < deadline
    case GetKey(_, now) => now < deadline
    case ExpireKey(k, _, _) => k != key
    case DeleteKey(k) => k != key
  }

  /** A value that was set is answered until its deadline, and no longer. */
  lemma {:induction false} AnsweredUntilDeadline(prefix: string, requests: seq<Request>, key: string, value: string,
                                                 ttlMillis: int, now: int, later: seq<Request>, at: int,
                                                 answer: Option<string>)
    requires forall i :: 0 <= i < |later| ==> Spares(later[i], key, now + ttlMillis)
    requires Answers(answer, prefix, false, requests + [SetKey(key, value, ttlMillis, now)] + later, key, at)
    ensures answer == if at < now + ttlMillis then Some(value) else None
  {
    HeldWhileSpared(prefix, requests + [SetKey(key, value, ttlMillis, now)], key, Held(value, now + ttlMillis), later);
  }

  lemma {:induction false} HeldWhileSpared(prefix: string, requests: seq<Request>, key: string, h: Held,
                                           later: seq<Request>)
    requires |requests| > 0 && forall i :: 0 <= i < |later| ==> Spares(later[i], key, h.expiry)
    requires var r := requests[|requests| - 1];
             || (r.SetKey? && r.key == key && h == Held(r.value, r.now + r.ttlMillis))
             || (prefix + key in UnboundedRun(prefix, requests) && UnboundedRun(prefix, requests)[prefix + key] == h)
    ensures var m := UnboundedRun(prefix, requests + later); prefix + key in m && m[prefix + key] == h
  {
    if later == [] {
      assert requests + later == requests;
    } else {
      var n := |later| - 1;
      HeldWhileSpared(prefix, requests, key, h, later[..n]);
      assert (requests + later)[..|requests| + n] == requests + later[..n];
      OtherKey(prefix, key, later[n].key);
    }
  }

  lemma OtherKey(prefix: string, a: string, b: string)
    ensures prefix + a == prefix + b <==> a == b
  {
    if prefix + a == prefix + b { PrefixCancels(prefix, a, b); }
  }

  /** After a delete nothing is answered until the key is set again. */
  lemma {:induction false} NothingAfterDelete(prefix: string, requests: seq<Request>, key: string,
                                              later: seq<Request>, at: int, answer: Option<string>)
    requires forall i :: 0 <= i < |later| ==> !(later[i].SetKey? && later[i].key == key)
    requires Answers(answer, prefix, false, requests + [DeleteKey(key)] + later, key, at)
    ensures answer == None
  {
    AbsentUntilSet(prefix, requests + [DeleteKey(key)], key, later);
  }

  lemma {:induction false} AbsentUntilSet(prefix: string, requests: seq<Request>, key: string, later: seq<Request>)
    requires |requests| > 0 && forall i :: 0 <= i < |later| ==> !(later[i].SetKey? && later[i].key == key)
    requires requests[|requests| - 1] == DeleteKey(key) || prefix + key !in UnboundedRun(prefix, requests)
    ensures prefix + key !in UnboundedRun(prefix, requests + later)
  {
    if later == [] {
      assert requests + later == requests;
    } else {
      var n := |later| - 1;
      AbsentUntilSet(prefix, requests, key, later[..n]);
      assert (requests + later)[..|requests| + n] == requests + later[..n];
      OtherKey(prefix, key, later[n].key);
    }
  }

  /** A new deadline replaces the old one, if the value is still there. */
  lemma {:induction false} ExpireMovesDeadline(prefix: string, requests: seq<Request>, key: string, ttlMillis: int,
                                               now: int, at: int, answer: Option<string>)
    requires Answers(answer, prefix, false, requests + [ExpireKey(key, ttlMillis, now)], key, at)
    ensures var m, k := UnboundedRun(prefix, requests), prefix + key;
            answer == if k in m && at < now + ttlMillis then Some(m[k].value) else None
  {
    assert (requests + [ExpireKey(key, ttlMillis, now)])[..|requests|] == requests;
  }

  /** The largest entry that a run sets. */
  function Largest(prefix: string, requests: seq<Request>): nat {
    if requests == [] then 0
    else
      var before, r := Largest(prefix, requests[..|requests| - 1]), requests[|requests| - 1];
      var entry := if r.SetKey? then SizeOf(prefix + r.key, Some(r.value)) else 0;
      if entry > before then entry else before
  }

  /** How often a run sets a key. */
  function Sets(requests: seq<Request>, key: string): nat {
    if requests == [] then 0
    else
      var n := |requests| - 1;
      Sets(requests[..n], key) + if requests[n].SetKey? && requests[n].key == key then 1 else 0
  }

  /** What a request does to the stored keys, and what its answer says of them; `m` is what an
      unbounded cache would hold before it. */
  predicate KeysMove(prefix: string, keys: set<string>, m: map<string, Held>, r: Request, answer: Option<string>,
                     keys': set<string>) {
    var k := prefix + r.key;
    match r
    case SetKey(_, _, _, now) => k in keys' && keys' - {k} <= keys && keys' - {k} <= Unexpired(m, now).Keys
    case GetKey(_, now) => keys' == keys * Unexpired(m, now).Keys && (answer.Some? <==> k in keys')
    case ExpireKey(_, _, _) => keys' == keys
    case DeleteKey(_) => keys' == keys - {k} && (answer.Some? <==> k in keys)
  }

  /** What a request does to the creation times. */
  predicate CreationMoves(prefix: string, was: map<string, int>, r: Request, created: map<string, int>) {
    if r.SetKey? then OneSet(was, prefix + r.key, r.now, created) else Stands(was, created)
  }

  /** When a run last sets a full key. */
  function LastSet(prefix: string, requests: seq<Request>, k: string): Option<int> {
    if requests == [] then None
    else
      var r := requests[|requests| - 1];
      if r.SetKey? && prefix + r.key == k then Some(r.now) else LastSet(prefix, requests[..|requests| - 1], k)
  }

  /** Creation times are those of the requests. */
  ghost predicate Timed(prefix: string, requests: seq<Request>, createdAt: map<string, int>) {
    forall k :: k in createdAt ==> LastSet(prefix, requests, k) == Some(createdAt[k])
  }

  lemma {:induction false} StillTimed(prefix: string, requests: seq<Request>, i: nat, was: map<string, int>,
                                      created: map<string, int>)
    requires i < |requests| && Timed(prefix, requests[..i], was) && CreationMoves(prefix, was, requests[i], created)
    ensures Timed(prefix, requests[..i + 1], created)
  {
    var r := requests[i];
    PrefixOfPrefix(requests, i + 1, i);
    forall k | k in created ensures LastSet(prefix, requests[..i + 1], k) == Some(created[k]) {
      if r.SetKey? && k != prefix + r.key { assert k in created - {prefix + r.key}; }
    }
  }

  /** Of the keys that a set takes out for lack of room, none was set later than one that
      stays.  A key that an unbounded cache would have dropped has expired. */
  ghost predicate EvictsOldest(prefix: string, requests: seq<Request>, keys: set<string>, r: Request,
                               keys': set<string>) {
    var m := UnboundedRun(prefix, requests);
    r.SetKey? ==>
      forall e, k :: e in keys && e in Unexpired(m, r.now) && e !in keys' && k in keys' && k != prefix + r.key ==>
        && LastSet(prefix, requests, e).Some? && LastSet(prefix, requests, k).Some?
        && LastSet(prefix, requests, e).value <= LastSet(prefix, requests, k).value
  }

  lemma {:induction false} OldestByRequests(prefix: string, requests: seq<Request>, store: map<string, string>,
                                            ttl: map<string, int>, evicted: set<string>, createdAt: map<string, int>,
                                            r: Request, keys': set<string>)
    requires Mirrors(store, ttl, UnboundedRun(prefix, requests), evicted) && Timed(prefix, requests, createdAt)
    requires r.SetKey? ==> OldestGo(store, ttl, createdAt, r.now, keys', keys' - {prefix + r.key})
    ensures EvictsOldest(prefix, requests, store.Keys, r, keys')
  {
    if r.SetKey? {
      var m := UnboundedRun(prefix, requests);
      forall e, k | e in store && e in Unexpired(m, r.now) && e !in keys' && k in keys' && k != prefix + r.key
        ensures LastSet(prefix, requests, e).Some? && LastSet(prefix, requests, k).Some?
        ensures LastSet(prefix, requests, e).value <= LastSet(prefix, requests, k).value
      {
        assert m[e] == Held(store[e], ttl[e]) && r.now < ttl[e] && k in keys' - {prefix + r.key};
        assert e in createdAt && k in createdAt;
      }
    }
  }

  /** The keys that are stored after each request of a run, as its answers tell them. */
  ghost predicate Traced(prefix: string, requests: seq<Request>, answers: seq<Option<string>>,
                         stored: seq<set<string>>) {
    |stored| == |answers| <= |requests| &&
    forall i :: 0 <= i < |answers| ==>
      TracedAt(prefix, requests[..i], KeysAt(stored, i), requests[i], answers[i], stored[i])
  }

  function KeysAt(stored: seq<set<string>>, i: nat): set<string>
    requires i <= |stored|
  {
    if i == 0 then {} else stored[i - 1]
  }

  ghost predicate TracedAt(prefix: string, requests: seq<Request>, keys: set<string>, r: Request,
                           answer: Option<string>, keys': set<string>) {
    && KeysMove(prefix, keys, UnboundedRun(prefix, requests), r, answer, keys')
    && EvictsOldest(prefix, requests, keys, r, keys')
  }

  /** Without a bound nothing is evicted. */
  ghost predicate HoldsAll(prefix: string, requests: seq<Request>, stored: seq<set<string>>) {
    |stored| <= |requests| &&
    forall i :: 0 <= i < |stored| ==> stored[i] == UnboundedRun(prefix, requests[..i + 1]).Keys
  }

  /** A delete then returns a value exactly if the unbounded cache holds one. */
  lemma {:induction false} DeleteAnswered(prefix: string, requests: seq<Request>, answers: seq<Option<string>>,
                                          stored: seq<set<string>>, i: nat)
    requires Traced(prefix, requests, answers, stored) && HoldsAll(prefix, requests, stored)
    requires i < |answers| && requests[i].DeleteKey?
    ensures answers[i].Some? <==> prefix + requests[i].key in UnboundedRun(prefix, requests[..i])
  {
    assert TracedAt(prefix, requests[..i], KeysAt(stored, i), requests[i], answers[i], stored[i]);
    if i > 0 { assert stored[i - 1] == UnboundedRun(prefix, requests[..i - 1 + 1]).Keys; }
  }

  /** The request deletes, or gives a deadline to, a key that is not stored. */
  predicate IsStray(prefix: string, keys: set<string>, r: Request) {
    (r.DeleteKey? || r.ExpireKey?) && prefix + r.key !in keys
  }

  /** How many requests of a run did so. */
  function Strays(prefix: string, requests: seq<Request>, stored: seq<set<string>>): nat
    requires |stored| <= |requests|
  {
    if stored == [] then 0
    else
      var n := |stored| - 1;
      Strays(prefix, requests, stored[..n]) + if IsStray(prefix, KeysAt(stored, n), requests[n]) then 1 else 0
  }

  lemma {:induction false} StraysMore(prefix: string, requests: seq<Request>, stored: seq<set<string>>,
                                      keys: set<string>)
    requires |stored| < |requests|
    ensures Strays(prefix, requests, stored + [keys])
            == Strays(prefix, requests, stored)
               + if IsStray(prefix, KeysAt(stored, |stored|), requests[|stored|]) then 1 else 0
  {
    assert (stored + [keys])[..|stored|] == stored;
    KeysAtMore(stored, keys, |stored|);
  }

  lemma {:induction false} TracedMore(prefix: string, requests: seq<Request>, answers: seq<Option<string>>,
                                      stored: seq<set<string>>, answer: Option<string>, keys': set<string>)
    requires Traced(prefix, requests, answers, stored) && |answers| < |requests|
    requires var i := |answers|; TracedAt(prefix, requests[..i], KeysAt(stored, i), requests[i], answer, keys')
    ensures Traced(prefix, requests, answers + [answer], stored + [keys'])
  {
    var more, keys := answers + [answer], stored + [keys'];
    forall j | 0 <= j < |more|
      ensures TracedAt(prefix, requests[..j], KeysAt(keys, j), requests[j], more[j], keys[j])
    {
      KeysAtMore(stored, keys', j);
      if j < |answers| {
        assert TracedAt(prefix, requests[..j], KeysAt(stored, j), requests[j], answers[j], stored[j]);
      }
    }
  }

  lemma KeysAtMore(stored: seq<set<string>>, keys: set<string>, j: nat)
    requires j <= |stored|
    ensures KeysAt(stored + [keys], j) == KeysAt(stored, j)
    ensures (stored + [keys])[j] == if j == |stored| then keys else stored[j]
  {
  }

  predicate Takes(r: Request, answer: Option<string>, key: string) {
    r.DeleteKey? && r.key == key && answer.Some?
  }

  /** How often a delete of a key returns a value. */
  function Taken(requests: seq<Request>, answers: seq<Option<string>>, key: string): nat
    requires |answers| == |requests|
  {
    if requests == [] then 0
    else
      var n := |requests| - 1;
      Taken(requests[..n], answers[..n], key) + if Takes(requests[n], answers[n], key) then 1 else 0
  }

  lemma {:induction false} TakenGrows(requests: seq<Request>, answers: seq<Option<string>>, answer: Option<string>,
                                      key: string)
    requires |answers| < |requests|
    ensures var i, r := |answers|, requests[|answers|];
            && Taken(requests[..i + 1], answers + [answer], key)
               == Taken(requests[..i], answers, key) + (if Takes(r, answer, key) then 1 else 0)
            && Sets(requests[..i + 1], key)
               == Sets(requests[..i], key) + (if r.SetKey? && r.key == key then 1 else 0)
  {
    PrefixOfPrefix(requests, |answers| + 1, |answers|);
    assert requests[..|answers| + 1][..|answers|] == requests[..|answers|];
    assert (answers + [answer])[..|answers|] == answers;
  }

  /** Each set of a key accounts for one successful delete of it, or for its being stored. */
  ghost predicate TakenOnce(prefix: string, keys: set<string>, requests: seq<Request>, answers: seq<Option<string>>)
    requires |answers| == |requests|
  {
    forall key :: Taken(requests, answers, key) + (if prefix + key in keys then 1 else 0) <= Sets(requests, key)
  }

  lemma {:induction false} StillTakenOnce(prefix: string, keys: set<string>, requests: seq<Request>,
                                          answers: seq<Option<string>>, answer: Option<string>, m: map<string, Held>,
                                          keys': set<string>)
    requires |answers| < |requests| && TakenOnce(prefix, keys, requests[..|answers|], answers)
    requires KeysMove(prefix, keys, m, requests[|answers|], answer, keys')
    ensures TakenOnce(prefix, keys', requests[..|answers| + 1], answers + [answer])
  {
    var i, r := |answers|, requests[|answers|];
    forall key
      ensures Taken(requests[..i + 1], answers + [answer], key) + (if prefix + key in keys' then 1 else 0)
              <= Sets(requests[..i + 1], key)
    {
      TakenGrows(requests, answers, answer, key);
      if r.SetKey? && prefix + key == prefix + r.key { PrefixCancels(prefix, key, r.key); }
    }
  }

  /** An answer to a `get` after `requests`: what the unbounded cache answers, or nothing if
      there is a bound. */
  predicate Answers(answer: Option<string>, prefix: string, bounded: bool, requests: seq<Request>, key: string,
                    now: int) {
    var m, k := Unexpired(UnboundedRun(prefix, requests), now), prefix + key;
    answer == (if k in m then Some(m[k].value) else None) || (bounded && answer.None?)
  }

  /** Every `get` of a run so far has been answered like that. */
  predicate Answered(answers: seq<Option<string>>, prefix: string, bounded: bool, requests: seq<Request>) {
    |answers| <= |requests| &&
    forall i :: 0 <= i < |answers| && requests[i].GetKey? ==>
      Answers(answers[i], prefix, bounded, requests[..i], requests[i].key, requests[i].now)
  }

  lemma {:induction false} AnsweredMore(answers: seq<Option<string>>, answer: Option<string>, prefix: string,
                                        bounded: bool, requests: seq<Request>)
    requires |answers| < |requests| && Answered(answers, prefix, bounded, requests)
    requires var r := requests[|answers|];
             r.GetKey? ==> Answers(answer, prefix, bounded, requests[..|answers|], r.key, r.now)
    ensures Answered(answers + [answer], prefix, bounded, requests)
  {
  }

  lemma {:induction false} TrueSizeSubset(small: map<string, string>, large: map<string, string>)
    requires forall k :: k in small ==> k in large && large[k] == small[k]
    ensures TrueSize(small) <= TrueSize(large)
    decreases |small|
  {
    if k :| k in small {
      TrueSizeOf(small, k);
      TrueSizeOf(large, k);
      TrueSizeSubset(small - {k}, large - {k});
    }
  }

  method ServeOne(cache: Cache, r: Request, ghost n: nat, ghost n': nat) returns (answer: Option<string>)
    requires cache.Valid() && cache.Below(n) && n <= n'
    requires r.SetKey? ==> SizeOf(cache.prefix + r.key, Some(r.value)) <= n'
    modifies cache
    ensures cache.Served(r, answer) && cache.Below(n')
  {
    ghost var size, missed := TrueSize(cache.store), cache.missed;
    match r
    case SetKey(_, _, _, _) => answer := ServeSet(cache, r);
    case GetKey(_, _) => answer := ServeGet(cache, r);
    case ExpireKey(_, _, _) => answer := ServeExpire(cache, r);
    case DeleteKey(_) => answer := ServeDelete(cache, r);
    if cache.maxSizeBytes.Some? && cache.maxSizeBytes.value > 0 && !r.SetKey? {
      StaysBelow(cache.maxSizeBytes.value, size, TrueSize(cache.store), n, n', missed, cache.missed, cache.replaced);
    }
  }

  /** What holds after the requests that have been answered. */
  ghost predicate Progress(cache: Cache, requests: seq<Request>, answers: seq<Option<string>>, strays: nat)
    requires |answers| <= |requests|
    reads cache
  {
    var i := |answers|;
    && cache.Valid() && cache.reference == UnboundedRun(cache.prefix, requests[..i])
    && cache.Below(Largest(cache.prefix, requests[..i]))
    && TakenOnce(cache.prefix, cache.store.Keys, requests[..i], answers)
    && (strays == 0 ==> cache.missed == 0 && cache.ttl.Keys == cache.store.Keys)
    && Timed(cache.prefix, requests[..i], cache.createdAt)
  }

  /** The next request of a run. */
  method ServeNext(cache: Cache, requests: seq<Request>, answers: seq<Option<string>>, ghost strays: nat)
    returns (answer: Option<string>, ghost strays': nat)
    requires |answers| < |requests| && Progress(cache, requests, answers, strays)
    requires Answered(answers, cache.prefix, cache.maxSizeBytes.Some?, requests)
    modifies cache
    ensures Progress(cache, requests, answers + [answer], strays')
    ensures cache.maxSizeBytes.None? ==>
              cache.store.Keys == UnboundedRun(cache.prefix, requests[..|answers| + 1]).Keys
    ensures strays' == strays + if IsStray(cache.prefix, old(cache.store).Keys, requests[|answers|]) then 1 else 0
    ensures TracedAt(cache.prefix, requests[..|answers|], old(cache.store).Keys, requests[|answers|], answer,
                     cache.store.Keys)
    ensures Answered(answers + [answer], cache.prefix, cache.maxSizeBytes.Some?, requests)
  {
    var i, r := |answers|, requests[|answers|];
    ghost var keys, m := cache.store.Keys, cache.reference;
    RunGrows(cache.prefix, requests, i);
    strays' := strays + if cache.Stray(r) then 1 else 0;
    answer := ServeOne(cache, r, Largest(cache.prefix, requests[..i]), Largest(cache.prefix, requests[..i + 1]));
    StillTakenOnce(cache.prefix, keys, requests, answers, answer, m, cache.store.Keys);
    StillTimed(cache.prefix, requests, i, old(cache.createdAt), cache.createdAt);
    OldestByRequests(cache.prefix, requests[..i], old(cache.store), old(cache.ttl), old(cache.evicted),
                     old(cache.createdAt), r, cache.store.Keys);
    AnsweredMore(answers, answer, cache.prefix, cache.maxSizeBytes.Some?, requests);
  }

  lemma ProgressAtStart(cache: Cache, requests: seq<Request>)
    requires cache.Valid() && cache.store == map[] && cache.ttl == map[] && cache.reference == map[]
    requires cache.missed == 0 && cache.replaced == 0
    ensures Progress(cache, requests, [], 0)
  {
  }

  /** The keys that are stored after each request account for the answers and the strays. */
  ghost predicate Accounts(prefix: string, unbounded: bool, requests: seq<Request>, answers: seq<Option<string>>,
                           strays: nat, stored: seq<set<string>>) {
    && Traced(prefix, requests, answers, stored) && strays == Strays(prefix, requests, stored)
    && (unbounded ==> HoldsAll(prefix, requests, stored))
  }

  lemma {:induction false} AccountsMore(prefix: string, unbounded: bool, requests: seq<Request>,
                                        answers: seq<Option<string>>, strays: nat, stored: seq<set<string>>,
                                        answer: Option<string>, keys: set<string>)
    requires Accounts(prefix, unbounded, requests, answers, strays, stored) && |answers| < |requests|
    requires var i := |answers|; TracedAt(prefix, requests[..i], KeysAt(stored, i), requests[i], answer, keys)
    requires unbounded ==> keys == UnboundedRun(prefix, requests[..|answers| + 1]).Keys
    ensures var stray := IsStray(prefix, KeysAt(stored, |stored|), requests[|stored|]);
            Accounts(prefix, unbounded, requests, answers + [answer], strays + if stray then 1 else 0, stored + [keys])
  {
    TracedMore(prefix, requests, answers, stored, answer, keys);
    StraysMore(prefix, requests, stored, keys);
  }

  method ServeSet(cache: Cache, r: Request) returns (answer: Option<string>)
    requires cache.Valid() && r.SetKey?
    modifies cache
    ensures cache.Served(r, answer)
  {
    answer := None;
    cache.Set(r.key, r.value, r.ttlMillis, r.now);
  }

  method ServeGet(cache: Cache, r: Request) returns (answer: Option<string>)
    requires cache.Valid() && r.GetKey?
    modifies cache
    ensures cache.Served(r, answer)
  {
    answer := cache.Get(r.key, r.now);
  }

  method ServeExpire(cache: Cache, r: Request) returns (answer: Option<string>)
    requires cache.Valid() && r.ExpireKey?
    modifies cache
    ensures cache.Served(r, answer)
  {
    answer := None;
    cache.Expire(r.key, r.ttlMillis, r.now);
  }

  method ServeDelete(cache: Cache, r: Request) returns (answer: Option<string>)
    requires cache.Valid() && r.DeleteKey?
    modifies cache
    ensures cache.Served(r, answer)
  {
    answer := cache.Delete(r.key);
  }

  lemma {:induction false} RunGrows(prefix: string, requests: seq<Request>, i: nat)
    requires i < |requests|
    ensures UnboundedRun(prefix, requests[..i + 1])
            == Unbounded(prefix, UnboundedRun(prefix, requests[..i]), requests[i])
    ensures Largest(prefix, requests[..i]) <= Largest(prefix, requests[..i + 1])
    ensures requests[i].SetKey? ==>
            SizeOf(prefix + requests[i].key, Some(requests[i].value)) <= Largest(prefix, requests[..i + 1])
  {
    assert requests[..i + 1][..i] == requests[..i];
  }

  /** The quota falls short of the true size exactly when more was missed than replaced. */
  lemma QuotaFallsShort(cache: Cache)
    requires cache.Valid()
    ensures cache.quota < TrueSize(cache.store) <==> cache.missed > cache.replaced
    ensures TrueSize(cache.store) <= cache.quota + Excess(cache.missed, cache.replaced)
  {
  }

  /** Without room, what `set` leaves is the new entry alone. */
  lemma NoRoomOneEntry(cache: Cache, k: string)
    requires cache.Valid() && k in cache.store && cache.Below(SizeOf(k, Some(cache.store[k])))
    requires cache.NoRoom(cache.missed, cache.replaced)
    ensures cache.store == map[k := cache.store[k]]
    ensures TrueSize(cache.store) < cache.maxSizeBytes.value + SizeOf(k, Some(cache.store[k]))
  {
    TrueSizeOf(cache.store, k);
    var others := cache.store - {k};
    if j :| j in others { TrueSizeOf(others, j); }
    assert others == map[];
  }

  /** Deletes everything that is stored. */
  method DeleteEverything(cache: Cache, now: int)
    requires cache.Valid() && cache.NoneExpires(now)
    modifies cache
    ensures cache.Valid() && cache.store == map[] && cache.NoneExpires(now)
    ensures cache.missed == old(cache.missed) && cache.replaced == old(cache.replaced)
  {
    while cache.store != map[]
      invariant cache.Valid() && cache.NoneExpires(now)
      invariant cache.missed == old(cache.missed) && cache.replaced == old(cache.replaced)
      decreases |cache.store|
    {
      var k :| k in cache.store;
      assert k in cache.ttl && cache.prefix + k[|cache.prefix|..] == k;
      var _ := cache.Delete(k[|cache.prefix|..]);
    }
  }

  /** Converse of the size bound: from any state whose quota falls short, with room for an
      entry, deletes of stored keys and two sets bring the cache to its bound plus the largest
      entry, with no further size missed.  Without room they cannot (`NoRoomOneEntry`). */
  method ShortQuotaBreaksBound(cache: Cache, now: int)
    requires cache.Valid() && cache.maxSizeBytes.Some? && cache.maxSizeBytes.value > 0 && cache.NoneExpires(now)
    requires cache.missed > cache.replaced && !cache.NoRoom(cache.missed, cache.replaced)
    modifies cache
    ensures cache.Valid() && cache.missed == old(cache.missed) && cache.replaced == old(cache.replaced)
    ensures cache.store.Keys == {cache.prefix, cache.prefix + "x"}
    ensures forall k :: k in cache.store ==>
              TrueSize(cache.store) >= cache.maxSizeBytes.value + SizeOf(k, Some(cache.store[k]))
  {
    DeleteEverything(cache, now);
    ghost var short := Excess(cache.missed, cache.replaced);
    assert cache.Balanced() && TrueSize(cache.store) == 0;
    var filler := seq(0 - cache.quota + cache.maxSizeBytes.value - 1 - SizeOf(cache.prefix, Some("")), _ => 'x');
    assert SizeOf(cache.prefix, Some(filler)) == cache.maxSizeBytes.value + short - 1;
    assert cache.prefix + "" == cache.prefix;
    SetBelowBound(cache, "", filler, now);
    SetBelowBound(cache, "x", filler, now);
    TwoFillers(cache, cache.prefix, cache.prefix + "x", filler);
  }

  /** Sets a key that is not stored, below the bound. */
  method SetBelowBound(cache: Cache, key: string, value: string, now: int)
    requires cache.Valid() && cache.NoneExpires(now) && cache.prefix + key !in cache.store
    requires cache.maxSizeBytes.Some? && cache.quota < cache.maxSizeBytes.value
    modifies cache
    ensures cache.Valid() && cache.NoneExpires(now)
    ensures cache.store == old(cache.store)[cache.prefix + key := value]
    ensures cache.quota == old(cache.quota) + SizeOf(cache.prefix + key, Some(value))
    ensures cache.missed == old(cache.missed) && cache.replaced == old(cache.replaced)
  {
    cache.Set(key, value, 1, now);
  }

  lemma TwoFillers(cache: Cache, k: string, j: string, filler: string)
    requires cache.Valid() && cache.store == map[k := filler][j := filler] && |j| == |k| + 1
    ensures cache.store.Keys == {k, j} && TrueSize(cache.store) == 2 * SizeOf(k, Some(filler)) + 3
    ensures cache.store[k] == cache.store[j] == filler
  {
    TrueSizeOf(cache.store, k);
    assert cache.store - {k} == map[j := filler];
    TrueSizeOf(map[j := filler], j);
    assert map[j := filler] - {j} == map[];
  }

  /** Main result, over every run from an empty cache: each answer is that of the unbounded
      cache, or nothing if there is a bound; the cache is smaller than its bound plus the
      largest entry set, unless the quota falls short, and then by no more than that; the quota
      never falls short as long as no `delete` or `expire` named a key that was not stored
      (`strays`); no key is deleted more often than it was set; and of the keys that go for lack
      of room none was set later than one that stays. */
  method Serve(cache: Cache, requests: seq<Request>)
    returns (answers: seq<Option<string>>, ghost strays: nat, ghost stored: seq<set<string>>)
    requires cache.Valid() && cache.store == map[] && cache.ttl == map[] && cache.reference == map[]
    requires cache.missed == 0 && cache.replaced == 0
    modifies cache
    ensures cache.Valid() && cache.reference == UnboundedRun(cache.prefix, requests)
    ensures |answers| == |requests| && Answered(answers, cache.prefix, cache.maxSizeBytes.Some?, requests)
    ensures cache.Below(Largest(cache.prefix, requests))
    ensures Traced(cache.prefix, requests, answers, stored)
    ensures cache.maxSizeBytes.None? ==> HoldsAll(cache.prefix, requests, stored)
    ensures strays == Strays(cache.prefix, requests, stored) && (strays == 0 ==> cache.missed == 0)
    ensures forall key :: Taken(requests, answers, key) <= Sets(requests, key)
  {
    ProgressAtStart(cache, requests);
    answers, strays, stored := [], 0, [];
    while |answers| < |requests|
      invariant |answers| <= |requests| && Progress(cache, requests, answers, strays)
      invariant Answered(answers, cache.prefix, cache.maxSizeBytes.Some?, requests)
      invariant Accounts(cache.prefix, cache.maxSizeBytes.None?, requests, answers, strays, stored)
      invariant cache.store.Keys == KeysAt(stored, |stored|)
    {
      ghost var before := strays;
      var answer;
      answer, strays := ServeNext(cache, requests, answers, strays);
      AccountsMore(cache.prefix, cache.maxSizeBytes.None?, requests, answers, before, stored, answer, cache.store.Keys);
      stored := stored + [cache.store.Keys];
      answers := answers + [answer];
    }
    WholePrefix(requests);
  }

  /** The state of a cache bounded by 100 in the two runs below. */
  ghost predicate Small(cache: Cache, store: map<string, string>, quota: int, missed: nat, replaced: nat)
    reads cache
  {
    && cache.Valid() && cache.prefix == "" && cache.maxSizeBytes == Some(100) && cache.NoneExpires(0)
    && cache.store == store && cache.quota == quota && cache.missed == missed && cache.replaced == replaced
  }

  method SetSmallEntry(cache: Cache, key: string, ghost store: map<string, string>, ghost quota: int,
                       ghost missed: nat, ghost replaced: nat)
    requires Small(cache, store, quota, missed, replaced) && |key| == 1 && quota < 100
    modifies cache
    ensures Small(cache, store[key := "1"], quota + 52, missed, replaced + Overwritten(store, key))
  {
    assert cache.prefix + key == key;
    cache.Set(key, "1", 1000, 0);
  }

  lemma SmallSize(cache: Cache, store: map<string, string>, quota: int, missed: nat, replaced: nat)
    requires Small(cache, store, quota, missed, replaced)
    ensures TrueSize(cache.store) == quota + missed - replaced
  {
  }

  lemma ThreeEntries()
    ensures Overwritten(map[], "a") == 0 && Overwritten(map["a" := "1"], "b") == 0
    ensures Overwritten(map["a" := "1", "b" := "1"], "c") == 0
    ensures map["a" := "1"]["b" := "1"] == map["a" := "1", "b" := "1"]
    ensures map["a" := "1", "b" := "1"]["c" := "1"] == map["a" := "1", "b" := "1", "c" := "1"]
  {
  }

  /** With a bound of 100, deleting a key that is not stored lets three entries of 52 in. */
  method StrayDeleteBreaksBound() returns (cache: Cache)
    ensures fresh(cache) && Small(cache, map["a" := "1", "b" := "1", "c" := "1"], 101, 55, 0)
    ensures TrueSize(cache.store) == 156 && SizeOf("c", Some("1")) == 52
  {
    cache := new Cache("", Some(100));
    assert "" + "k" == "k";
    var _ := cache.Delete("k");
    ThreeEntries();
    SetSmallEntry(cache, "a", map[], -55, 55, 0);
    SetSmallEntry(cache, "b", map["a" := "1"], -3, 55, 0);
    SetSmallEntry(cache, "c", map["a" := "1", "b" := "1"], 49, 55, 0);
    SmallSize(cache, map["a" := "1", "b" := "1", "c" := "1"], 101, 55, 0);
  }

  /** The other way round: with one entry of 52, set twice, the quota is over the bound. */
  method OverwritingFillsQuota() returns (cache: Cache)
    ensures fresh(cache) && Small(cache, map["a" := "1"], 104, 0, 52) && TrueSize(cache.store) == 52
  {
    cache := new Cache("", Some(100));
    SetSmallEntry(cache, "a", map[], 0, 0, 0);
    SetSmallEntry(cache, "a", map["a" := "1"], 52, 0, 0);
    SmallSize(cache, map["a" := "1"], 104, 0, 52);
  }

  // ---------- Creation order ----------

  function KeysOf(items: seq<(string, int)>): set<string> {
    if items == [] then {} else {items[0].0} + KeysOf(items[1..])
  }

  /** Distinct keys, the first created first. */
  predicate OldestFirst(items: seq<(string, int)>, createdAt: map<string, int>) {
    items == [] ||
    (&& items[0].0 in createdAt && items[0].0 !in KeysOf(items[1..])
     && (forall k :: k in KeysOf(items[1..]) ==> k in createdAt && createdAt[items[0].0] <= createdAt[k])
     && OldestFirst(items[1..], createdAt))
  }

  predicate CreatedBefore(gone: set<string>, kept: set<string>, createdAt: map<string, int>) {
    forall e, k :: e in gone && k in kept ==> e in createdAt && k in createdAt && createdAt[e] <= createdAt[k]
  }

  lemma {:induction false} OldestGoes(gone: set<string>, rest: seq<(string, int)>, createdAt: map<string, int>)
    requires rest != [] && OldestFirst(rest, createdAt) && CreatedBefore(gone, KeysOf(rest), createdAt)
    ensures CreatedBefore(gone + {rest[0].0}, KeysOf(rest[1..]), createdAt)
    ensures OldestFirst(rest[1..], createdAt) && KeysOf(rest[1..]) == KeysOf(rest) - {rest[0].0}
  {
  }

  lemma {:induction false} KeyHasItem(items: seq<(string, int)>, k: string)
    ensures k in KeysOf(items) <==> exists j :: 0 <= j < |items| && items[j].0 == k
  {
    if items != [] {
      KeyHasItem(items[1..], k);
      if k in KeysOf(items[1..]) {
        var j :| 0 <= j < |items[1..]| && items[1..][j].0 == k;
        assert items[j + 1].0 == k;
      }
      if j :| 0 < j < |items| && items[j].0 == k { assert items[1..][j - 1].0 == k; }
    }
  }

  lemma {:induction false} OrderIsOldestFirst(items: seq<(string, int)>, createdAt: map<string, int>)
    requires forall a, b :: 0 <= a < b < |items| ==> items[a].0 != items[b].0
    requires forall a, b :: 0 <= a < b < |items| ==> items[a].1 <= items[b].1
    requires forall a :: 0 <= a < |items| ==> items[a].0 in createdAt && createdAt[items[a].0] == items[a].1
    ensures OldestFirst(items, createdAt)
  {
    if items != [] {
      var rest := items[1..];
      assert forall a :: 0 <= a < |rest| ==> rest[a] == items[a + 1];
      forall k | k in KeysOf(rest) ensures k in createdAt && k != items[0].0 && createdAt[items[0].0] <= createdAt[k] {
        KeyHasItem(rest, k);
        var j :| 0 <= j < |rest| && rest[j].0 == k;
        assert items[j + 1].0 == k;
      }
      OrderIsOldestFirst(rest, createdAt);
    }
  }

  /** The sorted items are the same items, in order of creation. */
  lemma {:induction false} SortedItems(items: seq<(string, int)>, sorted: seq<(string, int)>, createdAt: map<string,
                                       int>)
    requires sorted == SortBy(items, ByCreation(), false)
    requires forall x :: x in items <==> x.0 in createdAt && createdAt[x.0] == x.1
    requires forall a, b :: 0 <= a < b < |items| ==> items[a].0 != items[b].0
    ensures OldestFirst(sorted, createdAt) && KeysOf(sorted) == createdAt.Keys
  {
    SortElements(items, ByCreation(), false);
    PermutationKeepsDistinct(items, sorted, (x: (string, int)) => x.0);
    SortedByCreation(items);
    forall x ensures x in sorted <==> x in items { SameElements(sorted, items, x); }
    forall a | 0 <= a < |sorted| ensures sorted[a].0 in createdAt && createdAt[sorted[a].0] == sorted[a].1 {
      assert sorted[a] in sorted;
    }
    OrderIsOldestFirst(sorted, createdAt);
    forall k ensures k in KeysOf(sorted) <==> k in createdAt {
      KeyHasItem(sorted, k);
      if k in createdAt {
        assert (k, createdAt[k]) in sorted;
        var a :| 0 <= a < |sorted| && sorted[a] == (k, createdAt[k]);
        assert sorted[a].0 == k;
      }
    }
  }

  lemma {:induction false} SortedByCreation(items: seq<(string, int)>)
    ensures var sorted := SortBy(items, ByCreation(), false);
            forall a, b :: 0 <= a < b < |sorted| ==> sorted[a].1 <= sorted[b].1
  {
    var keys := [SortKey(ByCreation(), false)];
    var sorted := SortBy(items, ByCreation(), false);
    assert Ordered(items, []);
    assert keys[1..] == [];
    SortByOrdered(items, keys);
    forall a, b | 0 <= a < b < |sorted| ensures sorted[a].1 <= sorted[b].1 {
      assert !KeyLess(sorted[b], sorted[a], keys);
      assert !Before(keys[0].key, keys[0].desc, sorted[b], sorted[a]);
    }
  }
}
