/**
The local cache of a coroutine: an ordered dictionary with a size limit and an optional expiration time.
A call looks its key up, and after a miss stores the computed value in a later step.
*/
module Caching {
  import opened Wrappers

  datatype Entry<+V> = Entry(value: V, expire: Option<real>)

  /** `order` and `entries` together are the ordered dictionary, oldest key first. */
  datatype Cache<K(==), V> = Cache(order: seq<K>, entries: map<K, Entry<V>>)

  // ----- The code -------------------------------------------------------------------------------

  function Without<K(==)>(keys: seq<K>, key: K): seq<K> {
    if keys == [] then []
    else (if keys[0] == key then [] else [keys[0]]) + Without(keys[1..], key)
  }

  /** An expiration time of exactly zero counts as none, because the code tests its truth value. */
  predicate Expired<V>(entry: Entry<V>, now: real) {
    entry.expire.Some? && entry.expire.value != 0.0 && entry.expire.value < now
  }

  /** The part of a call before the computation: a hit moves the key to the end, an expired entry is
      deleted. */
  function Lookup<K, V>(c: Cache<K, V>, key: K, now: real): (Option<V>, Cache<K, V>) {
    if key !in c.entries then (None, c)
    else if Expired(c.entries[key], now) then (None, Cache(Without(c.order, key), c.entries - {key}))
    else (Some(c.entries[key].value), c.(order := Without(c.order, key) + [key]))
  }

  /** `next_expire_time`. */
  function ExpireTime(expiration: Option<real>, now: real): Option<real> {
    match expiration
    case None => None
    case Some(seconds) => Some(now + seconds)
  }

  /** The part after it: an existing key keeps its place, then the oldest key goes if there are too many. */
  function Store<K, V>(c: Cache<K, V>, limit: nat, key: K, value: V, expire: Option<real>): Cache<K, V> {
    var order := if key in c.entries then c.order else c.order + [key];
    var entries := c.entries[key := Entry(value, expire)];
    if |order| > limit then Cache(order[1..], entries - {order[0]}) else Cache(order, entries)
  }

  function Empty<K, V>(): Cache<K, V> {
    Cache([], map[])
  }

  /** A look-up past the expiration time of an entry hits if and only if that time is exactly zero. */
  lemma PastExpiryHitsIff<K, V>(c: Cache<K, V>, key: K, now: real)
    requires key in c.entries && c.entries[key].expire.Some? && c.entries[key].expire.value < now
    ensures Lookup(c, key, now).0.Some? <==> c.entries[key].expire.value == 0.0
  {
  }

  /** What is computed at time zero, to be kept for no time at all, is kept for ever. */
  lemma ZeroExpiryIsKept<K, V>(limit: nat, key: K, value: V, now: real)
    requires limit > 0
    ensures Lookup(Store(Empty(), limit, key, value, ExpireTime(Some(0.0), 0.0)), key, now).0 == Some(value)
  {
  }

  // ----- The ordered dictionary -----------------------------------------------------------------

  ghost predicate Distinct<K>(keys: seq<K>) {
    forall i, j | 0 <= i < j < |keys| :: keys[i] != keys[j]
  }

  ghost function Elements<K>(keys: seq<K>): set<K> {
    set k | k in keys
  }

  ghost predicate Ordered<K, V>(c: Cache<K, V>) {
    Distinct(c.order) && Elements(c.order) == c.entries.Keys
  }

  lemma {:induction false} WithoutKeepsRest<K>(keys: seq<K>, key: K)
    ensures forall k :: k in Without(keys, key) <==> k in keys && k != key
    ensures Distinct(keys) ==> Distinct(Without(keys, key))
    ensures key !in keys ==> Without(keys, key) == keys
    ensures Distinct(keys) && key in keys ==> |Without(keys, key)| == |keys| - 1
  {
    if keys != [] {
      WithoutKeepsRest(keys[1..], key);
      var rest := Without(keys[1..], key);
      if Distinct(keys) {
        assert keys[0] !in keys[1..];
        assert forall i, j | 0 <= i < j < |keys| - 1 :: keys[1..][i] != keys[1..][j];
      }
    }
  }

  lemma {:induction false} WithoutConcat<K>(a: seq<K>, b: seq<K>, key: K)
    ensures Without(a + b, key) == Without(a, key) + Without(b, key)
  {
    if a == [] {
      assert a + b == b;
    } else {
      assert (a + b)[1..] == a[1..] + b;
      WithoutConcat(a[1..], b, key);
    }
  }

  lemma {:induction false} DistinctCardinality<K>(keys: seq<K>)
    requires Distinct(keys)
    ensures |Elements(keys)| == |keys|
  {
    if keys != [] {
      var n := |keys| - 1;
      DistinctCardinality(keys[..n]);
      assert keys[n] !in Elements(keys[..n]);
      assert Elements(keys) == Elements(keys[..n]) + {keys[n]};
    }
  }

  lemma LookupKeepsOrder<K, V>(c: Cache<K, V>, key: K, now: real)
    requires Ordered(c)
    ensures Ordered(Lookup(c, key, now).1) && |Lookup(c, key, now).1.order| <= |c.order|
  {
    WithoutKeepsRest(c.order, key);
    var d := Lookup(c, key, now).1;
    if key in c.entries {
      assert key in Elements(c.order);
      forall k ensures k in d.order <==> k in d.entries.Keys {
        assert k in c.order <==> k in Elements(c.order);
      }
      SameElements(d.order, d.entries.Keys);
    }
  }

  lemma SameElements<K>(keys: seq<K>, all: set<K>)
    requires forall k :: k in keys <==> k in all
    ensures Elements(keys) == all
  {
  }

  lemma StoreKeepsOrder<K, V>(c: Cache<K, V>, limit: nat, key: K, value: V, expire: Option<real>)
    requires Ordered(c) && |c.order| <= limit
    ensures var d := Store(c, limit, key, value, expire); Ordered(d) && |d.order| <= limit
    ensures var d := Store(c, limit, key, value, expire);
            forall k <- d.entries :: d.entries[k] == (if k == key then Entry(value, expire) else c.entries[k])
  {
    var order := if key in c.entries then c.order else c.order + [key];
    var d := Store(c, limit, key, value, expire);
    forall k ensures k in order <==> k in c.entries.Keys + {key} {
      assert k in c.order <==> k in Elements(c.order);
    }
    assert key !in c.entries ==> key !in Elements(c.order);
    if |order| > limit {
      assert order == [order[0]] + order[1..];
      assert order[0] !in order[1..];
      forall k ensures k in order[1..] <==> k in d.entries.Keys {
        assert k in order <==> k == order[0] || k in order[1..];
      }
      SameElements(order[1..], d.entries.Keys);
    } else {
      SameElements(order, d.entries.Keys);
    }
  }

  // ----- Calls that do not overlap: the cache is the recency list -------------------------------

  datatype Use<K> = Call(key: K, now: real, later: real) | Clear

  /** A whole call of a function with the given value: lookup, and after a miss computation and store. */
  function Use1<K, V>(c: Cache<K, V>, limit: nat, expiration: Option<real>, value: V, key: K, now: real, later: real)
    : (V, Cache<K, V>)
  {
    var (hit, d) := Lookup(c, key, now);
    match hit
    case Some(v) => (v, d)
    case None => (value, Store(d, limit, key, value, ExpireTime(expiration, later)))
  }

  /** The reference: the distinct keys of a history in the order of their latest use. */
  ghost function Recency<K>(history: seq<K>): seq<K> {
    if history == [] then []
    else
      var n := |history| - 1;
      Without(Recency(history[..n]), history[n]) + [history[n]]
  }

  ghost function LastN<K>(keys: seq<K>, n: nat): seq<K> {
    if |keys| <= n then keys else keys[|keys| - n..]
  }

  /** A key is among the `n` most recent exactly when it was used and fewer than `n` different keys have
      been used since its latest use. */
  lemma {:induction false} RecencySplit<K>(history: seq<K>, i: nat) returns (older: seq<K>, newer: seq<K>)
    requires i < |history| && history[i] !in history[i + 1..]
    ensures Recency(history) == older + [history[i]] + newer
    ensures Elements(newer) == Elements(history[i + 1..]) && Distinct(newer)
    ensures history[i] !in newer && history[i] !in older
    decreases |history|
  {
    var n := |history| - 1;
    var last := history[n];
    if i == n {
      older, newer := Without(Recency(history[..n]), last), [];
      WithoutKeepsRest(Recency(history[..n]), last);
      assert older + [last] + [] == older + [last];
    } else {
      var key := history[i];
      assert history[i + 1..] == history[..n][i + 1..] + [last];
      assert history[i + 1..][n - i - 1] == last;
      var older0, newer0 := RecencySplit(history[..n], i);
      older, newer := Without(older0, last), Without(newer0, last) + [last];
      SplitAfterUse(older0, key, newer0, last);
      ElementsAfterUse(history[..n][i + 1..], last);
    }
  }

  /** A later use of another key. */
  lemma SplitAfterUse<K>(older: seq<K>, key: K, newer: seq<K>, last: K)
    requires key !in older && key !in newer && key != last && Distinct(newer)
    ensures Without(older + [key] + newer, last) + [last] ==
            Without(older, last) + [key] + (Without(newer, last) + [last])
    ensures key !in Without(older, last)
    ensures var later := Without(newer, last) + [last];
            key !in later && Distinct(later) && Elements(later) == Elements(newer) + {last}
  {
    WithoutConcat(older + [key], newer, last);
    WithoutConcat(older, [key], last);
    assert Without([key], last) == [key] + Without([], last) == [key];
    WithoutKeepsRest(older, last);
    MovedToEnd(newer, last);
  }

  lemma MovedToEnd<K>(keys: seq<K>, last: K)
    requires Distinct(keys)
    ensures var moved := Without(keys, last) + [last];
            && Distinct(moved) && Elements(moved) == Elements(keys) + {last}
            && forall k :: k in moved <==> k in keys || k == last
  {
    var moved := Without(keys, last) + [last];
    WithoutKeepsRest(keys, last);
    assert moved[|moved| - 1] == last;
    forall k ensures k in moved <==> k in keys || k == last {
    }
    SameElements(moved, Elements(keys) + {last});
  }

  lemma ElementsAfterUse<K>(keys: seq<K>, last: K)
    ensures Elements(keys + [last]) == Elements(keys) + {last}
  {
    assert (keys + [last])[|keys|] == last;
    assert forall k :: k in keys + [last] <==> k in keys || k == last;
  }

  lemma RecencyMeansFewSince<K>(history: seq<K>, n: nat, i: nat)
    requires i < |history| && history[i] !in history[i + 1..]
    ensures history[i] in LastN(Recency(history), n) <==> |Elements(history[i + 1..])| < n
  {
    var older, newer := RecencySplit(history, i);
    DistinctCardinality(newer);
    AmongLast(older, history[i], newer, n);
  }

  lemma AmongLast<K>(older: seq<K>, key: K, newer: seq<K>, n: nat)
    requires key !in older && key !in newer
    ensures key in LastN(older + [key] + newer, n) <==> |newer| < n
  {
    var all := older + [key] + newer;
    assert all[|older|] == key;
    assert forall j | 0 <= j < |all| && j != |older| :: all[j] != key;
    if |newer| < n && |all| > n {
      assert all[|all| - n..][|older| - (|all| - n)] == key;
    }
  }

  /** The effect of a call on the order of the keys, whether it hits, misses or finds an expired entry. */
  lemma CallMovesToEnd<K, V>(c: Cache<K, V>, limit: nat, expiration: Option<real>, value: V, key: K, now: real,
                             later: real)
    requires Ordered(c) && |c.order| <= limit
    ensures var d := Use1(c, limit, expiration, value, key, now, later).1;
            && Ordered(d) && |d.order| <= limit
            && d.order == LastN(Without(c.order, key) + [key], limit)
  {
    WithoutKeepsRest(c.order, key);
    LookupKeepsOrder(c, key, now);
    var (hit, d) := Lookup(c, key, now);
    if key in c.entries {
      assert key in Elements(c.order);
    }
    if hit.None? {
      StoreKeepsOrder(d, limit, key, value, ExpireTime(expiration, later));
    }
  }

  lemma LastOfConcat<K>(a: seq<K>, b: seq<K>, n: nat)
    requires |b| >= n
    ensures LastN(a + b, n) == LastN(b, n)
  {
    if |b| > n {
      assert (a + b)[|a + b| - n..] == b[|b| - n..];
    } else {
      assert |a + b| > n ==> (a + b)[|a + b| - n..] == b;
      assert |a + b| <= n ==> a + b == b;
    }
  }

  lemma DistinctPart<K>(keys: seq<K>, i: nat)
    requires Distinct(keys) && i <= |keys|
    ensures Distinct(keys[i..])
  {
  }

  /** Keeping only the `limit` most recent keys does not lose anything that later uses need. */
  lemma TrimmedRecency<K>(recent: seq<K>, limit: nat, key: K)
    requires Distinct(recent)
    ensures LastN(Without(LastN(recent, limit), key) + [key], limit) == LastN(Without(recent, key) + [key], limit)
  {
    if |recent| > limit {
      var cut := |recent| - limit;
      var dropped, kept := recent[..cut], recent[cut..];
      DistinctPart(recent, cut);
      assert recent == dropped + kept;
      WithoutConcat(dropped, kept, key);
      WithoutKeepsRest(kept, key);
      assert Without(recent, key) + [key] == Without(dropped, key) + (Without(kept, key) + [key]);
      LastOfConcat(Without(dropped, key), Without(kept, key) + [key], limit);
    }
  }

  lemma {:induction false} RecencyDistinct<K>(history: seq<K>)
    ensures Distinct(Recency(history))
  {
    if history != [] {
      var n := |history| - 1;
      RecencyDistinct(history[..n]);
      WithoutKeepsRest(Recency(history[..n]), history[n]);
    }
  }

  /** The keys used since the last clear. */
  ghost function History<K>(uses: seq<Use<K>>): seq<K> {
    if uses == [] then []
    else
      var n := |uses| - 1;
      match uses[n]
      case Clear => []
      case Call(key, _, _) => History(uses[..n]) + [key]
  }

  /** The state after calls of the function `f`, one after the other. */
  ghost function After<K, V>(limit: nat, expiration: Option<real>, f: K -> V, uses: seq<Use<K>>): Cache<K, V> {
    if uses == [] then Empty()
    else
      var n := |uses| - 1;
      match uses[n]
      case Clear => Empty()
      case Call(key, now, later) =>
        Use1(After(limit, expiration, f, uses[..n]), limit, expiration, f(key), key, now, later).1
  }

  ghost predicate Holds<K, V>(c: Cache<K, V>, f: K -> V) {
    forall k <- c.entries :: c.entries[k].value == f(k)
  }

  /** The cache refines the recency list: after any calls that do not overlap it holds exactly the last
      `limit` distinct keys in the order of their latest use since the last clear, an expired entry
      counting as a use like any other, and every call returns the value of the function. */
  lemma {:induction false} CacheIsRecencyList<K, V>(limit: nat, expiration: Option<real>, f: K -> V, uses: seq<Use<K>>)
    ensures var c := After(limit, expiration, f, uses);
            && Ordered(c)
            && c.order == LastN(Recency(History(uses)), limit)
            && |c.order| <= limit
            && Holds(c, f)
    decreases |uses|
  {
    if uses != [] {
      var n := |uses| - 1;
      CacheIsRecencyList(limit, expiration, f, uses[..n]);
      if uses[n].Call? {
        var Call(key, now, later) := uses[n];
        var c, history := After(limit, expiration, f, uses[..n]), History(uses[..n]);
        CallMovesToEnd(c, limit, expiration, f(key), key, now, later);
        RecencyDistinct(history);
        TrimmedRecency(Recency(history), limit, key);
        assert (history + [key])[..|history|] == history;
        CallReturnsFunction(c, limit, expiration, f, key, now, later);
      }
    }
  }

  lemma CallReturnsFunction<K, V>(c: Cache<K, V>, limit: nat, expiration: Option<real>,
                                  f: K -> V, key: K, now: real, later: real)
    requires Ordered(c) && |c.order| <= limit && Holds(c, f)
    ensures var (value, d) := Use1(c, limit, expiration, f(key), key, now, later); value == f(key) && Holds(d, f)
  {
    LookupKeepsOrder(c, key, now);
    var (hit, d) := Lookup(c, key, now);
    if hit.None? {
      StoreKeepsOrder(d, limit, key, f(key), ExpireTime(expiration, later));
    }
  }

  /** The key was used, and fewer than `n` other keys were used since its latest use. */
  ghost predicate UsedRecently<K>(history: seq<K>, n: nat, key: K) {
    exists i :: 0 <= i < |history| && RecentAt(history, n, key, i)
  }

  ghost predicate RecentAt<K>(history: seq<K>, n: nat, key: K, i: nat)
    requires i < |history|
  {
    LatestAt(history, key, i) && |Elements(history[i + 1..])| < n
  }

  ghost predicate LatestAt<K>(history: seq<K>, key: K, i: nat)
    requires i < |history|
  {
    history[i] == key && forall j | i < j < |history| :: history[j] != key
  }

  lemma LatestIsSplit<K>(history: seq<K>, n: nat, key: K, i: nat)
    requires i < |history| && LatestAt(history, key, i)
    ensures key in LastN(Recency(history), n) <==> RecentAt(history, n, key, i)
  {
    assert key !in history[i + 1..];
    RecencyMeansFewSince(history, n, i);
  }

  lemma LatestIsUnique<K>(history: seq<K>, key: K, i: nat, j: nat)
    requires i < |history| && j < |history| && LatestAt(history, key, i) && LatestAt(history, key, j)
    ensures i == j
  {
  }

  lemma UnusedIsNotHeld<K>(history: seq<K>, n: nat, key: K)
    requires key !in history
    ensures key !in LastN(Recency(history), n)
  {
    RecencyKeys(history);
    assert forall k | k in LastN(Recency(history), n) :: k in Recency(history);
  }

  lemma RecencyIsRecentUse<K>(history: seq<K>, n: nat, key: K)
    ensures key in LastN(Recency(history), n) <==> UsedRecently(history, n, key)
  {
    if key in history {
      var i := LatestUse(history, key);
      LatestIsSplit(history, n, key, i);
      if UsedRecently(history, n, key) {
        var j :| 0 <= j < |history| && RecentAt(history, n, key, j);
        LatestIsUnique(history, key, i, j);
      }
    } else {
      UnusedIsNotHeld(history, n, key);
    }
  }

  /** In terms of the calls alone: a key is held if and only if fewer than `limit` other keys were used since
      its latest use. */
  lemma HeldKeysAreRecent<K, V>(limit: nat, expiration: Option<real>, f: K -> V, uses: seq<Use<K>>, key: K)
    ensures key in After(limit, expiration, f, uses).entries <==> UsedRecently(History(uses), limit, key)
  {
    CacheIsRecencyList(limit, expiration, f, uses);
    RecencyIsRecentUse(History(uses), limit, key);
    var c := After(limit, expiration, f, uses);
    assert key in c.entries <==> key in Elements(c.order);
  }

  lemma {:induction false} LatestUse<K>(history: seq<K>, key: K) returns (i: nat)
    requires key in history
    ensures i < |history| && LatestAt(history, key, i)
  {
    var n := |history| - 1;
    if history[n] == key {
      i := n;
    } else {
      i := LatestUse(history[..n], key);
      forall j | i < j < |history| ensures history[j] != key {
        assert j < n ==> history[..n][j] != key;
      }
    }
  }

  lemma {:induction false} RecencyKeys<K>(history: seq<K>)
    ensures forall k :: k in Recency(history) <==> k in history
  {
    if history != [] {
      var n := |history| - 1;
      RecencyKeys(history[..n]);
      WithoutKeepsRest(Recency(history[..n]), history[n]);
      assert forall k :: k in history <==> k in history[..n] || k == history[n];
    }
  }

  // ----- Which calls are answered without a computation -----------------------------------------

  /** What was computed at that time may still be used. */
  predicate StillGood(expiration: Option<real>, at: real, now: real) {
    match expiration
    case None => true
    case Some(seconds) => now - at <= seconds || at + seconds == 0.0
  }

  /** The end of the latest call of the key that was not answered without a computation. */
  ghost function LatestComputation<K>(limit: nat, expiration: Option<real>, uses: seq<Use<K>>, key: K): Option<real>
    decreases |uses|, 0
  {
    if uses == [] then None
    else
      var n := |uses| - 1;
      if uses[n].Call? && uses[n].key == key && !IsAnswered(limit, expiration, uses[..n], key, uses[n].now)
      then Some(uses[n].later)
      else LatestComputation(limit, expiration, uses[..n], key)
  }

  /** Fewer than `limit` other keys were used since the latest use of the key, and the latest computation for it
      is still good. */
  ghost predicate IsAnswered<K>(limit: nat, expiration: Option<real>, uses: seq<Use<K>>, key: K, now: real)
    decreases |uses|, 1
  {
    && UsedRecently(History(uses), limit, key)
    && match LatestComputation(limit, expiration, uses, key)
       case None => false
       case Some(at) => StillGood(expiration, at, now)
  }

  /** Every held key has the expiration time of the latest computation for it. */
  ghost predicate Dated<K, V>(limit: nat, expiration: Option<real>, uses: seq<Use<K>>, c: Cache<K, V>) {
    forall k <- c.entries :: DatedAt(limit, expiration, uses, k, c.entries[k])
  }

  ghost predicate DatedAt<K, V>(limit: nat, expiration: Option<real>, uses: seq<Use<K>>, key: K, entry: Entry<V>) {
    match LatestComputation(limit, expiration, uses, key)
    case None => false
    case Some(at) => entry.expire == ExpireTime(expiration, at)
  }

  lemma AnsweredByEntry<K, V>(limit: nat, expiration: Option<real>, f: K -> V, uses: seq<Use<K>>, key: K, now: real)
    requires Dated(limit, expiration, uses, After(limit, expiration, f, uses))
    ensures Lookup(After(limit, expiration, f, uses), key, now).0 ==
            if IsAnswered(limit, expiration, uses, key, now) then Some(f(key)) else None
  {
    var c := After(limit, expiration, f, uses);
    CacheIsRecencyList(limit, expiration, f, uses);
    HeldKeysAreRecent(limit, expiration, f, uses, key);
    if key in c.entries {
      assert DatedAt(limit, expiration, uses, key, c.entries[key]);
    }
  }

  lemma {:induction false} EntriesAreDated<K, V>(limit: nat, expiration: Option<real>, f: K -> V, uses: seq<Use<K>>)
    ensures Dated(limit, expiration, uses, After(limit, expiration, f, uses))
    decreases |uses|
  {
    if uses != [] {
      var n := |uses| - 1;
      EntriesAreDated(limit, expiration, f, uses[..n]);
      if uses[n].Call? {
        DatedAfterCall(limit, expiration, f, uses);
      }
    }
  }

  lemma DatedAfterCall<K, V>(limit: nat, expiration: Option<real>, f: K -> V, uses: seq<Use<K>>)
    requires uses != [] && uses[|uses| - 1].Call?
    requires var before := uses[..|uses| - 1]; Dated(limit, expiration, before, After(limit, expiration, f, before))
    ensures Dated(limit, expiration, uses, After(limit, expiration, f, uses))
  {
    var n := |uses| - 1;
    var Call(key, now, later) := uses[n];
    var before, c := After(limit, expiration, f, uses[..n]), After(limit, expiration, f, uses);
    AnsweredByEntry(limit, expiration, f, uses[..n], key, now);
    CacheIsRecencyList(limit, expiration, f, uses[..n]);
    CallKeepsEntries(before, limit, expiration, f(key), key, now, later);
    forall k | k in c.entries ensures DatedAt(limit, expiration, uses, k, c.entries[k]) {
      assert k in before.entries ==> DatedAt(limit, expiration, uses[..n], k, before.entries[k]);
    }
  }

  /** The entries after a call: those before it, and that of its key if it was computed. */
  lemma CallKeepsEntries<K, V>(c: Cache<K, V>, limit: nat, expiration: Option<real>, value: V, key: K, now: real,
                               later: real)
    requires Ordered(c) && |c.order| <= limit
    ensures var d := Use1(c, limit, expiration, value, key, now, later).1;
            forall k <- d.entries ::
              if k == key && Lookup(c, key, now).0.None?
              then d.entries[k] == Entry(value, ExpireTime(expiration, later))
              else k in c.entries && d.entries[k] == c.entries[k]
  {
    LookupKeepsOrder(c, key, now);
    var (hit, d) := Lookup(c, key, now);
    if hit.None? {
      StoreKeepsOrder(d, limit, key, value, ExpireTime(expiration, later));
    }
  }

  /** Over any calls that do not overlap: the next call is answered without a computation, and with the value
      of the function, if and only if fewer than `limit` other keys were used since the latest use of its
      key, and there is no expiration, or the latest computation for the key ended at most that long ago, or
      the sum is exactly zero. */
  lemma CallHitsIff<K, V>(limit: nat, expiration: Option<real>, f: K -> V, uses: seq<Use<K>>, key: K, now: real)
    ensures Lookup(After(limit, expiration, f, uses), key, now).0 ==
            if IsAnswered(limit, expiration, uses, key, now) then Some(f(key)) else None
  {
    EntriesAreDated(limit, expiration, f, uses);
    AnsweredByEntry(limit, expiration, f, uses, key, now);
  }

  // ----- Calls that overlap ---------------------------------------------------------------------

  /** A completed computation, and a lookup that was answered from the cache after `known` computations. */
  datatype Computed<K, V> = Computed(key: K, value: V, at: real)
  datatype Hit<K, V> = Hit(key: K, value: V, at: real, known: nat)

  /** `running` are the calls between their lookup and their store. */
  datatype Shared<K(==), V> = Shared(
    cache: Cache<K, V>,
    running: map<nat, K>,
    computed: seq<Computed<K, V>>,
    hits: seq<Hit<K, V>>)

  datatype Action<K, V> =
    | Start(call: nat, key: K, now: real)
    | Complete(call: nat, value: V, now: real)
    | Fail(call: nat)
    | ClearAll

  function SharedStep<K, V>(s: Shared<K, V>, limit: nat, expiration: Option<real>, a: Action<K, V>): Shared<K, V> {
    match a
    case Start(call, key, now) =>
      var (hit, cache) := Lookup(s.cache, key, now);
      if hit.Some? then s.(cache := cache, hits := s.hits + [Hit(key, hit.value, now, |s.computed|)])
      else s.(cache := cache, running := s.running[call := key])
    case Complete(call, value, now) =>
      if call !in s.running then s
      else
        var key := s.running[call];
        s.(cache := Store(s.cache, limit, key, value, ExpireTime(expiration, now)),
           running := s.running - {call}, computed := s.computed + [Computed(key, value, now)])
    case Fail(call) => s.(running := s.running - {call})
    case ClearAll => s.(cache := Empty())
  }

  ghost function AfterAll<K, V>(limit: nat, expiration: Option<real>, actions: seq<Action<K, V>>): Shared<K, V> {
    if actions == [] then Shared(Empty(), map[], [], [])
    else
      var n := |actions| - 1;
      SharedStep(AfterAll(limit, expiration, actions[..n]), limit, expiration, actions[n])
  }

  /** The latest computation for the key produced the entry. */
  ghost predicate Backed<K, V>(computed: seq<Computed<K, V>>, expiration: Option<real>, key: K, entry: Entry<V>) {
    exists i :: 0 <= i < |computed| && BackedBy(computed, expiration, key, entry, i)
  }

  ghost predicate BackedBy<K, V>(computed: seq<Computed<K, V>>, expiration: Option<real>, key: K, entry: Entry<V>,
                                 i: nat)
    requires i < |computed|
  {
    && computed[i].key == key && computed[i].value == entry.value
    && entry.expire == ExpireTime(expiration, computed[i].at)
    && forall j | i < j < |computed| :: computed[j].key != key
  }

  /** The latest computation for the key before the lookup, not longer ago than the expiration time, produced
      the value.  The one exception is an expiration time of exactly zero. */
  ghost predicate Justified<K, V>(computed: seq<Computed<K, V>>, expiration: Option<real>, hit: Hit<K, V>) {
    exists i :: 0 <= i < hit.known <= |computed| && JustifiedBy(computed, expiration, hit, i)
  }

  ghost predicate JustifiedBy<K, V>(computed: seq<Computed<K, V>>, expiration: Option<real>, hit: Hit<K, V>, i: nat)
    requires i < hit.known <= |computed|
  {
    && computed[i].key == hit.key && computed[i].value == hit.value
    && (forall j | i < j < hit.known :: computed[j].key != hit.key)
    && (expiration.Some? ==>
          hit.at <= computed[i].at + expiration.value || computed[i].at + expiration.value == 0.0)
  }

  ghost predicate SharedInv<K, V>(s: Shared<K, V>, limit: nat, expiration: Option<real>) {
    && Ordered(s.cache) && |s.cache.order| <= limit
    && (forall k <- s.cache.entries :: Backed(s.computed, expiration, k, s.cache.entries[k]))
    && (forall h | 0 <= h < |s.hits| :: Justified(s.computed, expiration, s.hits[h]))
  }

  lemma StartKeepsInv<K, V>(s: Shared<K, V>, limit: nat, expiration: Option<real>, call: nat, key: K, now: real)
    requires SharedInv(s, limit, expiration)
    ensures SharedInv(SharedStep(s, limit, expiration, Start(call, key, now)), limit, expiration)
  {
    LookupKeepsOrder(s.cache, key, now);
    var u := SharedStep(s, limit, expiration, Start(call, key, now));
    forall k | k in u.cache.entries ensures Backed(u.computed, expiration, k, u.cache.entries[k]) {
      assert Backed(s.computed, expiration, k, s.cache.entries[k]);
    }
    if |u.hits| > |s.hits| {
      var entry := s.cache.entries[key];
      var i :| 0 <= i < |s.computed| && BackedBy(s.computed, expiration, key, entry, i);
      assert JustifiedBy(u.computed, expiration, u.hits[|s.hits|], i);
    }
  }

  lemma CompleteKeepsInv<K, V>(s: Shared<K, V>, limit: nat, expiration: Option<real>, call: nat, value: V, now: real)
    requires SharedInv(s, limit, expiration) && call in s.running
    ensures SharedInv(SharedStep(s, limit, expiration, Complete(call, value, now)), limit, expiration)
  {
    var key := s.running[call];
    var u := SharedStep(s, limit, expiration, Complete(call, value, now));
    StoreKeepsOrder(s.cache, limit, key, value, ExpireTime(expiration, now));
    forall k | k in u.cache.entries ensures Backed(u.computed, expiration, k, u.cache.entries[k]) {
      if k == key {
        assert BackedBy(u.computed, expiration, k, u.cache.entries[k], |s.computed|);
      } else {
        assert Backed(s.computed, expiration, k, s.cache.entries[k]);
        var i :| 0 <= i < |s.computed| && BackedBy(s.computed, expiration, k, s.cache.entries[k], i);
        assert BackedBy(u.computed, expiration, k, u.cache.entries[k], i);
      }
    }
    forall h | 0 <= h < |s.hits| ensures Justified(u.computed, expiration, s.hits[h]) {
      assert Justified(s.computed, expiration, s.hits[h]);
      var i :| 0 <= i < s.hits[h].known <= |s.computed| && JustifiedBy(s.computed, expiration, s.hits[h], i);
      assert JustifiedBy(u.computed, expiration, s.hits[h], i);
    }
  }

  /** However calls overlap, fail or meet a clear: between steps the size limit holds, and every hit gave a
      value computed for its key by a call that had completed, no longer ago than the expiration time. */
  lemma {:induction false} SharedCacheIsSound<K, V>(limit: nat, expiration: Option<real>, actions: seq<Action<K, V>>)
    ensures SharedInv(AfterAll(limit, expiration, actions), limit, expiration)
    decreases |actions|
  {
    if actions != [] {
      var n := |actions| - 1;
      SharedCacheIsSound(limit, expiration, actions[..n]);
      var s := AfterAll(limit, expiration, actions[..n]);
      match actions[n] {
        case Start(call, key, now) => StartKeepsInv(s, limit, expiration, call, key, now);
        case Complete(call, value, now) =>
          if call in s.running {
            CompleteKeepsInv(s, limit, expiration, call, value, now);
          }
        case Fail(call) =>
        case ClearAll =>
      }
    }
  }

  /** However calls overlap: a call is answered from the cache, which makes its key the latest, if and only if the
      key is held and its expiration time is absent, zero or not past.  Otherwise it starts a computation,
      and an entry that is past its time is gone. */
  lemma SharedCallHitsIff<K, V>(s: Shared<K, V>, limit: nat, expiration: Option<real>, call: nat, key: K, now: real)
    requires Ordered(s.cache)
    ensures var u := SharedStep(s, limit, expiration, Start(call, key, now));
            if key in s.cache.entries
               && match s.cache.entries[key].expire case None => true case Some(at) => at == 0.0 || now <= at
            then
              && u.hits == s.hits + [Hit(key, s.cache.entries[key].value, now, |s.computed|)]
              && u.running == s.running && u.computed == s.computed
              && u.cache.entries == s.cache.entries && u.cache.order == Without(s.cache.order, key) + [key]
            else
              && u.hits == s.hits && u.running == s.running[call := key] && u.computed == s.computed
              && u.cache.entries == s.cache.entries - {key} && u.cache.order == Without(s.cache.order, key)
  {
    WithoutKeepsRest(s.cache.order, key);
    assert key in s.cache.order <==> key in Elements(s.cache.order);
  }

  /** A computation that completes is stored under the key it was started for; one that fails leaves the cache as it
      is; both are over then, and a clear ends none. */
  lemma SharedCallEnds<K, V>(s: Shared<K, V>, limit: nat, expiration: Option<real>, call: nat, value: V, now: real)
    ensures call in s.running ==>
              var u, key := SharedStep(s, limit, expiration, Complete(call, value, now)), s.running[call];
              && call !in u.running && u.running.Keys + {call} == s.running.Keys && u.hits == s.hits
              && u.computed == s.computed + [Computed(key, value, now)]
              && (key in u.cache.entries ==>
                    u.cache.entries[key].value == value && u.cache.entries[key].expire == ExpireTime(expiration, now))
    ensures var u := SharedStep(s, limit, expiration, Fail(call));
            && call !in u.running && u.cache == s.cache && u.computed == s.computed && u.hits == s.hits
    ensures var u := SharedStep(s, limit, expiration, ClearAll);
            && u.cache.order == [] && u.cache.entries == map[] && u.running == s.running
  {
  }

  /** A store gives the key its new entry, keeps the place of a key that is there, appends one that is not, and
      removes at most the oldest key. */
  lemma StoreEffect<K, V>(c: Cache<K, V>, limit: nat, key: K, value: V, expire: Option<real>)
    requires Ordered(c) && |c.order| <= limit
    ensures var d := Store(c, limit, key, value, expire);
            && (key in c.entries ==> d.order == c.order)
            && (key !in c.entries && |c.order| < limit ==> d.order == c.order + [key])
            && (key !in c.entries && |c.order| == limit ==> d.order == (c.order + [key])[1..])
            && (key in d.entries ==> d.entries[key] == Entry(value, expire))
  {
    StoreKeepsOrder(c, limit, key, value, expire);
  }

  // ----- The object -----------------------------------------------------------------------------

  class LocalCache<K(==), V> {
    const limit: nat
    const expiration: Option<real>
    var order: seq<K>
    var entries: map<K, Entry<V>>

    ghost function Contents(): Cache<K, V>
      reads this
    {
      Cache(order, entries)
    }

    ghost predicate Valid()
      reads this
    {
      Ordered(Contents()) && |order| <= limit
    }

    constructor (limit: nat, expiration: Option<real>)
      ensures Valid() && Contents() == Empty() && this.limit == limit && this.expiration == expiration
    {
      this.limit, this.expiration := limit, expiration;
      order, entries := [], map[];
    }

    /** `__call__` up to the computation. */
    method Find(key: K, now: real) returns (hit: Option<V>)
      requires Valid()
      modifies this
      ensures Valid() && (hit, Contents()) == Lookup(old(Contents()), key, now)
    {
      LookupKeepsOrder(Contents(), key, now);
      if key in entries {
        if Expired(entries[key], now) {
          order := Without(order, key);
          entries := entries - {key};
        } else {
          order := Without(order, key) + [key];
          return Some(entries[key].value);
        }
      }
      return None;
    }

    /** `__call__` from the end of the computation on. */
    method Keep(key: K, value: V, now: real)
      requires Valid()
      modifies this
      ensures Valid() && Contents() == Store(old(Contents()), limit, key, value, ExpireTime(expiration, now))
    {
      StoreKeepsOrder(Contents(), limit, key, value, ExpireTime(expiration, now));
      if key !in entries {
        order := order + [key];
      }
      entries := entries[key := Entry(value, ExpireTime(expiration, now))];
      if |order| > limit {
        entries := entries - {order[0]};
        order := order[1..];
      }
    }

    /** `clear_cache`. */
    method ClearCache()
      modifies this
      ensures Valid() && Contents() == Empty()
    {
      order, entries := [], map[];
    }
  }
}
