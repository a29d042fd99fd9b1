/**
 * The spot cache of backend/src/cache.rs: a map from callsign to the latest
 * `Spot` heard for it, with a retention of 1800 seconds and a size bound
 * enforced by evicting the oldest timestamps first.
 *
 * The wall clock becomes an explicit `now` (seconds since the Unix epoch),
 * and the iteration order of the `HashMap`, which the source leaves to the
 * hasher, becomes an explicit enumeration `order` of the map's keys: it
 * decides the order of `get_spots`' result and which of several spots
 * with equal timestamps is evicted first.
 */
module SpotCache {
  import opened Wrappers

  type I32 = x: int | -0x8000_0000 <= x < 0x8000_0000
  /** An `f64` that is only ever copied, kept as its IEEE-754 bit pattern. */
  type F64 = bv64

  /** `retention: Duration::from_secs(1800)`, in seconds. */
  const Retention: nat := 1800

  datatype Spot = Spot(
    callsign: string,
    frequency: F64,
    mode: string,
    spotter: string,
    timestamp: U64,
    grid: Option<string>,
    snr: Option<I32>)

  /** `SpotCache`; its lock is not modelled. */
  datatype Cache = Cache(spots: map<string, Spot>, maxSize: U64)

  /** `SpotCache::new`. */
  function New(maxSize: U64): (c: Cache)
    ensures c.spots == map[] && c.maxSize == maxSize
  {
    Cache(map[], maxSize)
  }

  /** `u64::saturating_sub`. */
  function SaturatingSub(a: U64, b: U64): (r: U64)
    ensures a >= b ==> r + b == a
    ensures a < b ==> r == 0
  {
    if a >= b then a - b else 0
  }

  /**
   * `is_active`: the spot's age, clamped at zero, is under the retention.
   * A spot stamped in the future is therefore active.
   */
  predicate IsActive(spot: Spot, now: U64)
  {
    SaturatingSub(now, spot.timestamp) < Retention
  }

  /** Activity without the saturating subtraction: `now` is before the expiry instant. */
  lemma IsActiveIffBeforeExpiry(spot: Spot, now: U64)
    ensures IsActive(spot, now) <==> now < spot.timestamp + Retention
    ensures now <= spot.timestamp ==> IsActive(spot, now)
  {
  }

  /** The spots of `m` that have not expired at `now`. */
  function Live(m: map<string, Spot>, now: U64): (live: map<string, Spot>)
    ensures forall k :: k in live <==> k in m && IsActive(m[k], now)
    ensures forall k :: k in live ==> live[k] == m[k]
  {
    map k | k in m && IsActive(m[k], now) :: m[k]
  }

  // ---------------------------------------------------------------------
  // Sequences of keys

  /** No key occurs twice in `s`. */
  predicate Distinct(s: seq<string>) {
    forall k :: k in s ==> multiset(s)[k] == 1
  }

  function SetOf(s: seq<string>): set<string> {
    set k | k in s
  }

  /** `order` visits every key of `keys` exactly once: a hash map's iteration. */
  predicate Enumerates(order: seq<string>, keys: set<string>) {
    Distinct(order) && SetOf(order) == keys
  }

  /** Dropping the head of a repetition-free sequence keeps it so, and the head is not repeated. */
  lemma DistinctTail(s: seq<string>)
    requires Distinct(s) && s != []
    ensures Distinct(s[1..]) && s[0] !in s[1..]
  {
    var t := s[1..];
    assert s == [s[0]] + t;
    assert multiset(s) == multiset{s[0]} + multiset(t);
    forall x | x in t ensures multiset(t)[x] == 1 {
      assert x in multiset(t);
      assert x in s;
    }
    assert s[0] in s;
    assert multiset(t)[s[0]] == 0;
  }

  /** A prefix of a repetition-free sequence is repetition-free. */
  lemma DistinctPrefix(s: seq<string>, n: nat)
    requires Distinct(s) && n <= |s|
    ensures Distinct(s[..n])
  {
    var p := s[..n];
    assert s == p + s[n..];
    assert multiset(s) == multiset(p) + multiset(s[n..]);
    forall x | x in p ensures multiset(p)[x] == 1 {
      assert x in multiset(p);
      assert x in s;
    }
  }

  /** A repetition-free sequence has as many elements as its set. */
  lemma {:induction false} DistinctCardinality(s: seq<string>)
    requires Distinct(s)
    ensures |SetOf(s)| == |s|
    decreases |s|
  {
    if s != [] {
      var t := s[1..];
      DistinctTail(s);
      DistinctCardinality(t);
      assert SetOf(s) == SetOf(t) + {s[0]};
      assert s[0] !in SetOf(t);
    }
  }

  /** The keys of `order` that `keep` contains, in `order`'s order. */
  function FilterKeys(order: seq<string>, keep: map<string, Spot>): (r: seq<string>)
    ensures forall k :: k in r <==> k in order && k in keep
    ensures multiset(r) <= multiset(order)
    ensures Distinct(order) ==> Distinct(r)
    decreases |order|
  {
    if order == [] then []
    else
      assert order == [order[0]] + order[1..];
      if order[0] in keep then [order[0]] + FilterKeys(order[1..], keep)
    else FilterKeys(order[1..], keep)
  }

  // ---------------------------------------------------------------------
  // `sort_by_key` on timestamps

  /** `ks` is ordered by non-decreasing `key`. */
  predicate SortedBy<K>(ks: seq<K>, key: K -> int) {
    forall i, j :: 0 <= i < j < |ks| ==> key(ks[i]) <= key(ks[j])
  }

  /** Putting an element no greater than all of a sorted sequence in front keeps it sorted. */
  lemma SortedCons<K>(x: K, ks: seq<K>, key: K -> int)
    requires SortedBy(ks, key)
    requires forall y :: y in ks ==> key(x) <= key(y)
    ensures SortedBy([x] + ks, key)
  {
    var r := [x] + ks;
    forall i, j | 0 <= i < j < |r| ensures key(r[i]) <= key(r[j]) {
      assert r[j] == ks[j - 1];
      if i > 0 {
        assert r[i] == ks[i - 1];
      } else {
        assert r[j] in ks;
      }
    }
  }

  /** The head of a sorted sequence is least, and its tail is sorted. */
  lemma SortedHeadIsLeast<K>(ks: seq<K>, key: K -> int)
    requires SortedBy(ks, key) && ks != []
    ensures forall y :: y in ks ==> key(ks[0]) <= key(y)
    ensures SortedBy(ks[1..], key)
  {
    forall y | y in ks ensures key(ks[0]) <= key(y) {
      var j :| 0 <= j < |ks| && ks[j] == y;
      assert j == 0 || key(ks[0]) <= key(ks[j]);
    }
  }

  /** Inserts `k` before the first element whose key is not smaller. */
  function InsertBy<K>(k: K, ks: seq<K>, key: K -> int): (r: seq<K>)
    requires SortedBy(ks, key)
    ensures SortedBy(r, key)
    ensures multiset(r) == multiset(ks) + multiset{k}
    ensures forall y :: y in r ==> y == k || y in ks
    decreases |ks|
  {
    if ks == [] then [k]
    else
      SortedHeadIsLeast(ks, key);
      if key(k) <= key(ks[0]) then
        SortedCons(k, ks, key);
        [k] + ks
      else
        var rest := InsertBy(k, ks[1..], key);
        SortedCons(ks[0], rest, key);
        assert ks == [ks[0]] + ks[1..];
        [ks[0]] + rest
  }

  /**
   * A stable insertion sort by `key`: Rust's `sort_by_key`, which the
   * source applies to `(key, timestamp)` pairs.
   */
  function SortBy<K>(ks: seq<K>, key: K -> int): (r: seq<K>)
    ensures SortedBy(r, key)
    ensures multiset(r) == multiset(ks)
    decreases |ks|
  {
    if ks == [] then []
    else
      assert ks == [ks[0]] + ks[1..];
      InsertBy(ks[0], SortBy(ks[1..], key), key)
  }

  /** The timestamp of each spot of `live`, by key. */
  function Stamp(live: map<string, Spot>): (key: string -> int)
    ensures forall k :: k in live ==> key(k) == live[k].timestamp
  {
    (k: string) => if k in live then live[k].timestamp else 0
  }

  // ---------------------------------------------------------------------
  // cleanup

  /** A permutation of an enumeration of `keys` enumerates `keys` too. */
  lemma PermutedEnumeration(order: seq<string>, sorted: seq<string>, keys: set<string>)
    requires Enumerates(order, keys) && multiset(sorted) == multiset(order)
    ensures Enumerates(sorted, keys) && |sorted| == |keys|
  {
    forall k ensures k in sorted <==> k in order {
      assert k in sorted <==> k in multiset(sorted);
      assert k in order <==> k in multiset(order);
    }
    assert SetOf(sorted) == keys;
    assert |sorted| == |multiset(sorted)| == |multiset(order)| == |order|;
    DistinctCardinality(order);
  }

  /**
   * Removing the first `n` keys of a timestamp-sorted enumeration of `live`
   * removes exactly `n` spots, none younger than a spot that stays.
   */
  lemma RemoveSortedPrefix(live: map<string, Spot>, sorted: seq<string>, n: nat)
    requires Enumerates(sorted, live.Keys) && n <= |sorted|
    requires SortedBy(sorted, Stamp(live))
    ensures |live - SetOf(sorted[..n])| == |live| - n
    ensures forall x, y :: x in live && x !in live - SetOf(sorted[..n]) && y in live - SetOf(sorted[..n]) ==>
      live[x].timestamp <= live[y].timestamp
  {
    var key := Stamp(live);
    var victims := SetOf(sorted[..n]);
    var r := live - victims;
    DistinctPrefix(sorted, n);
    DistinctCardinality(sorted[..n]);
    assert victims <= live.Keys;
    assert r.Keys == live.Keys - victims;
    assert live.Keys == r.Keys + victims;
    assert r.Keys !! victims;
    DistinctCardinality(sorted);
    forall x, y | x in live && x !in r && y in r
      ensures live[x].timestamp <= live[y].timestamp
    {
      PrefixBeforeRest(sorted, key, n, x, y);
    }
  }

  /** In a sorted sequence, an element of the first `n` has a key no larger than one outside them. */
  lemma PrefixBeforeRest<K>(s: seq<K>, key: K -> int, n: nat, x: K, y: K)
    requires SortedBy(s, key) && n <= |s|
    requires x in s[..n] && y in s && y !in s[..n]
    ensures key(x) <= key(y)
  {
    var p := s[..n];
    var i :| 0 <= i < |p| && p[i] == x;
    var j :| 0 <= j < |s| && s[j] == y;
    assert s[i] == x;
  }

  /**
   * The size-limit half of `cleanup`: when `live` holds more than
   * `maxSize` spots, remove the first `len - maxSize` keys of the
   * timestamp-sorted enumeration.
   */
  function EvictOldest(live: map<string, Spot>, maxSize: U64, order: seq<string>): (r: map<string, Spot>)
    requires Enumerates(order, live.Keys)
    ensures forall k :: k in r ==> k in live && r[k] == live[k]
    ensures |live| <= maxSize ==> r == live
    ensures |live| > maxSize ==> |r| == maxSize
    ensures forall x, y :: x in live && x !in r && y in r ==> live[x].timestamp <= live[y].timestamp
  {
    if |live| <= maxSize then live
    else
      var sorted := SortBy(order, Stamp(live));
      PermutedEnumeration(order, sorted, live.Keys);
      var n := |live| - maxSize;
      RemoveSortedPrefix(live, sorted, n);
      live - SetOf(sorted[..n])
  }

  /**
   * `cleanup`: drop every expired spot, then enforce the size limit.
   * `order` is the map's iteration order.
   */
  function Cleanup(m: map<string, Spot>, now: U64, maxSize: U64, order: seq<string>): (r: map<string, Spot>)
    requires Enumerates(order, m.Keys)
    ensures forall k :: k in r ==> k in m && r[k] == m[k]
    ensures forall k :: k in r ==> IsActive(r[k], now)
    ensures |r| <= maxSize
    ensures |Live(m, now)| <= maxSize ==> r == Live(m, now)
    ensures |Live(m, now)| > maxSize ==> |r| == maxSize
    ensures forall k :: k in m && IsActive(m[k], now) && k !in r ==>
      forall y :: y in r ==> m[k].timestamp <= r[y].timestamp
  {
    var live := Live(m, now);
    var liveOrder := FilterKeys(order, live);
    assert SetOf(liveOrder) == live.Keys;
    EvictOldest(live, maxSize, liveOrder)
  }

  // ---------------------------------------------------------------------
  // add_spot and get_spots

  /** Keys are the callsigns of their spots, as `add_spot` keeps them. */
  ghost predicate WellKeyed(c: Cache) {
    forall k :: k in c.spots ==> c.spots[k].callsign == k
  }

  /**
   * `add_spot`: `cleanup` under the write lock, then insert or replace by
   * callsign.
   */
  function AddSpot(c: Cache, spot: Spot, now: U64, order: seq<string>): (r: Cache)
    requires Enumerates(order, c.spots.Keys)
    ensures r.maxSize == c.maxSize
    ensures spot.callsign in r.spots && r.spots[spot.callsign] == spot
    ensures forall k :: k in r.spots && k != spot.callsign ==>
      k in c.spots && r.spots[k] == c.spots[k] && IsActive(r.spots[k], now)
    ensures |r.spots| <= c.maxSize + 1
    ensures WellKeyed(c) ==> WellKeyed(r)
  {
    c.(spots := Put(Cleanup(c.spots, now, c.maxSize, order), spot))
  }

  /** The `insert` of `add_spot`: store `spot` under its callsign, replacing any previous one. */
  function Put(m: map<string, Spot>, spot: Spot): (r: map<string, Spot>)
    ensures spot.callsign in r && r[spot.callsign] == spot
    ensures forall k :: k in r && k != spot.callsign <==> k in m && k != spot.callsign
    ensures forall k :: k in m && k != spot.callsign ==> r[k] == m[k]
    ensures |r| <= |m| + 1
  {
    var r := m[spot.callsign := spot];
    assert r.Keys == m.Keys + {spot.callsign};
    assert |r.Keys| <= |m.Keys| + |{spot.callsign}|;
    r
  }

  /** A live spot is lost to `add_spot` only if it is no newer than every spot that was kept. */
  lemma AddSpotEvictsOldest(c: Cache, spot: Spot, now: U64, order: seq<string>)
    requires Enumerates(order, c.spots.Keys)
    ensures var r := AddSpot(c, spot, now, order).spots;
      forall k, y :: k in c.spots && IsActive(c.spots[k], now) && k !in r && y in r && y != spot.callsign ==>
        c.spots[k].timestamp <= r[y].timestamp
  {
    var kept := Cleanup(c.spots, now, c.maxSize, order);
    var r := AddSpot(c, spot, now, order).spots;
    assert forall y :: y in r && y != spot.callsign ==> y in kept && r[y] == kept[y];
  }

  /** While the live spots fit, `add_spot` keeps every one of them. */
  lemma AddSpotKeepsLiveWhenRoom(c: Cache, spot: Spot, now: U64, order: seq<string>)
    requires Enumerates(order, c.spots.Keys)
    requires |Live(c.spots, now)| <= c.maxSize
    ensures forall k :: k in c.spots && IsActive(c.spots[k], now) ==> k in AddSpot(c, spot, now, order).spots
  {
    var kept := Cleanup(c.spots, now, c.maxSize, order);
    assert kept == Live(c.spots, now);
  }

  /** The values of `m` under the keys `ks`, in that order. */
  function Values(ks: seq<string>, m: map<string, Spot>): (r: seq<Spot>)
    requires forall i :: 0 <= i < |ks| ==> ks[i] in m
    ensures |r| == |ks|
    decreases |ks|
  {
    if ks == [] then [] else [m[ks[0]]] + Values(ks[1..], m)
  }

  /** The `filter(is_active)` of `get_spots`. */
  function ActiveOnly(spots: seq<Spot>, now: U64): (r: seq<Spot>)
    ensures forall s :: s in r ==> s in spots && IsActive(s, now)
    decreases |spots|
  {
    if spots == [] then []
    else if IsActive(spots[0], now) then [spots[0]] + ActiveOnly(spots[1..], now)
    else ActiveOnly(spots[1..], now)
  }

  /**
   * The keys under which `m` holds `v`. Its size is how often `v` occurs
   * among the map's values, whatever order they are visited in.
   */
  ghost function KeysHolding(m: map<string, Spot>, v: Spot): set<string> {
    set k | k in m && m[k] == v
  }

  /** Looking values up in a map without a key the sequence never mentions changes nothing. */
  lemma {:induction false} ValuesIgnoreOtherKeys(ks: seq<string>, m: map<string, Spot>, k: string)
    requires forall i :: 0 <= i < |ks| ==> ks[i] in m
    requires k !in ks
    ensures Values(ks, m) == Values(ks, m - {k})
    decreases |ks|
  {
    if ks != [] {
      ValuesIgnoreOtherKeys(ks[1..], m, k);
    }
  }

  /** Taking one key out of a map takes its spot, if live, out of the live spots. */
  lemma LiveWithout(m: map<string, Spot>, k: string, now: U64)
    requires k in m
    ensures |Live(m, now)| == |Live(m - {k}, now)| + (if IsActive(m[k], now) then 1 else 0)
  {
    var live := Live(m, now);
    var live' := Live(m - {k}, now);
    if IsActive(m[k], now) {
      assert live.Keys == live'.Keys + {k};
      assert k !in live'.Keys;
    } else {
      assert live.Keys == live'.Keys;
    }
  }

  /** Taking one key out of a map takes it, if it holds `v`, out of the keys holding `v`. */
  lemma HoldingWithout(m: map<string, Spot>, k: string, v: Spot)
    requires k in m
    ensures |KeysHolding(m, v)| == |KeysHolding(m - {k}, v)| + (if m[k] == v then 1 else 0)
  {
    var holding := KeysHolding(m, v);
    var holding' := KeysHolding(m - {k}, v);
    if m[k] == v {
      assert holding == holding' + {k};
      assert k !in holding';
    } else {
      assert holding == holding';
    }
  }

  /** Filtering the values of an enumeration of `m` keeps one spot per live key. */
  lemma {:induction false} ActiveValuesSize(order: seq<string>, m: map<string, Spot>, now: U64)
    requires Enumerates(order, m.Keys)
    ensures |ActiveOnly(Values(order, m), now)| == |Live(m, now)|
    decreases |order|
  {
    if order == [] {
      assert Live(m, now) == map[];
    } else {
      var k := order[0];
      var rest := order[1..];
      var m' := m - {k};
      DistinctTail(order);
      assert SetOf(rest) == m'.Keys;
      ActiveValuesSize(rest, m', now);
      ValuesIgnoreOtherKeys(rest, m, k);
      var vs := Values(order, m);
      assert vs[0] == m[k] && vs[1..] == Values(rest, m');
      LiveWithout(m, k, now);
    }
  }

  /**
   * Filtering the values of an enumeration of `m` keeps one copy of an
   * active spot per key holding it, and no copy of an expired one.
   */
  lemma {:induction false} ActiveValuesCount(order: seq<string>, m: map<string, Spot>, now: U64, v: Spot)
    requires Enumerates(order, m.Keys)
    ensures multiset(ActiveOnly(Values(order, m), now))[v] == if IsActive(v, now) then |KeysHolding(m, v)| else 0
    decreases |order|
  {
    if order == [] {
      assert KeysHolding(m, v) == {};
    } else {
      var k := order[0];
      var rest := order[1..];
      var m' := m - {k};
      DistinctTail(order);
      assert SetOf(rest) == m'.Keys;
      ActiveValuesCount(rest, m', now, v);
      ValuesIgnoreOtherKeys(rest, m, k);
      var vs := Values(order, m);
      assert vs[0] == m[k] && vs[1..] == Values(rest, m');
      HoldingWithout(m, k, v);
    }
  }

  /** In a well-keyed map a spot is held by at most one key: its callsign. */
  lemma HeldAtMostOnce(c: Cache, v: Spot)
    requires WellKeyed(c)
    ensures |KeysHolding(c.spots, v)| <= 1
  {
    var holding := KeysHolding(c.spots, v);
    if v.callsign in holding {
      assert holding == {v.callsign};
    } else {
      assert holding == {};
    }
  }

  /**
   * `get_spots`: the active spots, read without changing the cache, in the
   * map's iteration order: an active spot occurs as often as keys hold it
   * and an expired one not at all, so the result is exactly the multiset
   * of live values.
   */
  function GetSpots(c: Cache, now: U64, order: seq<string>): (r: seq<Spot>)
    requires Enumerates(order, c.spots.Keys)
    ensures forall s :: s in r ==> IsActive(s, now)
    ensures forall v :: multiset(r)[v] == if IsActive(v, now) then |KeysHolding(c.spots, v)| else 0
    ensures |r| == |Live(c.spots, now)|
    ensures WellKeyed(c) ==> forall v :: multiset(r)[v] <= 1
  {
    var r := ActiveOnly(Values(order, c.spots), now);
    assert forall v :: multiset(r)[v] == if IsActive(v, now) then |KeysHolding(c.spots, v)| else 0 by {
      forall v ensures multiset(r)[v] == if IsActive(v, now) then |KeysHolding(c.spots, v)| else 0 {
        ActiveValuesCount(order, c.spots, now, v);
      }
    }
    assert WellKeyed(c) ==> forall v :: |KeysHolding(c.spots, v)| <= 1 by {
      if WellKeyed(c) {
        forall v ensures |KeysHolding(c.spots, v)| <= 1 {
          HeldAtMostOnce(c, v);
        }
      }
    }
    ActiveValuesSize(order, c.spots, now);
    r
  }

  /** Inserting and then reading back: a fresh spot is among the spots served afterwards. */
  lemma AddedSpotIsServed(c: Cache, spot: Spot, now: U64, order: seq<string>, order': seq<string>)
    requires Enumerates(order, c.spots.Keys)
    requires Enumerates(order', AddSpot(c, spot, now, order).spots.Keys)
    requires IsActive(spot, now)
    ensures spot in GetSpots(AddSpot(c, spot, now, order), now, order')
  {
    var r := AddSpot(c, spot, now, order);
    assert spot.callsign in KeysHolding(r.spots, spot);
    var out := GetSpots(r, now, order');
    assert multiset(out)[spot] >= 1;
  }
}
