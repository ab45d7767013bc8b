/**
 * The eviction helper of vacuum/vacuum.go. It belongs to an older iteration of
 * the store: a cleaner `Lifo` holds its own queue of keys (fed by Set through a
 * channel) and asks the storage, whose elements are element.Element values,
 * whether a key is present, was updated, or has outlived its TTL.
 *
 * The unbounded `select` loop of Run is left out; its guard and the two
 * per-iteration helpers, cleanUp and getSleepPeriod, are modelled. Clocks are
 * parameters: `now` is a Unix second for the TTL test and a nanosecond instant
 * for the sleep computation, as in the source.
 */
module Vacuum {
  import opened Element

  const NS_PER_SEC: int := 1_000_000_000
  const MAX_INT64: int := TWO_63 - 1

  /** The older storage the cleaner is attached to: key to element. */
  class Storage {
    var elements: map<string, Element>

    constructor (elements: map<string, Element>)
      ensures this.elements == elements
    {
      this.elements := elements;
    }
  }

  /** The channel of written keys; only whether it is nil matters to the modelled code. */
  class KeyChannel {
    constructor ()
    {
    }
  }

  // Queries of the older storage, with only the meaning their call sites rely on.

  /** Whether the key has an element. */
  function IsInStorage(m: map<string, Element>, key: string): (b: bool)
    ensures b <==> key in m
  {
    key in m
  }

  /** Whether the key has an element that was rewritten since it was queued. */
  function IsElemUpdated(m: map<string, Element>, key: string): (b: bool)
    ensures b ==> IsInStorage(m, key)
    ensures IsInStorage(m, key) ==> (b <==> m[key].updated)
  {
    key in m && m[key].updated
  }

  /** Clears the key's Updated flag; value, timestamp and every other key are kept. */
  function ResetUpdated(m: map<string, Element>, key: string): (r: map<string, Element>)
    ensures r.Keys == m.Keys && !IsElemUpdated(r, key)
    ensures key in m ==> r[key].val == m[key].val && r[key].timestamp == m[key].timestamp
    ensures forall k :: k in m && k != key ==> r[k] == m[k]
  {
    if key in m then m[key := m[key].(updated := false)] else m
  }

  /** Whether the key has an element whose TTL is over at `now`. */
  function IsElemTTLOver(m: map<string, Element>, key: string, ttl: uint64, now: int64): (b: bool)
    ensures b ==> IsInStorage(m, key)
    ensures IsInStorage(m, key) ==> (b <==> IsTTLOver(m[key], ttl, now))
  {
    key in m && IsTTLOver(m[key], ttl, now)
  }

  /** The Unix second of a key's last write, 0 for a key that is not stored. */
  function GetTimestamp(m: map<string, Element>, key: string): (t: int64)
    ensures !IsInStorage(m, key) ==> t == 0
    ensures IsInStorage(m, key) ==> t == m[key].timestamp
  {
    if key in m then m[key].timestamp else 0
  }

  function Min(a: int, b: int): int {
    if a <= b then a else b
  }

  /**
   * The nanosecond instant at which an element stamped `unixTime` expires: the
   * TTL in nanoseconds is computed in uint64 and read as a Duration (int64), so
   * it is exact below 2^63 ns and otherwise lands within 2^63 ns of the stamp.
   */
  function ExpireTime(unixTime: int64, ttl: uint64): (t: int)
    ensures ttl * NS_PER_SEC < TWO_63 ==> t == unixTime * NS_PER_SEC + ttl * NS_PER_SEC
    ensures unixTime * NS_PER_SEC - TWO_63 <= t < unixTime * NS_PER_SEC + TWO_63
    ensures (t - unixTime * NS_PER_SEC - ttl * NS_PER_SEC) % TWO_64 == 0
  {
    unixTime * NS_PER_SEC + Int64Wrap(ttl * NS_PER_SEC)
  }

  /**
   * getSleepPeriod: how long the cleaner waits before its next pass, in
   * nanoseconds. An empty queue gives ttl / ttlDelim; a front key whose
   * timestamp reads as 0 (not stored, or stamped at Unix second 0), or one
   * already past its expiry instant, gives 0; otherwise the
   * remaining time to expiry divided by ttlDelim, at least one nanosecond.
   */
  function GetSleepPeriod(ttl: uint64, ttlDelim: nat, queue: seq<string>,
                          elements: map<string, Element>, now: int): (d: int)
    requires ttlDelim >= 1
    ensures d >= 0
    ensures queue == [] ==> d * ttlDelim <= ttl * NS_PER_SEC < (d + 1) * ttlDelim
    ensures queue != [] && GetTimestamp(elements, queue[0]) == 0 ==> d == 0
    ensures queue != [] && GetTimestamp(elements, queue[0]) != 0 ==>
      var expire := ExpireTime(GetTimestamp(elements, queue[0]), ttl);
      && (expire < now ==> d == 0)
      && (now <= expire ==> 1 <= d && (d == 1 || d * ttlDelim <= expire - now))
      && (now <= expire <= now + MAX_INT64 ==> expire - now < (d + 1) * ttlDelim)
  {
    if queue == [] then
      DivBounds(ttl * NS_PER_SEC, ttlDelim);
      ttl * NS_PER_SEC / ttlDelim
    else
      var elemUnixTime := GetTimestamp(elements, queue[0]);
      if elemUnixTime == 0 then
        0
      else
        var elemExpireTime := ExpireTime(elemUnixTime, ttl);
        if elemExpireTime < now then
          0
        else
          SleepFor(elemExpireTime - now, ttlDelim)
  }

  /**
   * The sleep for a front key `remaining` nanoseconds from expiry: the
   * duration, capped at the largest time.Duration, divided by the divisor and
   * raised to at least 1 ns.
   */
  function SleepFor(remaining: nat, ttlDelim: nat): (d: int)
    requires ttlDelim >= 1
    ensures 1 <= d && (d == 1 || d * ttlDelim <= remaining)
    ensures remaining <= MAX_INT64 ==> remaining < (d + 1) * ttlDelim
  {
    DivBounds(Min(remaining, MAX_INT64), ttlDelim);
    var sleepDuration := Min(remaining, MAX_INT64) / ttlDelim;
    if sleepDuration < 1 then 1 else sleepDuration
  }

  /** Euclidean division of a non-negative duration by a positive divisor. */
  lemma DivBounds(x: nat, k: nat)
    requires k >= 1
    ensures 0 <= x / k && (x / k) * k <= x < (x / k + 1) * k
  {
  }

  /** With a divisor of at least 1 the cleaner never sleeps past the front key's expiry (nor less than 1 ns). */
  lemma SleepEndsByExpiry(ttl: uint64, ttlDelim: nat, queue: seq<string>,
                          elements: map<string, Element>, now: int)
    requires ttlDelim >= 1 && queue != [] && GetTimestamp(elements, queue[0]) != 0
    requires now < ExpireTime(GetTimestamp(elements, queue[0]), ttl)
    ensures now + GetSleepPeriod(ttl, ttlDelim, queue, elements, now)
      <= ExpireTime(GetTimestamp(elements, queue[0]), ttl)
  {
    var d := GetSleepPeriod(ttl, ttlDelim, queue, elements, now);
    if d != 1 {
      MulMonotone(d, ttlDelim);
    }
  }

  lemma MulMonotone(d: nat, k: nat)
    requires k >= 1
    ensures d <= d * k
  {
    assert d * k == d + d * (k - 1);
  }

  /**
   * An element written 30 s before a whole-second `now`, with a TTL of 60 s and
   * the divisor 2, makes the cleaner sleep exactly 15 s.
   */
  lemma HalfOfRemainingTime(key: string, e: Element, now: int)
    requires e.timestamp != 0 && now == (e.timestamp + 30) * NS_PER_SEC
    ensures GetSleepPeriod(60, 2, [key], map[key := e], now) == 15 * NS_PER_SEC
  {
    assert ExpireTime(e.timestamp, 60) == now + 30 * NS_PER_SEC;
  }

  /** Lifo: the cleaner's configuration and its queue of keys. */
  class Lifo {
    var storage: Storage?
    var queue: seq<string>
    var inpElemChan: KeyChannel?
    var ttl: uint64
    var ttlDelim: nat

    /** The zero value `Lifo{}`. */
    constructor ()
      ensures storage == null && queue == [] && inpElemChan == null
      ensures ttl == 0 && ttlDelim == 0
    {
      storage := null;
      queue := [];
      inpElemChan := null;
      ttl := 0;
      ttlDelim := 0;
    }

    /**
     * Init accepts a non-nil storage and channel and a positive TTL, stores
     * them, empties the queue and fixes the divisor at 2; otherwise it refuses
     * and assigns nothing.
     */
    method Init(stor: Storage?, inp: KeyChannel?, ttl: uint64) returns (ok: bool)
      modifies this
      ensures ok <==> inp != null && stor != null && ttl != 0
      ensures !ok ==> && storage == old(storage) && queue == old(queue)
                      && inpElemChan == old(inpElemChan)
                      && this.ttl == old(this.ttl) && ttlDelim == old(ttlDelim)
      ensures ok ==> && storage == stor && inpElemChan == inp && queue == []
                     && this.ttl == ttl && ttlDelim == 2
    {
      if inp == null || stor == null || ttl == 0 {
        return false;
      }
      storage := stor;
      inpElemChan := inp;
      queue := [];
      this.ttl := ttl;
      ttlDelim := 2;
      return true;
    }

    /**
     * The guard of Run: an unconfigured cleaner returns at once and touches
     * nothing; a configured one enters the endless loop (`looping`), which is
     * not part of this model.
     */
    method Run() returns (looping: bool)
      ensures looping <==> inpElemChan != null && storage != null && ttl != 0
    {
      if inpElemChan == null || storage == null || ttl == 0 {
        return false;
      }
      return true;
    }

    /**
     * cleanUp on the front node: a key gone from storage loses its node; an
     * updated key loses its node and its Updated flag; any other key is removed
     * from storage and queue exactly when its TTL is over.
     */
    method CleanUp(now: int64)
      requires storage != null && queue != []
      modifies this`queue, storage`elements
      ensures var key, m := old(queue[0]), old(storage.elements);
        && (key !in m ==> queue == old(queue[1..]) && storage.elements == m)
        && (key in m && m[key].updated ==>
              queue == old(queue[1..]) && storage.elements == m[key := m[key].(updated := false)])
        && (key in m && !m[key].updated && IsTTLOver(m[key], ttl, now) ==>
              queue == old(queue[1..]) && storage.elements == m - {key})
        && (key in m && !m[key].updated && !IsTTLOver(m[key], ttl, now) ==>
              queue == old(queue) && storage.elements == m)
    {
      var key := queue[0];
      if !IsInStorage(storage.elements, key) {
        queue := queue[1..];
        return;
      }
      if IsElemUpdated(storage.elements, key) {
        queue := queue[1..];
        storage.elements := ResetUpdated(storage.elements, key);
      } else {
        if IsElemTTLOver(storage.elements, key, ttl, now) {
          storage.elements := storage.elements - {key};
          queue := queue[1..];
        }
      }
    }
  }
}
