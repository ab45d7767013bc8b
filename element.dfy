/**
 * The stored unit of the older storage iteration (element/element.go) and its
 * time-to-live predicate. Go's fixed-width integers are modelled explicitly:
 * `int64` and `uint64` are subset types of `int`, and the wrap-around of Go's
 * integer arithmetic and conversions is written out.
 */
module Element {

  const TWO_63: int := 0x8000_0000_0000_0000
  const TWO_64: int := 0x1_0000_0000_0000_0000

  type int64 = x: int | -TWO_63 <= x < TWO_63
  type uint64 = x: int | 0 <= x < TWO_64

  /** Go's two's-complement wrap of a mathematical result into `int64`. */
  function Int64Wrap(x: int): (r: int64)
    ensures (r - x) % TWO_64 == 0
    ensures -TWO_63 <= x < TWO_63 ==> r == x
  {
    var m := x % TWO_64;
    if m < TWO_63 then m else m - TWO_64
  }

  /** Go's conversion `uint64(x)` of an `int64` value: the same bits read as unsigned. */
  function ToUint64(x: int64): (r: uint64)
    ensures (r - x) % TWO_64 == 0
  {
    if x >= 0 then x else x + TWO_64
  }

  /** element.Element: a value, the Unix second of its last write, and the "updated" flag. */
  datatype Element = Element(val: string, timestamp: int64, updated: bool)

  /**
   * IsTTLOver: whether an element stamped `timestamp` is due for removal at Unix
   * second `now` (Go reads the clock itself; here the clock is a parameter).
   * A TTL of zero makes every element stale; otherwise the age `now - timestamp`,
   * computed in int64 and reinterpreted as uint64, is compared with the TTL, so a
   * timestamp in the future reads as a huge age.
   */
  function IsTTLOver(e: Element, ttl: uint64, now: int64): (over: bool)
    ensures ttl == 0 ==> over
    ensures ttl >= 1 && e.timestamp <= now ==> (over <==> now - e.timestamp >= ttl)
    ensures ttl >= 1 && now < e.timestamp ==> (over <==> now - e.timestamp + TWO_64 >= ttl)
  {
    if ttl < 1 then true
    else
      var res := Int64Wrap(now - e.timestamp);
      ToUint64(res) >= ttl
  }

  /**
   * An element stamped up to 2^63 seconds in the future counts as expired for
   * every TTL up to 2^63: its wrapped age is at least 2^63.
   */
  lemma FutureTimestampIsOver(e: Element, ttl: uint64, now: int64)
    requires now < e.timestamp <= now + TWO_63 && ttl <= TWO_63
    ensures IsTTLOver(e, ttl, now)
  {
  }

  /** The cases of the element table test, for any clock value far enough from the int64 limits. */
  lemma TableCases(now: int64)
    requires -TWO_63 + 100 <= now < TWO_63 - 100
    ensures IsTTLOver(Element("test1", now, false), 0, now)
    ensures IsTTLOver(Element("test2", now - 100, false), 1, now)
    ensures !IsTTLOver(Element("test3", now, false), 1, now)
    ensures IsTTLOver(Element("test4", now - 100, false), 10, now)
    ensures IsTTLOver(Element("test5", now + 100, false), 10, now)
  {
  }

  /** IsTTLOver is monotone in the clock while the element's age stays non-negative. */
  lemma OverStaysOver(e: Element, ttl: uint64, now: int64, later: int64)
    requires e.timestamp <= now <= later
    requires IsTTLOver(e, ttl, now)
    ensures IsTTLOver(e, ttl, later)
  {
  }
}
