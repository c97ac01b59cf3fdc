/** Option, Result and Outcome datatypes, Go's int64 arithmetic and the string helpers the ledger uses. */
module Base {

  datatype Option<+T> = None | Some(value: T)

  datatype Result<+T, +E> = Ok(value: T) | Err(error: E)

  /** A Go `error` return: `Pass` is `nil`. */
  datatype Outcome<+E> = Pass | Fail(error: E)

  // ---------------------------------------------------------------------------
  // int64 with Go's two's-complement wrap-around

  const TwoTo64: int := 0x1_0000_0000_0000_0000
  const MinInt64: int := -0x8000_0000_0000_0000
  const MaxInt64: int := 0x7FFF_FFFF_FFFF_FFFF

  type Int64 = x: int | MinInt64 <= x <= MaxInt64

  /** The int64 that Go's arithmetic yields for the mathematical value `x`. */
  function Wrap64(x: int): (r: Int64)
    ensures (x - r) % TwoTo64 == 0
    ensures MinInt64 <= x <= MaxInt64 ==> r == x
  {
    var q := (x - MinInt64) / TwoTo64;
    assert x - MinInt64 == q * TwoTo64 + (x - MinInt64) % TwoTo64;
    (x - MinInt64) % TwoTo64 + MinInt64
  }

  /** `a + b` on Go int64. */
  function Add64(a: Int64, b: Int64): Int64 { Wrap64(a + b) }

  /** `a - b` on Go int64. */
  function Sub64(a: Int64, b: Int64): Int64 { Wrap64(a - b) }

  /** Two mathematical values wrap to the same int64 exactly when they agree modulo 2^64. */
  lemma WrapAgreement(x: int, y: int)
    ensures Wrap64(x) == Wrap64(y) <==> (x - y) % TwoTo64 == 0
  {
    var qx, qy := (x - MinInt64) / TwoTo64, (y - MinInt64) / TwoTo64;
    var rx, ry := (x - MinInt64) % TwoTo64, (y - MinInt64) % TwoTo64;
    assert x - y == (qx - qy) * TwoTo64 + (rx - ry);
    if rx == ry {
      assert (x - y) % TwoTo64 == ((qx - qy) * TwoTo64) % TwoTo64 == 0;
    } else {
      assert -TwoTo64 < rx - ry < TwoTo64;
      ModOfShifted(qx - qy, rx - ry);
    }
  }

  lemma ModOfShifted(q: int, d: int)
    requires -TwoTo64 < d < TwoTo64 && d != 0
    ensures (q * TwoTo64 + d) % TwoTo64 != 0
  {
    if d > 0 {
      assert (q * TwoTo64 + d) % TwoTo64 == d;
    } else {
      assert (q * TwoTo64 + d) == (q - 1) * TwoTo64 + (TwoTo64 + d);
      assert (q * TwoTo64 + d) % TwoTo64 == TwoTo64 + d;
    }
  }

  /** Wrapping an intermediate result does not change the final wrapped sum. */
  lemma WrapAdd(x: int, y: int)
    ensures Wrap64(Wrap64(x) + y) == Wrap64(x + y)
  {
    WrapAgreement(Wrap64(x) + y, x + y);
  }

  // ---------------------------------------------------------------------------
  // Strings

  /** The upper case of one character as Go's `unicode.ToUpper` gives it, for every character whose
      upper case is an ASCII letter: `a`-`z`, dotless i (U+0131) and long s (U+017F). Every other
      character is returned as it is. */
  function UpperChar(c: char): char
  {
    if 'a' <= c <= 'z' then (c as int - 32) as char
    else if c == 'ı' then 'I'
    else if c == 'ſ' then 'S'
    else c
  }

  /** `strings.ToUpper`, character by character. */
  function Upper(s: string): string
  {
    seq(|s|, i requires 0 <= i < |s| => UpperChar(s[i]))
  }

  /** SQL's `LIMIT limit OFFSET offset` over an ordered listing. */
  function Window<T>(s: seq<T>, offset: nat, limit: nat): (r: seq<T>)
    ensures |r| <= limit
    ensures forall k :: 0 <= k < |r| ==> offset + k < |s| && r[k] == s[offset + k]
    ensures offset + limit <= |s| ==> |r| == limit
    ensures |r| == if offset >= |s| then 0 else if offset + limit <= |s| then limit else |s| - offset
  {
    if offset >= |s| then []
    else if offset + limit >= |s| then s[offset..]
    else s[offset..offset + limit]
  }
}
