/**
 * 64-bit unsigned words (`uint64_t`) and bytes (`byte_t`).
 *
 * A word is the sequence of its 64 bits, most significant bit first:
 * index 0 is bit 63, index 63 is bit 0. The C operators on words become
 * index formulas (a left shift by n reads the bit n places further right),
 * which keeps every fact about a single bit position a small fact.
 * A byte is the sequence of its eight bits in the same order.
 */
module Words {

  type Word = s: seq<bool> | |s| == 64 witness seq(64, _ => false)

  datatype Option<T> = None | Some(value: T)

  /** 2^64, the modulus of size_t and uint64_t arithmetic. */
  function SizeLimit(): int
  {
    0x1_0000_0000_0000_0000
  }

  /** size_t */
  type SizeT = x: int | 0 <= x < 0x1_0000_0000_0000_0000

  /** A size_t result: the mathematical value reduced modulo 2^64. */
  function Wrap(x: int): (r: SizeT)
    ensures 0 <= x < SizeLimit() ==> r == x
    ensures -SizeLimit() <= x < 0 ==> r == x + SizeLimit()
    ensures SizeLimit() <= x < 2 * SizeLimit() ==> r == x - SizeLimit()
  {
    x % SizeLimit()
  }

  /** byte_t: eight bits, most significant first. */
  type Byte = s: seq<bool> | |s| == 8 witness seq(8, _ => false)

  /** n zero bits. */
  function Zeros(n: nat): (r: seq<bool>)
    ensures |r| == n && forall i :: 0 <= i < n ==> !r[i]
  {
    seq(n, _ => false)
  }

  /** UINT64_MAX */
  function Ones(): (r: Word)
    ensures forall i :: 0 <= i < 64 ==> r[i]
  {
    seq(64, _ => true)
  }

  /** x << n; C leaves shifts by 64 or more undefined, so they are excluded. */
  function Shl(x: Word, n: nat): (r: Word)
    requires n < 64
    ensures forall i :: 0 <= i < 64 ==> r[i] == (i + n < 64 && x[i + n])
  {
    seq(64, i requires 0 <= i < 64 => i + n < 64 && x[i + n])
  }

  /** x >> n (logical: uint64_t is unsigned). */
  function Shr(x: Word, n: nat): (r: Word)
    requires n < 64
    ensures forall i :: 0 <= i < 64 ==> r[i] == (i >= n && x[i - n])
  {
    seq(64, i requires 0 <= i < 64 => i >= n && x[i - n])
  }

  function And(x: Word, y: Word): (r: Word)
    ensures forall i :: 0 <= i < 64 ==> r[i] == (x[i] && y[i])
  {
    seq(64, i requires 0 <= i < 64 => x[i] && y[i])
  }

  function Or(x: Word, y: Word): (r: Word)
    ensures forall i :: 0 <= i < 64 ==> r[i] == (x[i] || y[i])
  {
    seq(64, i requires 0 <= i < 64 => x[i] || y[i])
  }

  function Not(x: Word): (r: Word)
    ensures forall i :: 0 <= i < 64 ==> r[i] == !x[i]
  {
    seq(64, i requires 0 <= i < 64 => !x[i])
  }

  /** x < 2^n: every bit above the lowest n is clear. */
  predicate Fits(x: Word, n: nat)
    requires n <= 64
  {
    forall i :: 0 <= i < 64 - n ==> !x[i]
  }

  /** The unsigned value of a word, for readers who prefer numbers. */
  function Value(x: seq<bool>): (r: nat)
    ensures r < Pow2(|x|)
    decreases |x|
  {
    if |x| == 0 then 0 else 2 * Value(x[..|x| - 1]) + (if x[|x| - 1] then 1 else 0)
  }

  function Pow2(n: nat): (r: nat)
    ensures r >= 1
  {
    if n == 0 then 1 else 2 * Pow2(n - 1)
  }

  /** A word's bits above the low n are clear exactly when its value is below 2^n. */
  lemma {:induction false} FitsValue(x: seq<bool>, n: nat)
    requires n <= |x|
    ensures (forall i :: 0 <= i < |x| - n ==> !x[i]) <==> Value(x) < Pow2(n)
    decreases |x|
  {
    if |x| > 0 {
      var y := x[..|x| - 1];
      var b := if x[|x| - 1] then 1 else 0;
      assert Value(x) == 2 * Value(y) + b;
      if n == 0 {
        FitsValue(y, 0);
        assert (forall i :: 0 <= i < |x| ==> !x[i]) <==> (forall i :: 0 <= i < |y| ==> !y[i]) && b == 0 by {
          forall i | 0 <= i < |y| ensures y[i] == x[i] { }
        }
      } else {
        FitsValue(y, n - 1);
        assert (forall i :: 0 <= i < |x| - n ==> !x[i]) <==> (forall i :: 0 <= i < |y| - (n - 1) ==> !y[i]) by {
          forall i | 0 <= i < |y| ensures y[i] == x[i] { }
        }
      }
    }
  }

  /** (uint64_t) b */
  function Widen(b: Byte): (r: Word)
    ensures Fits(r, 8)
    ensures r[56..] == b
  {
    seq(64, i requires 0 <= i < 64 => i >= 56 && b[i - 56])
  }

  /** (byte_t) x: the low eight bits. */
  function Narrow(x: Word): (r: Byte)
    ensures forall q :: 0 <= q < 8 ==> r[q] == x[56 + q]
  {
    x[56..]
  }

  function ByteAnd(a: Byte, b: Byte): (r: Byte)
    ensures forall q :: 0 <= q < 8 ==> r[q] == (a[q] && b[q])
  {
    seq(8, q requires 0 <= q < 8 => a[q] && b[q])
  }

  function ByteOr(a: Byte, b: Byte): (r: Byte)
    ensures forall q :: 0 <= q < 8 ==> r[q] == (a[q] || b[q])
  {
    seq(8, q requires 0 <= q < 8 => a[q] || b[q])
  }

  function ByteNot(a: Byte): (r: Byte)
    ensures forall q :: 0 <= q < 8 ==> r[q] == !a[q]
  {
    seq(8, q requires 0 <= q < 8 => !a[q])
  }

  /** 0xFF as a word. */
  function ByteMax(): (r: Word)
    ensures forall i :: 0 <= i < 64 ==> r[i] == (i >= 56)
  {
    Widen(seq(8, _ => true))
  }
}
