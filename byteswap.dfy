/**
 * The little-endian byte swap of the bit codec: `set_bits`, `expand`,
 * `contract`, `swap_bytes_in` and `swap_bytes_out`.
 *
 * A little-endian field of `width` bits is stored as `width / 8` whole
 * bytes, least significant first, followed by the `width % 8` most
 * significant bits of the number. `FromLittle` and `ToLittle` state that
 * layout directly on bit sequences; the C routines, which get there by a
 * shift, a 64-bit byte swap and a correction of the partial byte, are
 * proved equal to them, and the two layouts are proved inverse.
 */
module ByteSwap {
  import opened Words

  /** The bytes of s (a whole number of them) in reverse order. */
  function ByteRev(s: seq<bool>): (r: seq<bool>)
    requires |s| % 8 == 0
    ensures |r| == |s|
    decreases |s|
  {
    if |s| == 0 then [] else ByteRev(s[8..]) + s[..8]
  }

  /** Bit kr of byte kb of the reversal is bit kr of byte kb counted from the end. */
  lemma {:induction false} ByteRevAt(s: seq<bool>, kb: nat, kr: nat)
    requires |s| % 8 == 0 && 8 * kb + kr < |s| && kr < 8
    ensures ByteRev(s)[8 * kb + kr] == s[|s| - 8 - 8 * kb + kr]
    decreases |s|
  {
    var i, m := 8 * kb + kr, |s| / 8;
    assert |s| == 8 * m;
    assert ByteRev(s) == ByteRev(s[8..]) + s[..8];
    if i < |s| - 8 {
      ByteRevAt(s[8..], kb, kr);
      assert s[8..][|s| - 16 - 8 * kb + kr] == s[|s| - 8 - 8 * kb + kr];
    } else {
      assert kb == m - 1;
      assert ByteRev(s)[i] == s[..8][kr];
    }
  }

  /** Reversing the bytes twice gives them back. */
  lemma {:induction false} ByteRevInvolutive(s: seq<bool>)
    requires |s| % 8 == 0
    ensures ByteRev(ByteRev(s)) == s
    decreases |s|
  {
    if |s| > 0 {
      ByteRevAppend(ByteRev(s[8..]), s[..8]);
      ByteRevInvolutive(s[8..]);
      assert ByteRev(s[..8]) == s[..8] by {
        assert s[..8][8..] == [];
        assert s[..8][..8] == s[..8];
      }
      assert s[..8] + s[8..] == s;
    }
  }

  /** Reversal turns a concatenation of whole bytes around. */
  lemma {:induction false} ByteRevAppend(a: seq<bool>, b: seq<bool>)
    requires |a| % 8 == 0 && |b| % 8 == 0
    ensures ByteRev(a + b) == ByteRev(b) + ByteRev(a)
    decreases |a|
  {
    if |a| == 0 {
      assert a + b == b;
    } else {
      assert (a + b)[8..] == a[8..] + b;
      assert (a + b)[..8] == a[..8];
      ByteRevAppend(a[8..], b);
    }
  }

  /** The number held by a little-endian field stored in the low `width` bits of v. */
  function FromLittle(v: Word, width: nat): (r: Word)
    requires 8 < width <= 64
    ensures Fits(r, width)
  {
    var u := v[64 - width..];
    var n := width / 8;
    Zeros(64 - width) + u[8 * n..] + ByteRev(u[..8 * n])
  }

  /** The little-endian field, in the low `width` bits, that stores the low `width` bits of x. */
  function ToLittle(x: Word, width: nat): (r: Word)
    requires 8 < width <= 64
    ensures Fits(r, width)
  {
    var f := x[64 - width..];
    var t := width % 8;
    Zeros(64 - width) + ByteRev(f[t..]) + f[..t]
  }

  /** The low `width` bits of v, the rest cleared. */
  function Truncate(v: Word, width: nat): (r: Word)
    requires width <= 64
    ensures Fits(r, width)
    ensures forall i :: 64 - width <= i < 64 ==> r[i] == v[i]
  {
    Zeros(64 - width) + v[64 - width..]
  }

  /** Truncation is the identity on a word that fits. */
  lemma TruncateFits(v: Word, width: nat)
    requires width <= 64 && Fits(v, width)
    ensures Truncate(v, width) == v
  {
  }

  /** Reading back what was stored little-endian gives the number, truncated to the field. */
  lemma FromToLittle(x: Word, width: nat)
    requires 8 < width <= 64
    ensures FromLittle(ToLittle(x, width), width) == Truncate(x, width)
  {
    var n, t := width / 8, width % 8;
    var f := x[64 - width..];
    var a, b := ByteRev(f[t..]), f[..t];
    var u := ToLittle(x, width)[64 - width..];
    assert u == a + b;
    assert u[8 * n..] == b;
    assert u[..8 * n] == a;
    ByteRevInvolutive(f[t..]);
    assert b + f[t..] == f;
  }

  /** Storing little-endian what was read from a little-endian field gives the field back. */
  lemma ToFromLittle(v: Word, width: nat)
    requires 8 < width <= 64
    ensures ToLittle(FromLittle(v, width), width) == Truncate(v, width)
  {
    var n, t := width / 8, width % 8;
    var u := v[64 - width..];
    var a, b := u[8 * n..], ByteRev(u[..8 * n]);
    var f := FromLittle(v, width)[64 - width..];
    assert f == a + b;
    assert f[t..] == b;
    assert f[..t] == a;
    ByteRevInvolutive(u[..8 * n]);
    assert u[..8 * n] + a == u;
  }

  /** A field of whole bytes is read by reversing its bytes. */
  lemma FromLittleWholeBytes(v: Word, width: nat)
    requires 8 < width <= 64 && width % 8 == 0
    ensures FromLittle(v, width) == Zeros(64 - width) + ByteRev(v[64 - width..])
  {
    var u := v[64 - width..];
    assert u[8 * (width / 8)..] == [];
    assert u[..8 * (width / 8)] == u;
  }

  /** bswap64: byte k of the result is byte 7 - k of x. */
  function Bswap64(x: Word): (r: Word)
  {
    ByteRev(x)
  }

  /** Bit pr of byte pb of the swapped word (position idx) is bit pr of byte 7 - pb (position src). */
  lemma BswapAt(x: Word, pb: nat, pr: nat, idx: nat, src: nat)
    requires pb < 8 && pr < 8 && idx == 8 * pb + pr && src == 8 * (7 - pb) + pr
    ensures Bswap64(x)[idx] == x[src]
  {
    ByteRevAt(x, pb, pr);
  }

  /** set_bits: *value = (*value & clear_mask) | set_mask */
  function SetBits(value: Word, clearMask: Word, setMask: Word): (r: Word)
    ensures forall i :: 0 <= i < 64 ==> (r[i] <==> (value[i] && clearMask[i]) || setMask[i])
  {
    Or(And(value, clearMask), setMask)
  }

  /**
   * expand: the `truncated` bits that the byte swap left at the top of
   * byte 7 - width / 8 are moved down so that they sit just above the
   * whole bytes, and everything above them is cleared.
   */
  function Expand(value: Word, width: nat, msbOffset: nat, truncated: nat): (r: Word)
    requires 8 < width <= 64 && msbOffset == 64 - width
    requires 0 < truncated < 8 && truncated == width % 8
    ensures forall p :: 0 <= p < 64 ==>
      r[p] == ((p >= 64 - (width - truncated) && value[p]) ||
               (8 - truncated <= p < 64 - (width - truncated) && value[p - 8 + truncated]))
  {
    var contiguous := width - truncated;
    var truncMsbOffset := 8 - truncated;
    var truncLsbOffset := contiguous + truncMsbOffset;
    var clearOffset := msbOffset + truncated;
    var clearMask := Shr(Ones(), clearOffset);
    var truncMask := Shl(Shr(value, truncLsbOffset), contiguous);
    SetBits(value, clearMask, truncMask)
  }

  /**
   * contract: the inverse move. The `truncated` bits just above the whole
   * bytes go back to the top of their byte, and the bits above the whole
   * bytes are cleared first.
   */
  function Contract(value: Word, width: nat, msbOffset: nat, truncated: nat): (r: Word)
    requires 8 < width <= 64 && msbOffset == 64 - width
    requires 0 < truncated < 8 && truncated == width % 8
    ensures forall p :: 0 <= p < 64 ==>
      r[p] == ((p < width - truncated && value[p]) ||
               (width - truncated <= p < 56 + truncated && value[p + 8 - truncated]))
  {
    var contiguous := width - truncated;
    var truncLsbOffset := 8 - truncated;
    var truncMsbOffset := contiguous + truncLsbOffset;
    var clearOffset := msbOffset + truncated;
    var clearMask := Shl(Ones(), clearOffset);
    var truncMask := Shr(Shl(value, truncMsbOffset), contiguous);
    SetBits(value, clearMask, truncMask)
  }

  /** Below the truncated bits, expand moves bit r of the value down to p. */
  lemma ExpandMoves(value: Word, width: nat, msbOffset: nat, truncated: nat, p: nat, r: nat)
    requires 8 < width <= 64 && msbOffset == 64 - width
    requires 0 < truncated < 8 && truncated == width % 8
    requires 8 - truncated <= p < 64 - (width - truncated) && r == p - 8 + truncated
    ensures Expand(value, width, msbOffset, truncated)[p] == value[r]
  {
  }

  /** Contract moves bit k of the value up to p, above the whole bytes. */
  lemma ContractMoves(value: Word, width: nat, msbOffset: nat, truncated: nat, p: nat, k: nat)
    requires 8 < width <= 64 && msbOffset == 64 - width
    requires 0 < truncated < 8 && truncated == width % 8
    requires width - truncated <= p < 56 + truncated && k == p + 8 - truncated
    ensures Contract(value, width, msbOffset, truncated)[p] == value[k]
  {
  }

  lemma ShrAt(x: Word, n: nat, i: nat, j: nat)
    requires n <= i < 64 && j == i - n
    ensures Shr(x, n)[i] == x[j]
  {
  }

  /** VALUE_MSB_OFFSET: the bits above a field held in the low `width` bits of a word. */
  function ValueMsbOffset(width: nat): nat
    requires width <= 64
  {
    64 - width
  }

  /** TRUNCATED_BITS: the bits of a field beyond its whole bytes. */
  function TruncatedBits(width: nat): nat
  {
    width % 8
  }

  /** swap_bytes_in: shift the field to the top, bswap64, expand a partial byte. */
  function SwapBytesIn(v: Word, width: nat): Word
    requires 8 < width <= 64
  {
    var msbOffset := ValueMsbOffset(width);
    var swapped := Bswap64(Shl(v, msbOffset));
    var truncated := TruncatedBits(width);
    if truncated > 0 then Expand(swapped, width, msbOffset, truncated) else swapped
  }

  /** swap_bytes_out: bswap64, contract a partial byte, shift down to the field. */
  function SwapBytesOut(v: Word, width: nat): Word
    requires 8 < width <= 64
  {
    var msbOffset := ValueMsbOffset(width);
    var swapped := Bswap64(v);
    var truncated := TruncatedBits(width);
    var contracted := if truncated > 0 then Contract(swapped, width, msbOffset, truncated) else swapped;
    Shr(contracted, msbOffset)
  }

  // ---------------------------------------------------------------------
  // swap_bytes_in computes FromLittle. Positions are written 8 * pb + pr
  // (byte pb, bit pr), and the width 8 * n + t (n whole bytes, t bits).
  // Each lemma names the positions it relates (idx, src, ...) and states
  // how they are computed in its requires clause.

  /** After the shift and the byte swap, position idx holds bit src of v, or zero beyond the field. */
  lemma SwappedAt(v: Word, w: nat, pb: nat, pr: nat, idx: nat, src: nat)
    requires 8 < w <= 64 && pb < 8 && pr < 8
    requires idx == 8 * pb + pr && src == 8 * (7 - pb) + pr + 64 - w
    ensures Bswap64(Shl(v, ValueMsbOffset(w)))[idx] == (src < 64 && v[src])
  {
    BswapAt(Shl(v, ValueMsbOffset(w)), pb, pr, idx, src - (64 - w));
  }

  /** A width of whole bytes needs no expand. */
  lemma SwapInWhole(v: Word, w: nat)
    requires 8 < w <= 64 && TruncatedBits(w) == 0
    ensures SwapBytesIn(v, w) == Bswap64(Shl(v, ValueMsbOffset(w)))
  {
  }

  lemma SwapInExpands(v: Word, w: nat, t: nat)
    requires 8 < w <= 64 && t == TruncatedBits(w) && t > 0
    ensures SwapBytesIn(v, w) == Expand(Bswap64(Shl(v, ValueMsbOffset(w))), w, ValueMsbOffset(w), t)
  {
  }

  /** Above the truncated bits, expand keeps the swapped word. */
  lemma SwapInKeeps(v: Word, w: nat, n: nat, t: nat, idx: nat)
    requires 8 < w <= 64 && w == 8 * n + t && t < 8 && 64 - 8 * n <= idx < 64
    ensures SwapBytesIn(v, w)[idx] == Bswap64(Shl(v, ValueMsbOffset(w)))[idx]
  {
    var u := TruncatedBits(w);
    assert u == t;
    if u > 0 {
      SwapInExpands(v, w, u);
    } else {
      SwapInWhole(v, w);
    }
  }

  /** Below the whole bytes, expand reads position r = idx - 8 + t of the swapped word. */
  lemma SwapInExpanded(v: Word, w: nat, n: nat, t: nat, idx: nat, r: nat)
    requires 8 < w <= 64 && w == 8 * n + t && 0 < t < 8 && idx < 64 - 8 * n && r == idx - 8 + t
    ensures SwapBytesIn(v, w)[idx] == Bswap64(Shl(v, ValueMsbOffset(w)))[r]
  {
    assert TruncatedBits(w) == t;
    SwapInExpands(v, w, t);
    ExpandMoves(Bswap64(Shl(v, ValueMsbOffset(w))), w, ValueMsbOffset(w), t, idx, r);
  }

  /** The top 8 - t bits are cleared by expand. */
  lemma SwapInCleared(v: Word, w: nat, n: nat, t: nat, idx: nat)
    requires 8 < w <= 64 && w == 8 * n + t && 0 < t < 8 && idx < 8 - t
    ensures !SwapBytesIn(v, w)[idx]
  {
    assert TruncatedBits(w) == t;
    SwapInExpands(v, w, t);
  }

  /** The whole bytes of the number are the stored bytes in reverse order. */
  lemma FromLittleHigh(v: Word, w: nat, n: nat, t: nat, pb: nat, pr: nat, idx: nat, src: nat)
    requires 8 < w <= 64 && w == 8 * n + t && t < 8
    requires 8 - n <= pb < 8 && pr < 8
    requires idx == 8 * pb + pr && src == 8 * (7 - pb) + pr + 64 - w
    ensures FromLittle(v, w)[idx] == v[src]
  {
    assert w / 8 == n;
    var u := v[64 - w..];
    ByteRevAt(u[..8 * n], pb - 8 + n, pr);
  }

  /** The truncated bits of the number are the last t bits stored. */
  lemma FromLittleMiddle(v: Word, w: nat, n: nat, t: nat, j: nat, idx: nat, src: nat)
    requires 8 < w <= 64 && w == 8 * n + t && j < t < 8
    requires idx == 64 - w + j && src == 64 - w + 8 * n + j
    ensures FromLittle(v, w)[idx] == v[src]
  {
    assert w / 8 == n;
  }

  lemma SwapInHigh(v: Word, w: nat, n: nat, t: nat, pb: nat, pr: nat, idx: nat)
    requires 8 < w <= 64 && w == 8 * n + t && t < 8
    requires 8 - n <= pb < 8 && pr < 8 && idx == 8 * pb + pr
    ensures SwapBytesIn(v, w)[idx] == FromLittle(v, w)[idx]
  {
    var src := 8 * (7 - pb) + pr + 64 - w;
    SwapInKeeps(v, w, n, t, idx);
    SwappedAt(v, w, pb, pr, idx, src);
    FromLittleHigh(v, w, n, t, pb, pr, idx, src);
  }

  lemma SwapInMiddle(v: Word, w: nat, n: nat, t: nat, j: nat, idx: nat)
    requires 8 < w <= 64 && w == 8 * n + t && j < t < 8 && idx == 64 - w + j
    ensures SwapBytesIn(v, w)[idx] == FromLittle(v, w)[idx]
  {
    var r := 8 * (7 - n) + j;
    var src := 64 - w + 8 * n + j;
    SwapInExpanded(v, w, n, t, idx, r);
    SwappedAt(v, w, 7 - n, j, r, src);
    FromLittleMiddle(v, w, n, t, j, idx, src);
  }

  /** Above the field the number is zero: whole-byte widths. */
  lemma SwapInLowWhole(v: Word, w: nat, n: nat, pb: nat, pr: nat, idx: nat)
    requires 8 < w <= 64 && w == 8 * n && pr < 8 && idx == 8 * pb + pr && idx < 64 - w
    ensures !SwapBytesIn(v, w)[idx]
  {
    assert TruncatedBits(w) == 0;
    assert pb + n <= 7;
    SwapInWhole(v, w);
    SwappedAt(v, w, pb, pr, idx, 8 * (7 - pb) + pr + 64 - w);
  }

  /** Above the field: expand reads a bit of the same byte of the swapped word. */
  lemma SwapInLowSameByte(v: Word, w: nat, n: nat, t: nat, pb: nat, pr: nat, idx: nat)
    requires 8 < w <= 64 && w == 8 * n + t && 0 < t < 8
    requires pr < 8 && 8 <= pr + t && idx == 8 * pb + pr && idx < 64 - w
    ensures !SwapBytesIn(v, w)[idx]
  {
    assert pb + n <= 6;
    var r := idx - 8 + t;
    SwapInExpanded(v, w, n, t, idx, r);
    SwappedAt(v, w, pb, pr + t - 8, r, 8 * (7 - pb) + pr + t - 8 + 64 - w);
  }

  /** Above the field: expand reads a bit of the byte before in the swapped word. */
  lemma SwapInLowPrevByte(v: Word, w: nat, n: nat, t: nat, pb: nat, pr: nat, idx: nat)
    requires 8 < w <= 64 && w == 8 * n + t && 0 < t < 8
    requires 0 < pb && pr + t < 8 && idx == 8 * pb + pr && idx < 64 - w
    ensures !SwapBytesIn(v, w)[idx]
  {
    assert pb + n <= 7;
    var r := idx - 8 + t;
    SwapInExpanded(v, w, n, t, idx, r);
    SwappedAt(v, w, pb - 1, pr + t, r, 8 * (8 - pb) + pr + t + 64 - w);
  }

  /** Above the field the number is zero. */
  lemma SwapInLow(v: Word, w: nat, n: nat, t: nat, pb: nat, pr: nat, idx: nat)
    requires 8 < w <= 64 && w == 8 * n + t && t < 8
    requires pr < 8 && idx == 8 * pb + pr && idx < 64 - w
    ensures !SwapBytesIn(v, w)[idx]
  {
    if t == 0 {
      SwapInLowWhole(v, w, n, pb, pr, idx);
    } else if pr + t >= 8 {
      SwapInLowSameByte(v, w, n, t, pb, pr, idx);
    } else if pb > 0 {
      SwapInLowPrevByte(v, w, n, t, pb, pr, idx);
    } else {
      SwapInCleared(v, w, n, t, idx);
    }
  }

  lemma SwapInAt(v: Word, w: nat, n: nat, t: nat, pb: nat, pr: nat)
    requires 8 < w <= 64 && w == 8 * n + t && t < 8 && pb < 8 && pr < 8
    ensures SwapBytesIn(v, w)[8 * pb + pr] == FromLittle(v, w)[8 * pb + pr]
  {
    var idx := 8 * pb + pr;
    if idx < 64 - w {
      SwapInLow(v, w, n, t, pb, pr, idx);
    } else if pb < 8 - n {
      SwapInMiddle(v, w, n, t, idx - (64 - w), idx);
    } else {
      SwapInHigh(v, w, n, t, pb, pr, idx);
    }
  }

  lemma SwapInIsFromLittle(v: Word, w: nat)
    requires 8 < w <= 64
    ensures SwapBytesIn(v, w) == FromLittle(v, w)
  {
    var n, t := w / 8, w % 8;
    forall p | 0 <= p < 64
      ensures SwapBytesIn(v, w)[p] == FromLittle(v, w)[p]
    {
      SwapInAt(v, w, n, t, p / 8, p % 8);
    }
  }

  // ---------------------------------------------------------------------
  // swap_bytes_out computes ToLittle. Field positions are j = 8 * jb + jr
  // below the top of the field, which starts at bit 64 - w.

  lemma SwapOutWhole(x: Word, w: nat)
    requires 8 < w <= 64 && TruncatedBits(w) == 0
    ensures SwapBytesOut(x, w) == Shr(Bswap64(x), ValueMsbOffset(w))
  {
  }

  lemma SwapOutContracts(x: Word, w: nat, t: nat)
    requires 8 < w <= 64 && t == TruncatedBits(w) && t > 0
    ensures SwapBytesOut(x, w) == Shr(Contract(Bswap64(x), w, ValueMsbOffset(w), t), ValueMsbOffset(w))
  {
  }

  /** Over the whole bytes, contract keeps the swapped word. */
  lemma SwapOutKeeps(x: Word, w: nat, n: nat, t: nat, j: nat, idx: nat)
    requires 8 < w <= 64 && w == 8 * n + t && t < 8 && j < 8 * n && idx == 64 - w + j
    ensures SwapBytesOut(x, w)[idx] == Bswap64(x)[j]
  {
    var u := TruncatedBits(w);
    assert u == t;
    if u > 0 {
      SwapOutContracts(x, w, u);
    } else {
      SwapOutWhole(x, w);
    }
  }

  /** Above the whole bytes, contract reads position k = j + 8 - t of the swapped word. */
  lemma SwapOutContracted(x: Word, w: nat, n: nat, t: nat, jr: nat, idx: nat, k: nat)
    requires 8 < w <= 64 && w == 8 * n + t && jr < t < 8
    requires idx == 64 - w + 8 * n + jr && k == 8 * n + 8 - t + jr
    ensures SwapBytesOut(x, w)[idx] == Bswap64(x)[k]
  {
    assert TruncatedBits(w) == t;
    SwapOutContracts(x, w, t);
    var c := 8 * n + jr;
    ShrAt(Contract(Bswap64(x), w, ValueMsbOffset(w), t), ValueMsbOffset(w), idx, c);
    ContractMoves(Bswap64(x), w, ValueMsbOffset(w), t, c, k);
  }

  lemma ToLittleBytes(x: Word, w: nat, n: nat, t: nat, jb: nat, jr: nat, idx: nat, src: nat)
    requires 8 < w <= 64 && w == 8 * n + t && t < 8 && jb < n && jr < 8
    requires idx == 64 - w + 8 * jb + jr && src == 8 * (7 - jb) + jr
    ensures ToLittle(x, w)[idx] == x[src]
  {
    assert w % 8 == t;
    var f := x[64 - w..];
    var z, a, b := Zeros(64 - w), ByteRev(f[t..]), f[..t];
    assert ToLittle(x, w) == z + a + b;
    assert |z| == 64 - w && |a| == 8 * n;
    var k, m := 8 * jb + jr, 8 * n - 8 - 8 * jb + jr;
    assert (z + a + b)[idx] == a[k];
    ByteRevAt(f[t..], jb, jr);
    assert a[k] == f[t..][m];
    assert f[t..][m] == f[t + m];
    assert 64 - w + t + m == src;
  }

  lemma ToLittleTail(x: Word, w: nat, n: nat, t: nat, jr: nat, idx: nat, src: nat)
    requires 8 < w <= 64 && w == 8 * n + t && jr < t < 8
    requires idx == 64 - w + 8 * n + jr && src == 64 - w + jr
    ensures ToLittle(x, w)[idx] == x[src]
  {
    assert w % 8 == t;
    var f := x[64 - w..];
    var z, a, b := Zeros(64 - w), ByteRev(f[t..]), f[..t];
    assert ToLittle(x, w) == z + a + b;
    assert |z| == 64 - w && |a| == 8 * n;
    assert (z + a + b)[idx] == b[jr];
  }

  lemma SwapOutAt(x: Word, w: nat, n: nat, t: nat, jb: nat, jr: nat, idx: nat)
    requires 8 < w <= 64 && w == 8 * n + t && t < 8 && jr < 8 && 8 * jb + jr < w
    requires idx == 64 - w + 8 * jb + jr
    ensures SwapBytesOut(x, w)[idx] == ToLittle(x, w)[idx]
  {
    if jb < n {
      var j, src := 8 * jb + jr, 8 * (7 - jb) + jr;
      SwapOutKeeps(x, w, n, t, j, idx);
      BswapAt(x, jb, jr, j, src);
      ToLittleBytes(x, w, n, t, jb, jr, idx, src);
    } else {
      assert jb == n;
      var k, src := 8 * n + 8 - t + jr, 64 - w + jr;
      SwapOutContracted(x, w, n, t, jr, idx, k);
      BswapAt(x, n, 8 - t + jr, k, src);
      ToLittleTail(x, w, n, t, jr, idx, src);
    }
  }

  lemma SwapOutIsToLittle(x: Word, w: nat)
    requires 8 < w <= 64
    ensures SwapBytesOut(x, w) == ToLittle(x, w)
  {
    var n, t := w / 8, w % 8;
    forall p | 0 <= p < 64
      ensures SwapBytesOut(x, w)[p] == ToLittle(x, w)[p]
    {
      if p >= 64 - w {
        var j := p - (64 - w);
        SwapOutAt(x, w, n, t, j / 8, j % 8, p);
      }
    }
  }

  // ---------------------------------------------------------------------
  // The two swaps undo each other on every number that fits the field.

  /** swap_bytes_out(swap_bytes_in(v)) == v for every v < 2^width. */
  lemma SwapOutUndoesSwapIn(v: Word, width: nat)
    requires 8 < width <= 64 && Fits(v, width)
    ensures SwapBytesOut(SwapBytesIn(v, width), width) == v
  {
    SwapInIsFromLittle(v, width);
    SwapOutIsToLittle(FromLittle(v, width), width);
    ToFromLittle(v, width);
    TruncateFits(v, width);
  }

  /** swap_bytes_in(swap_bytes_out(x)) == x for every x < 2^width. */
  lemma SwapInUndoesSwapOut(x: Word, width: nat)
    requires 8 < width <= 64 && Fits(x, width)
    ensures SwapBytesIn(SwapBytesOut(x, width), width) == x
  {
    SwapOutIsToLittle(x, width);
    SwapInIsFromLittle(ToLittle(x, width), width);
    FromToLittle(x, width);
    TruncateFits(x, width);
  }
}
