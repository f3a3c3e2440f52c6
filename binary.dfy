/**
 * The bit codec: `binary_get_uint64` and `binary_set_uint64` read and
 * write an unsigned field of 0 to 64 bits at any bit offset of a byte
 * buffer. A field of width 0 reads as 0; it still names a byte, the one
 * holding bit `offset`, which both functions touch. Bit `offset` is bit `offset % 8` of byte `offset / 8`, counted
 * from the most significant bit, and the field runs on from there across
 * byte boundaries. A little-endian field wider than one byte is byte
 * swapped on the way in and out (see ByteSwap).
 */
module Binary {
  import opened Words
  import opened ByteSwap

  /** The byte orders a field can be stored in. */
  datatype Endian = BigEndian | LittleEndian

  // ---------------------------------------------------------------------
  // The offset and mask macros.

  /** MSB_OFFSET: where in its first byte the field starts. */
  function MsbOffset(offset: nat): nat
  {
    offset % 8
  }

  /** LSB_OFFSET: the bits of the first byte after a field that ends inside it. */
  function LsbOffset(width: nat, msbOffset: nat): nat
  {
    if 8 - msbOffset - width > 0 then 8 - msbOffset - width else 0
  }

  /** BYTE_POSITION: the byte holding the first bit. */
  function BytePosition(offset: nat): nat
  {
    offset / 8
  }

  /** OVERFLOW_BITS: the bits of the field after its first byte. */
  function OverflowBits(width: nat, msbOffset: nat, lsbOffset: nat): int
  {
    width - (8 - msbOffset - lsbOffset)
  }

  /** MASK: the bits of the first byte that belong to the field. */
  function Mask(msbOffset: nat, lsbOffset: nat): (r: Byte)
    requires msbOffset + lsbOffset < 64
    ensures forall q :: 0 <= q < 8 ==> r[q] == (msbOffset <= q < 8 - lsbOffset)
  {
    Narrow(Shl(Shr(ByteMax(), msbOffset + lsbOffset), lsbOffset))
  }

  /** OVERFLOW_LSB_OFFSET: the bits of the last byte after the field. */
  function OverflowLsbOffset(overflow: nat): nat
    requires overflow <= 8
  {
    8 - overflow
  }

  /** BIT_TO_BYTE: the bytes needed for x bits (CEIL_DIV(x, 8)). */
  function BitToByte(x: nat): nat
  {
    (x + 8 - 1) / 8
  }

  /** NEED_SWAP */
  predicate NeedSwap(width: nat, endian: Endian)
  {
    width > 8 && endian == LittleEndian
  }

  /** The offsets the macros give describe the field exactly. */
  lemma MacrosDescribeField(offset: nat, width: nat)
    requires width <= 64
    ensures var m := MsbOffset(offset);
            var l := LsbOffset(width, m);
            var ov := OverflowBits(width, m, l);
            && offset == 8 * BytePosition(offset) + m && m < 8
            && ov >= 0 && (ov > 0 ==> l == 0) && m + l <= 8 && (0 < width ==> m + l < 8)
            && offset + width - ov + l == 8 * (BytePosition(offset) + 1)
  {
  }

  // ---------------------------------------------------------------------
  // The specification: fields as sequences of bits.

  /** Bit i of a buffer, counting from the most significant bit of byte 0. */
  function BitAt(b: seq<Byte>, i: nat): bool
    requires i < 8 * |b|
  {
    b[i / 8][i % 8]
  }

  lemma BitAtByte(b: seq<Byte>, p: nat, q: nat)
    requires p < |b| && q < 8
    ensures BitAt(b, 8 * p + q) == b[p][q]
  {
    var i := 8 * p + q;
    assert i / 8 == p && i % 8 == q;
  }

  /** The `width` bits from bit `offset` on, most significant first. */
  function Field(b: seq<Byte>, offset: nat, width: nat): (r: seq<bool>)
    requires offset + width <= 8 * |b|
    ensures |r| == width
  {
    seq(width, k requires 0 <= k < width => BitAt(b, offset + k))
  }

  /** The unsigned word whose low bits are `bits`. */
  function ZeroExtend(bits: seq<bool>): (r: Word)
    requires |bits| <= 64
    ensures Fits(r, |bits|)
  {
    Zeros(64 - |bits|) + bits
  }

  /** The number stored in a field: its bits, swapped when the field is little-endian. */
  function Decode(b: seq<Byte>, offset: nat, width: nat, endian: Endian): (r: Word)
    requires width <= 64 && offset + width <= 8 * |b|
    ensures Fits(r, width)
  {
    var raw := ZeroExtend(Field(b, offset, width));
    if NeedSwap(width, endian) then FromLittle(raw, width) else raw
  }

  /** The bit pattern that storing `value` writes: swapped when the field is little-endian. */
  function Encode(value: Word, width: nat, endian: Endian): Word
    requires width <= 64
  {
    if NeedSwap(width, endian) then ToLittle(value, width) else value
  }

  /**
   * Bit q of byte p after storing the pattern x into the field. The field
   * receives the low `width` bits of x. The bits of the first byte before
   * the field are ORed with the bits of x above those (bit 64 - width - d
   * of x reaches d places before the field), because the pattern is not
   * masked to the field width; every other bit is kept.
   */
  function StoredBit(b: seq<Byte>, offset: nat, width: nat, x: Word, p: nat, q: nat): bool
    requires width <= 64 && p < |b| && q < 8
  {
    var i := 8 * p + q;
    if offset <= i < offset + width then x[64 - width + (i - offset)]
    else if p == BytePosition(offset) && i < offset then
      b[p][q] || (offset - i <= 64 - width && x[64 - width - (offset - i)])
    else b[p][q]
  }

  function StoredByte(b: seq<Byte>, offset: nat, width: nat, x: Word, p: nat): (r: Byte)
    requires width <= 64 && p < |b|
    ensures forall q :: 0 <= q < 8 ==> r[q] == StoredBit(b, offset, width, x, p, q)
  {
    seq(8, q requires 0 <= q < 8 => StoredBit(b, offset, width, x, p, q))
  }

  /** The buffer after storing the pattern x into the field. */
  function Stored(b: seq<Byte>, offset: nat, width: nat, x: Word): (r: seq<Byte>)
    requires width <= 64
    ensures |r| == |b|
    ensures forall p :: 0 <= p < |b| ==> r[p] == StoredByte(b, offset, width, x, p)
  {
    seq(|b|, p requires 0 <= p < |b| => StoredByte(b, offset, width, x, p))
  }

  // ---------------------------------------------------------------------
  // binary_get_uint64

  method GetUint64(bytes: array<Byte>, offset: nat, width: nat, endian: Endian) returns (value: Word)
    requires width <= 64 && offset + width <= 8 * bytes.Length && offset < 8 * bytes.Length
    ensures value == Decode(bytes[..], offset, width, endian)
    ensures Fits(value, width)
  {
    MacrosDescribeField(offset, width);
    var msbOffset := MsbOffset(offset);
    var lsbOffset := LsbOffset(width, msbOffset);
    var pos := BytePosition(offset);
    var overflow := OverflowBits(width, msbOffset, lsbOffset);
    var mask := Mask(msbOffset, lsbOffset);

    value := Shr(Widen(ByteAnd(bytes[pos], mask)), lsbOffset);
    ghost var read := width - overflow;
    GetFirstByte(bytes[..], offset, pos, bytes[pos], msbOffset, lsbOffset, mask, read);

    while overflow >= 8
      invariant 0 <= overflow <= width && read == width - overflow
      invariant overflow > 0 ==> lsbOffset == 0
      invariant offset + read + lsbOffset == 8 * (pos + 1)
      invariant value == ZeroExtend(Field(bytes[..], offset, read))
      decreases overflow
    {
      pos := pos + 1;
      ghost var next := read + 8;
      GetWholeByte(bytes[..], offset, read, next, pos, bytes[pos]);
      value := Or(Shl(value, 8), Widen(bytes[pos]));
      overflow := overflow - 8;
      read := next;
    }

    if overflow > 0 {
      var overflowLsbOffset := OverflowLsbOffset(overflow);
      pos := pos + 1;
      GetLastByte(bytes[..], offset, read, width, pos, bytes[pos], overflow, overflowLsbOffset);
      value := Shl(value, overflow);
      value := Or(value, Shr(Widen(bytes[pos]), overflowLsbOffset));
    }

    if NeedSwap(width, endian) {
      SwapInIsFromLittle(value, width);
      value := SwapBytesIn(value, width);
    }
  }

  /** The masked first byte, shifted down, is the part of the field in it. */
  lemma GetFirstByte(b: seq<Byte>, offset: nat, pos: nat, byte: Byte, m: nat, l: nat, mask: Byte, read: nat)
    requires pos < |b| && byte == b[pos] && offset == 8 * pos + m && m + l <= 8
    requires mask == Mask(m, l) && read == 8 - m - l
    ensures Shr(Widen(ByteAnd(byte, mask)), l) == ZeroExtend(Field(b, offset, read))
  {
    var lhs := Shr(Widen(ByteAnd(byte, mask)), l);
    var rhs := ZeroExtend(Field(b, offset, read));
    forall i | 0 <= i < 64
      ensures lhs[i] == rhs[i]
    {
      if 56 + l <= i {
        var q := i - 56 - l;
        BitAtByte(b, pos, q);
        assert offset + (i - (56 + m + l)) == 8 * pos + q;
      }
    }
  }

  /** Shifting in a whole byte extends the field read so far by eight bits. */
  lemma GetWholeByte(b: seq<Byte>, offset: nat, k: nat, next: nat, p: nat, byte: Byte)
    requires p < |b| && byte == b[p] && offset + k == 8 * p && next == k + 8 <= 64
    ensures Or(Shl(ZeroExtend(Field(b, offset, k)), 8), Widen(byte)) == ZeroExtend(Field(b, offset, next))
  {
    var lhs := Or(Shl(ZeroExtend(Field(b, offset, k)), 8), Widen(byte));
    var rhs := ZeroExtend(Field(b, offset, next));
    forall i | 0 <= i < 64
      ensures lhs[i] == rhs[i]
    {
      if 56 <= i {
        BitAtByte(b, p, i - 56);
      }
    }
  }

  /** Shifting in the top bits of the last byte completes the field. */
  lemma GetLastByte(b: seq<Byte>, offset: nat, k: nat, width: nat, p: nat, byte: Byte, overflow: nat, lsb: nat)
    requires p < |b| && byte == b[p] && offset + k == 8 * p
    requires 0 < overflow < 8 && width == k + overflow <= 64 && lsb == OverflowLsbOffset(overflow)
    ensures Or(Shl(ZeroExtend(Field(b, offset, k)), overflow), Shr(Widen(byte), lsb))
            == ZeroExtend(Field(b, offset, width))
  {
    var lhs := Or(Shl(ZeroExtend(Field(b, offset, k)), overflow), Shr(Widen(byte), lsb));
    var rhs := ZeroExtend(Field(b, offset, width));
    forall i | 0 <= i < 64
      ensures lhs[i] == rhs[i]
    {
      if 64 - overflow <= i {
        BitAtByte(b, p, i - (64 - overflow));
      }
    }
  }

  // ---------------------------------------------------------------------
  // binary_set_uint64

  method SetUint64(bytes: array<Byte>, offset: nat, width: nat, endian: Endian, value: Word)
    requires width <= 64 && offset + width <= 8 * bytes.Length && offset < 8 * bytes.Length
    modifies bytes
    ensures bytes[..] == Stored(old(bytes[..]), offset, width, Encode(value, width, endian))
  {
    MacrosDescribeField(offset, width);
    var msbOffset := MsbOffset(offset);
    var lsbOffset := LsbOffset(width, msbOffset);
    var pos := BytePosition(offset);
    var overflow: nat := OverflowBits(width, msbOffset, lsbOffset);
    var clearMask := ByteNot(Mask(msbOffset, lsbOffset));

    var x := value;
    if NeedSwap(width, endian) {
      SwapOutIsToLittle(value, width);
      x := SwapBytesOut(value, width);
    }
    ghost var b := bytes[..];
    ghost var first := pos;

    SetFirstByte(b, offset, width, x, pos, bytes[pos], msbOffset, lsbOffset, overflow, clearMask);
    bytes[pos] := ByteAnd(bytes[pos], clearMask);
    bytes[pos] := ByteOr(bytes[pos], Narrow(Shr(Shl(x, lsbOffset), overflow)));
    ghost var written := width - overflow;

    while overflow >= 8
      invariant overflow <= width && written == width - overflow && (0 < written || width == 0)
      invariant overflow > 0 ==> lsbOffset == 0
      invariant offset + written + lsbOffset == 8 * (pos + 1) && first <= pos < bytes.Length
      invariant forall p :: 0 <= p < bytes.Length ==>
        bytes[p] == if first <= p <= pos then StoredByte(b, offset, width, x, p) else b[p]
      decreases overflow
    {
      pos := pos + 1;
      SetWholeByte(b, offset, width, x, pos, written, overflow);
      bytes[pos] := Narrow(Shr(x, overflow - 8));
      overflow := overflow - 8;
      written := written + 8;
    }

    SetOverflowBits(bytes, b, offset, width, x, first, pos, overflow, written, lsbOffset);
  }

  /**
   * The tail of binary_set_uint64: the bits left over after the whole bytes
   * go to the top of the next byte, whose other bits are kept. The bytes
   * from `first` to `pos` hold the field already.
   */
  method SetOverflowBits(bytes: array<Byte>, ghost b: seq<Byte>, offset: nat, width: nat, x: Word,
                         ghost first: nat, pos: nat, overflow: nat, ghost written: nat, ghost lsbOffset: nat)
    requires width <= 64 && |b| == bytes.Length && offset + width <= 8 * bytes.Length
    requires overflow < 8 && written == width - overflow && (overflow > 0 ==> lsbOffset == 0)
    requires 8 * first <= offset < 8 * first + 8
    requires offset + written + lsbOffset == 8 * (pos + 1) && first <= pos < bytes.Length
    requires forall p :: 0 <= p < bytes.Length ==>
      bytes[p] == if first <= p <= pos then StoredByte(b, offset, width, x, p) else b[p]
    modifies bytes
    ensures bytes[..] == Stored(b, offset, width, x)
  {
    var last := pos;
    if overflow > 0 {
      var overflowLsbOffset := OverflowLsbOffset(overflow);
      var overflowClearMask := ByteNot(Narrow(Shl(ByteMax(), overflowLsbOffset)));
      last := pos + 1;
      SetLastByte(b, offset, width, x, last, bytes[last], written, overflow, overflowLsbOffset);
      bytes[last] := ByteAnd(bytes[last], overflowClearMask);
      bytes[last] := ByteOr(bytes[last], Narrow(Shl(x, overflowLsbOffset)));
    }
    StoredSpan(bytes[..], b, offset, width, x, first, last);
  }
  /** A buffer holding the stored bytes over the span of the field, and the old bytes elsewhere, is Stored. */
  lemma StoredSpan(c: seq<Byte>, b: seq<Byte>, offset: nat, width: nat, x: Word, first: nat, last: nat)
    requires width <= 64 && |c| == |b| && 8 * first <= offset < 8 * first + 8 && offset + width <= 8 * (last + 1)
    requires forall p :: 0 <= p < |c| ==> c[p] == if first <= p <= last then StoredByte(b, offset, width, x, p) else b[p]
    ensures c == Stored(b, offset, width, x)
  {
    forall p | 0 <= p < |c| && !(first <= p <= last)
      ensures StoredByte(b, offset, width, x, p) == b[p]
    {
      StoredOutside(b, offset, width, x, p);
    }
  }

  /** The first byte: the field's bits replace the masked ones, and the rest of the pattern is ORed in. */
  lemma SetFirstByte(b: seq<Byte>, offset: nat, width: nat, x: Word, pos: nat, byte: Byte,
                     m: nat, l: nat, ov: nat, clearMask: Byte)
    requires pos < |b| && byte == b[pos] && offset == 8 * pos + m && m < 8 && m + l <= 8
    requires width <= 64 && (0 < width ==> m + l < 8) && ov == width - (8 - m - l) && (ov > 0 ==> l == 0)
    requires clearMask == ByteNot(Mask(m, l))
    ensures ByteOr(ByteAnd(byte, clearMask), Narrow(Shr(Shl(x, l), ov))) == StoredByte(b, offset, width, x, pos)
  {
    assert BytePosition(offset) == pos;
    var lhs := ByteOr(ByteAnd(byte, clearMask), Narrow(Shr(Shl(x, l), ov)));
    forall q | 0 <= q < 8
      ensures lhs[q] == StoredBit(b, offset, width, x, pos, q)
    {
      assert Shr(Shl(x, l), ov)[56 + q] == (56 + q + l - ov < 64 && 56 + q >= ov && x[56 + q + l - ov]);
    }
  }

  /** A byte wholly inside the field is the next eight bits of the pattern. */
  lemma SetWholeByte(b: seq<Byte>, offset: nat, width: nat, x: Word, p: nat, k: nat, ov: nat)
    requires p < |b| && offset + k == 8 * p && 0 < k && k + ov == width <= 64 && 8 <= ov
    ensures Narrow(Shr(x, ov - 8)) == StoredByte(b, offset, width, x, p)
  {
    var lhs := Narrow(Shr(x, ov - 8));
    forall q | 0 <= q < 8
      ensures lhs[q] == StoredBit(b, offset, width, x, p, q)
    {
    }
  }

  /** The last byte: its top bits are the end of the pattern, the rest is kept. */
  lemma SetLastByte(b: seq<Byte>, offset: nat, width: nat, x: Word, p: nat, byte: Byte, k: nat, ov: nat, lsb: nat)
    requires p < |b| && byte == b[p] && offset + k == 8 * p && 0 < k
    requires 0 < ov < 8 && width == k + ov <= 64 && lsb == OverflowLsbOffset(ov)
    ensures ByteOr(ByteAnd(byte, ByteNot(Narrow(Shl(ByteMax(), lsb)))), Narrow(Shl(x, lsb)))
            == StoredByte(b, offset, width, x, p)
  {
    var lhs := ByteOr(ByteAnd(byte, ByteNot(Narrow(Shl(ByteMax(), lsb)))), Narrow(Shl(x, lsb)));
    forall q | 0 <= q < 8
      ensures lhs[q] == StoredBit(b, offset, width, x, p, q)
    {
    }
  }

  /** Bytes that hold no bit of the field are not written. */
  lemma StoredOutside(b: seq<Byte>, offset: nat, width: nat, x: Word, p: nat)
    requires width <= 64 && p < |b| && (8 * p + 8 <= offset || offset + width <= 8 * p)
    ensures StoredByte(b, offset, width, x, p) == b[p]
  {
    assert p == BytePosition(offset) ==> offset == 8 * p;
  }

  // ---------------------------------------------------------------------
  // What get and set promise.

  /** The last byte that holds a bit of the field: BYTE_POSITION plus BIT_TO_BYTE(MSB_OFFSET + width), less one. */
  function LastBytePosition(offset: nat, width: nat): nat
    requires 0 < width
  {
    BytePosition(offset) + BitToByte(MsbOffset(offset) + width) - 1
  }

  /** The field's bits lie in bytes BytePosition(offset) .. LastBytePosition(offset, width). */
  lemma SpanHoldsField(offset: nat, width: nat)
    requires 0 < width <= 64
    ensures 8 * BytePosition(offset) <= offset
    ensures offset + width <= 8 * (LastBytePosition(offset, width) + 1)
    ensures 8 * LastBytePosition(offset, width) < offset + width
  {
  }

  /** Get reads only the bytes of the span. */
  lemma {:induction false} DecodeReadsSpan(b: seq<Byte>, c: seq<Byte>, offset: nat, width: nat, endian: Endian)
    requires 0 < width <= 64 && offset + width <= 8 * |b| && |c| == |b|
    requires forall p :: BytePosition(offset) <= p <= LastBytePosition(offset, width) && p < |b| ==> b[p] == c[p]
    ensures Decode(b, offset, width, endian) == Decode(c, offset, width, endian)
  {
    forall k | 0 <= k < width
      ensures Field(b, offset, width)[k] == Field(c, offset, width)[k]
    {
      var p, q := (offset + k) / 8, (offset + k) % 8;
      BitAtByte(b, p, q);
      BitAtByte(c, p, q);
    }
    assert Field(b, offset, width) == Field(c, offset, width);
  }

  /** Set writes only the bytes of the span, whatever the value. */
  lemma SetWritesSpan(b: seq<Byte>, offset: nat, width: nat, x: Word)
    requires 0 < width <= 64 && offset + width <= 8 * |b|
    ensures forall p :: 0 <= p < |b| && !(BytePosition(offset) <= p <= LastBytePosition(offset, width)) ==>
      Stored(b, offset, width, x)[p] == b[p]
  {
    forall p | 0 <= p < |b| && !(BytePosition(offset) <= p <= LastBytePosition(offset, width))
      ensures Stored(b, offset, width, x)[p] == b[p]
    {
      StoredOutside(b, offset, width, x, p);
    }
  }

  /** After a set, the field holds the low `width` bits of the pattern. */
  lemma {:induction false} StoredField(b: seq<Byte>, offset: nat, width: nat, x: Word)
    requires width <= 64 && offset + width <= 8 * |b|
    ensures Field(Stored(b, offset, width, x), offset, width) == x[64 - width..]
  {
    var s := Stored(b, offset, width, x);
    forall k | 0 <= k < width
      ensures Field(s, offset, width)[k] == x[64 - width..][k]
    {
      var p, q := (offset + k) / 8, (offset + k) % 8;
      BitAtByte(s, p, q);
    }
  }

  /** Get after set returns the value, truncated to the field: the value itself when it fits. */
  lemma SetThenGet(b: seq<Byte>, offset: nat, width: nat, endian: Endian, v: Word)
    requires width <= 64 && offset + width <= 8 * |b|
    ensures Decode(Stored(b, offset, width, Encode(v, width, endian)), offset, width, endian) == Truncate(v, width)
    ensures Fits(v, width) ==> Decode(Stored(b, offset, width, Encode(v, width, endian)), offset, width, endian) == v
  {
    var x := Encode(v, width, endian);
    StoredField(b, offset, width, x);
    var raw := ZeroExtend(Field(Stored(b, offset, width, x), offset, width));
    assert raw[64 - width..] == x[64 - width..];
    if NeedSwap(width, endian) {
      FromToLittle(v, width);
    }
    if Fits(v, width) {
      TruncateFits(v, width);
    }
  }

  /** Set preserves every bit outside the field when the pattern fits the field. */
  lemma SetPreservesOthers(b: seq<Byte>, offset: nat, width: nat, x: Word)
    requires width <= 64 && offset + width <= 8 * |b| && Fits(x, width)
    ensures forall i :: 0 <= i < 8 * |b| && !(offset <= i < offset + width) ==>
      BitAt(Stored(b, offset, width, x), i) == BitAt(b, i)
  {
    var s := Stored(b, offset, width, x);
    forall i | 0 <= i < 8 * |b| && !(offset <= i < offset + width)
      ensures BitAt(s, i) == BitAt(b, i)
    {
      var p, q := i / 8, i % 8;
      BitAtByte(s, p, q);
      BitAtByte(b, p, q);
    }
  }

  /** The pattern fits the field when the value does, and always when it is byte swapped. */
  lemma EncodeFits(v: Word, width: nat, endian: Endian)
    requires width <= 64 && (Fits(v, width) || NeedSwap(width, endian))
    ensures Fits(Encode(v, width, endian), width)
  {
  }

  /** Big-endian fields and fields of at most eight bits are neither swapped on get nor on set. */
  lemma NoSwapWithoutLittleEndian(b: seq<Byte>, offset: nat, width: nat, endian: Endian, v: Word)
    requires 0 < width <= 64 && offset + width <= 8 * |b| && (endian == BigEndian || width <= 8)
    ensures Decode(b, offset, width, endian) == ZeroExtend(Field(b, offset, width))
    ensures Encode(v, width, endian) == v
  {
  }

  /** A little-endian field of whole bytes reads as its bytes reversed. */
  lemma LittleEndianWholeBytes(b: seq<Byte>, offset: nat, width: nat)
    requires 8 < width <= 64 && width % 8 == 0 && offset + width <= 8 * |b|
    ensures Decode(b, offset, width, LittleEndian) == Zeros(64 - width) + ByteRev(Field(b, offset, width))
  {
    var raw := ZeroExtend(Field(b, offset, width));
    FromLittleWholeBytes(raw, width);
    assert raw[64 - width..] == Field(b, offset, width);
  }

  // ---------------------------------------------------------------------
  // The value is not masked to the field before it is ORed into the first
  // byte, so a value of `width` bits or more sets bits in front of the field.

  /** Storing 0xFF into the four-bit field at offset 4 of a zero byte sets bit 0 of the byte, outside the field. */
  lemma SetLeaksAboveField()
    ensures var b: seq<Byte> := [Zeros(8)];
            !BitAt(b, 0) && BitAt(Stored(b, 4, 4, Encode(ByteMax(), 4, BigEndian)), 0)
  {
    var b: seq<Byte> := [Zeros(8)];
    BitAtByte(b, 0, 0);
    BitAtByte(Stored(b, 4, 4, ByteMax()), 0, 0);
  }

  /** binary_set_uint64 with the value first cut to the field width, as the clear masks intend. */
  method SetUint64Masked(bytes: array<Byte>, offset: nat, width: nat, endian: Endian, value: Word)
    requires 0 < width <= 64 && offset + width <= 8 * bytes.Length
    modifies bytes
    ensures bytes[..] == Stored(old(bytes[..]), offset, width, Encode(Truncate(value, width), width, endian))
  {
    SetUint64(bytes, offset, width, endian, Truncate(value, width));
  }

  /** The masked set keeps every bit outside the field and reads back as the truncated value, for every value. */
  lemma MaskedSetIsExact(b: seq<Byte>, offset: nat, width: nat, endian: Endian, v: Word)
    requires 0 < width <= 64 && offset + width <= 8 * |b|
    ensures var s := Stored(b, offset, width, Encode(Truncate(v, width), width, endian));
            && Decode(s, offset, width, endian) == Truncate(v, width)
            && forall i :: 0 <= i < 8 * |b| && !(offset <= i < offset + width) ==> BitAt(s, i) == BitAt(b, i)
  {
    var t := Truncate(v, width);
    EncodeFits(t, width, endian);
    SetPreservesOthers(b, offset, width, Encode(t, width, endian));
    SetThenGet(b, offset, width, endian, t);
  }
}
