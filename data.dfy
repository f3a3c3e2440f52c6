/**
 * Data views: a window `(offset, length)` in bytes over the allocation of a
 * handle, plus a reference to a layout in the Lua registry. Fields named by
 * the layout are read and written through the window: numbers with the bit
 * codec, strings as byte ranges. Segments are further views over the same
 * handle, each one holding it once more.
 *
 * The bounds checks work in size_t (modulo 2^64) and are modelled as written
 * (CheckLimits, CheckNumLimits, CheckStrLimits). The number and string paths
 * of a view use check_num_limits, check_str_limits and binary_set_uint64 as
 * written; NumberReadExact, NumberWrittenExact, StringReadExact and
 * StringWrittenExact are what they evidently intend. Segments use the exact
 * check WithinView, for the reasons under "Findings" in the README.
 */
module Data {
  import opened Words
  import opened ByteSwap
  import opened Binary
  import opened Handle
  import opened Layout

  /** LUA_INTEGER_BIT for a 64-bit lua_Integer. */
  function LuaIntegerBit(): nat
  {
    64
  }

  // ---------------------------------------------------------------------
  // The bounds checks as written, in size_t arithmetic.

  /** check_offset: `data->offset + data->length - 1` is computed in size_t. */
  predicate CheckOffset(dOffset: SizeT, dLength: SizeT, offset: SizeT)
  {
    var lastPos := Wrap(dOffset + dLength - 1);
    offset >= dOffset && offset <= lastPos
  }

  /** check_length: both sums are computed in size_t. */
  predicate CheckLength(dOffset: SizeT, dLength: SizeT, offset: SizeT, length: SizeT)
  {
    Wrap(offset + length) <= Wrap(dOffset + dLength)
  }

  /** check_limits */
  predicate CheckLimits(dOffset: SizeT, dLength: SizeT, offset: SizeT, length: SizeT)
  {
    CheckOffset(dOffset, dLength, offset) && CheckLength(dOffset, dLength, offset, length)
  }

  /** BIT_TO_BYTE in size_t. */
  function BitToByteSize(x: SizeT): SizeT
  {
    Wrap(x + 8 - 1) / 8
  }

  /** ENTRY_BYTE_OFFSET: the byte of the view holding the first bit of the entry. */
  function EntryByteOffset(dOffset: SizeT, e: Entry): SizeT
  {
    Wrap(Wrap(BitToByteSize(Wrap(e.offset + 1)) - 1) + dOffset)
  }

  /** check_num_limits */
  predicate CheckNumLimits(dOffset: SizeT, dLength: SizeT, e: Entry)
  {
    e.length <= LuaIntegerBit() && CheckLimits(dOffset, dLength, EntryByteOffset(dOffset, e), BitToByteSize(e.length))
  }

  /** check_str_limits */
  predicate CheckStrLimits(dOffset: SizeT, dLength: SizeT, e: Entry)
  {
    CheckLimits(dOffset, dLength, Wrap(e.offset + dOffset), e.length)
  }

  /** Without wrap-around, check_limits says: the offset lies in the view and the range ends inside it. */
  lemma CheckLimitsWithoutWrap(dOffset: SizeT, dLength: SizeT, offset: SizeT, length: SizeT)
    requires 0 < dLength && dOffset + dLength < SizeLimit() && offset + length < SizeLimit()
    ensures CheckLimits(dOffset, dLength, offset, length) <==> WithinView(dOffset, dLength, offset, length)
  {
  }

  /** Away from the top of size_t, ENTRY_BYTE_OFFSET is the view offset plus the entry's whole bytes. */
  lemma EntryByteOffsetIsFloor(dOffset: SizeT, e: Entry)
    requires e.offset + 8 < SizeLimit() && dOffset + e.offset / 8 < SizeLimit()
    ensures EntryByteOffset(dOffset, e) == dOffset + e.offset / 8
  {
    var x := e.offset + 1;
    assert BitToByteSize(Wrap(x)) == (x + 7) / 8;
    assert (e.offset + 8) / 8 == e.offset / 8 + 1;
  }

  /**
   * A view of length zero at offset zero: `offset + length - 1` wraps to the
   * largest size_t, so every offset passes check_offset, and a range whose
   * end wraps to zero passes check_length too.
   */
  lemma EmptyViewAcceptsAnyOffset(offset: SizeT)
    ensures CheckOffset(0, 0, offset)
    ensures CheckLimits(0, 0, SizeLimit() - 5, 5) && !WithinView(0, 0, SizeLimit() - 5, 5)
  {
  }

  /** check_length adds in size_t: a length of 2^64 - 1 at offset 5 ends at 4, inside a 10-byte view. */
  lemma LengthSumWraps()
    ensures CheckLimits(0, 10, 5, SizeLimit() - 1) && !WithinView(0, 10, 5, SizeLimit() - 1)
  {
  }

  /**
   * check_num_limits counts the bytes of `length` bits from a byte boundary:
   * 8 bits from bit 4 of a one-byte view pass, yet they end in the byte
   * after the view.
   */
  lemma NumLimitsMissLastByte()
    ensures CheckNumLimits(0, 1, Entry(4, 8, Number, BigEndian))
    ensures LastBytePosition(4, 8) == 1
    ensures !NumLimitsExact(0, 1, Entry(4, 8, Number, BigEndian))
  {
  }

  // ---------------------------------------------------------------------
  // The exact checks the views use.

  /** The range [offset, offset + length) starts inside the view and ends inside it. */
  predicate WithinView(dOffset: nat, dLength: nat, offset: nat, length: nat)
  {
    dOffset <= offset < dOffset + dLength && offset + length <= dOffset + dLength
  }

  /** A number entry: at most 64 bits, and every byte the codec touches is in the view. */
  predicate NumLimitsExact(dOffset: nat, dLength: nat, e: Entry)
  {
    0 < e.length <= LuaIntegerBit() &&
    WithinView(dOffset, dLength, dOffset + e.offset / 8, BitToByte(e.offset % 8 + e.length))
  }

  /** A string entry: its bytes are in the view. */
  predicate StrLimitsExact(dOffset: nat, dLength: nat, e: Entry)
  {
    WithinView(dOffset, dLength, dOffset + e.offset, e.length)
  }

  /** A number entry that passes the exact check lies, with all the bytes get and set touch, inside the view. */
  lemma NumFieldInsideView(dOffset: nat, dLength: nat, e: Entry)
    requires NumLimitsExact(dOffset, dLength, e)
    ensures 8 * dOffset + e.offset + e.length <= 8 * (dOffset + dLength)
    ensures dOffset <= BytePosition(8 * dOffset + e.offset)
    ensures LastBytePosition(8 * dOffset + e.offset, e.length) < dOffset + dLength
  {
    var bit := 8 * dOffset + e.offset;
    assert BytePosition(bit) == dOffset + e.offset / 8;
    assert MsbOffset(bit) == e.offset % 8;
  }

  /**
   * Away from the top of size_t, the exact check accepts only number entries
   * check_num_limits accepts (for strings, StringExactAgreesWithAsWritten).
   */
  lemma ExactChecksAreStricter(dOffset: SizeT, dLength: SizeT, e: Entry)
    requires dOffset + dLength < SizeLimit() && e.offset + 8 < SizeLimit()
    ensures NumLimitsExact(dOffset, dLength, e) ==> CheckNumLimits(dOffset, dLength, e)
  {
    if NumLimitsExact(dOffset, dLength, e) {
      EntryByteOffsetIsFloor(dOffset, e);
      var n, m := BitToByte(e.length), BitToByte(e.offset % 8 + e.length);
      assert BitToByteSize(e.length) == n;
      assert n <= m;
      CheckLimitsWithoutWrap(dOffset, dLength, dOffset + e.offset / 8, n);
    }
  }

  // ---------------------------------------------------------------------
  // What a view reads and writes, on the bytes of the allocation.

  /**
   * The bytes binary_get_uint64 and binary_set_uint64 touch for a number
   * entry of a view at dOffset lie in an allocation of `size` bytes: those
   * of the field, and for an entry of length 0 the byte of its first bit.
   */
  predicate NumInAllocation(size: nat, dOffset: nat, e: Entry)
  {
    8 * dOffset + e.offset + e.length <= 8 * size && 8 * dOffset + e.offset < 8 * size
  }

  /** get_num: the number in the entry once check_num_limits lets it through, else no result. */
  function NumberRead(b: seq<Byte>, dOffset: SizeT, dLength: SizeT, e: Entry): (r: Option<Word>)
    requires CheckNumLimits(dOffset, dLength, e) ==> NumInAllocation(|b|, dOffset, e)
    ensures r.Some? <==> CheckNumLimits(dOffset, dLength, e)
    ensures r.Some? ==> Fits(r.value, e.length)
  {
    if !CheckNumLimits(dOffset, dLength, e) then None
    else Some(Decode(b, 8 * dOffset + e.offset, e.length, e.endian))
  }

  /** set_num: the bytes after binary_set_uint64 stores the value, which is not cut to the entry's width first. */
  function NumberWritten(b: seq<Byte>, dOffset: SizeT, dLength: SizeT, e: Entry, value: Word): (r: seq<Byte>)
    requires CheckNumLimits(dOffset, dLength, e) ==> NumInAllocation(|b|, dOffset, e)
    ensures |r| == |b|
    ensures !CheckNumLimits(dOffset, dLength, e) ==> r == b
  {
    if !CheckNumLimits(dOffset, dLength, e) then b
    else Stored(b, 8 * dOffset + e.offset, e.length, Encode(value, e.length, e.endian))
  }

  /**
   * A number read back after it was written is the value cut to the entry.
   * No other bit of the buffer changes when the value fits the entry or the
   * field is byte swapped; otherwise the write also sets bits in front of the
   * field (NumberWriteLeaks).
   */
  lemma NumberRoundTrip(b: seq<Byte>, dOffset: SizeT, dLength: SizeT, e: Entry, value: Word)
    requires CheckNumLimits(dOffset, dLength, e) && NumInAllocation(|b|, dOffset, e)
    ensures NumberRead(NumberWritten(b, dOffset, dLength, e, value), dOffset, dLength, e) == Some(Truncate(value, e.length))
    ensures Fits(value, e.length) || NeedSwap(e.length, e.endian) ==>
      forall i :: 0 <= i < 8 * |b| && !(8 * dOffset + e.offset <= i < 8 * dOffset + e.offset + e.length) ==>
        BitAt(NumberWritten(b, dOffset, dLength, e, value), i) == BitAt(b, i)
  {
    var bit := 8 * dOffset + e.offset;
    SetThenGet(b, bit, e.length, e.endian, value);
    if Fits(value, e.length) || NeedSwap(e.length, e.endian) {
      EncodeFits(value, e.length, e.endian);
      SetPreservesOthers(b, bit, e.length, Encode(value, e.length, e.endian));
    }
  }

  /** In a one-byte view of a zero byte, storing 0xFF into the four-bit number at bit 4 sets bit 0, in front of the field. */
  lemma NumberWriteLeaks()
    ensures var b: seq<Byte>, e := [Zeros(8)], Entry(4, 4, Number, BigEndian);
      && CheckNumLimits(0, 1, e) && NumInAllocation(|b|, 0, e)
      && !BitAt(b, 0) && BitAt(NumberWritten(b, 0, 1, e, ByteMax()), 0)
  {
    SetLeaksAboveField();
  }

  /**
   * In the first byte of a two-byte allocation, check_num_limits lets the
   * eight-bit number at bit 4 through. Storing 0xFF writes the second byte,
   * which lies outside the view, and what get_num returns depends on it.
   */
  lemma NumberLeavesView()
    ensures var b: seq<Byte>, e := [Zeros(8), Zeros(8)], Entry(4, 8, Number, BigEndian);
      && CheckNumLimits(0, 1, e) && NumInAllocation(|b|, 0, e)
      && NumberWritten(b, 0, 1, e, ByteMax())[1] != b[1]
      && NumberRead(b, 0, 1, e) != NumberRead([Zeros(8), Narrow(ByteMax())], 0, 1, e)
  {
    var b: seq<Byte>, e := [Zeros(8), Zeros(8)], Entry(4, 8, Number, BigEndian);
    var c: seq<Byte> := [Zeros(8), Narrow(ByteMax())];
    assert StoredByte(b, 4, 8, ByteMax(), 1)[0];
    assert BitAt(b, 8) != BitAt(c, 8);
    assert Field(b, 4, 8)[4] != Field(c, 4, 8)[4];
    assert Decode(b, 4, 8, BigEndian)[60] != Decode(c, 4, 8, BigEndian)[60];
  }

  /** get_num with the exact check: the number in the entry, or no result. */
  function NumberReadExact(b: seq<Byte>, dOffset: nat, dLength: nat, e: Entry): (r: Option<Word>)
    requires dOffset + dLength <= |b|
    ensures r.Some? <==> NumLimitsExact(dOffset, dLength, e)
    ensures r.Some? ==> Fits(r.value, e.length)
  {
    if !NumLimitsExact(dOffset, dLength, e) then None
    else
      NumFieldInsideView(dOffset, dLength, e);
      Some(Decode(b, 8 * dOffset + e.offset, e.length, e.endian))
  }

  /** set_num with the exact check, storing the value cut to the entry's width. */
  function NumberWrittenExact(b: seq<Byte>, dOffset: nat, dLength: nat, e: Entry, value: Word): (r: seq<Byte>)
    requires dOffset + dLength <= |b|
    ensures |r| == |b|
    ensures !NumLimitsExact(dOffset, dLength, e) ==> r == b
  {
    if !NumLimitsExact(dOffset, dLength, e) then b
    else
      NumFieldInsideView(dOffset, dLength, e);
      Stored(b, 8 * dOffset + e.offset, e.length, Encode(Truncate(value, e.length), e.length, e.endian))
  }

  /** With the exact check, a number read back is the value cut to the entry, and no bit outside the entry changed, for every value. */
  lemma NumberRoundTripExact(b: seq<Byte>, dOffset: nat, dLength: nat, e: Entry, value: Word)
    requires dOffset + dLength <= |b| && NumLimitsExact(dOffset, dLength, e)
    ensures NumberReadExact(NumberWrittenExact(b, dOffset, dLength, e, value), dOffset, dLength, e) == Some(Truncate(value, e.length))
    ensures forall i :: 0 <= i < 8 * |b| && !(8 * dOffset + e.offset <= i < 8 * dOffset + e.offset + e.length) ==>
      BitAt(NumberWrittenExact(b, dOffset, dLength, e, value), i) == BitAt(b, i)
  {
    NumFieldInsideView(dOffset, dLength, e);
    MaskedSetIsExact(b, 8 * dOffset + e.offset, e.length, e.endian, value);
  }

  /** With the exact check, a number write changes no byte outside the view. */
  lemma NumberWriteStaysInView(b: seq<Byte>, dOffset: nat, dLength: nat, e: Entry, value: Word)
    requires dOffset + dLength <= |b|
    ensures forall p :: 0 <= p < |b| && !(dOffset <= p < dOffset + dLength) ==>
      NumberWrittenExact(b, dOffset, dLength, e, value)[p] == b[p]
  {
    if NumLimitsExact(dOffset, dLength, e) {
      NumFieldInsideView(dOffset, dLength, e);
      var x := Encode(Truncate(value, e.length), e.length, e.endian);
      SetWritesSpan(b, 8 * dOffset + e.offset, e.length, x);
    }
  }

  /**
   * Away from the top of size_t, an entry that passes the exact check passes
   * check_num_limits, its bytes are in the allocation, and get_num reads what
   * the exact read gives; set_num writes the same bytes when the value fits.
   */
  lemma ExactAgreesWithAsWritten(b: seq<Byte>, dOffset: SizeT, dLength: SizeT, e: Entry, value: Word)
    requires dOffset + dLength <= |b| && dOffset + dLength < SizeLimit() && e.offset + 8 < SizeLimit()
    requires NumLimitsExact(dOffset, dLength, e)
    ensures CheckNumLimits(dOffset, dLength, e) && NumInAllocation(|b|, dOffset, e)
    ensures NumberRead(b, dOffset, dLength, e) == NumberReadExact(b, dOffset, dLength, e)
    ensures Fits(value, e.length) ==> NumberWritten(b, dOffset, dLength, e, value) == NumberWrittenExact(b, dOffset, dLength, e, value)
  {
    ExactChecksAreStricter(dOffset, dLength, e);
    NumFieldInsideView(dOffset, dLength, e);
    if Fits(value, e.length) {
      TruncateFits(value, e.length);
    }
  }

  function Min(x: nat, y: nat): nat
  {
    if x <= y then x else y
  }

  /** memcpy(b + start, s, n) */
  function Memcpy(b: seq<Byte>, start: nat, s: seq<Byte>, n: nat): (r: seq<Byte>)
    requires n <= |s| && start + n <= |b|
    ensures |r| == |b|
  {
    b[..start] + s[..n] + b[start + n..]
  }

  /** memcpy puts the n bytes of s at start, after which the rest of a range of len bytes is as it was, and leaves every other byte alone. */
  lemma MemcpyCopies(b: seq<Byte>, start: nat, s: seq<Byte>, n: nat, len: nat)
    requires n <= |s| && n <= len && start + len <= |b|
    ensures var r := Memcpy(b, start, s, n);
      && r[start .. start + n] == s[..n]
      && r[start .. start + len] == s[..n] + b[start + n .. start + len]
      && (forall p :: 0 <= p < |b| && !(start <= p < start + n) ==> r[p] == b[p])
  {
    var r, pre, mid, post := Memcpy(b, start, s, n), b[..start], s[..n], b[start + n..];
    assert r == pre + mid + post;
    assert r[start .. start + n] == mid;
    assert r[start .. start + len] == mid + post[..len - n];
    forall p | 0 <= p < |b| && !(start <= p < start + n)
      ensures r[p] == b[p]
    {
      if p < start {
        assert r[p] == pre[p];
      } else {
        assert r[p] == post[p - start - n];
      }
    }
  }

  /** The bytes get_str reads for e, at a view at dOffset, lie in an allocation of `size` bytes. */
  predicate StrReadInAllocation(size: nat, dOffset: nat, e: Entry)
  {
    dOffset + e.offset + e.length <= size
  }

  /** The bytes set_str copies s to, at a view at dOffset, lie in an allocation of `size` bytes. */
  predicate StrWriteInAllocation(size: nat, dOffset: nat, e: Entry, s: seq<Byte>)
  {
    dOffset + e.offset + Min(|s|, e.length) <= size
  }

  /** get_str: the entry's bytes once check_str_limits lets it through, else no result. */
  function StringRead(b: seq<Byte>, dOffset: SizeT, dLength: SizeT, e: Entry): (r: Option<seq<Byte>>)
    requires CheckStrLimits(dOffset, dLength, e) ==> StrReadInAllocation(|b|, dOffset, e)
    ensures r.Some? <==> CheckStrLimits(dOffset, dLength, e)
    ensures r.Some? ==> |r.value| == e.length
  {
    if !CheckStrLimits(dOffset, dLength, e) then None
    else Some(b[dOffset + e.offset .. dOffset + e.offset + e.length])
  }

  /** set_str: once check_str_limits lets e through, memcpy of MIN(len, entry->length) bytes of s to the entry. */
  function StringWritten(b: seq<Byte>, dOffset: SizeT, dLength: SizeT, e: Entry, s: seq<Byte>): (r: seq<Byte>)
    requires CheckStrLimits(dOffset, dLength, e) ==> StrWriteInAllocation(|b|, dOffset, e, s)
    ensures |r| == |b|
    ensures !CheckStrLimits(dOffset, dLength, e) ==> r == b
  {
    if !CheckStrLimits(dOffset, dLength, e) then b
    else Memcpy(b, dOffset + e.offset, s, Min(|s|, e.length))
  }

  /**
   * A string write that check_str_limits lets through copies MIN(len, length)
   * bytes to the entry and leaves every other byte of the allocation alone;
   * get_str then reads them back, followed by the rest of the old entry.
   */
  lemma StringWriteCopies(b: seq<Byte>, dOffset: SizeT, dLength: SizeT, e: Entry, s: seq<Byte>)
    requires CheckStrLimits(dOffset, dLength, e) && StrReadInAllocation(|b|, dOffset, e)
    ensures var r, start, n := StringWritten(b, dOffset, dLength, e, s), dOffset + e.offset, Min(|s|, e.length);
      && r[start .. start + n] == s[..n]
      && (forall p :: 0 <= p < |b| && !(start <= p < start + n) ==> r[p] == b[p])
      && StringRead(r, dOffset, dLength, e) == Some(s[..n] + b[start + n .. start + e.length])
  {
    MemcpyCopies(b, dOffset + e.offset, s, Min(|s|, e.length), e.length);
  }

  /**
   * check_str_limits adds in size_t. A string of length 2^64 - 1 at offset 2
   * of a five-byte view passes, and set_str copies four bytes to 2..5: byte 5
   * lies outside the view. In an empty view at offset 0, a one-byte string at
   * offset 2^64 - 1 (that is, -1) passes too, and get_str reads the byte at
   * ptr - 1, in front of the view.
   */
  lemma StringLeavesView()
    ensures var b, e, s := seq(10, _ => Zeros(8)), Entry(2, SizeLimit() - 1, String, BigEndian), seq(4, _ => Narrow(ByteMax()));
      && CheckStrLimits(0, 5, e) && !StrLimitsExact(0, 5, e) && StrWriteInAllocation(|b|, 0, e, s)
      && StringWritten(b, 0, 5, e, s)[5] != b[5]
    ensures var e := Entry(SizeLimit() - 1, 1, String, BigEndian);
      CheckStrLimits(0, 0, e) && !StrLimitsExact(0, 0, e)
  {
    var b, e, s := seq(10, _ => Zeros(8)), Entry(2, SizeLimit() - 1, String, BigEndian), seq(4, _ => Narrow(ByteMax()));
    assert StringWritten(b, 0, 5, e, s)[5] == s[3];
    assert s[3][0] && !b[5][0];
  }

  /** get_str with the exact check: the entry's bytes, or no result. */
  function StringReadExact(b: seq<Byte>, dOffset: nat, dLength: nat, e: Entry): (r: Option<seq<Byte>>)
    requires dOffset + dLength <= |b|
    ensures r.Some? <==> StrLimitsExact(dOffset, dLength, e)
    ensures r.Some? ==> |r.value| == e.length
  {
    if !StrLimitsExact(dOffset, dLength, e) then None
    else Some(b[dOffset + e.offset .. dOffset + e.offset + e.length])
  }

  /** set_str with the exact check. */
  function StringWrittenExact(b: seq<Byte>, dOffset: nat, dLength: nat, e: Entry, s: seq<Byte>): (r: seq<Byte>)
    requires dOffset + dLength <= |b|
    ensures |r| == |b|
    ensures !StrLimitsExact(dOffset, dLength, e) ==> r == b
  {
    if !StrLimitsExact(dOffset, dLength, e) then b
    else Memcpy(b, dOffset + e.offset, s, Min(|s|, e.length))
  }

  /** With the exact check, a string write copies MIN(len, length) bytes to the entry, which get_str reads back, and changes no byte outside the view. */
  lemma StringWriteCopiesExact(b: seq<Byte>, dOffset: nat, dLength: nat, e: Entry, s: seq<Byte>)
    requires dOffset + dLength <= |b| && StrLimitsExact(dOffset, dLength, e)
    ensures var r, start, n := StringWrittenExact(b, dOffset, dLength, e, s), dOffset + e.offset, Min(|s|, e.length);
      && r[start .. start + n] == s[..n]
      && (forall p :: 0 <= p < |b| && !(start <= p < start + n) ==> r[p] == b[p])
      && (forall p :: 0 <= p < |b| && !(dOffset <= p < dOffset + dLength) ==> r[p] == b[p])
      && StringReadExact(r, dOffset, dLength, e) == Some(s[..n] + b[start + n .. start + e.length])
  {
    MemcpyCopies(b, dOffset + e.offset, s, Min(|s|, e.length), e.length);
  }

  /**
   * Away from the top of size_t, a string entry that passes the exact check
   * passes check_str_limits, its bytes are in the allocation, and get_str and
   * set_str as written do what the exact paths do.
   */
  lemma StringExactAgreesWithAsWritten(b: seq<Byte>, dOffset: SizeT, dLength: SizeT, e: Entry, s: seq<Byte>)
    requires dOffset + dLength <= |b| && dOffset + dLength < SizeLimit()
    requires StrLimitsExact(dOffset, dLength, e)
    ensures CheckStrLimits(dOffset, dLength, e) && StrReadInAllocation(|b|, dOffset, e)
    ensures StringRead(b, dOffset, dLength, e) == StringReadExact(b, dOffset, dLength, e)
    ensures StringWritten(b, dOffset, dLength, e, s) == StringWrittenExact(b, dOffset, dLength, e, s)
  {
    assert Wrap(e.offset + dOffset) == dOffset + e.offset;
    CheckLimitsWithoutWrap(dOffset, dLength, dOffset + e.offset, e.length);
  }

  /** Where a string path reaches in memory, as get_str and set_str are written. */
  datatype StrAccess = Skipped | NullDereference | Touches(start: nat, count: nat)

  /** get_str as written: after the limits check the pointer is used without a test for NULL. */
  function GetStrAccessAsWritten(dOffset: SizeT, dLength: SizeT, e: Entry, ptr: Option<Pointer>): (r: StrAccess)
    ensures r.NullDereference? <==> CheckStrLimits(dOffset, dLength, e) && ptr.None?
    ensures r.Touches? ==> ptr.Some? && r.start == ptr.value.offset + e.offset && r.count == e.length
  {
    if !CheckStrLimits(dOffset, dLength, e) then Skipped
    else if ptr.None? then NullDereference
    else Touches(ptr.value.offset + e.offset, e.length)
  }

  /** set_str as written: the string is tested, the pointer is not. */
  function SetStrAccessAsWritten(dOffset: SizeT, dLength: SizeT, e: Entry, ptr: Option<Pointer>, s: Option<seq<Byte>>): (r: StrAccess)
    ensures r.NullDereference? <==> CheckStrLimits(dOffset, dLength, e) && s.Some? && ptr.None?
    ensures r.Touches? ==> ptr.Some? && s.Some? && r.start == ptr.value.offset + e.offset && r.count == Min(|s.value|, e.length)
  {
    if !CheckStrLimits(dOffset, dLength, e) || s.None? then Skipped
    else if ptr.None? then NullDereference
    else Touches(ptr.value.offset + e.offset, Min(|s.value|, e.length))
  }

  /** After unref, a string field that fits the view is read and written through NULL. */
  lemma DetachedStringAccess(s: seq<Byte>)
    ensures var e := Entry(0, 4, String, BigEndian);
      GetStrAccessAsWritten(0, 4, e, None) == NullDereference &&
      SetStrAccessAsWritten(0, 4, e, None, Some(s)) == NullDereference
  {
  }

  // ---------------------------------------------------------------------
  // The Lua registry holding the layouts views refer to.

  /** LUA_REFNIL */
  function RefNil(): int
  {
    -1
  }

  /** LUA_NOREF */
  function NoRef(): int
  {
    -2
  }

  /** luau_isvalidref */
  predicate IsValidRef(r: int)
  {
    r != RefNil() && r != NoRef()
  }

  /** The part of the Lua registry luaL_ref and luaL_unref manage. */
  class Registry {
    var slots: map<int, LayoutTable>
    var next: int

    ghost predicate Valid()
      reads this
    {
      0 < next && forall r :: r in slots ==> 0 < r < next
    }

    constructor ()
      ensures Valid() && slots == map[]
    {
      slots := map[];
      next := 1;
    }

    /** luaL_ref: a new positive reference to t. */
    method Ref(t: LayoutTable) returns (r: int)
      requires Valid()
      modifies this
      ensures Valid() && IsValidRef(r) && r !in old(slots) && slots == old(slots)[r := t]
    {
      r := next;
      slots := slots[r := t];
      next := next + 1;
    }

    /** luaL_unref: releases r; nothing happens for a reference that is not held (LUA_REFNIL among them). */
    method Unref(r: int)
      requires Valid()
      modifies this
      ensures Valid() && slots == old(slots) - {r}
      ensures !IsValidRef(r) ==> slots == old(slots)
    {
      slots := slots - {r};
    }
  }

  // ---------------------------------------------------------------------
  // data_t

  /** What get_field returns: nothing, or the number or string pushed. */
  datatype FieldResult = NoResult | NumberResult(number: Word) | StringResult(bytes: seq<Byte>)

  class View {
    const handle: Handle
    const offset: SizeT
    const length: SizeT
    var layout: int

    /** The view lies inside the allocation while the allocation is attached. */
    ghost predicate Valid()
      reads this, handle
    {
      handle.Valid() && (handle.buffer != null ==> offset + length <= handle.buffer.Length)
    }

    /** new_data: a view without a layout. */
    constructor New(handle: Handle, offset: SizeT, length: SizeT)
      ensures this.handle == handle && this.offset == offset && this.length == length && layout == RefNil()
    {
      this.handle := handle;
      this.offset := offset;
      this.length := length;
      layout := RefNil();
    }

    /** data_get_ptr */
    function GetPtr(): (r: Option<Pointer>)
      reads this, handle
      ensures r.None? <==> handle.buffer == null
      ensures r.Some? ==> r.value == Pointer(handle.buffer, offset)
    {
      handle.GetPtr(offset)
    }

    /** data_unref: detaches the allocation from every view of the handle. */
    method Unref()
      modifies handle
      ensures handle.buffer == null && handle.size == 0
      ensures handle.refcount == old(handle.refcount) && handle.frees == old(handle.frees) && handle.released == old(handle.released)
    {
      handle.Unref();
    }

    /**
     * The bytes that get_num and set_num touch for e, once check_num_limits
     * lets it through, exist in the allocation.
     */
    predicate NumAccessDefined(e: Entry)
      reads this, handle
    {
      handle.buffer != null && CheckNumLimits(offset, length, e) ==> NumInAllocation(handle.buffer.Length, offset, e)
    }

    /** get_num */
    method GetNum(e: Entry) returns (r: Option<Word>)
      requires Valid() && NumAccessDefined(e)
      ensures handle.buffer == null ==> r.None?
      ensures handle.buffer != null ==> r == NumberRead(handle.buffer[..], offset, length, e)
    {
      if !CheckNumLimits(offset, length, e) {
        return None;
      }
      var ptr := GetPtr();
      if ptr.None? {
        return None;
      }
      var value := GetUint64(ptr.value.buffer, 8 * ptr.value.offset + e.offset, e.length, e.endian);
      r := Some(value);
    }

    /** set_num; `value` is lua_tointeger of the argument, as its 64-bit pattern. */
    method SetNum(e: Entry, value: Word)
      requires Valid() && NumAccessDefined(e)
      modifies handle.buffer
      ensures handle.buffer != null ==> handle.buffer[..] == NumberWritten(old(handle.buffer[..]), offset, length, e, value)
    {
      if !CheckNumLimits(offset, length, e) {
        return;
      }
      var ptr := GetPtr();
      if ptr.None? {
        return;
      }
      SetUint64(ptr.value.buffer, 8 * ptr.value.offset + e.offset, e.length, e.endian, value);
    }

    /** The bytes get_str reads for e, once check_str_limits lets it through, exist in the allocation. */
    predicate StrReadDefined(e: Entry)
      reads this, handle
    {
      handle.buffer != null && CheckStrLimits(offset, length, e) ==> StrReadInAllocation(handle.buffer.Length, offset, e)
    }

    /** The bytes set_str copies s to, once check_str_limits lets e through, exist in the allocation. */
    predicate StrWriteDefined(e: Entry, s: Option<seq<Byte>>)
      reads this, handle
    {
      handle.buffer != null && s.Some? && CheckStrLimits(offset, length, e) ==> StrWriteInAllocation(handle.buffer.Length, offset, e, s.value)
    }

    /** get_str; a detached view gives no result where the source reads through NULL (DetachedStringAccess). */
    method GetStr(e: Entry) returns (r: Option<seq<Byte>>)
      requires Valid() && StrReadDefined(e)
      ensures handle.buffer == null ==> r.None?
      ensures handle.buffer != null ==> r == StringRead(handle.buffer[..], offset, length, e)
    {
      if !CheckStrLimits(offset, length, e) {
        return None;
      }
      var ptr := GetPtr();
      if ptr.None? {
        return None;
      }
      var start := ptr.value.offset + e.offset;
      r := Some(ptr.value.buffer[start .. start + e.length]);
    }

    /**
     * set_str; `s` is lua_tolstring of the argument, None when it is neither
     * a string nor a number. A detached view writes nothing where the source
     * writes through NULL (DetachedStringAccess).
     */
    method SetStr(e: Entry, s: Option<seq<Byte>>)
      requires Valid() && StrWriteDefined(e, s)
      modifies handle.buffer
      ensures handle.buffer != null && s.Some? ==>
        handle.buffer[..] == StringWritten(old(handle.buffer[..]), offset, length, e, s.value)
      ensures handle.buffer != null && s.None? ==> handle.buffer[..] == old(handle.buffer[..])
    {
      if !CheckStrLimits(offset, length, e) {
        return;
      }
      if s.None? {
        return;
      }
      var ptr := GetPtr();
      if ptr.None? {
        return;
      }
      var buffer, start, n := ptr.value.buffer, ptr.value.offset + e.offset, Min(|s.value|, e.length);
      forall i | 0 <= i < n {
        buffer[start + i] := s.value[i];
      }
      assert buffer[..] == Memcpy(old(buffer[..]), start, s.value, n);
    }

    /** get_entry: the entry the view's layout holds for key, if the view has a layout. */
    function GetEntry(registry: Registry, key: LuaValue): (r: Option<Entry>)
      reads this, registry
      reads if IsValidRef(layout) && layout in registry.slots then {registry.slots[layout]} else {}
      ensures !IsValidRef(layout) || layout !in registry.slots ==> r.None?
      ensures IsValidRef(layout) && layout in registry.slots ==> r == registry.slots[layout].GetEntry(key)
    {
      if !IsValidRef(layout) || layout !in registry.slots then None
      else registry.slots[layout].GetEntry(key)
    }

    /** data_get_field */
    method GetField(registry: Registry, key: LuaValue) returns (r: FieldResult)
      requires Valid()
      requires var e := GetEntry(registry, key);
        e.Some? ==> if e.value.fieldType == Number then NumAccessDefined(e.value) else StrReadDefined(e.value)
      ensures GetEntry(registry, key).None? ==> r.NoResult?
      ensures handle.buffer == null ==> r.NoResult?
      ensures handle.buffer != null && GetEntry(registry, key).Some? ==>
        var e := GetEntry(registry, key).value;
        match e.fieldType
        case Number =>
          r == (if NumberRead(handle.buffer[..], offset, length, e).Some?
                then NumberResult(NumberRead(handle.buffer[..], offset, length, e).value) else NoResult)
        case String =>
          r == (if StringRead(handle.buffer[..], offset, length, e).Some?
                then StringResult(StringRead(handle.buffer[..], offset, length, e).value) else NoResult)
    {
      var entry := GetEntry(registry, key);
      if entry.None? {
        return NoResult;
      }
      match entry.value.fieldType {
        case Number =>
          var n := GetNum(entry.value);
          r := if n.Some? then NumberResult(n.value) else NoResult;
        case String =>
          var s := GetStr(entry.value);
          r := if s.Some? then StringResult(s.value) else NoResult;
      }
    }

    /** data_set_field; `number` and `str` are what lua_tointeger and lua_tolstring make of the argument. */
    method SetField(registry: Registry, key: LuaValue, number: Word, str: Option<seq<Byte>>)
      requires Valid()
      requires var e := GetEntry(registry, key);
        e.Some? ==> if e.value.fieldType == Number then NumAccessDefined(e.value) else StrWriteDefined(e.value, str)
      modifies handle.buffer
      ensures GetEntry(registry, key).None? && handle.buffer != null ==> handle.buffer[..] == old(handle.buffer[..])
      ensures handle.buffer != null && GetEntry(registry, key).Some? ==>
        var e := GetEntry(registry, key).value;
        match e.fieldType
        case Number => handle.buffer[..] == NumberWritten(old(handle.buffer[..]), offset, length, e, number)
        case String =>
          handle.buffer[..] == if str.Some? then StringWritten(old(handle.buffer[..]), offset, length, e, str.value) else old(handle.buffer[..])
    {
      var entry := GetEntry(registry, key);
      if entry.None? {
        return;
      }
      match entry.value.fieldType {
        case Number =>
          SetNum(entry.value, number);
        case String =>
          SetStr(entry.value, str);
      }
    }

    /** data_apply_layout: release the old layout reference, take one to the new layout. */
    method ApplyLayout(registry: Registry, table: LayoutTable)
      requires registry.Valid()
      modifies this, registry
      ensures registry.Valid() && IsValidRef(layout) && layout !in old(registry.slots) - {old(layout)}
      ensures registry.slots == (old(registry.slots) - {old(layout)})[layout := table]
    {
      registry.Unref(layout);
      layout := registry.Ref(table);
    }

    /** data_delete: the view lets go of its handle and of its layout. */
    method Delete(registry: Registry)
      requires handle.Valid() && !handle.released && registry.Valid()
      modifies handle, registry
      ensures handle.Valid()
      ensures old(handle.refcount) > 0 ==> handle.refcount == old(handle.refcount) - 1 && handle.frees == old(handle.frees) && !handle.released
      ensures old(handle.refcount) == 0 ==> handle.released && handle.frees == old(handle.frees) + (if handle.free then 1 else 0)
      ensures handle.buffer == old(handle.buffer)
      ensures registry.Valid() && registry.slots == old(registry.slots) - {layout}
    {
      handle.Delete();
      if IsValidRef(layout) {
        registry.Unref(layout);
      }
    }
  }

  /** data_new: a view of the whole allocation, on a new handle no one else holds. */
  method DataNew(buffer: array?<Byte>, size: SizeT, free: bool) returns (d: View)
    requires buffer != null ==> buffer.Length == size
    ensures fresh(d) && fresh(d.handle) && d.Valid()
    ensures d.offset == 0 && d.length == size && d.layout == RefNil()
    ensures d.handle.buffer == buffer && d.handle.size == size && d.handle.free == free
    ensures d.handle.refcount == 0 && d.handle.frees == 0 && !d.handle.released
  {
    var handle := new Handle.NewSingle(buffer, size, free);
    d := new View.New(handle, 0, size);
  }

  /** data_new_segment: a view inside d, holding d's handle once more; nothing when the range is not inside d. */
  method NewSegment(d: View, offset: SizeT, length: SizeT) returns (r: Option<View>)
    requires d.Valid()
    modifies d.handle
    ensures !WithinView(d.offset, d.length, offset, length) ==> r.None? && d.handle.refcount == old(d.handle.refcount)
    ensures WithinView(d.offset, d.length, offset, length) ==>
      && r.Some? && fresh(r.value) && r.value.handle == d.handle && r.value.Valid()
      && r.value.offset == offset && r.value.length == length && r.value.layout == RefNil()
      && d.handle.refcount == old(d.handle.refcount) + 1
    ensures d.handle.buffer == old(d.handle.buffer) && d.handle.size == old(d.handle.size)
    ensures d.handle.frees == old(d.handle.frees) && d.handle.released == old(d.handle.released)
  {
    if !WithinView(d.offset, d.length, offset, length) {
      return None;
    }
    var handle := d.handle;
    handle.refcount := handle.refcount + 1;
    var segment := new View.New(handle, offset, length);
    r := Some(segment);
  }

  /**
   * The offset and length the Lua `segment` method passes on: the offset is
   * relative to the view, and the length defaults to the rest of the view.
   */
  function SegmentBounds(d: (SizeT, SizeT), segOffset: Option<SizeT>, segLength: Option<SizeT>): (r: (SizeT, SizeT))
    ensures segOffset.None? ==> r == d
    ensures segOffset.Some? && segLength.Some? ==> r == (Wrap(d.0 + segOffset.value), segLength.value)
  {
    if segOffset.None? then d
    else
      var offset := Wrap(d.0 + segOffset.value);
      var length := if segLength.Some? then segLength.value else Wrap(d.1 - segOffset.value);
      (offset, length)
  }

  /** A segment at a relative offset inside the view, with the default length, ends where the view ends. */
  lemma DefaultSegmentEndsWithView(dOffset: SizeT, dLength: SizeT, segOffset: SizeT)
    requires segOffset < dLength && dOffset + dLength < SizeLimit()
    ensures var (offset, length) := SegmentBounds((dOffset, dLength), Some(segOffset), None);
      offset == dOffset + segOffset && offset + length == dOffset + dLength && WithinView(dOffset, dLength, offset, length)
  {
  }

  /**
   * One view from data_new and its k segments are deleted, in any order:
   * the handle is released and the allocation freed (when owned) by the
   * last delete, and by no earlier one. frees[j] is the count of frees after
   * the j-th delete.
   */
  method DeleteViews(views: seq<View>, registry: Registry) returns (ghost frees: seq<nat>)
    requires |views| > 0 && registry.Valid()
    requires forall j :: 0 <= j < |views| ==> views[j].handle == views[0].handle
    requires views[0].handle.Valid() && !views[0].handle.released && views[0].handle.refcount + 1 == |views|
    modifies views[0].handle, registry
    ensures views[0].handle.released
    ensures |frees| == |views|
    ensures forall j :: 0 <= j < |views| - 1 ==> frees[j] == old(views[0].handle.frees)
    ensures frees[|views| - 1] == old(views[0].handle.frees) + (if views[0].handle.free then 1 else 0)
  {
    var handle := views[0].handle;
    frees := [];
    var i := 0;
    while i < |views|
      invariant 0 <= i <= |views| && |frees| == i && registry.Valid() && handle.Valid()
      invariant i < |views| ==> !handle.released && handle.refcount + 1 == |views| - i
      invariant handle.frees == old(handle.frees) + (if i == |views| && handle.free then 1 else 0)
      invariant i == |views| ==> handle.released
      invariant forall j :: 0 <= j < i && j < |views| - 1 ==> frees[j] == old(handle.frees)
      invariant i == |views| ==> frees[|views| - 1] == old(handle.frees) + (if handle.free then 1 else 0)
    {
      views[i].Delete(registry);
      frees := frees + [handle.frees];
      i := i + 1;
    }
  }
}
