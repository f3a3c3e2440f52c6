# luadata core in Dafny

luadata lets Lua code read and write binary data in place. A *data* object
is a byte window over a memory allocation. A *layout* maps field names to
bit fields: offset, length, type (number or string) and byte order. Reading
`d.field` decodes the field's bits, and writing `d.field = v` encodes them.
This project models the four C files that do that work and proves what they
promise.

- **Bit codec** (`words.dfy`, `byteswap.dfy`, `binary.dfy`, modules
  `Words`, `ByteSwap`, `Binary`):
  - `binary_get_uint64` and `binary_set_uint64` read and write an unsigned
    field of 0 to 64 bits at any bit offset. Bits are counted from the most
    significant bit of each byte. A field of width 0 reads as 0.
  - Little-endian fields wider than a byte are byte swapped on the way in
    and out by `swap_bytes_in` and `swap_bytes_out`. For widths that are not
    whole bytes, `expand` and `contract` move the partial byte.
  - A `uint64_t` is a `Word`: 64 booleans, most significant first. A byte is
    a `Byte`: 8 booleans, most significant first. The C shifts, masks and
    `bswap64` are functions on these, stated bit by bit.
  - Get and set are methods with the C loops. They are proved against a
    field-level specification (`Decode`, `Stored`). The two swaps are proved
    equal to the little-endian layouts `FromLittle` and `ToLittle`, and
    those layouts are proved inverse.
- **Ownership handle** (`handle.dfy`, module `Handle`): a reference-counted
  owner of one allocation.
  - `refcount` counts the holders beyond the first.
  - The delete that finds the count at 0 frees the allocation, if the handle
    owns it, and then the handle record.
  - Both frees are ghost state: a counter `frees` and a flag `released`.
- **Data views** (`data.dfy`, module `Data`): a view is an `(offset,
  length)` window over a handle plus a registry reference to a layout.
  - It covers the size_t bounds checks, segments, the number and string
    paths of get and set, layout replacement and deletion.
  - The number and string paths are modelled as written: `check_num_limits`,
    `check_str_limits` and the unmasked `binary_set_uint64`. Exact versions
    sit beside them (`NumberReadExact`, `NumberWrittenExact`,
    `StringReadExact`, `StringWrittenExact`).
  - Two departures from the C, both listed under Findings: a detached view
    gives no string and writes none, where the C goes through NULL; and
    segments are checked with the exact `WithinView` in place of
    `check_limits`.
  - The Lua registry is a small class mapping references to layout tables.
- **Layout loading** (`layout.dfy`, module `Layout`):
  - `load_entry` fills a `layout_entry_t` from a description. Defaults come
    first, then positional elements 1-4, then the named fields `offset`,
    `length`, `type` and `endian`.
  - `layout_load` rewrites a whole table in place. It drops entries of
    length 0 and stamps the table with `__layout_stamp`.
  - Lua values are a datatype with integers, strings, booleans, tables
    (array part plus string-keyed part) and entry userdata.

The host byte order (`BYTE_ORDER`) is a parameter, `host`. What `lua_tointeger`
and `lua_tolstring` make of a Lua argument is also a parameter of the set
paths.

## Model

| member | source | states |
|---|---|---|
| Words.Wrap | luautil.h:44 | size_t arithmetic: a value in range is kept, and one that leaves the range by less than 2^64 comes back shifted by 2^64 |
| Words.FitsValue | binary.c:148-159 | a word's bits above the low n are clear exactly when its value is below 2^n, so Fits(v, width) is the same as v < 2^width |
| ByteSwap.ByteRevAt | binary.c:100 | bit r of byte k of the byte reversal is bit r of byte k counted from the end |
| ByteSwap.ByteRevInvolutive | binary.c:100 | reversing the bytes twice gives them back |
| ByteSwap.ByteRevAppend | binary.c:100 | reversal turns a concatenation of whole bytes around |
| ByteSwap.BswapAt | binary.c:100 | bswap64 moves byte 7 - k of the word to byte k |
| ByteSwap.FromLittle | binary.c:93-105 | the number read from a little-endian field always fits the field width |
| ByteSwap.ToLittle | binary.c:107-119 | the little-endian pattern of a number always fits the field width |
| ByteSwap.TruncateFits | binary.c:139-194 | truncation changes nothing for a value that already fits |
| ByteSwap.FromToLittle | binary.c:93-119 | reading back a stored little-endian field gives the number truncated to the field |
| ByteSwap.ToFromLittle | binary.c:93-119 | storing what was read from a little-endian field gives the field back |
| ByteSwap.FromLittleWholeBytes | binary.c:102-104 | when the width is whole bytes, the little-endian read is the plain byte reversal |
| ByteSwap.SetBits | binary.c:48-53 | each result bit is (value and clear mask) or set mask |
| ByteSwap.Expand | binary.c:57-71 | keeps the whole bytes, moves the `width % 8` bits left at the top of the partial byte down by 8 - truncated, and clears everything above |
| ByteSwap.Contract | binary.c:73-87 | keeps the low whole bytes, moves the bits just above them back up by 8 - truncated, and clears the rest |
| ByteSwap.ExpandMoves | binary.c:57-71 | below the truncated bits, expand places bit p - 8 + t of the value at p |
| ByteSwap.ContractMoves | binary.c:73-87 | above the whole bytes, contract places bit p + 8 - t of the value at p |
| ByteSwap.SwapInIsFromLittle | binary.c:93-105 | swap_bytes_in (shift, bswap64, expand) returns exactly the number the little-endian field holds (FromLittle), for every width 9..64 |
| ByteSwap.SwapOutIsToLittle | binary.c:107-119 | swap_bytes_out (bswap64, contract, shift) returns exactly the little-endian pattern of the value (ToLittle), for every width 9..64 |
| ByteSwap.SwapOutUndoesSwapIn | binary.c:57-119 | swap_bytes_out(swap_bytes_in(v)) == v for every v < 2^width, width 9..64 |
| ByteSwap.SwapInUndoesSwapOut | binary.c:57-119 | swap_bytes_in(swap_bytes_out(x)) == x for every x < 2^width, width 9..64 |
| Binary.Mask | binary.c:131-132 | MASK sets exactly the bits from msb_offset up to 8 - lsb_offset of the byte |
| Binary.MacrosDescribeField | binary.c:121-129 | the field starts at bit offset % 8 of byte offset / 8; overflow is the part after the first byte, and lsb_offset is nonzero only when nothing overflows |
| Binary.BitAtByte | binary.c:126 | bit 8p + q of the buffer is bit q of byte p |
| Binary.Decode | binary.c:139-165 | the number a field holds fits its width |
| Binary.GetUint64 | binary.c:139-165 | get returns Decode: the field's bits read MSB-first across bytes, swapped when little-endian and wider than a byte; the result is below 2^width |
| Binary.GetFirstByte | binary.c:146-148 | the masked first byte shifted down by lsb_offset is the part of the field in it |
| Binary.GetWholeByte | binary.c:150-151 | shifting in a whole byte extends the bits read so far by 8 |
| Binary.GetLastByte | binary.c:153-159 | shifting in the top `overflow` bits of the last byte completes the field |
| Binary.Stored | binary.c:167-194 | the buffer after a set has the old length, byte by byte as StoredByte says |
| Binary.StoredByte | binary.c:180-192 | each bit of a byte after a set is given by StoredBit: pattern bits in the field, pattern bits leaked before the field in the first byte, old bits elsewhere |
| Binary.SetUint64 | binary.c:167-194 | set leaves the buffer as Stored(old buffer, field, Encode(value)) |
| Binary.SetOverflowBits | binary.c:186-193 | the tail of set: after the partial last byte is written, the buffer is Stored |
| Binary.SetFirstByte | binary.c:175-181 | clear_mask then OR of value << lsb_offset >> overflow gives the stored first byte |
| Binary.SetWholeByte | binary.c:183-184 | value >> (overflow - 8) is the stored byte for a byte wholly inside the field |
| Binary.SetLastByte | binary.c:188-192 | overflow_clear_mask then OR of value << overflow_lsb_offset gives the stored last byte |
| Binary.StoredOutside | binary.c:171-193 | a byte holding no bit of the field is unchanged by set |
| Binary.StoredSpan | binary.c:180-193 | stored bytes over the field's span and old bytes elsewhere make up Stored |
| Binary.SpanHoldsField | binary.c:142-145 | the field lies in bytes offset/8 .. offset/8 + BIT_TO_BYTE(offset % 8 + width) - 1 and reaches the last of them |
| Binary.DecodeReadsSpan | binary.c:142-159 | get depends only on the bytes of the span |
| Binary.SetWritesSpan | binary.c:171-193 | set changes no byte outside the span, whatever the value |
| Binary.StoredField | binary.c:180-193 | after a set, the field's bits are the low `width` bits of the pattern |
| Binary.SetThenGet | binary.c:139-194 | get after set returns the value truncated to the width: the value itself when v < 2^width, for every alignment and byte order |
| Binary.SetPreservesOthers | binary.c:175-192 | when the pattern fits the field, every bit of the buffer outside the field is unchanged |
| Binary.EncodeFits | binary.c:177-178 | the pattern fits the field when the value does, and always when it is byte swapped |
| Binary.NoSwapWithoutLittleEndian | binary.c:136-137 | big-endian fields and fields of at most 8 bits are read as plain bits and written unchanged |
| Binary.LittleEndianWholeBytes | binary.c:93-105 | a little-endian field of whole bytes reads as its bytes reversed |
| Binary.SetLeaksAboveField | binary.c:181 | storing 0xFF into the 4-bit field at offset 4 of a zero byte sets bit 0, outside the field |
| Binary.SetUint64Masked | binary.c:167-194 | set with the value cut to the width first: the buffer becomes Stored of the truncated value |
| Binary.MaskedSetIsExact | binary.c:167-194 | after the masked set, every bit outside the field is unchanged and get returns the truncated value, for every value |
| Handle.Handle.NewSingle | handle.c:63-77 | the new handle holds ptr, size and the free flag, with refcount 0, nothing freed |
| Handle.Handle.Delete | handle.c:95-106 | with refcount > 0 the count drops by 1 and nothing is freed; at 0 the allocation is freed once if owned, and the handle is released; ptr and size unchanged, so the handle stays valid |
| Handle.Handle.GetPtr | handle.c:108-122 | NULL iff the stored pointer is NULL, else the allocation at `offset` |
| Handle.Handle.Unref | handle.c:143-153 | ptr becomes NULL and size 0; refcount, the free flag and the free count stay (so a second call changes nothing) |
| Layout.LeadingDigit | layout.c:59-61 | the first character of a positive number's decimal text is a digit |
| Layout.FirstChar | layout.c:59-61 | the first character of lua_tostring: for a number a digit or '-' |
| Layout.Numbered | layout.c:80-103 | elements 1-4 set offset, length, type and byte order, each only when the array is that long |
| Layout.LayoutEntry.Init | layout.c:47-54 | offset 0, length 0, a number, big-endian |
| Layout.LayoutEntry.LoadType | layout.c:56-65 | 'n' selects a number, 's' a string, anything else leaves the type |
| Layout.LayoutEntry.LoadEndian | layout.c:67-78 | 'n' or 'b' selects big-endian, 'l' little-endian, 'h' the host order, anything else leaves it |
| Layout.LayoutEntry.LoadNumbered | layout.c:80-103 | the entry becomes Numbered of the old entry and the elements |
| Layout.LayoutEntry.LoadNamed | layout.c:105-127 | the entry becomes Named: each named field of the right Lua type replaces its part |
| Layout.Elements | layout.c:82-103 | a table's elements are its array part; a string has as many elements as bytes, each nil |
| Layout.LayoutEntry.Load | layout.c:129-135 | the entry becomes LoadedEntry: defaults, then positional, then named |
| Layout.PartlyLoadedStep | layout.c:164-177 | loading one more key of the table removes it (length 0) or replaces it by its entry, and touches no other key |
| Layout.LayoutTable.Load | layout.c:158-181 | in any key order, the table becomes LoadedTable: each key holds its loaded entry or is removed, plus the stamp |
| Layout.LayoutTable.GetEntry | layout.c:183-198 | an entry exactly when the key holds an entry userdata, None for an absent key or another value |
| Layout.NamedOverrides | layout.c:105-135 | a named field of the right Lua type overrides what the positional elements gave |
| Layout.PositionalOnly | layout.c:80-103 | without named fields the positional elements decide; with none either, the entry is the default |
| Layout.NumbersSelectNothing | layout.c:56-78 | a number given as type or endian never changes the type or byte order |
| Layout.LoadedEntriesNonEmpty | layout.c:158-181 | after loading, the stamp is true and every other key holds its entry, with length > 0 |
| Layout.DroppedIffEmpty | layout.c:164-170 | a key is removed exactly when its entry's length is 0 |
| Layout.StringDescriptions | layout.c:56-135 | a string description loads exactly when it has at most 2 bytes; it then gives the default entry, of length 0, so layout_load drops its key |
| Data.CheckLimitsWithoutWrap | data.c:49-67 | when no sum wraps and the view is not empty, check_limits holds iff off lies in the view and off + len ends inside it |
| Data.EntryByteOffsetIsFloor | data.c:69-70 | ENTRY_BYTE_OFFSET is the view offset plus offset / 8 |
| Data.ExactChecksAreStricter | data.c:72-80 | away from the top of size_t, every number entry the exact check accepts is accepted by check_num_limits |
| Data.EmptyViewAcceptsAnyOffset | data.c:49-54 | in a view (0, 0) every offset passes check_offset, and (2^64 - 5, 5) passes check_limits |
| Data.LengthSumWraps | data.c:56-60 | in a view (0, 10), offset 5 with length 2^64 - 1 passes check_limits |
| Data.NumLimitsMissLastByte | data.c:72-80 | in a view (0, 1), the 8-bit entry at bit 4 passes check_num_limits but ends in byte 1 |
| Data.NumFieldInsideView | data.c:72-80 | an entry passing the exact number check has every byte get and set touch inside the view |
| Data.NumberRead | data.c:117-131 | get_num yields a value exactly when the entry passes check_num_limits as written, and the value fits the entry's length |
| Data.NumberWritten | data.c:145-158 | set_num keeps the buffer's length and leaves it unchanged when check_num_limits fails; NumberRoundTrip gives what it writes |
| Data.StringRead | data.c:133-143 | get_str yields bytes exactly when the entry passes check_str_limits as written, entry.length of them; StringWriteCopies gives them after a write |
| Data.StringWritten | data.c:160-173 | set_str keeps the buffer's length and leaves it unchanged when check_str_limits fails; StringWriteCopies gives what it writes |
| Data.NumberRoundTrip | data.c:117-158 | reading a number back after set_num wrote it gives the value cut to the entry's length; no other bit changes when the value fits the entry or the field is byte swapped |
| Data.NumberWriteLeaks | data.c:145-158 | in a one-byte view, storing 0xFF into the 4-bit number at bit 4 sets bit 0, in front of the field |
| Data.NumberLeavesView | data.c:117-158 | with view (0, 1) of a 2-byte allocation and the 8-bit number at bit 4, set_num writes byte 1 and get_num's result depends on byte 1 |
| Data.NumberReadExact | data.c:117-131 | corrected get_num: a value exactly when the exact check passes, fitting the entry's length |
| Data.NumberWrittenExact | data.c:145-158 | corrected set_num: the buffer's length is kept, and it is unchanged when the exact check fails |
| Data.NumberRoundTripExact | data.c:117-158 | with the corrections, reading back gives the value cut to the entry, and no other bit changes, for every value |
| Data.NumberWriteStaysInView | data.c:145-158 | with the corrections, a number write changes no byte outside the view |
| Data.ExactAgreesWithAsWritten | data.c:72-158 | away from the top of size_t, where the exact check passes, get_num reads what the corrected read gives, and set_num writes the same bytes for a value that fits |
| Data.StringWriteCopies | data.c:133-173 | once check_str_limits passes, set_str copies min(len, entry.length) bytes to the entry at view offset + entry offset, leaves every other byte of the allocation, and get_str then returns them followed by the old rest |
| Data.StringLeavesView | data.c:82-88 | in a view (0, 5) of 10 bytes, the string entry (2, 2^64 - 1) passes check_str_limits, and writing 4 bytes changes byte 5, outside the view; in a view (0, 0), the entry (2^64 - 1, 1) passes as well |
| Data.MemcpyCopies | data.c:172 | memcpy puts the n bytes at the start position and changes no other byte |
| Data.StringReadExact | data.c:133-143 | corrected get_str: bytes exactly when the entry lies inside the view, entry.length of them |
| Data.StringWrittenExact | data.c:160-173 | corrected set_str: the buffer's length is kept, and it is unchanged when the entry does not lie inside the view |
| Data.StringWriteCopiesExact | data.c:133-173 | with the correction, set_str copies min(len, entry.length) bytes that get_str reads back, and changes no byte outside the entry and none outside the view |
| Data.StringExactAgreesWithAsWritten | data.c:82-173 | away from the top of size_t, an entry inside the view passes check_str_limits, lies in the allocation, and get_str and set_str give what the corrected paths give |
| Data.GetStrAccessAsWritten | data.c:133-143 | as written, get_str dereferences NULL exactly when the check passes and the view is detached |
| Data.SetStrAccessAsWritten | data.c:160-173 | as written, set_str dereferences NULL exactly when the check passes, the argument is a string and the view is detached |
| Data.DetachedStringAccess | data.c:139-141 | after detach, a string field (0, 4) of a 4-byte view is read and written through NULL |
| Data.Registry.Ref | data.c:229-231 | luaL_ref gives a new valid reference to the table, and the other references stay |
| Data.Registry.Unref | data.c:229 | luaL_unref drops the reference; LUA_REFNIL and LUA_NOREF change nothing |
| Data.View.New | data.c:99-112 | new_data stores handle, offset and length, with layout LUA_REFNIL |
| Data.View.GetPtr | data.c:267-271 | NULL iff the handle is detached, else the allocation at the view's offset |
| Data.View.Unref | data.c:273-277 | the handle is detached; its count and free state stay |
| Data.View.GetNum | data.c:117-131 | nothing after detach, else NumberRead of the allocation: check_num_limits as written, then binary_get_uint64 |
| Data.View.SetNum | data.c:145-158 | after detach nothing is written, else the allocation becomes NumberWritten: check_num_limits as written, then the unmasked binary_set_uint64 |
| Data.View.GetStr | data.c:133-143 | nothing after detach, else StringRead of the allocation: check_str_limits as written, then entry.length bytes from the view's pointer plus the entry's offset |
| Data.View.SetStr | data.c:160-173 | the allocation becomes StringWritten (check_str_limits as written, then the memcpy) when the argument converts to a string and the view is attached, else it is unchanged |
| Data.View.GetEntry | data.c:90-97 | no entry when the view has no valid layout reference; else the entry the referenced layout table holds for the key |
| Data.View.GetField | data.c:234-248 | no result without a layout, for a missing key or after detach; else the number or string path's result |
| Data.View.SetField | data.c:250-265 | nothing written without a layout or for a missing key; else the number path's write, or the string path's, which leaves the allocation unchanged for an argument that is not a string |
| Data.View.ApplyLayout | data.c:226-232 | the old reference is released and the view holds a new valid reference to the table |
| Data.View.Delete | data.c:207-214 | one handle_delete on the view's handle, and the view's layout reference is released |
| Data.DataNew | data.c:175-181 | a view of [0, size) on a fresh handle with refcount 0 and no layout |
| Data.NewSegment | data.c:193-205 | outside the view: nothing and the count unchanged; inside: a new view with the requested bounds, no layout, inside the allocation, and the count up by exactly 1 |
| Data.SegmentBounds | luadata.c:134-155 | no argument: the view's own bounds; an offset is relative to the view; a given length is used as is |
| Data.DefaultSegmentEndsWithView | luadata.c:139-152 | with the default length, a segment at a relative offset inside the view ends where the view ends |
| Data.DeleteViews | handle.c:95-106 | one data_new view plus k segments, deleted in any order: the handle is released and the allocation freed (if owned) by the last delete and by no earlier one |

## Left out

- mbuf-chain handles (`handle_new_chain` and the chain cases of get_ptr, unref and free_handle) are kernel-only foreign calls. The handle type field is not modelled; every handle is a single allocation.
- Lua bindings in luadata.c: only the segment argument arithmetic (`SegmentBounds`) is modelled. The Lua constructor rejects a length of 0 before `data_new`, and `DataNew` accepts any size.
- Lua numbers are integers only. Floats and numeric strings, which `lua_isnumber` and `lua_tointeger` also accept, are not modelled, so a numeric string never counts as a number.
- The conversions of a Lua argument for `set_num` and `set_str` (`lua_tointeger`, `lua_tolstring`) are parameters of `SetField`, `SetNum` and `SetStr`. `get_num` pushes the 64-bit pattern as a signed `lua_Integer`; the model returns the pattern as a `Word`.
- Layout.LayoutEntry.Load, Layout.LayoutTable.Load: these require loadable descriptions. Indexing a description that is neither a table nor a string raises a Lua error in `load_entry`. A positional type or endian element that is neither a string nor a number makes `load_type` or `load_endian` read through NULL; this includes element 3 of every string of 3 or more bytes. `Loadable` and `AllLoadable` exclude those inputs. Strings of at most 2 bytes are loadable (`StringDescriptions`).
- `luaL_ref` reuses released references. `Registry.Ref` hands out fresh, increasing ones, so it does not capture reuse.
- `refcount` is a `size_t` in C; the model uses an unbounded count and does not wrap it.
- Allocation and freeing go through `luau_malloc` and `luau_free`. Allocation failure is not modelled. Freeing is ghost state (`frees`, `released`), and `Handle.Delete` requires a handle that is not yet released, since using a freed handle is undefined.
- `BYTE_ORDER` is the parameter `host`.
- Data.NumberRead, Data.NumberWritten, Data.NumberRoundTrip: these require that an entry passing `check_num_limits` lies within the allocation (`NumInAllocation`). Past the allocation's end, the C reads or writes outside it, which is undefined behaviour.
- Data.StringRead, Data.StringWritten, Data.StringWriteCopies: these require that the bytes an entry passing `check_str_limits` reads or writes lie within the allocation (`StrReadInAllocation`, `StrWriteInAllocation`). Otherwise the C reads or copies outside it, which is undefined behaviour. This includes an entry whose offset wraps below the view's pointer (`StringLeavesView`).
- Data.View.GetNum, Data.View.SetNum, Data.View.GetStr, Data.View.SetStr, Data.View.GetField, Data.View.SetField: these require `NumAccessDefined` for a number entry and `StrReadDefined` or `StrWriteDefined` for a string entry, for the same reason. The checks as written can pass for a field that ends after the view, and through size_t wrap-around, so the view lying inside the allocation does not guarantee this.
- Data.View.GetEntry: a valid reference that the registry does not hold gives no entry. In the C, `luau_getref` pushes nil and indexing it raises a Lua error. A view only holds references that `ApplyLayout` took, so the model's operations never reach this case.
- The order in which `lua_next` visits keys is left open: `LayoutTable.Load` picks any pending key.
- Table keys are Dafny strings of characters. Lua strings are bytes; string field values in the views are `seq<Byte>`.
- `uint64_t` is a `Word` of 64 booleans, not a `bv64`. Shifts by a symbolic amount on bit-vectors are beyond the solver at this size, so the C operators are restated bit by bit.

## Findings

| source | as written | input that shows it | evidently intended | confidence | as-written member | corrected member |
|---|---|---|---|---|---|---|
| binary.c:181 | the value is ORed into the first byte without being masked to the field width, and set_num passes lua_tointeger's value unmasked | a zero byte, 4-bit field at bit 4, value 0xFF: bit 0 becomes 1 | only the field's bits change (the clear masks keep the others) | not executed; medium | Binary.SetLeaksAboveField, Data.NumberWriteLeaks | Binary.SetUint64Masked (with Binary.MaskedSetIsExact), Data.NumberWrittenExact (with Data.NumberRoundTripExact) |
| data.c:72-80 | check_num_limits counts BIT_TO_BYTE(length) bytes from the byte of the first bit | view (0, 1), entry at bit 4 of length 8: passes, yet the field ends in byte 1, which get_num reads and set_num writes | count BIT_TO_BYTE(offset % 8 + length) bytes | not executed; high | Data.NumLimitsMissLastByte, Data.NumberLeavesView | Data.NumLimitsExact (with Data.NumFieldInsideView, Data.NumberReadExact and Data.NumberWriteStaysInView) |
| data.c:133-143, 160-173 | get_str and set_str use the view's pointer without testing it for NULL | after `data_unref`, view (0, 4), string entry (0, 4) | return nothing and write nothing, as get_num and set_num do | not executed; high | Data.DetachedStringAccess (Data.GetStrAccessAsWritten, Data.SetStrAccessAsWritten) | Data.View.GetStr, Data.View.SetStr |
| data.c:49-54 | `data->offset + data->length - 1` wraps for a view (0, 0) | view (0, 0): offset 2^64 - 5 with length 5 passes check_limits; string entry (-1, 1) passes check_str_limits and get_str reads the byte in front of the view | an empty view admits no range | not executed; medium | Data.EmptyViewAcceptsAnyOffset, Data.StringLeavesView | Data.WithinView (used by Data.NewSegment, which proves each segment lies in the allocation), Data.StrLimitsExact (with Data.StringReadExact, Data.StringWrittenExact and Data.StringWriteCopiesExact) |
| data.c:56-60 | `offset + length` wraps in check_length | view (0, 10), `segment(5, -1)`: offset 5, length 2^64 - 1 passes; view (0, 5) of 10 bytes, string entry (2, 2^64 - 1), `d.s = "abcd"`: passes check_str_limits and memcpy writes bytes 2..5, byte 5 outside the view | the range must end inside the view | not executed; medium | Data.LengthSumWraps, Data.StringLeavesView | Data.WithinView (used by Data.NewSegment, which proves each segment lies in the allocation), Data.StrLimitsExact (with Data.StringReadExact, Data.StringWrittenExact and Data.StringWriteCopiesExact) |
