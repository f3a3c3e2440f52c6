/**
 * Layout entries: a Lua table that maps each field name of a layout to a
 * description of the field is turned, in place, into a table that maps each
 * name to a `layout_entry_t` (bit offset, bit length, type, byte order).
 *
 * A description is itself a Lua table. Its positional elements 1 to 4 give
 * offset, length, type and byte order; its named fields `offset`, `length`,
 * `type` and `endian` override them. The type and the byte order are read
 * from the first character of a string. Entries whose length comes out as
 * 0 are removed, and the table is stamped as loaded.
 */
module Layout {
  import opened Words
  import opened Binary

  /** layout_type_t */
  datatype FieldType = Number | String

  /** layout_entry_t, as a value (the userdata copy that `new_entry` stores). */
  datatype Entry = Entry(offset: SizeT, length: SizeT, fieldType: FieldType, endian: Endian)

  /**
   * The Lua values a layout table holds. A table value has an array part
   * (elements 1 to n, its length being what `lua_rawlen` returns) and a part
   * with string keys.
   */
  datatype LuaValue =
    | Nil
    | Boolean(b: bool)
    | Integer(i: int)
    | Str(s: string)
    | Table(elements: seq<LuaValue>, fields: map<string, LuaValue>)
    | EntryUserdata(entry: Entry)

  /** lua_isnumber */
  predicate IsNumber(v: LuaValue)
  {
    v.Integer?
  }

  /** lua_isstring: strings, and numbers, which convert to strings. */
  predicate IsString(v: LuaValue)
  {
    v.Str? || v.Integer?
  }

  /** lua_tointeger: the number, or 0 for a value that is not one. */
  function ToInteger(v: LuaValue): int
  {
    if v.Integer? then v.i else 0
  }

  /** The conversion of a lua_Integer to size_t. */
  function ToSize(i: int): SizeT
  {
    Wrap(i)
  }

  /** The first decimal digit of n. */
  function LeadingDigit(n: nat): (c: char)
    ensures '0' <= c <= '9'
  {
    if n < 10 then (48 + n) as char else LeadingDigit(n / 10)
  }

  /** `lua_tostring(v)[0]`: the first character of the string, NUL for the empty one. */
  function FirstChar(v: LuaValue): (c: char)
    requires IsString(v)
    ensures v.Integer? ==> c == '-' || '0' <= c <= '9'
  {
    match v
    case Str(s) => if |s| > 0 then s[0] else 0 as char
    case Integer(i) => if i < 0 then '-' else LeadingDigit(i)
  }

  // ---------------------------------------------------------------------
  // The specification of loading one entry.

  /** init_layout: LAYOUT_TYPE_DEFAULT is a number, LAYOUT_ENDIAN_DEFAULT big-endian. */
  function DefaultEntry(): Entry
  {
    Entry(0, 0, Number, BigEndian)
  }

  /** The type a type string selects by its first character, or the current one. */
  function TypeFor(c: char, current: FieldType): FieldType
  {
    if c == 'n' then Number else if c == 's' then String else current
  }

  /** The byte order an endian string selects by its first character, or the current one. */
  function EndianFor(c: char, current: Endian, host: Endian): Endian
  {
    if c == 'n' || c == 'b' then BigEndian
    else if c == 'l' then LittleEndian
    else if c == 'h' then host
    else current
  }

  /** Elements 3 and 4, when present, are read as strings without a check. */
  predicate PositionalReadable(elements: seq<LuaValue>)
  {
    (|elements| >= 3 ==> IsString(elements[2])) && (|elements| >= 4 ==> IsString(elements[3]))
  }

  /**
   * The positional elements load_entry sees in a description. For a table
   * they are its array part. A string has `lua_rawlen` equal to its byte
   * count, and indexing it goes through the string metatable, which holds
   * no integer keys, so every element is nil.
   */
  function Elements(v: LuaValue): (r: seq<LuaValue>)
    ensures v.Table? ==> r == v.elements
    ensures v.Str? ==> |r| == |v.s| && forall i :: 0 <= i < |r| ==> r[i] == Nil
  {
    if v.Table? then v.elements
    else if v.Str? then seq(|v.s|, _ => Nil)
    else []
  }

  /**
   * The named fields load_entry sees in a description. A string's metatable
   * holds none of `offset`, `length`, `type` and `endian`.
   */
  function Fields(v: LuaValue): map<string, LuaValue>
  {
    if v.Table? then v.fields else map[]
  }

  /**
   * A description that load_entry reads without a Lua error or a null
   * dereference: a table, or a string, whose elements 3 and 4, when present,
   * are strings or numbers. Indexing any other value raises an error.
   */
  predicate Loadable(v: LuaValue)
  {
    (v.Table? || v.Str?) && PositionalReadable(Elements(v))
  }

  /** The entry after load_entry_numbered. */
  function Numbered(e: Entry, elements: seq<LuaValue>, host: Endian): (r: Entry)
    requires PositionalReadable(elements)
    ensures |elements| >= 1 ==> r.offset == ToSize(ToInteger(elements[0]))
    ensures |elements| >= 2 ==> r.length == ToSize(ToInteger(elements[1]))
    ensures |elements| < 1 ==> r.offset == e.offset
    ensures |elements| < 2 ==> r.length == e.length
    ensures r.fieldType == if |elements| >= 3 then TypeFor(FirstChar(elements[2]), e.fieldType) else e.fieldType
    ensures r.endian == if |elements| >= 4 then EndianFor(FirstChar(elements[3]), e.endian, host) else e.endian
  {
    var n := |elements|;
    var e1 := if n >= 1 then e.(offset := ToSize(ToInteger(elements[0]))) else e;
    var e2 := if n >= 2 then e1.(length := ToSize(ToInteger(elements[1]))) else e1;
    var e3 := if n >= 3 then e2.(fieldType := TypeFor(FirstChar(elements[2]), e2.fieldType)) else e2;
    if n >= 4 then e3.(endian := EndianFor(FirstChar(elements[3]), e3.endian, host)) else e3
  }

  /** The value of a named field, Nil when it is absent. */
  function NamedValue(fields: map<string, LuaValue>, name: string): LuaValue
  {
    if name in fields then fields[name] else Nil
  }

  /** The entry after load_entry_named. */
  function Named(e: Entry, fields: map<string, LuaValue>, host: Endian): (r: Entry)
  {
    var offset, length, fieldType, endian := NamedValue(fields, "offset"), NamedValue(fields, "length"), NamedValue(fields, "type"), NamedValue(fields, "endian");
    Entry(if IsNumber(offset) then ToSize(ToInteger(offset)) else e.offset,
          if IsNumber(length) then ToSize(ToInteger(length)) else e.length,
          if IsString(fieldType) then TypeFor(FirstChar(fieldType), e.fieldType) else e.fieldType,
          if IsString(endian) then EndianFor(FirstChar(endian), e.endian, host) else e.endian)
  }

  /** The entry load_entry builds from a description: defaults, then positional elements, then named fields. */
  function LoadedEntry(v: LuaValue, host: Endian): Entry
    requires Loadable(v)
  {
    Named(Numbered(DefaultEntry(), Elements(v), host), Fields(v), host)
  }

  // ---------------------------------------------------------------------
  // load_entry, filling a layout_entry_t field by field.

  class LayoutEntry {
    var offset: SizeT
    var length: SizeT
    var fieldType: FieldType
    var endian: Endian

    constructor ()
    {
    }

    function Value(): Entry
      reads this
    {
      Entry(offset, length, fieldType, endian)
    }

    /** init_layout */
    method Init()
      modifies this
      ensures Value() == DefaultEntry()
    {
      offset := 0;
      length := 0;
      fieldType := Number;
      endian := BigEndian;
    }

    /** load_type */
    method LoadType(v: LuaValue)
      requires IsString(v)
      modifies this
      ensures Value() == old(Value()).(fieldType := TypeFor(FirstChar(v), old(fieldType)))
    {
      var c := FirstChar(v);
      if c == 'n' {
        fieldType := Number;
      } else if c == 's' {
        fieldType := String;
      }
    }

    /** load_endian; `host` is the machine's BYTE_ORDER. */
    method LoadEndian(v: LuaValue, host: Endian)
      requires IsString(v)
      modifies this
      ensures Value() == old(Value()).(endian := EndianFor(FirstChar(v), old(endian), host))
    {
      var c := FirstChar(v);
      if c == 'n' || c == 'b' {
        endian := BigEndian;
      } else if c == 'l' {
        endian := LittleEndian;
      } else if c == 'h' {
        endian := host;
      }
    }

    /** load_entry_numbered */
    method LoadNumbered(elements: seq<LuaValue>, host: Endian)
      requires PositionalReadable(elements)
      modifies this
      ensures Value() == Numbered(old(Value()), elements, host)
    {
      var arrayLen := |elements|;
      if arrayLen >= 1 {
        offset := ToSize(ToInteger(elements[0]));
      }
      if arrayLen >= 2 {
        length := ToSize(ToInteger(elements[1]));
      }
      if arrayLen >= 3 {
        LoadType(elements[2]);
      }
      if arrayLen >= 4 {
        LoadEndian(elements[3], host);
      }
    }

    /** load_entry_named */
    method LoadNamed(fields: map<string, LuaValue>, host: Endian)
      modifies this
      ensures Value() == Named(old(Value()), fields, host)
    {
      var v := NamedValue(fields, "offset");
      if IsNumber(v) {
        offset := ToSize(ToInteger(v));
      }
      v := NamedValue(fields, "length");
      if IsNumber(v) {
        length := ToSize(ToInteger(v));
      }
      v := NamedValue(fields, "type");
      if IsString(v) {
        LoadType(v);
      }
      v := NamedValue(fields, "endian");
      if IsString(v) {
        LoadEndian(v, host);
      }
    }

    /** load_entry */
    method Load(v: LuaValue, host: Endian)
      requires Loadable(v)
      modifies this
      ensures Value() == LoadedEntry(v, host)
    {
      Init();
      LoadNumbered(Elements(v), host);
      LoadNamed(Fields(v), host);
    }
  }

  // ---------------------------------------------------------------------
  // layout_load and layout_get_entry.

  /** LAYOUT_STAMP */
  function StampKey(): LuaValue
  {
    Str("__layout_stamp")
  }

  /** What layout_load stores under a key whose description is v: nothing (nil) for length 0. */
  function LoadedValue(v: LuaValue, host: Endian): LuaValue
    requires Loadable(v)
  {
    var e := LoadedEntry(v, host);
    if e.length == 0 then Nil else EntryUserdata(e)
  }

  predicate AllLoadable(m: map<LuaValue, LuaValue>)
  {
    forall k :: k in m ==> Loadable(m[k])
  }

  /** The table after the keys in `pending` have yet to be loaded and the others have been. */
  function PartlyLoaded(m: map<LuaValue, LuaValue>, pending: set<LuaValue>, host: Endian): map<LuaValue, LuaValue>
    requires AllLoadable(m)
  {
    map k | k in m && (k in pending || !LoadedValue(m[k], host).Nil?) ::
      if k in pending then m[k] else LoadedValue(m[k], host)
  }

  /** Loading one more pending key rewrites that key alone. */
  lemma PartlyLoadedStep(m: map<LuaValue, LuaValue>, pending: set<LuaValue>, key: LuaValue, host: Endian)
    requires AllLoadable(m) && pending <= m.Keys && key in pending
    ensures var before, loaded := PartlyLoaded(m, pending, host), LoadedValue(m[key], host);
      PartlyLoaded(m, pending - {key}, host) == if loaded.Nil? then before - {key} else before[key := loaded]
  {
  }

  /** The table after layout_load. */
  function LoadedTable(m: map<LuaValue, LuaValue>, host: Endian): map<LuaValue, LuaValue>
    requires AllLoadable(m)
  {
    PartlyLoaded(m, {}, host)[StampKey() := Boolean(true)]
  }

  /** A layout: a Lua table, rewritten in place by layout_load. */
  class LayoutTable {
    var contents: map<LuaValue, LuaValue>

    constructor (contents: map<LuaValue, LuaValue>)
      ensures this.contents == contents
    {
      this.contents := contents;
    }

    /** layout_load: every key is visited once, in an order the table chooses. */
    method Load(host: Endian)
      requires AllLoadable(contents)
      modifies this
      ensures contents == LoadedTable(old(contents), host)
    {
      ghost var original := contents;
      var entry := new LayoutEntry();
      var pending := contents.Keys;
      while pending != {}
        invariant pending <= original.Keys
        invariant contents == PartlyLoaded(original, pending, host)
        decreases pending
      {
        var key :| key in pending;
        PartlyLoadedStep(original, pending, key, host);
        entry.Load(contents[key], host);
        if entry.length == 0 {
          contents := contents - {key};
        } else {
          contents := contents[key := EntryUserdata(entry.Value())];
        }
        pending := pending - {key};
      }
      contents := contents[StampKey() := Boolean(true)];
    }

    /** layout_get_entry: the entry stored under key, if any. */
    function GetEntry(key: LuaValue): (r: Option<Entry>)
      reads this
      ensures r.Some? <==> key in contents && contents[key].EntryUserdata?
      ensures r.Some? ==> contents[key] == EntryUserdata(r.value)
    {
      if key in contents && contents[key].EntryUserdata? then Some(contents[key].entry) else None
    }
  }

  // ---------------------------------------------------------------------
  // What loading promises.

  /** Named fields of the right Lua type override whatever the positional elements say. */
  lemma NamedOverrides(v: LuaValue, host: Endian)
    requires Loadable(v)
    ensures IsNumber(NamedValue(Fields(v), "offset")) ==> LoadedEntry(v, host).offset == ToSize(ToInteger(Fields(v)["offset"]))
    ensures IsNumber(NamedValue(Fields(v), "length")) ==> LoadedEntry(v, host).length == ToSize(ToInteger(Fields(v)["length"]))
    ensures IsString(NamedValue(Fields(v), "type")) ==>
      LoadedEntry(v, host).fieldType == TypeFor(FirstChar(Fields(v)["type"]), Numbered(DefaultEntry(), Elements(v), host).fieldType)
    ensures IsString(NamedValue(Fields(v), "endian")) ==>
      LoadedEntry(v, host).endian == EndianFor(FirstChar(Fields(v)["endian"]), Numbered(DefaultEntry(), Elements(v), host).endian, host)
  {
  }

  /** Without named fields, the positional elements decide, and the defaults fill the rest. */
  lemma PositionalOnly(v: LuaValue, host: Endian)
    requires Loadable(v) && Fields(v) == map[]
    ensures LoadedEntry(v, host) == Numbered(DefaultEntry(), Elements(v), host)
    ensures |Elements(v)| == 0 ==> LoadedEntry(v, host) == Entry(0, 0, Number, BigEndian)
  {
  }

  /**
   * A string description loads when it has at most two bytes: its elements
   * are nil, so the entry keeps offset 0 and length 0 and layout_load drops
   * its key. From three bytes on, element 3 is nil and load_type reads
   * through the NULL that lua_tostring returns.
   */
  lemma StringDescriptions(s: string, host: Endian)
    ensures Loadable(Str(s)) <==> |s| <= 2
    ensures |s| <= 2 ==> LoadedEntry(Str(s), host) == DefaultEntry() && LoadedValue(Str(s), host) == Nil
  {
    if |s| >= 3 {
      assert Elements(Str(s))[2] == Nil;
    }
  }

  /** A number never selects a type or a byte order. */
  lemma NumbersSelectNothing(v: LuaValue, t: FieldType, e: Endian, host: Endian)
    requires v.Integer?
    ensures TypeFor(FirstChar(v), t) == t && EndianFor(FirstChar(v), e, host) == e
  {
  }

  /** Every key of a loaded layout holds an entry of non-zero length, except the stamp. */
  lemma LoadedEntriesNonEmpty(m: map<LuaValue, LuaValue>, host: Endian)
    requires AllLoadable(m)
    ensures StampKey() in LoadedTable(m, host) && LoadedTable(m, host)[StampKey()] == Boolean(true)
    ensures forall k :: k in LoadedTable(m, host) && k != StampKey() ==>
      k in m && LoadedTable(m, host)[k] == EntryUserdata(LoadedEntry(m[k], host)) && LoadedEntry(m[k], host).length > 0
  {
  }

  /** A key is dropped exactly when its description has length 0. */
  lemma DroppedIffEmpty(m: map<LuaValue, LuaValue>, host: Endian, k: LuaValue)
    requires AllLoadable(m) && k in m && k != StampKey()
    ensures k !in LoadedTable(m, host) <==> LoadedEntry(m[k], host).length == 0
  {
  }
}
