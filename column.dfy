/**
 * Columns: a named, typed sequence of rows kept in up to three mapped stores.  The
 * data store holds one fixed-width slot per row; the null store, present exactly
 * when the column is nullable, one byte per row (nonzero for null); the
 * variable-length arena holds the values of BYTES and STRING columns.  An input
 * column maps its stores read-only; an output column maps them writable and adds
 * an append cursor.
 */
module Columns {
  import opened Wrappers
  import opened Bytes
  import opened Store
  import opened Codec
  import opened Types
  import opened Encodings
  import Arena

  /** The types getInt/setInt accept: those stored as a 4-byte int. */
  predicate IntTyped(t: ColumnType) {
    t == DATE || t == INT || t == IPV4 || t == TIME
  }

  /** The types getLong/setLong accept: those stored as an 8-byte long. */
  predicate LongTyped(t: ColumnType) {
    t == DATETIME || t == DECIMAL || t == LONG || t == TIMESTAMP
  }

  /** The types getCalendar/setCalendar accept. */
  predicate CalendarTyped(t: ColumnType) {
    t == DATE || t == DATETIME || t == TIME
  }

  /** Row `index` of `size` rows of width `w` lies inside `n` mapped bytes. */
  lemma RowInside(index: int, size: nat, w: nat, n: nat)
    requires 0 <= index < size && size * w <= n
    ensures index * w + w <= n
  {
    var d := size - (index + 1);
    assert size * w == index * w + w + d * w;
  }

  /** What a control file says about a column, with the contents of each store it maps (None when unmapped). */
  datatype ColumnImage = ColumnImage(
    name: Text, ctype: ColumnType,
    data: Option<seq<byte>>, nulls: Option<seq<byte>>, varData: Option<seq<byte>>)

  /** The row count a column starts with: the whole slots in its data store. */
  function RowCount(img: ColumnImage): nat {
    WidthTable(img.ctype);
    if img.data.Some? then |img.data.value| / Width(img.ctype) else 0
  }

  /**
   * Mapping the file at `path`: an empty path maps nothing; an existing file maps its
   * contents; a missing one is created empty when writable and fails to open otherwise.
   */
  function OpenPath(files: map<Text, seq<byte>>, path: Text, writable: bool): (r: Result<Option<seq<byte>>>)
    ensures r.Err? <==> path != [] && path !in files && !writable
    ensures r.Ok? && r.value.Some? ==> path != []
  {
    if path == [] then Ok(None)
    else if path in files then Ok(Some(files[path]))
    else if writable then Ok(Some([]))
    else Err(OpenFailed)
  }

  /** A column type stored as a long and cast to int. */
  function GetType(view: seq<byte>, p: nat): (r: Result<ColumnType>)
    ensures r.Ok? ==> p + 8 <= |view|
  {
    var code :- LongAt(view, p);
    FromInt(ToInt32(code))
  }

  /** The start of a column's description: its name, then its type. */
  function DecodeHead(view: seq<byte>, p: nat): (r: Result<(Text, ColumnType, nat)>)
    ensures r.Ok? ==> p < r.value.2 <= |view|
  {
    var (name, p1) :- GetString(view, p);
    var ctype :- GetType(view, p1);
    Ok((name, ctype, p1 + 8))
  }

  /** One store of a column's description: its path, mapped as soon as it is read. */
  function DecodeStore(view: seq<byte>, p: nat, files: map<Text, seq<byte>>, writable: bool): (r: Result<(Option<seq<byte>>, nat)>)
    ensures r.Ok? ==> p < r.value.1 <= |view|
  {
    var (path, q) :- GetString(view, p);
    var contents :- OpenPath(files, path, writable);
    Ok((contents, q))
  }

  /**
   * The column constructor's reads, in order: the name and type, then the data, null
   * and arena stores.  The result carries the cursor after the last path.
   */
  function DecodeColumn(view: seq<byte>, p: nat, files: map<Text, seq<byte>>, writable: bool): (r: Result<(ColumnImage, nat)>)
    ensures r.Ok? ==> p < r.value.1 <= |view|
  {
    var (name, ctype, p1) :- DecodeHead(view, p);
    var (data, p2) :- DecodeStore(view, p1, files, writable);
    var (nulls, p3) :- DecodeStore(view, p2, files, writable);
    var (varData, p4) :- DecodeStore(view, p3, files, writable);
    Ok((ColumnImage(name, ctype, data, nulls, varData), p4))
  }

  /** DecodeColumn from its four stages, when each succeeds. */
  lemma ColumnStages(view: seq<byte>, p: nat, files: map<Text, seq<byte>>, writable: bool,
                     head: (Text, ColumnType, nat), data: (Option<seq<byte>>, nat),
                     nulls: (Option<seq<byte>>, nat), varData: (Option<seq<byte>>, nat))
    requires DecodeHead(view, p) == Ok(head)
    requires DecodeStore(view, head.2, files, writable) == Ok(data)
    requires DecodeStore(view, data.1, files, writable) == Ok(nulls)
    requires DecodeStore(view, nulls.1, files, writable) == Ok(varData)
    ensures DecodeColumn(view, p, files, writable)
         == Ok((ColumnImage(head.0, head.1, data.0, nulls.0, varData.0), varData.1))
  {
  }

  /** DecodeColumn fails with the data store's error. */
  lemma DataFails(view: seq<byte>, p: nat, files: map<Text, seq<byte>>, writable: bool,
                  head: (Text, ColumnType, nat), e: Error)
    requires DecodeHead(view, p) == Ok(head) && DecodeStore(view, head.2, files, writable) == Err(e)
    ensures DecodeColumn(view, p, files, writable) == Err(e)
  {
  }

  /** DecodeColumn fails with the null store's error once the data store was read. */
  lemma NullsFail(view: seq<byte>, p: nat, files: map<Text, seq<byte>>, writable: bool,
                  head: (Text, ColumnType, nat), data: (Option<seq<byte>>, nat), e: Error)
    requires DecodeHead(view, p) == Ok(head) && DecodeStore(view, head.2, files, writable) == Ok(data)
    requires DecodeStore(view, data.1, files, writable) == Err(e)
    ensures DecodeColumn(view, p, files, writable) == Err(e)
  {
  }

  /** DecodeColumn fails with the arena store's error once the data and null stores were read. */
  lemma ArenaFails(view: seq<byte>, p: nat, files: map<Text, seq<byte>>, writable: bool,
                   head: (Text, ColumnType, nat), data: (Option<seq<byte>>, nat), nulls: (Option<seq<byte>>, nat), e: Error)
    requires DecodeHead(view, p) == Ok(head) && DecodeStore(view, head.2, files, writable) == Ok(data)
    requires DecodeStore(view, data.1, files, writable) == Ok(nulls) && DecodeStore(view, nulls.1, files, writable) == Err(e)
    ensures DecodeColumn(view, p, files, writable) == Err(e)
  {
  }

  /** The contents of a store, or None when it maps no file. */
  ghost function Contents(s: MappedStore): Option<seq<byte>>
    reads s
    requires s.Valid()
  {
    if s.isOpen then Some(s.View()) else None
  }

  /** Maps the file at `path` into a new store, as OpenPath describes. */
  method OpenStore(files: map<Text, seq<byte>>, path: Text, writable: bool) returns (r: Result<MappedStore>)
    ensures r.Ok? ==> fresh(r.value) && r.value.Valid() && r.value.pos == 0
    ensures r.Ok? ==> r.value.writable == (writable && r.value.isOpen)
    ensures OpenPath(files, path, writable) == if r.Ok? then Ok(Contents(r.value)) else Err(r.error)
  {
    var s := new MappedStore();
    if path != [] {
      if path in files {
        s.Map(files[path], writable);
      } else if writable {
        s.Map([], true);
      } else {
        return Err(OpenFailed);
      }
    }
    r := Ok(s);
  }

  /** Reads a column's name and type at the control file's cursor. */
  method ReadHead(file: MappedStore) returns (r: Result<(Text, ColumnType)>)
    requires file.Valid() && !file.writable
    modifies file
    ensures file.Valid() && !file.writable && file.isOpen == old(file.isOpen) && file.View() == old(file.View())
    ensures DecodeHead(file.View(), old(file.pos)) == if r.Ok? then Ok((r.value.0, r.value.1, file.pos)) else Err(r.error)
  {
    var name :- ReadString(file);
    var ctype :- ReadType(file);
    r := Ok((name, ctype));
  }

  /** Reads a column type at the control file's cursor. */
  method ReadType(file: MappedStore) returns (r: Result<ColumnType>)
    requires file.Valid() && !file.writable
    modifies file
    ensures file.Valid() && !file.writable && file.isOpen == old(file.isOpen) && file.View() == old(file.View())
    ensures r == GetType(file.View(), old(file.pos))
    ensures r.Ok? ==> file.pos == old(file.pos) + 8
  {
    var code :- ReadLongAt(file);
    r := FromInt(ToInt32(code));
  }

  /** Reads a store path at the control file's cursor and maps that file into a new store. */
  method ReadStore(file: MappedStore, files: map<Text, seq<byte>>, writable: bool) returns (r: Result<MappedStore>)
    requires file.Valid() && !file.writable
    modifies file
    ensures file.Valid() && !file.writable && file.isOpen == old(file.isOpen) && file.View() == old(file.View())
    ensures r.Ok? ==> fresh(r.value) && r.value.Valid() && r.value.pos == 0
    ensures r.Ok? ==> r.value.writable == (writable && r.value.isOpen)
    ensures DecodeStore(file.View(), old(file.pos), files, writable)
         == if r.Ok? then Ok((Contents(r.value), file.pos)) else Err(r.error)
  {
    var path :- ReadString(file);
    r := OpenStore(files, path, writable);
  }

  /** The whole slots of width Width(t) in a store's mapping; none when it maps no file. */
  function SlotCount(s: MappedStore, t: ColumnType): (n: nat)
    reads s
    requires s.Valid()
    ensures n * Width(t) <= s.size
    ensures n == RowCount(ColumnImage([], t, Contents(s), None, None))
  {
    WidthTable(t);
    if s.isOpen then WholeSlots(s.size, Width(t)); s.size / Width(t) else 0
  }

  lemma WholeSlots(n: nat, w: nat)
    requires w > 0
    ensures (n / w) * w <= n
  {
    DivModUnique(n, w, n / w, n % w);
  }

  /** The slot setCalendar stores for a DATE, DATETIME or TIME column. */
  function CalendarSlot(t: ColumnType, c: Calendar): (r: seq<byte>)
    requires CalendarTyped(t)
    ensures |r| == Width(t)
  {
    Pow256Widths();
    if t == DATETIME then EncodeInt(EncodeDateTime(c), 8)
    else if t == DATE then EncodeInt(EncodeDate(c), 4)
    else EncodeInt(EncodeTime(c), 4)
  }

  /** What getCalendar returns for a calendar stored in a column of type `t`: DATE keeps the date, TIME the time of day. */
  function Kept(t: ColumnType, c: Calendar): Calendar {
    if t == DATE then Calendar(c.year, c.month, c.day, 0, 0, 0, 0)
    else if t == TIME then Calendar(1970, 0, 1, c.hour, c.minute, c.second, c.millisecond)
    else c
  }

  /** The calendars a column of type `t` keeps: well-formed fields, and a year that fits when the date is stored. */
  predicate Storable(t: ColumnType, c: Calendar) {
    WellFormed(c) && (t != TIME ==> PackableYear(c.year))
  }

  /** setBigDecimal's outcome: the checks', then ArithmeticError for a value that is no int64 count of ten-thousandths. */
  function DecimalOutcome(checked: Outcome, value: Option<Decimal>): Outcome {
    if checked.Fail? then checked
    else if value.Some? && EncodeDecimal(value.value).Err? then Fail(ArithmeticError)
    else Pass
  }

  /** An append's result: the row it filled when its setter passed, else the setter's error. */
  function AsRow(o: Outcome, index: nat): (r: Result<nat>)
    ensures r.Ok? <==> o.Pass?
  {
    if o.Pass? then Ok(index) else Err(o.error)
  }

  /** Writing the slot of row `n` extends the first `n` slots by the value written. */
  lemma SlotsExtend(view: seq<byte>, n: nat, x: int64)
    requires 8 * n + 8 <= |view|
    ensures Arena.SlotsOf(Overwrite(view, n * 8, EncodeInt(x, 8)), n + 1) == Arena.SlotsOf(view, n) + [x]
  {
    var w := Overwrite(view, n * 8, EncodeInt(x, 8));
    forall k | 0 <= k < n
      ensures w[8 * k..8 * k + 8] == view[8 * k..8 * k + 8]
    {
    }
    assert w[8 * n..8 * n + 8] == EncodeInt(x, 8);
    DecodeEncodeLong(x);
  }

  class Column {
    const name: Text
    const ctype: ColumnType
    const isNullable: bool
    /** An output column: its stores are mapped writable. */
    const writable: bool
    const data: MappedStore
    const nulls: MappedStore
    const varData: MappedStore
    /** The row count (a Java long, never negative here). */
    var size: nat
    /** The append cursor of an output column: the row the next append fills. */
    var pos: nat

    ghost predicate Valid()
      reads this`size, data, nulls, varData
    {
      && data != nulls && data != varData && nulls != varData
      && data.Valid() && nulls.Valid() && varData.Valid()
      && size * Width(ctype) <= data.size
      && isNullable == nulls.isOpen
      && data.writable == (writable && data.isOpen)
      && nulls.writable == (writable && nulls.isOpen)
      && varData.writable == (writable && varData.isOpen)
      && varData.pos <= varData.size
    }

    /** The control-file description of this column and its stores' contents. */
    ghost function Image(): ColumnImage
      reads this`size, data, nulls, varData
      requires Valid()
    {
      ColumnImage(name, ctype, Contents(data), Contents(nulls), Contents(varData))
    }

    /** A column over three freshly mapped stores; its row count is the data store's whole slots. */
    constructor (name: Text, ctype: ColumnType, writable: bool,
                 data: MappedStore, nulls: MappedStore, varData: MappedStore)
      requires data != nulls && data != varData && nulls != varData
      requires data.Valid() && nulls.Valid() && varData.Valid() && varData.pos == 0
      requires data.writable == (writable && data.isOpen) && nulls.writable == (writable && nulls.isOpen)
      requires varData.writable == (writable && varData.isOpen)
      ensures this.name == name && this.ctype == ctype && this.writable == writable
      ensures this.data == data && this.nulls == nulls && this.varData == varData && pos == 0
      ensures Valid() && Image() == ColumnImage(name, ctype, Contents(data), Contents(nulls), Contents(varData))
      ensures size == RowCount(Image())
    {
      this.name := name;
      this.ctype := ctype;
      this.writable := writable;
      this.data := data;
      this.nulls := nulls;
      this.varData := varData;
      this.isNullable := nulls.isOpen;
      this.size := SlotCount(data, ctype);
      this.pos := 0;
    }

    /**
     * The column constructor: reads the column's description at the control file's
     * cursor and maps its stores; the row count is the data store's whole slots.
     */
    static method Open(file: MappedStore, files: map<Text, seq<byte>>, writable: bool) returns (r: Result<Column>)
      requires file.Valid() && !file.writable
      modifies file
      ensures file.Valid() && !file.writable && file.isOpen == old(file.isOpen) && file.View() == old(file.View())
      ensures r.Ok? ==> fresh(r.value) && fresh(r.value.data) && fresh(r.value.nulls) && fresh(r.value.varData)
      ensures r.Ok? ==> r.value.Valid() && r.value.writable == writable && r.value.pos == 0
      ensures r.Ok? ==> r.value.size == RowCount(r.value.Image())
      ensures DecodeColumn(old(file.View()), old(file.pos), files, writable)
           == if r.Ok? then Ok((r.value.Image(), file.pos)) else Err(r.error)
    {
      ghost var p := file.pos;
      var head :- ReadHead(file);
      r := OpenStores(file, files, writable, head.0, head.1, p);
    }

    /**
     * The rest of the column constructor, once the name and type were read from `p`:
     * the data, null and arena paths, each mapped as it is read, then the column.
     */
    static method OpenStores(file: MappedStore, files: map<Text, seq<byte>>, writable: bool,
                             name: Text, ctype: ColumnType, ghost p: nat) returns (r: Result<Column>)
      requires file.Valid() && !file.writable && DecodeHead(file.View(), p) == Ok((name, ctype, file.pos))
      modifies file
      ensures file.Valid() && !file.writable && file.isOpen == old(file.isOpen) && file.View() == old(file.View())
      ensures r.Ok? ==> fresh(r.value) && fresh(r.value.data) && fresh(r.value.nulls) && fresh(r.value.varData)
      ensures r.Ok? ==> r.value.Valid() && r.value.writable == writable && r.value.pos == 0
      ensures r.Ok? ==> r.value.size == RowCount(r.value.Image())
      ensures DecodeColumn(old(file.View()), p, files, writable)
           == if r.Ok? then Ok((r.value.Image(), file.pos)) else Err(r.error)
    {
      ghost var view, p1 := file.View(), file.pos;
      var data := ReadStore(file, files, writable);
      if data.Err? {
        DataFails(view, p, files, writable, (name, ctype, p1), data.error);
        return Err(data.error);
      }
      ghost var d := (Contents(data.value), file.pos);
      var nulls := ReadStore(file, files, writable);
      if nulls.Err? {
        NullsFail(view, p, files, writable, (name, ctype, p1), d, nulls.error);
        return Err(nulls.error);
      }
      ghost var n := (Contents(nulls.value), file.pos);
      var varData := ReadStore(file, files, writable);
      if varData.Err? {
        ArenaFails(view, p, files, writable, (name, ctype, p1), d, n, varData.error);
        return Err(varData.error);
      }
      ColumnStages(view, p, files, writable, (name, ctype, p1), d, n, (Contents(varData.value), file.pos));
      var c := new Column(name, ctype, writable, data.value, nulls.value, varData.value);
      r := Ok(c);
    }

    /** The data-store bytes of row `index`. */
    function Cell(index: int): (r: seq<byte>)
      reads this`size, data
      requires data.Valid() && 0 <= index < size && size * Width(ctype) <= data.size
      ensures |r| == Width(ctype)
    {
      RowInside(index, size, Width(ctype), data.size);
      data.BytesAt(index * Width(ctype), Width(ctype))
    }

    /** The signed integer the slot of row `index` holds (the positional typed read). */
    function Word(index: int): (v: int)
      reads this`size, data
      requires data.Valid() && 0 <= index < size && size * Width(ctype) <= data.size
      ensures -Half(Width(ctype)) <= v < Half(Width(ctype))
      ensures EncodeInt(v, Width(ctype)) == Cell(index)
    {
      WidthTable(ctype);
      EncodeDecodeInt(Cell(index));
      DecodeInt(Cell(index))
    }

    /**
     * isNull: an index outside [0, size) is refused; a row of a column without a null
     * store is never null; otherwise the row's null byte decides.
     */
    function IsNull(index: int): (r: Result<bool>)
      reads this`size, nulls
      requires nulls.Valid()
      ensures (index < 0 || index >= size) <==> r == Err(IndexOutOfRange)
      ensures 0 <= index < size && !isNullable ==> r == Ok(false)
      ensures r.Ok? && isNullable ==> index < nulls.size && r.value == (nulls.View()[index] != 0)
    {
      if index < 0 || index >= size then Err(IndexOutOfRange)
      else if !isNullable then Ok(false)
      else if index >= nulls.size then Err(OutsideMapping)
      else Ok(nulls.View()[index] != 0)
    }

    /** The checks every typed getter makes: the type first, then isNull. */
    function Guard(typed: bool, index: int): (r: Result<bool>)
      reads this`size, nulls
      requires nulls.Valid()
    {
      if typed then IsNull(index) else Err(TypeMismatch)
    }

    /** getInt: the 4-byte slot of a DATE, INT, IPV4 or TIME row, or None for a null row. */
    function GetInt(index: int): (r: Result<Option<int32>>)
      reads this`size, data, nulls, varData
      requires Valid()
      ensures r.Err? <==> Guard(IntTyped(ctype), index).Err?
      ensures r == Ok(None) <==> Guard(IntTyped(ctype), index) == Ok(true)
      ensures r.Ok? && r.value.Some? ==> EncodeInt(r.value.value, 4) == Cell(index)
    {
      var isNull :- Guard(IntTyped(ctype), index);
      if isNull then Ok(None)
      else
        Pow256Widths();
        var v: int32 := Word(index);
        Ok(Some(v))
    }

    /** getLong: the 8-byte slot of a DATETIME, DECIMAL, LONG or TIMESTAMP row, or None for a null row. */
    function GetLong(index: int): (r: Result<Option<int64>>)
      reads this`size, data, nulls, varData
      requires Valid()
      ensures r.Err? <==> Guard(LongTyped(ctype), index).Err?
      ensures r == Ok(None) <==> Guard(LongTyped(ctype), index) == Ok(true)
      ensures r.Ok? && r.value.Some? ==> EncodeInt(r.value.value, 8) == Cell(index)
    {
      var isNull :- Guard(LongTyped(ctype), index);
      if isNull then Ok(None)
      else
        Pow256Widths();
        var v: int64 := Word(index);
        Ok(Some(v))
    }

    /** getShort: the 2-byte slot of an INT16 row, or None for a null row. */
    function GetShort(index: int): (r: Result<Option<int16>>)
      reads this`size, data, nulls, varData
      requires Valid()
      ensures r.Err? <==> Guard(ctype == INT16, index).Err?
      ensures r == Ok(None) <==> Guard(ctype == INT16, index) == Ok(true)
      ensures r.Ok? && r.value.Some? ==> EncodeInt(r.value.value, 2) == Cell(index)
    {
      var isNull :- Guard(ctype == INT16, index);
      if isNull then Ok(None)
      else
        Pow256Widths();
        var v: int16 := Word(index);
        Ok(Some(v))
    }

    /** getByte: the 1-byte slot of an INT8 row, or None for a null row. */
    function GetByte(index: int): (r: Result<Option<int8>>)
      reads this`size, data, nulls, varData
      requires Valid()
      ensures r.Err? <==> Guard(ctype == INT8, index).Err?
      ensures r == Ok(None) <==> Guard(ctype == INT8, index) == Ok(true)
      ensures r.Ok? && r.value.Some? ==> EncodeInt(r.value.value, 1) == Cell(index)
    {
      var isNull :- Guard(ctype == INT8, index);
      if isNull then Ok(None)
      else
        Pow256Widths();
        var v: int8 := Word(index);
        Ok(Some(v))
    }

    /** getBigDecimal: the DECIMAL slot as a count of ten-thousandths, or None for a null row. */
    function GetBigDecimal(index: int): (r: Result<Option<Decimal>>)
      reads this`size, data, nulls, varData
      requires Valid()
      ensures r.Err? <==> Guard(ctype == DECIMAL, index).Err?
      ensures r == Ok(None) <==> Guard(ctype == DECIMAL, index) == Ok(true)
      ensures r.Ok? && r.value.Some? ==>
        && EncodeDecimal(r.value.value).Ok?
        && EncodeInt(EncodeDecimal(r.value.value).value, 8) == Cell(index)
    {
      var isNull :- Guard(ctype == DECIMAL, index);
      if isNull then Ok(None)
      else
        Pow256Widths();
        var raw: int64 := Word(index);
        DecimalRoundTrip(raw);
        Ok(Some(DecodeDecimal(raw)))
    }

    /** getCalendar: a DATE, DATETIME or TIME slot unpacked into calendar fields, or None for a null row. */
    function GetCalendar(index: int): (r: Result<Option<Calendar>>)
      reads this`size, data, nulls, varData
      requires Valid()
      ensures r.Err? <==> Guard(CalendarTyped(ctype), index).Err?
      ensures r == Ok(None) <==> Guard(CalendarTyped(ctype), index) == Ok(true)
    {
      var isNull :- Guard(CalendarTyped(ctype), index);
      if isNull then Ok(None)
      else
        Pow256Widths();
        if ctype == DATETIME then
          var v: int64 := Word(index);
          Ok(Some(DecodeDateTime(v)))
        else
          var v: int32 := Word(index);
          Ok(Some(if ctype == DATE then DecodeDate(v) else DecodeTime(v)))
    }

    /** getInet4Address: the four address octets unpacked from an IPV4 slot, or None for a null row. */
    function GetInet4Address(index: int): (r: Result<Option<seq<byte>>>)
      reads this`size, data, nulls, varData
      requires Valid()
      ensures r.Err? <==> Guard(ctype == IPV4, index).Err?
      ensures r == Ok(None) <==> Guard(ctype == IPV4, index) == Ok(true)
      ensures r.Ok? && r.value.Some? ==> |r.value.value| == 4 && r.value.value == Reversed(Cell(index))
    {
      var isNull :- Guard(ctype == IPV4, index);
      if isNull then Ok(None)
      else
        Pow256Widths();
        var v: int32 := Word(index);
        AddressBytes(v);
        ReversedFour(Cell(index));
        Ok(Some(DecodeAddress(v)))
    }

    /**
     * getChar: the CHARn slot read back through readCharN, which reverses it and drops
     * the trailing zero bytes; storing the result again rebuilds the slot exactly.
     */
    function GetChar(index: int): (r: Result<Option<seq<byte>>>)
      reads this`size, data, nulls, varData
      requires Valid()
      ensures r.Err? <==> Guard(IsCharN(ctype), index).Err?
      ensures r == Ok(None) <==> Guard(IsCharN(ctype), index) == Ok(true)
    {
      var isNull :- Guard(IsCharN(ctype), index);
      if isNull then Ok(None)
      else
        var field := Reversed(Cell(index));
        Ok(Some(field[..Significant(field)]))
    }

    /** A CHARn value read back is no longer than the field, does not end in a zero byte, and stored again rebuilds the slot. */
    lemma GetCharField(index: int)
      requires Valid() && GetChar(index).Ok? && GetChar(index).value.Some?
      ensures var v := GetChar(index).value.value;
        && |v| <= Width(ctype) && (v != [] ==> v[|v| - 1] != 0)
        && CharNField(v, Width(ctype)) == Cell(index)
    {
      CharNRead(Cell(index));
    }

    /**
     * The bytes of row `index` of a BYTES or STRING column: from its offset slot to the
     * next row's slot (or the arena's end, for the last row), less `termLen`.  It is
     * the layout's read of the row, over all the column's slots.
     */
    function VarValue(index: int, termLen: nat): (r: Result<seq<byte>>)
      reads this`size, data, nulls, varData
      requires Valid() && IsVarLength(ctype) && 0 <= index < size
      ensures r == Arena.ReadValue(Arena.SlotsOf(data.View(), size), varData.View(), index, termLen)
    {
      var position := Word(index);
      var end := if index < size - 1 then Word(index + 1) else varData.size;
      SlotWord(index);
      SlotWord(if index < size - 1 then index + 1 else index);
      Arena.Extract(varData.View(), position, end, termLen)
    }

    /** The slot of a row of a BYTES or STRING column is the layout's slot. */
    lemma SlotWord(index: int)
      requires Valid() && IsVarLength(ctype) && 0 <= index < size
      ensures 8 * size <= |data.View()|
      ensures Word(index) == Arena.SlotsOf(data.View(), size)[index]
    {
      var cell := Cell(index);
      assert cell == data.View()[8 * index..8 * index + 8];
      DecodeLongIsInt(cell);
    }

    /** getVarBytes: the bytes of a BYTES row, or None for a null row. */
    function GetVarBytes(index: int): (r: Result<Option<seq<byte>>>)
      reads this`size, data, nulls, varData
      requires Valid()
      ensures Guard(ctype == BYTES, index).Err? ==> r == Err(Guard(ctype == BYTES, index).error)
      ensures r == Ok(None) <==> Guard(ctype == BYTES, index) == Ok(true)
      ensures Guard(ctype == BYTES, index) == Ok(false) ==>
        r == (var v :- Arena.ReadValue(Arena.SlotsOf(data.View(), size), varData.View(), index, 0); Ok(Some(v)))
    {
      var isNull :- Guard(ctype == BYTES, index);
      if isNull then Ok(None)
      else
        var v :- VarValue(index, 0);
        Ok(Some(v))
    }

    /** getVarString: the bytes of a STRING row without its NUL terminator, or None for a null row. */
    function GetVarString(index: int): (r: Result<Option<seq<byte>>>)
      reads this`size, data, nulls, varData
      requires Valid()
      ensures Guard(ctype == STRING, index).Err? ==> r == Err(Guard(ctype == STRING, index).error)
      ensures r == Ok(None) <==> Guard(ctype == STRING, index) == Ok(true)
      ensures Guard(ctype == STRING, index) == Ok(false) ==>
        r == (var v :- Arena.ReadValue(Arena.SlotsOf(data.View(), size), varData.View(), index, 1); Ok(Some(v)))
    {
      var isNull :- Guard(ctype == STRING, index);
      if isNull then Ok(None)
      else
        var v :- VarValue(index, 1);
        Ok(Some(v))
    }

    // Output columns: setters, appends, reserve and complete.

    /**
     * The checks before a row's null byte is written: setNull refuses a column without
     * a null store, then both it and handleNull refuse an index outside [0, size); a
     * null byte past the null store's mapping would be written outside it.
     */
    function NullCheck(index: int, isNull: bool): (o: Outcome)
      reads this`size, nulls
      requires nulls.Valid()
      ensures o.Pass? ==> 0 <= index < size && (isNull ==> isNullable) && (isNullable ==> index < nulls.size)
    {
      if isNull && !isNullable then Fail(NotNullable)
      else if index < 0 || index >= size then Fail(IndexOutOfRange)
      else if isNullable && index >= nulls.size then Fail(OutsideMapping)
      else Pass
    }

    /** The null store's bytes after row `index` is marked null (1) or not null (0); a column without one keeps none. */
    function Marked(view: seq<byte>, index: nat, isNull: bool): seq<byte>
      requires isNullable ==> index < |view|
    {
      if isNullable then Overwrite(view, index, [if isNull then 1 else 0]) else view
    }

    /** setNull: marks row `index` null in the null store. */
    method SetNull(index: int) returns (o: Outcome)
      requires Valid() && writable
      modifies nulls
      ensures Valid()
      ensures o == old(NullCheck(index, true))
      ensures o.Fail? ==> unchanged(nulls)
      ensures o.Pass? ==> nulls.View() == Marked(old(nulls.View()), index, true) && IsNull(index) == Ok(true)
    {
      if !isNullable {
        return Fail(NotNullable);
      }
      if index < 0 || index >= size {
        return Fail(IndexOutOfRange);
      }
      if index >= nulls.size {
        return Fail(OutsideMapping);
      }
      nulls.WriteAt(index, [1]);
      o := Pass;
    }

    /**
     * handleNull: a null value goes through setNull; any other value needs an index in
     * [0, size) and, in a nullable column, clears the row's null byte.
     */
    method HandleNull(index: int, isNull: bool) returns (o: Outcome)
      requires Valid() && writable
      modifies nulls
      ensures Valid()
      ensures o == old(NullCheck(index, isNull))
      ensures o.Pass? ==> 0 <= index < size
      ensures o.Fail? ==> unchanged(nulls)
      ensures o.Pass? ==> nulls.View() == Marked(old(nulls.View()), index, isNull) && IsNull(index) == Ok(isNull)
    {
      if isNull {
        o := SetNull(index);
        return;
      }
      if index < 0 || index >= size {
        return Fail(IndexOutOfRange);
      }
      if isNullable {
        if index >= nulls.size {
          return Fail(OutsideMapping);
        }
        nulls.WriteAt(index, [0]);
      }
      o := Pass;
    }

    /** A typed setter's checks: the column type first, then handleNull's. */
    function Check(typed: bool, index: int, isNull: bool): (o: Outcome)
      reads this`size, nulls
      requires nulls.Valid()
      ensures o.Pass? <==> typed && NullCheck(index, isNull).Pass?
    {
      if typed then NullCheck(index, isNull) else Fail(TypeMismatch)
    }

    /** The data store's bytes after a setter: row `index`'s slot replaced by `slot`, or left alone for a null. */
    function Written(view: seq<byte>, rows: nat, index: int, slot: Option<seq<byte>>): seq<byte>
      requires slot.Some? ==> 0 <= index < rows && rows * |slot.value| <= |view|
    {
      if slot.Some? then RowInside(index, rows, |slot.value|, |view|); Overwrite(view, index * |slot.value|, slot.value) else view
    }

    /** A positional typed write of row `index`'s slot. */
    method WriteRow(index: int, b: seq<byte>)
      requires Valid() && writable && 0 <= index < size && |b| == Width(ctype)
      modifies data
      ensures Valid()
      ensures data.View() == Written(old(data.View()), size, index, Some(b))
      ensures Cell(index) == b
    {
      RowInside(index, size, Width(ctype), data.size);
      data.WriteAt(index * Width(ctype), b);
    }

    /** A slot holding the encoding of a value of the slot's width reads back as that value. */
    lemma WordReadsBack(index: int, x: int)
      requires data.Valid() && 0 <= index < size && size * Width(ctype) <= data.size
      requires -Half(Width(ctype)) <= x < Half(Width(ctype)) && Cell(index) == EncodeInt(x, Width(ctype))
      ensures Word(index) == x
    {
      WidthTable(ctype);
      DecodeEncodeInt(x, Width(ctype));
    }

    /** setInt: stores a 4-byte value, or marks the row null. */
    method SetInt(index: int, value: Option<int32>) returns (o: Outcome)
      requires Valid() && writable
      modifies data, nulls
      ensures Valid()
      ensures o == old(Check(IntTyped(ctype), index, value.None?))
      ensures o.Fail? ==> unchanged(data) && unchanged(nulls)
      ensures o.Pass? ==> nulls.View() == Marked(old(nulls.View()), index, value.None?)
      ensures o.Pass? ==> data.View() == Written(old(data.View()), size, index, if value.Some? then Some(EncodeInt(value.value, 4)) else None)
      ensures o.Pass? ==> GetInt(index) == Ok(value)
    {
      if !IntTyped(ctype) {
        return Fail(TypeMismatch);
      }
      o := HandleNull(index, value.None?);
      if o.Pass? && value.Some? {
        WriteRow(index, EncodeInt(value.value, 4));
        Pow256Widths();
        WordReadsBack(index, value.value);
      }
    }

    /** setLong: stores an 8-byte value, or marks the row null. */
    method SetLong(index: int, value: Option<int64>) returns (o: Outcome)
      requires Valid() && writable
      modifies data, nulls
      ensures Valid()
      ensures o == old(Check(LongTyped(ctype), index, value.None?))
      ensures o.Fail? ==> unchanged(data) && unchanged(nulls)
      ensures o.Pass? ==> nulls.View() == Marked(old(nulls.View()), index, value.None?)
      ensures o.Pass? ==> data.View() == Written(old(data.View()), size, index, if value.Some? then Some(EncodeInt(value.value, 8)) else None)
      ensures o.Pass? ==> GetLong(index) == Ok(value)
    {
      if !LongTyped(ctype) {
        return Fail(TypeMismatch);
      }
      o := HandleNull(index, value.None?);
      if o.Pass? && value.Some? {
        WriteRow(index, EncodeInt(value.value, 8));
        Pow256Widths();
        WordReadsBack(index, value.value);
      }
    }

    /** setShort: stores a 2-byte value, or marks the row null. */
    method SetShort(index: int, value: Option<int16>) returns (o: Outcome)
      requires Valid() && writable
      modifies data, nulls
      ensures Valid()
      ensures o == old(Check(ctype == INT16, index, value.None?))
      ensures o.Fail? ==> unchanged(data) && unchanged(nulls)
      ensures o.Pass? ==> nulls.View() == Marked(old(nulls.View()), index, value.None?)
      ensures o.Pass? ==> data.View() == Written(old(data.View()), size, index, if value.Some? then Some(EncodeInt(value.value, 2)) else None)
      ensures o.Pass? ==> GetShort(index) == Ok(value)
    {
      if ctype != INT16 {
        return Fail(TypeMismatch);
      }
      o := HandleNull(index, value.None?);
      if o.Pass? && value.Some? {
        WriteRow(index, EncodeInt(value.value, 2));
        Pow256Widths();
        WordReadsBack(index, value.value);
      }
    }

    /** setByte: stores a 1-byte value, or marks the row null. */
    method SetByte(index: int, value: Option<int8>) returns (o: Outcome)
      requires Valid() && writable
      modifies data, nulls
      ensures Valid()
      ensures o == old(Check(ctype == INT8, index, value.None?))
      ensures o.Fail? ==> unchanged(data) && unchanged(nulls)
      ensures o.Pass? ==> nulls.View() == Marked(old(nulls.View()), index, value.None?)
      ensures o.Pass? ==> data.View() == Written(old(data.View()), size, index, if value.Some? then Some(EncodeInt(value.value, 1)) else None)
      ensures o.Pass? ==> GetByte(index) == Ok(value)
    {
      if ctype != INT8 {
        return Fail(TypeMismatch);
      }
      o := HandleNull(index, value.None?);
      if o.Pass? && value.Some? {
        WriteRow(index, EncodeInt(value.value, 1));
        Pow256Widths();
        WordReadsBack(index, value.value);
      }
    }

    /**
     * setBigDecimal: stores the value as a count of ten-thousandths.  The null byte is
     * cleared before the count is computed, so a value that is not such a count fails
     * with ArithmeticError after that write.
     */
    method SetBigDecimal(index: int, value: Option<Decimal>) returns (o: Outcome)
      requires Valid() && writable
      modifies data, nulls
      ensures Valid()
      ensures o == DecimalOutcome(old(Check(ctype == DECIMAL, index, value.None?)), value)
      ensures old(Check(ctype == DECIMAL, index, value.None?)).Fail? ==> unchanged(nulls)
      ensures o.Fail? ==> unchanged(data)
      ensures old(Check(ctype == DECIMAL, index, value.None?)).Pass? ==> nulls.View() == Marked(old(nulls.View()), index, value.None?)
      ensures o.Pass? ==> data.View() == Written(old(data.View()), size, index, if value.Some? then Some(EncodeInt(EncodeDecimal(value.value).value, 8)) else None)
      ensures o.Pass? ==> GetBigDecimal(index).Ok? && GetBigDecimal(index).value.Some? == value.Some?
      ensures o.Pass? && value.Some? ==> SameValue(GetBigDecimal(index).value.value, value.value)
    {
      if ctype != DECIMAL {
        return Fail(TypeMismatch);
      }
      o := HandleNull(index, value.None?);
      if o.Pass? && value.Some? {
        var raw := EncodeDecimal(value.value);
        if raw.Err? {
          return Fail(ArithmeticError);
        }
        WriteRow(index, EncodeInt(raw.value, 8));
        Pow256Widths();
        WordReadsBack(index, raw.value);
        DecimalExact(value.value);
      }
    }

    /**
     * setCalendar: packs the calendar fields into a DATE, DATETIME or TIME slot.  A null
     * for a DATETIME column falls through into the TIME case and is handled twice,
     * which marks the row null just the same.
     */
    method SetCalendar(index: int, value: Option<Calendar>) returns (o: Outcome)
      requires Valid() && writable
      modifies data, nulls
      ensures Valid()
      ensures o == old(Check(CalendarTyped(ctype), index, value.None?))
      ensures o.Fail? ==> unchanged(data) && unchanged(nulls)
      ensures o.Pass? ==> nulls.View() == Marked(old(nulls.View()), index, value.None?)
      ensures o.Pass? ==> data.View() == Written(old(data.View()), size, index, if value.Some? then Some(CalendarSlot(ctype, value.value)) else None)
      ensures o.Pass? && value.None? ==> GetCalendar(index) == Ok(None)
      ensures o.Pass? && value.Some? && Storable(ctype, value.value) ==> GetCalendar(index) == Ok(Some(Kept(ctype, value.value)))
    {
      if !CalendarTyped(ctype) {
        return Fail(TypeMismatch);
      }
      if ctype == DATETIME {
        o := HandleNull(index, value.None?);
        if o.Fail? {
          return;
        }
        if value.Some? {
          WriteCalendar(index, value.value);
          return;
        }
        ghost var once := nulls.View();
        o := HandleNull(index, value.None?);
        assert Marked(once, index, true) == once;
        return;
      }
      o := HandleNull(index, value.None?);
      if o.Pass? && value.Some? {
        WriteCalendar(index, value.value);
      }
    }

    /** The write half of setCalendar, once the null byte is cleared. */
    method WriteCalendar(index: int, c: Calendar)
      requires Valid() && writable && CalendarTyped(ctype) && 0 <= index < size
      requires IsNull(index) == Ok(false)
      modifies data
      ensures Valid()
      ensures data.View() == Written(old(data.View()), size, index, Some(CalendarSlot(ctype, c)))
      ensures Storable(ctype, c) ==> GetCalendar(index) == Ok(Some(Kept(ctype, c)))
    {
      WriteRow(index, CalendarSlot(ctype, c));
      Pow256Widths();
      if ctype == DATETIME {
        WordReadsBack(index, EncodeDateTime(c));
        if Storable(ctype, c) {
          DateTimeRoundTrip(c);
        }
      } else if ctype == DATE {
        WordReadsBack(index, EncodeDate(c));
        if Storable(ctype, c) {
          DateRoundTrip(c);
        }
      } else {
        WordReadsBack(index, EncodeTime(c));
        if Storable(ctype, c) {
          TimeRoundTrip(c);
        }
      }
    }

    /**
     * setChar: stores the value's bytes in a CHARn slot, reversed and zero padded (a
     * longer value keeps its first n bytes).
     */
    method SetChar(index: int, value: Option<seq<byte>>) returns (o: Outcome)
      requires Valid() && writable
      modifies data, nulls
      ensures Valid()
      ensures o == old(Check(IsCharN(ctype), index, value.None?))
      ensures o.Fail? ==> unchanged(data) && unchanged(nulls)
      ensures o.Pass? ==> nulls.View() == Marked(old(nulls.View()), index, value.None?)
      ensures o.Pass? ==> data.View() == Written(old(data.View()), size, index, if value.Some? then Some(CharNField(value.value, Width(ctype))) else None)
      ensures o.Pass? && value.None? ==> GetChar(index) == Ok(None)
      ensures o.Pass? && value.Some? ==> IsNull(index) == Ok(false) && Cell(index) == CharNField(value.value, Width(ctype))
    {
      if !IsCharN(ctype) {
        return Fail(TypeMismatch);
      }
      o := HandleNull(index, value.None?);
      if o.Pass? && value.Some? {
        WriteField(index, value.value);
      }
    }

    /** writeCharN into row `index`'s slot: the value reversed and zero padded to the slot. */
    method WriteField(index: int, v: seq<byte>)
      requires Valid() && writable && 0 <= index < size
      modifies data
      ensures Valid()
      ensures data.View() == Written(old(data.View()), size, index, Some(CharNField(v, Width(ctype))))
      ensures Cell(index) == CharNField(v, Width(ctype))
    {
      var n := Width(ctype);
      RowInside(index, size, n, data.size);
      ghost var field := CharNField(v, n);
      data.WriteCharN(index * n, v, n);
      OverwriteSlice(old(data.View()), index * n, field);
    }

    /** A CHARn slot written from a value that fits and does not end in a zero byte reads back as that value. */
    lemma CharReadsBack(index: int, v: seq<byte>)
      requires Valid() && IsCharN(ctype) && IsNull(index) == Ok(false)
      requires |v| <= Width(ctype) && (v != [] ==> v[|v| - 1] != 0) && Cell(index) == CharNField(v, Width(ctype))
      ensures GetChar(index) == Ok(Some(v))
    {
      CharNRoundTrip(v, Width(ctype));
    }

    /** setInet4Address: packs the four address octets into an IPV4 slot. */
    method SetInet4Address(index: int, value: Option<seq<byte>>) returns (o: Outcome)
      requires Valid() && writable && (value.Some? ==> |value.value| == 4)
      modifies data, nulls
      ensures Valid()
      ensures o == old(Check(ctype == IPV4, index, value.None?))
      ensures o.Fail? ==> unchanged(data) && unchanged(nulls)
      ensures o.Pass? ==> nulls.View() == Marked(old(nulls.View()), index, value.None?)
      ensures o.Pass? ==> data.View() == Written(old(data.View()), size, index, if value.Some? then Some(EncodeInt(EncodeAddress(value.value), 4)) else None)
      ensures o.Pass? && value.None? ==> GetInet4Address(index) == Ok(None)
      ensures o.Pass? && value.Some? && value.value[1] < 128 && value.value[2] < 128 && value.value[3] < 128
        ==> GetInet4Address(index) == Ok(value)
    {
      if ctype != IPV4 {
        return Fail(TypeMismatch);
      }
      o := HandleNull(index, value.None?);
      if o.Pass? && value.Some? {
        Pow256Widths();
        WriteRow(index, EncodeInt(EncodeAddress(value.value), 4));
        WordReadsBack(index, EncodeAddress(value.value));
        if value.value[1] < 128 && value.value[2] < 128 && value.value[3] < 128 {
          AddressRoundTrip(value.value);
        }
      }
    }

    /** appendInt: setInt at the append cursor, which then moves to the next row. */
    method AppendInt(value: Option<int32>) returns (r: Result<nat>)
      requires Valid() && writable
      modifies this`pos, data, nulls
      ensures Valid()
      ensures r == AsRow(old(Check(IntTyped(ctype), pos, value.None?)), old(pos))
      ensures r.Err? ==> pos == old(pos) && unchanged(data) && unchanged(nulls)
      ensures r.Ok? ==> pos == old(pos) + 1 && nulls.View() == Marked(old(nulls.View()), r.value, value.None?)
      ensures r.Ok? ==> data.View() == Written(old(data.View()), size, r.value, if value.Some? then Some(EncodeInt(value.value, 4)) else None)
      ensures r.Ok? ==> GetInt(r.value) == Ok(value)
    {
      var o := SetInt(pos, value);
      if o.Fail? {
        return Err(o.error);
      }
      r := Ok(pos);
      pos := pos + 1;
    }

    /** appendLong: setLong at the append cursor, which then moves to the next row. */
    method AppendLong(value: Option<int64>) returns (r: Result<nat>)
      requires Valid() && writable
      modifies this`pos, data, nulls
      ensures Valid()
      ensures r == AsRow(old(Check(LongTyped(ctype), pos, value.None?)), old(pos))
      ensures r.Err? ==> pos == old(pos) && unchanged(data) && unchanged(nulls)
      ensures r.Ok? ==> pos == old(pos) + 1 && nulls.View() == Marked(old(nulls.View()), r.value, value.None?)
      ensures r.Ok? ==> data.View() == Written(old(data.View()), size, r.value, if value.Some? then Some(EncodeInt(value.value, 8)) else None)
      ensures r.Ok? ==> GetLong(r.value) == Ok(value)
    {
      var o := SetLong(pos, value);
      if o.Fail? {
        return Err(o.error);
      }
      r := Ok(pos);
      pos := pos + 1;
    }

    /** appendShort: setShort at the append cursor, which then moves to the next row. */
    method AppendShort(value: Option<int16>) returns (r: Result<nat>)
      requires Valid() && writable
      modifies this`pos, data, nulls
      ensures Valid()
      ensures r == AsRow(old(Check(ctype == INT16, pos, value.None?)), old(pos))
      ensures r.Err? ==> pos == old(pos) && unchanged(data) && unchanged(nulls)
      ensures r.Ok? ==> pos == old(pos) + 1 && nulls.View() == Marked(old(nulls.View()), r.value, value.None?)
      ensures r.Ok? ==> data.View() == Written(old(data.View()), size, r.value, if value.Some? then Some(EncodeInt(value.value, 2)) else None)
      ensures r.Ok? ==> GetShort(r.value) == Ok(value)
    {
      var o := SetShort(pos, value);
      if o.Fail? {
        return Err(o.error);
      }
      r := Ok(pos);
      pos := pos + 1;
    }

    /** appendByte: setByte at the append cursor, which then moves to the next row. */
    method AppendByte(value: Option<int8>) returns (r: Result<nat>)
      requires Valid() && writable
      modifies this`pos, data, nulls
      ensures Valid()
      ensures r == AsRow(old(Check(ctype == INT8, pos, value.None?)), old(pos))
      ensures r.Err? ==> pos == old(pos) && unchanged(data) && unchanged(nulls)
      ensures r.Ok? ==> pos == old(pos) + 1 && nulls.View() == Marked(old(nulls.View()), r.value, value.None?)
      ensures r.Ok? ==> data.View() == Written(old(data.View()), size, r.value, if value.Some? then Some(EncodeInt(value.value, 1)) else None)
      ensures r.Ok? ==> GetByte(r.value) == Ok(value)
    {
      var o := SetByte(pos, value);
      if o.Fail? {
        return Err(o.error);
      }
      r := Ok(pos);
      pos := pos + 1;
    }

    /** appendCalendar: setCalendar at the append cursor, which then moves to the next row. */
    method AppendCalendar(value: Option<Calendar>) returns (r: Result<nat>)
      requires Valid() && writable
      modifies this`pos, data, nulls
      ensures Valid()
      ensures r == AsRow(old(Check(CalendarTyped(ctype), pos, value.None?)), old(pos))
      ensures r.Err? ==> pos == old(pos) && unchanged(data) && unchanged(nulls)
      ensures r.Ok? ==> pos == old(pos) + 1 && nulls.View() == Marked(old(nulls.View()), r.value, value.None?)
      ensures r.Ok? ==> data.View() == Written(old(data.View()), size, r.value, if value.Some? then Some(CalendarSlot(ctype, value.value)) else None)
      ensures r.Ok? && value.None? ==> GetCalendar(r.value) == Ok(None)
      ensures r.Ok? && value.Some? && Storable(ctype, value.value) ==> GetCalendar(r.value) == Ok(Some(Kept(ctype, value.value)))
    {
      var o := SetCalendar(pos, value);
      if o.Fail? {
        return Err(o.error);
      }
      r := Ok(pos);
      pos := pos + 1;
    }

    /** appendChar: setChar at the append cursor, which then moves to the next row. */
    method AppendChar(value: Option<seq<byte>>) returns (r: Result<nat>)
      requires Valid() && writable
      modifies this`pos, data, nulls
      ensures Valid()
      ensures r == AsRow(old(Check(IsCharN(ctype), pos, value.None?)), old(pos))
      ensures r.Err? ==> pos == old(pos) && unchanged(data) && unchanged(nulls)
      ensures r.Ok? ==> pos == old(pos) + 1 && nulls.View() == Marked(old(nulls.View()), r.value, value.None?)
      ensures r.Ok? ==> data.View() == Written(old(data.View()), size, r.value, if value.Some? then Some(CharNField(value.value, Width(ctype))) else None)
      ensures r.Ok? && value.None? ==> GetChar(r.value) == Ok(None)
      ensures r.Ok? && value.Some? ==> IsNull(r.value) == Ok(false) && Cell(r.value) == CharNField(value.value, Width(ctype))
    {
      var o := SetChar(pos, value);
      if o.Fail? {
        return Err(o.error);
      }
      r := Ok(pos);
      pos := pos + 1;
    }

    /** appendInet4Address: setInet4Address at the append cursor, which then moves to the next row. */
    method AppendInet4Address(value: Option<seq<byte>>) returns (r: Result<nat>)
      requires Valid() && writable && (value.Some? ==> |value.value| == 4)
      modifies this`pos, data, nulls
      ensures Valid()
      ensures r == AsRow(old(Check(ctype == IPV4, pos, value.None?)), old(pos))
      ensures r.Err? ==> pos == old(pos) && unchanged(data) && unchanged(nulls)
      ensures r.Ok? ==> pos == old(pos) + 1 && nulls.View() == Marked(old(nulls.View()), r.value, value.None?)
      ensures r.Ok? ==> data.View() == Written(old(data.View()), size, r.value, if value.Some? then Some(EncodeInt(EncodeAddress(value.value), 4)) else None)
      ensures r.Ok? && value.None? ==> GetInet4Address(r.value) == Ok(None)
      ensures r.Ok? && value.Some? && value.value[1] < 128 && value.value[2] < 128 && value.value[3] < 128
        ==> GetInet4Address(r.value) == Ok(value)
    {
      var o := SetInet4Address(pos, value);
      if o.Fail? {
        return Err(o.error);
      }
      r := Ok(pos);
      pos := pos + 1;
    }

    /**
     * appendBigDecimal: setBigDecimal at the append cursor.  A value that is no int64
     * count fails after its row's null byte is cleared, and the cursor stays.
     */
    method AppendBigDecimal(value: Option<Decimal>) returns (r: Result<nat>)
      requires Valid() && writable
      modifies this`pos, data, nulls
      ensures Valid()
      ensures r == AsRow(DecimalOutcome(old(Check(ctype == DECIMAL, pos, value.None?)), value), old(pos))
      ensures r.Err? ==> pos == old(pos) && unchanged(data)
      ensures old(Check(ctype == DECIMAL, pos, value.None?)).Fail? ==> unchanged(nulls)
      ensures old(Check(ctype == DECIMAL, pos, value.None?)).Pass? ==> nulls.View() == Marked(old(nulls.View()), old(pos), value.None?)
      ensures r.Ok? ==> pos == old(pos) + 1
      ensures r.Ok? ==> data.View() == Written(old(data.View()), size, r.value, if value.Some? then Some(EncodeInt(EncodeDecimal(value.value).value, 8)) else None)
      ensures r.Ok? ==> GetBigDecimal(r.value).Ok? && GetBigDecimal(r.value).value.Some? == value.Some?
      ensures r.Ok? && value.Some? ==> SameValue(GetBigDecimal(r.value).value.value, value.value)
    {
      var o := SetBigDecimal(pos, value);
      if o.Fail? {
        return Err(o.error);
      }
      r := Ok(pos);
      pos := pos + 1;
    }

    /** The terminator each value of the column carries in the arena: a NUL byte for STRING, none for BYTES. */
    function Terminator(): seq<byte> {
      if ctype == STRING then [0] else []
    }

    /** The bytes of the arena before its cursor. */
    ghost function ArenaSoFar(): (r: seq<byte>)
      reads varData
      requires varData.Valid() && varData.pos <= varData.size
      ensures |r| == varData.pos
    {
      varData.View()[..varData.pos]
    }

    /** A BYTES or STRING column's layout so far: the slots of the rows before the append cursor, and the arena. */
    ghost function VarState(): Arena.VarColumn
      reads this`size, this`pos, data, varData
      requires data.Valid() && varData.Valid() && varData.pos <= varData.size && size * Width(ctype) <= data.size
      requires IsVarLength(ctype) && pos <= size
    {
      Arena.VarColumn(Arena.SlotsOf(data.View(), pos), ArenaSoFar())
    }

    /**
     * A cursor write of `b` into the arena.  An arena store that maps no file accepts
     * no bytes (End of file reached); a mapped one grows as needed.
     */
    method ArenaWrite(b: seq<byte>) returns (o: Outcome)
      requires Valid() && writable
      modifies varData
      ensures Valid()
      ensures o == if old(varData.isOpen) || b == [] then Pass else Fail(EndOfFile)
      ensures o.Fail? || !old(varData.isOpen) ==> unchanged(varData)
      ensures o.Pass? ==> varData.isOpen == old(varData.isOpen)
      ensures o.Pass? ==> Put(old(varData.Cur()), b) == Ok(varData.Cur())
      ensures o.Pass? ==> ArenaSoFar() == old(ArenaSoFar()) + b
    {
      ghost var c := varData.Cur();
      if varData.writable {
        varData.WriteBytes(b);
        PutExtends(c, b);
        return Pass;
      }
      if b != [] {
        return Fail(EndOfFile);
      }
      assert Overwrite(c.view, c.pos, b) == c.view;
      o := Pass;
    }

    /**
     * The arena half of an append: the value, then (for STRING) its terminator as a
     * separate one-byte write; a null row adds nothing.
     */
    method ArenaAppend(value: Option<seq<byte>>) returns (o: Outcome)
      requires Valid() && writable
      modifies varData
      ensures Valid()
      ensures o == if value.None? || old(varData.isOpen) || value.value + Terminator() == [] then Pass else Fail(EndOfFile)
      ensures o.Fail? ==> unchanged(varData)
      ensures o.Pass? ==> ArenaSoFar() == old(ArenaSoFar()) + Arena.Stored(value, Terminator())
    {
      if value.None? {
        return Pass;
      }
      o := ArenaWrite(value.value);
      if o.Pass? && ctype == STRING {
        o := ArenaWrite([0]);
      }
    }

    /**
     * appendVarBytes/appendVarString with the bounds and null checks made before any
     * write: the row's null byte, its slot (the arena cursor, as a long), then the
     * value.  A failed arena write leaves the slot and null byte written and the
     * cursor where it was.
     */
    method AppendVar(value: Option<seq<byte>>) returns (r: Result<nat>)
      requires Valid() && writable && IsVarLength(ctype) && varData.pos < 0x8000_0000_0000_0000
      modifies this`pos, data, nulls, varData
      ensures Valid()
      ensures old(NullCheck(pos, value.None?)).Fail? ==>
        r == Err(old(NullCheck(pos, value.None?)).error) && unchanged(data) && unchanged(nulls) && unchanged(varData)
      ensures r.Ok? <==> (old(NullCheck(pos, value.None?)).Pass? &&
        (value.None? || old(varData.isOpen) || value.value + Terminator() == []))
      ensures r.Err? ==> pos == old(pos)
      ensures r.Ok? ==> r.value == old(pos) && pos == old(pos) + 1 && old(pos) < size
      ensures r.Ok? ==> nulls.View() == Marked(old(nulls.View()), r.value, value.None?)
      ensures r.Ok? ==> data.View() == Written(old(data.View()), size, r.value, Some(EncodeInt(old(varData.pos), 8)))
      ensures r.Ok? ==> VarState() == Arena.Append(old(VarState()), value, Terminator())
    {
      var index := pos;
      var o := HandleNull(index, value.None?);
      if o.Pass? {
        o := AppendChecked(value);
        if o.Pass? {
          pos := pos + 1;
        }
      }
      r := if o.Pass? then Ok(index) else Err(o.error);
    }

    /**
     * The writes of an append whose checks passed: row `pos`'s slot gets the arena
     * cursor, then the value goes to the arena; the layout up to and including row
     * `pos` is then the append's.
     */
    method AppendChecked(value: Option<seq<byte>>) returns (o: Outcome)
      requires Valid() && writable && IsVarLength(ctype) && pos < size && varData.pos < 0x8000_0000_0000_0000
      modifies data, varData
      ensures Valid()
      ensures o == if value.None? || old(varData.isOpen) || value.value + Terminator() == [] then Pass else Fail(EndOfFile)
      ensures data.View() == Written(old(data.View()), size, pos, Some(EncodeInt(old(varData.pos), 8)))
      ensures o.Pass? ==> Arena.VarColumn(Arena.SlotsOf(data.View(), pos + 1), ArenaSoFar()) == Arena.Append(old(VarState()), value, Terminator())
    {
      ghost var before := VarState();
      WriteSlot(pos);
      ghost var slots := Arena.SlotsOf(data.View(), pos + 1);
      o := ArenaAppend(value);
      if o.Pass? {
        Arena.AppendOf(before.slots, before.arena, slots, ArenaSoFar(), value, Terminator());
      }
    }

    /** The offset slot of row `index`: the arena cursor, as a long. */
    method WriteSlot(index: int)
      requires Valid() && writable && IsVarLength(ctype) && 0 <= index < size && varData.pos < 0x8000_0000_0000_0000
      modifies data
      ensures Valid()
      ensures data.View() == Written(old(data.View()), size, index, Some(EncodeInt(varData.pos, 8)))
      ensures Arena.SlotsOf(data.View(), index + 1) == Arena.SlotsOf(old(data.View()), index) + [varData.pos]
    {
      ghost var slots := data.View();
      WriteRow(index, EncodeInt(varData.pos, 8));
      SlotsExtend(slots, index, varData.pos);
    }

    /** appendVarBytes: a BYTES row appended at the cursor (the corrected order of checks and writes). */
    method AppendVarBytes(value: Option<seq<byte>>) returns (r: Result<nat>)
      requires Valid() && writable && varData.pos < 0x8000_0000_0000_0000
      modifies this`pos, data, nulls, varData
      ensures Valid()
      ensures ctype != BYTES ==> r == Err(TypeMismatch) && pos == old(pos) && unchanged(data) && unchanged(nulls) && unchanged(varData)
      ensures ctype == BYTES && old(NullCheck(pos, value.None?)).Fail? ==>
        r == Err(old(NullCheck(pos, value.None?)).error) && unchanged(data) && unchanged(nulls) && unchanged(varData)
      ensures r.Ok? <==> (ctype == BYTES && old(NullCheck(pos, value.None?)).Pass? &&
        (value.None? || old(varData.isOpen) || value.value + [] == []))
      ensures r.Err? ==> pos == old(pos)
      ensures r.Ok? ==> ctype == BYTES && r.value == old(pos) && pos == old(pos) + 1 && old(pos) < size
      ensures r.Ok? ==> nulls.View() == Marked(old(nulls.View()), r.value, value.None?)
      ensures r.Ok? ==> data.View() == Written(old(data.View()), size, r.value, Some(EncodeInt(old(varData.pos), 8)))
      ensures r.Ok? ==> VarState() == Arena.Append(old(VarState()), value, [])
    {
      if ctype != BYTES {
        return Err(TypeMismatch);
      }
      r := AppendVar(value);
    }

    /** appendVarString: a STRING row appended at the cursor, NUL terminated in the arena (the corrected order). */
    method AppendVarString(value: Option<seq<byte>>) returns (r: Result<nat>)
      requires Valid() && writable && varData.pos < 0x8000_0000_0000_0000
      modifies this`pos, data, nulls, varData
      ensures Valid()
      ensures ctype != STRING ==> r == Err(TypeMismatch) && pos == old(pos) && unchanged(data) && unchanged(nulls) && unchanged(varData)
      ensures ctype == STRING && old(NullCheck(pos, value.None?)).Fail? ==>
        r == Err(old(NullCheck(pos, value.None?)).error) && unchanged(data) && unchanged(nulls) && unchanged(varData)
      ensures r.Ok? <==> (ctype == STRING && old(NullCheck(pos, value.None?)).Pass? &&
        (value.None? || old(varData.isOpen) || value.value + [0] == []))
      ensures r.Err? ==> pos == old(pos)
      ensures r.Ok? ==> ctype == STRING && r.value == old(pos) && pos == old(pos) + 1 && old(pos) < size
      ensures r.Ok? ==> nulls.View() == Marked(old(nulls.View()), r.value, value.None?)
      ensures r.Ok? ==> data.View() == Written(old(data.View()), size, r.value, Some(EncodeInt(old(varData.pos), 8)))
      ensures r.Ok? ==> VarState() == Arena.Append(old(VarState()), value, [0])
    {
      if ctype != STRING {
        return Err(TypeMismatch);
      }
      r := AppendVar(value);
    }

    /**
     * appendVarBytes (terminator none) and appendVarString (terminator NUL) as written:
     * the row's slot is written before handleNull checks the index, so with the column
     * full (the cursor at the row count) the slot lands past the data store's mapping,
     * and a call that then fails its checks has already changed the data store.
     */
    method AppendVarAsWritten(value: Option<seq<byte>>) returns (r: Result<nat>)
      requires Valid() && writable && IsVarLength(ctype) && varData.pos < 0x8000_0000_0000_0000
      modifies this`pos, data, nulls, varData
      ensures Valid()
      ensures old(pos) * 8 + 8 > old(data.size) ==> r == Err(OutsideMapping) && unchanged(data)
      ensures old(pos) * 8 + 8 <= old(data.size) ==>
        data.View() == Overwrite(old(data.View()), old(pos) * 8, EncodeInt(old(varData.pos), 8))
      ensures old(pos) * 8 + 8 <= old(data.size) && old(NullCheck(pos, value.None?)).Fail? ==>
        r == Err(old(NullCheck(pos, value.None?)).error)
      ensures r.Err? ==> pos == old(pos)
      ensures r.Ok? ==> r.value == old(pos) && pos == old(pos) + 1
    {
      var index := pos;
      if index * 8 + 8 > data.size {
        return Err(OutsideMapping);
      }
      data.WriteAt(index * 8, EncodeInt(varData.pos, 8));
      var o := HandleNull(index, value.None?);
      if o.Fail? {
        return Err(o.error);
      }
      o := ArenaAppend(value);
      if o.Fail? {
        return Err(o.error);
      }
      pos := pos + 1;
      r := Ok(index);
    }

    /**
     * reserve (setSize on an output table): the data store is remapped to `n` rows'
     * slots and a nullable column's null store to `n` bytes, zero filled when growing.
     */
    method Reserve(n: nat) returns (o: Outcome)
      requires Valid() && writable
      modifies this`size, data, nulls
      ensures Valid()
      ensures o == if old(data.isOpen) then Pass else Fail(FileNotMapped)
      ensures o.Fail? ==> size == old(size) && unchanged(data) && unchanged(nulls)
      ensures o.Pass? ==> size == n && data.isOpen && data.size == n * Width(ctype)
      ensures o.Pass? ==> data.View() == Resized(old(data.View()), n * Width(ctype))
      ensures o.Pass? ==> nulls.View() == if isNullable then Resized(old(nulls.View()), n) else old(nulls.View())
      ensures o.Pass? ==> data.pos == old(data.pos) && nulls.pos == old(nulls.pos)
    {
      o := data.Remap(n * Width(ctype));
      if o.Fail? {
        return;
      }
      if isNullable {
        var p := nulls.Remap(n);
      }
      size := n;
    }

    /** complete: a BYTES or STRING column's arena is truncated to its cursor. */
    method Complete() returns (o: Outcome)
      requires Valid() && writable
      modifies varData
      ensures Valid()
      ensures o == if IsVarLength(ctype) && !old(varData.isOpen) then Fail(FileNotMapped) else Pass
      ensures !IsVarLength(ctype) || o.Fail? ==> unchanged(varData)
      ensures IsVarLength(ctype) && o.Pass? ==> varData.isOpen && varData.View() == old(ArenaSoFar()) && varData.pos == varData.size
    {
      if IsVarLength(ctype) {
        o := varData.Truncate();
      } else {
        o := Pass;
      }
    }

    /**
     * The read-back law of an output BYTES or STRING column: when the appends so far
     * laid out `values`, every reserved row has been appended and the arena is
     * truncated to its cursor, each non-null row reads back as the value appended.
     */
    lemma VarReadBack(values: seq<Option<seq<byte>>>, i: nat)
      requires Valid() && IsVarLength(ctype) && pos == size && varData.pos == varData.size
      requires VarState() == Arena.Appended(values, Terminator())
      requires i < |values| && values[i].Some? && |values[i].value| <= INT_MAX && IsNull(i) == Ok(false)
      ensures ctype == BYTES ==> GetVarBytes(i) == Ok(values[i])
      ensures ctype == STRING ==> GetVarString(i) == Ok(values[i])
    {
      Arena.ReadBack(values, Terminator(), i);
      assert ArenaSoFar() == varData.View();
      var v := VarValue(i, |Terminator()|);
    }
  }
}
