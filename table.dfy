/**
 * Tables: a named list of columns read one after another from a control file, with
 * a name-to-index map and a row count that starts as the smallest column's.  An
 * output table can be resized (every column reserved to the same row count) and
 * completed (every BYTES and STRING arena truncated to what was appended).
 */
module Tables {
  import opened Wrappers
  import opened Bytes
  import opened Store
  import opened Codec
  import opened Types
  import opened Columns

  /** What a control file says about a table: its name and its columns, in order. */
  datatype TableImage = TableImage(name: Text, columns: seq<ColumnImage>)

  /**
   * The constructor's running row count: the first column's, then replaced by any
   * later column with fewer rows; 0 for a table without columns.
   */
  function MinRows(rows: seq<nat>): nat {
    if rows == [] then 0
    else
      var init, last := rows[..|rows| - 1], rows[|rows| - 1];
      if init == [] || last < MinRows(init) then last else MinRows(init)
  }

  /** MinRows is the least of the row counts, and 0 only stands for "no columns" when there are none. */
  lemma {:induction false} MinRowsLeast(rows: seq<nat>)
    ensures rows == [] ==> MinRows(rows) == 0
    ensures rows != [] ==> MinRows(rows) in rows
    ensures forall i :: 0 <= i < |rows| ==> MinRows(rows) <= rows[i]
  {
    if rows != [] {
      var init := rows[..|rows| - 1];
      MinRowsLeast(init);
      assert forall i :: 0 <= i < |init| ==> rows[i] == init[i];
    }
  }

  /** The row counts the columns of a table start with. */
  function Rows(images: seq<ColumnImage>): (r: seq<nat>)
    ensures |r| == |images|
  {
    seq(|images|, i requires 0 <= i < |images| => RowCount(images[i]))
  }

  /** The constructor's name map: each name put in turn with its index, so the last column of a name wins. */
  function IndexMap(names: seq<Text>): map<Text, nat> {
    if names == [] then map[]
    else IndexMap(names[..|names| - 1])[names[|names| - 1] := |names| - 1]
  }

  /**
   * A name is in the map exactly when some column has it, and it maps to the last
   * such column.
   */
  lemma {:induction false} IndexMapLast(names: seq<Text>, k: Text)
    ensures k in IndexMap(names) <==> exists i :: 0 <= i < |names| && names[i] == k
    ensures k in IndexMap(names) ==>
      IndexMap(names)[k] < |names| && names[IndexMap(names)[k]] == k
      && forall j :: IndexMap(names)[k] < j < |names| ==> names[j] != k
  {
    if names != [] {
      var init := names[..|names| - 1];
      IndexMapLast(init, k);
      assert forall i :: 0 <= i < |init| ==> names[i] == init[i];
    }
  }

  /** getColumnIndex/getTableIndex: the mapped index, or -1 for a name not in the map. */
  function IndexOrMissing(m: map<Text, nat>, k: Text): int {
    if k in m then m[k] else -1
  }

  /** getColumnIndex on the names it was built from: -1 when no column has the name, else the last that has it. */
  lemma IndexOfName(names: seq<Text>, k: Text)
    ensures IndexOrMissing(IndexMap(names), k) == -1 <==> forall i :: 0 <= i < |names| ==> names[i] != k
    ensures IndexOrMissing(IndexMap(names), k) != -1 ==>
      var r := IndexOrMissing(IndexMap(names), k);
      0 <= r < |names| && names[r] == k && forall j :: r < j < |names| ==> names[j] != k
  {
    IndexMapLast(names, k);
  }

  /**
   * A decoder run `n` times from `p`, each run starting where the previous one
   * stopped: the results in order and the final position, or the first failure.
   */
  function Repeat<T>(step: nat -> Result<(T, nat)>, p: nat, n: nat): (r: Result<(seq<T>, nat)>)
    ensures r.Ok? ==> |r.value.0| == n
  {
    if n == 0 then Ok(([], p))
    else
      var before := Repeat(step, p, n - 1);
      if before.Err? then Err(before.error)
      else
        var next := step(before.value.1);
        if next.Err? then Err(next.error)
        else Ok((before.value.0 + [next.value.0], next.value.1))
  }

  /** Once a run fails, the later runs are never reached: the whole repetition fails the same way. */
  lemma {:induction false} RepeatStops<T>(step: nat -> Result<(T, nat)>, p: nat, n: nat, m: nat)
    requires n <= m && Repeat(step, p, n).Err?
    ensures Repeat(step, p, m) == Repeat(step, p, n)
  {
    if n < m {
      RepeatStops(step, p, n, m - 1);
    }
  }

  /** One column read at a given position. */
  function ColumnStep(view: seq<byte>, files: map<Text, seq<byte>>, writable: bool): nat -> Result<(ColumnImage, nat)> {
    q => DecodeColumn(view, q, files, writable)
  }

  /**
   * `step` reads one column at any position, as DecodeColumn does.  The link is only
   * used where a column is actually decoded, so that reasoning about how many
   * columns were read never has to unfold the column format.
   */
  ghost predicate Steps(step: nat -> Result<(ColumnImage, nat)>, view: seq<byte>, files: map<Text, seq<byte>>, writable: bool) {
    forall q: nat {:trigger DecodeColumn(view, q, files, writable)} :: step(q) == DecodeColumn(view, q, files, writable)
  }

  lemma ColumnStepSteps(view: seq<byte>, files: map<Text, seq<byte>>, writable: bool)
    ensures Steps(ColumnStep(view, files, writable), view, files, writable)
  {
  }

  /**
   * The table constructor's reads: the name, the column count (rejected outside
   * [0, Integer.MAX_VALUE]), then the columns, each read by `step`.
   */
  function DecodeTable(view: seq<byte>, p: nat, step: nat -> Result<(ColumnImage, nat)>): Result<(TableImage, nat)>
  {
    var (name, p1) :- GetString(view, p);
    var count :- LongAt(view, p1);
    if count < 0 || count > INT_MAX then Err(InvalidColumnCount)
    else
      var (columns, q) :- Repeat(step, p1 + 8, count);
      Ok((TableImage(name, columns), q))
  }

  /** The table read at `p` after its name and column count: the columns that follow, under that name. */
  lemma TableOf(view: seq<byte>, p: nat, step: nat -> Result<(ColumnImage, nat)>, name: Text, p1: nat, count: int)
    requires GetString(view, p) == Ok((name, p1)) && LongAt(view, p1) == Ok(count) && 0 <= count <= INT_MAX
    ensures DecodeTable(view, p, step)
         == var columns := Repeat(step, p1 + 8, count);
            if columns.Ok? then Ok((TableImage(name, columns.value.0), columns.value.1)) else Err(columns.error)
  {
  }

  /** A column and its three stores. */
  function Parts(c: Column): set<object> {
    {c, c.data, c.nulls, c.varData}
  }

  /** Two columns share no object: neither the column nor any of its stores. */
  predicate Apart(a: Column, b: Column) {
    Parts(a) !! Parts(b)
  }

  /** The columns and every store they map. */
  function Footprint(columns: seq<Column>): set<object> {
    (set i | 0 <= i < |columns| :: columns[i] as object)
    + (set i | 0 <= i < |columns| :: columns[i].data as object)
    + (set i | 0 <= i < |columns| :: columns[i].nulls as object)
    + (set i | 0 <= i < |columns| :: columns[i].varData as object)
  }

  /** The names of the columns, in order. */
  function NamesOf(columns: seq<Column>): (r: seq<Text>)
    ensures |r| == |columns|
  {
    seq(|columns|, i requires 0 <= i < |columns| => columns[i].name)
  }

  /** A column as the table constructor leaves it: valid, of the table's kind, cursor at 0, showing `image`. */
  ghost predicate Opened(c: Column, image: ColumnImage, writable: bool)
    reads Parts(c)
  {
    c.Valid() && c.writable == writable && c.pos == 0 && c.Image() == image
  }

  /** The columns opened so far, all showing their images and all made of objects in `owned`. */
  ghost predicate ColumnsOpened(columns: seq<Column>, images: seq<ColumnImage>, writable: bool, owned: set<object>)
    reads owned
  {
    && |columns| == |images|
    && (columns != [] ==>
      var c := columns[|columns| - 1];
      && Parts(c) <= owned
      && Opened(c, images[|images| - 1], writable)
      && ColumnsOpened(columns[..|columns| - 1], images[..|images| - 1], writable, owned))
  }

  lemma ColumnsOpenedSnoc(columns: seq<Column>, images: seq<ColumnImage>, writable: bool, owned: set<object>,
                          c: Column, image: ColumnImage)
    requires ColumnsOpened(columns, images, writable, owned) && Opened(c, image, writable)
    ensures ColumnsOpened(columns + [c], images + [image], writable, owned + Parts(c))
  {
    assert (columns + [c])[..|columns|] == columns && (images + [image])[..|images|] == images;
    ColumnsOpenedGrow(columns, images, writable, owned, owned + Parts(c));
  }

  /** Owning more objects keeps the opened columns opened. */
  lemma {:induction false} ColumnsOpenedGrow(columns: seq<Column>, images: seq<ColumnImage>, writable: bool,
                                             owned: set<object>, more: set<object>)
    requires ColumnsOpened(columns, images, writable, owned) && owned <= more
    ensures ColumnsOpened(columns, images, writable, more)
  {
    if columns != [] {
      ColumnsOpenedGrow(columns[..|columns| - 1], images[..|images| - 1], writable, owned, more);
    }
  }

  /** The opened columns one by one: each owned and showing its image. */
  lemma {:induction false} ColumnsOpenedEach(columns: seq<Column>, images: seq<ColumnImage>, writable: bool, owned: set<object>)
    requires ColumnsOpened(columns, images, writable, owned)
    ensures |columns| == |images|
    ensures forall j :: 0 <= j < |columns| ==> Parts(columns[j]) <= owned && Opened(columns[j], images[j], writable)
  {
    if columns != [] {
      var n := |columns| - 1;
      ColumnsOpenedEach(columns[..n], images[..n], writable, owned);
      assert forall j :: 0 <= j < n ==> columns[j] == columns[..n][j] && images[j] == images[..n][j];
    }
  }

  /** The opened columns and their stores are all owned. */
  lemma FootprintWithin(columns: seq<Column>, images: seq<ColumnImage>, writable: bool, owned: set<object>)
    requires ColumnsOpened(columns, images, writable, owned)
    ensures Footprint(columns) <= owned
  {
    ColumnsOpenedEach(columns, images, writable, owned);
  }

  /** A table is not one of its columns' objects. */
  lemma NotAColumnPart(t: object, columns: seq<Column>)
    requires t is Table
    ensures t !in Footprint(columns)
  {
  }

  /** No two columns share an object. */
  predicate Separate(columns: seq<Column>) {
    forall j, k :: 0 <= j < k < |columns| ==> Apart(columns[j], columns[k])
  }

  /** A column made of objects outside those of the opened columns keeps the list separate. */
  lemma SeparateSnoc(columns: seq<Column>, images: seq<ColumnImage>, writable: bool, owned: set<object>, c: Column)
    requires Separate(columns) && ColumnsOpened(columns, images, writable, owned)
    requires Parts(c) !! owned
    ensures Separate(columns + [c])
  {
    ColumnsOpenedEach(columns, images, writable, owned);
  }

  lemma NamesIndexed(columns: seq<Column>)
    ensures forall i :: 0 <= i < |columns| ==> NamesOf(columns)[i] == columns[i].name
  {
  }

  /** Putting the next column's name with its index gives the map of the longer list. */
  lemma IndexMapSnoc(columns: seq<Column>, c: Column)
    ensures IndexMap(NamesOf(columns))[c.name := |columns|] == IndexMap(NamesOf(columns + [c]))
  {
    NamesSnoc(columns, c);
    assert NamesOf(columns + [c])[..|columns|] == NamesOf(columns);
  }

  /** What setSize and complete can change about a column: its row count and its stores. */
  datatype ColumnState = ColumnState(
    ctype: ColumnType, nullable: bool, size: nat,
    dataMapped: bool, data: seq<byte>, nulls: seq<byte>,
    arenaMapped: bool, arena: seq<byte>, arenaPos: nat)

  /** A column's current state. */
  ghost function StateOf(c: Column): (st: ColumnState)
    reads c, c.data, c.nulls, c.varData
    requires c.Valid()
    ensures st.arenaPos <= |st.arena|
  {
    ColumnState(c.ctype, c.isNullable, c.size, c.data.isOpen, c.data.View(), c.nulls.View(),
                c.varData.isOpen, c.varData.View(), c.varData.pos)
  }

  /** reserve on a column's state: `n` rows, `n` slots of data and, when nullable, `n` null flags. */
  function Reserved(st: ColumnState, n: nat): ColumnState {
    st.(size := n, data := Resized(st.data, n * Width(st.ctype)),
        nulls := if st.nullable then Resized(st.nulls, n) else st.nulls)
  }

  /** complete on a column's state: a BYTES or STRING arena cut at its cursor. */
  function Completed(st: ColumnState): ColumnState {
    if IsVarLength(st.ctype) then st.(arena := Resized(st.arena, st.arenaPos)) else st
  }

  /** reserve succeeds on a column whose data store is mapped. */
  predicate CanReserve(st: ColumnState) {
    st.dataMapped
  }

  /** complete succeeds unless a BYTES or STRING column's arena is not mapped. */
  predicate CanComplete(st: ColumnState) {
    !IsVarLength(st.ctype) || st.arenaMapped
  }

  /** The index of the first state `ok` rejects, or the number of states when it accepts them all. */
  function FirstFailing<T>(states: seq<T>, ok: T -> bool): (k: nat)
    ensures k <= |states|
  {
    if states == [] then 0
    else if !ok(states[0]) then 0
    else 1 + FirstFailing(states[1..], ok)
  }

  /** FirstFailing is the first rejected index: everything before it is accepted. */
  lemma {:induction false} FirstFailingCorrect<T>(states: seq<T>, ok: T -> bool)
    ensures forall i :: 0 <= i < FirstFailing(states, ok) ==> ok(states[i])
    ensures FirstFailing(states, ok) < |states| ==> !ok(states[FirstFailing(states, ok)])
    ensures FirstFailing(states, ok) == |states| <==> forall i :: 0 <= i < |states| ==> ok(states[i])
  {
    if states != [] && ok(states[0]) {
      FirstFailingCorrect(states[1..], ok);
      assert forall i :: 1 <= i < |states| ==> states[i] == states[1..][i - 1];
    }
  }

  /** Scanning on from an index no later than FirstFailing: a rejected state there is the first. */
  lemma FirstFailingStep<T>(states: seq<T>, ok: T -> bool, i: nat)
    requires i < |states| && i <= FirstFailing(states, ok)
    ensures if ok(states[i]) then i + 1 <= FirstFailing(states, ok) else FirstFailing(states, ok) == i
  {
    FirstFailingCorrect(states, ok);
  }

  /**
   * A reserved column has exactly `n` rows' worth of storage; the rows it had keep
   * their bytes and new rows read as zeros.
   */
  lemma ReservedShape(st: ColumnState, n: nat)
    ensures Reserved(st, n).size == n && |Reserved(st, n).data| == n * Width(st.ctype)
    ensures st.nullable ==> |Reserved(st, n).nulls| == n
    ensures forall i :: 0 <= i < n * Width(st.ctype) ==>
      Reserved(st, n).data[i] == if i < |st.data| then st.data[i] else 0
    ensures Reserved(st, n).arena == st.arena && Reserved(st, n).arenaPos == st.arenaPos
  {
  }

  /** Reserving the same row count twice is reserving it once. */
  lemma ReservedIdempotent(st: ColumnState, n: nat)
    ensures Reserved(Reserved(st, n), n) == Reserved(st, n)
  {
    ResizedTwice(st.data, n * Width(st.ctype));
    ResizedTwice(st.nulls, n);
  }

  lemma ResizedTwice(s: seq<byte>, n: nat)
    ensures Resized(Resized(s, n), n) == Resized(s, n)
  {
    assert Resized(Resized(s, n), n) == Resized(s, n)[..n];
  }

  /**
   * A completed BYTES or STRING arena holds exactly the bytes before its cursor,
   * other columns are left alone, and completing twice is completing once.
   */
  lemma CompletedShape(st: ColumnState)
    requires st.arenaPos <= |st.arena|
    ensures IsVarLength(st.ctype) ==> Completed(st).arena == st.arena[..st.arenaPos] && |Completed(st).arena| == st.arenaPos
    ensures !IsVarLength(st.ctype) ==> Completed(st) == st
    ensures Completed(Completed(st)) == Completed(st)
  {
    if IsVarLength(st.ctype) {
      ResizedTwice(st.arena, st.arenaPos);
    }
  }

  /** The states after reserving the first `k` columns to `n` rows. */
  function ReservedUpTo(states: seq<ColumnState>, k: nat, n: nat): (r: seq<ColumnState>)
    ensures |r| == |states|
  {
    seq(|states|, j requires 0 <= j < |states| => if j < k then Reserved(states[j], n) else states[j])
  }

  /** The states after completing the first `k` columns. */
  function CompletedUpTo(states: seq<ColumnState>, k: nat): (r: seq<ColumnState>)
    ensures |r| == |states|
  {
    seq(|states|, j requires 0 <= j < |states| => if j < k then Completed(states[j]) else states[j])
  }

  lemma CompletedUpToStep(states: seq<ColumnState>, k: nat)
    requires k < |states|
    ensures CompletedUpTo(states, k)[k := Completed(states[k])] == CompletedUpTo(states, k + 1)
  {
  }

  lemma ReservedUpToStep(states: seq<ColumnState>, k: nat, n: nat)
    requires k < |states|
    ensures ReservedUpTo(states, k, n)[k := Reserved(states[k], n)] == ReservedUpTo(states, k + 1, n)
  {
  }

  /**
   * setSize's effect on the columns, given their states before: when every data
   * store is mapped, every column has `n` rows of storage and setting the same size
   * again changes nothing more; otherwise the columns before the first unmapped one
   * are reserved and it and those after it are untouched.
   */
  lemma SetSizeEffect(states: seq<ColumnState>, n: nat)
    ensures var k := FirstFailing(states, CanReserve); var after := ReservedUpTo(states, k, n);
      && (k == |states| ==> forall j :: 0 <= j < |states| ==>
            after[j].size == n && |after[j].data| == n * Width(states[j].ctype)
            && (states[j].nullable ==> |after[j].nulls| == n))
      && (k == |states| ==> FirstFailing(after, CanReserve) == |states| && ReservedUpTo(after, |states|, n) == after)
      && (k < |states| ==> !states[k].dataMapped && after[k..] == states[k..])
      && (forall j :: 0 <= j < k ==> states[j].dataMapped && after[j] == Reserved(states[j], n))
  {
    var k := FirstFailing(states, CanReserve);
    FirstFailingCorrect(states, CanReserve);
    if k == |states| {
      AllReserved(states, n);
    } else {
      ReservedUpToTail(states, k, n);
    }
  }

  /** Reserving every column: each has `n` rows of storage, and reserving them again changes nothing. */
  lemma AllReserved(states: seq<ColumnState>, n: nat)
    requires forall j :: 0 <= j < |states| ==> CanReserve(states[j])
    ensures var after := ReservedUpTo(states, |states|, n);
      && (forall j :: 0 <= j < |states| ==>
            after[j].size == n && |after[j].data| == n * Width(states[j].ctype)
            && (states[j].nullable ==> |after[j].nulls| == n))
      && FirstFailing(after, CanReserve) == |states| && ReservedUpTo(after, |states|, n) == after
  {
    var after := ReservedUpTo(states, |states|, n);
    forall j | 0 <= j < |states|
      ensures after[j].size == n && |after[j].data| == n * Width(states[j].ctype)
      ensures states[j].nullable ==> |after[j].nulls| == n
      ensures CanReserve(after[j]) && Reserved(after[j], n) == after[j]
    {
      ReservedShape(states[j], n);
      ReservedIdempotent(states[j], n);
    }
    FirstFailingCorrect(after, CanReserve);
  }

  /** The columns from `k` on are not reserved. */
  lemma ReservedUpToTail(states: seq<ColumnState>, k: nat, n: nat)
    requires k <= |states|
    ensures ReservedUpTo(states, k, n)[k..] == states[k..]
  {
    var after := ReservedUpTo(states, k, n);
    assert forall j :: 0 <= j < |states| - k ==> after[k..][j] == after[k + j];
  }

  /**
   * complete's effect on the columns, given their states before: when every
   * BYTES or STRING arena is mapped, each such arena is cut to its cursor, the
   * other columns are untouched and completing again changes nothing more;
   * otherwise the columns from the first unmapped arena on are untouched.
   */
  lemma CompleteEffect(states: seq<ColumnState>)
    requires forall j :: 0 <= j < |states| ==> states[j].arenaPos <= |states[j].arena|
    ensures var k := FirstFailing(states, CanComplete); var after := CompletedUpTo(states, k);
      && (k == |states| ==> forall j :: 0 <= j < |states| ==>
            if IsVarLength(states[j].ctype) then after[j].arena == states[j].arena[..states[j].arenaPos]
            else after[j] == states[j])
      && (k == |states| ==> FirstFailing(after, CanComplete) == |states| && CompletedUpTo(after, |states|) == after)
      && (k < |states| ==> IsVarLength(states[k].ctype) && !states[k].arenaMapped && after[k..] == states[k..])
  {
    var k := FirstFailing(states, CanComplete);
    FirstFailingCorrect(states, CanComplete);
    if k == |states| {
      AllCompleted(states);
    } else {
      CompletedUpToTail(states, k);
    }
  }

  /** Completing every column: each arena is cut to its cursor, and completing them again changes nothing. */
  lemma AllCompleted(states: seq<ColumnState>)
    requires forall j :: 0 <= j < |states| ==> states[j].arenaPos <= |states[j].arena| && CanComplete(states[j])
    ensures var after := CompletedUpTo(states, |states|);
      && (forall j :: 0 <= j < |states| ==>
            if IsVarLength(states[j].ctype) then after[j].arena == states[j].arena[..states[j].arenaPos]
            else after[j] == states[j])
      && FirstFailing(after, CanComplete) == |states| && CompletedUpTo(after, |states|) == after
  {
    var after := CompletedUpTo(states, |states|);
    forall j | 0 <= j < |states|
      ensures CanComplete(after[j]) && Completed(after[j]) == after[j]
      ensures IsVarLength(states[j].ctype) ==> after[j].arena == states[j].arena[..states[j].arenaPos]
      ensures !IsVarLength(states[j].ctype) ==> after[j] == states[j]
    {
      CompletedShape(states[j]);
    }
    FirstFailingCorrect(after, CanComplete);
  }

  /** The columns from `k` on are not completed. */
  lemma CompletedUpToTail(states: seq<ColumnState>, k: nat)
    requires k <= |states|
    ensures CompletedUpTo(states, k)[k..] == states[k..]
  {
    var after := CompletedUpTo(states, k);
    assert forall j :: 0 <= j < |states| - k ==> after[k..][j] == after[k + j];
  }

  function ColumnSet(columns: seq<Column>): set<Column> {
    set i | 0 <= i < |columns| :: columns[i]
  }

  function DataStores(columns: seq<Column>): set<MappedStore> {
    set i | 0 <= i < |columns| :: columns[i].data
  }

  function NullStores(columns: seq<Column>): set<MappedStore> {
    set i | 0 <= i < |columns| :: columns[i].nulls
  }

  function ArenaStores(columns: seq<Column>): set<MappedStore> {
    set i | 0 <= i < |columns| :: columns[i].varData
  }

  class Table {
    const name: Text
    /** An output table: its columns' stores are mapped writable. */
    const writable: bool
    const columns: seq<Column>
    /** Each column name with the index of the last column that has it. */
    const columnMap: map<Text, nat>
    /** The row count (a Java long, never negative here). */
    var size: nat
    /** The columns and their stores. */
    ghost const Repr: set<object>

    ghost predicate Valid()
      reads Repr
    {
      && Shaped()
      && forall i :: 0 <= i < |columns| ==> columns[i].Valid() && columns[i].writable == writable
    }

    /** What the constructor fixes for good: columns apart from each other and the name map built from them. */
    ghost predicate Shaped() {
      Separate(columns) && columnMap == IndexMap(NamesOf(columns)) && Repr == Footprint(columns) && this !in Repr
    }

    /** A table over the columns its constructor opened, showing their images. */
    constructor (name: Text, writable: bool, columns: seq<Column>, columnMap: map<Text, nat>, size: nat,
                 ghost images: seq<ColumnImage>, ghost owned: set<object>)
      requires ColumnsOpened(columns, images, writable, owned) && Separate(columns)
      requires columnMap == IndexMap(NamesOf(columns))
      ensures this.name == name && this.writable == writable && this.columns == columns && this.size == size
      ensures Valid() && Repr <= owned && Image().columns == images
    {
      this.name := name;
      this.writable := writable;
      this.columns := columns;
      this.columnMap := columnMap;
      this.size := size;
      this.Repr := Footprint(columns);
      new;
      NotAColumnPart(this, columns);
      FootprintWithin(columns, images, writable, owned);
      ColumnsOpenedEach(columns, images, writable, owned);
    }

    /** The control-file description of this table and of each of its columns. */
    ghost function Image(): TableImage
      reads Repr
      requires Valid()
    {
      TableImage(name, seq(|columns|, i requires 0 <= i < |columns| && columns[i].Valid() reads Repr => columns[i].Image()))
    }

    /** The state of each column, in order. */
    ghost function States(): (r: seq<ColumnState>)
      reads Repr
      requires Valid()
      ensures |r| == |columns|
    {
      seq(|columns|, i requires 0 <= i < |columns| && columns[i].Valid() reads Repr => StateOf(columns[i]))
    }

    /**
     * setSize: a negative size is rejected; otherwise each column is reserved to `n`
     * rows in turn, stopping at the first whose data store is not mapped, and the
     * table takes the new size only when every column was reserved.
     */
    method SetSize(n: int) returns (o: Outcome)
      requires Valid() && writable
      modifies this`size, ColumnSet(columns)`size, DataStores(columns), NullStores(columns)
      ensures Valid()
      ensures o == if n < 0 then Fail(InvalidSize)
                   else if FirstFailing(old(States()), CanReserve) == |columns| then Pass
                   else Fail(FileNotMapped)
      ensures size == if o.Pass? then n else old(size)
      ensures States() == if n < 0 then old(States())
                          else ReservedUpTo(old(States()), FirstFailing(old(States()), CanReserve), n)
    {
      if n < 0 {
        return Fail(InvalidSize);
      }
      o := ReserveAll(n);
      if o.Pass? {
        label reserved:
        size := n;
        SizeOnly@reserved();
      }
    }

    /** Changing only the row count keeps the columns as they were. */
    twostate lemma SizeOnly()
      requires old(Valid()) && unchanged(Repr)
      ensures Valid() && States() == old(States())
    {
    }

    /** setSize's loop: reserves the columns in order until one fails. */
    method ReserveAll(n: nat) returns (o: Outcome)
      requires Valid() && writable
      modifies ColumnSet(columns)`size, DataStores(columns), NullStores(columns)
      ensures Valid()
      ensures o == if FirstFailing(old(States()), CanReserve) == |columns| then Pass else Fail(FileNotMapped)
      ensures States() == ReservedUpTo(old(States()), FirstFailing(old(States()), CanReserve), n)
    {
      ghost var before := States();
      var i := 0;
      while i < |columns|
        invariant 0 <= i <= |columns|
        invariant Valid()
        invariant i <= FirstFailing(before, CanReserve)
        invariant States() == ReservedUpTo(before, i, n)
      {
        o := ReserveNext(i, n, before);
        if o.Fail? {
          return;
        }
        i := i + 1;
      }
      o := Pass;
    }

    /** One turn of reserve's loop: column `i` is reserved, or the loop stops at it, the first unmapped one. */
    method ReserveNext(i: nat, n: nat, ghost before: seq<ColumnState>) returns (o: Outcome)
      requires Valid() && writable && i < |columns| == |before|
      requires i <= FirstFailing(before, CanReserve) && States() == ReservedUpTo(before, i, n)
      modifies ColumnSet(columns)`size, DataStores(columns), NullStores(columns)
      ensures Valid()
      ensures o.Pass? ==> i + 1 <= FirstFailing(before, CanReserve) && States() == ReservedUpTo(before, i + 1, n)
      ensures o.Fail? ==> o == Fail(FileNotMapped) && FirstFailing(before, CanReserve) == i && States() == ReservedUpTo(before, i, n)
    {
      o := ReserveColumn(i, n);
      FirstFailingStep(before, CanReserve, i);
      if o.Pass? {
        ReservedUpToStep(before, i, n);
      }
    }

    /** reserve on column `i`, leaving every other column as it was. */
    method ReserveColumn(i: nat, n: nat) returns (o: Outcome)
      requires Valid() && writable && i < |columns|
      modifies ColumnSet(columns)`size, DataStores(columns), NullStores(columns)
      ensures Valid()
      ensures o == if CanReserve(old(States())[i]) then Pass else Fail(FileNotMapped)
      ensures States() == if o.Pass? then old(States())[i := Reserved(old(States())[i], n)] else old(States())
    {
      var c := columns[i];
      label before:
      o := c.Reserve(n);
      OneColumnChanged@before(i);
    }

    /** When only column `i`'s objects changed and it is still valid, only its state changed. */
    twostate lemma OneColumnChanged(i: nat)
      requires old(Valid()) && i < |columns| && columns[i].Valid() && columns[i].writable == writable
      requires forall o :: o in Repr && o !in Parts(columns[i]) ==> unchanged(o)
      ensures Valid() && States() == old(States())[i := StateOf(columns[i])]
    {
      OtherColumnsKept(i);
    }

    /** The columns other than `i` own none of column `i`'s objects, so they are as they were. */
    twostate lemma OtherColumnsKept(i: nat)
      requires old(Valid()) && i < |columns|
      requires forall o :: o in Repr && o !in Parts(columns[i]) ==> unchanged(o)
      ensures forall j :: 0 <= j < |columns| && j != i ==>
        columns[j].Valid() && columns[j].writable == writable && StateOf(columns[j]) == old(States())[j]
    {
      ghost var before := old(States());
      forall j | 0 <= j < |columns| && j != i
        ensures columns[j].Valid() && columns[j].writable == writable && StateOf(columns[j]) == before[j]
      {
        if j < i { assert Apart(columns[j], columns[i]); } else { assert Apart(columns[i], columns[j]); }
        assert Parts(columns[j]) <= Repr;
        assert unchanged(columns[j], columns[j].data, columns[j].nulls, columns[j].varData);
      }
    }

    /**
     * complete on an output table: each column is completed in turn, stopping at
     * the first BYTES or STRING column whose arena is not mapped.
     */
    method Complete() returns (o: Outcome)
      requires Valid() && writable
      modifies ArenaStores(columns)
      ensures Valid()
      ensures o == if FirstFailing(old(States()), CanComplete) == |columns| then Pass else Fail(FileNotMapped)
      ensures States() == CompletedUpTo(old(States()), FirstFailing(old(States()), CanComplete))
    {
      ghost var before := States();
      var i := 0;
      while i < |columns|
        invariant 0 <= i <= |columns|
        invariant Valid()
        invariant i <= FirstFailing(before, CanComplete)
        invariant States() == CompletedUpTo(before, i)
      {
        o := CompleteNext(i, before);
        if o.Fail? {
          return;
        }
        i := i + 1;
      }
      o := Pass;
    }

    /** One turn of complete's loop: column `i` is completed, or the loop stops at it, the first unmapped arena. */
    method CompleteNext(i: nat, ghost before: seq<ColumnState>) returns (o: Outcome)
      requires Valid() && writable && i < |columns| == |before|
      requires i <= FirstFailing(before, CanComplete) && States() == CompletedUpTo(before, i)
      modifies ArenaStores(columns)
      ensures Valid()
      ensures o.Pass? ==> i + 1 <= FirstFailing(before, CanComplete) && States() == CompletedUpTo(before, i + 1)
      ensures o.Fail? ==> o == Fail(FileNotMapped) && FirstFailing(before, CanComplete) == i && States() == CompletedUpTo(before, i)
    {
      o := CompleteColumn(i);
      FirstFailingStep(before, CanComplete, i);
      if o.Pass? {
        CompletedUpToStep(before, i);
      }
    }

    /** complete on column `i`, leaving every other column as it was. */
    method CompleteColumn(i: nat) returns (o: Outcome)
      requires Valid() && writable && i < |columns|
      modifies ArenaStores(columns)
      ensures Valid()
      ensures o == if CanComplete(old(States())[i]) then Pass else Fail(FileNotMapped)
      ensures States() == if o.Pass? then old(States())[i := Completed(old(States())[i])] else old(States())
    {
      var c := columns[i];
      ghost var st := StateOf(c);
      label before:
      o := c.Complete();
      OneColumnChanged@before(i);
      if o.Pass? && IsVarLength(c.ctype) {
        CompletedShape(st);
      }
    }

    /**
     * getColumnIndex: the index the name map holds for `name`, which is the last
     * column of that name, or -1 when no column has it.
     */
    function GetColumnIndex(name: Text): (r: int)
      requires Shaped()
      ensures r == -1 <==> forall i :: 0 <= i < |columns| ==> columns[i].name != name
      ensures r != -1 ==> 0 <= r < |columns| && columns[r].name == name
      ensures r != -1 ==> forall j :: r < j < |columns| ==> columns[j].name != name
    {
      NamesIndexed(columns);
      IndexOfName(NamesOf(columns), name);
      IndexOrMissing(columnMap, name)
    }

    /** getColumn by name: the column getColumnIndex finds, or nothing. */
    function GetColumn(name: Text): (r: Option<Column>)
      requires Shaped()
      ensures r.None? <==> forall i :: 0 <= i < |columns| ==> columns[i].name != name
      ensures r.Some? ==> r.value.name == name && r.value == columns[GetColumnIndex(name)]
    {
      var index := GetColumnIndex(name);
      if index == -1 then None else Some(columns[index])
    }

    /**
     * The table constructor: reads the name and the column count at the control
     * file's cursor (a count outside [0, Integer.MAX_VALUE] is rejected), then the
     * columns.
     */
    static method Open(file: MappedStore, files: map<Text, seq<byte>>, writable: bool,
                       ghost step: nat -> Result<(ColumnImage, nat)>) returns (r: Result<Table>)
      requires file.Valid() && !file.writable && Steps(step, file.View(), files, writable)
      modifies file
      ensures file.Valid() && !file.writable && file.isOpen == old(file.isOpen) && file.View() == old(file.View())
      ensures r.Ok? ==> fresh(r.value) && fresh(r.value.Repr) && r.value.Valid() && r.value.writable == writable
      ensures DecodeTable(old(file.View()), old(file.pos), step)
           == if r.Ok? then Ok((r.value.Image(), file.pos)) else Err(r.error)
      ensures r.Ok? ==> r.value.size == MinRows(Rows(r.value.Image().columns))
    {
      var name := ReadString(file);
      if name.Err? {
        r := Err(name.error);
      } else {
        ghost var view, p1 := file.View(), file.pos;
        var count := ReadLongAt(file);
        if count.Err? {
          r := Err(count.error);
        } else if count.value < 0 || count.value > INT_MAX {
          r := Err(InvalidColumnCount);
        } else {
          r := OpenColumnsOf(file, files, writable, step, name.value, count.value);
          TableOf(view, old(file.pos), step, name.value, p1, count.value);
        }
      }
    }

    /** The table constructor after the name and column count: the columns, then the table over them. */
    static method OpenColumnsOf(file: MappedStore, files: map<Text, seq<byte>>, writable: bool,
                                ghost step: nat -> Result<(ColumnImage, nat)>, name: Text, count: nat) returns (r: Result<Table>)
      requires file.Valid() && !file.writable && Steps(step, file.View(), files, writable)
      modifies file
      ensures file.Valid() && !file.writable && file.isOpen == old(file.isOpen) && file.View() == old(file.View())
      ensures r.Ok? ==> fresh(r.value) && fresh(r.value.Repr) && r.value.Valid() && r.value.writable == writable
      ensures r.Ok? ==> r.value.size == MinRows(Rows(r.value.Image().columns)) && r.value.Image().name == name
      ensures Repeat(step, old(file.pos), count) == if r.Ok? then Ok((r.value.Image().columns, file.pos)) else Err(r.error)
    {
      var columns, columnMap, size, images, owned, o := OpenColumns(file, files, writable, step, count);
      if o.Fail? {
        r := Err(o.error);
      } else {
        var table := new Table(name, writable, columns, columnMap, size, images, owned);
        r := Ok(table);
      }
    }
  }

  /**
   * The constructor's loop: opens `count` columns in order, putting each name in
   * the map with its index and keeping the smallest row count.
   */
  method OpenColumns(file: MappedStore, files: map<Text, seq<byte>>, writable: bool, ghost step: nat -> Result<(ColumnImage, nat)>, count: nat)
    returns (columns: seq<Column>, columnMap: map<Text, nat>, size: nat,
             ghost images: seq<ColumnImage>, ghost owned: set<object>, o: Outcome)
    requires file.Valid() && !file.writable && Steps(step, file.View(), files, writable)
    modifies file
    ensures file.Valid() && !file.writable && file.isOpen == old(file.isOpen) && file.View() == old(file.View())
    ensures o.Fail? ==> Repeat(step, old(file.pos), count) == Err(o.error)
    ensures o.Pass? ==> fresh(owned) && |columns| == count
    ensures o.Pass? ==> Progress(step, old(file.pos), file.pos, writable, columns, columnMap, size, images, owned)
  {
    ghost var view, q := file.View(), file.pos;
    columns, columnMap, size, images, owned := [], map[], 0, [], {};
    var i := 0;
    while i < count
      invariant 0 <= i <= count && |columns| == i
      invariant file.Valid() && !file.writable && file.isOpen == old(file.isOpen) && file.View() == view
      invariant fresh(owned) && file !in owned
      invariant Progress(step, q, file.pos, writable, columns, columnMap, size, images, owned)
    {
      var next;
      next, columns, columnMap, size, images, owned := AddColumn(file, files, writable, view, step, q, columns, columnMap, size, images, owned);
      if next.Err? {
        RepeatStops(step, q, i + 1, count);
        return columns, columnMap, size, images, owned, Fail(next.error);
      }
      i := i + 1;
    }
    o := Pass;
  }

  /**
   * The constructor's loop after some columns: they are the columns `step` reads
   * from `q` on, ending at `at`, each opened and apart from the others, with the
   * name map and the running row count built from them.
   */
  ghost predicate Progress(step: nat -> Result<(ColumnImage, nat)>, q: nat, at: nat, writable: bool,
                           columns: seq<Column>, columnMap: map<Text, nat>, size: nat,
                           images: seq<ColumnImage>, owned: set<object>)
    reads owned
  {
    && Repeat(step, q, |columns|) == Ok((images, at))
    && ColumnsOpened(columns, images, writable, owned) && Separate(columns)
    && columnMap == IndexMap(NamesOf(columns)) && size == MinRows(Rows(images))
  }

  /**
   * One turn of the table constructor's loop: opens the next column, appends it to
   * the list, puts its name in the map with its index and lowers the running row
   * count when it has fewer rows.  On a failure nothing is appended.
   */
  method AddColumn(file: MappedStore, files: map<Text, seq<byte>>, writable: bool,
                   ghost view: seq<byte>, ghost step: nat -> Result<(ColumnImage, nat)>, ghost q: nat,
                   columns: seq<Column>, columnMap: map<Text, nat>, size: nat, ghost images: seq<ColumnImage>, ghost owned: set<object>)
    returns (r: Result<Column>, columns': seq<Column>, columnMap': map<Text, nat>, size': nat,
             ghost images': seq<ColumnImage>, ghost owned': set<object>)
    requires file.Valid() && !file.writable && file.View() == view && file !in owned
    requires Steps(step, view, files, writable)
    requires Progress(step, q, file.pos, writable, columns, columnMap, size, images, owned)
    modifies file
    ensures file.Valid() && !file.writable && file.isOpen == old(file.isOpen) && file.View() == view
    ensures r.Err? ==> Repeat(step, q, |columns| + 1) == Err(r.error)
    ensures r.Ok? ==> |columns'| == |columns| + 1 && file !in owned' && fresh(owned' - owned) && owned <= owned'
    ensures r.Ok? ==> Progress(step, q, file.pos, writable, columns', columnMap', size', images', owned')
  {
    columns', columnMap', size', images', owned' := columns, columnMap, size, images, owned;
    r := OpenNextColumn(file, files, writable, view, step, q, |columns|, images);
    if r.Err? {
      return;
    }
    var column := r.value;
    ProgressSnoc(step, q, old(file.pos), file.pos, writable, columns, columnMap, size, images, owned, column);
    columns' := columns + [column];
    owned' := owned + Parts(column);
    images' := images + [column.Image()];
    columnMap' := columnMap[column.name := |columns|];
    if |columns| == 0 || column.size < size {
      size' := column.size;
    }
  }

  /** The loop's progress after one more opened column. */
  lemma ProgressSnoc(step: nat -> Result<(ColumnImage, nat)>, q: nat, at: nat, at': nat, writable: bool,
                     columns: seq<Column>, columnMap: map<Text, nat>, size: nat,
                     images: seq<ColumnImage>, owned: set<object>, c: Column)
    requires c.Valid() && c.writable == writable && c.pos == 0 && c.size == RowCount(c.Image())
    requires Parts(c) !! owned
    requires Progress(step, q, at, writable, columns, columnMap, size, images, owned)
    requires Repeat(step, q, |columns| + 1) == Ok((images + [c.Image()], at'))
    ensures Progress(step, q, at', writable, columns + [c], columnMap[c.name := |columns|],
                     if |columns| == 0 || c.size < size then c.size else size,
                     images + [c.Image()], owned + Parts(c))
  {
    Extend(columns, images, writable, owned, c, c.Image(), columnMap, size);
  }

  /** The constructor's bookkeeping after one more column: the list, the name map and the running row count. */
  lemma Extend(columns: seq<Column>, images: seq<ColumnImage>, writable: bool, owned: set<object>,
               c: Column, image: ColumnImage, columnMap: map<Text, nat>, size: nat)
    requires ColumnsOpened(columns, images, writable, owned) && Separate(columns)
    requires Opened(c, image, writable) && Parts(c) !! owned && c.size == RowCount(image)
    requires columnMap == IndexMap(NamesOf(columns)) && size == MinRows(Rows(images))
    ensures ColumnsOpened(columns + [c], images + [image], writable, owned + Parts(c))
    ensures Separate(columns + [c])
    ensures columnMap[c.name := |columns|] == IndexMap(NamesOf(columns + [c]))
    ensures (if |columns| == 0 || c.size < size then c.size else size) == MinRows(Rows(images + [image]))
  {
    ColumnsOpenedSnoc(columns, images, writable, owned, c, image);
    SeparateSnoc(columns, images, writable, owned, c);
    IndexMapSnoc(columns, c);
    RowsSnoc(images, image);
  }

  /** The running row count after one more column. */
  lemma RowsSnoc(images: seq<ColumnImage>, image: ColumnImage)
    ensures MinRows(Rows(images + [image]))
         == if images == [] || RowCount(image) < MinRows(Rows(images)) then RowCount(image) else MinRows(Rows(images))
  {
    MinRowsSnoc(Rows(images), RowCount(image));
    assert Rows(images + [image]) == Rows(images) + [RowCount(image)];
  }

  /** Column.Open as the next of a table's columns: the decoding of the columns so far grows by one or fails. */
  method OpenNextColumn(file: MappedStore, files: map<Text, seq<byte>>, writable: bool,
                        ghost view: seq<byte>, ghost step: nat -> Result<(ColumnImage, nat)>,
                        ghost q: nat, ghost n: nat, ghost images: seq<ColumnImage>)
    returns (r: Result<Column>)
    requires file.Valid() && !file.writable && file.View() == view && Steps(step, view, files, writable)
    requires Repeat(step, q, n) == Ok((images, file.pos))
    modifies file
    ensures file.Valid() && !file.writable && file.isOpen == old(file.isOpen) && file.View() == view
    ensures r.Ok? ==> fresh(Parts(r.value)) && r.value.Valid() && r.value.writable == writable && r.value.pos == 0
    ensures r.Ok? ==> r.value.size == RowCount(r.value.Image())
    ensures Repeat(step, q, n + 1)
         == if r.Ok? then Ok((images + [r.value.Image()], file.pos)) else Err(r.error)
  {
    ghost var before := file.pos;
    r := Column.Open(file, files, writable);
    if r.Err? {
      ColumnsFail(view, step, q, files, writable, n, images, before, r.error);
    } else {
      ColumnsSnoc(view, step, q, files, writable, n, images, before, r.value.Image(), file.pos);
    }
  }

  /** A column read after `n` columns extends their decoding by one. */
  lemma ColumnsSnoc(view: seq<byte>, step: nat -> Result<(ColumnImage, nat)>, p: nat, files: map<Text, seq<byte>>, writable: bool, n: nat,
                    images: seq<ColumnImage>, q: nat, image: ColumnImage, q2: nat)
    requires Steps(step, view, files, writable) && Repeat(step, p, n) == Ok((images, q))
    requires DecodeColumn(view, q, files, writable) == Ok((image, q2))
    ensures Repeat(step, p, n + 1) == Ok((images + [image], q2))
  {
  }

  /** A column that fails to read after `n` columns fails the decoding of `n + 1`. */
  lemma ColumnsFail(view: seq<byte>, step: nat -> Result<(ColumnImage, nat)>, p: nat, files: map<Text, seq<byte>>, writable: bool, n: nat,
                    images: seq<ColumnImage>, q: nat, e: Error)
    requires Steps(step, view, files, writable) && Repeat(step, p, n) == Ok((images, q))
    requires DecodeColumn(view, q, files, writable) == Err(e)
    ensures Repeat(step, p, n + 1) == Err(e)
  {
  }

  lemma NamesSnoc(columns: seq<Column>, c: Column)
    ensures NamesOf(columns + [c]) == NamesOf(columns) + [c.name]
  {
  }

  /** The constructor's update of the running row count, one column at a time. */
  lemma MinRowsSnoc(rows: seq<nat>, x: nat)
    ensures MinRows(rows + [x]) == if rows == [] || x < MinRows(rows) then x else MinRows(rows)
  {
    assert (rows + [x])[..|rows|] == rows;
  }
}
