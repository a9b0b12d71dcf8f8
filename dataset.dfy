/**
 * A data set: the tables a control file lists, read one after another, with a map
 * from each table name to its index.  The input data set's tables are mapped
 * read-only, the output data set's writable; completing an output data set
 * completes its tables in order.
 */
module DataSets {
  import opened Wrappers
  import opened Bytes
  import opened Store
  import opened Codec
  import opened Columns
  import opened Tables

  /** One table read at a given position, its columns read by `step`. */
  function TableStep(view: seq<byte>, step: nat -> Result<(ColumnImage, nat)>): nat -> Result<(TableImage, nat)> {
    q => DecodeTable(view, q, step)
  }

  /** `tstep` reads one table at any position, as DecodeTable does; used only where a table is decoded. */
  ghost predicate TableSteps(tstep: nat -> Result<(TableImage, nat)>, view: seq<byte>, step: nat -> Result<(ColumnImage, nat)>) {
    forall q: nat {:trigger DecodeTable(view, q, step)} :: tstep(q) == DecodeTable(view, q, step)
  }

  lemma TableStepSteps(view: seq<byte>, step: nat -> Result<(ColumnImage, nat)>)
    ensures TableSteps(TableStep(view, step), view, step)
  {
  }

  /**
   * The data set constructor's reads: the table count (rejected outside
   * [0, Integer.MAX_VALUE]), then the tables, each read by `tstep`.
   */
  function DecodeDataSet(view: seq<byte>, p: nat, tstep: nat -> Result<(TableImage, nat)>): Result<(seq<TableImage>, nat)> {
    var count :- LongAt(view, p);
    if count < 0 || count > INT_MAX then Err(InvalidTableCount)
    else Repeat(tstep, p + 8, count)
  }

  /** A table and everything it owns. */
  ghost function TableParts(t: Table): set<object> {
    {t} + t.Repr
  }

  /** Two tables share no object. */
  ghost predicate TableApart(a: Table, b: Table) {
    TableParts(a) !! TableParts(b)
  }

  /** No two tables share an object. */
  ghost predicate TablesSeparate(tables: seq<Table>) {
    forall j, k :: 0 <= j < k < |tables| ==> TableApart(tables[j], tables[k])
  }

  /** The tables and everything they own. */
  ghost function TablesFootprint(tables: seq<Table>): set<object> {
    (set i | 0 <= i < |tables| :: tables[i] as object) + (set i, o | 0 <= i < |tables| && o in tables[i].Repr :: o)
  }

  /** The names of the tables, in order. */
  function TableNames(tables: seq<Table>): (r: seq<Text>)
    ensures |r| == |tables|
  {
    seq(|tables|, i requires 0 <= i < |tables| => tables[i].name)
  }

  lemma TableNamesIndexed(tables: seq<Table>)
    ensures forall i :: 0 <= i < |tables| ==> TableNames(tables)[i] == tables[i].name
  {
  }

  /** Putting the next table's name with its index gives the map of the longer list. */
  lemma TableMapSnoc(tables: seq<Table>, t: Table)
    ensures IndexMap(TableNames(tables))[t.name := |tables|] == IndexMap(TableNames(tables + [t]))
  {
    assert TableNames(tables + [t]) == TableNames(tables) + [t.name];
    assert (TableNames(tables) + [t.name])[..|tables|] == TableNames(tables);
  }

  /** A table as the data set constructor leaves it: valid, of the data set's kind, showing `image`, sized to its shortest column. */
  ghost predicate TableOpened(t: Table, image: TableImage, writable: bool)
    reads t, t.Repr
  {
    t.Valid() && t.writable == writable && t.Image() == image && t.size == MinRows(Rows(image.columns))
  }

  /** The tables opened so far, all showing their images and all made of objects in `owned`. */
  ghost predicate TablesOpened(tables: seq<Table>, images: seq<TableImage>, writable: bool, owned: set<object>)
    reads owned
  {
    && |tables| == |images|
    && (tables != [] ==>
      var t := tables[|tables| - 1];
      && TableParts(t) <= owned
      && TableOpened(t, images[|images| - 1], writable)
      && TablesOpened(tables[..|tables| - 1], images[..|images| - 1], writable, owned))
  }

  lemma TablesOpenedSnoc(tables: seq<Table>, images: seq<TableImage>, writable: bool, owned: set<object>,
                         t: Table, image: TableImage)
    requires TablesOpened(tables, images, writable, owned) && TableOpened(t, image, writable)
    ensures TablesOpened(tables + [t], images + [image], writable, owned + TableParts(t))
  {
    assert (tables + [t])[..|tables|] == tables && (images + [image])[..|images|] == images;
    TablesOpenedGrow(tables, images, writable, owned, owned + TableParts(t));
  }

  /** Owning more objects keeps the opened tables opened. */
  lemma {:induction false} TablesOpenedGrow(tables: seq<Table>, images: seq<TableImage>, writable: bool,
                                            owned: set<object>, more: set<object>)
    requires TablesOpened(tables, images, writable, owned) && owned <= more
    ensures TablesOpened(tables, images, writable, more)
  {
    if tables != [] {
      TablesOpenedGrow(tables[..|tables| - 1], images[..|images| - 1], writable, owned, more);
    }
  }

  /** The opened tables one by one: each owned and showing its image. */
  lemma {:induction false} TablesOpenedEach(tables: seq<Table>, images: seq<TableImage>, writable: bool, owned: set<object>)
    requires TablesOpened(tables, images, writable, owned)
    ensures |tables| == |images|
    ensures forall j :: 0 <= j < |tables| ==> TableParts(tables[j]) <= owned && TableOpened(tables[j], images[j], writable)
  {
    if tables != [] {
      var n := |tables| - 1;
      TablesOpenedEach(tables[..n], images[..n], writable, owned);
      assert forall j :: 0 <= j < n ==> tables[j] == tables[..n][j] && images[j] == images[..n][j];
    }
  }

  /** The opened tables and everything they own are all owned. */
  lemma TablesFootprintWithin(tables: seq<Table>, images: seq<TableImage>, writable: bool, owned: set<object>)
    requires TablesOpened(tables, images, writable, owned)
    ensures TablesFootprint(tables) <= owned
  {
    TablesOpenedEach(tables, images, writable, owned);
  }

  /** A table made of objects outside those of the opened tables keeps the list separate. */
  lemma TablesSeparateSnoc(tables: seq<Table>, images: seq<TableImage>, writable: bool, owned: set<object>, t: Table)
    requires TablesSeparate(tables) && TablesOpened(tables, images, writable, owned)
    requires TableParts(t) !! owned
    ensures TablesSeparate(tables + [t])
  {
    TablesOpenedEach(tables, images, writable, owned);
  }

  /** The column states after an output table's complete, successful or not. */
  function CompletedAll(states: seq<ColumnState>): seq<ColumnState> {
    CompletedUpTo(states, FirstFailing(states, CanComplete))
  }

  /** An output table's complete succeeds: no BYTES or STRING column lacks its arena. */
  predicate AllComplete(states: seq<ColumnState>) {
    FirstFailing(states, CanComplete) == |states|
  }

  /** The tables' column states after completing the first `k` tables. */
  function TablesCompletedUpTo(tstates: seq<seq<ColumnState>>, k: nat): (r: seq<seq<ColumnState>>)
    ensures |r| == |tstates|
  {
    seq(|tstates|, j requires 0 <= j < |tstates| => if j < k then CompletedAll(tstates[j]) else tstates[j])
  }

  lemma TablesCompletedUpToStep(tstates: seq<seq<ColumnState>>, k: nat)
    requires k < |tstates|
    ensures TablesCompletedUpTo(tstates, k)[k := CompletedAll(tstates[k])] == TablesCompletedUpTo(tstates, k + 1)
  {
  }

  /** The tables' column states after an output data set's complete, successful or not. */
  function CompletedTables(tstates: seq<seq<ColumnState>>): seq<seq<ColumnState>> {
    var k := FirstFailing(tstates, AllComplete);
    TablesCompletedUpTo(tstates, if k == |tstates| then k else k + 1)
  }

  /** Where complete stops decides how many tables it completed. */
  lemma CompletedTablesAt(tstates: seq<seq<ColumnState>>, i: nat)
    requires i <= |tstates| && FirstFailing(tstates, AllComplete) == i
    ensures CompletedTables(tstates) == TablesCompletedUpTo(tstates, if i == |tstates| then i else i + 1)
  {
  }

  /**
   * An output data set's complete, given its tables' column states before: when it
   * succeeds every table was completed in full; when it fails, the tables before
   * the failing one were completed in full, that one up to its first column
   * without an arena, and the later ones were left alone.
   */
  lemma DataSetCompleteEffect(tstates: seq<seq<ColumnState>>)
    ensures var k := FirstFailing(tstates, AllComplete); var after := CompletedTables(tstates);
      && (forall j :: 0 <= j < |tstates| && j < k ==> AllComplete(tstates[j]) && after[j] == CompletedAll(tstates[j]))
      && (k < |tstates| ==> !AllComplete(tstates[k]) && after[k] == CompletedAll(tstates[k]) && after[k + 1..] == tstates[k + 1..])
  {
    var k := FirstFailing(tstates, AllComplete);
    var after := CompletedTables(tstates);
    FirstFailingCorrect(tstates, AllComplete);
    if k < |tstates| {
      assert after[k + 1..] == tstates[k + 1..] by {
        forall j | k + 1 <= j < |tstates|
          ensures after[j] == tstates[j]
        {
        }
      }
    }
  }

  /** The arena stores of every column of every table. */
  function ArenaStoresOf(tables: seq<Table>): set<MappedStore> {
    set j, i | 0 <= j < |tables| && 0 <= i < |tables[j].columns| :: tables[j].columns[i].varData
  }

  lemma ArenaStoresWithin(tables: seq<Table>, j: nat)
    requires j < |tables|
    ensures ArenaStores(tables[j].columns) <= ArenaStoresOf(tables)
  {
  }

  /** A table's complete touches only objects the table owns. */
  lemma ArenasOwned(t: Table)
    requires t.Shaped()
    ensures ArenaStores(t.columns) <= t.Repr
  {
  }

  class DataSet {
    /** An output data set: its tables' stores are mapped writable. */
    const writable: bool
    const tables: seq<Table>
    /** Each table name with the index of the last table that has it. */
    const tableMap: map<Text, nat>
    /** The tables and everything they own. */
    ghost const Repr: set<object>

    ghost predicate Valid()
      reads Repr
    {
      && Shaped()
      && forall i :: 0 <= i < |tables| ==> tables[i].Valid() && tables[i].writable == writable
    }

    /** What the constructor fixes for good: tables apart from each other and the name map built from them. */
    ghost predicate Shaped() {
      TablesSeparate(tables) && tableMap == IndexMap(TableNames(tables)) && Repr == TablesFootprint(tables) && this !in Repr
    }

    /** A data set over the tables its constructor opened, showing their images. */
    constructor (writable: bool, tables: seq<Table>, tableMap: map<Text, nat>,
                 ghost images: seq<TableImage>, ghost owned: set<object>)
      requires TablesOpened(tables, images, writable, owned) && TablesSeparate(tables)
      requires tableMap == IndexMap(TableNames(tables))
      ensures this.writable == writable && this.tables == tables && this.tableMap == tableMap
      ensures Valid() && Repr <= owned && Images() == images
    {
      this.writable := writable;
      this.tables := tables;
      this.tableMap := tableMap;
      this.Repr := TablesFootprint(tables);
      new;
      TablesFootprintWithin(tables, images, writable, owned);
      assert this !in owned;
      TablesOpenedEach(tables, images, writable, owned);
    }

    /** The control-file description of each table. */
    ghost function Images(): (r: seq<TableImage>)
      reads Repr
      requires Valid()
      ensures |r| == |tables|
    {
      seq(|tables|, i requires 0 <= i < |tables| && tables[i].Valid() reads Repr => tables[i].Image())
    }

    /** The column states of each table, in order. */
    ghost function States(): (r: seq<seq<ColumnState>>)
      reads Repr
      requires Valid()
      ensures |r| == |tables|
    {
      seq(|tables|, i requires 0 <= i < |tables| && tables[i].Valid() reads Repr => tables[i].States())
    }

    /**
     * complete on an output data set: each table is completed in turn, stopping at
     * the first table whose complete fails.
     */
    method Complete() returns (o: Outcome)
      requires Valid() && writable
      modifies ArenaStoresOf(tables)
      ensures Valid()
      ensures o == if FirstFailing(old(States()), AllComplete) == |tables| then Pass else Fail(FileNotMapped)
      ensures States() == CompletedTables(old(States()))
    {
      ghost var before := States();
      var i := 0;
      while i < |tables|
        invariant 0 <= i <= |tables|
        invariant Valid()
        invariant i <= FirstFailing(before, AllComplete)
        invariant States() == TablesCompletedUpTo(before, i)
      {
        o := CompleteNext(i, before);
        if o.Fail? {
          CompletedTablesAt(before, i);
          return;
        }
        i := i + 1;
      }
      CompletedTablesAt(before, i);
      o := Pass;
    }

    /** One turn of complete's loop: table `i` is completed, and the loop either goes on or stops at the first failing table. */
    method CompleteNext(i: nat, ghost before: seq<seq<ColumnState>>) returns (o: Outcome)
      requires Valid() && writable && i < |tables| == |before|
      requires i <= FirstFailing(before, AllComplete) && States() == TablesCompletedUpTo(before, i)
      modifies ArenaStoresOf(tables)
      ensures Valid() && States() == TablesCompletedUpTo(before, i + 1)
      ensures o.Pass? ==> i + 1 <= FirstFailing(before, AllComplete)
      ensures o.Fail? ==> o == Fail(FileNotMapped) && FirstFailing(before, AllComplete) == i
    {
      o := CompleteTable(i);
      FirstFailingStep(before, AllComplete, i);
      TablesCompletedUpToStep(before, i);
    }

    /** complete on table `i`, leaving every other table as it was. */
    method CompleteTable(i: nat) returns (o: Outcome)
      requires Valid() && writable && i < |tables|
      modifies ArenaStoresOf(tables)
      ensures Valid()
      ensures o == if AllComplete(old(States())[i]) then Pass else Fail(FileNotMapped)
      ensures States() == old(States())[i := CompletedAll(old(States())[i])]
    {
      var t := tables[i];
      ArenaStoresWithin(tables, i);
      ArenasOwned(t);
      label before:
      o := t.Complete();
      OneTableChanged@before(i);
    }

    /** When only table `i`'s objects changed and it is still valid, only its states changed. */
    twostate lemma OneTableChanged(i: nat)
      requires old(Valid()) && i < |tables| && tables[i].Valid() && tables[i].writable == writable
      requires forall o :: o in Repr && o !in tables[i].Repr ==> unchanged(o)
      ensures Valid() && States() == old(States())[i := tables[i].States()]
    {
      OtherTablesKept(i);
    }

    /** The tables other than `i` own none of table `i`'s objects, so they are as they were. */
    twostate lemma OtherTablesKept(i: nat)
      requires old(Valid()) && i < |tables|
      requires forall o :: o in Repr && o !in tables[i].Repr ==> unchanged(o)
      ensures forall j :: 0 <= j < |tables| && j != i ==>
        tables[j].Valid() && tables[j].writable == writable && tables[j].States() == old(States())[j]
    {
      ghost var before := old(States());
      forall j | 0 <= j < |tables| && j != i
        ensures tables[j].Valid() && tables[j].writable == writable && tables[j].States() == before[j]
      {
        if j < i { assert TableApart(tables[j], tables[i]); } else { assert TableApart(tables[i], tables[j]); }
        assert tables[j].Repr <= Repr;
        assert unchanged(tables[j].Repr);
      }
    }

    /** A data set none of whose objects changed is still valid, with the same images and states. */
    twostate lemma Kept()
      requires old(Valid()) && unchanged(Repr)
      ensures Valid() && Images() == old(Images()) && States() == old(States())
    {
    }

    /**
     * getTableIndex: the index the name map holds for `name`, which is the last
     * table of that name, or -1 when no table has it.
     */
    function GetTableIndex(name: Text): (r: int)
      requires Shaped()
      ensures r == -1 <==> forall i :: 0 <= i < |tables| ==> tables[i].name != name
      ensures r != -1 ==> 0 <= r < |tables| && tables[r].name == name
      ensures r != -1 ==> forall j :: r < j < |tables| ==> tables[j].name != name
    {
      TableNamesIndexed(tables);
      IndexOfName(TableNames(tables), name);
      IndexOrMissing(tableMap, name)
    }

    /** getTable by name: the table getTableIndex finds, or nothing. */
    function GetTable(name: Text): (r: Option<Table>)
      requires Shaped()
      ensures r.None? <==> forall i :: 0 <= i < |tables| ==> tables[i].name != name
      ensures r.Some? ==> r.value.name == name && r.value == tables[GetTableIndex(name)]
    {
      var index := GetTableIndex(name);
      if index == -1 then None else Some(tables[index])
    }

    /**
     * The data set constructor: reads the table count at the control file's cursor
     * (a count outside [0, Integer.MAX_VALUE] is rejected), then the tables.
     */
    static method Open(file: MappedStore, files: map<Text, seq<byte>>, writable: bool,
                       ghost step: nat -> Result<(ColumnImage, nat)>, ghost tstep: nat -> Result<(TableImage, nat)>)
      returns (r: Result<DataSet>)
      requires file.Valid() && !file.writable
      requires Steps(step, file.View(), files, writable) && TableSteps(tstep, file.View(), step)
      modifies file
      ensures file.Valid() && !file.writable && file.isOpen == old(file.isOpen) && file.View() == old(file.View())
      ensures r.Ok? ==> fresh(r.value) && fresh(r.value.Repr) && r.value.Valid() && r.value.writable == writable
      ensures DecodeDataSet(old(file.View()), old(file.pos), tstep)
           == if r.Ok? then Ok((r.value.Images(), file.pos)) else Err(r.error)
    {
      var count :- ReadLongAt(file);
      if count < 0 || count > INT_MAX {
        return Err(InvalidTableCount);
      }
      var tables, tableMap, images, owned, o := OpenTables(file, files, writable, step, tstep, count);
      if o.Fail? {
        return Err(o.error);
      }
      var dataSet := new DataSet(writable, tables, tableMap, images, owned);
      r := Ok(dataSet);
    }
  }

  /**
   * The data set constructor's loop after some tables: they are the tables `tstep`
   * reads from `q` on, ending at `at`, each opened and apart from the others, with
   * the name map built from them.
   */
  ghost predicate TablesProgress(tstep: nat -> Result<(TableImage, nat)>, q: nat, at: nat, writable: bool,
                                 tables: seq<Table>, tableMap: map<Text, nat>,
                                 images: seq<TableImage>, owned: set<object>)
    reads owned
  {
    && Repeat(tstep, q, |tables|) == Ok((images, at))
    && TablesOpened(tables, images, writable, owned) && TablesSeparate(tables)
    && tableMap == IndexMap(TableNames(tables))
  }

  /** The data set constructor's loop: opens `count` tables in order, putting each name in the map with its index. */
  method OpenTables(file: MappedStore, files: map<Text, seq<byte>>, writable: bool,
                    ghost step: nat -> Result<(ColumnImage, nat)>, ghost tstep: nat -> Result<(TableImage, nat)>, count: nat)
    returns (tables: seq<Table>, tableMap: map<Text, nat>, ghost images: seq<TableImage>, ghost owned: set<object>, o: Outcome)
    requires file.Valid() && !file.writable
    requires Steps(step, file.View(), files, writable) && TableSteps(tstep, file.View(), step)
    modifies file
    ensures file.Valid() && !file.writable && file.isOpen == old(file.isOpen) && file.View() == old(file.View())
    ensures o.Fail? ==> Repeat(tstep, old(file.pos), count) == Err(o.error)
    ensures o.Pass? ==> fresh(owned) && |tables| == count
    ensures o.Pass? ==> TablesProgress(tstep, old(file.pos), file.pos, writable, tables, tableMap, images, owned)
  {
    ghost var view, q := file.View(), file.pos;
    tables, tableMap, images, owned := [], map[], [], {};
    var i := 0;
    while i < count
      invariant 0 <= i <= count && |tables| == i
      invariant file.Valid() && !file.writable && file.isOpen == old(file.isOpen) && file.View() == view
      invariant fresh(owned) && file !in owned
      invariant TablesProgress(tstep, q, file.pos, writable, tables, tableMap, images, owned)
    {
      var next;
      next, tables, tableMap, images, owned := AddTable(file, files, writable, view, step, tstep, q, tables, tableMap, images, owned);
      if next.Err? {
        RepeatStops(tstep, q, i + 1, count);
        return tables, tableMap, images, owned, Fail(next.error);
      }
      i := i + 1;
    }
    o := Pass;
  }

  /** One turn of the data set constructor's loop: open the next table and record it. */
  method AddTable(file: MappedStore, files: map<Text, seq<byte>>, writable: bool, ghost view: seq<byte>,
                  ghost step: nat -> Result<(ColumnImage, nat)>, ghost tstep: nat -> Result<(TableImage, nat)>, ghost q: nat,
                  tables: seq<Table>, tableMap: map<Text, nat>, ghost images: seq<TableImage>, ghost owned: set<object>)
    returns (r: Result<Table>, tables': seq<Table>, tableMap': map<Text, nat>,
             ghost images': seq<TableImage>, ghost owned': set<object>)
    requires file.Valid() && !file.writable && file.View() == view && file !in owned
    requires Steps(step, view, files, writable) && TableSteps(tstep, view, step)
    requires TablesProgress(tstep, q, file.pos, writable, tables, tableMap, images, owned)
    modifies file
    ensures file.Valid() && !file.writable && file.isOpen == old(file.isOpen) && file.View() == view
    ensures r.Err? ==> Repeat(tstep, q, |tables| + 1) == Err(r.error)
    ensures r.Ok? ==> |tables'| == |tables| + 1 && file !in owned' && fresh(owned' - owned) && owned <= owned'
    ensures r.Ok? ==> TablesProgress(tstep, q, file.pos, writable, tables', tableMap', images', owned')
  {
    tables', tableMap', images', owned' := tables, tableMap, images, owned;
    ghost var at := file.pos;
    r := OpenNextTable(file, files, writable, view, step, tstep, q, |tables|, images, owned);
    if r.Ok? {
      var table := r.value;
      assert TablesProgress(tstep, q, at, writable, tables, tableMap, images, owned);
      TablesProgressSnoc(tstep, q, at, file.pos, writable, tables, tableMap, images, owned, table);
      tables' := tables + [table];
      owned' := owned + TableParts(table);
      images' := images + [table.Image()];
      tableMap' := tableMap[table.name := |tables|];
    }
  }

  /** The loop's progress after one more opened table. */
  lemma TablesProgressSnoc(tstep: nat -> Result<(TableImage, nat)>, q: nat, at: nat, at': nat, writable: bool,
                           tables: seq<Table>, tableMap: map<Text, nat>,
                           images: seq<TableImage>, owned: set<object>, t: Table)
    requires t.Valid() && TableOpened(t, t.Image(), writable) && TableParts(t) !! owned
    requires TablesProgress(tstep, q, at, writable, tables, tableMap, images, owned)
    requires Repeat(tstep, q, |tables| + 1) == Ok((images + [t.Image()], at'))
    ensures TablesProgress(tstep, q, at', writable, tables + [t], tableMap[t.name := |tables|],
                           images + [t.Image()], owned + TableParts(t))
  {
    TablesOpenedSnoc(tables, images, writable, owned, t, t.Image());
    TablesSeparateSnoc(tables, images, writable, owned, t);
    TableMapSnoc(tables, t);
  }

  /** The table constructor as the next of a data set's tables: the decoding of the tables so far grows by one or fails. */
  method OpenNextTable(file: MappedStore, files: map<Text, seq<byte>>, writable: bool, ghost view: seq<byte>,
                       ghost step: nat -> Result<(ColumnImage, nat)>, ghost tstep: nat -> Result<(TableImage, nat)>,
                       ghost q: nat, ghost n: nat, ghost images: seq<TableImage>, ghost owned: set<object>)
    returns (r: Result<Table>)
    requires file.Valid() && !file.writable && file.View() == view
    requires Steps(step, view, files, writable) && TableSteps(tstep, view, step)
    requires Repeat(tstep, q, n) == Ok((images, file.pos))
    modifies file
    ensures file.Valid() && !file.writable && file.isOpen == old(file.isOpen) && file.View() == view
    ensures r.Ok? ==> fresh(r.value) && fresh(r.value.Repr) && r.value.Valid() && TableOpened(r.value, r.value.Image(), writable)
    ensures r.Ok? ==> TableParts(r.value) !! owned
    ensures Repeat(tstep, q, n + 1)
         == if r.Ok? then Ok((images + [r.value.Image()], file.pos)) else Err(r.error)
  {
    ghost var before := file.pos;
    r := Table.Open(file, files, writable, step);
    if r.Err? {
      TablesFail(view, step, tstep, q, n, images, before, r.error);
    } else {
      TablesSnoc(view, step, tstep, q, n, images, before, r.value.Image(), file.pos);
    }
  }

  /** A table read after `n` tables extends their decoding by one. */
  lemma TablesSnoc(view: seq<byte>, step: nat -> Result<(ColumnImage, nat)>, tstep: nat -> Result<(TableImage, nat)>,
                   p: nat, n: nat, images: seq<TableImage>, q: nat, image: TableImage, q2: nat)
    requires TableSteps(tstep, view, step) && Repeat(tstep, p, n) == Ok((images, q))
    requires DecodeTable(view, q, step) == Ok((image, q2))
    ensures Repeat(tstep, p, n + 1) == Ok((images + [image], q2))
  {
  }

  /** A table that fails to read after `n` tables fails the decoding of `n + 1`. */
  lemma TablesFail(view: seq<byte>, step: nat -> Result<(ColumnImage, nat)>, tstep: nat -> Result<(TableImage, nat)>,
                   p: nat, n: nat, images: seq<TableImage>, q: nat, e: Error)
    requires TableSteps(tstep, view, step) && Repeat(tstep, p, n) == Ok((images, q))
    requires DecodeTable(view, q, step) == Err(e)
    ensures Repeat(tstep, p, n + 1) == Err(e)
  {
  }
}
