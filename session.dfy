/**
 * The proc's view of one execution (ProcData): the control file the host database
 * hands over, read in a fixed order into the request information, the parameters,
 * the input and output data sets, the name of the control file to answer in and,
 * in version 2, a status file; and the answer written back when the proc completes.
 */
module Session {
  import opened Wrappers
  import opened Bytes
  import opened Store
  import opened Codec
  import opened Columns
  import opened Tables
  import opened DataSets

  /**
   * Mapping a file by path for the session (the whole file, size hint -1): an
   * existing file maps its contents, a missing one is created empty when writable;
   * an empty path or a missing read-only file fails to open.
   */
  function MapPath(files: map<Text, seq<byte>>, path: Text, writable: bool): (r: Result<seq<byte>>)
    ensures r.Err? <==> path == [] || (path !in files && !writable)
    ensures r.Err? ==> r.error == OpenFailed
    ensures r.Ok? && path in files ==> r.value == files[path]
    ensures r.Ok? && path !in files ==> r.value == []
  {
    if path != [] && path in files then Ok(files[path])
    else if path != [] && writable then Ok([])
    else Err(OpenFailed)
  }

  /** The fixed part at the head of a control file. */
  datatype Header = Header(version: int64, requestInfo: map<Text, Text>, params: map<Text, Text>, binParams: map<Text, Text>)

  /** Everything the session constructor reads, with the status file's contents when there is one. */
  datatype ControlImage = ControlImage(header: Header, input: seq<TableImage>, output: seq<TableImage>,
                             outputControlFileName: Text, status: Option<seq<byte>>)

  /**
   * The head of a control file: the version (1 or 2), the request information as
   * two string maps read into one (the second's entries win), the parameters and
   * the binary parameters.
   */
  function DecodeHeader(view: seq<byte>): (r: Result<(Header, nat)>)
    ensures r.Ok? ==> r.value.0.version == 1 || r.value.0.version == 2
  {
    var version :- LongAt(view, 0);
    if version != 1 && version != 2 then Err(UnsupportedVersion)
    else
      var (info, p1) :- GetStringMap(view, 8, map[]);
      var (info', p2) :- GetStringMap(view, p1, info);
      var (params, p3) :- GetStringMap(view, p2, map[]);
      var (binParams, p4) :- GetBinaryMapAsWritten(view, p3, map[]);
      Ok((Header(version, info', params, binParams), p4))
  }

  /**
   * The tail of a control file: the output control file name and, in version 2,
   * the name of a status file, which is mapped writable.
   */
  function DecodeTrailer(view: seq<byte>, p: nat, files: map<Text, seq<byte>>, version: int64): Result<(Text, Option<seq<byte>>)>
  {
    var (outName, p1) :- GetString(view, p);
    if version == 2 then
      var (statusName, _) :- GetString(view, p1);
      var status :- MapPath(files, statusName, true);
      Ok((outName, Some(status)))
    else
      Ok((outName, None))
  }

  /**
   * The two data sets after the head: the input data set, its column stores mapped
   * read-only, then the output data set, its column stores mapped writable.
   */
  function DecodeDataSets(view: seq<byte>, p: nat, files: map<Text, seq<byte>>): Result<(seq<TableImage>, seq<TableImage>, nat)> {
    var (input, p1) :- DecodeDataSet(view, p, TableStep(view, ColumnStep(view, files, false)));
    var (output, p2) :- DecodeDataSet(view, p1, TableStep(view, ColumnStep(view, files, true)));
    Ok((input, output, p2))
  }

  /** The data sets read at any position, as DecodeDataSets does. */
  function DataSetsStep(view: seq<byte>, files: map<Text, seq<byte>>): nat -> Result<(seq<TableImage>, seq<TableImage>, nat)> {
    p => DecodeDataSets(view, p, files)
  }

  /** `sets` reads the data sets at any position, as DecodeDataSets does; used only where they are decoded. */
  ghost predicate DataSetsSteps(sets: nat -> Result<(seq<TableImage>, seq<TableImage>, nat)>, view: seq<byte>, files: map<Text, seq<byte>>) {
    forall p: nat {:trigger DecodeDataSets(view, p, files)} :: sets(p) == DecodeDataSets(view, p, files)
  }

  lemma DataSetsStepSteps(view: seq<byte>, files: map<Text, seq<byte>>)
    ensures DataSetsSteps(DataSetsStep(view, files), view, files)
  {
  }

  /** A whole control file: the head, then the rest of it. */
  function DecodeControl(view: seq<byte>, files: map<Text, seq<byte>>,
                         sets: nat -> Result<(seq<TableImage>, seq<TableImage>, nat)>): Result<ControlImage> {
    var (header, p4) :- DecodeHeader(view);
    DecodeBody(view, p4, files, sets, header)
  }

  /** What follows the head at `p`: the data sets (read by `sets`), then the tail. */
  function DecodeBody(view: seq<byte>, p: nat, files: map<Text, seq<byte>>,
                      sets: nat -> Result<(seq<TableImage>, seq<TableImage>, nat)>, header: Header): Result<ControlImage> {
    var (input, output, p6) :- sets(p);
    DecodeTail(view, p6, files, header, input, output)
  }

  /** The tail at `p`, completing the control image of the head and the data sets read before it. */
  function DecodeTail(view: seq<byte>, p: nat, files: map<Text, seq<byte>>,
                      header: Header, input: seq<TableImage>, output: seq<TableImage>): Result<ControlImage> {
    var (outName, status) :- DecodeTrailer(view, p, files, header.version);
    Ok(ControlImage(header, input, output, outName, status))
  }

  /**
   * The session constructor from the configured control-file path: none configured
   * fails; otherwise the file is mapped read-only and decoded.
   */
  function OpenSession(controlFileName: Option<Text>, files: map<Text, seq<byte>>): Result<ControlImage> {
    if controlFileName.None? then Err(MissingControlFile)
    else
      var view :- MapPath(files, controlFileName.value, false);
      DecodeControl(view, files, DataSetsStep(view, files))
  }

  /**
   * The answer in an output control file: the version, the results and the binary
   * results, read as the head's maps are, with a length before every binary value.
   */
  function DecodeResponse(view: seq<byte>): Result<(int64, map<Text, Text>, map<Text, Text>)> {
    var version :- LongAt(view, 0);
    var (results, p) :- GetStringMap(view, 8, map[]);
    var (binResults, _) :- GetBinaryMap(view, p, map[]);
    Ok((version, results, binResults))
  }

  /** The head read field by field composes into the decoded head. */
  lemma HeaderOf(view: seq<byte>, version: int64, info1: map<Text, Text>, p1: nat, info: map<Text, Text>, p2: nat,
                 params: map<Text, Text>, p3: nat, binParams: map<Text, Text>, p4: nat)
    requires LongAt(view, 0) == Ok(version) && (version == 1 || version == 2)
    requires GetStringMap(view, 8, map[]) == Ok((info1, p1)) && GetStringMap(view, p1, info1) == Ok((info, p2))
    requires GetStringMap(view, p2, map[]) == Ok((params, p3)) && GetBinaryMapAsWritten(view, p3, map[]) == Ok((binParams, p4))
    ensures DecodeHeader(view) == Ok((Header(version, info, params, binParams), p4))
  {
  }

  /** Five encodings laid out one after the other, the first eight bytes long, each at its own offset. */
  lemma WithinFive(view: seq<byte>, e0: seq<byte>, e1: seq<byte>, e2: seq<byte>, e3: seq<byte>, e4: seq<byte>)
    returns (p1: nat, p2: nat, p3: nat, p4: nat)
    requires |e0| == 8 && Within(view, 0, e0 + e1 + e2 + e3 + e4)
    ensures Within(view, 0, e0) && Within(view, 8, e1)
    ensures p1 == 8 + |e1| && Within(view, p1, e2) && p2 == p1 + |e2| && Within(view, p2, e3)
    ensures p3 == p2 + |e3| && Within(view, p3, e4) && p4 == p3 + |e4|
  {
    WithinSplit(view, 0, e0 + e1 + e2 + e3, e4);
    WithinSplit(view, 0, e0 + e1 + e2, e3);
    WithinSplit(view, 0, e0 + e1, e2);
    WithinSplit(view, 0, e0, e1);
    p1, p2, p3, p4 := 8 + |e1|, 8 + |e1| + |e2|, 8 + |e1| + |e2| + |e3|, 8 + |e1| + |e2| + |e3| + |e4|;
  }

  lemma OkPair(r: Result<(map<Text, Text>, nat)>, m: map<Text, Text>, q: nat)
    requires r.Ok? && r.value.0 == m && r.value.1 == q
    ensures r == Ok((m, q))
  {
  }

  /** Three encodings laid out one after the other, the first eight bytes long, each at its own offset. */
  lemma WithinThree(view: seq<byte>, e0: seq<byte>, e1: seq<byte>, e2: seq<byte>) returns (p1: nat, p2: nat)
    requires |e0| == 8 && Within(view, 0, e0 + e1 + e2)
    ensures Within(view, 0, e0) && Within(view, 8, e1)
    ensures p1 == 8 + |e1| && Within(view, p1, e2) && p2 == p1 + |e2|
  {
    WithinSplit(view, 0, e0 + e1, e2);
    WithinSplit(view, 0, e0, e1);
    p1, p2 := 8 + |e1|, 8 + |e1| + |e2|;
  }

  /** A string map found at `p` is read back, merged into `acc`, ending at the returned offset. */
  lemma StringMapField(view: seq<byte>, p: nat, m: map<Text, Text>, order: seq<Text>, acc: map<Text, Text>, q: nat)
    requires |m| <= INT_MAX && Enumerates(order, m) && Within(view, p, EncodeStringMap(m, order))
    requires q == p + |EncodeStringMap(m, order)|
    ensures GetStringMap(view, p, acc) == Ok((acc + m, q))
  {
    GetStringMapPlaced(view, p, m, order, acc);
    OkPair(GetStringMap(view, p, acc), acc + m, q);
  }

  /** A binary map laid out with its value lengths at `p` is read back, merged into `acc`, by either reader. */
  lemma BinaryMapField(view: seq<byte>, p: nat, m: map<Text, Text>, order: seq<Text>, acc: map<Text, Text>, q: nat)
    requires |m| <= INT_MAX && Enumerates(order, m) && Within(view, p, EncodeStringMap(m, order))
    requires q == p + |EncodeStringMap(m, order)|
    ensures GetBinaryMap(view, p, acc) == Ok((acc + m, q))
    ensures GetBinaryMapAsWritten(view, p, acc) == Ok((acc + m, q))
  {
    GetBinaryMapPlaced(view, p, m, order, acc);
    OkPair(GetBinaryMap(view, p, acc), acc + m, q);
    BinaryMapReadersAgree(view, p, acc);
  }

  /** A control-file head laid out field by field is read back: the version, both request maps merged, the parameters. */
  lemma HeaderRoundTrip(view: seq<byte>, version: int64, info1: map<Text, Text>, o1: seq<Text>, info2: map<Text, Text>, o2: seq<Text>,
                        params: map<Text, Text>, o3: seq<Text>, binParams: map<Text, Text>, o4: seq<Text>)
    requires version == 1 || version == 2
    requires |info1| <= INT_MAX && |info2| <= INT_MAX && |params| <= INT_MAX && |binParams| <= INT_MAX
    requires Enumerates(o1, info1) && Enumerates(o2, info2) && Enumerates(o3, params) && Enumerates(o4, binParams)
    requires Within(view, 0, EncodeLong(version) + EncodeStringMap(info1, o1) + EncodeStringMap(info2, o2)
                             + EncodeStringMap(params, o3) + EncodeStringMap(binParams, o4))
    ensures DecodeHeader(view).Ok?
    ensures DecodeHeader(view).value.0 == Header(version, info1 + info2, params, binParams)
  {
    var p1, p2, p3, p4 := WithinFive(view, EncodeLong(version), EncodeStringMap(info1, o1), EncodeStringMap(info2, o2),
                                     EncodeStringMap(params, o3), EncodeStringMap(binParams, o4));
    LongPlaced(view, 0, version);
    StringMapField(view, 8, info1, o1, map[], p1);
    StringMapField(view, p1, info2, o2, map[] + info1, p2);
    StringMapField(view, p2, params, o3, map[], p3);
    BinaryMapField(view, p3, binParams, o4, map[], p4);
    HeaderOf(view, version, map[] + info1, p1, map[] + info1 + info2, p2, map[] + params, p3, map[] + binParams, p4);
    EmptyMerge(info1);
    EmptyMerge(params);
    EmptyMerge(binParams);
  }

  /** The answer read field by field composes into the decoded answer. */
  lemma ResponseOf(view: seq<byte>, version: int64, results: map<Text, Text>, p1: nat, binResults: map<Text, Text>, p2: nat)
    requires LongAt(view, 0) == Ok(version)
    requires GetStringMap(view, 8, map[]) == Ok((results, p1)) && GetBinaryMap(view, p1, map[]) == Ok((binResults, p2))
    ensures DecodeResponse(view) == Ok((version, results, binResults))
  {
  }

  /**
   * The bytes complete writes to the output control file when the maps are visited in
   * `o1` and `o2`: version 1, the results, then the binary results as writeBinaryMap
   * emits them, with no length before a value.
   */
  function ResponseBytes(results: map<Text, Text>, o1: seq<Text>, binResults: map<Text, Text>, o2: seq<Text>): seq<byte>
    requires |results| <= INT_MAX && |binResults| <= INT_MAX
    requires (forall i :: 0 <= i < |o1| ==> o1[i] in results) && (forall i :: 0 <= i < |o2| ==> o2[i] in binResults)
  {
    EncodeLong(1) + EncodeStringMap(results, o1) + EncodeBinaryMapAsWritten(binResults, o2)
  }

  /** The corrected answer: each binary value written with its length, as a string. */
  function ResponseBytesWithLengths(results: map<Text, Text>, o1: seq<Text>, binResults: map<Text, Text>, o2: seq<Text>): seq<byte>
    requires |results| <= INT_MAX && |binResults| <= INT_MAX
    requires (forall i :: 0 <= i < |o1| ==> o1[i] in results) && (forall i :: 0 <= i < |o2| ==> o2[i] in binResults)
  {
    EncodeLong(1) + EncodeStringMap(results, o1) + EncodeStringMap(binResults, o2)
  }

  /** The corrected answer is read back as version 1 with the results and binary results. */
  lemma ResponseRoundTrip(view: seq<byte>, results: map<Text, Text>, o1: seq<Text>, binResults: map<Text, Text>, o2: seq<Text>)
    requires |results| <= INT_MAX && |binResults| <= INT_MAX && Enumerates(o1, results) && Enumerates(o2, binResults)
    requires Within(view, 0, ResponseBytesWithLengths(results, o1, binResults, o2))
    ensures DecodeResponse(view) == Ok((1, results, binResults))
  {
    var p1, p2 := WithinThree(view, EncodeLong(1), EncodeStringMap(results, o1), EncodeStringMap(binResults, o2));
    LongPlaced(view, 0, 1);
    StringMapField(view, 8, results, o1, map[], p1);
    BinaryMapField(view, p1, binResults, o2, map[], p2);
    ResponseOf(view, 1, map[] + results, p1, map[] + binResults, p2);
    EmptyMerge(results);
    EmptyMerge(binResults);
  }

  /** With no binary results the answer as written is the corrected one, and is read back. */
  lemma ResponseNoBinaryRoundTrip(view: seq<byte>, results: map<Text, Text>, o1: seq<Text>, binResults: map<Text, Text>, o2: seq<Text>)
    requires |results| <= INT_MAX && Enumerates(o1, results) && binResults == map[] && Enumerates(o2, binResults)
    requires Within(view, 0, ResponseBytes(results, o1, binResults, o2))
    ensures DecodeResponse(view) == Ok((1, results, binResults))
  {
    EnumerationSize(o2, binResults);
    assert EncodeBinaryMapAsWritten(binResults, o2) == EncodeStringMap(binResults, o2);
    ResponseRoundTrip(view, results, o1, binResults, o2);
  }

  /**
   * The answer as written is not read back once a binary value is there: with one binary
   * result whose first eight bytes, taken as a length, exceed Integer.MAX_VALUE (as
   * [0, 0, 0, 0, 1, 0, 0, 0] does), the reader rejects that length.
   */
  lemma ResponseAsWrittenNotInverse(view: seq<byte>, results: map<Text, Text>, o1: seq<Text>, k: Text, v: Text)
    requires |results| <= INT_MAX && Enumerates(o1, results)
    requires |v| >= 8 && DecodeLong(v[..8]) > INT_MAX
    requires Within(view, 0, ResponseBytes(results, o1, map[k := v], [k]))
    ensures DecodeResponse(view) == Err(InvalidValueLength)
  {
    var m := map[k := v];
    var rest := EncodeString(k) + v;
    assert EncodeBinaryMapAsWritten(m, [k]) == EncodeLong(1) + rest by {
      assert Listing([k], m) == [(k, v)];
      assert EncodeBinaryEntriesAsWritten([(k, v)]) == EncodeString(k) + v + EncodeBinaryEntriesAsWritten([]);
    }
    var p1, p2 := WithinThree(view, EncodeLong(1), EncodeStringMap(results, o1), EncodeLong(1) + rest);
    StringMapField(view, 8, results, o1, map[], p1);
    BinaryValueAt(view, p1, k, v);
  }

  /** A count of 1, a key and a value whose first eight bytes are too long a length: the reader rejects it. */
  lemma BinaryValueAt(view: seq<byte>, p: nat, k: Text, v: Text)
    requires |v| >= 8 && DecodeLong(v[..8]) > INT_MAX
    requires Within(view, p, EncodeLong(1) + (EncodeString(k) + v))
    ensures GetBinaryMap(view, p, map[]) == Err(InvalidValueLength)
  {
    WithinSplit(view, p, EncodeLong(1), EncodeString(k) + v);
    LongPlaced(view, p, 1);
    EntryRejected(view, p + 8, k, v);
  }

  /** A key followed by a value whose first eight bytes are too long a length is rejected as one entry. */
  lemma EntryRejected(view: seq<byte>, p: nat, k: Text, v: Text)
    requires |v| >= 8 && DecodeLong(v[..8]) > INT_MAX
    requires Within(view, p, EncodeString(k) + v)
    ensures GetBinaryEntries(view, p, 1, map[]) == Err(InvalidValueLength)
  {
    WithinSplit(view, p, EncodeString(k), v);
    GetStringPlaced(view, p, k);
    var q := p + 8 + |k|;
    LengthRejected(view, q, v);
    assert GetBinaryEntry(view, p) == Err(InvalidValueLength);
  }

  /** A value whose first eight bytes, taken as a length, exceed Integer.MAX_VALUE is rejected. */
  lemma LengthRejected(view: seq<byte>, q: nat, v: seq<byte>)
    requires |v| >= 8 && DecodeLong(v[..8]) > INT_MAX && Within(view, q, v)
    ensures GetBinaryValue(view, q) == Err(InvalidValueLength)
  {
    WithinSplit(view, q, v[..8], v[8..]);
    assert v[..8] + v[8..] == v;
    assert LongAt(view, q) == Ok(DecodeLong(v[..8]));
  }

  lemma EmptyMerge(m: map<Text, Text>)
    ensures map[] + m == m
  {
  }

  /** Reads the head of the control file at its cursor, which the freshly mapped file has at 0. */
  method ReadHeader(file: MappedStore) returns (r: Result<Header>)
    requires file.Valid() && !file.writable && file.pos == 0
    modifies file
    ensures file.Valid() && !file.writable && file.isOpen == old(file.isOpen) && file.View() == old(file.View())
    ensures DecodeHeader(file.View()) == if r.Ok? then Ok((r.value, file.pos)) else Err(r.error)
  {
    var version :- ReadLongAt(file);
    if version != 1 && version != 2 {
      return Err(UnsupportedVersion);
    }
    var info :- ReadStringMap(file, map[]);
    info :- ReadStringMap(file, info);
    var params :- ReadStringMap(file, map[]);
    var binParams :- ReadBinaryMap(file, map[]);
    r := Ok(Header(version, info, params, binParams));
  }

  /**
   * Writes the answer at the cursor of a freshly mapped output control file: version 1,
   * the results with writeStringMap, the binary results with writeBinaryMap.  The maps'
   * iteration orders are returned.
   */
  method WriteResponse(s: MappedStore, results: map<Text, Text>, binResults: map<Text, Text>)
    returns (ghost o1: seq<Text>, ghost o2: seq<Text>)
    requires s.Valid() && s.writable && s.pos == 0 && |results| <= INT_MAX && |binResults| <= INT_MAX
    modifies s
    ensures s.Valid() && s.writable
    ensures Enumerates(o1, results) && Enumerates(o2, binResults)
    ensures Within(s.View(), 0, ResponseBytes(results, o1, binResults, o2))
    ensures binResults == map[] ==> DecodeResponse(s.View()) == Ok((1, results, binResults))
  {
    ghost var c0 := s.Cur();
    s.WriteLong(1);
    PlacedPut(c0, EncodeLong(1));
    ghost var c1 := s.Cur();
    o1 := WriteStringMap(s, results);
    ghost var c2 := s.Cur();
    o2 := WriteBinaryMap(s, binResults);
    PlacedThree(c0, c1, c2, s.Cur(), EncodeLong(1), EncodeStringMap(results, o1), EncodeBinaryMapAsWritten(binResults, o2));
    if binResults == map[] {
      ResponseNoBinaryRoundTrip(s.View(), results, o1, binResults, o2);
    }
  }

  /** The objects of an optional status file. */
  function StatusParts(statusFile: Option<MappedStore>): set<object> {
    if statusFile.Some? then {statusFile.value} else {}
  }

  /** The contents of an optional status file. */
  ghost function StatusView(statusFile: Option<MappedStore>): Option<seq<byte>>
    reads if statusFile.Some? then {statusFile.value} else {}
    requires statusFile.Some? ==> statusFile.value.Valid()
  {
    if statusFile.Some? then Some(statusFile.value.View()) else None
  }

  /** With the data sets read, the rest of the control file is its tail. */
  lemma BodyOf(view: seq<byte>, p: nat, files: map<Text, seq<byte>>, sets: nat -> Result<(seq<TableImage>, seq<TableImage>, nat)>,
               header: Header, input: seq<TableImage>, output: seq<TableImage>, p6: nat)
    requires sets(p) == Ok((input, output, p6))
    ensures DecodeBody(view, p, files, sets, header) == DecodeTail(view, p6, files, header, input, output)
  {
  }

  /** The rest of a control file whose data sets fail to decode fails with that error. */
  lemma BodyStopsAtDataSets(view: seq<byte>, p: nat, files: map<Text, seq<byte>>,
                            sets: nat -> Result<(seq<TableImage>, seq<TableImage>, nat)>, header: Header, e: Error)
    requires sets(p) == Err(e)
    ensures DecodeBody(view, p, files, sets, header) == Err(e)
  {
  }

  /** A tail read as decoded completes the control image. */
  lemma TailOf(view: seq<byte>, p: nat, files: map<Text, seq<byte>>, header: Header,
               input: seq<TableImage>, output: seq<TableImage>, outName: Text, status: Option<seq<byte>>)
    requires DecodeTrailer(view, p, files, header.version) == Ok((outName, status))
    ensures DecodeTail(view, p, files, header, input, output) == Ok(ControlImage(header, input, output, outName, status))
  {
  }

  /** Reads the input and then the output data set at the control file's cursor. */
  method ReadDataSets(file: MappedStore, files: map<Text, seq<byte>>, ghost sets: nat -> Result<(seq<TableImage>, seq<TableImage>, nat)>)
    returns (r: Result<(DataSet, DataSet)>)
    requires file.Valid() && !file.writable && DataSetsSteps(sets, file.View(), files)
    modifies file
    ensures file.Valid() && !file.writable && file.isOpen == old(file.isOpen) && file.View() == old(file.View())
    ensures r.Ok? ==> fresh(r.value.0.Repr) && fresh(r.value.1.Repr) && r.value.0.Repr !! r.value.1.Repr
    ensures r.Ok? ==> r.value.0.Valid() && !r.value.0.writable && r.value.1.Valid() && r.value.1.writable
    ensures sets(old(file.pos)) == if r.Ok? then Ok((r.value.0.Images(), r.value.1.Images(), file.pos)) else Err(r.error)
  {
    ghost var view, p := file.View(), file.pos;
    assert sets(p) == DecodeDataSets(view, p, files);
    ghost var cin, cout := ColumnStep(view, files, false), ColumnStep(view, files, true);
    ColumnStepSteps(view, files, false);
    ColumnStepSteps(view, files, true);
    TableStepSteps(view, cin);
    TableStepSteps(view, cout);
    var i := DataSet.Open(file, files, false, cin, TableStep(view, cin));
    if i.Err? {
      DataSetsStopAtInput(view, p, files, i.error);
      return Err(i.error);
    }
    var inputData := i.value;
    ghost var p1, input := file.pos, inputData.Images();
    label Between:
    var o := DataSet.Open(file, files, true, cout, TableStep(view, cout));
    if o.Err? {
      DataSetsStopAtOutput(view, p, files, input, p1, o.error);
      return Err(o.error);
    }
    var outputData := o.value;
    inputData.Kept@Between();
    DataSetsOf(view, p, files, input, p1, outputData.Images(), file.pos);
    r := Ok((inputData, outputData));
  }

  /** Both data sets read as decoded compose into the decoded pair. */
  lemma DataSetsOf(view: seq<byte>, p: nat, files: map<Text, seq<byte>>,
                   input: seq<TableImage>, p1: nat, output: seq<TableImage>, p2: nat)
    requires DecodeDataSet(view, p, TableStep(view, ColumnStep(view, files, false))) == Ok((input, p1))
    requires DecodeDataSet(view, p1, TableStep(view, ColumnStep(view, files, true))) == Ok((output, p2))
    ensures DecodeDataSets(view, p, files) == Ok((input, output, p2))
  {
  }

  /** An input data set that fails to decode fails the pair with its error. */
  lemma DataSetsStopAtInput(view: seq<byte>, p: nat, files: map<Text, seq<byte>>, e: Error)
    requires DecodeDataSet(view, p, TableStep(view, ColumnStep(view, files, false))) == Err(e)
    ensures DecodeDataSets(view, p, files) == Err(e)
  {
  }

  /** An output data set that fails to decode fails the pair with its error. */
  lemma DataSetsStopAtOutput(view: seq<byte>, p: nat, files: map<Text, seq<byte>>, input: seq<TableImage>, p1: nat, e: Error)
    requires DecodeDataSet(view, p, TableStep(view, ColumnStep(view, files, false))) == Ok((input, p1))
    requires DecodeDataSet(view, p1, TableStep(view, ColumnStep(view, files, true))) == Err(e)
    ensures DecodeDataSets(view, p, files) == Err(e)
  {
  }

  /** Reads the tail of the control file at its cursor, mapping the status file writable in version 2. */
  method ReadTrailer(file: MappedStore, files: map<Text, seq<byte>>, version: int64) returns (r: Result<(Text, Option<MappedStore>)>)
    requires file.Valid() && !file.writable
    modifies file
    ensures file.Valid() && !file.writable && file.isOpen == old(file.isOpen) && file.View() == old(file.View())
    ensures r.Ok? ==> (r.value.1.Some? <==> version == 2)
    ensures r.Ok? && r.value.1.Some? ==> fresh(r.value.1.value) && r.value.1.value.Valid() && r.value.1.value.writable
    ensures DecodeTrailer(old(file.View()), old(file.pos), files, version)
         == if r.Ok? then Ok((r.value.0, StatusView(r.value.1))) else Err(r.error)
  {
    var outName :- ReadString(file);
    if version != 2 {
      return Ok((outName, None));
    }
    var statusName :- ReadString(file);
    var status :- MapPath(files, statusName, true);
    var s := new MappedStore();
    s.Map(status, true);
    r := Ok((outName, Some(s)));
  }

  class ProcData {
    /** The control file's version: 1, or 2 when a status file is mapped. */
    ghost const version: int64
    const requestInfo: map<Text, Text>
    const params: map<Text, Text>
    const binParams: map<Text, Text>
    const inputData: DataSet
    const outputData: DataSet
    const outputControlFileName: Text
    const statusFile: Option<MappedStore>
    /** The results the proc fills in before complete. */
    var results: map<Text, Text>
    var binResults: map<Text, Text>
    /** Both data sets' objects and the status file. */
    ghost const Repr: set<object>

    ghost predicate Valid()
      reads Repr
    {
      && Repr == inputData.Repr + outputData.Repr + StatusParts(statusFile)
      && inputData.Valid() && !inputData.writable
      && outputData.Valid() && outputData.writable
      && inputData.Repr !! outputData.Repr
      && (statusFile.Some? ==> statusFile.value.Valid() && statusFile.value.writable
                               && statusFile.value !in inputData.Repr + outputData.Repr)
      && (version == 1 || version == 2) && (version == 2 <==> statusFile.Some?)
    }

    /** What the session was opened with. */
    ghost function Image(): ControlImage
      reads Repr
      requires Valid()
    {
      ControlImage(Header(version, requestInfo, params, binParams), inputData.Images(), outputData.Images(),
              outputControlFileName, StatusView(statusFile))
    }

    constructor (header: Header, inputData: DataSet, outputData: DataSet, outputControlFileName: Text,
                 statusFile: Option<MappedStore>)
      requires inputData.Valid() && !inputData.writable && outputData.Valid() && outputData.writable
      requires inputData.Repr !! outputData.Repr
      requires statusFile.Some? ==> statusFile.value.Valid() && statusFile.value.writable
                                    && statusFile.value !in inputData.Repr + outputData.Repr
      requires (header.version == 1 || header.version == 2) && (header.version == 2 <==> statusFile.Some?)
      ensures Valid() && Image() == ControlImage(header, inputData.Images(), outputData.Images(), outputControlFileName, StatusView(statusFile))
      ensures this.inputData == inputData && this.outputData == outputData && this.statusFile == statusFile
      ensures Repr == inputData.Repr + outputData.Repr + StatusParts(statusFile)
      ensures results == map[] && binResults == map[]
    {
      this.version := header.version;
      this.requestInfo := header.requestInfo;
      this.params := header.params;
      this.binParams := header.binParams;
      this.inputData := inputData;
      this.outputData := outputData;
      this.outputControlFileName := outputControlFileName;
      this.statusFile := statusFile;
      this.results := map[];
      this.binResults := map[];
      this.Repr := inputData.Repr + outputData.Repr + StatusParts(statusFile);
    }

    /**
     * The session constructor: the control file named by the configuration is
     * mapped read-only and read in order, and the results start empty.
     */
    static method Open(controlFileName: Option<Text>, files: map<Text, seq<byte>>) returns (r: Result<ProcData>)
      ensures r.Ok? ==> fresh(r.value) && fresh(r.value.Repr) && r.value.Valid()
      ensures r.Ok? ==> r.value.results == map[] && r.value.binResults == map[]
      ensures OpenSession(controlFileName, files) == if r.Ok? then Ok(r.value.Image()) else Err(r.error)
    {
      if controlFileName.None? {
        return Err(MissingControlFile);
      }
      var contents :- MapPath(files, controlFileName.value, false);
      var controlFile := new MappedStore();
      controlFile.Map(contents, false);
      DataSetsStepSteps(contents, files);
      r := ReadControl(controlFile, files, DataSetsStep(contents, files));
    }

    /** Reads a mapped control file from its start: the head, the two data sets and the tail. */
    static method ReadControl(file: MappedStore, files: map<Text, seq<byte>>,
                              ghost sets: nat -> Result<(seq<TableImage>, seq<TableImage>, nat)>) returns (r: Result<ProcData>)
      requires file.Valid() && !file.writable && file.pos == 0 && DataSetsSteps(sets, file.View(), files)
      modifies file
      ensures r.Ok? ==> fresh(r.value) && fresh(r.value.Repr) && r.value.Valid()
      ensures r.Ok? ==> r.value.results == map[] && r.value.binResults == map[]
      ensures DecodeControl(old(file.View()), files, sets) == if r.Ok? then Ok(r.value.Image()) else Err(r.error)
    {
      var h := ReadHeader(file);
      if h.Err? {
        return Err(h.error);
      }
      r := ReadBody(file, files, sets, h.value);
    }

    /** Reads what follows the head of a control file: the data sets, then the tail; builds the session. */
    static method ReadBody(file: MappedStore, files: map<Text, seq<byte>>,
                           ghost sets: nat -> Result<(seq<TableImage>, seq<TableImage>, nat)>, header: Header)
      returns (r: Result<ProcData>)
      requires file.Valid() && !file.writable && DataSetsSteps(sets, file.View(), files)
      requires header.version == 1 || header.version == 2
      modifies file
      ensures r.Ok? ==> fresh(r.value) && fresh(r.value.Repr) && r.value.Valid()
      ensures r.Ok? ==> r.value.results == map[] && r.value.binResults == map[]
      ensures DecodeBody(old(file.View()), old(file.pos), files, sets, header) == if r.Ok? then Ok(r.value.Image()) else Err(r.error)
    {
      ghost var view, p := file.View(), file.pos;
      var d := ReadDataSets(file, files, sets);
      if d.Err? {
        BodyStopsAtDataSets(view, p, files, sets, header, d.error);
        return Err(d.error);
      }
      var (inputData, outputData) := d.value;
      ghost var input, output, p6 := inputData.Images(), outputData.Images(), file.pos;
      BodyOf(view, p, files, sets, header, input, output, p6);
      ghost var parts := inputData.Repr + outputData.Repr;
      assert fresh(parts) && file !in parts;
      r := ReadTail(file, files, header, inputData, outputData);
      if r.Ok? {
        assert r.value.Repr == parts + StatusParts(r.value.statusFile);
      }
    }

    /** Reads the tail of a control file after its data sets and builds the session. */
    static method ReadTail(file: MappedStore, files: map<Text, seq<byte>>, header: Header, inputData: DataSet, outputData: DataSet)
      returns (r: Result<ProcData>)
      requires file.Valid() && !file.writable && (header.version == 1 || header.version == 2)
      requires inputData.Valid() && !inputData.writable && outputData.Valid() && outputData.writable
      requires inputData.Repr !! outputData.Repr && file !in inputData.Repr + outputData.Repr
      modifies file
      ensures r.Ok? ==> fresh(r.value) && r.value.Repr == inputData.Repr + outputData.Repr + StatusParts(r.value.statusFile)
      ensures r.Ok? ==> fresh(StatusParts(r.value.statusFile)) && r.value.Valid()
      ensures r.Ok? ==> r.value.results == map[] && r.value.binResults == map[]
      ensures DecodeTail(old(file.View()), old(file.pos), files, header, old(inputData.Images()), old(outputData.Images()))
           == if r.Ok? then Ok(r.value.Image()) else Err(r.error)
    {
      ghost var view, p := file.View(), file.pos;
      label Before:
      var t := ReadTrailer(file, files, header.version);
      if t.Err? {
        return Err(t.error);
      }
      var (outName, statusFile) := t.value;
      inputData.Kept@Before();
      outputData.Kept@Before();
      TailOf(view, p, files, header, inputData.Images(), outputData.Images(), outName, StatusView(statusFile));
      var session := new ProcData(header, inputData, outputData, outName, statusFile);
      r := Ok(session);
    }

    /**
     * complete: completes the output data set, then maps the output control file
     * writable and writes version 1, the results and the binary results (each binary
     * value as raw bytes after its key, as writeBinaryMap emits it).  Returns that
     * file's store and the maps' iteration orders.
     */
    method Complete(files: map<Text, seq<byte>>) returns (r: Result<MappedStore>, ghost o1: seq<Text>, ghost o2: seq<Text>)
      requires Valid() && |results| <= INT_MAX && |binResults| <= INT_MAX
      modifies ArenaStoresOf(outputData.tables)
      ensures Valid()
      ensures outputData.States() == CompletedTables(old(outputData.States()))
      ensures var k := FirstFailing(old(outputData.States()), AllComplete);
        && (r.Err? <==> k < |outputData.tables| || outputControlFileName == [])
        && (r.Err? ==> r.error == if k < |outputData.tables| then FileNotMapped else OpenFailed)
      ensures r.Ok? ==> fresh(r.value) && r.value.Valid() && r.value.writable
      ensures r.Ok? ==> Enumerates(o1, results) && Enumerates(o2, binResults)
      ensures r.Ok? ==> Within(r.value.View(), 0, ResponseBytes(results, o1, binResults, o2))
      ensures r.Ok? && binResults == map[] ==> DecodeResponse(r.value.View()) == Ok((1, results, binResults))
    {
      var o := CompleteOutput();
      if o.Fail? {
        return Err(o.error), [], [];
      }
      var contents := MapPath(files, outputControlFileName, true);
      if contents.Err? {
        return Err(contents.error), [], [];
      }
      label Completed:
      var controlFile;
      controlFile, o1, o2 := Answer(contents.value, results, binResults);
      Kept@Completed();
      r := Ok(controlFile);
    }

    /** Maps the output control file's contents writable in a new store and writes the answer there. */
    static method Answer(contents: seq<byte>, results: map<Text, Text>, binResults: map<Text, Text>)
      returns (controlFile: MappedStore, ghost o1: seq<Text>, ghost o2: seq<Text>)
      requires |results| <= INT_MAX && |binResults| <= INT_MAX
      ensures fresh(controlFile) && controlFile.Valid() && controlFile.writable
      ensures Enumerates(o1, results) && Enumerates(o2, binResults)
      ensures Within(controlFile.View(), 0, ResponseBytes(results, o1, binResults, o2))
      ensures binResults == map[] ==> DecodeResponse(controlFile.View()) == Ok((1, results, binResults))
    {
      controlFile := new MappedStore();
      controlFile.Map(contents, true);
      o1, o2 := WriteResponse(controlFile, results, binResults);
    }

    /** A session none of whose objects changed is still valid, its output states the same. */
    twostate lemma Kept()
      requires old(Valid()) && unchanged(Repr)
      ensures Valid() && outputData.States() == old(outputData.States())
    {
      inputData.Kept();
      outputData.Kept();
    }

    /** The output data set's complete, keeping the session valid. */
    method CompleteOutput() returns (o: Outcome)
      requires Valid()
      modifies ArenaStoresOf(outputData.tables)
      ensures Valid()
      ensures o == if FirstFailing(old(outputData.States()), AllComplete) == |outputData.tables| then Pass else Fail(FileNotMapped)
      ensures outputData.States() == CompletedTables(old(outputData.States()))
    {
      OutputArenasOwned();
      o := outputData.Complete();
    }

    /** The output data set's arenas are objects of the output data set. */
    lemma OutputArenasOwned()
      requires Valid()
      ensures ArenaStoresOf(outputData.tables) <= outputData.Repr
    {
      forall a | a in ArenaStoresOf(outputData.tables)
        ensures a in outputData.Repr
      {
        var j, i :| 0 <= j < |outputData.tables| && 0 <= i < |outputData.tables[j].columns| && a == outputData.tables[j].columns[i].varData;
        ArenasOwned(outputData.tables[j]);
        ArenaStoresWithin(outputData.tables, j);
        assert a in ArenaStores(outputData.tables[j].columns);
      }
    }
  }
}
