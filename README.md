# Kinetica UDF proc API, modelled in Dafny

A user-defined function ("proc") run by Kinetica exchanges its data with the
database through memory-mapped files. The proc API opens them, presents them as
data sets, tables and columns, and writes the proc's answer back. This project
models the core of that API: the byte store, the codec, the columns, tables and
data sets, and the session.

**The byte store** (`store.dfy`, module `Store`) models the native mapped file.

- A `MappedStore` object holds the backing file's bytes, the mapped size, a cursor
  and a writable flag.
- It supports `map`, `remap`, `unmap`, cursor reads and writes, and `ensure`. When a
  writable mapping runs out, `ensure` grows it to the next page boundary.
- It also supports positional reads and writes, the reversed fixed-width `CHARn`
  fields, and `truncate`.
- A pure `Cursor` model (`Room`, `Get`, `Put`) specifies the cursor operations.

**The codec** (`codec.dfy`, `bytes.dfy`) covers the length-prefixed encodings of the
Java wrapper:

- 64-bit little-endian integers;
- strings: a length, then the bytes;
- string maps: a count, then key/value strings;
- binary maps: a count, then keys and length-prefixed values.

The readers are pure functions over a read-only view, with methods on the store
proved against them. The writers are methods whose output is stated through an
encoding function and a key order.

**The column type catalogue** (`types.dfy`) gives each type its wire code and
element width.

**The value encodings** (`encodings.dfy`, `bits.dfy`) are the packed DATE, DATETIME
and TIME words, DECIMAL as ten-thousandths, and IPV4 as four packed octets.

**Variable-length columns** (`arena.dfy`) keep an offset slot per row and the bytes
themselves in a separate arena.

**Columns** (`column.dfy`) are the `Column` class. It has three stores: data, null
flags and arena. It provides every getter and setter except the floating-point
ones, `append*`, `reserve` and `complete`.

**Tables** (`table.dfy`) are the `Table` class: opening, `getColumn`,
`getColumnIndex`, `setSize` and `complete`.

**Data sets** (`dataset.dfy`) are the `DataSet` class: opening, `getTable`,
`getTableIndex` and `complete`.

**The session** (`session.dfy`) is the `ProcData` class.

- The constructor reads the control file in order: version, request information,
  parameters, binary parameters, the input and output data sets, the output
  control-file name and, in version 2, the status file.
- `complete` completes the output data set and writes the answer file.

**Environment.** The process environment and the file system are parameters:

- the control-file name is an `Option<Text>`;
- the files are a `map<Text, seq<byte>>` from path to contents.

A missing read-only file or an empty path fails to open with `OpenFailed`. A
writable file that is missing is created empty.

**Errors.** Every exception the source throws is an `Error` value in a
`Result`/`Outcome` (`wrappers.dfy`). Undefined native behaviour, such as a
positional access past the mapped bytes, is the error `OutsideMapping`. A native
copy of more bytes than the Java array holds is the error `ArrayOverrun`.

**Byte order.** Multi-byte integers are little-endian. The native code uses host
order, and the supported hosts are little-endian.

## Model

| member | source | states |
|---|---|---|
| Bytes.DecodeEncodeInt | proc-api/src/main/java/com/kinetica/MemoryMappedFile.cpp:204-208 | Any value in the signed range of n bytes, written as n little-endian bytes, reads back unchanged. |
| Bytes.EncodeDecodeInt | proc-api/src/main/java/com/kinetica/MemoryMappedFile.cpp:155-159 | Any n bytes, read as a signed integer and written back, are the same bytes. A typed read loses nothing. |
| Bytes.DecodeEncodeLong | proc-api/src/main/java/com/kinetica/MemoryMappedFile.cpp:140-147 | Every 64-bit value written by writeLong reads back as the same value. |
| Store.GrowSize | proc-api/src/main/java/com/kinetica/MemoryMappedFile.cpp:255-258 | The grown size is a multiple of the page size. It lies strictly above the needed size and at most one page beyond it. |
| Store.Room | proc-api/src/main/java/com/kinetica/MemoryMappedFile.cpp:247-261 | ensure fails with EndOfFile exactly when the bytes needed pass the end of a read-only mapping. Otherwise the resulting view covers them, keeps every old byte and is zero beyond the old end. |
| Store.Get | proc-api/src/main/java/com/kinetica/MemoryMappedFile.cpp:149-153 | A cursor read fails exactly as ensure does. Otherwise it returns n bytes and advances the cursor by n. Inside the view, those are the bytes at the cursor. |
| Store.Put | proc-api/src/main/java/com/kinetica/MemoryMappedFile.cpp:197-202 | A cursor write fails exactly as ensure does. Otherwise the bytes land at the cursor, the cursor moves past them and the bytes before the cursor are kept. |
| Store.GetAfterPut | proc-api/src/main/java/com/kinetica/MemoryMappedFile.cpp:188-202 | Bytes written at a cursor read back from the same position, ending where the writer ended. |
| Store.PutPut | proc-api/src/main/java/com/kinetica/MemoryMappedFile.cpp:197-202 | Two writes in a row lay their bytes one after the other and leave everything before them as it was. |
| Store.GetLongAfterPut | proc-api/src/main/java/com/kinetica/MemoryMappedFile.cpp:140-147 | A long written at a cursor reads back from the same position. |
| Store.SignificantUnique | proc-api/src/main/java/com/kinetica/MemoryMappedFile.cpp:161-181 | The length readCharN reports is the only length whose last byte is non-zero and after which there are only zero bytes. |
| Store.CharNRoundTrip | proc-api/src/main/java/com/kinetica/MemoryMappedFile.cpp:161-228 | A value that fits the field and does not end in a zero byte comes back from readCharN unchanged, with its own length. writeCharN stores it reversed and zero-padded. |
| Store.CharNTruncates | proc-api/src/main/java/com/kinetica/MemoryMappedFile.cpp:215-228 | A value longer than the field keeps only its first n bytes. |
| Store.CharNRead | proc-api/src/main/java/com/kinetica/MemoryMappedFile.cpp:161-181 | What readCharN returns, written back with writeCharN, reproduces the field exactly. |
| Store.MappedStore.constructor | proc-api/src/main/java/com/kinetica/MemoryMappedFile.cpp:21-28 | A new store maps nothing, is not writable, has size 0 and has its cursor at 0. |
| Store.MappedStore.Unmap | proc-api/src/main/java/com/kinetica/MemoryMappedFile.cpp:112-128 | After unmap nothing is mapped, the store is not writable, and its size and cursor are 0. |
| Store.MappedStore.Map | proc-api/src/main/java/com/kinetica/MemoryMappedFile.cpp:35-47 | Mapping a whole file (size -1) exposes exactly its contents, with the cursor at 0 and the requested writability. |
| Store.MappedStore.Remap | proc-api/src/main/java/com/kinetica/MemoryMappedFile.cpp:49-110 | Without an open file, remap fails with FileNotMapped and changes nothing. Otherwise the mapped size becomes n and the cursor is kept. A writable file is truncated or zero-extended to n; a read-only file is unchanged. |
| Store.MappedStore.Truncate | proc-api/src/main/java/com/kinetica/MemoryMappedFile.cpp:230-233 | truncate remaps to the cursor position. The file becomes its first pos bytes, zero-extended if shorter. |
| Store.MappedStore.Ensure | proc-api/src/main/java/com/kinetica/MemoryMappedFile.cpp:247-261 | The new view is what Room computes from the old cursor, or the store is unchanged with Room's error. The cursor and flags are kept. |
| Store.MappedStore.ReadBytes | proc-api/src/main/java/com/kinetica/MemoryMappedFile.cpp:149-153 | The bytes and the new cursor are those of Get from the old cursor. On error nothing changes. |
| Store.MappedStore.ReadLong | proc-api/src/main/java/com/kinetica/MemoryMappedFile.cpp:140-147 | The value and the new cursor are those of GetLong from the old cursor. On error nothing changes. |
| Store.MappedStore.WriteBytes | proc-api/src/main/java/com/kinetica/MemoryMappedFile.cpp:197-202 | The new cursor and view are those of Put of the bytes at the old cursor. |
| Store.MappedStore.WriteLong | proc-api/src/main/java/com/kinetica/MemoryMappedFile.cpp:188-195 | The new cursor and view are those of Put of the 8-byte encoding at the old cursor. |
| Store.MappedStore.WriteByte | proc-api/src/main/java/com/kinetica/MemoryMappedFile.cpp:188-195 | The new cursor and view are those of Put of the 1-byte encoding at the old cursor. |
| Store.MappedStore.IntAt | proc-api/src/main/java/com/kinetica/MemoryMappedFile.cpp:155-159 | A positional typed read returns the signed value whose n-byte encoding is the n bytes at p. |
| Store.MappedStore.WriteAt | proc-api/src/main/java/com/kinetica/MemoryMappedFile.cpp:204-213 | A positional write replaces exactly the bytes at p..p+n. Size and cursor are kept. |
| Store.MappedStore.WriteCharN | proc-api/src/main/java/com/kinetica/MemoryMappedFile.cpp:215-228 | The field at p becomes the value reversed and zero-padded, or truncated, to n bytes. Nothing else changes. |
| Store.MappedStore.ReadCharN | proc-api/src/main/java/com/kinetica/MemoryMappedFile.cpp:161-181 | The buffer receives the field reversed. The result is the length up to the last non-zero byte. The rest of the buffer is untouched. |
| Codec.LongAt | proc-api/src/main/java/com/kinetica/MemoryMappedFile.java:61-62 | A long read fails with EndOfFile exactly when fewer than 8 bytes remain. |
| Codec.GetString | proc-api/src/main/java/com/kinetica/MemoryMappedFile.java:64-74 | A string read ends 8 plus its length bytes after its start, inside the view, and holds the bytes there, its length being the long read first. A length above Integer.MAX_VALUE is InvalidStringLength. The only other errors are a negative cast length, the end of the file and a copy longer than the array. |
| Codec.GetCast | proc-api/src/main/java/com/kinetica/MemoryMappedFile.java:71-72 | Allocating `new byte[(int)n]` and reading n bytes succeeds exactly when n is a non-negative int that fits in the view, and then yields the n bytes at the position. Every failure is NegativeLength, EndOfFile or ArrayOverrun. |
| Codec.StringLengthCast | proc-api/src/main/java/com/kinetica/MemoryMappedFile.java:65-72 | A string length of -2^32 passes readString's guard and allocates an empty array. The native read then overruns it when the wrapped end lies inside the file, and otherwise fails with EndOfFile. |
| Codec.GetStringPlaced | proc-api/src/main/java/com/kinetica/MemoryMappedFile.java:64-74 | A string laid out as writeString lays it out reads back, ending just after it. |
| Codec.GetBinaryValue | proc-api/src/main/java/com/kinetica/MemoryMappedFile.java:46-53 | A binary value read ends 8 plus its length bytes after its start, inside the view. With the corrected guard, a value length above Integer.MAX_VALUE is InvalidValueLength. |
| Codec.GetBinaryValueAsWritten | proc-api/src/main/java/com/kinetica/MemoryMappedFile.java:46-53 | One value as readBinaryMap reads it, with the guard on the entry count. A success holds the bytes after an 8-byte length equal to its size. The only errors are the end of the file, the guard, a negative cast length and a copy longer than the array. |
| Codec.BinaryValueAsString | proc-api/src/main/java/com/kinetica/MemoryMappedFile.java:46-53 | Wherever a string can be read, a binary value reads the same bytes to the same end. |
| Codec.MergedListing | proc-api/src/main/java/com/kinetica/MemoryMappedFile.java:87-90 | Putting a map's entries, in any enumeration order, into an accumulator yields the accumulator overridden by the map. |
| Codec.GetStringMapPlaced | proc-api/src/main/java/com/kinetica/MemoryMappedFile.java:76-93 | A string map written by writeStringMap, in any key order, reads back merged into the accumulator, ending just after it. |
| Codec.GetBinaryMapPlaced | proc-api/src/main/java/com/kinetica/MemoryMappedFile.java:33-59 | A binary map laid out with its value lengths reads back merged into the accumulator, ending just after it. |
| Codec.BinaryValueGuardIneffective | proc-api/src/main/java/com/kinetica/MemoryMappedFile.java:44-50 | readBinaryMap as written never fails with InvalidValueLength, whatever the bytes: inside the loop the entry count it tests is at most Integer.MAX_VALUE. |
| Codec.ValueLengthAsWritten | proc-api/src/main/java/com/kinetica/MemoryMappedFile.java:46-53 | As written, a value length of 2^31 passes the guard and fails the allocation with NegativeLength. A length of 2^32 allocates an empty array, then fails with EndOfFile or overruns the array. The intended guard rejects both with InvalidValueLength. |
| Codec.BinaryMapReadersAgree | proc-api/src/main/java/com/kinetica/MemoryMappedFile.java:33-59 | readBinaryMap as written and with the corrected guard accept exactly the same bytes and then return the same map and end. They differ only in the error a value length above Integer.MAX_VALUE raises. |
| Codec.BinaryMapAsWrittenNotInverse | proc-api/src/main/java/com/kinetica/MemoryMappedFile.java:119-126 | writeBinaryMap as written omits value lengths, so the map {"" -> [0,0,0,0,1,0,0,0]} written that way does not read back. readBinaryMap as written takes the value bytes as a length of 2^32 and fails with EndOfFile. The corrected reader fails with InvalidValueLength. |
| Codec.ReadLongAt | proc-api/src/main/java/com/kinetica/MemoryMappedFile.java:61-62 | readLong on a read-only store returns LongAt at the cursor and advances it by 8. The view is kept. |
| Codec.ReadBytesAt | proc-api/src/main/java/com/kinetica/MemoryMappedFile.java:95 | read fails with EndOfFile exactly when too few bytes remain. Otherwise it returns the bytes at the cursor and advances past them. |
| Codec.ReadString | proc-api/src/main/java/com/kinetica/MemoryMappedFile.java:64-74 | readString returns GetString's result at the old cursor and leaves the cursor at its end. |
| Codec.ReadCast | proc-api/src/main/java/com/kinetica/MemoryMappedFile.java:71-72 | On a read-only store, the allocation and the read return GetCast's result at the old cursor and leave the cursor at its end. |
| Codec.ReadStringMap | proc-api/src/main/java/com/kinetica/MemoryMappedFile.java:76-93 | readStringMap(acc) returns GetStringMap's result at the old cursor and leaves the cursor at its end. |
| Codec.ReadBinaryValue | proc-api/src/main/java/com/kinetica/MemoryMappedFile.java:46-53 | One value as readBinaryMap reads it, with the guard on the entries still to read: the result and the new cursor are GetBinaryValueAsWritten's at the old cursor. |
| Codec.ReadBinaryMap | proc-api/src/main/java/com/kinetica/MemoryMappedFile.java:33-59 | readBinaryMap(acc) as written returns GetBinaryMapAsWritten's result at the old cursor and leaves the cursor at its end. |
| Codec.WriteString | proc-api/src/main/java/com/kinetica/MemoryMappedFile.java:134-138 | writeString lays out the length and then the bytes at the cursor, ending after them. |
| Codec.WriteStringMap | proc-api/src/main/java/com/kinetica/MemoryMappedFile.java:140-147 | writeStringMap lays out the count and then every entry, in an order that enumerates the map exactly once. |
| Codec.WriteBinaryMap | proc-api/src/main/java/com/kinetica/MemoryMappedFile.java:119-126 | As written: the count, then each key string followed by the raw value bytes with no length, in an enumeration order of the map. |
| Codec.WriteBinaryMapWithLengths | proc-api/src/main/java/com/kinetica/MemoryMappedFile.java:119-126 | Corrected writeBinaryMap: each value is preceded by its length, the layout readBinaryMap expects. |
| Types.ScanFromInt | proc-api/src/main/java/com/kinetica/ProcData.java:49-59 | fromInt scans the catalogue and returns the type whose code is the value. It fails with UnknownType exactly when no type has that code. |
| Types.FindCorrect | proc-api/src/main/java/com/kinetica/ProcData.java:49-59 | A successful scan returns a listed type with that code. The scan fails exactly when no listed type has the code. |
| Types.FromIntCorrect | proc-api/src/main/java/com/kinetica/ProcData.java:49-59 | fromInt returns the unique type with the given code. It fails with UnknownType exactly when there is none. |
| Types.FromIntCode | proc-api/src/main/java/com/kinetica/ProcData.java:21-59 | fromInt inverts the code of every type. |
| Types.CodeInjective | proc-api/src/main/java/com/kinetica/ProcData.java:21-44 | No two column types share a code. |
| Types.AllTypesComplete | proc-api/src/main/java/com/kinetica/ProcData.java:21-44 | Every column type is in the catalogue fromInt scans. |
| Types.WidthTable | proc-api/src/main/java/com/kinetica/ProcData.java:65-94 | Element widths are powers of two from 1 to 256. BYTES and STRING slots are 8 bytes; CHAR1 is 1 byte and CHAR256 is 256. |
| Encodings.DateRoundTrip | proc-api/src/main/java/com/kinetica/ProcData.java:210-222 | A well-formed date whose year fits, packed as setCalendar packs a DATE, unpacks to the same date at midnight. |
| Encodings.DateWordRoundTrip | proc-api/src/main/java/com/kinetica/ProcData.java:541-549 | A DATE word with zero low bits and a valid month and day unpacks to a well-formed date that packs back to the same word. |
| Encodings.DateTimeRoundTrip | proc-api/src/main/java/com/kinetica/ProcData.java:554-566 | A well-formed calendar whose year fits, packed into a DATETIME word, unpacks to every field unchanged. |
| Encodings.TimeRoundTrip | proc-api/src/main/java/com/kinetica/ProcData.java:569-579 | A well-formed time of day packed into a TIME word unpacks to the same time on 1 January 1970. |
| Encodings.InLong | proc-api/src/main/java/com/kinetica/ProcData.java:525 | longValueExact succeeds exactly when the value is in the 64-bit range, returning it; otherwise it fails with ArithmeticError. |
| Encodings.DecimalRoundTrip | proc-api/src/main/java/com/kinetica/ProcData.java:186-196 | Any stored DECIMAL read by getBigDecimal and written back by setBigDecimal is stored unchanged. |
| Encodings.DecimalExact | proc-api/src/main/java/com/kinetica/ProcData.java:519-527 | setBigDecimal succeeds exactly when some stored word reads back as a numerically equal value, and then stores that word; otherwise it fails with ArithmeticError. |
| Encodings.DecodeAddress | proc-api/src/main/java/com/kinetica/ProcData.java:315-336 | getInet4Address returns four octets. |
| Encodings.AddressBytes | proc-api/src/main/java/com/kinetica/ProcData.java:323-328 | For every int, the octets getInet4Address builds are its four little-endian bytes in reverse order. |
| Encodings.AddressRoundTrip | proc-api/src/main/java/com/kinetica/ProcData.java:633-642 | An address whose last three octets are below 128 is stored and read back unchanged. |
| Encodings.AddressHighOctet | proc-api/src/main/java/com/kinetica/ProcData.java:633-642 | Sign extension of the octets as written: 0.0.0.128 is stored as -128 and reads back as 255.255.255.128. |
| Encodings.WordOctets | proc-api/src/main/java/com/kinetica/ProcData.java:323-328 | A word equal to the signed first octet and the three unsigned ones, each in its place, is decoded by getInet4Address into exactly those four octets. |
| Encodings.MaskedAddressWord | proc-api/src/main/java/com/kinetica/ProcData.java:640 | Corrected packing: with each octet masked to 0..255 before the shift, the stored int is the address read as a signed 32-bit big-endian number. |
| Encodings.AddressMaskedRoundTrip | proc-api/src/main/java/com/kinetica/ProcData.java:640 | Corrected packing: every address, whatever its octets, is stored and read back unchanged. |
| Arena.Append | proc-api/src/main/java/com/kinetica/ProcData.java:758-790 | Appending adds one slot holding the arena's old length and keeps the arena as a prefix. |
| Arena.Extract | proc-api/src/main/java/com/kinetica/ProcData.java:388-409 | A value read is the arena bytes from the row's offset, its length being the next offset minus this one minus the terminator. A negative length or a range outside the arena is an error. |
| Arena.SlotsOf | proc-api/src/main/java/com/kinetica/ProcData.java:388-409 | The n offset slots are the 8-byte words of the data file, in row order. |
| Arena.AppendStep | proc-api/src/main/java/com/kinetica/ProcData.java:758-790 | Appending one more value to the column built from a list of values gives the column built from the longer list. |
| Arena.RowBytes | proc-api/src/main/java/com/kinetica/ProcData.java:758-790 | The bytes of each appended value sit in the arena at the end of the arena built by the earlier rows. |
| Arena.ReadBack | proc-api/src/main/java/com/kinetica/ProcData.java:388-432 | Every non-null value appended with appendVarBytes or appendVarString reads back unchanged from its row. |
| Arena.ThreeStrings | proc-api/src/main/java/com/kinetica/ProcData.java:774-790 | Appending "ab", "" and "xyz" to a string column gives slots 0, 3 and 4 and arena "ab\0\0xyz\0", and each row reads back. |
| Columns.OpenPath | proc-api/src/main/java/com/kinetica/ProcData.java:133-155 | An empty path maps nothing. A missing file fails to open exactly when mapped read-only. |
| Columns.DecodeColumn | proc-api/src/main/java/com/kinetica/ProcData.java:127-156 | A column description, when read, lies strictly inside the view after its start. |
| Columns.ColumnStages | proc-api/src/main/java/com/kinetica/ProcData.java:127-156 | A column description is its name and type, then the data, null and arena paths, read one after the other. |
| Columns.OpenStore | proc-api/src/main/java/com/kinetica/ProcData.java:131-155 | A store is mapped from a path as OpenPath says. It is writable exactly when the column is writable and a file was mapped. |
| Columns.ReadHead | proc-api/src/main/java/com/kinetica/ProcData.java:128-129 | The column's name and type are read at the cursor, as DecodeHead decodes them. |
| Columns.ReadType | proc-api/src/main/java/com/kinetica/ProcData.java:129 | The type code is read as a long, narrowed to int and looked up by fromInt. |
| Columns.ReadStore | proc-api/src/main/java/com/kinetica/ProcData.java:130-155 | A path is read and its store mapped, as DecodeStore decodes it. |
| Columns.SlotCount | proc-api/src/main/java/com/kinetica/ProcData.java:133-138 | The row count is the data size divided by the type width, so every row fits in the data file. |
| Columns.AsRow | proc-api/src/main/java/com/kinetica/ProcData.java:688-756 | An append returns a row number exactly when the setter it calls passes. |
| Columns.SlotsExtend | proc-api/src/main/java/com/kinetica/ProcData.java:758-790 | Writing row n's offset slot extends the first n slots by that offset. |
| Columns.Column.constructor | proc-api/src/main/java/com/kinetica/ProcData.java:127-156 | A column is built from its three stores. Its size is the row count of its data file and its cursor starts at row 0. |
| Columns.Column.Open | proc-api/src/main/java/com/kinetica/ProcData.java:127-156 | Reading a column from the control file yields exactly the DecodeColumn image, or its error. Its size is the row count and it has fresh stores. |
| Columns.Column.Word | proc-api/src/main/java/com/kinetica/ProcData.java:338-374 | A row's data word is the signed value whose little-endian encoding is the row's cell. |
| Columns.Column.IsNull | proc-api/src/main/java/com/kinetica/ProcData.java:174-184 | An index outside 0..size is IndexOutOfRange. A non-nullable column has no nulls. Otherwise the row is null exactly when its null byte is non-zero. |
| Columns.Column.GetInt | proc-api/src/main/java/com/kinetica/ProcData.java:338-355 | getInt fails exactly when the type, index or null check fails. It returns null exactly for a null row, else the 4-byte value encoded in the cell. |
| Columns.Column.GetLong | proc-api/src/main/java/com/kinetica/ProcData.java:357-374 | getLong fails exactly when the checks fail. It returns null exactly for a null row, else the 8-byte value encoded in the cell. |
| Columns.Column.GetShort | proc-api/src/main/java/com/kinetica/ProcData.java:376-386 | getShort fails exactly when the checks fail. It returns null exactly for a null row, else the 2-byte value encoded in the cell. |
| Columns.Column.GetByte | proc-api/src/main/java/com/kinetica/ProcData.java:198-208 | getByte fails exactly when the checks fail. It returns null exactly for a null row, else the byte in the cell. |
| Columns.Column.GetBigDecimal | proc-api/src/main/java/com/kinetica/ProcData.java:186-196 | getBigDecimal returns null exactly for a null row. Otherwise it returns a decimal whose exact ten-thousandths are the long in the cell. |
| Columns.Column.GetCalendar | proc-api/src/main/java/com/kinetica/ProcData.java:210-262 | getCalendar fails exactly when the type is not DATE, DATETIME or TIME or the index check fails. It returns null exactly for a null row. |
| Columns.Column.GetInet4Address | proc-api/src/main/java/com/kinetica/ProcData.java:315-336 | getInet4Address fails exactly when the checks fail. It returns null exactly for a null row. Otherwise it returns four octets, which are the row's 4-byte cell in reverse order. |
| Columns.Column.GetChar | proc-api/src/main/java/com/kinetica/ProcData.java:264-289 | getChar fails exactly when the type is not a CHARn or the checks fail. It returns null exactly for a null row. |
| Columns.Column.GetCharField | proc-api/src/main/java/com/kinetica/ProcData.java:264-289 | A non-null getChar value fits the field, does not end in a zero byte, and written back as a CHARn field it is exactly the cell. |
| Columns.Column.VarValue | proc-api/src/main/java/com/kinetica/ProcData.java:388-432 | A variable-length row is read from the offset slots in the data file and from the arena. |
| Columns.Column.SlotWord | proc-api/src/main/java/com/kinetica/ProcData.java:396 | A variable-length row's data word is its offset slot. |
| Columns.Column.GetVarBytes | proc-api/src/main/java/com/kinetica/ProcData.java:388-409 | getVarBytes fails when the type or index check fails. It returns null exactly for a null row, else the arena bytes between this row's offset and the next. |
| Columns.Column.GetVarString | proc-api/src/main/java/com/kinetica/ProcData.java:411-432 | getVarString does the same as getVarBytes, less the one terminating zero byte. |
| Columns.Column.NullCheck | proc-api/src/main/java/com/kinetica/ProcData.java:502-517 | handleNull's checks pass only for an index in range, a null only in a nullable column, and a nullable column's null byte inside its file. |
| Columns.Column.SetNull | proc-api/src/main/java/com/kinetica/ProcData.java:490-500 | setNull fails, changing nothing, when its checks fail. Otherwise it marks only that row null, and isNull then reports it. |
| Columns.Column.HandleNull | proc-api/src/main/java/com/kinetica/ProcData.java:502-517 | handleNull writes the row's null byte to match the value in a nullable column. isNull then reports it. On failure the null file is unchanged. |
| Columns.Column.Check | proc-api/src/main/java/com/kinetica/ProcData.java:644-659 | A setter passes exactly when the type matches and handleNull's checks pass. |
| Columns.Column.WriteRow | proc-api/src/main/java/com/kinetica/ProcData.java:652-657 | Writing a row's cell changes only that cell. |
| Columns.Column.WordReadsBack | proc-api/src/main/java/com/kinetica/ProcData.java:338-374 | A value written into a cell reads back from it. |
| Columns.Column.SetInt | proc-api/src/main/java/com/kinetica/ProcData.java:644-659 | setInt fails, changing nothing, exactly when the checks fail. Otherwise it marks the null byte, writes only this row's cell, and getInt then returns the value. |
| Columns.Column.SetLong | proc-api/src/main/java/com/kinetica/ProcData.java:661-676 | The same for setLong: only this row changes, and getLong then returns the value. |
| Columns.Column.SetShort | proc-api/src/main/java/com/kinetica/ProcData.java:678-686 | The same for setShort: only this row changes, and getShort then returns the value. |
| Columns.Column.SetByte | proc-api/src/main/java/com/kinetica/ProcData.java:529-537 | The same for setByte: only this row changes, and getByte then returns the value. |
| Columns.Column.SetBigDecimal | proc-api/src/main/java/com/kinetica/ProcData.java:519-527 | A value that is not a 64-bit count of ten-thousandths fails with ArithmeticError after the null byte is written. Otherwise the word is stored and getBigDecimal returns a numerically equal value. |
| Columns.Column.SetCalendar | proc-api/src/main/java/com/kinetica/ProcData.java:539-587 | Only this row changes, with the packed DATE, DATETIME or TIME word. A null for DATETIME, handled twice through the fall-through, leaves the row null. getCalendar returns what the type keeps of a storable calendar. |
| Columns.Column.WriteCalendar | proc-api/src/main/java/com/kinetica/ProcData.java:541-583 | The packed word replaces only this row's cell, and a storable calendar reads back as what the type keeps. |
| Columns.Column.SetChar | proc-api/src/main/java/com/kinetica/ProcData.java:589-611 | setChar fails, changing nothing, exactly when the checks fail. Otherwise only this row changes, with the reversed zero-padded CHARn field; a null reads back as null. |
| Columns.Column.WriteField | proc-api/src/main/java/com/kinetica/ProcData.java:606-609 | The CHARn field replaces only this row's cell. |
| Columns.Column.CharReadsBack | proc-api/src/main/java/com/kinetica/ProcData.java:264-289 | A value that fits and does not end in a zero byte, stored in a CHARn cell, is what getChar returns. |
| Columns.Column.SetInet4Address | proc-api/src/main/java/com/kinetica/ProcData.java:633-642 | Only this row changes, with the octets packed as written. The address reads back when its last three octets are below 128. |
| Columns.Column.AppendInt | proc-api/src/main/java/com/kinetica/ProcData.java:737-742 | appendInt fails, changing nothing, exactly when setInt at the cursor fails. Otherwise it returns that row, advances the cursor, and the row reads back as the value. |
| Columns.Column.AppendLong | proc-api/src/main/java/com/kinetica/ProcData.java:744-749 | The same for appendLong. |
| Columns.Column.AppendShort | proc-api/src/main/java/com/kinetica/ProcData.java:751-756 | The same for appendShort. |
| Columns.Column.AppendByte | proc-api/src/main/java/com/kinetica/ProcData.java:695-700 | The same for appendByte. |
| Columns.Column.AppendCalendar | proc-api/src/main/java/com/kinetica/ProcData.java:702-707 | The same for appendCalendar, which reads back as what the type keeps. |
| Columns.Column.AppendChar | proc-api/src/main/java/com/kinetica/ProcData.java:709-714 | The same for appendChar, which stores the CHARn field. |
| Columns.Column.AppendInet4Address | proc-api/src/main/java/com/kinetica/ProcData.java:730-735 | The same for appendInet4Address, which reads back when the last three octets are below 128. |
| Columns.Column.AppendBigDecimal | proc-api/src/main/java/com/kinetica/ProcData.java:688-693 | The same for appendBigDecimal, including the ArithmeticError case, after which the cursor stays. |
| Columns.Column.ArenaWrite | proc-api/src/main/java/com/kinetica/ProcData.java:765-767 | Writing to the arena appends the bytes to what was written so far. It fails only when the arena was never mapped and there is something to write. |
| Columns.Column.ArenaAppend | proc-api/src/main/java/com/kinetica/ProcData.java:765-787 | A non-null value is appended to the arena with its terminator. A null appends nothing. |
| Columns.Column.AppendVar | proc-api/src/main/java/com/kinetica/ProcData.java:758-790 | Corrected variable-length append. When the null checks fail nothing changes. Otherwise the row's slot holds the old arena length, the null byte is marked, and the slots and arena are Arena.Append of the old ones. |
| Columns.Column.AppendChecked | proc-api/src/main/java/com/kinetica/ProcData.java:762-770 | With the row in range, the slot is written and the value appended, giving Arena.Append of the old slots and arena. |
| Columns.Column.WriteSlot | proc-api/src/main/java/com/kinetica/ProcData.java:764 | The row's offset slot receives the arena cursor, extending the slot sequence by it; appendVarString writes its slot the same way at line 780. |
| Columns.Column.AppendVarBytes | proc-api/src/main/java/com/kinetica/ProcData.java:758-772 | Corrected order: the slot is written after handleNull's checks (AppendVarAsWritten has the source's order). Anything but BYTES fails with TypeMismatch and changes nothing. On a BYTES column, AppendVar's contract holds with no terminator. It succeeds exactly when the null checks pass and the arena takes the value, and nothing changes when the null checks fail. A success returns the row, marks its null byte, stores the old arena length in its slot and extends the column by the value. |
| Columns.Column.AppendVarString | proc-api/src/main/java/com/kinetica/ProcData.java:774-790 | Corrected order, as for AppendVarBytes. Anything but STRING fails with TypeMismatch and changes nothing. On a STRING column, AppendVar's contract holds with one zero terminator: the same success condition, null-check failure, null byte, slot and extension of the column. |
| Columns.Column.AppendVarAsWritten | proc-api/src/main/java/com/kinetica/ProcData.java:758-772 | As written: the slot is written before handleNull's index check. A failing check still leaves the data file changed at pos*8, and at pos == size the write falls outside the mapping. |
| Columns.Column.Reserve | proc-api/src/main/java/com/kinetica/ProcData.java:798-806 | reserve remaps data to n times the width and, for a nullable column, nulls to n. Old bytes are kept and new ones zeroed, and the size becomes n. An unmapped data file fails with FileNotMapped and changes nothing. |
| Columns.Column.Complete | proc-api/src/main/java/com/kinetica/ProcData.java:792-796 | For BYTES and STRING the arena is truncated to what was appended; other types are untouched. An unmapped arena fails with FileNotMapped. |
| Columns.Column.VarReadBack | proc-api/src/main/java/com/kinetica/ProcData.java:388-432 | In a completed variable-length column built by appends, getVarBytes or getVarString returns each non-null appended value unchanged. |
| Tables.MinRowsLeast | proc-api/src/main/java/com/kinetica/ProcData.java:831-839 | A table's size is the least of its columns' sizes, and one of them; 0 without columns. |
| Tables.RowsSnoc | proc-api/src/main/java/com/kinetica/ProcData.java:836-838 | Adding a column updates the size as the constructor's loop does: the first column, or any smaller one, sets it. |
| Tables.IndexMapLast | proc-api/src/main/java/com/kinetica/ProcData.java:831-834 | The name-to-index map holds exactly the columns' names. Each maps to the last column with that name. |
| Tables.IndexOfName | proc-api/src/main/java/com/kinetica/ProcData.java:872-875 | The lookup is -1 exactly when no column has the name, else the last index with that name. |
| Tables.RepeatStops | proc-api/src/main/java/com/kinetica/ProcData.java:831-834 | Once a column fails to read, reading more columns fails with the same error. |
| Tables.TableOf | proc-api/src/main/java/com/kinetica/ProcData.java:819-842 | A table description is its name and column count, then that many columns read one after another. |
| Tables.FirstFailingCorrect | proc-api/src/main/java/com/kinetica/ProcData.java:904-906 | The loops over columns stop at the first column that fails. Every column before it passes, and the loop finishes exactly when all pass. |
| Tables.ReservedShape | proc-api/src/main/java/com/kinetica/ProcData.java:798-806 | A reserved column has size n, n times the width of zero-extended data and, when nullable, n null bytes. Its arena is untouched. |
| Tables.ReservedIdempotent | proc-api/src/main/java/com/kinetica/ProcData.java:899-909 | Reserving the same size twice is reserving it once. |
| Tables.CompletedShape | proc-api/src/main/java/com/kinetica/ProcData.java:792-796 | Completing cuts a variable-length column's arena at its cursor and leaves other columns alone. Completing twice is completing once. |
| Tables.SetSizeEffect | proc-api/src/main/java/com/kinetica/ProcData.java:899-909 | setSize reserves every column up to the first unmapped one, which stays untouched with all after it. When none fails, every column has the new shape and a second setSize changes nothing. |
| Tables.AllReserved | proc-api/src/main/java/com/kinetica/ProcData.java:899-909 | When every column can be reserved, each ends with size n and the shape n calls for, and setSize is then idempotent. |
| Tables.CompleteEffect | proc-api/src/main/java/com/kinetica/ProcData.java:911-915 | A table's complete truncates every arena up to the first unmapped one, which stays untouched with those after. When none fails, a second complete changes nothing. |
| Tables.AllCompleted | proc-api/src/main/java/com/kinetica/ProcData.java:911-915 | When every column can be completed, each arena is cut at its cursor, and complete is then idempotent. |
| Tables.Table.constructor | proc-api/src/main/java/com/kinetica/ProcData.java:819-842 | A table holds its columns, whose images are those read, and its name-to-index map. |
| Tables.Table.SetSize | proc-api/src/main/java/com/kinetica/ProcData.java:899-909 | A negative size fails with InvalidSize and changes nothing. Otherwise the columns are reserved in order up to the first unmapped one, failing with FileNotMapped there. The table's size is set only on success. |
| Tables.Table.ReserveAll | proc-api/src/main/java/com/kinetica/ProcData.java:904-906 | The columns are reserved in order up to the first failing one. |
| Tables.Table.ReserveColumn | proc-api/src/main/java/com/kinetica/ProcData.java:905 | Reserving one column changes only that column's state. |
| Tables.Table.Complete | proc-api/src/main/java/com/kinetica/ProcData.java:911-915 | complete completes the columns in order up to the first that fails. It fails with FileNotMapped there. |
| Tables.Table.CompleteColumn | proc-api/src/main/java/com/kinetica/ProcData.java:913 | Completing one column changes only that column's state. |
| Tables.Table.GetColumnIndex | proc-api/src/main/java/com/kinetica/ProcData.java:872-875 | getColumnIndex returns -1 exactly when no column has the name, else the last column index with that name. |
| Tables.Table.GetColumn | proc-api/src/main/java/com/kinetica/ProcData.java:867-870 | getColumn(name) returns null exactly when no column has the name, else the column at getColumnIndex. |
| Tables.Table.Open | proc-api/src/main/java/com/kinetica/ProcData.java:819-842 | Reading a table yields exactly the DecodeTable image, or its error. A count outside 0..Integer.MAX_VALUE is InvalidColumnCount. The size is the least column size. |
| Tables.Table.OpenColumnsOf | proc-api/src/main/java/com/kinetica/ProcData.java:831-841 | The counted columns are read in order into a table with that name and the least of their sizes. |
| Tables.OpenColumns | proc-api/src/main/java/com/kinetica/ProcData.java:831-839 | The loop reads count columns, building the column list, the name map and the least size as it goes, or stops with the first error. |
| Tables.OpenNextColumn | proc-api/src/main/java/com/kinetica/ProcData.java:832 | Each column read extends the columns read so far by one, or fails with that column's error. |
| DataSets.DataSetCompleteEffect | proc-api/src/main/java/com/kinetica/ProcData.java:992-996 | A data set's complete completes every table before the first failing one and the failing table as far as it gets. Later tables are untouched. |
| DataSets.TableMapSnoc | proc-api/src/main/java/com/kinetica/ProcData.java:936-939 | Each table read is entered in the name map under its index, the later one winning. |
| DataSets.TablesSnoc | proc-api/src/main/java/com/kinetica/ProcData.java:936-939 | Each table read extends the tables read so far by one. |
| DataSets.TablesFail | proc-api/src/main/java/com/kinetica/ProcData.java:936-939 | A table that fails to read fails the data set with its error. |
| DataSets.DataSet.constructor | proc-api/src/main/java/com/kinetica/ProcData.java:926-943 | A data set holds its tables, whose images are those read, and its name-to-index map. |
| DataSets.DataSet.Open | proc-api/src/main/java/com/kinetica/ProcData.java:926-943 | Reading a data set yields exactly the DecodeDataSet image, or its error. A count outside 0..Integer.MAX_VALUE is InvalidTableCount. |
| DataSets.OpenTables | proc-api/src/main/java/com/kinetica/ProcData.java:934-940 | The loop reads count tables, building the table list and the name map, or stops with the first error. |
| DataSets.DataSet.Complete | proc-api/src/main/java/com/kinetica/ProcData.java:992-996 | complete completes every table in order and fails with FileNotMapped at the first table that fails. |
| DataSets.DataSet.CompleteTable | proc-api/src/main/java/com/kinetica/ProcData.java:994 | Completing one table changes only that table's column states. |
| DataSets.DataSet.GetTableIndex | proc-api/src/main/java/com/kinetica/ProcData.java:965-968 | getTableIndex returns -1 exactly when no table has the name, else the last table index with that name. |
| DataSets.DataSet.GetTable | proc-api/src/main/java/com/kinetica/ProcData.java:960-963 | getTable(name) returns null exactly when no table has the name, else the table at getTableIndex. |
| Session.MapPath | proc-api/src/main/java/com/kinetica/MemoryMappedFile.cpp:35-47 | Mapping a file fails with OpenFailed exactly for an empty path or a missing read-only file. A missing writable file maps empty. |
| Session.DecodeHeader | proc-api/src/main/java/com/kinetica/ProcData.java:1030-1040 | A control file is accepted only at version 1 or 2. The binary parameters are read by readBinaryMap as written. |
| Session.HeaderRoundTrip | proc-api/src/main/java/com/kinetica/ProcData.java:1030-1040 | A head laid out field by field reads back as its version, the two request-information maps merged with the second winning, the parameters and the binary parameters. |
| Session.ReadHeader | proc-api/src/main/java/com/kinetica/ProcData.java:1030-1040 | The head read from the control file, binary parameters included with readBinaryMap as written, is DecodeHeader's, or its error. |
| Session.ReadDataSets | proc-api/src/main/java/com/kinetica/ProcData.java:1041-1042 | The input data set is read with read-only stores and the output data set with writable ones. The two are disjoint. |
| Session.DataSetsOf | proc-api/src/main/java/com/kinetica/ProcData.java:1041-1042 | The input and then the output data set, read in turn, form the decoded pair. |
| Session.DataSetsStopAtInput | proc-api/src/main/java/com/kinetica/ProcData.java:1041 | An input data set that fails to read fails the session with its error. |
| Session.DataSetsStopAtOutput | proc-api/src/main/java/com/kinetica/ProcData.java:1042 | An output data set that fails to read fails the session with its error. |
| Session.ReadTrailer | proc-api/src/main/java/com/kinetica/ProcData.java:1043-1048 | The output control-file name is read. A status file is mapped writable exactly in version 2. |
| Session.ResponseRoundTrip | proc-api/src/main/java/com/kinetica/ProcData.java:1101-1108 | Corrected layout: an answer written with each binary value's length before its bytes reads back as version 1 with the results and binary results. |
| Session.ResponseNoBinaryRoundTrip | proc-api/src/main/java/com/kinetica/ProcData.java:1101-1108 | The answer as complete writes it reads back as version 1 with the results when there are no binary results. |
| Session.ResponseAsWrittenNotInverse | proc-api/src/main/java/com/kinetica/ProcData.java:1105-1107 | With one binary result whose bytes start with a length above Integer.MAX_VALUE, the answer as complete writes it does not read back: DecodeResponse fails with InvalidValueLength. |
| Session.WriteResponse | proc-api/src/main/java/com/kinetica/ProcData.java:1104-1107 | The answer file starts with version 1, the string map of results and the binary map as writeBinaryMap writes it (values without lengths), each in an enumeration order of its map. With no binary results, DecodeResponse returns exactly version 1 and the results. |
| Session.ProcData.constructor | proc-api/src/main/java/com/kinetica/ProcData.java:1020-1052 | A session holds what was read. Its results and binary results start empty. |
| Session.ProcData.Open | proc-api/src/main/java/com/kinetica/ProcData.java:1020-1052 | No configured control file fails with MissingControlFile. Otherwise the session is exactly what OpenSession decodes from the file, or fails with its error, and the results start empty. |
| Session.ProcData.ReadControl | proc-api/src/main/java/com/kinetica/ProcData.java:1030-1048 | Reading a mapped control file from its start yields exactly DecodeControl's image. |
| Session.ProcData.ReadBody | proc-api/src/main/java/com/kinetica/ProcData.java:1041-1048 | What follows the head is the two data sets, then the tail. |
| Session.ProcData.ReadTail | proc-api/src/main/java/com/kinetica/ProcData.java:1043-1048 | The tail completes the session with the data sets already read. |
| Session.ProcData.CompleteOutput | proc-api/src/main/java/com/kinetica/ProcData.java:1102 | The output data set is completed as DataSet.Complete states, keeping the session valid. |
| Session.ProcData.Complete | proc-api/src/main/java/com/kinetica/ProcData.java:1101-1108 | complete completes the output data set, failing with FileNotMapped at the first table that fails. It then maps the output control file writable, failing with OpenFailed for an empty name. The answer file is laid out as WriteResponse states, and with no binary results it reads back as version 1 with the results. |

## Left out

- Floating point: getDouble, getFloat, setDouble, setFloat, appendDouble and appendFloat (ProcData.java:291-313, 613-631, 716-728), and the positional float and double reads and writes. The model has no IEEE floats.
- toString (ProcData.java:434-474) formats values for display. It computes no state.
- setStatus, getStatus and the status file's contents after the session is opened (ProcData.java:1082-1099). The status file is mapped but never written here.
- seek, lock and unlock (MemoryMappedFile.java:31, 174-175): file locking and concurrency are not modelled.
- The singleton get() (ProcData.java:1001-1007) caches one session per process. Open models the private constructor it calls.
- The trivial getters (getName, getType, getSize, getColumns, getTables, getRequestInfo, getParams and the others) return fields. The unmodifiable-collection wrappers are not modelled.
- The environment variable KINETICA_PCF is the `controlFileName` parameter. The file system is the `files` parameter, which is not updated when a writable file is created.
- Operating-system failures (open, fstat, ftruncate, mmap) are not modelled: only a missing path fails to open. The page size is fixed at 4096, and host byte order is fixed as little-endian.
- Codec.GetString: readString on a writable store, which can grow it through ensure, is not modelled. The control file is read read-only.
- Strings are UTF-8 byte sequences. Decoding and encoding them as Java strings is not modelled.
- Java's `long` overflow in `index * width` and `size * width` is not modelled. Indexes are checked against the size first, and sizes are unbounded integers.
- Calendars are given as UTC fields. GregorianCalendar's time-zone conversion, lenient normalisation and proleptic Gregorian change are not modelled.
- Columns.Column.GetCalendar: its contract states the checks and the null case. The value is stated by SetCalendar and AppendCalendar (what the type keeps) and by the Encodings round trips.
- Columns.Column.SetChar: it states the stored CHARn cell. The value reads back (CharReadsBack) only when it fits the field and does not end in a zero byte.
- Columns.Column.AppendChar: same as SetChar.
- Columns.Column.SetInet4Address: the address reads back only when octets 1 to 3 are below 128, because the octets are sign-extended before they are OR-ed (Encodings.AddressHighOctet). The column keeps the packing as written. Encodings.EncodeAddressMasked is the corrected packing, and Encodings.AddressMaskedRoundTrip proves it reads back for every address.
- Columns.Column.AppendInet4Address: same as SetInet4Address.
- Columns.Column.AppendVar: requires the arena cursor to fit a Java long, which a mapped file always does.
- Columns.Column.AppendVarBytes: models the corrected order, with the slot written after handleNull's checks. The source's order is AppendVarAsWritten. It requires the arena cursor to fit a Java long, as AppendVar does.
- Columns.Column.AppendVarString: the corrected order and the requirement, as for AppendVarBytes.
- Session.ProcData.Complete: the read-back is stated only for empty binary results, because with binary results the answer as written does not read back (see Findings).
- Session.WriteResponse: the same as Complete.
- Aliasing between stores: every column's three stores are distinct objects, and tables and data sets own disjoint columns. Two columns sharing one file are not modelled.
- Codec.WriteStringMap: the order in which a Java HashMap is enumerated is a ghost result. The contract states it is some enumeration of the map.
- Codec.WriteBinaryMap: same as WriteStringMap.
- Codec.WriteBinaryMapWithLengths: same as WriteStringMap.

## Findings

| source | as written | input that shows it | evidently intended | confidence | as-written member | corrected member |
|---|---|---|---|---|---|---|
| proc-api/src/main/java/com/kinetica/MemoryMappedFile.java:119-126 | writeBinaryMap writes each value's bytes with no length before them, while readBinaryMap reads a length before each value. | The map {"" -> [0,0,0,0,1,0,0,0]}: the reader takes the value bytes as a length of 2^32 and runs past the end of the file. | Write each value's length before its bytes, so that a binary map read back is the one written. | not executed | Codec.BinaryMapAsWrittenNotInverse | Codec.GetBinaryMapPlaced |
| proc-api/src/main/java/com/kinetica/ProcData.java:1105-1107 | complete writes the binary results with writeBinaryMap, so the answer file holds no value lengths. | One binary result whose bytes start with 8 bytes encoding more than Integer.MAX_VALUE: the answer does not read back. | The answer reads back with its binary results, as it does with its results. | not executed | Session.ResponseAsWrittenNotInverse | Session.ResponseRoundTrip |
| proc-api/src/main/java/com/kinetica/MemoryMappedFile.java:48-50 | The guard inside readBinaryMap's loop tests the entry count `length`, not `valueLength`, so it never fires. | A value length of 2^31: it passes the guard, and the cast to int makes the allocation size negative. A value length of 2^32 allocates an empty array, and the native read then runs past the end of the file or past the array. | Reject a value length above Integer.MAX_VALUE with "Invalid binary value length". | not executed | Codec.ValueLengthAsWritten | Codec.GetBinaryValue |
| proc-api/src/main/java/com/kinetica/ProcData.java:758-790 | appendVarBytes and appendVarString write the offset slot at `pos * 8` before handleNull checks the index. | An append at pos == size: the slot write lands outside the mapped data file before the check rejects the row. | Check the row first and write nothing when the check fails. | not executed | Columns.Column.AppendVarAsWritten | Columns.Column.AppendVar |
| proc-api/src/main/java/com/kinetica/ProcData.java:640 | setInet4Address ORs the address bytes after Java promotes each signed byte to an int, so an octet of 128 or more sign-extends into every octet above it. | The address 0.0.0.128 is stored as -128 and read back as 255.255.255.128. Likewise 192.168.0.1 reads back as 255.168.0.1, because its second octet 168 is a negative Java byte. | Mask each octet with `& 0xFF` before shifting, so that every address reads back. | not executed | Encodings.AddressHighOctet | Encodings.AddressMaskedRoundTrip |
