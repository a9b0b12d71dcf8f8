/**
 * The length-prefixed codec of the store's Java side: strings, string maps and
 * binary maps read from and written to the store's cursor.
 *
 * A Java string is represented by its UTF-8 bytes (RFC 3629), so `Text` is a byte
 * sequence no longer than a Java array can be.  A string is an 8-byte length followed
 * by that many bytes; a map is an 8-byte entry count followed by the entries.  Reading
 * a map merges its entries into a map the caller passes in, so a later key overwrites
 * an earlier one.
 */
module Codec {
  import opened Wrappers
  import opened Bytes
  import opened Store
  import Bits

  type Text = t: seq<byte> | |t| <= INT_MAX

  /** A key and its value, in the order a writer visits them. */
  type Entry = (Text, Text)

  /** `order` lists every key of `m` exactly once: an iteration order of the map. */
  ghost predicate Enumerates(order: seq<Text>, m: map<Text, Text>) {
    && (forall i, j :: 0 <= i < j < |order| ==> order[i] != order[j])
    && (forall i :: 0 <= i < |order| ==> order[i] in m)
    && (forall k :: k in m ==> k in order)
  }

  /** The entries of `m` in the order `order` visits its keys. */
  function Listing(order: seq<Text>, m: map<Text, Text>): (r: seq<Entry>)
    requires forall i :: 0 <= i < |order| ==> order[i] in m
    ensures |r| == |order|
    ensures forall i :: 0 <= i < |order| ==> r[i] == (order[i], m[order[i]])
  {
    seq(|order|, i requires 0 <= i < |order| => (order[i], m[order[i]]))
  }

  /** `acc` with each entry put into it in turn. */
  function Merged(acc: map<Text, Text>, es: seq<Entry>): map<Text, Text>
    decreases |es|
  {
    if es == [] then acc else Merged(acc[es[0].0 := es[0].1], es[1..])
  }

  function EncodeString(t: Text): (r: seq<byte>)
    ensures |r| == 8 + |t|
  {
    EncodeLong(|t|) + t
  }

  /** Each key followed by its value, both as length-prefixed strings. */
  function EncodeEntries(es: seq<Entry>): seq<byte>
  {
    if es == [] then [] else EncodeString(es[0].0) + EncodeString(es[0].1) + EncodeEntries(es[1..])
  }

  /** The bytes writeStringMap emits when it visits the keys of `m` in `order`. */
  function EncodeStringMap(m: map<Text, Text>, order: seq<Text>): seq<byte>
    requires |m| <= INT_MAX && forall i :: 0 <= i < |order| ==> order[i] in m
  {
    EncodeLong(|m|) + EncodeEntries(Listing(order, m))
  }

  /** The entries as writeBinaryMap emits them: each value's bytes follow its key with no length. */
  function EncodeBinaryEntriesAsWritten(es: seq<Entry>): seq<byte>
  {
    if es == [] then [] else EncodeString(es[0].0) + es[0].1 + EncodeBinaryEntriesAsWritten(es[1..])
  }

  function EncodeBinaryMapAsWritten(m: map<Text, Text>, order: seq<Text>): seq<byte>
    requires |m| <= INT_MAX && forall i :: 0 <= i < |order| ==> order[i] in m
  {
    EncodeLong(|m|) + EncodeBinaryEntriesAsWritten(Listing(order, m))
  }

  lemma {:induction false} EncodeEntriesSnoc(es: seq<Entry>, e: Entry)
    ensures EncodeEntries(es + [e]) == EncodeEntries(es) + EncodeString(e.0) + EncodeString(e.1)
  {
    if es == [] {
      assert es + [e] == [e];
    } else {
      var head := EncodeString(es[0].0) + EncodeString(es[0].1);
      var tail := EncodeString(e.0) + EncodeString(e.1);
      assert (es + [e])[1..] == es[1..] + [e];
      assert EncodeEntries(es + [e]) == head + EncodeEntries(es[1..] + [e]);
      EncodeEntriesSnoc(es[1..], e);
      assert EncodeEntries(es[1..] + [e]) == EncodeEntries(es[1..]) + tail;
      assert head + (EncodeEntries(es[1..]) + tail) == (head + EncodeEntries(es[1..])) + tail;
      assert EncodeEntries(es) == head + EncodeEntries(es[1..]);
    }
  }

  lemma {:induction false} BinaryEntriesSnoc(es: seq<Entry>, e: Entry)
    ensures EncodeBinaryEntriesAsWritten(es + [e]) == EncodeBinaryEntriesAsWritten(es) + EncodeString(e.0) + e.1
  {
    if es == [] {
      assert es + [e] == [e];
    } else {
      assert (es + [e])[1..] == es[1..] + [e];
      BinaryEntriesSnoc(es[1..], e);
    }
  }

  /** The entries of `m` whose keys `order` lists. */
  function Restrict(m: map<Text, Text>, order: seq<Text>): map<Text, Text>
  {
    map k | k in m && k in order :: m[k]
  }

  lemma RestrictCons(acc: map<Text, Text>, m: map<Text, Text>, order: seq<Text>)
    requires order != [] && order[0] in m
    ensures acc[order[0] := m[order[0]]] + Restrict(m, order[1..]) == acc + Restrict(m, order)
  {
    assert forall j :: j in order <==> j == order[0] || j in order[1..];
  }

  /** Visiting the keys of `m` in any iteration order and merging their entries adds `m`. */
  lemma MergedListing(acc: map<Text, Text>, order: seq<Text>, m: map<Text, Text>)
    requires Enumerates(order, m)
    ensures Merged(acc, Listing(order, m)) == acc + m
  {
    MergedRestricted(acc, order, m);
    assert Restrict(m, order) == m;
  }

  lemma {:induction false} MergedRestricted(acc: map<Text, Text>, order: seq<Text>, m: map<Text, Text>)
    requires forall i :: 0 <= i < |order| ==> order[i] in m
    ensures Merged(acc, Listing(order, m)) == acc + Restrict(m, order)
    decreases |order|
  {
    if order == [] {
      assert Restrict(m, order) == map[];
    } else {
      var k, rest := order[0], order[1..];
      assert Merged(acc, Listing(order, m)) == Merged(acc[k := m[k]], Listing(rest, m)) by {
        assert Listing(order, m)[1..] == Listing(rest, m);
      }
      MergedRestricted(acc[k := m[k]], rest, m);
      RestrictCons(acc, m, order);
    }
  }

  /** The 8-byte integer at `p` of a read-only view. */
  function LongAt(view: seq<byte>, p: nat): (r: Result<int64>)
    ensures r.Err? <==> p + 8 > |view|
    ensures r.Err? ==> r.error == EndOfFile
  {
    if p + 8 <= |view| then Ok(DecodeLong(view[p..p + 8])) else Err(EndOfFile)
  }

  /** Java's `(int)` cast leaves a length inside the int range unchanged. */
  lemma CastIdentity(n: int)
    ensures 0 <= n <= INT_MAX ==> ToInt32(n) == n
  {
    if 0 <= n <= INT_MAX {
      ToInt32Identity(n);
    }
  }

  /** Java's `(int)` cast of 2^31 is the most negative int, and of 2^32 and -2^32 is 0. */
  lemma CastWraps()
    ensures ToInt32(0x8000_0000) == -0x8000_0000
    ensures ToInt32(0x1_0000_0000) == 0 && ToInt32(-0x1_0000_0000) == 0
  {
    Pow256Widths();
    Bits.WrapCongruent(0x8000_0000, -0x8000_0000, 4);
    Bits.WrapCongruent(0x1_0000_0000, 0, 4);
    Bits.WrapCongruent(-0x1_0000_0000, 0, 4);
    WrapInRange(-0x8000_0000, 4);
    WrapInRange(0, 4);
  }

  /**
   * `new byte[(int)n]` and then read(buffer, n), the length having been read just before
   * `q`.  The array is allocated with the low 32 bits of `n` as a Java int, so a negative
   * int fails the allocation.  The native read takes `n` as an unsigned 64-bit size:
   * ensure compares `q + n` modulo 2^64 with the size (no file reaches 2^63 bytes), and
   * the copy moves `n` bytes whatever the array's length.
   */
  function GetCast(view: seq<byte>, q: nat, n: int64): (r: Result<(Text, nat)>)
    ensures r.Ok? <==> 0 <= n <= INT_MAX && q + n <= |view|
    ensures r.Ok? ==> |r.value.0| == n && r.value.1 == q + n <= |view| && r.value.0 == view[q..r.value.1]
    ensures r.Err? ==> r.error in {EndOfFile, NegativeLength, ArrayOverrun}
  {
    CastIdentity(n);
    var length := ToInt32(n);
    if length < 0 then Err(NegativeLength)
    else if n < 0 then (if q + n >= 0 then Err(ArrayOverrun) else Err(EndOfFile))
    else if q + n > |view| then Err(EndOfFile)
    else if n != length then Err(ArrayOverrun)
    else Ok((view[q..q + n], q + n))
  }

  /**
   * readString on a read-only view: an 8-byte length, rejected above Integer.MAX_VALUE,
   * then the array allocation and the read of that many bytes.  The result carries the
   * position after them.
   */
  function GetString(view: seq<byte>, p: nat): (r: Result<(Text, nat)>)
    ensures r.Ok? ==> r.value.1 == p + 8 + |r.value.0| <= |view|
    ensures r.Ok? ==> LongAt(view, p) == Ok(|r.value.0|) && r.value.0 == view[p + 8..r.value.1]
    ensures LongAt(view, p).Ok? && LongAt(view, p).value > INT_MAX ==> r == Err(InvalidStringLength)
    ensures r.Err? ==> r.error in {EndOfFile, InvalidStringLength, NegativeLength, ArrayOverrun}
  {
    var len :- LongAt(view, p);
    if len > INT_MAX then Err(InvalidStringLength) else GetCast(view, p + 8, len)
  }

  /**
   * A string length of -2^32 passes the guard and allocates an empty array; the native
   * read takes it as 2^64 - 2^32 bytes, which ensure lets through once the sum wraps back
   * inside the file, so the copy overruns the array.
   */
  lemma StringLengthCast(view: seq<byte>, p: nat)
    requires LongAt(view, p) == Ok(-0x1_0000_0000)
    ensures GetString(view, p) == if p + 8 >= 0x1_0000_0000 then Err(ArrayOverrun) else Err(EndOfFile)
  {
    CastWraps();
  }

  /** One entry of a string map: a key string, then a value string. */
  function GetStringEntry(view: seq<byte>, p: nat): (r: Result<(Entry, nat)>)
  {
    var (key, p1) :- GetString(view, p);
    var (value, p2) :- GetString(view, p1);
    Ok(((key, value), p2))
  }

  /** The `count` key/value string pairs of a string map, each merged into `acc` in turn. */
  function GetStringEntries(view: seq<byte>, p: nat, count: nat, acc: map<Text, Text>): (res: Result<(map<Text, Text>, nat)>)
    decreases count
  {
    if count == 0 then Ok((acc, p))
    else
      var r := GetStringEntry(view, p);
      if r.Err? then Err(r.error)
      else GetStringEntries(view, r.value.1, count - 1, acc[r.value.0.0 := r.value.0.1])
  }

  /** readStringMap(acc): an entry count, rejected above Integer.MAX_VALUE; a count <= 0 reads nothing. */
  function GetStringMap(view: seq<byte>, p: nat, acc: map<Text, Text>): (r: Result<(map<Text, Text>, nat)>)
  {
    var count :- LongAt(view, p);
    if count > INT_MAX then Err(InvalidMapLength)
    else GetStringEntries(view, p + 8, if count > 0 then count else 0, acc)
  }

  /**
   * The check readBinaryMap makes on each value length, as written: it tests the number
   * of entries still to read instead of the value length.
   */
  predicate ValueGuardAsWritten(remaining: int, valueLength: int) {
    remaining > INT_MAX
  }

  /** The evidently intended check: the value length itself must fit a Java array. */
  predicate ValueLengthRejected(valueLength: int) {
    valueLength > INT_MAX
  }

  /**
   * One value as readBinaryMap reads it, with `remaining` entries (this one included)
   * still to read: the 8-byte length, the guard on the entry count, then the array
   * allocation and the read.
   */
  function GetBinaryValueAsWritten(view: seq<byte>, p: nat, remaining: int): (r: Result<(Text, nat)>)
    ensures r.Ok? ==> r.value.1 == p + 8 + |r.value.0| <= |view|
    ensures r.Ok? ==> LongAt(view, p) == Ok(|r.value.0|) && r.value.0 == view[p + 8..r.value.1]
    ensures r.Err? ==> r.error in {EndOfFile, InvalidValueLength, NegativeLength, ArrayOverrun}
  {
    var len :- LongAt(view, p);
    if ValueGuardAsWritten(remaining, len) then Err(InvalidValueLength) else GetCast(view, p + 8, len)
  }

  /** The `count` entries of readBinaryMap as written: a string key, then a value. */
  function GetBinaryEntriesAsWritten(view: seq<byte>, p: nat, count: nat, acc: map<Text, Text>): (res: Result<(map<Text, Text>, nat)>)
    decreases count
  {
    if count == 0 then Ok((acc, p))
    else
      var (key, p1) :- GetString(view, p);
      var (value, p2) :- GetBinaryValueAsWritten(view, p1, count);
      GetBinaryEntriesAsWritten(view, p2, count - 1, acc[key := value])
  }

  /** readBinaryMap(acc) as written. */
  function GetBinaryMapAsWritten(view: seq<byte>, p: nat, acc: map<Text, Text>): (r: Result<(map<Text, Text>, nat)>)
  {
    var count :- LongAt(view, p);
    if count > INT_MAX then Err(InvalidMapLength)
    else GetBinaryEntriesAsWritten(view, p + 8, if count > 0 then count else 0, acc)
  }

  /** One binary value: an 8-byte length, rejected by the corrected guard, then the allocation and the read. */
  function GetBinaryValue(view: seq<byte>, p: nat): (r: Result<(Text, nat)>)
    ensures r.Ok? ==> r.value.1 == p + 8 + |r.value.0| <= |view|
    ensures r.Ok? ==> LongAt(view, p) == Ok(|r.value.0|) && r.value.0 == view[p + 8..r.value.1]
    ensures LongAt(view, p).Ok? && ValueLengthRejected(LongAt(view, p).value) ==> r == Err(InvalidValueLength)
    ensures r.Err? ==> r.error in {EndOfFile, InvalidValueLength, NegativeLength, ArrayOverrun}
  {
    var len :- LongAt(view, p);
    if ValueLengthRejected(len) then Err(InvalidValueLength) else GetCast(view, p + 8, len)
  }

  /** One entry of a binary map: a key string, then a binary value. */
  function GetBinaryEntry(view: seq<byte>, p: nat): (r: Result<(Entry, nat)>)
  {
    var (key, p1) :- GetString(view, p);
    var (value, p2) :- GetBinaryValue(view, p1);
    Ok(((key, value), p2))
  }

  /** The `count` entries of a binary map: a string key, then a binary value. */
  function GetBinaryEntries(view: seq<byte>, p: nat, count: nat, acc: map<Text, Text>): (res: Result<(map<Text, Text>, nat)>)
    decreases count
  {
    if count == 0 then Ok((acc, p))
    else
      var r := GetBinaryEntry(view, p);
      if r.Err? then Err(r.error)
      else GetBinaryEntries(view, r.value.1, count - 1, acc[r.value.0.0 := r.value.0.1])
  }

  /** readBinaryMap(acc), with the value-length guard corrected. */
  function GetBinaryMap(view: seq<byte>, p: nat, acc: map<Text, Text>): (r: Result<(map<Text, Text>, nat)>)
  {
    var count :- LongAt(view, p);
    if count > INT_MAX then Err(InvalidMapLength)
    else GetBinaryEntries(view, p + 8, if count > 0 then count else 0, acc)
  }

  /**
   * readBinaryMap's value-length guard never fires: inside the loop the number of entries
   * still to read is at most Integer.MAX_VALUE, so the reader as written never fails with
   * InvalidValueLength, whatever the bytes.
   */
  lemma BinaryValueGuardIneffective(view: seq<byte>, p: nat, acc: map<Text, Text>)
    ensures GetBinaryMapAsWritten(view, p, acc).Err? ==> GetBinaryMapAsWritten(view, p, acc).error != InvalidValueLength
  {
    var count := LongAt(view, p);
    if count.Ok? && count.value <= INT_MAX {
      EntriesGuardIneffective(view, p + 8, if count.value > 0 then count.value else 0, acc);
    }
  }

  lemma {:induction false} EntriesGuardIneffective(view: seq<byte>, p: nat, count: nat, acc: map<Text, Text>)
    requires count <= INT_MAX
    ensures GetBinaryEntriesAsWritten(view, p, count, acc).Err? ==> GetBinaryEntriesAsWritten(view, p, count, acc).error != InvalidValueLength
    decreases count
  {
    if count > 0 {
      var key := GetString(view, p);
      if key.Ok? {
        var value := GetBinaryValueAsWritten(view, key.value.1, count);
        if value.Ok? {
          EntriesGuardIneffective(view, value.value.1, count - 1, acc[key.value.0 := value.value.0]);
        }
      }
    }
  }

  /**
   * readBinaryMap as written and with the corrected guard accept the same files and
   * return the same map and end: they differ only in the error a value length above
   * Integer.MAX_VALUE raises.
   */
  lemma BinaryMapReadersAgree(view: seq<byte>, p: nat, acc: map<Text, Text>)
    ensures GetBinaryMapAsWritten(view, p, acc).Ok? <==> GetBinaryMap(view, p, acc).Ok?
    ensures GetBinaryMapAsWritten(view, p, acc).Ok? ==> GetBinaryMapAsWritten(view, p, acc) == GetBinaryMap(view, p, acc)
  {
    var count := LongAt(view, p);
    if count.Ok? && count.value <= INT_MAX {
      EntriesReadersAgree(view, p + 8, if count.value > 0 then count.value else 0, acc);
    }
  }

  lemma {:induction false} EntriesReadersAgree(view: seq<byte>, p: nat, count: nat, acc: map<Text, Text>)
    requires count <= INT_MAX
    ensures GetBinaryEntriesAsWritten(view, p, count, acc).Ok? <==> GetBinaryEntries(view, p, count, acc).Ok?
    ensures GetBinaryEntriesAsWritten(view, p, count, acc).Ok? ==>
              GetBinaryEntriesAsWritten(view, p, count, acc) == GetBinaryEntries(view, p, count, acc)
    decreases count
  {
    if count > 0 {
      var key := GetString(view, p);
      if key.Ok? {
        var q := key.value.1;
        ValueReadersAgree(view, q, count);
        var value := GetBinaryValue(view, q);
        if value.Ok? {
          EntriesReadersAgree(view, value.value.1, count - 1, acc[key.value.0 := value.value.0]);
        }
      }
    }
  }

  /** One value: the guard as written lets through only lengths the cast and the read then reject or accept alike. */
  lemma ValueReadersAgree(view: seq<byte>, p: nat, remaining: int)
    requires 0 < remaining <= INT_MAX
    ensures GetBinaryValueAsWritten(view, p, remaining).Ok? <==> GetBinaryValue(view, p).Ok?
    ensures GetBinaryValueAsWritten(view, p, remaining).Ok? ==> GetBinaryValueAsWritten(view, p, remaining) == GetBinaryValue(view, p)
  {
  }

  /**
   * A value length of 2^31 passes readBinaryMap's guard and reaches `new byte[(int)2^31]`,
   * a negative size.  One of 2^32 allocates an empty array and asks the native read for
   * 2^32 bytes: the end of the file, or a copy past the array.  The intended guard rejects
   * both.
   */
  lemma ValueLengthAsWritten(view: seq<byte>, p: nat, remaining: int)
    requires 0 < remaining <= INT_MAX
    ensures LongAt(view, p) == Ok(0x8000_0000) ==>
              GetBinaryValueAsWritten(view, p, remaining) == Err(NegativeLength)
              && GetBinaryValue(view, p) == Err(InvalidValueLength)
    ensures LongAt(view, p) == Ok(0x1_0000_0000) ==>
              GetBinaryValueAsWritten(view, p, remaining)
                == (if p + 8 + 0x1_0000_0000 > |view| then Err(EndOfFile) else Err(ArrayOverrun))
              && GetBinaryValue(view, p) == Err(InvalidValueLength)
  {
    CastWraps();
  }

  /** A string and a binary value are read alike whenever the string reader accepts. */
  lemma BinaryValueAsString(view: seq<byte>, p: nat)
    requires GetString(view, p).Ok?
    ensures GetBinaryValue(view, p) == GetString(view, p)
  {
  }

  /** `e` sits in `view` from `p` on. */
  predicate Within(view: seq<byte>, p: nat, e: seq<byte>) {
    p + |e| <= |view| && view[p..p + |e|] == e
  }

  lemma WithinSplit(view: seq<byte>, p: nat, a: seq<byte>, b: seq<byte>)
    requires Within(view, p, a + b)
    ensures Within(view, p, a) && Within(view, p + |a|, b)
  {
    assert view[p..p + |a|] == view[p..p + |a + b|][..|a|];
    assert view[p + |a|..p + |a| + |b|] == view[p..p + |a + b|][|a|..];
  }

  /** A long found at `p` is read back. */
  lemma LongPlaced(view: seq<byte>, p: nat, x: int64)
    requires Within(view, p, EncodeLong(x))
    ensures LongAt(view, p) == Ok(x)
  {
    DecodeEncodeLong(x);
  }

  /** A length-prefixed string found at `p` is read back whole. */
  lemma GetStringPlaced(view: seq<byte>, p: nat, t: Text)
    requires Within(view, p, EncodeString(t))
    ensures GetString(view, p) == Ok((t, p + 8 + |t|))
  {
    WithinSplit(view, p, EncodeLong(|t|), t);
    LongPlaced(view, p, |t|);
    CastIdentity(|t|);
  }

  /** The first entry's key and value strings, then the remaining entries. */
  lemma EntriesSplit(view: seq<byte>, p: nat, es: seq<Entry>, q: nat)
    requires es != [] && Within(view, p, EncodeEntries(es)) && q == p + 8 + |es[0].0| + 8 + |es[0].1|
    ensures Within(view, p, EncodeString(es[0].0) + EncodeString(es[0].1))
    ensures Within(view, q, EncodeEntries(es[1..]))
  {
    var pair, rest := EncodeString(es[0].0) + EncodeString(es[0].1), EncodeEntries(es[1..]);
    assert EncodeEntries(es) == pair + rest;
    WithinSplit(view, p, pair, rest);
  }

  /** A key and a value found at `p` are read back as one entry, by either map reader. */
  lemma EntryPlaced(view: seq<byte>, p: nat, k: Text, v: Text, q: nat)
    requires Within(view, p, EncodeString(k) + EncodeString(v)) && q == p + 8 + |k| + 8 + |v|
    ensures GetStringEntry(view, p) == Ok(((k, v), q))
    ensures GetBinaryEntry(view, p) == Ok(((k, v), q))
  {
    WithinSplit(view, p, EncodeString(k), EncodeString(v));
    StringEntryPlaced(view, p, k, v);
    BinaryEntryPlaced(view, p, k, v);
  }

  /** A key and a value found at `p` are read back as one string-map entry. */
  lemma StringEntryPlaced(view: seq<byte>, p: nat, k: Text, v: Text)
    requires Within(view, p, EncodeString(k)) && Within(view, p + 8 + |k|, EncodeString(v))
    ensures GetStringEntry(view, p) == Ok(((k, v), p + 8 + |k| + 8 + |v|))
  {
    GetStringPlaced(view, p, k);
    GetStringPlaced(view, p + 8 + |k|, v);
  }

  /** A key and a value with its length found at `p` are read back as one binary-map entry. */
  lemma BinaryEntryPlaced(view: seq<byte>, p: nat, k: Text, v: Text)
    requires Within(view, p, EncodeString(k)) && Within(view, p + 8 + |k|, EncodeString(v))
    ensures GetBinaryEntry(view, p) == Ok(((k, v), p + 8 + |k| + 8 + |v|))
  {
    GetStringPlaced(view, p, k);
    GetStringPlaced(view, p + 8 + |k|, v);
    BinaryValueAsString(view, p + 8 + |k|);
  }

  /** From `p` on, the string-map reader reads back each entry in turn. */
  ghost predicate StringLaid(view: seq<byte>, p: nat, es: seq<Entry>)
    decreases |es|
  {
    if es == [] then true
    else
      var q := p + 8 + |es[0].0| + 8 + |es[0].1|;
      GetStringEntry(view, p) == Ok(((es[0].0, es[0].1), q)) && StringLaid(view, q, es[1..])
  }

  /** From `p` on, the binary-map reader reads back each entry in turn. */
  ghost predicate BinaryLaid(view: seq<byte>, p: nat, es: seq<Entry>)
    decreases |es|
  {
    if es == [] then true
    else
      var q := p + 8 + |es[0].0| + 8 + |es[0].1|;
      GetBinaryEntry(view, p) == Ok(((es[0].0, es[0].1), q)) && BinaryLaid(view, q, es[1..])
  }

  /** The position after the entries laid from `p` on. */
  function EntriesEnd(p: nat, es: seq<Entry>): nat
    decreases |es|
  {
    if es == [] then p else EntriesEnd(p + 8 + |es[0].0| + 8 + |es[0].1|, es[1..])
  }

  lemma {:induction false} EntriesStringLaid(view: seq<byte>, p: nat, es: seq<Entry>)
    requires Within(view, p, EncodeEntries(es))
    ensures StringLaid(view, p, es)
    decreases |es|
  {
    if es != [] {
      var q := p + 8 + |es[0].0| + 8 + |es[0].1|;
      EntriesSplit(view, p, es, q);
      EntryPlaced(view, p, es[0].0, es[0].1, q);
      EntriesStringLaid(view, q, es[1..]);
    }
  }

  lemma {:induction false} EntriesBinaryLaid(view: seq<byte>, p: nat, es: seq<Entry>)
    requires Within(view, p, EncodeEntries(es))
    ensures BinaryLaid(view, p, es)
    decreases |es|
  {
    if es != [] {
      var q := p + 8 + |es[0].0| + 8 + |es[0].1|;
      EntriesSplit(view, p, es, q);
      EntryPlaced(view, p, es[0].0, es[0].1, q);
      EntriesBinaryLaid(view, q, es[1..]);
    }
  }

  lemma {:induction false} EntriesEndSize(p: nat, es: seq<Entry>)
    ensures EntriesEnd(p, es) == p + |EncodeEntries(es)|
    decreases |es|
  {
    if es != [] {
      EntriesEndSize(p + 8 + |es[0].0| + 8 + |es[0].1|, es[1..]);
    }
  }

  /** One entry read at `p` leaves the rest of the entries to read from where it ends. */
  lemma StringEntriesStep(view: seq<byte>, p: nat, es: seq<Entry>, count: nat, acc: map<Text, Text>, q: nat)
    requires es != [] && count == |es| && q == p + 8 + |es[0].0| + 8 + |es[0].1|
    requires GetStringEntry(view, p) == Ok(((es[0].0, es[0].1), q))
    ensures GetStringEntries(view, p, count, acc) == GetStringEntries(view, q, count - 1, acc[es[0].0 := es[0].1])
    ensures Merged(acc, es) == Merged(acc[es[0].0 := es[0].1], es[1..]) && EntriesEnd(p, es) == EntriesEnd(q, es[1..])
  {
  }

  lemma {:induction false} LaidStringEntries(view: seq<byte>, p: nat, es: seq<Entry>, count: nat, acc: map<Text, Text>)
    requires count == |es| && StringLaid(view, p, es)
    ensures GetStringEntries(view, p, count, acc) == Ok((Merged(acc, es), EntriesEnd(p, es)))
    decreases count
  {
    if es != [] {
      var k, v := es[0].0, es[0].1;
      var q := p + 8 + |k| + 8 + |v|;
      StringEntriesStep(view, p, es, count, acc, q);
      LaidStringEntries(view, q, es[1..], count - 1, acc[k := v]);
    }
  }

  /** One entry read at `p` leaves the rest of the entries to read from where it ends. */
  lemma BinaryEntriesStep(view: seq<byte>, p: nat, es: seq<Entry>, count: nat, acc: map<Text, Text>, q: nat)
    requires es != [] && count == |es| && q == p + 8 + |es[0].0| + 8 + |es[0].1|
    requires GetBinaryEntry(view, p) == Ok(((es[0].0, es[0].1), q))
    ensures GetBinaryEntries(view, p, count, acc) == GetBinaryEntries(view, q, count - 1, acc[es[0].0 := es[0].1])
    ensures Merged(acc, es) == Merged(acc[es[0].0 := es[0].1], es[1..]) && EntriesEnd(p, es) == EntriesEnd(q, es[1..])
  {
  }

  lemma {:induction false} LaidBinaryEntries(view: seq<byte>, p: nat, es: seq<Entry>, count: nat, acc: map<Text, Text>)
    requires count == |es| && BinaryLaid(view, p, es)
    ensures GetBinaryEntries(view, p, count, acc) == Ok((Merged(acc, es), EntriesEnd(p, es)))
    decreases count
  {
    if es != [] {
      var k, v := es[0].0, es[0].1;
      var q := p + 8 + |k| + 8 + |v|;
      BinaryEntriesStep(view, p, es, count, acc, q);
      LaidBinaryEntries(view, q, es[1..], count - 1, acc[k := v]);
    }
  }

  /** Entries found at `p` are read back by merging them, one after the other, into `acc`. */
  lemma GetStringEntriesPlaced(view: seq<byte>, p: nat, es: seq<Entry>, count: nat, acc: map<Text, Text>)
    requires count == |es| && Within(view, p, EncodeEntries(es))
    ensures GetStringEntries(view, p, count, acc).Ok?
    ensures GetStringEntries(view, p, count, acc).value.0 == Merged(acc, es)
    ensures GetStringEntries(view, p, count, acc).value.1 == p + |EncodeEntries(es)|
  {
    EntriesStringLaid(view, p, es);
    EntriesEndSize(p, es);
    LaidStringEntries(view, p, es, count, acc);
  }

  /** The same entries read back through the binary-map reader: each value length is present. */
  lemma GetBinaryEntriesPlaced(view: seq<byte>, p: nat, es: seq<Entry>, count: nat, acc: map<Text, Text>)
    requires count == |es| && Within(view, p, EncodeEntries(es))
    ensures GetBinaryEntries(view, p, count, acc).Ok?
    ensures GetBinaryEntries(view, p, count, acc).value.0 == Merged(acc, es)
    ensures GetBinaryEntries(view, p, count, acc).value.1 == p + |EncodeEntries(es)|
  {
    EntriesBinaryLaid(view, p, es);
    EntriesEndSize(p, es);
    LaidBinaryEntries(view, p, es, count, acc);
  }

  /** The count of a map found at `p`, and the entries after it. */
  lemma MapCountPlaced(view: seq<byte>, p: nat, m: map<Text, Text>, order: seq<Text>, acc: map<Text, Text>)
    requires |m| <= INT_MAX && forall i :: 0 <= i < |order| ==> order[i] in m
    requires Within(view, p, EncodeStringMap(m, order))
    ensures Within(view, p + 8, EncodeEntries(Listing(order, m)))
    ensures |EncodeStringMap(m, order)| == 8 + |EncodeEntries(Listing(order, m))|
    ensures GetStringMap(view, p, acc) == GetStringEntries(view, p + 8, |m|, acc)
    ensures GetBinaryMap(view, p, acc) == GetBinaryEntries(view, p + 8, |m|, acc)
  {
    WithinSplit(view, p, EncodeLong(|m|), EncodeEntries(Listing(order, m)));
    LongPlaced(view, p, |m|);
  }

  /** The entries of `m`, listed in an iteration order, are read back as `m` merged into `acc`. */
  lemma ListedEntriesPlaced(view: seq<byte>, q: nat, m: map<Text, Text>, order: seq<Text>, acc: map<Text, Text>)
    requires Enumerates(order, m) && Within(view, q, EncodeEntries(Listing(order, m)))
    ensures GetStringEntries(view, q, |m|, acc).Ok?
    ensures GetStringEntries(view, q, |m|, acc).value.0 == acc + m
    ensures GetStringEntries(view, q, |m|, acc).value.1 == q + |EncodeEntries(Listing(order, m))|
    ensures GetBinaryEntries(view, q, |m|, acc).Ok?
    ensures GetBinaryEntries(view, q, |m|, acc).value.0 == acc + m
    ensures GetBinaryEntries(view, q, |m|, acc).value.1 == q + |EncodeEntries(Listing(order, m))|
  {
    EnumerationSize(order, m);
    GetStringEntriesPlaced(view, q, Listing(order, m), |m|, acc);
    GetBinaryEntriesPlaced(view, q, Listing(order, m), |m|, acc);
    MergedListing(acc, order, m);
  }

  /**
   * Round trip: the bytes writeStringMap emits for `m`, in any iteration order, are read
   * back by readStringMap as `m` merged into the map passed in.
   */
  lemma GetStringMapPlaced(view: seq<byte>, p: nat, m: map<Text, Text>, order: seq<Text>, acc: map<Text, Text>)
    requires |m| <= INT_MAX && Enumerates(order, m)
    requires Within(view, p, EncodeStringMap(m, order))
    ensures GetStringMap(view, p, acc).Ok?
    ensures GetStringMap(view, p, acc).value.0 == acc + m
    ensures GetStringMap(view, p, acc).value.1 == p + |EncodeStringMap(m, order)|
  {
    MapCountPlaced(view, p, m, order, acc);
    ListedEntriesPlaced(view, p + 8, m, order, acc);
  }

  /**
   * Round trip of the corrected binary-map writer: with a length before every value,
   * readBinaryMap returns `m` merged into the map passed in.
   */
  lemma GetBinaryMapPlaced(view: seq<byte>, p: nat, m: map<Text, Text>, order: seq<Text>, acc: map<Text, Text>)
    requires |m| <= INT_MAX && Enumerates(order, m)
    requires Within(view, p, EncodeStringMap(m, order))
    ensures GetBinaryMap(view, p, acc).Ok?
    ensures GetBinaryMap(view, p, acc).value.0 == acc + m
    ensures GetBinaryMap(view, p, acc).value.1 == p + |EncodeStringMap(m, order)|
  {
    MapCountPlaced(view, p, m, order, acc);
    ListedEntriesPlaced(view, p + 8, m, order, acc);
  }

  lemma {:induction false} EnumerationSize(order: seq<Text>, m: map<Text, Text>)
    requires Enumerates(order, m)
    ensures |order| == |m|
  {
    if order == [] {
      assert m.Keys == {};
    } else {
      var k := order[0];
      var m' := m - {k};
      assert |m'| == |m| - 1;
      assert Enumerates(order[1..], m') by {
        forall j | j in m' ensures j in order[1..] {
          var i :| 0 <= i < |order| && order[i] == j;
          assert i != 0;
          assert order[1..][i - 1] == j;
        }
      }
      EnumerationSize(order[1..], m');
    }
  }

  /**
   * The binary map writer as written is not inverted by the reader: for one entry with
   * an empty key and an 8-byte value, readBinaryMap takes the value bytes as a length of
   * 2^32, passes its guard and runs past the end of the file.  The corrected reader
   * rejects the length instead; neither returns the map.
   */
  lemma BinaryMapAsWrittenNotInverse()
    ensures var m: map<Text, Text> := map[[] := [0, 0, 0, 0, 1, 0, 0, 0]];
      && GetBinaryMapAsWritten(EncodeBinaryMapAsWritten(m, [[]]), 0, map[]) == Err(EndOfFile)
      && GetBinaryMap(EncodeBinaryMapAsWritten(m, [[]]), 0, map[]) == Err(InvalidValueLength)
  {
    var v: Text := [0, 0, 0, 0, 1, 0, 0, 0];
    var e := EncodeBinaryMapAsWritten(map[[] := v], [[]]);
    AsWrittenBytes([], v);
    AsWrittenFields(e, v);
    CastWraps();
    assert GetBinaryValueAsWritten(e, 16, 1) == Err(EndOfFile);
    assert GetBinaryEntriesAsWritten(e, 8, 1, map[]) == Err(EndOfFile);
    assert GetBinaryValue(e, 16) == Err(InvalidValueLength);
    assert GetBinaryEntries(e, 8, 1, map[]) == Err(InvalidValueLength);
  }

  /** What the reader finds in the as-written bytes: a count of 1, an empty key, and a value length of 2^32. */
  lemma AsWrittenFields(e: seq<byte>, v: seq<byte>)
    requires v == [0, 0, 0, 0, 1, 0, 0, 0] && e == EncodeLong(1) + EncodeLong(0) + v
    ensures LongAt(e, 0) == Ok(1)
    ensures GetString(e, 8) == Ok(([], 16))
    ensures LongAt(e, 16) == Ok(0x1_0000_0000)
  {
    WithinSplit(e, 0, EncodeLong(1) + EncodeLong(0), v);
    WithinSplit(e, 0, EncodeLong(1), EncodeLong(0));
    LongPlaced(e, 0, 1);
    GetStringPlaced(e, 8, []);
    LongOfValue(v);
  }

  lemma AsWrittenBytes(k: Text, v: Text)
    requires k == [] 
    ensures EncodeBinaryMapAsWritten(map[k := v], [k]) == EncodeLong(1) + EncodeLong(0) + v
  {
    var m := map[k := v];
    assert Listing([k], m) == [(k, v)];
    assert EncodeBinaryEntriesAsWritten([(k, v)]) == EncodeString(k) + v + EncodeBinaryEntriesAsWritten([]);
  }

  lemma LongOfValue(v: seq<byte>)
    requires v == [0, 0, 0, 0, 1, 0, 0, 0]
    ensures DecodeLong(v) == 0x1_0000_0000
  {
    Pow256Widths();
    assert LeValue(v[7..]) == 0;
    assert LeValue(v[6..]) == 0;
    assert LeValue(v[5..]) == 0;
    assert LeValue(v[4..]) == 1;
    assert LeValue(v[3..]) == 256;
    assert LeValue(v[2..]) == 256 * 256;
    assert LeValue(v[1..]) == 256 * 256 * 256;
    assert LeValue(v) == 0x1_0000_0000;
  }

  /** The cursor sits `|enc|` bytes further on, with `enc` written between, and nothing before moved. */
  ghost predicate Placed(c0: Cursor, c: Cursor, enc: seq<byte>) {
    && c.grow == c0.grow
    && c0.pos <= |c0.view| <= |c.view|
    && c.pos == c0.pos + |enc|
    && Within(c.view, c0.pos, enc)
    && c.view[..c0.pos] == c0.view[..c0.pos]
  }

  lemma PlacedPut(c: Cursor, b: seq<byte>)
    requires c.pos <= |c.view| && Put(c, b).Ok?
    ensures Placed(c, Put(c, b).value, b)
  {
  }

  lemma PlacedTrans(c0: Cursor, c1: Cursor, c2: Cursor, a: seq<byte>, b: seq<byte>)
    requires Placed(c0, c1, a) && Placed(c1, c2, b)
    ensures Placed(c0, c2, a + b)
  {
    assert c2.view[c0.pos..c1.pos] == c2.view[..c1.pos][c0.pos..];
    assert c1.view[c0.pos..c1.pos] == c1.view[..c1.pos][c0.pos..];
    assert c2.view[c0.pos..c2.pos] == c2.view[c0.pos..c1.pos] + c2.view[c1.pos..c2.pos];
    assert c2.view[..c0.pos] == c2.view[..c1.pos][..c0.pos];
    assert c1.view[..c0.pos] == c1.view[..c1.pos][..c0.pos];
  }

  /** On a read-only store, a cursor read of `n` bytes is a slice of the fixed view. */
  lemma ReadOnlyGet(view: seq<byte>, p: nat, n: nat)
    ensures Get(Cursor(view, p, false), n)
         == if p + n <= |view| then Ok((view[p..p + n], Cursor(view, p + n, false))) else Err(EndOfFile)
  {
  }

  lemma ReadOnlyLong(view: seq<byte>, p: nat)
    ensures GetLong(Cursor(view, p, false))
         == if p + 8 <= |view| then Ok((DecodeLong(view[p..p + 8]), Cursor(view, p + 8, false))) else Err(EndOfFile)
  {
    ReadOnlyGet(view, p, 8);
  }

  /** readLong on a read-only store: LongAt at the cursor, which then moves past it. */
  method ReadLongAt(s: MappedStore) returns (r: Result<int64>)
    requires s.Valid() && !s.writable
    modifies s
    ensures s.Valid() && !s.writable && s.isOpen == old(s.isOpen) && s.View() == old(s.View())
    ensures r == LongAt(s.View(), old(s.pos))
    ensures r.Ok? ==> s.pos == old(s.pos) + 8
  {
    ReadOnlyLong(s.View(), s.pos);
    r := s.ReadLong();
  }

  /** read(value, len) on a read-only store: the `n` bytes at the cursor, which then moves past them. */
  method ReadBytesAt(s: MappedStore, n: nat) returns (r: Result<seq<byte>>)
    requires s.Valid() && !s.writable
    modifies s
    ensures s.Valid() && !s.writable && s.isOpen == old(s.isOpen) && s.View() == old(s.View())
    ensures r.Err? <==> old(s.pos) + n > s.size
    ensures r.Err? ==> r.error == EndOfFile
    ensures r.Ok? ==> r.value == s.View()[old(s.pos)..old(s.pos) + n] && s.pos == old(s.pos) + n
  {
    ReadOnlyGet(s.View(), s.pos, n);
    r := s.ReadBytes(n);
  }

  /** `new byte[(int)n]` and read(buffer, n) at the cursor of a read-only store, as GetCast describes them. */
  method ReadCast(s: MappedStore, n: int64) returns (r: Result<Text>)
    requires s.Valid() && !s.writable
    modifies s
    ensures s.Valid() && !s.writable && s.isOpen == old(s.isOpen) && s.View() == old(s.View())
    ensures GetCast(s.View(), old(s.pos), n) == if r.Ok? then Ok((r.value, s.pos)) else Err(r.error)
  {
    var length := ToInt32(n);
    if length < 0 {
      return Err(NegativeLength);
    }
    if n < 0 {
      return if s.pos + n >= 0 then Err(ArrayOverrun) else Err(EndOfFile);
    }
    if n != length && s.pos + n <= s.size {
      return Err(ArrayOverrun);
    }
    var buffer :- ReadBytesAt(s, n);
    r := Ok(buffer);
  }

  /** readString: the string at the cursor, as GetString describes it. */
  method ReadString(s: MappedStore) returns (r: Result<Text>)
    requires s.Valid() && !s.writable
    modifies s
    ensures s.Valid() && !s.writable && s.isOpen == old(s.isOpen) && s.View() == old(s.View())
    ensures GetString(s.View(), old(s.pos)) == if r.Ok? then Ok((r.value, s.pos)) else Err(r.error)
  {
    var len :- ReadLongAt(s);
    if len > INT_MAX {
      return Err(InvalidStringLength);
    }
    r := ReadCast(s, len);
  }

  /** readStringMap(acc): `count` pairs read key first, each put into the result map. */
  method ReadStringMap(s: MappedStore, acc: map<Text, Text>) returns (r: Result<map<Text, Text>>)
    requires s.Valid() && !s.writable
    modifies s
    ensures s.Valid() && !s.writable && s.isOpen == old(s.isOpen) && s.View() == old(s.View())
    ensures GetStringMap(s.View(), old(s.pos), acc) == if r.Ok? then Ok((r.value, s.pos)) else Err(r.error)
  {
    ghost var p0 := s.pos;
    var length :- ReadLongAt(s);
    if length > INT_MAX {
      return Err(InvalidMapLength);
    }
    var result: map<Text, Text> := acc;
    while length > 0
      invariant s.Valid() && !s.writable && s.isOpen == old(s.isOpen) && s.View() == old(s.View())
      invariant GetStringMap(s.View(), p0, acc) == GetStringEntries(s.View(), s.pos, if length > 0 then length else 0, result)
      decreases length
    {
      var key :- ReadString(s);
      var value :- ReadString(s);
      result := result[key := value];
      length := length - 1;
    }
    r := Ok(result);
  }

  /**
   * One value of readBinaryMap with `remaining` entries still to read: its 8-byte
   * length, the guard as written (on the entry count), then its bytes.
   */
  method ReadBinaryValue(s: MappedStore, remaining: int) returns (r: Result<Text>)
    requires s.Valid() && !s.writable
    modifies s
    ensures s.Valid() && !s.writable && s.isOpen == old(s.isOpen) && s.View() == old(s.View())
    ensures GetBinaryValueAsWritten(s.View(), old(s.pos), remaining) == if r.Ok? then Ok((r.value, s.pos)) else Err(r.error)
  {
    var valueLength :- ReadLongAt(s);
    if ValueGuardAsWritten(remaining, valueLength) {
      return Err(InvalidValueLength);
    }
    r := ReadCast(s, valueLength);
  }

  /** readBinaryMap(acc) as written: per entry a string key, an 8-byte value length and the value bytes. */
  method ReadBinaryMap(s: MappedStore, acc: map<Text, Text>) returns (r: Result<map<Text, Text>>)
    requires s.Valid() && !s.writable
    modifies s
    ensures s.Valid() && !s.writable && s.isOpen == old(s.isOpen) && s.View() == old(s.View())
    ensures GetBinaryMapAsWritten(s.View(), old(s.pos), acc) == if r.Ok? then Ok((r.value, s.pos)) else Err(r.error)
  {
    ghost var p0 := s.pos;
    var length :- ReadLongAt(s);
    if length > INT_MAX {
      return Err(InvalidMapLength);
    }
    var result: map<Text, Text> := acc;
    while length > 0
      invariant s.Valid() && !s.writable && s.isOpen == old(s.isOpen) && s.View() == old(s.View())
      invariant GetBinaryMapAsWritten(s.View(), p0, acc) == GetBinaryEntriesAsWritten(s.View(), s.pos, if length > 0 then length else 0, result)
      decreases length
    {
      var key :- ReadString(s);
      var value :- ReadBinaryValue(s, length);
      result := result[key := value];
      length := length - 1;
    }
    r := Ok(result);
  }

  /** The keys visited so far (`order`) and those still to visit (`rest`) split the keys of `m`. */
  ghost predicate Visiting(order: seq<Text>, rest: set<Text>, m: map<Text, Text>) {
    && (forall i, j :: 0 <= i < j < |order| ==> order[i] != order[j])
    && (forall i :: 0 <= i < |order| ==> order[i] in m && order[i] !in rest)
    && (forall k :: k in m ==> k in rest || k in order)
    && rest <= m.Keys
  }

  lemma VisitingStep(order: seq<Text>, rest: set<Text>, m: map<Text, Text>, key: Text)
    requires Visiting(order, rest, m) && key in rest
    ensures Visiting(order + [key], rest - {key}, m)
  {
  }

  lemma VisitingDone(order: seq<Text>, m: map<Text, Text>)
    requires Visiting(order, {}, m)
    ensures Enumerates(order, m)
  {
  }

  lemma ListingSnoc(order: seq<Text>, m: map<Text, Text>, key: Text)
    requires key in m && forall i :: 0 <= i < |order| ==> order[i] in m
    ensures Listing(order + [key], m) == Listing(order, m) + [(key, m[key])]
  {
  }

  /** Three pieces placed one after the other are placed together. */
  lemma PlacedThree(c0: Cursor, c1: Cursor, c2: Cursor, c3: Cursor, a: seq<byte>, b: seq<byte>, c: seq<byte>)
    requires Placed(c0, c1, a) && Placed(c1, c2, b) && Placed(c2, c3, c)
    ensures Placed(c0, c3, a + b + c)
  {
    PlacedTrans(c0, c1, c2, a, b);
    PlacedTrans(c0, c2, c3, a + b, c);
  }

  lemma StringMapSnoc(m: map<Text, Text>, order: seq<Text>, key: Text)
    requires |m| <= INT_MAX && key in m && forall i :: 0 <= i < |order| ==> order[i] in m
    ensures EncodeStringMap(m, order + [key]) == EncodeStringMap(m, order) + EncodeString(key) + EncodeString(m[key])
  {
    EncodeEntriesSnoc(Listing(order, m), (key, m[key]));
    ListingSnoc(order, m, key);
  }

  lemma BinaryMapSnoc(m: map<Text, Text>, order: seq<Text>, key: Text)
    requires |m| <= INT_MAX && key in m && forall i :: 0 <= i < |order| ==> order[i] in m
    ensures EncodeBinaryMapAsWritten(m, order + [key]) == EncodeBinaryMapAsWritten(m, order) + EncodeString(key) + m[key]
  {
    BinaryEntriesSnoc(Listing(order, m), (key, m[key]));
    ListingSnoc(order, m, key);
  }

  /** Writing one more key and value as strings extends the string-map encoding by that entry. */
  lemma StringMapStep(c0: Cursor, c1: Cursor, c2: Cursor, c3: Cursor, m: map<Text, Text>, order: seq<Text>, key: Text)
    requires |m| <= INT_MAX && key in m && forall i :: 0 <= i < |order| ==> order[i] in m
    requires Placed(c0, c1, EncodeStringMap(m, order))
    requires Placed(c1, c2, EncodeString(key)) && Placed(c2, c3, EncodeString(m[key]))
    ensures Placed(c0, c3, EncodeStringMap(m, order + [key]))
  {
    PlacedThree(c0, c1, c2, c3, EncodeStringMap(m, order), EncodeString(key), EncodeString(m[key]));
    StringMapSnoc(m, order, key);
  }

  /** Writing one more key as a string and its raw value extends the as-written binary encoding. */
  lemma BinaryMapStep(c0: Cursor, c1: Cursor, c2: Cursor, c3: Cursor, m: map<Text, Text>, order: seq<Text>, key: Text)
    requires |m| <= INT_MAX && key in m && forall i :: 0 <= i < |order| ==> order[i] in m
    requires Placed(c0, c1, EncodeBinaryMapAsWritten(m, order))
    requires Placed(c1, c2, EncodeString(key)) && Placed(c2, c3, m[key])
    ensures Placed(c0, c3, EncodeBinaryMapAsWritten(m, order + [key]))
  {
    PlacedThree(c0, c1, c2, c3, EncodeBinaryMapAsWritten(m, order), EncodeString(key), m[key]);
    BinaryMapSnoc(m, order, key);
  }

  /** writeString: the length, then the bytes. */
  method WriteString(s: MappedStore, t: Text)
    requires s.Valid() && s.writable && s.pos <= s.size
    modifies s
    ensures s.Valid() && s.writable && s.pos <= s.size
    ensures Placed(old(s.Cur()), s.Cur(), EncodeString(t))
  {
    ghost var c0 := s.Cur();
    s.WriteLong(|t|);
    PlacedPut(c0, EncodeLong(|t|));
    ghost var c1 := s.Cur();
    s.WriteBytes(t);
    PlacedPut(c1, t);
    PlacedTrans(c0, c1, s.Cur(), EncodeLong(|t|), t);
  }

  /** writeStringMap: the entry count, then each key and value as strings, in some iteration order. */
  method WriteStringMap(s: MappedStore, m: map<Text, Text>) returns (ghost order: seq<Text>)
    requires s.Valid() && s.writable && s.pos <= s.size && |m| <= INT_MAX
    modifies s
    ensures s.Valid() && s.writable && s.pos <= s.size
    ensures Enumerates(order, m)
    ensures Placed(old(s.Cur()), s.Cur(), EncodeStringMap(m, order))
  {
    ghost var c0 := s.Cur();
    s.WriteLong(|m|);
    PlacedPut(c0, EncodeLong(|m|));
    var rest := m.Keys;
    order := [];
    while rest != {}
      invariant s.Valid() && s.writable && s.pos <= s.size
      invariant Visiting(order, rest, m)
      invariant Placed(c0, s.Cur(), EncodeStringMap(m, order))
      decreases |rest|
    {
      var key :| key in rest;
      ghost var c1 := s.Cur();
      WriteString(s, key);
      ghost var c2 := s.Cur();
      WriteString(s, m[key]);
      StringMapStep(c0, c1, c2, s.Cur(), m, order, key);
      VisitingStep(order, rest, m, key);
      order := order + [key];
      rest := rest - {key};
    }
    VisitingDone(order, m);
  }

  /** writeBinaryMap as written: the entry count, then each key as a string followed by the raw value. */
  method WriteBinaryMap(s: MappedStore, m: map<Text, Text>) returns (ghost order: seq<Text>)
    requires s.Valid() && s.writable && s.pos <= s.size && |m| <= INT_MAX
    modifies s
    ensures s.Valid() && s.writable && s.pos <= s.size
    ensures Enumerates(order, m)
    ensures Placed(old(s.Cur()), s.Cur(), EncodeBinaryMapAsWritten(m, order))
  {
    ghost var c0 := s.Cur();
    s.WriteLong(|m|);
    PlacedPut(c0, EncodeLong(|m|));
    var rest := m.Keys;
    order := [];
    while rest != {}
      invariant s.Valid() && s.writable && s.pos <= s.size
      invariant Visiting(order, rest, m)
      invariant Placed(c0, s.Cur(), EncodeBinaryMapAsWritten(m, order))
      decreases |rest|
    {
      var key :| key in rest;
      ghost var c1 := s.Cur();
      WriteString(s, key);
      ghost var c2 := s.Cur();
      s.WriteBytes(m[key]);
      PlacedPut(c2, m[key]);
      BinaryMapStep(c0, c1, c2, s.Cur(), m, order, key);
      VisitingStep(order, rest, m, key);
      order := order + [key];
      rest := rest - {key};
    }
    VisitingDone(order, m);
  }

  /** The corrected writeBinaryMap: each value is written as a length-prefixed string. */
  method WriteBinaryMapWithLengths(s: MappedStore, m: map<Text, Text>) returns (ghost order: seq<Text>)
    requires s.Valid() && s.writable && s.pos <= s.size && |m| <= INT_MAX
    modifies s
    ensures s.Valid() && s.writable && s.pos <= s.size
    ensures Enumerates(order, m)
    ensures Placed(old(s.Cur()), s.Cur(), EncodeStringMap(m, order))
  {
    order := WriteStringMap(s, m);
  }
}
