/**
 * The mapped byte store: a file mapped into memory with a cursor.
 *
 * The operating-system calls (open, mmap, mremap, ftruncate, fstat, munmap, close)
 * are abstracted away.  What the store keeps is the backing file's contents
 * (`file`), the mapped length (`size`), the cursor (`pos`), whether the mapping is
 * writable, and whether a file is open at all.  The bytes a reader sees are
 * `View()`, the first `size` bytes of the file.  A writable store keeps the file
 * exactly as long as the mapping, because every remap of it truncates or extends
 * the file to the new size; extension fills with zero bytes.
 */
module Store {
  import opened Wrappers
  import opened Bytes

  /** The memory page size the store grows by (taken from the system at start-up). */
  const PAGE_SIZE: nat := 4096

  /** The size `ensure` remaps to when `minSize` bytes are needed: the next page boundary above it. */
  function GrowSize(minSize: nat): (r: nat)
    ensures r % PAGE_SIZE == 0
    ensures minSize < r <= minSize + PAGE_SIZE
  {
    minSize + (PAGE_SIZE - minSize % PAGE_SIZE)
  }

  function Zeros(n: nat): (r: seq<byte>)
    ensures |r| == n
    ensures forall i :: 0 <= i < n ==> r[i] == 0
  {
    seq(n, _ => 0)
  }

  /** The file after it is truncated or zero-extended to `n` bytes. */
  function Resized(s: seq<byte>, n: nat): (r: seq<byte>)
    ensures |r| == n
    ensures forall i :: 0 <= i < n ==> r[i] == if i < |s| then s[i] else 0
  {
    if n <= |s| then s[..n] else s + Zeros(n - |s|)
  }

  /** `s` with the bytes from `p` on replaced by `b`. */
  function Overwrite(s: seq<byte>, p: nat, b: seq<byte>): (r: seq<byte>)
    requires p + |b| <= |s|
    ensures |r| == |s|
    ensures forall i :: 0 <= i < |s| ==> r[i] == if p <= i < p + |b| then b[i - p] else s[i]
  {
    s[..p] + b + s[p + |b|..]
  }

  /** The replaced bytes read back as the replacement. */
  lemma OverwriteSlice(s: seq<byte>, p: nat, b: seq<byte>)
    requires p + |b| <= |s|
    ensures Overwrite(s, p, b)[p..p + |b|] == b
  {
  }

  function Reversed(s: seq<byte>): (r: seq<byte>)
    ensures |r| == |s|
  {
    seq(|s|, k requires 0 <= k < |s| => s[|s| - 1 - k])
  }

  lemma ReversedFour(s: seq<byte>)
    requires |s| == 4
    ensures Reversed(s) == [s[3], s[2], s[1], s[0]]
  {
  }

  /** The first `n` bytes of `v`, padded with zero bytes when `v` is shorter. */
  function Padded(v: seq<byte>, n: nat): (r: seq<byte>)
    ensures |r| == n
  {
    seq(n, k requires 0 <= k < n => if k < |v| then v[k] else 0)
  }

  /** The CHARn field layout: the value's bytes, zero padded to `n`, stored in reverse order. */
  function CharNField(v: seq<byte>, n: nat): (r: seq<byte>)
    ensures |r| == n
  {
    Reversed(Padded(v, n))
  }

  /** One more than the highest index holding a nonzero byte, or 0 when every byte is zero. */
  function Significant(s: seq<byte>): (r: nat)
    ensures r <= |s|
    ensures r > 0 ==> s[r - 1] != 0
    ensures forall k :: r <= k < |s| ==> s[k] == 0
  {
    if s == [] then 0
    else if s[|s| - 1] != 0 then |s|
    else Significant(s[..|s| - 1])
  }

  /** The three properties in Significant's contract determine it. */
  lemma SignificantUnique(s: seq<byte>, r: nat)
    requires r <= |s|
    requires r > 0 ==> s[r - 1] != 0
    requires forall k :: r <= k < |s| ==> s[k] == 0
    ensures Significant(s) == r
  {
  }

  /**
   * Reading back a CHARn field written from `v` yields `v` and its length, provided `v`
   * fits in the field and does not end in a zero byte (which the reader cannot tell
   * from padding).
   */
  lemma CharNRoundTrip(v: seq<byte>, n: nat)
    requires |v| <= n
    requires v != [] ==> v[|v| - 1] != 0
    ensures Reversed(CharNField(v, n)) == Padded(v, n)
    ensures Padded(v, n)[..|v|] == v
    ensures Significant(Padded(v, n)) == |v|
  {
    var f := CharNField(v, n);
    assert Reversed(f) == Padded(v, n);
    SignificantUnique(Padded(v, n), |v|);
  }

  /** Writing a value longer than the field keeps only its first `n` bytes. */
  lemma CharNTruncates(v: seq<byte>, n: nat)
    requires n <= |v|
    ensures Reversed(CharNField(v, n)) == v[..n]
  {
  }

  /**
   * What the reader makes of a CHARn field: the reversed field without its trailing
   * zero bytes, which is no longer than the field, does not end in a zero byte, and
   * rebuilds the field exactly.
   */
  lemma CharNRead(field: seq<byte>)
    ensures var r := Reversed(field); var v := r[..Significant(r)];
      && |v| <= |field| && (v != [] ==> v[|v| - 1] != 0) && CharNField(v, |field|) == field
  {
    var r := Reversed(field);
    var v := r[..Significant(r)];
    assert Padded(v, |field|) == r;
    assert Reversed(r) == field;
  }

  /** A reader's view of a store: the mapped bytes, the cursor, and whether the store may grow. */
  datatype Cursor = Cursor(view: seq<byte>, pos: nat, grow: bool)

  /**
   * The bytes a cursor access of `n` bytes sees: the view itself when the bytes are
   * mapped; otherwise a growable store is extended to the next page boundary above
   * `pos + n`, and a read-only one reports the end of the file.
   */
  function Room(c: Cursor, n: nat): (r: Result<seq<byte>>)
    ensures r.Err? <==> c.pos + n > |c.view| && !c.grow
    ensures r.Err? ==> r.error == EndOfFile
    ensures r.Ok? ==> c.pos + n <= |r.value| && |c.view| <= |r.value|
    ensures r.Ok? ==> r.value[..|c.view|] == c.view
    ensures r.Ok? ==> forall i :: |c.view| <= i < |r.value| ==> r.value[i] == 0
  {
    if c.pos + n <= |c.view| then Ok(c.view)
    else if c.grow then Ok(Resized(c.view, GrowSize(c.pos + n)))
    else Err(EndOfFile)
  }

  /** A cursor read of `n` bytes: the bytes at `pos`, and the cursor advanced by `n`. */
  function Get(c: Cursor, n: nat): (r: Result<(seq<byte>, Cursor)>)
    ensures r.Err? <==> c.pos + n > |c.view| && !c.grow
    ensures r.Ok? ==> |r.value.0| == n && r.value.1.pos == c.pos + n && r.value.1.grow == c.grow
    ensures r.Ok? && c.pos + n <= |c.view| ==> r.value.0 == c.view[c.pos..c.pos + n] && r.value.1.view == c.view
  {
    var v :- Room(c, n);
    Ok((v[c.pos..c.pos + n], Cursor(v, c.pos + n, c.grow)))
  }

  /** A cursor write of `b`: `b` stored at `pos`, and the cursor advanced by `|b|`. */
  function Put(c: Cursor, b: seq<byte>): (r: Result<Cursor>)
    ensures r.Err? <==> c.pos + |b| > |c.view| && !c.grow
    ensures r.Ok? ==> r.value.pos == c.pos + |b| && r.value.grow == c.grow
    ensures r.Ok? ==> |c.view| <= |r.value.view| && c.pos + |b| <= |r.value.view|
    ensures r.Ok? ==> r.value.view[c.pos..c.pos + |b|] == b
    ensures r.Ok? && c.pos <= |c.view| ==> r.value.view[..c.pos] == c.view[..c.pos]
  {
    var v :- Room(c, |b|);
    Ok(Cursor(Overwrite(v, c.pos, b), c.pos + |b|, c.grow))
  }

  /** Bytes already in the view at the cursor are read back as they are. */
  lemma GetPlaced(c: Cursor, b: seq<byte>)
    requires c.pos + |b| <= |c.view| && c.view[c.pos..c.pos + |b|] == b
    ensures Get(c, |b|) == Ok((b, Cursor(c.view, c.pos + |b|, c.grow)))
  {
  }

  /** Put then Get from the same start returns what was put and ends at the same cursor. */
  lemma {:induction false} GetAfterPut(c: Cursor, b: seq<byte>)
    requires Put(c, b).Ok?
    ensures Get(Cursor(Put(c, b).value.view, c.pos, c.grow), |b|) == Ok((b, Put(c, b).value))
  {
    var c' := Put(c, b).value;
    GetPlaced(Cursor(c'.view, c.pos, c.grow), b);
  }

  /** The bytes before the cursor after a put: those before it until then, followed by the bytes put. */
  lemma PutExtends(c: Cursor, b: seq<byte>)
    requires c.pos <= |c.view| && Put(c, b).Ok?
    ensures Put(c, b).value.view[..Put(c, b).value.pos] == c.view[..c.pos] + b
  {
    var c' := Put(c, b).value;
    assert c'.view[..c'.pos] == c'.view[..c.pos] + c'.view[c.pos..c'.pos];
  }

  /** Two successive puts place the concatenation of their bytes. */
  lemma {:induction false} PutPut(c: Cursor, a: seq<byte>, b: seq<byte>)
    requires c.pos <= |c.view|
    requires Put(c, a).Ok? && Put(Put(c, a).value, b).Ok?
    ensures var c2 := Put(Put(c, a).value, b).value;
      c2.pos == c.pos + |a| + |b| && c2.grow == c.grow &&
      c2.view[c.pos..c2.pos] == a + b && c2.view[..c.pos] == c.view[..c.pos] &&
      |c.view| <= |c2.view|
  {
    var c1 := Put(c, a).value;
    var c2 := Put(c1, b).value;
    assert c2.view[..c1.pos] == c1.view[..c1.pos];
    assert c2.view[c.pos..c1.pos] == c1.view[c.pos..c1.pos] == a;
    assert c2.view[c.pos..c2.pos] == c2.view[c.pos..c1.pos] + c2.view[c1.pos..c2.pos];
    assert c2.view[..c.pos] == c1.view[..c1.pos][..c.pos];
  }

  class MappedStore {
    var file: seq<byte>
    var size: nat
    var pos: nat
    var writable: bool
    var isOpen: bool

    ghost predicate Valid()
      reads this
    {
      && size <= |file|
      && (writable ==> isOpen && size == |file|)
      && (!isOpen ==> file == [] && size == 0 && pos == 0 && !writable)
    }

    /** The mapped bytes. */
    function View(): (v: seq<byte>)
      reads this
      requires Valid()
      ensures |v| == size
    {
      file[..size]
    }

    function Cur(): (c: Cursor)
      reads this
      requires Valid()
    {
      Cursor(View(), pos, writable)
    }

    /** A store with no file: nothing open, nothing mapped, cursor at 0. */
    constructor ()
      ensures Valid() && !isOpen && !writable && size == 0 && pos == 0 && file == []
    {
      file, size, pos, writable, isOpen := [], 0, 0, false, false;
    }

    /** Closes the file if one is open, forgetting the mapping and resetting the cursor. */
    method Unmap()
      requires Valid()
      modifies this
      ensures Valid() && !isOpen && !writable && size == 0 && pos == 0 && file == []
    {
      if isOpen {
        size := 0;
        file := [];
        isOpen := false;
        writable := false;
        pos := 0;
      }
    }

    /**
     * Maps a file whose current contents are `contents`, with the whole file mapped
     * (the size hint -1).  Any previous mapping is unmapped first.
     */
    method Map(contents: seq<byte>, w: bool)
      requires Valid()
      modifies this
      ensures Valid() && isOpen && writable == w
      ensures file == contents && size == |contents| && pos == 0
      ensures View() == contents
    {
      Unmap();
      isOpen := true;
      writable := w;
      file := contents;
      size := |contents|;
    }

    /**
     * Remaps to `n` bytes.  A writable store truncates or zero-extends its file to
     * `n` bytes; a read-only one maps a prefix of the unchanged file.
     */
    method Remap(n: nat) returns (o: Outcome)
      requires Valid()
      requires isOpen && !writable ==> n <= |file|
      modifies this
      ensures Valid()
      ensures o == if old(isOpen) then Pass else Fail(FileNotMapped)
      ensures o.Fail? ==> unchanged(this)
      ensures o.Pass? ==> size == n && pos == old(pos) && writable == old(writable) && isOpen
      ensures o.Pass? ==> file == if writable then Resized(old(file), n) else old(file)
    {
      if !isOpen {
        return Fail(FileNotMapped);
      }
      if writable {
        file := Resized(file, n);
      }
      size := n;
      o := Pass;
    }

    /** Cuts the store to the cursor position. */
    method Truncate() returns (o: Outcome)
      requires Valid()
      requires isOpen && !writable ==> pos <= |file|
      modifies this
      ensures Valid()
      ensures o == if old(isOpen) then Pass else Fail(FileNotMapped)
      ensures o.Fail? ==> unchanged(this)
      ensures o.Pass? ==> size == old(pos) && pos == old(pos) && writable == old(writable)
      ensures o.Pass? ==> View() == Resized(old(file), old(pos))
    {
      o := Remap(pos);
    }

    /**
     * Makes `len` bytes from the cursor available: a read-only store fails at the end
     * of its mapping; a writable one grows to the next page boundary above `pos + len`.
     */
    method Ensure(len: nat) returns (o: Outcome)
      requires Valid()
      modifies this
      ensures Valid() && pos == old(pos) && writable == old(writable) && isOpen == old(isOpen)
      ensures o.Pass? ==> Room(old(Cur()), len) == Ok(View())
      ensures o.Fail? ==> Room(old(Cur()), len) == Err(o.error) && unchanged(this)
    {
      if pos + len > size {
        if !writable {
          return Fail(EndOfFile);
        }
        var minSize := pos + len;
        ghost var c0 := Cur();
        assert c0.view == file;
        o := Remap(GrowSize(minSize));
        assert o.Pass?;
        assert View() == file == Resized(c0.view, GrowSize(minSize));
        assert Room(c0, len) == Ok(View());
      } else {
        o := Pass;
      }
    }

    /** The cursor read `read(value, length)`: copies `len` bytes from the cursor and advances it. */
    method ReadBytes(len: nat) returns (r: Result<seq<byte>>)
      requires Valid()
      modifies this
      ensures Valid() && writable == old(writable) && isOpen == old(isOpen)
      ensures Get(old(Cur()), len) == if r.Ok? then Ok((r.value, Cur())) else Err(r.error)
      ensures r.Err? ==> unchanged(this)
    {
      var o := Ensure(len);
      if o.Fail? {
        return Err(o.error);
      }
      r := Ok(View()[pos..pos + len]);
      pos := pos + len;
    }

    /** The cursor read `read<int64_t>()`. */
    method ReadLong() returns (r: Result<int64>)
      requires Valid()
      modifies this
      ensures Valid() && writable == old(writable) && isOpen == old(isOpen)
      ensures GetLong(old(Cur())) == if r.Ok? then Ok((r.value, Cur())) else Err(r.error)
      ensures r.Err? ==> unchanged(this)
    {
      var b := ReadBytes(8);
      if b.Err? {
        return Err(b.error);
      }
      r := Ok(DecodeLong(b.value));
    }

    /** The cursor write `write(value, length)`: stores `b` at the cursor and advances it. */
    method WriteBytes(b: seq<byte>)
      requires Valid() && writable
      modifies this
      ensures Valid() && writable && isOpen
      ensures Put(old(Cur()), b) == Ok(Cur())
    {
      ghost var c0 := Cur();
      var e := Ensure(|b|);
      assert e.Pass? && Room(c0, |b|) == Ok(View());
      assert View() == file;
      file := Overwrite(file, pos, b);
      pos := pos + |b|;
      assert View() == file;
    }

    /** The cursor write `write<int64_t>(value)`. */
    method WriteLong(x: int64)
      requires Valid() && writable
      modifies this
      ensures Valid() && writable && isOpen
      ensures Put(old(Cur()), EncodeLong(x)) == Ok(Cur())
    {
      WriteBytes(EncodeLong(x));
    }

    /** The cursor write `write<int8_t>(value)`. */
    method WriteByte(x: int8)
      requires Valid() && writable
      modifies this
      ensures Valid() && writable && isOpen
      ensures Put(old(Cur()), EncodeInt(x, 1)) == Ok(Cur())
    {
      WriteBytes(EncodeInt(x, 1));
    }

    /** The positional read `read(pos, value, length)`. */
    function BytesAt(p: nat, n: nat): (r: seq<byte>)
      reads this
      requires Valid() && p + n <= size
      ensures |r| == n
    {
      View()[p..p + n]
    }

    /** The positional typed read `read<T>(pos)` of an `n`-byte signed integer. */
    function IntAt(p: nat, n: nat): (v: int)
      reads this
      requires Valid() && 0 < n && p + n <= size
      ensures -Half(n) <= v < Half(n)
      ensures EncodeInt(v, n) == BytesAt(p, n)
    {
      EncodeDecodeInt(BytesAt(p, n));
      DecodeInt(BytesAt(p, n))
    }

    /** The positional write `write(pos, value, length)`; nothing else in the store changes. */
    method WriteAt(p: nat, b: seq<byte>)
      requires Valid() && writable && p + |b| <= size
      modifies this
      ensures Valid() && size == old(size) && pos == old(pos) && writable && isOpen
      ensures View() == Overwrite(old(View()), p, b)
    {
      file := Overwrite(file, p, b);
    }

    /**
     * `writeCharN(pos, value, length, size)` with `length == |v|`: byte `v[i]` goes to
     * `p + n - i - 1` for `i < min(|v|, n)` and the rest of the `n`-byte field is zeroed.
     */
    method WriteCharN(p: nat, v: seq<byte>, n: nat)
      requires Valid() && writable && p + n <= size
      modifies this
      ensures Valid() && size == old(size) && pos == old(pos) && writable && isOpen
      ensures View() == Overwrite(old(View()), p, CharNField(v, n))
    {
      var i := 0;
      while i < n
        invariant 0 <= i <= n
        invariant Valid() && size == old(size) && pos == old(pos) && writable && isOpen
        invariant forall k :: 0 <= k < size ==>
          file[k] == if p + n - i <= k < p + n then CharNField(v, n)[k - p] else old(file)[k]
      {
        var b: byte := if i < |v| then v[i] else 0;
        file := file[p + n - i - 1 := b];
        i := i + 1;
      }
      assert View() == Overwrite(old(View()), p, CharNField(v, n));
    }

    /**
     * `readCharN(pos, value, size)`: copies the `n`-byte field into `value` reversed, and
     * returns one more than the highest index of `value` holding a nonzero byte, or 0.
     */
    method ReadCharN(p: nat, value: array<byte>, n: nat) returns (length: nat)
      requires Valid() && p + n <= size && n <= value.Length
      modifies value
      ensures value[..n] == Reversed(BytesAt(p, n))
      ensures value[n..] == old(value[n..])
      ensures length == Significant(value[..n])
    {
      ghost var field := BytesAt(p, n);
      var found := false;
      var last := 0;
      var i := 0;
      while i < n
        invariant 0 <= i <= n
        invariant forall k :: 0 <= k < value.Length ==>
          value[k] == if n - i <= k < n then field[n - 1 - k] else old(value[k])
        invariant !found ==> forall k :: 0 <= k < i ==> field[k] == 0
        invariant found ==> last < n && n - 1 - last < i && field[n - 1 - last] != 0
        invariant found ==> forall k :: 0 <= k < n - 1 - last ==> field[k] == 0
      {
        var j := n - i - 1;
        var temp := file[p + i];
        assert temp == field[i];
        if !found && temp != 0 {
          found := true;
          last := j;
        }
        value[j] := temp;
        i := i + 1;
      }
      length := if found then last + 1 else 0;
      assert value[..n] == Reversed(BytesAt(p, n));
      SignificantUnique(value[..n], length);
    }
  }

  /** A cursor read of an 8-byte integer. */
  function GetLong(c: Cursor): (r: Result<(int64, Cursor)>)
    ensures r.Err? <==> c.pos + 8 > |c.view| && !c.grow
    ensures r.Ok? ==> r.value.1.pos == c.pos + 8 && r.value.1.grow == c.grow
  {
    var (b, c') :- Get(c, 8);
    Ok((DecodeLong(b), c'))
  }

  /** A long written at the cursor is read back from the same start. */
  lemma GetLongAfterPut(c: Cursor, x: int64)
    requires Put(c, EncodeLong(x)).Ok?
    ensures GetLong(Cursor(Put(c, EncodeLong(x)).value.view, c.pos, c.grow)) == Ok((x, Put(c, EncodeLong(x)).value))
  {
    GetAfterPut(c, EncodeLong(x));
    DecodeEncodeLong(x);
  }
}
