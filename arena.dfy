/**
 * The layout of a variable-length (BYTES or STRING) column.  The data store holds
 * one 8-byte offset slot per row; the values themselves sit one after another in a
 * separate arena, a STRING value followed by a NUL byte.  A row's length is not
 * stored: it is the next row's offset (or the arena size, for the last row) minus
 * the row's own offset, minus the terminator.
 */
module Arena {
  import opened Wrappers
  import opened Bytes

  /** The offset slots written so far and the arena bytes up to its cursor. */
  datatype VarColumn = VarColumn(slots: seq<int>, arena: seq<byte>)

  /** The bytes a row puts in the arena: nothing for a null, else the value and its terminator. */
  function Stored(value: Option<seq<byte>>, term: seq<byte>): seq<byte> {
    if value.Some? then value.value + term else []
  }

  /** appendVarBytes/appendVarString on the layout: the slot records the arena cursor, then the value follows. */
  function Append(vc: VarColumn, value: Option<seq<byte>>, term: seq<byte>): (r: VarColumn)
    ensures |r.slots| == |vc.slots| + 1 && r.slots[|vc.slots|] == |vc.arena|
    ensures |vc.arena| <= |r.arena| && r.arena[..|vc.arena|] == vc.arena
  {
    VarColumn(vc.slots + [|vc.arena|], vc.arena + Stored(value, term))
  }

  /** A layout whose slots gained the old arena length and whose arena gained the stored value is the append. */
  lemma AppendOf(slots: seq<int>, arena: seq<byte>, slots': seq<int>, arena': seq<byte>, value: Option<seq<byte>>, term: seq<byte>)
    requires slots' == slots + [|arena|] && arena' == arena + Stored(value, term)
    ensures VarColumn(slots', arena') == Append(VarColumn(slots, arena), value, term)
  {
  }

  /** The arena after the rows `values`, in order. */
  function ArenaOf(values: seq<Option<seq<byte>>>, term: seq<byte>): seq<byte> {
    if values == [] then [] else ArenaOf(values[..|values| - 1], term) + Stored(values[|values| - 1], term)
  }

  /** The layout after appending `values` to an empty column: each slot is the arena length before its row. */
  function Appended(values: seq<Option<seq<byte>>>, term: seq<byte>): VarColumn {
    VarColumn(seq(|values|, i requires 0 <= i < |values| => |ArenaOf(values[..i], term)|), ArenaOf(values, term))
  }

  /**
   * The value between `position` and `end`, less `termLen` terminator bytes.  The
   * length goes through Java's `(int)` cast; a negative length fails the array
   * allocation, and a range outside the arena is a read past the mapping.
   */
  function Extract(arena: seq<byte>, position: int, end: int, termLen: nat): (r: Result<seq<byte>>)
    ensures r.Ok? ==> 0 <= position && |r.value| == ToInt32(end - position - termLen)
    ensures r.Ok? ==> position + |r.value| <= |arena| && r.value == arena[position..position + |r.value|]
    ensures r.Err? ==> r.error in {NegativeLength, OutsideMapping}
  {
    var len := ToInt32(end - position - termLen);
    if len < 0 then Err(NegativeLength)
    else if position < 0 || position + len > |arena| then Err(OutsideMapping)
    else Ok(arena[position..position + len])
  }

  /** getVarBytes/getVarString on the layout: row `index` of `slots` read out of `arena`. */
  function ReadValue(slots: seq<int>, arena: seq<byte>, index: nat, termLen: nat): Result<seq<byte>>
    requires index < |slots|
  {
    var end := if index < |slots| - 1 then slots[index + 1] else |arena|;
    Extract(arena, slots[index], end, termLen)
  }

  /** The 8-byte slots at the start of a data store's bytes. */
  function SlotsOf(view: seq<byte>, n: nat): (r: seq<int>)
    requires 8 * n <= |view|
    ensures |r| == n
    ensures forall k :: 0 <= k < n ==> r[k] == DecodeLong(view[8 * k..8 * k + 8])
  {
    seq(n, k requires 0 <= k < n => DecodeLong(view[8 * k..8 * k + 8]))
  }

  /** Appending one more row extends the folded layout by exactly that row. */
  lemma AppendStep(values: seq<Option<seq<byte>>>, value: Option<seq<byte>>, term: seq<byte>)
    ensures Append(Appended(values, term), value, term) == Appended(values + [value], term)
  {
    var vs := values + [value];
    assert vs[..|vs| - 1] == values;
    var a := Append(Appended(values, term), value, term);
    var b := Appended(vs, term);
    assert a.arena == b.arena;
    forall i | 0 <= i < |vs|
      ensures a.slots[i] == b.slots[i]
    {
      if i < |values| {
        assert vs[..i] == values[..i];
      } else {
        assert vs[..i] == values;
      }
    }
  }

  /** The arena of a prefix of the rows is a prefix of the whole arena. */
  lemma {:induction false} ArenaPrefix(values: seq<Option<seq<byte>>>, term: seq<byte>, j: nat)
    requires j <= |values|
    ensures |ArenaOf(values[..j], term)| <= |ArenaOf(values, term)|
    ensures ArenaOf(values, term)[..|ArenaOf(values[..j], term)|] == ArenaOf(values[..j], term)
  {
    if j < |values| {
      var init := values[..|values| - 1];
      assert values[..j] == init[..j];
      ArenaPrefix(init, term, j);
      assert ArenaOf(values, term) == ArenaOf(init, term) + Stored(values[|values| - 1], term);
    } else {
      assert values[..j] == values;
    }
  }

  /** Where row `i` starts and where the reader takes it to end. */
  lemma RowSpan(values: seq<Option<seq<byte>>>, term: seq<byte>, i: nat)
    requires i < |values| && values[i].Some?
    ensures var vc := Appended(values, term);
      && vc.slots[i] == |ArenaOf(values[..i], term)|
      && ArenaOf(values[..i + 1], term) == ArenaOf(values[..i], term) + values[i].value + term
      && (if i < |values| - 1 then vc.slots[i + 1] else |vc.arena|) == |ArenaOf(values[..i + 1], term)|
  {
    assert values[..i + 1][..i] == values[..i];
    if i == |values| - 1 {
      assert values[..i + 1] == values;
    }
  }

  /** A row whose slot and end bracket its value and terminator reads back as that value. */
  lemma ReadLaid(slots: seq<int>, arena: seq<byte>, i: nat, termLen: nat, v: seq<byte>)
    requires i < |slots| && 0 <= slots[i] && slots[i] + |v| <= |arena| && |v| <= INT_MAX
    requires arena[slots[i]..slots[i] + |v|] == v
    requires (if i < |slots| - 1 then slots[i + 1] else |arena|) == slots[i] + |v| + termLen
    ensures ReadValue(slots, arena, i, termLen) == Ok(v)
  {
    ToInt32Identity(|v|);
  }

  /** A slice of a prefix is the same slice of the whole sequence. */
  lemma PrefixSlice(a: seq<byte>, pre: seq<byte>, lo: nat, hi: nat)
    requires lo <= hi <= |pre| <= |a| && a[..|pre|] == pre
    ensures a[lo..hi] == pre[lo..hi]
  {
    forall k | 0 <= k < hi - lo
      ensures a[lo..hi][k] == pre[lo..hi][k]
    {
      assert a[lo + k] == a[..|pre|][lo + k];
    }
  }

  /**
   * The read-back law of the layout: after appending `values`, reading any non-null
   * row returns the value appended for it, provided a length fits a Java int.
   */
  lemma ReadBack(values: seq<Option<seq<byte>>>, term: seq<byte>, i: nat)
    requires i < |values| && values[i].Some? && |values[i].value| <= INT_MAX
    ensures ReadValue(Appended(values, term).slots, Appended(values, term).arena, i, |term|) == Ok(values[i].value)
  {
    var vc := Appended(values, term);
    RowSpan(values, term, i);
    RowBytes(values, term, i);
    ReadLaid(vc.slots, vc.arena, i, |term|, values[i].value);
  }

  /** Row `i`'s value sits in the arena right at the arena length before the row. */
  lemma RowBytes(values: seq<Option<seq<byte>>>, term: seq<byte>, i: nat)
    requires i < |values| && values[i].Some?
    ensures var start := |ArenaOf(values[..i], term)|;
      && start + |values[i].value| <= |ArenaOf(values, term)|
      && ArenaOf(values, term)[start..start + |values[i].value|] == values[i].value
  {
    var v := values[i].value;
    var start := |ArenaOf(values[..i], term)|;
    var through := ArenaOf(values[..i + 1], term);
    RowSpan(values, term, i);
    ArenaPrefix(values, term, i + 1);
    PrefixSlice(ArenaOf(values, term), through, start, start + |v|);
    assert through[start..start + |v|] == v;
  }

  /** The three strings "ab", "", "xyz": offsets 0, 3 and 4 and an 8-byte arena, each read back. */
  lemma ThreeStrings()
    ensures Appended([Some([97, 98]), Some([]), Some([120, 121, 122])], [0])
         == VarColumn([0, 3, 4], [97, 98, 0, 0, 120, 121, 122, 0])
    ensures ReadValue([0, 3, 4], [97, 98, 0, 0, 120, 121, 122, 0], 0, 1) == Ok([97, 98])
    ensures ReadValue([0, 3, 4], [97, 98, 0, 0, 120, 121, 122, 0], 1, 1) == Ok([])
    ensures ReadValue([0, 3, 4], [97, 98, 0, 0, 120, 121, 122, 0], 2, 1) == Ok([120, 121, 122])
  {
    var values: seq<Option<seq<byte>>> := [Some([97, 98]), Some([]), Some([120, 121, 122])];
    assert values[..0] == [];
    assert values[..1] == [Some([97, 98])] && values[..1][..0] == [];
    assert values[..2] == [Some([97, 98]), Some([])] && values[..2][..1] == values[..1];
    assert values[..3] == values && values[..2] == values[..|values| - 1];
    var r := Appended(values, [0]);
    assert ArenaOf(values[..1], [0]) == [97, 98, 0];
    assert ArenaOf(values[..2], [0]) == [97, 98, 0, 0];
    assert r.arena == [97, 98, 0, 0, 120, 121, 122, 0];
    assert r.slots == [0, 3, 4];
    ReadBack(values, [0], 0);
    ReadBack(values, [0], 1);
    ReadBack(values, [0], 2);
  }
}
