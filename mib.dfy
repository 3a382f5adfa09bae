/**
 * The MIB table of mib.c: a fixed-capacity table of entries, each an OID
 * and a data buffer holding the BER encoding of its current value. The
 * table is filled once at start-up, in ascending OID order, with
 * placeholders (mib_alloc_entry, mib_build_entries) and refreshed in place
 * by mib_update_entry, which finds its entry with a cursor that moves
 * forward only (mib_find).
 */
module MibTable {

  import opened Types
  import opened Utils
  import opened Ber
  import opened MibView
  import opened MibData

  /* ---------------------------------------------------------------- */
  /* Entry OIDs (mib.c:273-324)                                         */
  /* ---------------------------------------------------------------- */

  /** The result of oid_build and the OID it leaves. */
  datatype Built = Built(code: int, oid: Oid)

  /**
   * oid_build: the prefix with the column appended and then the row, each
   * only while the OID has fewer than MAX_NR_SUBIDS subidentifiers; -1 as
   * soon as one does not fit, leaving what was appended so far. The
   * encoded length is the prefix's.
   */
  function OidBuild(prefix: Oid, column: Int32, row: Int32): (r: Built)
    ensures r.code == 0 || r.code == -1
    ensures r.oid.encodedLength == prefix.encodedLength
  {
    if |prefix.subids| >= MAX_NR_SUBIDS then Built(-1, prefix)
    else
      var s := prefix.subids + [ToUint32(column)];
      if |s| >= MAX_NR_SUBIDS then Built(-1, Oid(s, prefix.encodedLength))
      else Built(0, Oid(s + [ToUint32(row)], prefix.encodedLength))
  }

  /** oid_build succeeds exactly when the prefix has room for two more subidentifiers, and appends the column and the row. */
  lemma OidBuildAppends(prefix: Oid, column: Int32, row: Int32)
    ensures OidBuild(prefix, column, row).code == 0 <==> |prefix.subids| <= MAX_NR_SUBIDS - 2
    ensures OidBuild(prefix, column, row).code == 0 ==>
              OidBuild(prefix, column, row).oid.subids == prefix.subids + [ToUint32(column), ToUint32(row)]
    ensures |OidBuild(prefix, column, row).oid.subids| <= (if |prefix.subids| > MAX_NR_SUBIDS then |prefix.subids| else MAX_NR_SUBIDS)
    ensures Covers(OidBuild(prefix, column, row).oid, prefix)
  {
    var s := OidBuild(prefix, column, row).oid.subids;
    assert s[..|prefix.subids|] == prefix.subids;
  }

  /** The (short) cast of encode_oid_len: the low 16 bits as a signed value. */
  function ToShort(n: nat): int {
    (n + 0x8000) % 0x1_0000 - 0x8000
  }

  /**
   * What the short encoded_length of a data_t holds once encode_string has
   * written a string of at most 0xFFFF characters: the element size while it
   * fits, and otherwise that size less 2^16, which is negative up to 0xFFFB
   * characters and the 0 to 3 low bytes of the size beyond.
   */
  lemma StringLengthAsShort(text: seq<Byte>)
    requires |text| <= 0xFFFF
    ensures ToShort(StringLength(text)) == StringLength(text) <==> |text| <= 0x7FFB
    ensures |text| > 0x7FFB ==> ToShort(StringLength(text)) == StringLength(text) - 0x1_0000
    ensures |text| > 0x7FFB ==> (ToShort(StringLength(text)) < 0 <==> |text| <= 0xFFFB)
  {
  }

  /** A string of 40000 characters leaves encoded_length at -25532. */
  lemma StringLengthWraps()
    ensures ToShort(StringLength(seq(40000, _ => 'a' as Byte))) == -25532
  {
    StringLengthAsShort(seq(40000, _ => 'a' as Byte));
  }

  /** The number of octets the subidentifiers take, as encode_oid_len adds them up. */
  function SubidsLength(t: seq<Uint32>): nat {
    if t == [] then 0 else SubidsLength(t[..|t| - 1]) + SubidWidth(t[|t| - 1])
  }

  lemma {:induction false} SubidsLengthIsSize(t: seq<Uint32>)
    ensures SubidsLength(t) == |SubidsBytes(t)|
  {
    if t != [] {
      SubidsLengthIsSize(t[..|t| - 1]);
    }
  }

  /** What encode_oid_len stores: the size of the OID's BER element, or -1 if its content needs more than two length octets. */
  function EncodedOidLength(s: seq<Uint32>): int
    requires |s| >= 2
  {
    var c := 1 + SubidsLength(s[2..]);
    if c > 0xFFFF then -1 else ToShort(c + HeaderSize(c))
  }

  /**
   * encode_oid_len: stores the element size in the OID; for an OID of at
   * most MAX_NR_SUBIDS subidentifiers this always succeeds and is the size
   * of the element encode_oid and the response encoder write for it.
   */
  method EncodeOidLen(oid: Oid) returns (r: int, updated: Oid)
    requires |oid.subids| >= 2
    ensures updated == Oid(oid.subids, EncodedOidLength(oid.subids))
    ensures r == 0 <==> |OidContentBytes(oid.subids)| <= 0xFFFF
    ensures r != 0 ==> r == -1 && updated.encodedLength == -1
    ensures |oid.subids| <= MAX_NR_SUBIDS ==> r == 0 && updated.encodedLength == |OidBytes(oid.subids)|
  {
    var length := OidContentLength(oid.subids);
    SubidsLengthIsSize(oid.subids[2..]);
    if length > 0xFFFF {
      return -1, Oid(oid.subids, -1);
    }
    if length > 0xFF {
      length := length + 4;
    } else if length > 0x7F {
      length := length + 3;
    } else {
      length := length + 2;
    }
    return 0, Oid(oid.subids, ToShort(length));
  }

  /** The OID mib_alloc_entry leaves in a new entry: oid_build's, with encode_oid_len's length when the build succeeds. */
  function EntryOid(prefix: Oid, column: Int32, row: Int32): Oid {
    var built := OidBuild(prefix, column, row);
    var o := built.oid;
    if built.code != 0 || |o.subids| < 2 then o else Oid(o.subids, EncodedOidLength(o.subids))
  }

  /** LexCmp ignores a common prefix. */
  lemma {:induction false} LexCmpCommonPrefix(p: seq<int>, x: seq<int>, y: seq<int>)
    ensures LexCmp(p + x, p + y) == LexCmp(x, y)
  {
    if p == [] {
      assert p + x == x && p + y == y;
    } else {
      assert (p + x)[0] == p[0] == (p + y)[0];
      assert (p + x)[1..] == p[1..] + x && (p + y)[1..] == p[1..] + y;
      LexCmpCommonPrefix(p[1..], x, y);
    }
  }

  /** An entry built from a prefix with room carries the prefix, the column and the row. */
  lemma EntrySubids(prefix: Oid, column: Int32, row: Int32)
    requires |prefix.subids| <= MAX_NR_SUBIDS - 2
    ensures EntryOid(prefix, column, row).subids == prefix.subids + [ToUint32(column), ToUint32(row)]
  {
    OidBuildAppends(prefix, column, row);
  }

  /**
   * The rows of one column, built with mib_build_entries in ascending row
   * order, are in ascending oid_cmp order and all lie under the prefix.
   */
  lemma RowsAscend(prefix: Oid, column: Int32, row1: Int32, row2: Int32)
    requires Plain(prefix) && |prefix.subids| <= MAX_NR_SUBIDS - 2
    requires 0 <= column && 0 <= row1 < row2
    ensures OidCmp(EntryOid(prefix, column, row1), EntryOid(prefix, column, row2)) < 0
    ensures Covers(EntryOid(prefix, column, row1), prefix)
  {
    var a := EntryOid(prefix, column, row1);
    var b := EntryOid(prefix, column, row2);
    EntrySubids(prefix, column, row1);
    EntrySubids(prefix, column, row2);
    assert a.subids[..|prefix.subids|] == prefix.subids;
    OidCmpIsLexicographic(a, b);
    LastRowCmp(prefix.subids, column, row1, row2);
  }

  /** Two subidentifier lists that differ only in a last, larger row compare below. */
  lemma LastRowCmp(p: seq<int>, column: int, row1: int, row2: int)
    requires row1 < row2
    ensures LexCmp(p + [column, row1], p + [column, row2]) < 0
  {
    var x: seq<int> := [column, row1];
    var y: seq<int> := [column, row2];
    LexCmpCommonPrefix(p, x, y);
    assert x[1..] == [row1] && y[1..] == [row2];
    assert LexCmp(x, y) == LexCmp([row1], [row2]);
  }

  /** The entry OIDs of the rows first to last, in row order. */
  function RowOids(prefix: Oid, column: Int32, first: Int32, last: Int32): (r: seq<Oid>)
    ensures |r| == (if last < first then 0 else last - first + 1)
    decreases last as int - first as int
  {
    if last < first then []
    else if last == first then [EntryOid(prefix, column, last)]
    else RowOids(prefix, column, first, last - 1) + [EntryOid(prefix, column, last)]
  }

  /** Row first + k of RowOids. */
  lemma {:induction false} RowOidsAt(prefix: Oid, column: Int32, first: Int32, last: Int32, k: nat, row: Int32)
    requires k <= last as int - first as int && row as int == first as int + k
    ensures RowOids(prefix, column, first, last)[k] == EntryOid(prefix, column, row)
    decreases last as int - first as int
  {
    if k < last as int - first as int {
      RowOidsAt(prefix, column, first, last - 1, k, row);
    }
  }

  /** Two rows of RowOids, in row order. */
  lemma RowPairAscends(prefix: Oid, column: Int32, from: Int32, to: Int32, i: nat, j: nat)
    requires Plain(prefix) && |prefix.subids| <= MAX_NR_SUBIDS - 2
    requires 0 <= column && 0 <= from && i < j <= to as int - from as int
    ensures OidCmp(RowOids(prefix, column, from, to)[i], RowOids(prefix, column, from, to)[j]) < 0
  {
    var a: Int32 := from + i;
    var b: Int32 := from + j;
    RowOidsAt(prefix, column, from, to, i, a);
    RowOidsAt(prefix, column, from, to, j, b);
    RowsAscend(prefix, column, a, b);
  }

  /** With a non-negative column and rows, the OIDs mib_build_entries adds are in ascending order. */
  lemma RowOidsSorted(prefix: Oid, column: Int32, from: Int32, to: Int32)
    requires Plain(prefix) && |prefix.subids| <= MAX_NR_SUBIDS - 2
    requires 0 <= column && 0 <= from
    ensures forall i, j :: 0 <= i < j < |RowOids(prefix, column, from, to)| ==>
              OidCmp(RowOids(prefix, column, from, to)[i], RowOids(prefix, column, from, to)[j]) < 0
  {
    forall i, j | 0 <= i < j < |RowOids(prefix, column, from, to)|
      ensures OidCmp(RowOids(prefix, column, from, to)[i], RowOids(prefix, column, from, to)[j]) < 0
    {
      RowPairAscends(prefix, column, from, to, i, j);
    }
  }

  /* ---------------------------------------------------------------- */
  /* The table (mib.c:211-442, 861-887)                                 */
  /* ---------------------------------------------------------------- */

  /** g_mib and g_mib_length: the entries in use, each an OID and its data. */
  class Mib {
    var oids: seq<Oid>
    var data: seq<Data>

    /** At most MAX_NR_VALUES entries, each with its own data object and buffer. */
    predicate Valid()
      reads this, data
    {
      && |oids| == |data| <= MAX_NR_VALUES
      && (forall k :: 0 <= k < |data| ==> data[k].Valid())
      && (forall i, j :: 0 <= i < j < |data| ==> data[i] != data[j] && data[i].buffer != data[j].buffer)
    }

    /** The buffers of the entries. */
    function Buffers(): set<array<Byte>>
      reads this, data
    {
      set k | 0 <= k < |data| :: data[k].buffer
    }

    /** The table as the protocol handlers read it: each entry's OID and encoded value. */
    function Values(): (vs: seq<Value>)
      reads this, data, Buffers()
      requires Valid()
      ensures |vs| == |oids|
      ensures forall k :: 0 <= k < |vs| ==> vs[k] == Value(oids[k], data[k].Bytes())
    {
      seq(|oids|, k requires 0 <= k < |oids| && Valid() reads this, data, Buffers() => Value(oids[k], data[k].Bytes()))
    }

    /** The empty table. */
    constructor ()
      ensures Valid() && oids == [] && data == []
    {
      oids := [];
      data := [];
    }

    /**
     * mib_alloc_entry: when the table is full, nothing changes and NULL;
     * otherwise a new entry is counted first and carries the OID oid_build
     * leaves, so that a failed build or an unsupported type still occupies
     * the slot (with zeroed data) while the result is NULL. A new entry
     * that succeeds holds the placeholder of its type.
     */
    method AllocEntry(prefix: Oid, column: Int32, row: Int32, tag: Byte) returns (r: Option<nat>)
      requires Valid()
      modifies this
      ensures Valid()
      ensures |old(oids)| >= MAX_NR_VALUES ==> r.None? && oids == old(oids) && data == old(data)
      ensures |old(oids)| < MAX_NR_VALUES ==>
                && oids == old(oids) + [EntryOid(prefix, column, row)]
                && data[..|old(data)|] == old(data) && fresh(data[|old(data)|]) && fresh(data[|old(data)|].buffer)
      ensures |old(oids)| < MAX_NR_VALUES && r.None? ==> data[|old(data)|].Bytes() == []
      ensures r.Some? <==> |old(oids)| < MAX_NR_VALUES && |prefix.subids| <= MAX_NR_SUBIDS - 2 && Supported(tag)
      ensures r.Some? ==> r.value == |old(oids)| && data[r.value].maxLength == Capacity(tag)
                          && data[r.value].Bytes() == [tag, 0, 0]
    {
      if |oids| >= MAX_NR_VALUES {
        return None;
      }
      var entry := new Data();
      var built := OidBuild(prefix, column, row);
      OidBuildAppends(prefix, column, row);
      if built.code != 0 {
        Push(built.oid, entry);
        return None;
      }
      var ret, oid := EncodeOidLen(built.oid);
      var ret2 := DataAlloc(entry, tag);
      Push(oid, entry);
      if ret + ret2 != 0 {
        return None;
      }
      r := Some(|oids| - 1);
    }

    /** Counts a new entry: its OID and a data object no other entry shares. */
    method Push(oid: Oid, entry: Data)
      requires Valid() && |oids| < MAX_NR_VALUES && entry.Valid()
      requires forall k :: 0 <= k < |data| ==> data[k] != entry && data[k].buffer != entry.buffer
      modifies this
      ensures Valid() && oids == old(oids) + [oid] && data == old(data) + [entry]
    {
      oids := oids + [oid];
      data := data + [entry];
    }

    /**
     * The table is base followed by the entries of count rows from first
     * on, each holding the placeholder of tag.
     */
    predicate Grown(base: seq<Oid>, baseData: seq<Data>, prefix: Oid, column: Int32, first: Int32, count: nat, tag: Byte)
      reads this, data, Buffers()
    {
      && Valid() && |base| == |baseData| && first as int + count <= 0x8000_0000
      && |oids| == |base| + count && oids[..|base|] == base && data[..|base|] == baseData
      && (count > 0 ==> oids[|base|..] == RowOids(prefix, column, first, first as int + count - 1))
      && forall k :: |base| <= k < |oids| ==> data[k].Bytes() == [tag, 0, 0]
    }

    /** One turn of the loop of mib_build_entries: the entry of the next row. */
    method AllocRow(ghost base: seq<Oid>, ghost baseData: seq<Data>, prefix: Oid, column: Int32, first: Int32,
                    row: Int32, tag: Byte) returns (ok: bool)
      requires first <= row && Grown(base, baseData, prefix, column, first, row - first, tag)
      modifies this
      ensures Valid()
      ensures ok <==> |old(oids)| < MAX_NR_VALUES && |prefix.subids| <= MAX_NR_SUBIDS - 2 && Supported(tag)
      ensures ok ==> Grown(base, baseData, prefix, column, first, row - first + 1, tag)
    {
      ghost var count := row - first;
      var entry := AllocEntry(prefix, column, row, tag);
      ok := entry.Some?;
      if ok {
        assert oids[..|base|] == base by {
          assert oids[..|base|] == old(oids)[..|base|];
        }
        assert data[..|base|] == baseData by {
          assert data[..|base|] == data[..|old(data)|][..|base|];
        }
        ghost var rows := RowOids(prefix, column, first, row);
        if count == 0 {
          assert rows == [EntryOid(prefix, column, row)];
        } else {
          assert rows == RowOids(prefix, column, first, row - 1) + [EntryOid(prefix, column, row)];
          assert old(oids)[|base|..] == RowOids(prefix, column, first, row - 1);
        }
        assert oids[|base|..] == old(oids)[|base|..] + [EntryOid(prefix, column, row)];
        assert oids[|base|..] == rows;
        forall k | |base| <= k < |oids|
          ensures data[k].Bytes() == [tag, 0, 0]
        {
          if k < |old(oids)| {
            assert data[k] == old(data)[k];
          }
        }
      }
    }

    /**
     * mib_build_entries: allocates the entries of rows first to last in
     * order and stops with -1 at the first that fails. On success the table
     * has grown by exactly those rows, each holding its placeholder.
     */
    method BuildEntries(prefix: Oid, column: Int32, first: Int32, last: Int32, tag: Byte) returns (r: int)
      requires Valid()
      modifies this
      ensures Valid() && (r == 0 || r == -1)
      ensures r == 0 <==> last < first ||
                          (|old(oids)| + (last - first + 1) <= MAX_NR_VALUES
                           && |prefix.subids| <= MAX_NR_SUBIDS - 2 && Supported(tag))
      ensures r == 0 && first <= last ==> Grown(old(oids), old(data), prefix, column, first, last - first + 1, tag)
    {
      if last < first {
        return 0;
      }
      var row: int := first;
      assert oids[..|oids|] == oids && data[..|data|] == data;
      while row <= last
        invariant first <= row <= last + 1
        invariant Grown(old(oids), old(data), prefix, column, first, row - first, tag)
        invariant |old(oids)| + (row - first) <= MAX_NR_VALUES
        invariant row > first ==> |prefix.subids| <= MAX_NR_SUBIDS - 2 && Supported(tag)
        decreases last - row
      {
        var ok := AllocRow(old(oids), old(data), prefix, column, first, row, tag);
        if !ok {
          return -1;
        }
        row := row + 1;
      }
      r := 0;
    }

    /**
     * mib_find: from the cursor pos on, the first entry that is q or lies
     * under it; the cursor is left on that entry, or at the end of the table
     * when there is none. A cursor past the end finds nothing and stays.
     */
    method Find(q: Oid, pos: nat) returns (found: bool, next: nat)
      requires Valid()
      ensures pos <= |oids| ==> next == FindFrom(Values(), q, pos)
      ensures pos > |oids| ==> next == pos
      ensures found <==> next < |oids|
    {
      next := pos;
      while next < |oids|
        invariant pos <= |oids| ==> pos <= next <= |oids| && FindFrom(Values(), q, next) == FindFrom(Values(), q, pos)
        invariant pos > |oids| ==> next == pos
        decreases |oids| - next
      {
        if |oids[next].subids| >= |q.subids| && oids[next].subids[..|q.subids|] == q.subids {
          return true, next;
        }
        next := next + 1;
      }
      found := false;
    }

    /** mib_findnext: the first entry oid_cmp orders after q, or the end of the table. */
    method FindNext(q: Oid) returns (found: bool, next: nat)
      requires Valid()
      ensures next == MibView.FindNext(Values(), q)
      ensures found <==> next < |oids|
    {
      next := 0;
      while next < |oids|
        invariant next <= |oids| && FindNextFrom(Values(), q, next) == MibView.FindNext(Values(), q)
        decreases |oids| - next
      {
        if OidCmp(oids[next], q) > 0 {
          return true, next;
        }
        next := next + 1;
      }
      found := false;
    }

    /** The data objects of the entries. */
    function Objects(): set<Data>
      reads this
    {
      set k | 0 <= k < |data| :: data[k]
    }

    /**
     * Whether the entry of each OID at or after pos that lies under q has
     * room for any value of tag, as mib_data_set assumes the table was
     * built: the string buffer grows, the others are written in place.
     */
    predicate RoomFor(q: seq<Uint32>, pos: nat, tag: Byte)
      reads this, data
    {
      forall k :: pos <= k < |data| && k < |oids| && Covers(oids[k], Oid(q, 0)) ==>
        Supported(tag) && tag != BER_TYPE_OCTET_STRING ==> data[k].maxLength >= Capacity(tag)
    }

    /**
     * mib_data_set on entry k: data_set with its codes 1, 2 and -1 folded
     * into -1. Only that entry's bytes change.
     */
    method SetValue(k: nat, tag: Byte, arg: Arg) returns (r: int)
      requires Valid() && k < |data| && ArgFits(tag, arg)
      requires Supported(tag) && tag != BER_TYPE_OCTET_STRING ==> data[k].maxLength >= Capacity(tag)
      modifies data[k], data[k].buffer
      ensures Valid() && oids == old(oids) && data == old(data)
      ensures forall j :: 0 <= j < |data| && j != k ==> data[j].Bytes() == old(data[j].Bytes())
      ensures Encoding(tag, arg).Encoded? ==> r == 0 && data[k].Bytes() == Encoding(tag, arg).bytes
      ensures Encoding(tag, arg).Rejected? ==>
                r == -1 && Cleared(data[k].Bytes()) && data[k].encodedLength == old(data[k].encodedLength)
    {
      var entry := data[k];
      var ret := DataSet(entry, tag, arg);
      r := if ret == 0 then 0 else -1;
    }

    /**
     * mib_build_entry: allocates the entry of the row and sets its value;
     * -1 when either step fails. Entries already in the table keep their
     * values.
     */
    method BuildEntry(prefix: Oid, column: Int32, row: Int32, tag: Byte, arg: Arg) returns (r: int)
      requires Valid() && ArgFits(tag, arg)
      modifies this
      ensures Valid() && (r == 0 || r == -1)
      ensures |old(oids)| >= MAX_NR_VALUES ==> r == -1 && oids == old(oids) && data == old(data)
      ensures |old(oids)| < MAX_NR_VALUES ==>
                oids == old(oids) + [EntryOid(prefix, column, row)] && data[..|old(data)|] == old(data)
      ensures forall j :: 0 <= j < |old(data)| ==> data[j].Bytes() == old(data[j].Bytes())
      ensures r == 0 <==> |old(oids)| < MAX_NR_VALUES && |prefix.subids| <= MAX_NR_SUBIDS - 2
                          && Encoding(tag, arg).Encoded?
      ensures r == 0 ==> data[|old(data)|].Bytes() == Encoding(tag, arg).bytes
    {
      var slot := AllocEntry(prefix, column, row, tag);
      if slot.None? {
        return -1;
      }
      r := SetValue(slot.value, tag, arg);
    }

    /**
     * mib_update_entry: builds the OID of the row (-1 if it does not fit),
     * finds its entry from the cursor on (-1 if there is none) and sets its
     * value (-1 if that fails). The cursor is left on the entry found, so
     * that updates in table order search each entry once; only that entry
     * changes.
     */
    method UpdateEntry(prefix: Oid, column: Int32, row: Int32, pos: nat, tag: Byte, arg: Arg)
      returns (r: int, next: nat)
      requires Valid() && ArgFits(tag, arg)
      requires RoomFor(OidBuild(prefix, column, row).oid.subids, pos, tag)
      modifies Objects(), Buffers()
      ensures Valid() && oids == old(oids) && data == old(data) && (r == 0 || r == -1)
      ensures OidBuild(prefix, column, row).code != 0 ==> r == -1 && next == pos
      ensures OidBuild(prefix, column, row).code == 0 ==>
                next == (if pos <= |oids| then FindFrom(old(Values()), OidBuild(prefix, column, row).oid, pos) else pos)
      ensures OidBuild(prefix, column, row).code != 0 || next >= |oids| ==>
                r == -1 && forall j :: 0 <= j < |data| ==> data[j].Bytes() == old(data[j].Bytes())
      ensures OidBuild(prefix, column, row).code == 0 && next < |oids| ==>
                && (forall j :: 0 <= j < |data| && j != next ==> data[j].Bytes() == old(data[j].Bytes()))
                && (Encoding(tag, arg).Encoded? ==> r == 0 && data[next].Bytes() == Encoding(tag, arg).bytes)
                && (Encoding(tag, arg).Rejected? ==>
                      r == -1 && Cleared(data[next].Bytes()) && data[next].encodedLength == old(data[next].encodedLength))
    {
      var built := OidBuild(prefix, column, row);
      if built.code != 0 {
        return -1, pos;
      }
      r, next := UpdateAt(built.oid, pos, tag, arg);
    }

    /** The search from the cursor and the set of mib_update_entry, for the OID q it built. */
    method UpdateAt(q: Oid, pos: nat, tag: Byte, arg: Arg) returns (r: int, next: nat)
      requires Valid() && ArgFits(tag, arg) && RoomFor(q.subids, pos, tag)
      modifies Objects(), Buffers()
      ensures Valid() && oids == old(oids) && data == old(data) && (r == 0 || r == -1)
      ensures next == (if pos <= |oids| then FindFrom(old(Values()), q, pos) else pos)
      ensures next >= |oids| ==> r == -1 && forall j :: 0 <= j < |data| ==> data[j].Bytes() == old(data[j].Bytes())
      ensures next < |oids| ==>
                && (forall j :: 0 <= j < |data| && j != next ==> data[j].Bytes() == old(data[j].Bytes()))
                && (Encoding(tag, arg).Encoded? ==> r == 0 && data[next].Bytes() == Encoding(tag, arg).bytes)
                && (Encoding(tag, arg).Rejected? ==>
                      r == -1 && Cleared(data[next].Bytes()) && data[next].encodedLength == old(data[next].encodedLength))
    {
      ghost var values := Values();
      var found;
      found, next := Find(q, pos);
      ghost var located := next;
      assert located == (if pos <= |oids| then FindFrom(values, q, pos) else pos);
      assert forall j :: 0 <= j < |data| ==> data[j].Bytes() == old(data[j].Bytes());
      if !found {
        return -1, next;
      }
      assert Covers(oids[next], q) by {
        assert Values()[next].oid == oids[next];
      }
      r := SetValue(next, tag, arg);
      assert next == located;
    }
  }

  /**
   * Resuming the search at the entry of an earlier update finds what a
   * search from the start finds, when the table is sorted and the updates
   * come in ascending order: every entry before the cursor orders before
   * the earlier OID, so none of them lies under the later one.
   */
  lemma CursorResume(mib: seq<Value>, pos: nat, q1: Oid, q2: Oid)
    requires Sorted(mib) && AllPlain(mib) && Plain(q1) && Plain(q2)
    requires pos < |mib| && mib[pos].oid.subids == q1.subids && OidCmp(q1, q2) < 0
    ensures FindFrom(mib, q2, pos) == Find(mib, q2)
  {
    forall k | 0 <= k < pos
      ensures !Covers(mib[k].oid, q2)
    {
      assert OidCmp(mib[k].oid, mib[pos].oid) < 0;
      assert OidCmp(mib[k].oid, q1) < 0 by {
        OidCmpIsLexicographic(mib[k].oid, mib[pos].oid);
        OidCmpIsLexicographic(mib[k].oid, q1);
      }
      OidCmpTransitive(mib[k].oid, q1, q2);
      if Covers(mib[k].oid, q2) {
        LexCmpPrefix(mib[k].oid.subids, q2.subids);
        OidCmpIsLexicographic(mib[k].oid, q2);
        assert false;
      }
    }
    FindFromSkips(mib, q2, 0, pos);
  }

  /** A search starting before entries that do not qualify finds what a search starting after them finds. */
  lemma {:induction false} FindFromSkips(mib: seq<Value>, q: Oid, i: nat, pos: nat)
    requires i <= pos <= |mib|
    requires forall k :: i <= k < pos ==> !Covers(mib[k].oid, q)
    ensures FindFrom(mib, q, i) == FindFrom(mib, q, pos)
    decreases pos - i
  {
    if i < pos {
      FindFromSkips(mib, q, i + 1, pos);
    }
  }
}
