/**
 * The request handlers of protocol.c and snmp(), which ties the decoder,
 * the handlers and the encoder together. The handlers see the MIB as the
 * sequence of its values, searched with mib_find and mib_findnext
 * (module MibView); RFC 3416 section 4.2 gives the rules they follow.
 */
module Agent {

  import opened Types
  import opened Utils
  import opened MibView
  import opened RequestDecoder
  import opened ResponseEncoder

  /** m_no_such_object, m_no_such_instance and m_end_of_mib_view: the exception values of SNMPv2c. */
  const NO_SUCH_OBJECT_DATA: seq<Byte> := [BER_TYPE_NO_SUCH_OBJECT, 0x00]
  const NO_SUCH_INSTANCE_DATA: seq<Byte> := [BER_TYPE_NO_SUCH_INSTANCE, 0x00]
  const END_OF_MIB_VIEW_DATA: seq<Byte> := [BER_TYPE_END_OF_MIB_VIEW, 0x00]

  /**
   * What handle_snmp_get or handle_snmp_getnext leaves behind: whether it
   * returned 0, the index of the OID at which an SNMPv1 request stopped with
   * noSuchName, and the value list of the response.
   */
  datatype Handled = Handled(ok: bool, stop: Option<nat>, values: seq<Value>)

  /**
   * The append every handler performs: the value goes at the end of the
   * value list while the list holds fewer than MAX_NR_VALUES values.
   */
  method Append(response: Response, v: Value) returns (ok: bool)
    modifies response
    ensures ok <==> |old(response.values)| < MAX_NR_VALUES
    ensures response.values == if ok then old(response.values) + [v] else old(response.values)
    ensures response.errorStatus == old(response.errorStatus) && response.errorIndex == old(response.errorIndex)
  {
    if |response.values| < MAX_NR_VALUES {
      response.values := response.values + [v];
      return true;
    }
    return false;
  }

  lemma Associative(a: seq<Value>, b: seq<Value>, c: seq<Value>)
    ensures a + (b + c) == (a + b) + c
  {
  }

  /* ---------------------------------------------------------------------------
   * GET
   */

  /**
   * The lookup of handle_snmp_get does not name q itself: no entry lies at
   * or under q, or the first one that does is longer than q.
   */
  predicate GetMissing(mib: seq<Value>, q: Oid) {
    var pos := Find(mib, q);
    pos >= |mib| || |mib[pos].oid.subids| != |q.subids|
  }

  /**
   * The binding GET answers for q when it does not stop: the entry for q, or
   * q with noSuchInstance when the first entry under q is one level below
   * it (an object whose instance was not asked for), else noSuchObject.
   */
  function GetBinding(mib: seq<Value>, q: Oid): (v: Value)
    ensures !GetMissing(mib, q) ==> v == mib[Find(mib, q)] && v.oid.subids == q.subids
    ensures GetMissing(mib, q) ==> v.oid == q && (v.data == NO_SUCH_OBJECT_DATA || v.data == NO_SUCH_INSTANCE_DATA)
  {
    var pos := Find(mib, q);
    if pos >= |mib| then Value(q, NO_SUCH_OBJECT_DATA)
    else if |mib[pos].oid.subids| == |q.subids| + 1 then Value(q, NO_SUCH_INSTANCE_DATA)
    else if |mib[pos].oid.subids| != |q.subids| then Value(q, NO_SUCH_OBJECT_DATA)
    else
      assert mib[pos].oid.subids[..|q.subids|] == mib[pos].oid.subids;
      mib[pos]
  }

  /** The bindings of GET for every OID of a list, in order. */
  function GetBindings(mib: seq<Value>, oids: seq<Oid>): (r: seq<Value>)
    ensures |r| == |oids| && forall k :: 0 <= k < |r| ==> r[k] == GetBinding(mib, oids[k])
  {
    seq(|oids|, k requires 0 <= k < |oids| => GetBinding(mib, oids[k]))
  }

  /** handle_snmp_get from the OID at index i on, with values in the value list. */
  function GetFrom(mib: seq<Value>, request: Request, i: nat, values: seq<Value>): Handled
    requires i <= |request.oids|
    decreases |request.oids| - i
  {
    if i == |request.oids| then Handled(true, None, values)
    else
      var q := request.oids[i];
      if GetMissing(mib, q) && request.version == SNMP_VERSION_1 then Handled(true, Some(i), values)
      else if |values| >= MAX_NR_VALUES then Handled(false, None, values)
      else GetFrom(mib, request, i + 1, values + [GetBinding(mib, q)])
  }

  /** handle_snmp_get on a response whose value list holds values. */
  function GetSpec(mib: seq<Value>, request: Request, values: seq<Value>): Handled {
    GetFrom(mib, request, 0, values)
  }

  /** handle_snmp_get: one lookup per requested OID, in order. */
  method HandleGet(request: Request, response: Response, mib: seq<Value>) returns (result: int)
    requires |request.oids| <= MAX_NR_OIDS
    modifies response
    ensures var h := GetSpec(mib, request, old(response.values));
            && (result == 0 || result == -1) && (result == 0 <==> h.ok)
            && response.values == h.values
            && (h.stop.Some? ==> response.errorStatus == SNMP_STATUS_NO_SUCH_NAME && response.errorIndex == h.stop.value)
            && (h.stop.None? ==> response.errorStatus == old(response.errorStatus)
                                 && response.errorIndex == old(response.errorIndex))
  {
    var i := 0;
    while i < |request.oids|
      invariant i <= |request.oids|
      invariant GetFrom(mib, request, i, response.values) == GetSpec(mib, request, old(response.values))
      invariant response.errorStatus == old(response.errorStatus) && response.errorIndex == old(response.errorIndex)
    {
      var q := request.oids[i];
      var pos := Find(mib, q);
      var ok;
      if pos < |mib| && |mib[pos].oid.subids| == |q.subids| {
        ok := Append(response, mib[pos]);
      } else if request.version == SNMP_VERSION_1 {
        response.errorStatus := SNMP_STATUS_NO_SUCH_NAME;
        response.errorIndex := i;
        return 0;
      } else if pos < |mib| && |mib[pos].oid.subids| == |q.subids| + 1 {
        ok := Append(response, Value(q, NO_SUCH_INSTANCE_DATA));
      } else {
        ok := Append(response, Value(q, NO_SUCH_OBJECT_DATA));
      }
      if !ok {
        return -1;
      }
      i := i + 1;
    }
    return 0;
  }

  /**
   * Without an SNMPv1 stop, GET answers every OID in order, with the entry
   * or the exception value, as long as the value list has room for them.
   */
  lemma {:induction false} GetAnswersAll(mib: seq<Value>, request: Request, i: nat, values: seq<Value>)
    requires i <= |request.oids| && |values| + |request.oids| - i <= MAX_NR_VALUES
    requires request.version == SNMP_VERSION_1 ==> forall k :: i <= k < |request.oids| ==> !GetMissing(mib, request.oids[k])
    ensures GetFrom(mib, request, i, values) == Handled(true, None, values + GetBindings(mib, request.oids[i..]))
    decreases |request.oids| - i
  {
    var oids := request.oids;
    if i == |oids| {
      assert GetBindings(mib, oids[i..]) == [];
    } else {
      var b := GetBinding(mib, oids[i]);
      assert GetFrom(mib, request, i, values) == GetFrom(mib, request, i + 1, values + [b]);
      GetAnswersAll(mib, request, i + 1, values + [b]);
      GetBindingsSliceCons(mib, oids, i, |oids|);
      assert oids[i..|oids|] == oids[i..] && oids[i + 1..|oids|] == oids[i + 1..];
      Associative(values, [b], GetBindings(mib, oids[i + 1..]));
    }
  }

  /**
   * An SNMPv1 GET stops at the first OID the MIB does not hold, with
   * noSuchName and that OID's index, after the bindings of the OIDs before it.
   */
  lemma {:induction false} GetStopsAtFirstMissing(mib: seq<Value>, request: Request, i: nat, stop: nat, values: seq<Value>)
    requires request.version == SNMP_VERSION_1
    requires i <= stop < |request.oids| && |values| + stop - i <= MAX_NR_VALUES
    requires GetMissing(mib, request.oids[stop])
    requires forall k :: i <= k < stop ==> !GetMissing(mib, request.oids[k])
    ensures GetFrom(mib, request, i, values) == Handled(true, Some(stop), values + GetBindings(mib, request.oids[i..stop]))
    decreases stop - i
  {
    var oids := request.oids;
    if i == stop {
      assert GetBindings(mib, oids[i..stop]) == [];
    } else {
      var b := GetBinding(mib, oids[i]);
      assert !GetMissing(mib, oids[i]);
      assert GetFrom(mib, request, i, values) == GetFrom(mib, request, i + 1, values + [b]);
      GetStopsAtFirstMissing(mib, request, i + 1, stop, values + [b]);
      GetBindingsSliceCons(mib, oids, i, stop);
      Associative(values, [b], GetBindings(mib, oids[i + 1..stop]));
    }
  }

  /** The GET bindings of the OIDs from index i up to j: the one of OID i, then the rest. */
  lemma GetBindingsSliceCons(mib: seq<Value>, oids: seq<Oid>, i: nat, j: nat)
    requires i < j <= |oids|
    ensures GetBindings(mib, oids[i..j]) == [GetBinding(mib, oids[i])] + GetBindings(mib, oids[i + 1..j])
  {
    assert oids[i..j][1..] == oids[i + 1..j];
  }

  /**
   * In a sorted MIB, GET names q exactly when the MIB holds an entry with
   * q's subidentifiers, and then answers with that entry.
   */
  lemma GetFindsEntry(mib: seq<Value>, q: Oid)
    requires Sorted(mib) && AllPlain(mib) && Plain(q)
    ensures !GetMissing(mib, q) <==> exists k :: 0 <= k < |mib| && mib[k].oid.subids == q.subids
    ensures forall k :: 0 <= k < |mib| && mib[k].oid.subids == q.subids ==> GetBinding(mib, q) == mib[k]
  {
    forall k | 0 <= k < |mib| && mib[k].oid.subids == q.subids
      ensures Find(mib, q) == k
    {
      FindExact(mib, q, k);
    }
    if !GetMissing(mib, q) {
      assert mib[Find(mib, q)].oid.subids == q.subids;
    }
  }

  /* ---------------------------------------------------------------------------
   * GETNEXT
   */

  /** The binding GETNEXT answers for q: the entry mib_findnext reports, or q with endOfMibView. */
  function NextBinding(mib: seq<Value>, q: Oid): (v: Value)
    ensures FindNext(mib, q) < |mib| ==> v == mib[FindNext(mib, q)] && OidCmp(v.oid, q) > 0
    ensures FindNext(mib, q) >= |mib| ==> v == Value(q, END_OF_MIB_VIEW_DATA)
  {
    var pos := FindNext(mib, q);
    if pos >= |mib| then Value(q, END_OF_MIB_VIEW_DATA) else mib[pos]
  }

  /** The bindings of GETNEXT for every OID of a list, in order. */
  function NextBindings(mib: seq<Value>, oids: seq<Oid>): (r: seq<Value>)
    ensures |r| == |oids| && forall k :: 0 <= k < |r| ==> r[k] == NextBinding(mib, oids[k])
  {
    seq(|oids|, k requires 0 <= k < |oids| => NextBinding(mib, oids[k]))
  }

  /** handle_snmp_getnext from the OID at index i on, with values in the value list. */
  function GetNextFrom(mib: seq<Value>, request: Request, i: nat, values: seq<Value>): Handled
    requires i <= |request.oids|
    decreases |request.oids| - i
  {
    if i == |request.oids| then Handled(true, None, values)
    else
      var q := request.oids[i];
      if FindNext(mib, q) >= |mib| && request.version == SNMP_VERSION_1 then Handled(true, Some(i), values)
      else if |values| >= MAX_NR_VALUES then Handled(false, None, values)
      else GetNextFrom(mib, request, i + 1, values + [NextBinding(mib, q)])
  }

  /** handle_snmp_getnext on a response whose value list holds values. */
  function GetNextSpec(mib: seq<Value>, request: Request, values: seq<Value>): Handled {
    GetNextFrom(mib, request, 0, values)
  }

  /** handle_snmp_getnext: one successor lookup per requested OID, in order. */
  method HandleGetNext(request: Request, response: Response, mib: seq<Value>) returns (result: int)
    requires |request.oids| <= MAX_NR_OIDS
    modifies response
    ensures var h := GetNextSpec(mib, request, old(response.values));
            && (result == 0 || result == -1) && (result == 0 <==> h.ok)
            && response.values == h.values
            && (h.stop.Some? ==> response.errorStatus == SNMP_STATUS_NO_SUCH_NAME && response.errorIndex == h.stop.value)
            && (h.stop.None? ==> response.errorStatus == old(response.errorStatus)
                                 && response.errorIndex == old(response.errorIndex))
  {
    var i := 0;
    while i < |request.oids|
      invariant i <= |request.oids|
      invariant GetNextFrom(mib, request, i, response.values) == GetNextSpec(mib, request, old(response.values))
      invariant response.errorStatus == old(response.errorStatus) && response.errorIndex == old(response.errorIndex)
    {
      var q := request.oids[i];
      var pos := FindNext(mib, q);
      var ok;
      if pos >= |mib| {
        if request.version == SNMP_VERSION_1 {
          response.errorStatus := SNMP_STATUS_NO_SUCH_NAME;
          response.errorIndex := i;
          return 0;
        }
        ok := Append(response, Value(q, END_OF_MIB_VIEW_DATA));
      } else {
        ok := Append(response, mib[pos]);
      }
      if !ok {
        return -1;
      }
      i := i + 1;
    }
    return 0;
  }

  /**
   * Without an SNMPv1 stop, GETNEXT answers the successor of every OID in
   * order, as long as the value list has room for them.
   */
  lemma {:induction false} GetNextAnswersAll(mib: seq<Value>, request: Request, i: nat, values: seq<Value>)
    requires i <= |request.oids| && |values| + |request.oids| - i <= MAX_NR_VALUES
    requires request.version == SNMP_VERSION_1 ==> forall k :: i <= k < |request.oids| ==> FindNext(mib, request.oids[k]) < |mib|
    ensures GetNextFrom(mib, request, i, values) == Handled(true, None, values + NextBindings(mib, request.oids[i..]))
    decreases |request.oids| - i
  {
    var oids := request.oids;
    if i == |oids| {
      assert NextBindings(mib, oids[i..]) == [];
    } else {
      var b := NextBinding(mib, oids[i]);
      assert GetNextFrom(mib, request, i, values) == GetNextFrom(mib, request, i + 1, values + [b]);
      GetNextAnswersAll(mib, request, i + 1, values + [b]);
      NextBindingsCons(mib, oids, i);
      Associative(values, [b], NextBindings(mib, oids[i + 1..]));
    }
  }

  /**
   * An SNMPv1 GETNEXT stops with noSuchName at the first OID after which
   * the MIB holds nothing, after the successors of the OIDs before it.
   */
  lemma {:induction false} GetNextStopsAtEnd(mib: seq<Value>, request: Request, i: nat, stop: nat, values: seq<Value>)
    requires request.version == SNMP_VERSION_1
    requires i <= stop < |request.oids| && |values| + stop - i <= MAX_NR_VALUES
    requires FindNext(mib, request.oids[stop]) >= |mib|
    requires forall k :: i <= k < stop ==> FindNext(mib, request.oids[k]) < |mib|
    ensures GetNextFrom(mib, request, i, values) == Handled(true, Some(stop), values + NextBindings(mib, request.oids[i..stop]))
    decreases stop - i
  {
    var oids := request.oids;
    if i == stop {
      assert NextBindings(mib, oids[i..stop]) == [];
    } else {
      var b := NextBinding(mib, oids[i]);
      assert FindNext(mib, oids[i]) < |mib|;
      assert GetNextFrom(mib, request, i, values) == GetNextFrom(mib, request, i + 1, values + [b]);
      GetNextStopsAtEnd(mib, request, i + 1, stop, values + [b]);
      NextBindingsSliceCons(mib, oids, i, stop);
      Associative(values, [b], NextBindings(mib, oids[i + 1..stop]));
    }
  }

  /**
   * In a sorted MIB, GETNEXT answers the least entry after q, and
   * endOfMibView exactly when no entry orders after q.
   */
  lemma NextIsSuccessor(mib: seq<Value>, q: Oid)
    requires Sorted(mib)
    ensures (NextBinding(mib, q).data == END_OF_MIB_VIEW_DATA && NextBinding(mib, q).oid == q)
            || (NextBinding(mib, q) in mib && OidCmp(NextBinding(mib, q).oid, q) > 0)
    ensures FindNext(mib, q) >= |mib| <==> forall k :: 0 <= k < |mib| ==> OidCmp(mib[k].oid, q) <= 0
    ensures forall k :: 0 <= k < |mib| && OidCmp(mib[k].oid, q) > 0 ==>
              NextBinding(mib, q) == mib[k] || OidCmp(NextBinding(mib, q).oid, mib[k].oid) < 0
  {
    FindNextIsSuccessor(mib, q);
  }

  /* ---------------------------------------------------------------------------
   * GETBULK
   */

  /**
   * What is left of the OID list and the value list after a round of
   * repetitions, and how many of its OIDs had a successor (found_repeater).
   */
  datatype Bulk = Bulk(oids: seq<Oid>, values: seq<Value>, found: nat)

  /** The number of OIDs from index i to the end of a list of length n. */
  function Rest(n: nat, i: nat): nat {
    if i < n then n - i else 0
  }

  /** The non-repeaters of handle_snmp_getbulk: GETNEXT on oids[i..n], or None on overflow. */
  function NonRepeatersFrom(mib: seq<Value>, oids: seq<Oid>, n: nat, i: nat, values: seq<Value>): Option<seq<Value>>
    requires i <= n <= |oids|
    decreases n - i
  {
    if i == n then Some(values)
    else if |values| >= MAX_NR_VALUES then None
    else NonRepeatersFrom(mib, oids, n, i + 1, values + [NextBinding(mib, oids[i])])
  }

  /**
   * One repetition of handle_snmp_getbulk from index i on: the successor of
   * each OID goes to the value list, and the OID is replaced by it when there
   * is one; None on overflow.
   */
  function RoundFrom(mib: seq<Value>, b: Bulk, i: nat): (r: Option<Bulk>)
    ensures r.Some? ==> |r.value.oids| == |b.oids| && r.value.found >= b.found
    ensures r.Some? ==> |r.value.values| == |b.values| + Rest(|b.oids|, i)
                        && r.value.values[..|b.values|] == b.values
    decreases |b.oids| - i
  {
    if i >= |b.oids| then Some(b)
    else if |b.values| >= MAX_NR_VALUES then None
    else RoundFrom(mib, Step(mib, b, i), i + 1)
  }

  /**
   * The step of a round at OID i: its successor binding is appended and
   * the OID moves to it (an OID at the end of the view has itself as the
   * binding's OID, so it stays); found counts the successors.
   */
  function Step(mib: seq<Value>, b: Bulk, i: nat): Bulk
    requires i < |b.oids|
  {
    var v := NextBinding(mib, b.oids[i]);
    Bulk(b.oids[i := v.oid], b.values + [v], if FindNext(mib, b.oids[i]) < |mib| then b.found + 1 else b.found)
  }

  /**
   * The repetitions j to m of handle_snmp_getbulk, each from index start on;
   * they end early after a round in which no OID had a successor.
   */
  function RepeatFrom(mib: seq<Value>, oids: seq<Oid>, values: seq<Value>, start: nat, j: nat, m: nat): Option<seq<Value>>
    decreases m - j
  {
    if j >= m then Some(values)
    else
      match RoundFrom(mib, Bulk(oids, values, 0), start)
      case None => None
      case Some(b) => if b.found == 0 then Some(b.values) else RepeatFrom(mib, b.oids, b.values, start, j + 1, m)
  }

  /**
   * The value list of a GETBULK answer with n non-repeaters and m
   * repetitions on a response holding values, or None on overflow.
   */
  function BulkReply(mib: seq<Value>, oids: seq<Oid>, values: seq<Value>, n: nat, m: nat): Option<seq<Value>> {
    var s := if n < |oids| then n else |oids|;
    match NonRepeatersFrom(mib, oids, s, 0, values)
    case None => None
    case Some(vs) => RepeatFrom(mib, oids, vs, n, 0, m)
  }

  /**
   * The non-repeaters or max-repetitions field as RFC 3416 section 4.2.3
   * wants it: the field as a signed integer, negative values taken as zero.
   */
  function Clamp(x: Uint32): (r: nat)
    ensures r == if ToInt32(x) < 0 then 0 else ToInt32(x) as nat
  {
    if x >= 0x8000_0000 then 0 else x
  }

  /** handle_snmp_getbulk with the clamps of its fields to zero in effect. */
  function GetBulkSpec(mib: seq<Value>, request: Request, values: seq<Value>): Option<seq<Value>> {
    BulkReply(mib, request.oids, values, Clamp(request.nonRepeaters), Clamp(request.maxRepetitions))
  }

  /**
   * handle_snmp_getbulk as written: the fields are unsigned, so the clamps
   * never apply. The repetitions start at (int)non_repeaters, which indexes
   * before the OID list when the field is 2^31 or more and a repetition runs.
   */
  function GetBulkAsWritten(mib: seq<Value>, request: Request, values: seq<Value>): (r: Option<seq<Value>>)
    requires request.nonRepeaters < 0x8000_0000 || request.maxRepetitions == 0
    ensures request.nonRepeaters < 0x8000_0000 && request.maxRepetitions < 0x8000_0000 ==>
              r == GetBulkSpec(mib, request, values)
  {
    BulkReply(mib, request.oids, values, request.nonRepeaters, request.maxRepetitions)
  }

  /**
   * A max-repetitions of -1 goes out as 0xFFFFFFFF and the clamp does not
   * catch it: a GETBULK with no non-repeaters on q, in a MIB holding one
   * entry e after q, answers e and then endOfMibView, where zero
   * repetitions answer nothing.
   */
  lemma NegativeRepetitionsRepeat(e: Value, q: Oid, community: seq<Byte>)
    requires OidCmp(e.oid, q) > 0
    ensures var request := Request(community, BER_TYPE_SNMP_GETBULK, SNMP_VERSION_2C, 0, 0, 0xFFFF_FFFF, [q]);
            && GetBulkAsWritten([e], request, []) == Some([e, Value(e.oid, END_OF_MIB_VIEW_DATA)])
            && GetBulkSpec([e], request, []) == Some([])
  {
    var request := Request(community, BER_TYPE_SNMP_GETBULK, SNMP_VERSION_2C, 0, 0, 0xFFFF_FFFF, [q]);
    assert NonRepeatersFrom([e], [q], 0, 0, []) == Some([]);
    assert FindNext([e], q) == 0;
    assert NextBinding([e], q) == e;
    assert [q][0 := e.oid] == [e.oid] && [] + [e] == [e];
    assert RoundFrom([e], Bulk([q], [], 0), 0) == RoundFrom([e], Bulk([e.oid], [e], 1), 1);
    assert RoundFrom([e], Bulk([e.oid], [e], 1), 1) == Some(Bulk([e.oid], [e], 1));
    OidCmpReflexive(e.oid);
    assert FindNext([e], e.oid) == 1;
    var last := [e, Value(e.oid, END_OF_MIB_VIEW_DATA)];
    assert [e] + [Value(e.oid, END_OF_MIB_VIEW_DATA)] == last && [e.oid][0 := e.oid] == [e.oid];
    assert RoundFrom([e], Bulk([e.oid], [e], 0), 0) == RoundFrom([e], Bulk([e.oid], last, 0), 1);
    assert RoundFrom([e], Bulk([e.oid], last, 0), 1) == Some(Bulk([e.oid], last, 0));
    assert RepeatFrom([e], [e.oid], [e], 0, 1, 0xFFFF_FFFF) == Some([e, Value(e.oid, END_OF_MIB_VIEW_DATA)]);
  }

  /**
   * GETBULK begins with GETNEXT on the non-repeaters, as long as the value
   * list has room for them.
   */
  lemma {:induction false} NonRepeatersAreNext(mib: seq<Value>, oids: seq<Oid>, n: nat, i: nat, values: seq<Value>)
    requires i <= n <= |oids| && |values| + n - i <= MAX_NR_VALUES
    ensures NonRepeatersFrom(mib, oids, n, i, values) == Some(values + NextBindings(mib, oids[i..n]))
    decreases n - i
  {
    if i == n {
      assert NextBindings(mib, oids[i..n]) == [];
      assert values + [] == values;
    } else {
      var b := NextBinding(mib, oids[i]);
      assert NonRepeatersFrom(mib, oids, n, i, values) == NonRepeatersFrom(mib, oids, n, i + 1, values + [b]);
      NonRepeatersAreNext(mib, oids, n, i + 1, values + [b]);
      assert NextBindings(mib, oids[i..n]) == [b] + NextBindings(mib, oids[i + 1..n]);
      Associative(values, [b], NextBindings(mib, oids[i + 1..n]));
    }
  }

  /**
   * A round that has room answers the successor of every OID from index i
   * on, moves each OID to its successor (an OID at the end of the view stays
   * where it is) and counts a repeater exactly when it had a successor.
   */
  lemma RoundIsNext(mib: seq<Value>, b: Bulk, i: nat)
    requires i <= |b.oids| && |b.values| + |b.oids| - i <= MAX_NR_VALUES
    ensures var r := RoundFrom(mib, b, i);
            && r.Some?
            && r.value.values == b.values + NextBindings(mib, b.oids[i..])
            && r.value.oids[..i] == b.oids[..i]
            && (forall k :: i <= k < |b.oids| ==> r.value.oids[k] == NextBinding(mib, b.oids[k]).oid)
            && (r.value.found == b.found <==> forall k :: i <= k < |b.oids| ==> FindNext(mib, b.oids[k]) >= |mib|)
  {
    RoundValues(mib, b, i);
    RoundOids(mib, b, i);
    RoundFound(mib, b, i);
  }

  /** The values a round that has room adds: the successor of every OID from index i on. */
  lemma {:induction false} RoundValues(mib: seq<Value>, b: Bulk, i: nat)
    requires i <= |b.oids| && |b.values| + |b.oids| - i <= MAX_NR_VALUES
    ensures RoundFrom(mib, b, i).Some?
    ensures RoundFrom(mib, b, i).value.values == b.values + NextBindings(mib, b.oids[i..])
    decreases |b.oids| - i
  {
    if i < |b.oids| {
      var v := NextBinding(mib, b.oids[i]);
      var c := Step(mib, b, i);
      assert RoundFrom(mib, b, i) == RoundFrom(mib, c, i + 1);
      RoundValues(mib, c, i + 1);
      assert c.oids[i + 1..] == b.oids[i + 1..];
      NextBindingsCons(mib, b.oids, i);
      Associative(b.values, [v], NextBindings(mib, b.oids[i + 1..]));
    } else {
      assert NextBindings(mib, b.oids[i..]) == [];
    }
  }

  /** The GETNEXT bindings from index i on: the one of OID i, then the rest. */
  lemma NextBindingsCons(mib: seq<Value>, oids: seq<Oid>, i: nat)
    requires i < |oids|
    ensures NextBindings(mib, oids[i..]) == [NextBinding(mib, oids[i])] + NextBindings(mib, oids[i + 1..])
  {
    assert oids[i..][1..] == oids[i + 1..];
  }

  /** The GETNEXT bindings of the OIDs from index i up to j: the one of OID i, then the rest. */
  lemma NextBindingsSliceCons(mib: seq<Value>, oids: seq<Oid>, i: nat, j: nat)
    requires i < j <= |oids|
    ensures NextBindings(mib, oids[i..j]) == [NextBinding(mib, oids[i])] + NextBindings(mib, oids[i + 1..j])
  {
    assert oids[i..j][1..] == oids[i + 1..j];
  }

  /** A round that has room keeps the OIDs before index i and moves each later one to its successor. */
  lemma {:induction false} RoundOids(mib: seq<Value>, b: Bulk, i: nat)
    requires i <= |b.oids| && |b.values| + |b.oids| - i <= MAX_NR_VALUES
    ensures RoundFrom(mib, b, i).Some?
    ensures RoundFrom(mib, b, i).value.oids[..i] == b.oids[..i]
    ensures forall k :: i <= k < |b.oids| ==> RoundFrom(mib, b, i).value.oids[k] == NextBinding(mib, b.oids[k]).oid
    decreases |b.oids| - i
  {
    RoundValues(mib, b, i);
    if i < |b.oids| {
      var v := NextBinding(mib, b.oids[i]);
      var c := Step(mib, b, i);
      assert RoundFrom(mib, b, i) == RoundFrom(mib, c, i + 1);
      RoundOids(mib, c, i + 1);
      var r := RoundFrom(mib, c, i + 1).value;
      assert c.oids[i] == v.oid;
      assert r.oids[..i] == c.oids[..i + 1][..i];
      assert c.oids[..i] == b.oids[..i];
      forall k | i < k < |b.oids|
        ensures r.oids[k] == NextBinding(mib, b.oids[k]).oid
      {
        assert c.oids[k] == b.oids[k];
      }
    }
  }

  /** No OID from index i on has a successor in the MIB. */
  predicate AtEnd(mib: seq<Value>, oids: seq<Oid>, i: nat) {
    forall k :: i <= k < |oids| ==> FindNext(mib, oids[k]) >= |mib|
  }

  /** AtEnd looks only at the OIDs from i on. */
  lemma AtEndSame(mib: seq<Value>, oids1: seq<Oid>, oids2: seq<Oid>, i: nat)
    requires |oids1| == |oids2| && i <= |oids1| && oids1[i..] == oids2[i..]
    ensures AtEnd(mib, oids1, i) <==> AtEnd(mib, oids2, i)
  {
    assert forall k :: i <= k < |oids1| ==> oids1[k] == oids1[i..][k - i] == oids2[k];
  }

  /** A round that has room counts a repeater exactly when its OID had a successor. */
  lemma {:induction false} RoundFound(mib: seq<Value>, b: Bulk, i: nat)
    requires i <= |b.oids| && |b.values| + |b.oids| - i <= MAX_NR_VALUES
    ensures RoundFrom(mib, b, i).Some?
    ensures RoundFrom(mib, b, i).value.found == b.found <==> AtEnd(mib, b.oids, i)
    decreases |b.oids| - i
  {
    if i < |b.oids| {
      var c := Step(mib, b, i);
      assert RoundFrom(mib, b, i) == RoundFrom(mib, c, i + 1);
      RoundFound(mib, c, i + 1);
      StepFound(mib, b, i);
    }
  }

  /** A step counts its OID exactly when it has a successor; otherwise the OIDs from i on stay as they were. */
  lemma StepFound(mib: seq<Value>, b: Bulk, i: nat)
    requires i < |b.oids|
    ensures var c := Step(mib, b, i);
            if FindNext(mib, b.oids[i]) < |mib| then c.found == b.found + 1 && !AtEnd(mib, b.oids, i)
            else c.found == b.found && (AtEnd(mib, c.oids, i + 1) <==> AtEnd(mib, b.oids, i))
  {
    var c := Step(mib, b, i);
    if FindNext(mib, b.oids[i]) >= |mib| {
      assert c.oids[i + 1..] == b.oids[i + 1..];
      AtEndSame(mib, c.oids, b.oids, i + 1);
    }
  }

  /**
   * RFC 3416 section 4.2.3: a GETBULK answers at most N + M * R bindings,
   * for N non-repeaters, M repetitions and R repeaters.
   */
  lemma {:induction false} RepeatBound(mib: seq<Value>, oids: seq<Oid>, values: seq<Value>, start: nat, j: nat, m: nat)
    ensures var r := RepeatFrom(mib, oids, values, start, j, m);
            r.Some? ==> |values| <= |r.value| <= |values| + Rows(m, j, Rest(|oids|, start))
                        && r.value[..|values|] == values
    decreases m - j
  {
    var r := RepeatFrom(mib, oids, values, start, j, m);
    if j < m && r.Some? {
      var round := RoundFrom(mib, Bulk(oids, values, 0), start);
      var b := round.value;
      assert |b.values| == |values| + Rest(|oids|, start) && b.values[..|values|] == values;
      if b.found != 0 {
        assert r == RepeatFrom(mib, b.oids, b.values, start, j + 1, m);
        RepeatBound(mib, b.oids, b.values, start, j + 1, m);
        PrefixOfPrefix(r.value, b.values, values);
      }
    }
  }

  /** The values that rounds j to m of width repeaters can add. */
  function Rows(m: nat, j: nat, width: nat): nat
    decreases m - j
  {
    if j >= m then 0 else width + Rows(m, j + 1, width)
  }

  /** Rounds j to m add at most (m - j) * width values. */
  lemma {:induction false} RowsProduct(m: nat, j: nat, width: nat)
    requires j <= m
    ensures Rows(m, j, width) == (m - j) * width
    decreases m - j
  {
    if j < m {
      RowsProduct(m, j + 1, width);
      assert (m - j) * width == width + (m - (j + 1)) * width;
    }
  }

  /** A list that starts with b, where b starts with a, starts with a. */
  lemma PrefixOfPrefix(r: seq<Value>, b: seq<Value>, a: seq<Value>)
    requires |a| <= |b| <= |r| && r[..|b|] == b && b[..|a|] == a
    ensures r[..|a|] == a
  {
    assert r[..|a|] == r[..|b|][..|a|];
  }

  /**
   * A GETBULK answer begins with GETNEXT on the non-repeaters and adds at
   * most N + M * R values, the bound of RFC 3416 section 4.2.3.
   */
  lemma BulkBound(mib: seq<Value>, oids: seq<Oid>, values: seq<Value>, n: nat, m: nat)
    requires |values| + |oids| <= MAX_NR_VALUES
    ensures var s := if n < |oids| then n else |oids|;
            var r := BulkReply(mib, oids, values, n, m);
            r.Some? ==> |values| + s <= |r.value| <= |values| + s + m * (|oids| - s)
                        && r.value[..|values| + s] == values + NextBindings(mib, oids[..s])
  {
    var s := if n < |oids| then n else |oids|;
    NonRepeatersAreNext(mib, oids, s, 0, values);
    assert oids[0..s] == oids[..s];
    var vs := values + NextBindings(mib, oids[..s]);
    assert |vs| == |values| + s;
    assert BulkReply(mib, oids, values, n, m) == RepeatFrom(mib, oids, vs, n, 0, m);
    RepeatBound(mib, oids, vs, n, 0, m);
    var w := Rest(|oids|, n);
    assert w == |oids| - s;
    RowsProduct(m, 0, w);
    assert Rows(m, 0, w) == m * w;
  }

  /**
   * With at least one repetition, a GETBULK answer begins with what GETNEXT
   * answers for the whole OID list: the non-repeaters, then the first
   * successor of each repeater.
   */
  lemma BulkFirstRound(mib: seq<Value>, oids: seq<Oid>, values: seq<Value>, n: nat, m: nat)
    requires |values| + |oids| <= MAX_NR_VALUES && m > 0
    ensures var r := BulkReply(mib, oids, values, n, m);
            r.Some? ==> |r.value| >= |values| + |oids| && r.value[..|values| + |oids|] == values + NextBindings(mib, oids)
  {
    var s := if n < |oids| then n else |oids|;
    NonRepeatersAreNext(mib, oids, s, 0, values);
    assert oids[0..s] == oids[..s];
    var vs := values + NextBindings(mib, oids[..s]);
    assert BulkReply(mib, oids, values, n, m) == RepeatFrom(mib, oids, vs, n, 0, m);
    RoundIsNext(mib, Bulk(oids, vs, 0), s);
    assert RoundFrom(mib, Bulk(oids, vs, 0), n) == RoundFrom(mib, Bulk(oids, vs, 0), s);
    var b := RoundFrom(mib, Bulk(oids, vs, 0), n).value;
    assert b.values == vs + NextBindings(mib, oids[s..]);
    NextBindingsSplit(mib, oids, s);
    Associative(values, NextBindings(mib, oids[..s]), NextBindings(mib, oids[s..]));
    assert b.values == values + NextBindings(mib, oids);
    var r := RepeatFrom(mib, oids, vs, n, 0, m);
    if b.found != 0 {
      assert r == RepeatFrom(mib, b.oids, b.values, n, 1, m);
      RepeatBound(mib, b.oids, b.values, n, 1, m);
    } else {
      assert r == Some(b.values);
    }
  }

  /** The GETNEXT bindings of a list are those of its two parts. */
  lemma NextBindingsSplit(mib: seq<Value>, oids: seq<Oid>, s: nat)
    requires s <= |oids|
    ensures NextBindings(mib, oids[..s]) + NextBindings(mib, oids[s..]) == NextBindings(mib, oids)
  {
  }

  /**
   * The local copy of the OID list after one repetition, and the values it
   * added: one successor per OID from index start on.
   */
  method Round(response: Response, mib: seq<Value>, oids: seq<Oid>, start: nat) returns (ok: bool, next: seq<Oid>, found: nat)
    modifies response
    ensures var r := RoundFrom(mib, Bulk(oids, old(response.values), 0), start);
            && (ok <==> r.Some?)
            && (r.Some? ==> next == r.value.oids && response.values == r.value.values && found == r.value.found)
    ensures response.errorStatus == old(response.errorStatus) && response.errorIndex == old(response.errorIndex)
  {
    next := oids;
    found := 0;
    var i := start;
    while i < |oids|
      invariant |next| == |oids|
      invariant RoundFrom(mib, Bulk(next, response.values, found), i) == RoundFrom(mib, Bulk(oids, old(response.values), 0), start)
      invariant response.errorStatus == old(response.errorStatus) && response.errorIndex == old(response.errorIndex)
      decreases |oids| - i
    {
      ok, next, found := Repeater(response, mib, next, found, i);
      if !ok {
        return;
      }
      i := i + 1;
    }
    ok := true;
  }

  /**
   * One repeater of a round: its successor (or endOfMibView) is appended,
   * and the local OID moves to the successor when there is one.
   */
  method Repeater(response: Response, mib: seq<Value>, oids: seq<Oid>, found: nat, i: nat)
    returns (ok: bool, next: seq<Oid>, count: nat)
    requires i < |oids|
    modifies response
    ensures ok <==> |old(response.values)| < MAX_NR_VALUES
    ensures ok ==> Bulk(next, response.values, count) == Step(mib, Bulk(oids, old(response.values), found), i)
    ensures response.errorStatus == old(response.errorStatus) && response.errorIndex == old(response.errorIndex)
  {
    next, count := oids, found;
    var pos := FindNext(mib, oids[i]);
    if pos >= |mib| {
      ok := Append(response, Value(oids[i], END_OF_MIB_VIEW_DATA));
      assert oids[i := oids[i]] == oids;
    } else {
      ok := Append(response, mib[pos]);
      if ok {
        next := oids[i := mib[pos].oid];
        count := found + 1;
      }
    }
  }

  /**
   * handle_snmp_getbulk: GETNEXT on the non-repeaters, then up to
   * max-repetitions interleaved rounds over the repeaters, each moving
   * every repeater to its successor, until a round finds none.
   */
  method HandleGetBulk(request: Request, response: Response, mib: seq<Value>) returns (result: int)
    modifies response
    ensures var r := GetBulkSpec(mib, request, old(response.values));
            && (result == 0 || result == -1) && (result == 0 <==> r.Some?)
            && (r.Some? ==> response.values == r.value)
    ensures response.errorStatus == old(response.errorStatus) && response.errorIndex == old(response.errorIndex)
  {
    var n := if request.nonRepeaters >= 0x8000_0000 then 0 else request.nonRepeaters;
    var m := if request.maxRepetitions >= 0x8000_0000 then 0 else request.maxRepetitions;
    var ok := NonRepeaters(response, mib, request.oids, n);
    if !ok {
      return -1;
    }
    ok := Repetitions(response, mib, request.oids, n, m);
    result := if ok then 0 else -1;
  }

  /** The non-repeaters of handle_snmp_getbulk: GETNEXT on the first n OIDs. */
  method NonRepeaters(response: Response, mib: seq<Value>, oids: seq<Oid>, n: nat) returns (ok: bool)
    modifies response
    ensures var r := NonRepeatersFrom(mib, oids, if n < |oids| then n else |oids|, 0, old(response.values));
            && (ok <==> r.Some?) && (r.Some? ==> response.values == r.value)
    ensures response.errorStatus == old(response.errorStatus) && response.errorIndex == old(response.errorIndex)
  {
    ghost var s := if n < |oids| then n else |oids|;
    var i := 0;
    while i < |oids| && i < n
      invariant i <= s
      invariant NonRepeatersFrom(mib, oids, s, i, response.values) == NonRepeatersFrom(mib, oids, s, 0, old(response.values))
      invariant response.errorStatus == old(response.errorStatus) && response.errorIndex == old(response.errorIndex)
    {
      var pos := FindNext(mib, oids[i]);
      if pos >= |mib| {
        ok := Append(response, Value(oids[i], END_OF_MIB_VIEW_DATA));
      } else {
        ok := Append(response, mib[pos]);
      }
      if !ok {
        return;
      }
      i := i + 1;
    }
    ok := true;
  }

  /**
   * The repetitions of handle_snmp_getbulk: up to m rounds over the OIDs
   * from index n on, ending after a round that found no successor.
   */
  method Repetitions(response: Response, mib: seq<Value>, oids: seq<Oid>, n: nat, m: nat) returns (ok: bool)
    modifies response
    ensures var r := RepeatFrom(mib, oids, old(response.values), n, 0, m);
            && (ok <==> r.Some?) && (r.Some? ==> response.values == r.value)
    ensures response.errorStatus == old(response.errorStatus) && response.errorIndex == old(response.errorIndex)
  {
    var current := oids;
    var j := 0;
    while j < m
      invariant RepeatFrom(mib, current, response.values, n, j, m) == RepeatFrom(mib, oids, old(response.values), n, 0, m)
      invariant response.errorStatus == old(response.errorStatus) && response.errorIndex == old(response.errorIndex)
    {
      ghost var before := response.values;
      ghost var previous := current;
      ghost var round := RoundFrom(mib, Bulk(current, before, 0), n);
      var found;
      ok, current, found := Round(response, mib, current, n);
      if !ok {
        return;
      }
      assert round == Some(Bulk(current, response.values, found));
      if found == 0 {
        return;
      }
      assert RepeatFrom(mib, previous, before, n, j, m) == RepeatFrom(mib, current, response.values, n, j + 1, m);
      j := j + 1;
    }
    ok := true;
  }

  /* ---------------------------------------------------------------------------
   * SET
   */

  /** The error status of every SET: the agent is read-only. */
  function SetStatus(version: Int32): Int32 {
    if version == SNMP_VERSION_1 then SNMP_STATUS_NO_SUCH_NAME else SNMP_STATUS_NO_ACCESS
  }

  /** handle_snmp_set: noSuchName on SNMPv1, noAccess on SNMPv2c, at index 0. */
  method HandleSet(request: Request, response: Response) returns (result: int)
    modifies response
    ensures result == 0 && response.values == old(response.values)
    ensures response.errorStatus == SetStatus(request.version) && response.errorIndex == 0
  {
    response.errorStatus := if request.version == SNMP_VERSION_1 then SNMP_STATUS_NO_SUCH_NAME else SNMP_STATUS_NO_ACCESS;
    response.errorIndex := 0;
    return 0;
  }

  /* ---------------------------------------------------------------------------
   * What the handlers answer can be encoded
   */

  /** OIDs every one of which the encoder can write. */
  predicate EncodableOids(oids: seq<Oid>) {
    forall k :: 0 <= k < |oids| ==> 2 <= |oids[k].subids| <= MAX_NR_SUBIDS
  }

  /** Every binding GET and GETNEXT answer can be encoded. */
  lemma BindingsEncodable(mib: seq<Value>, q: Oid)
    requires AllEncodable(mib) && 2 <= |q.subids| <= MAX_NR_SUBIDS
    ensures Encodable(GetBinding(mib, q)) && Encodable(NextBinding(mib, q))
  {
  }

  lemma {:induction false} GetEncodable(mib: seq<Value>, request: Request, i: nat, values: seq<Value>)
    requires i <= |request.oids| && AllEncodable(mib) && AllEncodable(values) && EncodableOids(request.oids)
    ensures AllEncodable(GetFrom(mib, request, i, values).values)
    decreases |request.oids| - i
  {
    if i < |request.oids| && !(GetMissing(mib, request.oids[i]) && request.version == SNMP_VERSION_1) && |values| < MAX_NR_VALUES {
      var b := GetBinding(mib, request.oids[i]);
      BindingsEncodable(mib, request.oids[i]);
      assert GetFrom(mib, request, i, values) == GetFrom(mib, request, i + 1, values + [b]);
      GetEncodable(mib, request, i + 1, values + [b]);
    }
  }

  lemma {:induction false} GetNextEncodable(mib: seq<Value>, request: Request, i: nat, values: seq<Value>)
    requires i <= |request.oids| && AllEncodable(mib) && AllEncodable(values) && EncodableOids(request.oids)
    ensures AllEncodable(GetNextFrom(mib, request, i, values).values)
    decreases |request.oids| - i
  {
    if i < |request.oids| && !(FindNext(mib, request.oids[i]) >= |mib| && request.version == SNMP_VERSION_1) && |values| < MAX_NR_VALUES {
      var b := NextBinding(mib, request.oids[i]);
      BindingsEncodable(mib, request.oids[i]);
      assert GetNextFrom(mib, request, i, values) == GetNextFrom(mib, request, i + 1, values + [b]);
      GetNextEncodable(mib, request, i + 1, values + [b]);
    }
  }

  lemma {:induction false} NonRepeatersEncodable(mib: seq<Value>, oids: seq<Oid>, n: nat, i: nat, values: seq<Value>)
    requires i <= n <= |oids| && AllEncodable(mib) && AllEncodable(values) && EncodableOids(oids)
    ensures var r := NonRepeatersFrom(mib, oids, n, i, values); r.Some? ==> AllEncodable(r.value)
    decreases n - i
  {
    if i < n && |values| < MAX_NR_VALUES {
      var b := NextBinding(mib, oids[i]);
      BindingsEncodable(mib, oids[i]);
      assert NonRepeatersFrom(mib, oids, n, i, values) == NonRepeatersFrom(mib, oids, n, i + 1, values + [b]);
      NonRepeatersEncodable(mib, oids, n, i + 1, values + [b]);
    }
  }

  /** A round keeps the OIDs and the values encodable: the OIDs it moves to are the MIB's. */
  lemma {:induction false} RoundEncodable(mib: seq<Value>, b: Bulk, i: nat)
    requires AllEncodable(mib) && AllEncodable(b.values) && EncodableOids(b.oids)
    ensures var r := RoundFrom(mib, b, i); r.Some? ==> AllEncodable(r.value.values) && EncodableOids(r.value.oids)
    decreases |b.oids| - i
  {
    if i < |b.oids| && |b.values| < MAX_NR_VALUES {
      var v := NextBinding(mib, b.oids[i]);
      BindingsEncodable(mib, b.oids[i]);
      var c := Step(mib, b, i);
      assert RoundFrom(mib, b, i) == RoundFrom(mib, c, i + 1);
      assert EncodableOids(c.oids);
      RoundEncodable(mib, c, i + 1);
    }
  }

  lemma {:induction false} RepeatEncodable(mib: seq<Value>, oids: seq<Oid>, values: seq<Value>, start: nat, j: nat, m: nat)
    requires AllEncodable(mib) && AllEncodable(values) && EncodableOids(oids)
    ensures var r := RepeatFrom(mib, oids, values, start, j, m); r.Some? ==> AllEncodable(r.value)
    decreases m - j
  {
    if j < m {
      RoundEncodable(mib, Bulk(oids, values, 0), start);
      var round := RoundFrom(mib, Bulk(oids, values, 0), start);
      if round.Some? && round.value.found != 0 {
        RepeatEncodable(mib, round.value.oids, round.value.values, start, j + 1, m);
      }
    }
  }

  lemma BulkEncodable(mib: seq<Value>, request: Request)
    requires AllEncodable(mib) && EncodableOids(request.oids)
    ensures var r := GetBulkSpec(mib, request, []); r.Some? ==> AllEncodable(r.value)
  {
    var oids := request.oids;
    var n := Clamp(request.nonRepeaters);
    var s := if n < |oids| then n else |oids|;
    NonRepeatersEncodable(mib, oids, s, 0, []);
    var vs := NonRepeatersFrom(mib, oids, s, 0, []);
    if vs.Some? {
      RepeatEncodable(mib, oids, vs.value, n, 0, Clamp(request.maxRepetitions));
    }
  }

  /* ---------------------------------------------------------------------------
   * snmp()
   */

  /**
   * What snmp() does with a received packet: fail (-1, nothing is sent),
   * ignore it (0 with the packet dropped), or send the bytes of a response.
   */
  datatype Outcome = Failed | Ignored | Sent(bytes: seq<Byte>)

  /**
   * What the handler of a request leaves for the encoder: it failed (-1),
   * there is no handler for the PDU type, or the error status, the error
   * index and the values of the response.
   */
  datatype Reaction = Abort | Unhandled | Answer(status: Int32, index: Int32, values: seq<Value>)

  /** The PDU types snmp() handles. */
  predicate IsRequestKind(kind: Byte) {
    kind == BER_TYPE_SNMP_GET || kind == BER_TYPE_SNMP_GETNEXT || kind == BER_TYPE_SNMP_SET || kind == BER_TYPE_SNMP_GETBULK
  }

  /** The answer of GET or GETNEXT: noSuchName at the stop of an SNMPv1 request, else the values. */
  function HandledReaction(h: Handled): (r: Reaction)
    requires h.stop.Some? ==> h.stop.value < 0x8000_0000
    ensures r.Abort? <==> !h.ok
    ensures r.Answer? ==> r.values == h.values
  {
    if !h.ok then Abort
    else if h.stop.Some? then Answer(SNMP_STATUS_NO_SUCH_NAME, h.stop.value, h.values)
    else Answer(SNMP_STATUS_OK, 0, h.values)
  }

  /** The handler snmp() picks for the PDU type of an admitted request, on an empty response. */
  function React(request: Request, mib: seq<Value>): (r: Reaction)
    requires WellFormed(request) && AllEncodable(mib)
    ensures r.Unhandled? <==> !IsRequestKind(request.kind)
    ensures r.Answer? ==> AllEncodable(r.values)
  {
    assert EncodableOids(request.oids);
    if request.kind == BER_TYPE_SNMP_GET then
      GetEncodable(mib, request, 0, []);
      GetStopBound(mib, request, 0, []);
      HandledReaction(GetSpec(mib, request, []))
    else if request.kind == BER_TYPE_SNMP_GETNEXT then
      GetNextEncodable(mib, request, 0, []);
      GetNextStopBound(mib, request, 0, []);
      HandledReaction(GetNextSpec(mib, request, []))
    else if request.kind == BER_TYPE_SNMP_SET then
      Answer(SetStatus(request.version), 0, [])
    else if request.kind == BER_TYPE_SNMP_GETBULK then
      BulkEncodable(mib, request);
      var r := GetBulkSpec(mib, request, []);
      if r.None? then Abort else Answer(SNMP_STATUS_OK, 0, r.value)
    else Unhandled
  }

  /** The request passes the access check of snmp(). */
  predicate Admitted(request: Request, community: seq<Byte>, auth: bool) {
    if request.version == SNMP_VERSION_2C then request.community == community else !auth
  }

  /** The status of a refused request: noAccess for SNMPv2c, genErr for SNMPv1. */
  function RefusalStatus(version: Int32): Int32 {
    if version == SNMP_VERSION_2C then SNMP_STATUS_NO_ACCESS else SNMP_STATUS_GEN_ERR
  }

  /** The encoded response with the given status, index and values, or Failed where the encoder fails. */
  function Encoded(request: Request, status: Int32, index: Int32, values: seq<Value>): (o: Outcome)
    requires |request.community| <= 0xFFFF && EncodableOids(request.oids)
    requires status == SNMP_STATUS_OK ==> AllEncodable(values)
    ensures !o.Ignored?
  {
    assert status != SNMP_STATUS_OK ==> AllEncodable(NullBindings(request.oids));
    match ReplyBytes(request, status, index, values)
    case None => Failed
    case Some(bytes) => Sent(bytes)
  }

  /** snmp() on a request decode_snmp_request accepted. */
  function Reply(request: Request, mib: seq<Value>, community: seq<Byte>, auth: bool): (o: Outcome)
    requires WellFormed(request) && AllEncodable(mib)
    ensures o.Ignored? <==> Admitted(request, community, auth) && !IsRequestKind(request.kind)
  {
    assert EncodableOids(request.oids);
    if !Admitted(request, community, auth) then Encoded(request, RefusalStatus(request.version), 0, [])
    else
      match React(request, mib)
      case Abort => Failed
      case Unhandled => Ignored
      case Answer(status, index, values) => Encoded(request, status, index, values)
  }

  /**
   * snmp() on the packet bytes p, for a MIB whose values are mib, the
   * agent's community string and whether it requires authentication.
   */
  function Respond(p: seq<Byte>, mib: seq<Value>, community: seq<Byte>, auth: bool): (o: Outcome)
    requires AllEncodable(mib)
    ensures ParseRequest(p).None? ==> o.Failed?
    ensures o.Ignored? <==> ParseRequest(p).Some? && Admitted(ParseRequest(p).value, community, auth)
                            && !IsRequestKind(ParseRequest(p).value.kind)
  {
    match ParseRequest(p)
    case None => Failed
    case Some(request) => Reply(request, mib, community, auth)
  }

  /** The index at which GET stops is that of a requested OID. */
  lemma {:induction false} GetStopBound(mib: seq<Value>, request: Request, i: nat, values: seq<Value>)
    requires i <= |request.oids|
    ensures var h := GetFrom(mib, request, i, values); h.stop.Some? ==> i <= h.stop.value < |request.oids|
    decreases |request.oids| - i
  {
    if i < |request.oids| {
      GetStopBound(mib, request, i + 1, values + [GetBinding(mib, request.oids[i])]);
    }
  }

  /** The index at which GETNEXT stops is that of a requested OID. */
  lemma {:induction false} GetNextStopBound(mib: seq<Value>, request: Request, i: nat, values: seq<Value>)
    requires i <= |request.oids|
    ensures var h := GetNextFrom(mib, request, i, values); h.stop.Some? ==> i <= h.stop.value < |request.oids|
    decreases |request.oids| - i
  {
    if i < |request.oids| {
      GetNextStopBound(mib, request, i + 1, values + [NextBinding(mib, request.oids[i])]);
    }
  }

  /** The switch of snmp(): the handler for the PDU type, on an empty response. */
  method Dispatch(request: Request, response: Response, mib: seq<Value>) returns (result: int)
    requires WellFormed(request) && AllEncodable(mib) && IsRequestKind(request.kind)
    requires response.values == [] && response.errorStatus == SNMP_STATUS_OK && response.errorIndex == 0
    modifies response
    ensures var r := React(request, mib);
            && (result == -1 <==> r.Abort?)
            && (r.Answer? ==> response.errorStatus == r.status && response.errorIndex == r.index
                              && response.values == r.values)
  {
    assert EncodableOids(request.oids);
    if request.kind == BER_TYPE_SNMP_GET {
      result := HandleGet(request, response, mib);
      GetStopBound(mib, request, 0, []);
    } else if request.kind == BER_TYPE_SNMP_GETNEXT {
      result := HandleGetNext(request, response, mib);
      GetNextStopBound(mib, request, 0, []);
    } else if request.kind == BER_TYPE_SNMP_SET {
      result := HandleSet(request, response);
    } else {
      result := HandleGetBulk(request, response, mib);
    }
  }

  /** The label done of snmp(): encode the response into the client's packet buffer. */
  method Finish(request: Request, response: Response, client: Client) returns (result: int)
    requires |request.community| < MAX_STRING_SIZE && EncodableOids(request.oids) && AllEncodable(response.values)
    requires client.packet.Length == MAX_PACKET_SIZE && client.size <= MAX_PACKET_SIZE
    modifies response, client, client.packet
    ensures client.sockfd == old(client.sockfd) && client.outgoing == old(client.outgoing)
    ensures client.timestamp == old(client.timestamp) && client.addr == old(client.addr) && client.port == old(client.port)
    ensures client.packet == old(client.packet) && client.size <= MAX_PACKET_SIZE
    ensures var o := Encoded(request, old(response.errorStatus), old(response.errorIndex), old(response.values));
            && (result == 0 || result == -1) && (result == -1 <==> o.Failed?)
            && (o.Sent? ==> client.size == |o.bytes| && client.packet[..client.size] == o.bytes)
  {
    assert AllEncodable(NullBindings(request.oids));
    result := EncodeResponse(request, response, client);
  }

  /** snmp() after the request is decoded: the access check, the handler and the encoder. */
  method Serve(request: Request, client: Client, mib: seq<Value>, community: seq<Byte>, auth: bool) returns (result: int)
    requires WellFormed(request) && AllEncodable(mib)
    requires client.packet.Length == MAX_PACKET_SIZE && client.size <= MAX_PACKET_SIZE
    modifies client, client.packet
    ensures client.sockfd == old(client.sockfd) && client.outgoing == old(client.outgoing)
    ensures client.timestamp == old(client.timestamp) && client.addr == old(client.addr) && client.port == old(client.port)
    ensures client.packet == old(client.packet) && client.size <= MAX_PACKET_SIZE
    ensures var o := Reply(request, mib, community, auth);
            && (result == 0 || result == -1) && (result == -1 <==> o.Failed?)
            && (o.Ignored? ==> client.size == 0)
            && (o.Sent? ==> client.size == |o.bytes| && client.packet[..client.size] == o.bytes)
  {
    assert EncodableOids(request.oids);
    var response := new Response();
    if request.version == SNMP_VERSION_2C {
      if community != request.community {
        response.errorStatus := SNMP_STATUS_NO_ACCESS;
        response.errorIndex := 0;
      }
    } else if auth {
      response.errorStatus := SNMP_STATUS_GEN_ERR;
      response.errorIndex := 0;
    }
    if Admitted(request, community, auth) {
      if !IsRequestKind(request.kind) {
        client.size := 0;
        return 0;
      }
      var r := Dispatch(request, response, mib);
      if r == -1 {
        return -1;
      }
      assert React(request, mib) == Answer(response.errorStatus, response.errorIndex, response.values);
    }
    assert Reply(request, mib, community, auth) == Encoded(request, response.errorStatus, response.errorIndex, response.values);
    result := Finish(request, response, client);
  }

  /** snmp(): decode the request, then serve it. */
  method Snmp(client: Client, mib: seq<Value>, community: seq<Byte>, auth: bool) returns (result: int)
    requires client.packet.Length == MAX_PACKET_SIZE && client.size <= MAX_PACKET_SIZE
    requires AllEncodable(mib)
    modifies client, client.packet
    ensures client.sockfd == old(client.sockfd) && client.outgoing == old(client.outgoing)
    ensures client.timestamp == old(client.timestamp) && client.addr == old(client.addr) && client.port == old(client.port)
    ensures client.packet == old(client.packet) && client.size <= MAX_PACKET_SIZE
    ensures var o := Respond(old(client.packet[..client.size]), mib, community, auth);
            && (result == 0 || result == -1) && (result == -1 <==> o.Failed?)
            && (o.Ignored? ==> client.size == 0)
            && (o.Sent? ==> client.size == |o.bytes| && client.packet[..client.size] == o.bytes)
  {
    var decoded := DecodeRequest(client);
    if decoded.None? {
      return -1;
    }
    result := Serve(decoded.value, client, mib, community, auth);
  }

  /* ---------------------------------------------------------------------------
   * Properties of snmp()
   */

  /**
   * A refused request is answered with noAccess (SNMPv2c, wrong community)
   * or genErr (SNMPv1 under authentication), and its answer does not depend
   * on the MIB.
   */
  lemma RefusalRevealsNothing(request: Request, mib: seq<Value>, other: seq<Value>, community: seq<Byte>, auth: bool)
    requires WellFormed(request) && AllEncodable(mib) && AllEncodable(other)
    requires !Admitted(request, community, auth)
    ensures Reply(request, mib, community, auth) == Reply(request, other, community, auth)
    ensures Reply(request, mib, community, auth)
            == Encoded(request, if request.version == SNMP_VERSION_2C then SNMP_STATUS_NO_ACCESS else SNMP_STATUS_GEN_ERR, 0, [])
  {
  }

  /**
   * An error answer carries the requested OIDs with NULL values, whatever
   * the handler left in the value list.
   */
  lemma ErrorAnswerIsNull(request: Request, status: Int32, index: Int32, values: seq<Value>)
    requires |request.community| <= 0xFFFF && EncodableOids(request.oids)
    requires status != SNMP_STATUS_OK
    ensures Encoded(request, status, index, values) == Encoded(request, status, index, [])
    ensures |request.oids| <= MAX_NR_VALUES ==>
              ReplyBindings(request, status, values) == Some(NullBindings(request.oids))
  {
  }

  /** The agent is read-only: SET is refused with an answer that does not depend on the MIB. */
  lemma SetIsReadOnly(request: Request, mib: seq<Value>, other: seq<Value>, community: seq<Byte>, auth: bool)
    requires WellFormed(request) && AllEncodable(mib) && AllEncodable(other)
    requires Admitted(request, community, auth) && request.kind == BER_TYPE_SNMP_SET
    ensures Reply(request, mib, community, auth) == Reply(request, other, community, auth)
    ensures var status := if request.version == SNMP_VERSION_1 then SNMP_STATUS_NO_SUCH_NAME else SNMP_STATUS_NO_ACCESS;
            Reply(request, mib, community, auth) == Encoded(request, status, 0, [])
  {
  }

  /** An admitted SNMPv2c GET is answered with the GET binding of every requested OID, in order. */
  lemma GetAnswer(request: Request, mib: seq<Value>, community: seq<Byte>, auth: bool)
    requires WellFormed(request) && AllEncodable(mib)
    requires request.version == SNMP_VERSION_2C && request.community == community && request.kind == BER_TYPE_SNMP_GET
    ensures AllEncodable(GetBindings(mib, request.oids))
    ensures Reply(request, mib, community, auth) == Encoded(request, SNMP_STATUS_OK, 0, GetBindings(mib, request.oids))
  {
    GetAnswersAll(mib, request, 0, []);
    GetEncodable(mib, request, 0, []);
    assert request.oids[0..] == request.oids;
    assert [] + GetBindings(mib, request.oids) == GetBindings(mib, request.oids);
  }

  /** An admitted SNMPv2c GETNEXT is answered with the successor binding of every requested OID, in order. */
  lemma GetNextAnswer(request: Request, mib: seq<Value>, community: seq<Byte>, auth: bool)
    requires WellFormed(request) && AllEncodable(mib)
    requires request.version == SNMP_VERSION_2C && request.community == community && request.kind == BER_TYPE_SNMP_GETNEXT
    ensures AllEncodable(NextBindings(mib, request.oids))
    ensures Reply(request, mib, community, auth) == Encoded(request, SNMP_STATUS_OK, 0, NextBindings(mib, request.oids))
  {
    GetNextAnswersAll(mib, request, 0, []);
    GetNextEncodable(mib, request, 0, []);
    assert request.oids[0..] == request.oids;
    assert [] + NextBindings(mib, request.oids) == NextBindings(mib, request.oids);
  }

  /**
   * An admitted SNMPv1 GET in which a requested OID is missing is answered
   * with noSuchName and the index of the first such OID, and NULL values.
   */
  lemma GetMissingAnswer(request: Request, mib: seq<Value>, community: seq<Byte>, auth: bool, stop: nat)
    requires WellFormed(request) && AllEncodable(mib)
    requires request.version == SNMP_VERSION_1 && !auth && request.kind == BER_TYPE_SNMP_GET
    requires stop < |request.oids| && GetMissing(mib, request.oids[stop])
    requires forall k :: 0 <= k < stop ==> !GetMissing(mib, request.oids[k])
    ensures Reply(request, mib, community, auth) == Encoded(request, SNMP_STATUS_NO_SUCH_NAME, stop, [])
  {
    GetStopsAtFirstMissing(mib, request, 0, stop, []);
    GetEncodable(mib, request, 0, []);
  }
}
