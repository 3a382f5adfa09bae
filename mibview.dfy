/**
 * The MIB as the protocol handlers look it up: the values of the table in
 * table order, searched by mib_find (the first entry at or under an OID) and
 * mib_findnext (the first entry after an OID), both of which report the
 * table length when no entry qualifies.
 */
module MibView {

  import opened Types
  import opened Utils

  /** o is q or lies under q: its first subidentifiers are those of q. */
  predicate Covers(o: Oid, q: Oid) {
    |o.subids| >= |q.subids| && o.subids[..|q.subids|] == q.subids
  }

  /** The search of mib_find from index start on: the first entry that covers q, or |mib|. */
  function FindFrom(mib: seq<Value>, q: Oid, start: nat): (r: nat)
    requires start <= |mib|
    ensures start <= r <= |mib|
    ensures r < |mib| ==> Covers(mib[r].oid, q)
    decreases |mib| - start
  {
    if start == |mib| then |mib|
    else if Covers(mib[start].oid, q) then start
    else FindFrom(mib, q, start + 1)
  }

  /** mib_find: the first entry that covers q, or |mib|. */
  function Find(mib: seq<Value>, q: Oid): nat {
    FindFrom(mib, q, 0)
  }

  /** The search of mib_findnext from index start on. */
  function FindNextFrom(mib: seq<Value>, q: Oid, start: nat): (r: nat)
    requires start <= |mib|
    ensures start <= r <= |mib|
    ensures r < |mib| ==> OidCmp(mib[r].oid, q) > 0
    decreases |mib| - start
  {
    if start == |mib| then |mib|
    else if OidCmp(mib[start].oid, q) > 0 then start
    else FindNextFrom(mib, q, start + 1)
  }

  /** mib_findnext: the first entry that oid_cmp orders after q, or |mib|. */
  function FindNext(mib: seq<Value>, q: Oid): nat {
    FindNextFrom(mib, q, 0)
  }

  /** No entry the search from start passes over covers q. */
  lemma {:induction false} FindFromMisses(mib: seq<Value>, q: Oid, start: nat)
    requires start <= |mib|
    ensures forall k :: start <= k < FindFrom(mib, q, start) ==> !Covers(mib[k].oid, q)
    decreases |mib| - start
  {
    if start < |mib| && !Covers(mib[start].oid, q) {
      FindFromMisses(mib, q, start + 1);
    }
  }

  /** No entry the search of mib_findnext from start passes over orders after q. */
  lemma {:induction false} FindNextFromMisses(mib: seq<Value>, q: Oid, start: nat)
    requires start <= |mib|
    ensures forall k :: start <= k < FindNextFrom(mib, q, start) ==> OidCmp(mib[k].oid, q) <= 0
    decreases |mib| - start
  {
    if start < |mib| && OidCmp(mib[start].oid, q) <= 0 {
      FindNextFromMisses(mib, q, start + 1);
    }
  }

  /** Entries in strictly ascending oid_cmp order, as the MIB is built. */
  predicate Sorted(mib: seq<Value>) {
    forall i, j :: 0 <= i < j < |mib| ==> OidCmp(mib[i].oid, mib[j].oid) < 0
  }

  /** Every OID of the table has at most MAX_NR_SUBIDS subidentifiers below 2^31. */
  predicate AllPlain(mib: seq<Value>) {
    forall i :: 0 <= i < |mib| ==> Plain(mib[i].oid)
  }

  /** An OID orders at or after every OID it starts with. */
  lemma {:induction false} LexCmpPrefix(a: seq<int>, b: seq<int>)
    requires |a| >= |b| && a[..|b|] == b
    ensures LexCmp(a, b) >= 0
    ensures LexCmp(a, b) == 0 <==> |a| == |b|
  {
    if b != [] {
      assert a[0] == b[0];
      assert a[1..][..|b| - 1] == b[1..];
      LexCmpPrefix(a[1..], b[1..]);
    }
  }

  /**
   * In a sorted table, an entry whose OID is q itself is what mib_find
   * reports: every entry before it orders before q and so cannot lie under q.
   */
  lemma FindExact(mib: seq<Value>, q: Oid, k: nat)
    requires Sorted(mib) && AllPlain(mib) && Plain(q)
    requires k < |mib| && mib[k].oid.subids == q.subids
    ensures Find(mib, q) == k
  {
    var r := Find(mib, q);
    FindFromMisses(mib, q, 0);
    assert Covers(mib[k].oid, q) by {
      assert q.subids[..|q.subids|] == q.subids;
    }
    if r < k {
      LexCmpPrefix(mib[r].oid.subids, q.subids);
      OidCmpIsLexicographic(mib[r].oid, mib[k].oid);
    }
  }

  /**
   * In a sorted table, mib_findnext reports the least entry after q: every
   * entry oid_cmp orders after q orders at or after it, every other entry
   * before it.
   */
  lemma FindNextIsSuccessor(mib: seq<Value>, q: Oid)
    requires Sorted(mib)
    ensures forall k :: 0 <= k < |mib| && OidCmp(mib[k].oid, q) > 0 ==>
              FindNext(mib, q) <= k && (FindNext(mib, q) == k || OidCmp(mib[FindNext(mib, q)].oid, mib[k].oid) < 0)
    ensures forall k :: 0 <= k < FindNext(mib, q) ==> OidCmp(mib[k].oid, q) <= 0
  {
    FindNextFromMisses(mib, q, 0);
  }

  /** A sorted table has at most one entry per OID. */
  lemma SortedUnique(mib: seq<Value>, i: nat, j: nat)
    requires Sorted(mib) && AllPlain(mib) && i < j < |mib|
    ensures mib[i].oid.subids != mib[j].oid.subids
  {
    OidCmpZeroIffEqual(mib[i].oid, mib[j].oid);
  }
}
