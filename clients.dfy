/**
 * The TCP side of the daemon (mini-snmpd.c:146-298, 760-776 and
 * utils.c:252-267): the table of connected clients, the admission of a new
 * connection, the read and write state machine of each client and the
 * removal of closed clients. What accept, read, send and time return is
 * passed in; closing a socket and freeing a client are not modelled.
 */
module Clients {

  import opened Types
  import opened RequestDecoder
  import opened ResponseEncoder
  import opened Agent

  /** LONG_MAX of a 64-bit long: where the search for the oldest client starts. */
  const LONG_MAX: int := 0x7FFF_FFFF_FFFF_FFFF

  /** FD_SETSIZE: connections on a descriptor select() cannot watch are refused. */
  const FD_SETSIZE: int := 1024

  /** A client the handlers can work on: a full packet buffer, at most that many bytes in it, and a 0/1 flag. */
  predicate Sane(c: Client)
    reads c
  {
    c.packet.Length == MAX_PACKET_SIZE && c.size <= MAX_PACKET_SIZE && (c.outgoing == 0 || c.outgoing == 1)
  }

  /* ---------------------------------------------------------------------------
   * find_oldest_client (utils.c:252-267)
   */

  /** The timestamps of a list of clients, in order. */
  function Timestamps(cs: seq<Client>): (ts: seq<int>)
    reads cs
    ensures |ts| == |cs| && forall k :: 0 <= k < |cs| ==> ts[k] == cs[k].timestamp
  {
    seq(|cs|, k requires 0 <= k < |cs| reads cs => cs[k].timestamp)
  }

  /**
   * The loop of find_oldest_client from index i on, with the running
   * minimum best found at pos (-1 before any).
   */
  function OldestFrom(ts: seq<int>, i: nat, best: int, pos: int): int
    requires i <= |ts|
    decreases |ts| - i
  {
    if i == |ts| then pos
    else if best > ts[i] then OldestFrom(ts, i + 1, ts[i], i)
    else OldestFrom(ts, i + 1, best, pos)
  }

  /** The position the loop of find_oldest_client leaves in pos. */
  function Oldest(ts: seq<int>): int {
    OldestFrom(ts, 0, LONG_MAX, -1)
  }

  /** What the loop has established after the first i timestamps. */
  predicate OldestSoFar(ts: seq<int>, i: nat, best: int, pos: int)
    requires i <= |ts|
  {
    if pos == -1 then best == LONG_MAX && forall k :: 0 <= k < i ==> ts[k] >= LONG_MAX
    else
      && 0 <= pos < i && best == ts[pos] < LONG_MAX
      && (forall k :: 0 <= k < i ==> ts[k] >= best)
      && (forall k :: 0 <= k < pos ==> ts[k] > best)
  }

  lemma {:induction false} OldestFromIsFirstMinimum(ts: seq<int>, i: nat, best: int, pos: int)
    requires i <= |ts| && OldestSoFar(ts, i, best, pos)
    ensures var r := OldestFrom(ts, i, best, pos); r == -1 || (0 <= r < |ts| && OldestSoFar(ts, |ts|, ts[r], r))
    ensures OldestFrom(ts, i, best, pos) == -1 ==> OldestSoFar(ts, |ts|, LONG_MAX, -1)
    decreases |ts| - i
  {
    if i < |ts| {
      if best > ts[i] {
        OldestFromIsFirstMinimum(ts, i + 1, ts[i], i);
      } else {
        OldestFromIsFirstMinimum(ts, i + 1, best, pos);
      }
    }
  }

  /**
   * find_oldest_client's pos is the first client with the least timestamp,
   * and -1 exactly when no timestamp is below LONG_MAX (in particular when
   * the list is empty).
   */
  lemma OldestIsFirstMinimum(ts: seq<int>)
    ensures Oldest(ts) == -1 <==> forall k :: 0 <= k < |ts| ==> ts[k] >= LONG_MAX
    ensures Oldest(ts) != -1 ==>
              var r := Oldest(ts);
              && 0 <= r < |ts| && ts[r] < LONG_MAX
              && (forall k :: 0 <= k < |ts| ==> ts[k] >= ts[r])
              && (forall k :: 0 <= k < r ==> ts[k] > ts[r])
  {
    OldestFromIsFirstMinimum(ts, 0, LONG_MAX, -1);
  }

  /**
   * find_oldest_client as written: once pos is set it returns
   * g_tcp_client_list[i], where the loop has left i at the list length.
   */
  function OldestAsWritten(ts: seq<int>): (r: int)
    ensures r == -1 || r == |ts|
  {
    if Oldest(ts) != -1 then |ts| else -1
  }

  /**
   * The only caller asks when all MAX_NR_CLIENTS slots are taken; then the
   * slot returned as written is g_tcp_client_list[MAX_NR_CLIENTS], one past
   * the array, while the oldest client is inside it.
   */
  lemma OldestAsWrittenOverruns(ts: seq<int>, k: nat)
    requires |ts| == MAX_NR_CLIENTS && k < |ts| && ts[k] < LONG_MAX
    ensures OldestAsWritten(ts) == MAX_NR_CLIENTS
    ensures 0 <= Oldest(ts) < MAX_NR_CLIENTS
  {
    OldestIsFirstMinimum(ts);
  }

  /* ---------------------------------------------------------------------------
   * Removal of closed clients (mini-snmpd.c:760-776)
   */

  /** The socket descriptors of a list of clients, in order. */
  function Fds(cs: seq<Client>): (fds: seq<int>)
    reads cs
    ensures |fds| == |cs| && forall k :: 0 <= k < |cs| ==> fds[k] == cs[k].sockfd
  {
    seq(|cs|, k requires 0 <= k < |cs| reads cs => cs[k].sockfd)
  }

  /** The clients of cs whose descriptor in fds is not -1, in order. */
  function OpenOf(cs: seq<Client>, fds: seq<int>): (r: seq<Client>)
    requires |cs| == |fds|
    ensures |r| <= |cs|
  {
    if cs == [] then []
    else if fds[0] == -1 then OpenOf(cs[1..], fds[1..])
    else [cs[0]] + OpenOf(cs[1..], fds[1..])
  }

  /** The number of -1 descriptors in fds. */
  function ClosedOf(fds: seq<int>): nat {
    if fds == [] then 0
    else (if fds[0] == -1 then 1 else 0) + ClosedOf(fds[1..])
  }

  /** The clients of cs whose socket is still open, in order. */
  function Open(cs: seq<Client>): seq<Client>
    reads cs
  {
    OpenOf(cs, Fds(cs))
  }

  /** The number of clients of cs whose socket is closed. */
  function Closed(cs: seq<Client>): nat
    reads cs
  {
    ClosedOf(Fds(cs))
  }

  /** Removing a closed client leaves the open ones as they were. */
  lemma {:induction false} OpenRemove(cs: seq<Client>, fds: seq<int>, i: nat)
    requires |cs| == |fds| && i < |cs| && fds[i] == -1
    ensures OpenOf(cs[..i] + cs[i + 1..], fds[..i] + fds[i + 1..]) == OpenOf(cs, fds)
    decreases i
  {
    if i == 0 {
      assert cs[..0] + cs[1..] == cs[1..] && fds[..0] + fds[1..] == fds[1..];
    } else {
      var rest, fdsRest := cs[1..], fds[1..];
      OpenRemove(rest, fdsRest, i - 1);
      assert (cs[..i] + cs[i + 1..])[1..] == rest[..i - 1] + rest[i..];
      assert (fds[..i] + fds[i + 1..])[1..] == fdsRest[..i - 1] + fdsRest[i..];
    }
  }

  /** A list with no closed client is its own open part. */
  lemma {:induction false} OpenOfOpen(cs: seq<Client>, fds: seq<int>)
    requires |cs| == |fds| && forall k :: 0 <= k < |fds| ==> fds[k] != -1
    ensures OpenOf(cs, fds) == cs
    decreases |cs|
  {
    if cs != [] {
      OpenOfOpen(cs[1..], fds[1..]);
    }
  }

  /** The open part counts every client that is not closed. */
  lemma {:induction false} OpenLength(cs: seq<Client>, fds: seq<int>)
    requires |cs| == |fds|
    ensures |OpenOf(cs, fds)| == |cs| - ClosedOf(fds)
    decreases |cs|
  {
    if cs != [] {
      OpenLength(cs[1..], fds[1..]);
    }
  }

  /** The open part holds only clients of the list whose descriptor is not -1. */
  lemma {:induction false} OpenMembers(cs: seq<Client>, fds: seq<int>)
    requires |cs| == |fds|
    ensures forall c :: c in OpenOf(cs, fds) ==> exists k :: 0 <= k < |cs| && cs[k] == c && fds[k] != -1
    decreases |cs|
  {
    if cs != [] {
      var rest, restFds := cs[1..], fds[1..];
      OpenMembers(rest, restFds);
      forall c | c in OpenOf(cs, fds)
        ensures exists k :: 0 <= k < |cs| && cs[k] == c && fds[k] != -1
      {
        if fds[0] != -1 && c == cs[0] {
          assert cs[0] == c && fds[0] != -1;
        } else {
          assert c in OpenOf(rest, restFds);
          var k :| 0 <= k < |rest| && rest[k] == c && restFds[k] != -1;
          assert cs[k + 1] == c && fds[k + 1] != -1;
        }
      }
    }
  }

  /* ---------------------------------------------------------------------------
   * The client table (mini-snmpd.c:146-201, 760-776)
   */

  /** How handle_tcp_connect dealt with a connection. */
  datatype Admission =
    | Refused          // accept failed, or the descriptor is beyond FD_SETSIZE
    | Exited           // the list is full and has no oldest client: the daemon exits
    | Replaced(slot: nat)
    | Appended

  /** A client just accepted on socket fd at time now, from addr:port. */
  predicate Accepted(c: Client, fd: int, now: int, addr: int, port: int)
    reads c
  {
    c.timestamp == now && c.sockfd == fd && c.addr == addr && c.port == port && c.size == 0 && c.outgoing == 0
  }

  /** g_tcp_client_list and g_tcp_client_list_length. */
  class Table {
    var list: array<Client>
    var length: nat

    /** The clients in use. */
    function Members(): set<Client>
      reads this, list
    {
      set k | 0 <= k < length && k < list.Length :: list[k]
    }

    function Contents(): seq<Client>
      reads this, list
      requires length <= list.Length
    {
      list[..length]
    }

    /** At most MAX_NR_CLIENTS clients, each one sane. */
    predicate Valid()
      reads this, list, Members()
    {
      && list.Length == MAX_NR_CLIENTS && length <= MAX_NR_CLIENTS
      && forall k :: 0 <= k < length ==> Sane(list[k])
    }

    constructor ()
      ensures Valid() && length == 0 && fresh(list)
    {
      var buffer := new Byte[MAX_PACKET_SIZE];
      var unused := new Client(buffer);
      list := new Client[MAX_NR_CLIENTS](_ => unused);
      length := 0;
    }

    /**
     * find_oldest_client with the evidently intended result: the position
     * of the first client with the least timestamp, -1 (NULL) when there
     * is none.
     */
    method FindOldestClient() returns (pos: int)
      requires Valid()
      ensures pos == Oldest(Timestamps(Contents()))
    {
      ghost var ts := Timestamps(Contents());
      var timestamp := LONG_MAX;
      pos := -1;
      var i := 0;
      while i < length
        invariant 0 <= i <= length
        invariant OldestFrom(ts, i, timestamp, pos) == Oldest(ts)
      {
        if timestamp > list[i].timestamp {
          timestamp := list[i].timestamp;
          pos := i;
        }
        i := i + 1;
      }
    }

    /**
     * handle_tcp_connect after accept returned fd: a failed accept or a
     * descriptor beyond FD_SETSIZE is refused; a full list hands the slot
     * of its oldest client to the new connection (and the daemon exits if
     * there is none); otherwise a new client is appended. Either way the
     * client starts afresh: no bytes, not sending.
     */
    method Connect(fd: int, now: int, addr: int, port: int) returns (a: Admission)
      requires Valid()
      modifies this, list, Members()
      ensures Valid()
      ensures a.Refused? <==> fd == -1 || fd >= FD_SETSIZE
      ensures a.Refused? || a.Exited? ==>
                length == old(length) && Contents() == old(Contents()) && forall c :: c in old(Members()) ==> unchanged(c)
      ensures a.Exited? <==> !a.Refused? && old(length) >= MAX_NR_CLIENTS && Oldest(old(Timestamps(Contents()))) == -1
      ensures a.Replaced? <==> !a.Refused? && old(length) >= MAX_NR_CLIENTS && Oldest(old(Timestamps(Contents()))) != -1
      ensures a.Replaced? ==>
                && a.slot == Oldest(old(Timestamps(Contents()))) && a.slot < length
                && length == old(length) && Contents() == old(Contents())
                && Accepted(list[a.slot], fd, now, addr, port)
                && forall c :: c in old(Members()) && c != list[a.slot] ==> unchanged(c)
      ensures a.Appended? <==> !a.Refused? && old(length) < MAX_NR_CLIENTS
      ensures a.Appended? ==>
                && length == old(length) + 1 && Contents()[..old(length)] == old(Contents())
                && fresh(list[old(length)]) && Accepted(list[old(length)], fd, now, addr, port)
                && forall c :: c in old(Members()) ==> unchanged(c)
    {
      if fd == -1 || fd >= FD_SETSIZE {
        return Refused;
      }
      var client: Client;
      if length >= MAX_NR_CLIENTS {
        var pos := FindOldestClient();
        if pos == -1 {
          return Exited;
        }
        OldestIsFirstMinimum(Timestamps(Contents()));
        client := list[pos];
        a := Replaced(pos);
      } else {
        var packet := new Byte[MAX_PACKET_SIZE];
        client := new Client(packet);
        list[length] := client;
        length := length + 1;
        a := Appended;
      }
      Reset(client, fd, now, addr, port);
    }

    /**
     * The loop after the event handlers of main: every closed client is
     * taken out and the later ones moved up, and the scan starts over after
     * each move. The open clients stay, in their order.
     */
    method Compact()
      requires Valid()
      modifies this, list
      ensures Valid() && list == old(list)
      ensures Contents() == old(Open(Contents()))
      ensures length == old(length) - old(Closed(Contents()))
      ensures forall k :: 0 <= k < length ==> list[k].sockfd != -1
    {
      ghost var start := Contents();
      ghost var fds := Fds(start);
      var i: int := 0;
      while i < length
        invariant Swept(start, fds, i) && list == old(list)
        invariant forall c :: c in start ==> Sane(c)
        decreases length, length - i
      {
        i := Sweep(start, fds, i);
      }
      SweptAll(start, fds);
    }

    /** At the end of that loop the table holds the open part of start and is valid. */
    lemma SweptAll(start: seq<Client>, fds: seq<int>)
      requires Swept(start, fds, length) && forall c :: c in start ==> Sane(c)
      ensures Valid() && Contents() == OpenOf(start, fds) && length == |start| - ClosedOf(fds)
      ensures forall k :: 0 <= k < length ==> list[k].sockfd != -1
    {
      var cs := Contents();
      KeptAll(start, fds, cs, Fds(cs));
      assert forall k :: 0 <= k < length ==> list[k] == cs[k];
    }

    /**
     * The state of that loop before index i: the entries are entries of
     * start (with descriptors fds) and have the same open part, and those
     * before i are open.
     */
    predicate Swept(start: seq<Client>, fds: seq<int>, i: int)
      reads this, list, list[..]
    {
      && 0 <= i <= length + 1 && length <= MAX_NR_CLIENTS && list.Length == MAX_NR_CLIENTS
      && Kept(start, fds, Contents(), Fds(Contents()), i)
    }

    /** One turn of that loop, at index i; the result is the next index. */
    method Sweep(ghost start: seq<Client>, ghost fds: seq<int>, i: int) returns (next: int)
      requires Swept(start, fds, i) && i < length
      modifies this, list
      ensures Swept(start, fds, next) && list == old(list)
      ensures length < old(length) || (length == old(length) && next == i + 1)
    {
      next := i;
      if list[i].sockfd == -1 {
        ghost var before := Contents();
        ghost var closed := Fds(before);
        KeptRemove(start, fds, before, closed, i);
        Remove(i);
        assert Fds(before) == closed;
        FdsRemove(before, i);
        if i < length {
          next := -1;
        }
      }
      next := next + 1;
    }

    /**
     * One removal of the loop: the length goes down, and when the entry was
     * not the last the later entries move up one place (memmove).
     */
    method Remove(i: nat)
      requires list.Length == MAX_NR_CLIENTS && i < length <= MAX_NR_CLIENTS
      modifies this, list
      ensures list == old(list) && length == old(length) - 1
      ensures Contents() == old(Contents()[..i] + Contents()[i + 1..])
    {
      ghost var before := Contents();
      length := length - 1;
      if i < length {
        forall k | i <= k < length {
          list[k] := list[k + 1];
        }
      }
      ghost var after := list[..length];
      assert forall k :: 0 <= k < length ==> after[k] == before[if k < i then k else k + 1];
      DropAt(after, before, i);
    }
  }

  /** A list whose entries are those of before with the one at i skipped. */
  lemma DropAt(after: seq<Client>, before: seq<Client>, i: nat)
    requires |before| == |after| + 1 && i < |before|
    requires forall k :: 0 <= k < |after| ==> after[k] == before[if k < i then k else k + 1]
    ensures after == before[..i] + before[i + 1..]
  {
  }

  /**
   * The loop state of Table.Compact on values: the entries cs (with
   * descriptors cfds) are entries of start and have its open part, and
   * those before i are open.
   */
  predicate Kept(start: seq<Client>, fds: seq<int>, cs: seq<Client>, cfds: seq<int>, i: int) {
    && |start| == |fds| && |cs| == |cfds|
    && OpenOf(cs, cfds) == OpenOf(start, fds)
    && (forall k :: 0 <= k < |cs| ==> cs[k] in start)
    && (forall k :: 0 <= k < i && k < |cs| ==> cfds[k] != -1)
  }

  /** Once the whole list is past, it is the open part of start. */
  lemma KeptAll(start: seq<Client>, fds: seq<int>, cs: seq<Client>, cfds: seq<int>)
    requires Kept(start, fds, cs, cfds, |cs|)
    ensures cs == OpenOf(start, fds) && |cs| == |start| - ClosedOf(fds)
  {
    OpenOfOpen(cs, cfds);
    OpenLength(start, fds);
  }

  /** Dropping the closed entry at i keeps that loop state at i. */
  lemma KeptRemove(start: seq<Client>, fds: seq<int>, cs: seq<Client>, cfds: seq<int>, i: nat)
    requires Kept(start, fds, cs, cfds, i) && i < |cs| && cfds[i] == -1
    ensures Kept(start, fds, cs[..i] + cs[i + 1..], cfds[..i] + cfds[i + 1..], i)
  {
    OpenRemove(cs, cfds, i);
    var after, afds := cs[..i] + cs[i + 1..], cfds[..i] + cfds[i + 1..];
    assert forall k :: 0 <= k < |after| ==> after[k] == cs[if k < i then k else k + 1];
    assert forall k :: 0 <= k < i && k < |after| ==> afds[k] == cfds[k];
  }

  /** The descriptors of a list with one entry removed. */
  lemma FdsRemove(cs: seq<Client>, i: nat)
    requires i < |cs|
    ensures Fds(cs[..i] + cs[i + 1..]) == Fds(cs)[..i] + Fds(cs)[i + 1..]
  {
    var after := cs[..i] + cs[i + 1..];
    assert forall k :: 0 <= k < |after| ==> after[k] == cs[if k < i then k else k + 1];
  }

  /** The fields handle_tcp_connect gives the client of a new connection. */
  method Reset(client: Client, fd: int, now: int, addr: int, port: int)
    modifies client
    ensures Accepted(client, fd, now, addr, port) && client.packet == old(client.packet)
  {
    client.timestamp := now;
    client.sockfd := fd;
    client.addr := addr;
    client.port := port;
    client.size := 0;
    client.outgoing := 0;
  }

  /* ---------------------------------------------------------------------------
   * The state machine of a client (mini-snmpd.c:203-298)
   */

  /** What read() returned: an error, end of file, or the bytes that arrived. */
  datatype Received = ReadError | EndOfFile | Data(bytes: seq<Byte>)

  /**
   * handle_tcp_client_read: an error or end of file closes the client.
   * Otherwise the bytes are added to the packet (read asks for no more
   * than the buffer has room for) and the clock is noted. A packet that
   * snmp_packet_complete refuses closes the client, one still incomplete
   * leaves it waiting; a complete one is answered by snmp(), and the
   * client starts sending if there is an answer and is closed if not.
   */
  method HandleRead(client: Client, got: Received, now: int, mib: seq<Value>, community: seq<Byte>, auth: bool)
    requires Sane(client) && AllEncodable(mib)
    requires got.Data? ==> 0 < |got.bytes| <= MAX_PACKET_SIZE - client.size
    modifies client, client.packet
    ensures Sane(client) && client.packet == old(client.packet)
    ensures client.addr == old(client.addr) && client.port == old(client.port)
    ensures !got.Data? ==>
              && client.sockfd == -1 && client.timestamp == old(client.timestamp)
              && client.size == old(client.size) && client.outgoing == old(client.outgoing)
              && client.packet[..] == old(client.packet[..])
    ensures got.Data? ==>
              var p := old(client.packet[..client.size]) + got.bytes;
              && client.timestamp == now
              && (PacketComplete(p) == -1 ==>
                    client.sockfd == -1 && client.outgoing == old(client.outgoing)
                    && client.size == |p| && client.packet[..client.size] == p)
              && (PacketComplete(p) == 0 ==>
                    client.sockfd == old(client.sockfd) && client.outgoing == old(client.outgoing)
                    && client.size == |p| && client.packet[..client.size] == p)
              && (PacketComplete(p) == 1 ==>
                    var o := Respond(p, mib, community, auth);
                    if o.Sent? && |o.bytes| > 0 then
                      && client.sockfd == old(client.sockfd) && client.outgoing == 1
                      && client.size == |o.bytes| && client.packet[..client.size] == o.bytes
                    else client.sockfd == -1 && client.outgoing == 0)
    ensures client.outgoing == 1 && old(client.outgoing) != 1 ==>
              && got.Data?
              && var p := old(client.packet[..client.size]) + got.bytes;
              && PacketComplete(p) == 1 && Respond(p, mib, community, auth).Sent? && client.size > 0
  {
    if !got.Data? {
      client.sockfd := -1;
      return;
    }
    ghost var p := client.packet[..client.size] + got.bytes;
    var size := client.size;
    forall k | 0 <= k < |got.bytes| {
      client.packet[size + k] := got.bytes[k];
    }
    client.timestamp := now;
    client.size := size + |got.bytes|;
    assert client.packet[..client.size] == p;
    var complete := PacketComplete(client.packet[..client.size]);
    if complete == -1 {
      client.sockfd := -1;
      return;
    }
    if complete == 0 {
      return;
    }
    client.outgoing := 0;
    var r := Snmp(client, mib, community, auth);
    if r == -1 {
      client.sockfd := -1;
      return;
    }
    if client.size == 0 {
      client.sockfd := -1;
      return;
    }
    client.outgoing := 1;
  }

  /**
   * handle_tcp_client_write after send returned sent: the whole packet
   * sent puts the client back to listening; an error or a short write
   * closes it.
   */
  method HandleWrite(client: Client, sent: int)
    requires Sane(client) && (sent == -1 || 0 <= sent <= client.size)
    modifies client
    ensures Sane(client) && client.packet == old(client.packet) && client.timestamp == old(client.timestamp)
    ensures sent == old(client.size) ==>
              client.size == 0 && client.outgoing == 0 && client.sockfd == old(client.sockfd)
    ensures sent != old(client.size) ==>
              client.sockfd == -1 && client.size == old(client.size) && client.outgoing == old(client.outgoing)
  {
    if sent == -1 {
      client.sockfd := -1;
      return;
    }
    if sent != client.size {
      client.sockfd := -1;
      return;
    }
    client.size := 0;
    client.outgoing := 0;
  }
}
