/** The event loop and its index from descriptors to clients (srcs/Server.cpp). The kernel is
    nondeterministic: a new descriptor is one that is not open, and `epoll_wait` reports descriptors
    that are registered. */
module EventLoop {
  import opened Octets
  import opened RequestBody

  const MAX_EVENTS := 64

  datatype Removal = SERVER_IGNORE_HANGUP | SERVER_REMOVE

  // an entry of `_events`: the descriptor, -1 when neutralised, and the event bits that matter
  datatype EpollEvent = EpollEvent(fd: int, failed: bool, readable: bool, writable: bool)

  const NEUTRAL := EpollEvent(-1, false, false, false)

  /** A connection: its socket, and the CGI socket that its one request may open. */
  class Client {
    const socket: int
    var cgi: int
    var requested: bool

    constructor (socket: int)
      ensures this.socket == socket && cgi == -1 && !requested
    {
      this.socket := socket;
      cgi := -1;
      requested := false;
    }

    ghost function Sockets(): set<int>
      reads this
    {
      if cgi == -1 then {socket} else {socket, cgi}
    }
  }

  datatype Direction = In | Out

  /** What the loop does for an event: accept a connection, or let a client handle it, which may ask for a CGI socket;
      with the outcome. */
  datatype Call = Accept(fd: int, accepted: bool)
                | Handler(fd: int, client: Client, direction: Direction, opens: bool, answer: Progress)
  {
    predicate GoesOn() {
      Accept? || answer == REQ_CONTINUE
    }
  }

  /** The entry is a failure of the client's own socket; one of its CGI socket is ignored. */
  predicate Fails(e: EpollEvent, client: Client) {
    e.failed && e.fd == client.socket
  }

  /** `calls` is what an entry of `client` is to lead to: nothing when its own socket failed; else a read if it
      is readable, and a write if it is writable and the read, if any, went on. */
  predicate Served(e: EpollEvent, client: Client, calls: seq<Call>) {
    && (forall d <- calls :: d.Handler? && d.fd == e.fd && d.client == client)
    && (Fails(e, client) ==> calls == [])
    && (!Fails(e, client) && e.readable ==>
          && 1 <= |calls| <= 2 && calls[0].direction == In
          && (|calls| == 2 <==> e.writable && calls[0].answer == REQ_CONTINUE)
          && (|calls| == 2 ==> calls[1].direction == Out))
    && (!Fails(e, client) && !e.readable ==>
          && |calls| == (if e.writable then 1 else 0)
          && (e.writable ==> calls[0].direction == Out))
  }

  /** The last call ends the batch. */
  predicate Ends(calls: seq<Call>) {
    calls != [] && !calls[|calls| - 1].GoesOn()
  }

  /** The client has left before entry `k`: its own socket failed. */
  ghost predicate Gone(batch: seq<EpollEvent>, k: int, client: Client) {
    exists j :: 0 <= j < k && j < |batch| && Fails(batch[j], client)
  }

  /** What the first entries of a batch have led to: a listener accepts, the client that owned the descriptor
      when the batch was reported is served, while it is there, and only the last entry may end the batch. */
  ghost predicate BatchServed(batch: seq<EpollEvent>, calls: seq<seq<Call>>, listeners: set<int>, owner: map<int, Client>) {
    && |calls| <= |batch|
    && (forall k :: 0 <= k < |calls| ==> EntryServed(batch, k, calls[k], listeners, owner))
    && (forall k :: 0 <= k < |calls| - 1 ==> !Ends(calls[k]))
  }

  ghost predicate EntryServed(batch: seq<EpollEvent>, k: nat, calls: seq<Call>, listeners: set<int>, owner: map<int, Client>)
    requires k < |batch|
  {
    var e := batch[k];
    if e.fd in listeners then |calls| == 1 && calls[0].Accept? && calls[0].fd == e.fd
    else e.fd in owner && if Gone(batch, k, owner[e.fd]) then calls == [] else Served(e, owner[e.fd], calls)
  }

  /** The client has left during the batch: its own socket failed, or was given an answer that ends it. */
  ghost predicate Dismissed(batch: seq<EpollEvent>, calls: seq<seq<Call>>, client: Client)
    requires |calls| <= |batch|
  {
    var n := |calls|;
    Gone(batch, n, client) || (n > 0 && Ends(calls[n - 1]) && batch[n - 1].fd == client.socket)
  }

  /** A look at the timeouts of a client. */
  datatype Check = Check(client: Client, answer: Progress)

  /** The index is exact: every live socket of every client leads to it, and nothing else is there. */
  ghost predicate Exact(clients: seq<Client>, index: map<int, Client>)
    reads clients
  {
    && (forall c <- clients, fd <- c.Sockets() :: fd in index && index[fd] == c)
    && (forall fd <- index :: index[fd] in clients && fd in index[fd].Sockets())
  }

  /** Its keys are the disjoint union of the sockets of the clients. */
  lemma ExactPartitions(clients: seq<Client>, index: map<int, Client>)
    requires Exact(clients, index)
    ensures forall c, d :: c in clients && d in clients && c != d ==> c.Sockets() !! d.Sockets()
    ensures forall fd :: fd in index <==> exists c :: c in clients && fd in c.Sockets()
    ensures forall c, d :: c in clients && d in clients && c.socket == d.socket ==> c == d
  {
    forall c, d | c in clients && d in clients && c != d ensures c.Sockets() !! d.Sockets() {
      forall fd | fd in c.Sockets() ensures fd !in d.Sockets() {
        assert index[fd] == c;
      }
    }
    forall c | c in clients ensures c.socket in c.Sockets() {}
    forall fd | fd in index ensures exists c :: c in clients && fd in c.Sockets() {
      assert index[fd] in clients && fd in index[fd].Sockets();
    }
  }

  lemma NoClientsNoIndex(index: map<int, Client>)
    requires Exact([], index)
    ensures index == map[]
  {
    ExactPartitions([], index);
    assert forall fd :: fd !in index;
  }

  lemma ExactAfterRemoval(before: seq<Client>, after: seq<Client>, index: map<int, Client>, client: Client)
    requires Exact(before, index) && client in before
    requires forall c :: c in after <==> c in before && c != client
    ensures Exact(after, index - client.Sockets())
  {
    ExactPartitions(before, index);
    var rest := index - client.Sockets();
    forall c, fd | c in after && fd in c.Sockets() ensures fd in rest && rest[fd] == c {
      assert fd !in client.Sockets();
    }
  }

  /** A new client belongs into the index. */
  lemma ExactAfterAccepting(before: seq<Client>, index: map<int, Client>, client: Client)
    requires Exact(before, index) && client !in before && client.cgi == -1 && client.socket !in index
    ensures Exact([client] + before, index[client.socket := client]) && !Exact([client] + before, index)
  {
    var after := [client] + before;
    assert client in after && client.socket in client.Sockets();
    assert forall c :: c in after <==> c == client || c in before;
  }

  /** Registering one more socket of a client, when all others are registered. */
  lemma ExactAfterOpening(clients: seq<Client>, before: map<int, Client>, client: Client)
    requires client in clients && client.cgi != -1 && client.cgi !in before
    requires forall c, fd :: c in clients && fd in c.Sockets() && fd != client.cgi ==> fd in before && before[fd] == c
    requires forall c :: c in clients && client.cgi in c.Sockets() ==> c == client
    requires forall fd :: fd in before ==> before[fd] in clients && fd in before[fd].Sockets()
    ensures Exact(clients, before[client.cgi := client])
  {}

  /** Exactly `client` has left the list. */
  ghost predicate Left(before: seq<Client>, after: seq<Client>, client: Client) {
    (forall c <- before :: c != client ==> c in after) && (forall c <- after :: c in before && c != client)
  }

  /** The entries of `client` have lost their descriptor, and no other entry has changed. */
  ghost predicate Cleared(before: seq<EpollEvent>, after: seq<EpollEvent>, index: map<int, Client>, client: Client) {
    && |before| == |after|
    && forall k :: 0 <= k < |before| ==>
         if before[k].fd in index && index[before[k].fd] == client then after[k].fd == -1
         else after[k].fd == before[k].fd && (after[k].fd != -1 ==> after[k] == before[k])
  }

  /** The kernel has been asked for two more descriptors, or for one that it did not have. */
  predicate PairAsked(before: seq<int>, after: seq<int>) {
    && before <= after
    && (|after| == |before| + 2 || (|after| == |before| + 1 && after[|before|] == -1))
  }

  /** The index may have got a descriptor that was not open. */
  ghost predicate Extends(before: map<int, Client>, after: map<int, Client>, open: set<int>) {
    (forall fd <- before :: fd in after && after[fd] == before[fd]) && (forall fd <- after :: fd in before || fd !in open)
  }

  /** Every entry has lost its descriptor, or has one that was open. */
  ghost predicate WasOpen(entries: seq<EpollEvent>, open: set<int>) {
    forall e <- entries :: e.fd == -1 || e.fd in open
  }

  lemma StillCleared(before: seq<EpollEvent>, after: seq<EpollEvent>, index: map<int, Client>, grown: map<int, Client>,
                     open: set<int>, client: Client)
    requires Cleared(before, after, grown, client) && Extends(index, grown, open)
    requires WasOpen(before, open) && -1 !in grown
    ensures Cleared(before, after, index, client)
  {
    forall k | 0 <= k < |before| ensures before[k].fd in grown <==> before[k].fd in index { assert before[k] in before; }
  }

  /** A listener accepts, an entry of a client that is registered is served, and no other entry does anything.
      The client leaves when its own socket failed or was answered with anything but REQ_CONTINUE. */
  ghost predicate EntryHandled(
    e: EpollEvent, index: map<int, Client>, listeners: set<int>, before: seq<Client>, after: seq<Client>,
    entries: seq<EpollEvent>, left: seq<EpollEvent>, calls: seq<Call>, stop: bool)
  {
    && (stop <==> Ends(calls))
    && (e.fd in listeners ==>
          && |calls| == 1 && calls[0].Accept? && calls[0].fd == e.fd && left == entries
          && (if calls[0].accepted then |after| == |before| + 1 && after[1..] == before else after == before))
    && (e.fd !in listeners && e.fd !in index ==> calls == [] && after == before && left == entries)
    && (e.fd !in listeners && e.fd in index ==>
          var client := index[e.fd];
          && Served(e, client, calls)
          && if e.fd == client.socket && (e.failed || stop) then
               Left(before, after, client) && Cleared(entries, left, index, client)
             else after == before && left == entries)
  }

  /** What the loop knows of the batch: its descriptors were listeners or in the index `owner`, and those that are
      left still lead to the same clients. */
  ghost predicate Reported(batch: seq<EpollEvent>, listeners: set<int>, owner: map<int, Client>, before: seq<Client>) {
    && (forall e <- batch :: e.fd in listeners || e.fd in owner)
    && listeners !! owner.Keys
    && (forall fd <- owner :: owner[fd] in before)
    && (forall c <- before :: c.socket in owner && owner[c.socket] == c)
  }

  ghost predicate StillOwned(entries: seq<EpollEvent>, listeners: set<int>, owner: map<int, Client>, index: map<int, Client>) {
    && -1 !in index && -1 !in listeners && listeners !! index.Keys
    && forall e <- entries :: e.fd == -1 || e.fd in listeners || (e.fd in index && e.fd in owner && index[e.fd] == owner[e.fd])
  }

  lemma AllReported(batch: seq<EpollEvent>, clients: seq<Client>, index: map<int, Client>, listeners: set<int>)
    requires Exact(clients, index) && index.Keys !! listeners
    requires forall k :: 0 <= k < |batch| ==> batch[k].fd in listeners || batch[k].fd in index
    ensures Reported(batch, listeners, index, clients)
  {
    forall c | c in clients ensures c.socket in index && index[c.socket] == c { assert c.socket in c.Sockets(); }
  }

  lemma NothingGone(batch: seq<EpollEvent>, owner: map<int, Client>)
    ensures Remaining(batch, batch, owner, 0) && forall c: Client :: !Gone(batch, 0, c)
  {}

  lemma GoneNext(batch: seq<EpollEvent>, i: nat, client: Client)
    requires i < |batch|
    ensures Gone(batch, i + 1, client) <==> Gone(batch, i, client) || Fails(batch[i], client)
  {
    if Fails(batch[i], client) { assert Gone(batch, i + 1, client); }
  }

  lemma StaysRemaining(
    batch: seq<EpollEvent>, i: nat, listeners: set<int>, owner: map<int, Client>, known: seq<Client>, entries: seq<EpollEvent>)
    requires i < |batch| && Reported(batch, listeners, owner, known) && Remaining(batch, entries, owner, i)
    requires batch[i].fd in listeners || entries[i].fd == -1 || !Fails(batch[i], owner[batch[i].fd])
    requires -1 !in listeners && -1 !in owner
    ensures Remaining(batch, entries, owner, i + 1)
    ensures forall c <- known :: Gone(batch, i + 1, c) <==> Gone(batch, i, c)
  {
    assert batch[i] in batch;
    forall c | c in known ensures Gone(batch, i + 1, c) <==> Gone(batch, i, c) { GoneNext(batch, i, c); }
    hide Gone;
  }

  lemma RemovedFromRemaining(
    batch: seq<EpollEvent>, i: nat, listeners: set<int>, owner: map<int, Client>, index: map<int, Client>,
    known: seq<Client>, entries: seq<EpollEvent>, left: seq<EpollEvent>)
    requires i < |batch| && Reported(batch, listeners, owner, known) && Remaining(batch, entries, owner, i)
    requires StillOwned(entries, listeners, owner, index) && -1 !in owner
    requires batch[i].fd in owner && Fails(batch[i], owner[batch[i].fd])
    requires Cleared(entries, left, index, owner[batch[i].fd])
    ensures Remaining(batch, left, owner, i + 1)
  {
    var client := owner[batch[i].fd];
    forall k | 0 <= k < |batch|
      ensures if batch[k].fd in owner && Gone(batch, i + 1, owner[batch[k].fd]) then left[k].fd == -1 else left[k] == batch[k]
    {
      assert batch[k] in batch && entries[k] in entries;
      if batch[k].fd in owner {
        GoneNext(batch, i, owner[batch[k].fd]);
        hide Gone;
        assert owner[batch[k].fd] in known;
      }
    }
  }

  /** One entry of the batch, told by what was reported. */
  lemma EntryStep(
    batch: seq<EpollEvent>, i: nat, listeners: set<int>, owner: map<int, Client>, index: map<int, Client>,
    known: seq<Client>, before: seq<Client>, after: seq<Client>,
    entries: seq<EpollEvent>, left: seq<EpollEvent>, calls: seq<Call>, stop: bool)
    requires i < |batch| && Reported(batch, listeners, owner, known) && -1 !in owner
    requires Remaining(batch, entries, owner, i) && StillOwned(entries, listeners, owner, index)
    requires EntryHandled(entries[i], index, listeners, before, after, entries, left, calls, stop)
    requires forall c <- known :: c in before <==> !Gone(batch, i, c)
    requires forall c <- after :: c in before || c !in known
    ensures EntryServed(batch, i, calls, listeners, owner)
    ensures !stop ==> Remaining(batch, left, owner, i + 1)
    ensures forall c <- known :: c in after <==> !Gone(batch, i + 1, c) && !(stop && batch[i].fd == c.socket)
  {
    var e := batch[i];
    assert entries[i] in entries && e in batch;
    forall c | c in known ensures Gone(batch, i + 1, c) <==> Gone(batch, i, c) || Fails(e, c) { GoneNext(batch, i, c); }
    hide Gone, Remaining, Served, Cleared;
    if e.fd in listeners {
      assert entries[i] == e by { RemainingAt(batch, entries, owner, i); }
      StaysRemaining(batch, i, listeners, owner, known, entries);
      if calls[0].accepted { assert forall c <- before :: c in after[1..]; }
    } else {
      RemainingAt(batch, entries, owner, i);
      var client := owner[e.fd];
      if Gone(batch, i, client) {
        StaysRemaining(batch, i, listeners, owner, known, entries);
      } else if Fails(e, client) {
        RemovedFromRemaining(batch, i, listeners, owner, index, known, entries, left);
      } else {
        StaysRemaining(batch, i, listeners, owner, known, entries);
      }
    }
  }

  lemma RemainingAt(batch: seq<EpollEvent>, entries: seq<EpollEvent>, owner: map<int, Client>, i: nat)
    requires Remaining(batch, entries, owner, i) && i < |batch|
    ensures if batch[i].fd in owner && Gone(batch, i, owner[batch[i].fd]) then entries[i].fd == -1 else entries[i] == batch[i]
  {}

  lemma OneMoreEntry(
    batch: seq<EpollEvent>, calls: seq<seq<Call>>, made: seq<Call>, listeners: set<int>, owner: map<int, Client>)
    requires BatchServed(batch, calls, listeners, owner) && |calls| < |batch|
    requires EntryServed(batch, |calls|, made, listeners, owner) && (calls != [] ==> !Ends(calls[|calls| - 1]))
    ensures BatchServed(batch, calls + [made], listeners, owner) && Concat(calls + [made]) == Concat(calls) + made
  {
    hide EntryServed, Ends, Concat;
    ConcatOne(calls, made);
    var more := calls + [made];
    forall k | 0 <= k < |more| - 1 ensures !Ends(more[k]) {
      assert more[k] == calls[k];
    }
    forall k | 0 <= k < |more| ensures EntryServed(batch, k, more[k], listeners, owner) {
      assert more[k] == if k < |calls| then calls[k] else made;
    }
  }

  lemma ConcatOne(calls: seq<seq<Call>>, made: seq<Call>)
    ensures Concat(calls + [made]) == Concat(calls) + made
  {
    ConcatAppend(calls, [made]);
    assert [made][1..] == [] && Concat([made]) == made + Concat([]) == made;
  }

  /** The entries of a batch that are left when those before `i` have been handled. */
  ghost predicate Remaining(batch: seq<EpollEvent>, entries: seq<EpollEvent>, owner: map<int, Client>, i: nat) {
    && |entries| == |batch|
    && forall k :: 0 <= k < |batch| ==>
         if batch[k].fd in owner && Gone(batch, i, owner[batch[k].fd]) then entries[k].fd == -1 else entries[k] == batch[k]
  }

  function CheckedClients(checks: seq<Check>): seq<Client> {
    if checks == [] then [] else [checks[0].client] + CheckedClients(checks[1..])
  }

  /** The clients that a look at their timeouts has not ended. */
  function Surviving(checks: seq<Check>): seq<Client> {
    if checks == [] then []
    else (if checks[0].answer == REQ_CONTINUE then [checks[0].client] else []) + Surviving(checks[1..])
  }

  lemma SplitAround(cs: seq<Client>, i: nat)
    requires i < |cs|
    ensures cs[i..] == [cs[i]] + cs[i + 1..] && cs[..i + 1] == cs[..i] + [cs[i]]
    ensures (cs[..i] + cs[i + 1..])[..i] == cs[..i] && (cs[..i] + cs[i + 1..])[i..] == cs[i + 1..]
  {}

  lemma {:induction false} SurvivorsWereChecked(checks: seq<Check>)
    ensures forall c <- Surviving(checks) :: c in CheckedClients(checks)
  {
    if checks != [] { SurvivorsWereChecked(checks[1..]); }
  }

  lemma {:induction false} OneMoreCheck(checks: seq<Check>, check: Check)
    ensures CheckedClients(checks + [check]) == CheckedClients(checks) + [check.client]
    ensures Surviving(checks + [check]) == Surviving(checks) + if check.answer == REQ_CONTINUE then [check.client] else []
  {
    if checks == [] {
      assert checks + [check] == [check];
    } else {
      assert (checks + [check])[0] == checks[0] && (checks + [check])[1..] == checks[1..] + [check];
      OneMoreCheck(checks[1..], check);
    }
  }

  class Server {
    const listeners: set<int>
    const events: array<EpollEvent>
    var nfds: int
    var clients: seq<Client>
    var fdClientMap: map<int, Client>
    // descriptors that the kernel has open, its answers to calls that ask for one, and the calls made so far
    var open: set<int>
    ghost var granted: seq<int>
    ghost var log: seq<Call>

    ghost predicate Valid()
      reads this, clients
    {
      && events.Length == MAX_EVENTS && -1 <= nfds <= MAX_EVENTS
      && (forall i, j :: 0 <= i < j < |clients| ==> clients[i] != clients[j])
      && (forall c <- clients :: c.cgi != c.socket && (c.cgi != -1 ==> c.requested))
      && Exact(clients, fdClientMap)
      && fdClientMap.Keys !! listeners && -1 !in fdClientMap && -1 !in listeners
      && fdClientMap.Keys + listeners <= open
    }

    constructor (listeners: set<int>)
      requires -1 !in listeners
      ensures Valid() && clients == [] && fresh(events) && this.listeners == listeners && log == []
    {
      this.listeners := listeners;
      events := new EpollEvent[MAX_EVENTS](_ => NEUTRAL);
      nfds := 0;
      clients := [];
      fdClientMap := map[];
      open := listeners;
      granted, log := [], [];
    }

    /** Every event that is left belongs to a listener or to the client that owned its descriptor when
        the batch was reported. */
    ghost predicate Current(owner: map<int, Client>)
      requires events.Length == MAX_EVENTS && nfds <= MAX_EVENTS
      reads this, events
    {
      forall i :: 0 <= i < nfds ==> CurrentEvent(events[i].fd, owner)
    }

    ghost predicate CurrentEvent(fd: int, owner: map<int, Client>)
      reads this
    {
      fd == -1 || fd in listeners || (fd in fdClientMap && fd in owner && fdClientMap[fd] == owner[fd])
    }

    /** The kernel hands out a descriptor that is not open. */
    method NewDescriptor() returns (fd: int)
      modifies this`open, this`granted
      ensures granted == old(granted) + [fd]
      ensures fd == -1 ==> open == old(open)
      ensures fd != -1 ==> fd !in old(open) && open == old(open) + {fd}
    {
      fd := *;
      if fd in open {
        fd := -1;
      }
      granted := granted + [fd];
      if fd != -1 {
        open := open + {fd};
      }
    }

    method EpollWait()
      requires Valid()
      modifies this`nfds, events
      ensures Valid() && Current(fdClientMap)
      ensures nfds >= 0 ==> Reported(events[..nfds], listeners, fdClientMap, clients)
    {
      var known := listeners + fdClientMap.Keys;
      var count: int := *;
      if count < 0 {
        nfds := -1;
        return;
      }
      var i := 0;
      while i < count && i < MAX_EVENTS
        invariant 0 <= i <= MAX_EVENTS
        invariant forall j :: 0 <= j < i ==> events[j].fd in known
      {
        if fd :| fd in known {
          var failed, readable, writable := *, *, *;
          events[i] := EpollEvent(fd, failed, readable, writable);
          i := i + 1;
        } else {
          break;
        }
      }
      nfds := i;
      AllReported(events[..nfds], clients, fdClientMap, listeners);
    }

    /** `addCGIToClientMap`: finds the client by its socket. */
    method AddCGIToClientMap(fd: int, client: Client) returns (found: bool)
      requires forall c <- clients :: c.socket == client.socket ==> c == client
      modifies this`fdClientMap
      ensures found == (client in clients)
      ensures fdClientMap == if found then old(fdClientMap)[fd := client] else old(fdClientMap)
    {
      var i := 0;
      while i < |clients|
        invariant 0 <= i <= |clients| && client !in clients[..i]
      {
        if clients[i].socket == client.socket {
          fdClientMap := fdClientMap[fd := clients[i]];
          return true;
        }
        i := i + 1;
      }
      found := false;
    }

    /** A client is accepted, or there is no descriptor for it. When its registration fails, the source closes
        the socket and leaves the client in the list: then, and only then, the index is not exact. */
    method AddConnection(fd: int, registered: bool, ghost owner: map<int, Client>) returns (accepted: bool)
      requires Valid() && Current(owner)
      modifies this`clients, this`fdClientMap, this`open, this`granted, this`log
      ensures log == old(log) + [Accept(fd, accepted)]
      ensures |granted| == |old(granted)| + 1 && granted[..|old(granted)|] == old(granted)
      ensures accepted <==> granted[|old(granted)|] != -1
      ensures accepted ==> clients != [] && clients[0].socket == granted[|old(granted)|]
      ensures !accepted ==> clients == old(clients) && fdClientMap == old(fdClientMap)
      ensures accepted ==> |clients| == |old(clients)| + 1 && clients[1..] == old(clients) && fresh(clients[0])
      ensures accepted && registered ==> fdClientMap == old(fdClientMap)[clients[0].socket := clients[0]]
      ensures !accepted || registered ==> Valid() && Current(owner)
      ensures accepted && !registered ==> !Exact(clients, fdClientMap)
    {
      var requestSocket := NewDescriptor();
      accepted := requestSocket != -1;
      log := log + [Accept(fd, accepted)];
      if !accepted {
        return;
      }
      var client := new Client(requestSocket);
      ExactAfterAccepting(clients, fdClientMap, client);
      clients := [client] + clients;
      if !registered {
        open := open - {requestSocket};
        return;
      }
      Enter(client, owner);
    }

    /** The client at the front enters the index. */
    method Enter(client: Client, ghost owner: map<int, Client>)
      requires clients != [] && clients[0] == client && client !in clients[1..] && client.cgi == -1 && client.socket != -1
      requires events.Length == MAX_EVENTS && -1 <= nfds <= MAX_EVENTS && Current(owner)
      requires forall i, j :: 1 <= i < j < |clients| ==> clients[i] != clients[j]
      requires forall c <- clients[1..] :: c.cgi != c.socket && (c.cgi != -1 ==> c.requested)
      requires Exact(clients, fdClientMap[client.socket := client]) && client.socket !in fdClientMap && client.socket !in listeners
      requires fdClientMap.Keys !! listeners && -1 !in fdClientMap && -1 !in listeners
      requires fdClientMap.Keys + listeners + {client.socket} <= open
      modifies this`fdClientMap
      ensures Valid() && Current(owner) && fdClientMap == old(fdClientMap)[client.socket := client]
    {
      hide Exact;
      assert forall c <- clients :: c == client || c in clients[1..];
      fdClientMap := fdClientMap[client.socket := client];
      forall i | 0 <= i < nfds ensures CurrentEvent(events[i].fd, owner) {
        assert old(CurrentEvent(events[i].fd, owner));
      }
    }

    /** The loop at the end of `_removeConnection`. */
    method Neutralise(fd0: int, fd1: int)
      requires -1 <= nfds <= events.Length
      modifies events
      ensures forall i :: 0 <= i < nfds ==>
                events[i] == if old(events[i].fd) == fd0 || old(events[i].fd) == fd1 then NEUTRAL else old(events[i])
    {
      var i := 0;
      while i < nfds
        invariant 0 <= i && (i <= nfds || i == 0)
        invariant forall j :: 0 <= j < i ==>
                    events[j] == if old(events[j].fd) == fd0 || old(events[j].fd) == fd1 then NEUTRAL else old(events[j])
        invariant forall j :: i <= j < nfds ==> events[j] == old(events[j])
      {
        if events[i].fd == fd0 {
          events[i] := NEUTRAL;
        }
        if events[i].fd == fd1 {
          events[i] := NEUTRAL;
        }
        i := i + 1;
      }
    }
  
    /** `client` is taken out of the list `before`, the others keep their order. */
    ghost predicate Removed(before: seq<Client>, client: Client)
      reads this
    {
      exists k :: 0 <= k < |before| && before[k] == client && clients == before[..k] + before[k + 1..]
    }

    method EraseClient(client: Client)
      requires client in clients && forall i, j :: 0 <= i < j < |clients| ==> clients[i] != clients[j]
      modifies this`clients
      ensures Removed(old(clients), client)
      ensures forall i, j :: 0 <= i < j < |clients| ==> clients[i] != clients[j]
      ensures forall c :: c in clients <==> c in old(clients) && c != client
    {
      var k :| 0 <= k < |clients| && clients[k] == client;
      clients := clients[..k] + clients[k + 1..];
    }

    /** The sockets of the client leave the index and are closed. */
    method Unregister(client: Client)
      requires client.socket != -1
      modifies this`fdClientMap, this`open
      ensures fdClientMap == old(fdClientMap) - client.Sockets()
      ensures open == old(open) - client.Sockets()
    {
      if client.socket != -1 {
        fdClientMap := fdClientMap - {client.socket};
        open := open - {client.socket};
      }
      if client.cgi != -1 {
        fdClientMap := fdClientMap - {client.cgi};
        open := open - {client.cgi};
      }
    }

    /** `_removeConnection`. */
    method RemoveConnection(fd: int) returns (r: Removal)
      requires Valid() && fd in fdClientMap
      modifies this`clients, this`fdClientMap, this`open, events
      ensures Valid()
      ensures r == if fd == old(fdClientMap[fd].cgi) then SERVER_IGNORE_HANGUP else SERVER_REMOVE
      ensures r == SERVER_IGNORE_HANGUP ==>
                clients == old(clients) && fdClientMap == old(fdClientMap) && open == old(open) && events[..] == old(events[..])
      ensures r == SERVER_REMOVE ==> var client := old(fdClientMap[fd]);
                && Removed(old(clients), client) && client !in clients
                && fdClientMap == old(fdClientMap) - client.Sockets()
                && open == old(open) - client.Sockets()
                && forall i :: 0 <= i < nfds ==>
                     if old(events[i].fd) in client.Sockets() then events[i] == NEUTRAL
                     else events[i].fd == old(events[i].fd) && (events[i].fd != -1 ==> events[i] == old(events[i]))
    {
      var client := fdClientMap[fd];
      assert client in clients && client.socket in client.Sockets() && client.socket != -1;
      var fd0, fd1 := client.socket, client.cgi;
      if fd == fd1 {
        return SERVER_IGNORE_HANGUP;
      }
      Unregister(client);
      Neutralise(fd0, fd1);
      EraseClient(client);
      assert Exact(clients, fdClientMap) by {
        ExactAfterRemoval(old(clients), clients, old(fdClientMap), client);
      }
      hide Exact, Removed;
      r := SERVER_REMOVE;
    }
  
    /** `_removeConnection` leaves no event behind that a reissued descriptor could inherit. */
    method RemoveInBatch(fd: int, ghost owner: map<int, Client>) returns (r: Removal)
      requires Valid() && nfds >= 0 && fd in fdClientMap && Current(owner)
      modifies this`clients, this`fdClientMap, this`open, events
      ensures Valid() && Current(owner)
      ensures r == if fd == old(fdClientMap[fd]).socket then SERVER_REMOVE else SERVER_IGNORE_HANGUP
      ensures r == SERVER_REMOVE ==>
                fd !in fdClientMap && Left(old(clients), clients, old(fdClientMap[fd]))
                && Cleared(old(events[..nfds]), events[..nfds], old(fdClientMap), old(fdClientMap[fd]))
      ensures r == SERVER_IGNORE_HANGUP ==>
                clients == old(clients) && fdClientMap == old(fdClientMap) && events[..] == old(events[..])
    {
      ghost var client := fdClientMap[fd];
      assert client in clients && fd in client.Sockets();
      assert forall d :: d in fdClientMap && fdClientMap[d] == client <==> d in client.Sockets();
      r := RemoveConnection(fd);
      if r == SERVER_REMOVE {
        forall i | 0 <= i < nfds ensures CurrentEvent(events[i].fd, owner) {
          assert old(CurrentEvent(events[i].fd, owner));
        }
        assert forall i :: 0 <= i < nfds ==> events[..nfds][i] == events[i] && old(events[..nfds])[i] == old(events[i]);
      }
    }

    /** A handler of a client, `handleIn` or `handleOut`. On the client's own socket it may build its one request,
        which may open a CGI socket; the parent end is then registered, unless there is no pair. */
    method Handle(fd: int, direction: Direction, ghost owner: map<int, Client>) returns (answer: Progress, ghost opens: bool)
      requires Valid() && Current(owner) && fd in fdClientMap
      modifies this`fdClientMap, this`open, this`granted, this`log, set c | c in clients
      ensures Valid() && Current(owner) && clients == old(clients)
      ensures log == old(log) + [Handler(fd, old(fdClientMap[fd]), direction, opens, answer)]
      ensures Extends(old(fdClientMap), fdClientMap, old(open))
      ensures var client := old(fdClientMap[fd]);
              if opens then
                && fd == client.socket && !old(client.requested) && client.requested && PairAsked(old(granted), granted)
                && client.cgi == (if -1 in granted[|old(granted)|..] then -1 else granted[|old(granted)|])
              else client.cgi == old(client.cgi) && granted == old(granted)
    {
      var client := fdClientMap[fd];
      opens := false;
      var constructs, withCgi := *, *;
      if fd == client.socket && !client.requested && constructs {
        client.requested := true;
        if withCgi {
          opens := true;
          OpenCgi(client, owner);
        }
      }
      answer := *;
      log := log + [Handler(fd, client, direction, opens, answer)];
    }

    /** `socketpair`, and the close of the child end unless `fork` fails; -1 when there is no pair. */
    method SocketPair() returns (parent: int)
      modifies this`open, this`granted
      ensures PairAsked(old(granted), granted)
      ensures parent == if -1 in granted[|old(granted)|..] then -1 else granted[|old(granted)|]
      ensures parent == -1 ==> old(open) <= open
      ensures parent != -1 ==> parent !in old(open) && old(open) + {parent} <= open
    {
      parent := NewDescriptor();
      assert granted[|old(granted)|..] == [parent];
      if parent == -1 {
        return;
      }
      var child := NewDescriptor();
      assert granted[|old(granted)|..] == [parent, child];
      if child == -1 {
        open := open - {parent};
        return -1;
      }
      var forked := *;
      if forked {
        open := open - {child};
      }
    }

    method Register(client: Client, parent: int)
      requires Exact(clients, fdClientMap) && client in clients && client.cgi == -1
      requires parent != -1 && parent !in fdClientMap
      modifies this`fdClientMap, client`cgi
      ensures client.cgi == parent && fdClientMap == old(fdClientMap)[parent := client]
      ensures Exact(clients, fdClientMap)
    {
      ExactPartitions(clients, fdClientMap);
      assert forall c, fd :: c in clients && fd in c.Sockets() ==> fd in fdClientMap;
      assert client.Sockets() == {client.socket};
      client.cgi := parent;
      assert client.Sockets() == {client.socket, parent};
      assert forall c :: c in clients && c != client ==> c.Sockets() == old(c.Sockets());
      var found := AddCGIToClientMap(parent, client);
      assert found;
      ExactAfterOpening(clients, old(fdClientMap), client);
    }

    method OpenCgi(client: Client, ghost owner: map<int, Client>)
      requires Valid() && Current(owner) && client in clients && client.cgi == -1 && client.requested
      modifies this`fdClientMap, this`open, this`granted, client`cgi
      ensures Valid() && Current(owner) && old(open) <= open
      ensures PairAsked(old(granted), granted)
      ensures client.cgi == if -1 in granted[|old(granted)|..] then -1 else granted[|old(granted)|]
      ensures if client.cgi == -1 then fdClientMap == old(fdClientMap)
              else client.cgi !in old(open) && client.cgi in open && fdClientMap == old(fdClientMap)[client.cgi := client]
    {
      assert client.socket in client.Sockets() && client.socket in fdClientMap;
      var parent := SocketPair();
      if parent != -1 {
        Register(client, parent);
      }
      hide Exact;
    }

    /** A handler is called, and an answer other than REQ_CONTINUE removes its client, unless the event was one of
        the CGI socket, and ends the batch. */
    method Dispatch(fd: int, direction: Direction, ghost owner: map<int, Client>) returns (stop: bool, ghost call: Call)
      requires Valid() && nfds >= 0 && Current(owner) && fd in fdClientMap
      modifies this`clients, this`fdClientMap, this`open, this`granted, this`log, events, set c | c in clients
      ensures Valid() && Current(owner) && log == old(log) + [call]
      ensures call.Handler? && call == Handler(fd, old(fdClientMap[fd]), direction, call.opens, call.answer)
      ensures stop <==> call.answer != REQ_CONTINUE
      ensures var client := old(fdClientMap[fd]);
              if stop && fd == client.socket then
                && Left(old(clients), clients, client)
                && Cleared(old(events[..nfds]), events[..nfds], old(fdClientMap), client)
              else clients == old(clients) && events[..nfds] == old(events[..nfds])
      ensures !stop ==> Extends(old(fdClientMap), fdClientMap, old(open))
    {
      var answer;
      ghost var opens;
      answer, opens := Handle(fd, direction, owner);
      call := Handler(fd, fdClientMap[fd], direction, opens, answer);
      stop := answer != REQ_CONTINUE;
      if stop {
        assert WasOpen(events[..nfds], old(open));
        ghost var index := fdClientMap;
        hide Exact;
        var removal := RemoveInBatch(fd, owner);
        if removal == SERVER_REMOVE {
          StillCleared(old(events[..nfds]), events[..nfds], old(fdClientMap), index, old(open), call.client);
        }
      }
    }

    /** An entry of a client that is registered. The client leaves when its own socket failed or was answered with
        anything but REQ_CONTINUE; an answer of its CGI socket only stops. */
    method HandleClient(e: EpollEvent, ghost owner: map<int, Client>) returns (stop: bool, ghost calls: seq<Call>)
      requires Valid() && nfds >= 0 && Current(owner) && e.fd in fdClientMap
      modifies this`clients, this`fdClientMap, this`open, this`granted, this`log, events, set c | c in clients
      ensures Valid() && Current(owner) && log == old(log) + calls
      ensures Served(e, old(fdClientMap[e.fd]), calls) && (stop <==> Ends(calls))
      ensures var client := old(fdClientMap[e.fd]);
              if e.fd == client.socket && (e.failed || stop) then
                && Left(old(clients), clients, client)
                && Cleared(old(events[..nfds]), events[..nfds], old(fdClientMap), client)
              else clients == old(clients) && events[..nfds] == old(events[..nfds])
    {
      stop, calls := false, [];
      hide Exact, Left, Cleared;
      if e.failed {
        var removal := RemoveInBatch(e.fd, owner);
        if removal == SERVER_REMOVE {
          return;
        }
      }
      if e.fd !in fdClientMap {
        return;
      }
      ghost var call;
      if e.readable {
        stop, call := Dispatch(e.fd, In, owner);
        calls := [call];
        if stop {
          return;
        }
      }
      if e.fd !in fdClientMap {
        return;
      }
      if e.writable {
        assert WasOpen(events[..nfds], old(open));
        ghost var index := fdClientMap;
        stop, call := Dispatch(e.fd, Out, owner);
        calls := calls + [call];
        if stop && e.fd == call.client.socket {
          StillCleared(old(events[..nfds]), events[..nfds], old(fdClientMap), index, old(open), call.client);
        }
      }
    }

    /** One entry of the batch (srcs/Server.cpp:77-133); `stop` is the `break`. */
    method HandleEvent(i: nat, ghost owner: map<int, Client>) returns (stop: bool, ghost calls: seq<Call>)
      requires Valid() && i < nfds && Current(owner)
      modifies this`clients, this`fdClientMap, this`open, this`granted, this`log, events, set c | c in clients
      ensures Valid() && Current(owner) && log == old(log) + calls
      ensures EntryHandled(old(events[i]), old(fdClientMap), listeners, old(clients), clients,
                           old(events[..nfds]), events[..nfds], calls, stop)
      ensures forall c <- clients :: c in old(clients) || fresh(c)
    {
      stop, calls := false, [];
      var fd := events[i].fd;
      assert CurrentEvent(fd, owner);
      hide Exact, Left, Cleared, Served, Ends;
      if fd in listeners {
        var accepted := AddConnection(fd, true, owner);
        calls := [Accept(fd, accepted)];
        return;
      }
      if fd !in fdClientMap {
        return;
      }
      stop, calls := HandleClient(events[i], owner);
    }

    /** `_checkClientsTimeout`: every client is looked at once, in order, while those that it ends are removed
        from the list. */
    method CheckClientsTimeout() returns (ghost checks: seq<Check>)
      requires Valid()
      modifies this`clients, this`fdClientMap, this`open, events
      ensures Valid() && CheckedClients(checks) == old(clients)
      ensures clients == Surviving(checks)
    {
      checks := [];
      var it := 0;
      assert clients[0..] == clients && clients[..0] == [] && CheckedClients([]) == [] && Surviving([]) == [];
      hide Exact, CheckedClients, Surviving;
      while it < |clients|
        invariant Valid() && it <= |clients|
        invariant CheckedClients(checks) + clients[it..] == old(clients)
        invariant Surviving(checks) == clients[..it]
        decreases |clients| - it
      {
        var tmp := clients[it];
        var answer: Progress := *;
        OneMoreCheck(checks, Check(tmp, answer));
        SplitAround(clients, it);
        Assoc(CheckedClients(checks), [tmp], clients[it + 1..]);
        checks := checks + [Check(tmp, answer)];
        if answer != REQ_CONTINUE {
          RemoveAt(it);
        } else {
          it := it + 1;
        }
      }
      assert clients[it..] == [] && clients[..it] == clients;
    }

    /** Removing a client by its socket never meets the CGI case, and shortens the list by that client. */
    method RemoveAt(it: nat)
      requires Valid() && it < |clients|
      modifies this`clients, this`fdClientMap, this`open, events
      ensures Valid() && clients == old(clients)[..it] + old(clients)[it + 1..]
    {
      var tmp := clients[it];
      assert tmp.socket in tmp.Sockets() && fdClientMap[tmp.socket] == tmp;
      var removal := RemoveConnection(tmp.socket);
      hide Exact;
    }

    /** The shutdown drain. */
    method RemoveAll()
      requires Valid()
      modifies this`clients, this`fdClientMap, this`open, events
      ensures Valid() && clients == [] && fdClientMap == map[]
    {
      while |clients| != 0
        invariant Valid()
        decreases |clients|
      {
        RemoveAt(0);
      }
      NoClientsNoIndex(fdClientMap);
    }

    /** The same, told by what was reported. */
    method HandleReported(i: nat, ghost batch: seq<EpollEvent>, ghost owner: map<int, Client>, ghost known: seq<Client>)
      returns (stop: bool, ghost calls: seq<Call>)
      requires Valid() && i < nfds == |batch| && Current(owner)
      requires Reported(batch, listeners, owner, known) && -1 !in owner && Remaining(batch, events[..nfds], owner, i)
      requires forall c <- known :: c in clients <==> !Gone(batch, i, c)
      modifies this`clients, this`fdClientMap, this`open, this`granted, this`log, events, set c | c in clients
      ensures Valid() && Current(owner) && log == old(log) + calls
      ensures EntryServed(batch, i, calls, listeners, owner) && (stop <==> Ends(calls))
      ensures !stop ==> Remaining(batch, events[..nfds], owner, i + 1)
      ensures forall c <- known :: c in clients <==> !Gone(batch, i + 1, c) && !(stop && batch[i].fd == c.socket)
      ensures forall c <- clients :: c in old(clients) || fresh(c)
    {
      ghost var index, before, entries := fdClientMap, clients, events[..nfds];
      assert StillOwned(entries, listeners, owner, index);
      stop, calls := HandleEvent(i, owner);
      hide Exact, Gone, Remaining, Reported, Served, Left, Cleared, StillOwned;
      EntryStep(batch, i, listeners, owner, index, known, before, clients, entries, events[..nfds], calls, stop);
    }

    /** The loop over the batch, up to the `break` or a signal. */
    method HandleBatch(ghost batch: seq<EpollEvent>, ghost owner: map<int, Client>)
      returns (signalled: bool, ghost calls: seq<seq<Call>>)
      requires Valid() && nfds >= 0 && batch == events[..nfds] && owner == fdClientMap && Current(owner)
      requires Reported(batch, listeners, owner, clients)
      modifies this`clients, this`fdClientMap, this`open, this`granted, this`log, events, set c | c in clients
      ensures Valid() && log == old(log) + Concat(calls)
      ensures BatchServed(batch, calls, listeners, owner)
      ensures !signalled && |calls| < |batch| ==> calls != [] && Ends(calls[|calls| - 1])
      ensures forall c <- old(clients) :: c in clients <==> !Dismissed(batch, calls, c)
      ensures forall c <- clients :: c in old(clients) || fresh(c)
    {
      hide Exact, Reported, EntryServed, Fails, Ends;
      calls := [];
      NothingGone(batch, owner);
      var i := 0;
      signalled := *;
      while i < nfds && !signalled
        invariant 0 <= i == |calls| <= nfds == |batch| && Valid() && Current(owner) && -1 !in owner
        invariant log == old(log) + Concat(calls) && BatchServed(batch, calls, listeners, owner)
        invariant calls != [] ==> !Ends(calls[i - 1])
        invariant Remaining(batch, events[..nfds], owner, i)
        invariant forall c <- old(clients) :: c in clients <==> !Gone(batch, i, c)
        invariant forall c <- clients :: c in old(clients) || fresh(c)
        decreases nfds - i
      {
        hide Remaining, BatchServed, Gone;
        var stop;
        ghost var made;
        stop, made := HandleReported(i, batch, owner, old(clients));
        OneMoreEntry(batch, calls, made, listeners, owner);
        Assoc(old(log), Concat(calls), made);
        calls := calls + [made];
        if stop {
          break;
        }
        i := i + 1;
        signalled := *;
      }
    }

    /** `routine`: the entries of the batch are served in order, each for the client that owned its descriptor when
        the batch was reported, whatever connections are closed and whatever descriptors are reissued meanwhile;
        nothing but a final answer or a signal cuts the batch short. The clients that are left are those that were
        neither dismissed in the batch nor ended by a timeout, and new ones. */
    method Routine() returns (stopped: bool, ghost batch: seq<EpollEvent>, ghost calls: seq<seq<Call>>, ghost checks: seq<Check>)
      requires Valid()
      modifies this, events, set c | c in clients
      ensures Valid() && log == old(log) + Concat(calls)
      ensures BatchServed(batch, calls, listeners, old(fdClientMap))
      ensures !stopped && |calls| < |batch| ==> calls != [] && Ends(calls[|calls| - 1])
      ensures stopped ==> clients == [] && fdClientMap == map[]
      ensures !stopped && nfds != -1 ==>
                && (forall c <- old(clients) :: c in CheckedClients(checks) <==> !Dismissed(batch, calls, c))
                && (forall c <- CheckedClients(checks) :: c in old(clients) || fresh(c))
                && clients == Surviving(checks)
      ensures forall c <- clients :: c in old(clients) || fresh(c)
    {
      batch, calls, checks := [], [], [];
      ghost var owner := fdClientMap;
      EpollWait();
      if nfds == -1 {
        return false, batch, calls, checks;
      }
      batch := events[..nfds];
      var signalled;
      signalled, calls := HandleBatch(batch, owner);
      hide *;
      stopped := signalled;
      if !stopped {
        stopped := *;
      }
      if stopped {
        RemoveAll();
      } else {
        checks := CheckClientsTimeout();
        SurvivorsWereChecked(checks);
      }
    }

    /** The main loop: the index is exact in every reachable state. */
    method Serve(rounds: nat)
      requires Valid()
      modifies this, events, set c | c in clients
      ensures Valid()
    {
      var stopped := false;
      for round := 0 to rounds
        invariant Valid() && forall c <- clients :: c in old(clients) || fresh(c)
      {
        ghost var batch, calls, checks;
        stopped, batch, calls, checks := Routine();
        if stopped {
          return;
        }
      }
    }
  }
}
