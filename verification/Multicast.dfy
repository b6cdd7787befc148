/** A multicast session (RFC 2090): who is a member, who is master, and what each
    member has acknowledged. */
module Multicast {
  import opened Wire

  /** A socket address; only equality matters. */
  type Addr = nat

  datatype ClientState = ClientState(addr: Addr, acked: set<U16>, lastSeen: nat, isMaster: bool)

  datatype Session = Session(clients: map<Addr, ClientState>, master: Option<Addr>, queue: set<U16>, maxClients: nat)

  /** There is a master exactly while there are members, it is one of them, nobody else
      carries the master flag, states are filed under their own address, and the limit holds. */
  ghost predicate Consistent(s: Session) {
    && (s.master.Some? <==> s.clients != map[])
    && (s.master.Some? ==> s.master.value in s.clients)
    && (forall a :: a in s.clients && s.clients[a].isMaster ==> s.master == Some(a))
    && (forall a :: a in s.clients ==> s.clients[a].addr == a)
    && |s.clients| <= s.maxClients
  }

  ghost predicate MasterIsFlagged(s: Session) {
    s.master.Some? ==> s.master.value in s.clients && s.clients[s.master.value].isMaster
  }

  function New(maxClients: nat): Session {
    Session(map[], None, {}, maxClients)
  }

  // ------------------------------------------------------------ the operations

  /** add_client: the result is whether the newcomer is master, or nothing if refused. */
  function Join(s: Session, addr: Addr, now: nat): (Session, Option<bool>) {
    if |s.clients| >= s.maxClients then (s, None)
    else
      var isMaster := s.clients == map[];
      (s.(clients := s.clients[addr := ClientState(addr, {}, now, isMaster)],
          master := if isMaster then Some(addr) else s.master),
       Some(isMaster))
  }

  /** record_ack: unknown addresses are ignored. */
  function RecordAck(s: Session, addr: Addr, number: U16, now: nat): Session {
    if addr !in s.clients then s
    else
      var c := s.clients[addr];
      s.(clients := s.clients[addr := c.(acked := c.acked + {number}, lastSeen := now)])
  }

  predicate IsInactive(c: ClientState, timeout: nat, now: nat) {
    now > c.lastSeen + timeout
  }

  function Inactive(s: Session, timeout: nat, now: nat): set<Addr> {
    set a | a in s.clients && IsInactive(s.clients[a], timeout, now)
  }

  function WithFlag(clients: map<Addr, ClientState>, a: Addr, flag: bool): map<Addr, ClientState> {
    if a in clients then clients[a := clients[a].(isMaster := flag)] else clients
  }

  /** elect_new_master: the flag of the old master is cleared if it is still there, and
      whichever member the map yields first becomes master. */
  ghost predicate Elects(s: Session, s': Session) {
    var cleared := if s.master.Some? then WithFlag(s.clients, s.master.value, false) else s.clients;
    if s.clients == map[] then s' == s.(master := None)
    else exists a :: a in s.clients && s' == s.(clients := WithFlag(cleared, a, true), master := Some(a))
  }

  /** One client removed, with the election this gives rise to. */
  ghost predicate Removes(s: Session, addr: Addr, s': Session) {
    var rest := s.(clients := s.clients - {addr});
    if s.master == Some(addr) then Elects(rest, s') else s' == rest
  }

  ghost predicate RemovesAll(s: Session, order: seq<Addr>, s': Session) {
    if order == [] then s' == s
    else
      var n := |order| - 1;
      exists s1 :: RemovesAll(s, order[..n], s1) && Removes(s1, order[n], s')
  }

  ghost predicate Joins(s: Session, s': Session) {
    exists addr, now :: s' == Join(s, addr, now).0
  }

  ghost predicate Acks(s: Session, s': Session) {
    exists addr, number, now :: s' == RecordAck(s, addr, number, now)
  }

  /** The queue changes, or the clients that timed out are removed. */
  ghost predicate Upkeep(s: Session, s': Session) {
    || (exists number :: s' == s.(queue := s.queue + {number}))
    || s' == s.(queue := {})
    || (exists timeout, now, order :: Elements(order) == Inactive(s, timeout, now) && RemovesAll(s, order, s'))
  }

  /** One operation on a session, removals in any order and with any elections. */
  ghost predicate Next(s: Session, s': Session) {
    Joins(s, s') || Acks(s, s') || Upkeep(s, s')
  }

  ghost predicate SameButFlag(c: ClientState, c': ClientState) {
    c' == c.(isMaster := c'.isMaster)
  }

  /** What a removal comes to: exactly the members that were not timed out stay, with all
      they have acknowledged; the master changes only if it was timed out, and a new one
      is elected among those who stay, and flagged. */
  ghost predicate Purged(s: Session, s': Session, gone: set<Addr>) {
    && s'.clients.Keys == s.clients.Keys - gone
    && (forall a :: a in s'.clients ==> SameButFlag(s.clients[a], s'.clients[a]))
    && s'.queue == s.queue && s'.maxClients == s.maxClients
    && (s.master.Some? && s.master.value !in gone ==>
          s'.master == s.master && forall a :: a in s'.clients ==> s'.clients[a] == s.clients[a])
    && (s.master.Some? && s.master.value in gone ==> MasterIsFlagged(s'))
    && Consistent(s')
  }

  lemma WithoutOne(clients: map<Addr, ClientState>, addr: Addr)
    ensures (clients - {addr}).Keys == clients.Keys - {addr}
    ensures |clients - {addr}| <= |clients|
  {
    assert |clients - {addr}| == |(clients - {addr}).Keys| && |clients| == |clients.Keys|;
    SubsetSize((clients - {addr}).Keys, clients.Keys);
  }

  lemma SubsetSize<T>(a: set<T>, b: set<T>)
    requires a <= b
    ensures |a| <= |b|
  {
    assert b == a + (b - a);
  }

  /** An election among what is left when the master is gone. */
  lemma ElectsMeaning(s: Session, s': Session)
    requires s.master.Some? && s.master.value !in s.clients && Elects(s, s')
    requires forall a :: a in s.clients ==> !s.clients[a].isMaster
    ensures s'.clients.Keys == s.clients.Keys && |s'.clients| == |s.clients|
    ensures s'.queue == s.queue && s'.maxClients == s.maxClients
    ensures forall a :: a in s'.clients ==> SameButFlag(s.clients[a], s'.clients[a])
    ensures s'.master.Some? <==> s'.clients != map[]
    ensures s'.master.Some? ==> s'.master.value in s'.clients && s'.clients[s'.master.value].isMaster
    ensures forall a :: a in s'.clients && s'.clients[a].isMaster ==> s'.master == Some(a)
  {
    if s.clients != map[] {
      var a :| a in s.clients && s' == s.(clients := WithFlag(s.clients, a, true), master := Some(a));
      assert s'.clients.Keys == s.clients.Keys;
    }
    assert |s'.clients| == |s'.clients.Keys| && |s.clients| == |s.clients.Keys|;
  }

  lemma RemovesKeeps(s: Session, s1: Session, gone: set<Addr>, addr: Addr, s2: Session)
    requires Consistent(s) && Purged(s, s1, gone) && Removes(s1, addr, s2)
    ensures Purged(s, s2, gone + {addr})
  {
    WithoutOne(s1.clients, addr);
    if s1.master == Some(addr) {
      ElectsMeaning(s1.(clients := s1.clients - {addr}), s2);
    } else if s1.clients != map[] {
      assert s1.master.value in s1.clients - {addr};
    }
  }

  /** A removal pass, in any order and for any elections. */
  lemma {:induction false} RemovalMeaning(s: Session, order: seq<Addr>, s': Session)
    requires Consistent(s) && RemovesAll(s, order, s')
    ensures Purged(s, s', Elements(order))
  {
    if order == [] {
      assert Elements(order) == {};
    } else {
      var n := |order| - 1;
      var s1 :| RemovesAll(s, order[..n], s1) && Removes(s1, order[n], s');
      RemovalMeaning(s, order[..n], s1);
      RemovesKeeps(s, s1, Elements(order[..n]), order[n], s');
      ElementsSnoc(order);
    }
  }

  lemma OneMoreRemoved(s: Session, order: seq<Addr>, i: nat, s1: Session, s2: Session)
    requires i < |order| && RemovesAll(s, order[..i], s1) && Removes(s1, order[i], s2)
    ensures RemovesAll(s, order[..i + 1], s2)
  {
    assert order[..i + 1][..i] == order[..i];
  }

  lemma ElementsSnoc(order: seq<Addr>)
    requires order != []
    ensures Elements(order) == Elements(order[..|order| - 1]) + {order[|order| - 1]}
  {
    assert order == order[..|order| - 1] + [order[|order| - 1]];
  }

  function Elements(order: seq<Addr>): set<Addr> {
    set a | a in order
  }

  lemma JoinKeeps(s: Session, addr: Addr, now: nat)
    requires Consistent(s)
    ensures Consistent(Join(s, addr, now).0)
  {
    var s' := Join(s, addr, now).0;
    if s' != s {
      assert s'.clients.Keys == s.clients.Keys + {addr};
    }
  }

  lemma RecordAckKeeps(s: Session, addr: Addr, number: U16, now: nat)
    requires Consistent(s)
    ensures Consistent(RecordAck(s, addr, number, now))
    ensures MasterIsFlagged(s) ==> MasterIsFlagged(RecordAck(s, addr, number, now))
  {
    var s' := RecordAck(s, addr, number, now);
    if addr in s.clients {
      assert s'.clients.Keys == s.clients.Keys;
    }
  }

  ghost predicate NextAt(run: seq<Session>, j: int)
    requires 0 <= j < |run| - 1
  {
    Next(run[j], run[j + 1])
  }

  ghost predicate NoJoinAt(run: seq<Session>, j: int)
    requires 0 <= j < |run| - 1
  {
    Acks(run[j], run[j + 1]) || Upkeep(run[j], run[j + 1])
  }

  ghost predicate NoAckAt(run: seq<Session>, j: int)
    requires 0 <= j < |run| - 1
  {
    Joins(run[j], run[j + 1]) || Upkeep(run[j], run[j + 1])
  }

  lemma UpkeepKeeps(s: Session, s': Session)
    requires Consistent(s) && Upkeep(s, s')
    ensures Consistent(s')
    ensures s'.clients.Keys <= s.clients.Keys
    ensures forall a :: a in s'.clients ==> s'.clients[a].acked == s.clients[a].acked
  {
    if timeout, now, order :| Elements(order) == Inactive(s, timeout, now) && RemovesAll(s, order, s') {
      RemovalMeaning(s, order, s');
    }
  }

  lemma NextKeeps(s: Session, s': Session)
    requires Consistent(s) && Next(s, s')
    ensures Consistent(s')
  {
    if Joins(s, s') {
      var addr, now :| s' == Join(s, addr, now).0;
      JoinKeeps(s, addr, now);
    } else if Acks(s, s') {
      var addr, number, now :| s' == RecordAck(s, addr, number, now);
      RecordAckKeeps(s, addr, number, now);
    } else {
      UpkeepKeeps(s, s');
    }
  }

  /** Joins, ACKs, queued blocks and removals in any order keep the session consistent. */
  lemma {:induction false} EveryRunIsConsistent(run: seq<Session>, i: nat)
    requires i < |run| && Consistent(run[0])
    requires forall j :: 0 <= j < |run| - 1 ==> NextAt(run, j)
    ensures Consistent(run[i])
  {
    if i > 0 {
      EveryRunIsConsistent(run, i - 1);
      assert NextAt(run, i - 1);
      NextKeeps(run[i - 1], run[i]);
    }
  }

  /** Reached from a new session by such a sequence. */
  ghost predicate Reachable(s: Session) {
    exists run: seq<Session> :: IsRun(run) && run[|run| - 1] == s
  }

  ghost predicate IsRun(run: seq<Session>) {
    && run != [] && run[0] == New(run[0].maxClients)
    && forall j :: 0 <= j < |run| - 1 ==> NextAt(run, j)
  }

  lemma ReachableIsConsistent(s: Session)
    requires Reachable(s)
    ensures Consistent(s)
  {
    var run: seq<Session> :| IsRun(run) && run[|run| - 1] == s;
    EveryRunIsConsistent(run, |run| - 1);
  }

  lemma ReachNext(s: Session, s': Session)
    requires Reachable(s) && Next(s, s')
    ensures Reachable(s')
  {
    var run: seq<Session> :| IsRun(run) && run[|run| - 1] == s;
    var run' := run + [s'];
    forall j | 0 <= j < |run'| - 1
      ensures NextAt(run', j)
    {
      if j < |run| - 1 {
        assert NextAt(run, j);
      }
    }
    assert IsRun(run') && run'[|run'| - 1] == s';
  }

  lemma ReachNew(maxClients: nat)
    ensures Reachable(New(maxClients))
  {
    assert IsRun([New(maxClients)]);
  }

  // ------------------------------------------------------------ what the operations do

  /** A join is refused exactly when the session is full. Otherwise the newcomer starts with
      no ACKs, heard from now, master exactly if the session was empty; nobody else changes. */
  lemma JoinMeaning(s: Session, addr: Addr, now: nat)
    ensures var (s', r) := Join(s, addr, now);
            && (r.None? <==> |s.clients| >= s.maxClients)
            && (r.None? ==> s' == s)
            && (r.Some? ==>
                  && (r.value <==> s.clients == map[])
                  && addr in s'.clients && s'.clients[addr].acked == {} && s'.clients[addr].lastSeen == now
                  && (s'.clients[addr].isMaster <==> r.value)
                  && s'.master == (if r.value then Some(addr) else s.master)
                  && s'.clients - {addr} == s.clients - {addr}
                  && s'.queue == s.queue && s'.maxClients == s.maxClients)
  {
  }

  /** An ACK adds one number to what one member has acknowledged, and says that it is alive. */
  lemma AckMeaning(s: Session, addr: Addr, number: U16, now: nat)
    ensures var s' := RecordAck(s, addr, number, now);
            && s'.clients.Keys == s.clients.Keys && s'.clients - {addr} == s.clients - {addr}
            && (addr in s.clients ==>
                  && (forall n :: n in s'.clients[addr].acked <==> n in s.clients[addr].acked || n == number)
                  && s'.clients[addr].lastSeen == now && s'.clients[addr].isMaster == s.clients[addr].isMaster)
            && s'.master == s.master && s'.queue == s.queue && s'.maxClients == s.maxClients
  {
    assert addr in s.clients ==> RecordAck(s, addr, number, now).clients.Keys == s.clients.Keys;
  }

  /** A step in which nothing is heard from this member: it is someone else who joins or
      acknowledges, or nobody. */
  ghost predicate SilentAt(run: seq<Session>, j: int, a: Addr)
    requires 0 <= j < |run| - 1
  {
    || (exists other, now :: other != a && run[j + 1] == Join(run[j], other, now).0)
    || (exists other, number, now :: other != a && run[j + 1] == RecordAck(run[j], other, number, now))
    || Upkeep(run[j], run[j + 1])
  }

  ghost predicate Silent(run: seq<Session>, a: Addr) {
    forall j :: 0 <= j < |run| - 1 ==> SilentAt(run, j, a)
  }

  lemma SilentStep(run: seq<Session>, j: nat, a: Addr)
    requires j < |run| - 1 && Consistent(run[j]) && SilentAt(run, j, a)
    ensures Consistent(run[j + 1])
    ensures a in run[j + 1].clients ==>
              a in run[j].clients && run[j + 1].clients[a].lastSeen == run[j].clients[a].lastSeen
  {
    var s, s' := run[j], run[j + 1];
    if other, now :| other != a && s' == Join(s, other, now).0 {
      JoinKeeps(s, other, now);
    } else if other, number, now :| other != a && s' == RecordAck(s, other, number, now) {
      RecordAckKeeps(s, other, number, now);
    } else {
      UpkeepKeeps(s, s');
      UpkeepSeen(s, s');
    }
  }

  lemma UpkeepSeen(s: Session, s': Session)
    requires Consistent(s) && Upkeep(s, s')
    ensures forall a :: a in s'.clients ==> a in s.clients && s'.clients[a].lastSeen == s.clients[a].lastSeen
  {
    if timeout, now, order :| Elements(order) == Inactive(s, timeout, now) && RemovesAll(s, order, s') {
      RemovalMeaning(s, order, s');
      assert s'.clients.Keys <= s.clients.Keys;
    }
  }

  ghost predicate LastSeenAt(s: Session, a: Addr, t: nat) {
    Consistent(s) && (a in s.clients ==> s.clients[a].lastSeen == t)
  }

  lemma {:induction false} SeenSince(run: seq<Session>, i: nat, a: Addr, t: nat)
    requires i < |run| && LastSeenAt(run[0], a, t) && a in run[0].clients && Silent(run, a)
    ensures LastSeenAt(run[i], a, t)
  {
    if i > 0 {
      SeenSince(run, i - 1, a, t);
      StillSeenAt(run, i - 1, a, t);
    }
  }

  lemma {:induction false} StillSeenAt(run: seq<Session>, j: nat, a: Addr, t: nat)
    requires j < |run| - 1 && Silent(run, a) && LastSeenAt(run[j], a, t)
    ensures LastSeenAt(run[j + 1], a, t)
  {
    assert SilentAt(run, j, a);
    SilentStep(run, j, a);
  }

  /** A member last heard from at `t`, by its join or an ACK, is timed out exactly when more
      than the timeout has passed since, whatever the others did meanwhile. */
  lemma TimedOutExactly(run: seq<Session>, i: nat, a: Addr, t: nat, timeout: nat, now: nat)
    requires i < |run| && Consistent(run[0]) && a in run[0].clients && run[0].clients[a].lastSeen == t
    requires Silent(run, a)
    ensures a in run[i].clients ==> (a in Inactive(run[i], timeout, now) <==> now > t + timeout)
  {
    SeenSince(run, i, a, t);
  }

  // ------------------------------------------------------------ what an ACK says later

  /** all_clients_acked. */
  predicate AllAcked(s: Session, number: U16) {
    s.clients != map[] && forall a :: a in s.clients ==> number in s.clients[a].acked
  }

  lemma AckOutlasts(s: Session, s': Session, number: U16)
    requires Consistent(s) && (Acks(s, s') || Upkeep(s, s')) && (s.clients == map[] || AllAcked(s, number))
    ensures Consistent(s') && (s'.clients == map[] || AllAcked(s', number))
  {
    NextKeeps(s, s');
    if Acks(s, s') {
      var addr, n, now :| s' == RecordAck(s, addr, n, now);
      assert s'.clients.Keys == s.clients.Keys;
    } else {
      UpkeepKeeps(s, s');
      assert s'.clients.Keys <= s.clients.Keys;
    }
  }

  /** ACKs are never cleared: while nobody joins, a number acknowledged by all members
      counts as acknowledged by all for as long as there are any. */
  lemma {:induction false} AcksOutlast(run: seq<Session>, i: nat, number: U16)
    requires i < |run| && Consistent(run[0]) && AllAcked(run[0], number)
    requires forall j :: 0 <= j < |run| - 1 ==> NoJoinAt(run, j)
    ensures Consistent(run[i]) && (run[i].clients == map[] || AllAcked(run[i], number))
  {
    if i > 0 {
      AcksOutlast(run, i - 1, number);
      assert NoJoinAt(run, i - 1);
      AckOutlasts(run[i - 1], run[i], number);
    }
  }

  ghost predicate NothingAcked(s: Session) {
    forall a :: a in s.clients ==> s.clients[a].acked == {}
  }

  lemma NothingAckedStays(s: Session, s': Session)
    requires Consistent(s) && NothingAcked(s) && (Joins(s, s') || Upkeep(s, s'))
    ensures NothingAcked(s')
  {
    if Joins(s, s') {
      var addr, now :| s' == Join(s, addr, now).0;
    } else {
      UpkeepKeeps(s, s');
    }
  }

  /** A session whose ACKs are never recorded, as in the program itself, which calls
      record_ack nowhere: no number is ever acknowledged by all. */
  lemma {:induction false} WithoutAcks(run: seq<Session>, i: nat, number: U16)
    requires i < |run| && Consistent(run[0]) && NothingAcked(run[0])
    requires forall j :: 0 <= j < |run| - 1 ==> NoAckAt(run, j)
    ensures Consistent(run[i]) && NothingAcked(run[i]) && !AllAcked(run[i], number)
  {
    if i > 0 {
      WithoutAcks(run, i - 1, number);
      assert NoAckAt(run, i - 1);
      NextKeeps(run[i - 1], run[i]);
      NothingAckedStays(run[i - 1], run[i]);
    }
    if a :| a in run[i].clients {
      assert number !in run[i].clients[a].acked;
    }
  }

  /** A master that joins again stays master but loses its flag; every other accepted
      join keeps the flag where it is. */
  lemma RejoiningMaster(s: Session, addr: Addr, now: nat)
    requires Consistent(s) && MasterIsFlagged(s) && |s.clients| < s.maxClients
    ensures MasterIsFlagged(Join(s, addr, now).0) <==> s.master != Some(addr)
  {
  }

  // ------------------------------------------------------------ the object

  class MulticastSession {
    const maxClients: nat
    var clients: map<Addr, ClientState>
    var masterClient: Option<Addr>
    var retransmitQueue: set<U16>

    ghost function State(): Session
      reads this
    {
      Session(clients, masterClient, retransmitQueue, maxClients)
    }

    ghost predicate Valid()
      reads this
    {
      Consistent(State())
    }

    constructor (maxClients: nat)
      ensures Valid() && State() == New(maxClients)
    {
      this.maxClients := maxClients;
      clients, masterClient, retransmitQueue := map[], None, {};
    }

    method AddClient(addr: Addr, now: nat) returns (r: Option<bool>)
      requires Valid()
      modifies this
      ensures Valid() && (State(), r) == Join(old(State()), addr, now)
    {
      JoinKeeps(State(), addr, now);
      if |clients| >= maxClients {
        return None;
      }
      var isMaster := clients == map[];
      if isMaster {
        masterClient := Some(addr);
      }
      clients := clients[addr := ClientState(addr, {}, now, isMaster)];
      r := Some(isMaster);
    }

    method MarkAcked(addr: Addr, number: U16, now: nat)
      requires Valid()
      modifies this
      ensures Valid() && State() == RecordAck(old(State()), addr, number, now)
    {
      RecordAckKeeps(State(), addr, number, now);
      if addr in clients {
        var client := clients[addr];
        clients := clients[addr := client.(acked := client.acked + {number}, lastSeen := now)];
      }
    }

    method QueueRetransmit(number: U16)
      requires Valid()
      modifies this
      ensures Valid() && State() == old(State()).(queue := old(retransmitQueue) + {number})
    {
      retransmitQueue := retransmitQueue + {number};
    }

    method TakeRetransmitQueue() returns (taken: set<U16>)
      requires Valid()
      modifies this
      ensures Valid() && taken == old(retransmitQueue) && State() == old(State()).(queue := {})
    {
      taken := retransmitQueue;
      retransmitQueue := {};
    }

    /** Elects any member: a hash map yields its entries in no particular order. */
    method ElectNewMaster()
      modifies this`clients, this`masterClient
      ensures Elects(old(State()), State())
    {
      if masterClient.Some? && masterClient.value in clients {
        var formerly := masterClient.value;
        clients := clients[formerly := clients[formerly].(isMaster := false)];
      }
      if clients != map[] {
        var newMaster :| newMaster in clients;
        masterClient := Some(newMaster);
        clients := clients[newMaster := clients[newMaster].(isMaster := true)];
        assert newMaster in old(clients);
      } else {
        masterClient := None;
      }
    }

    method RemoveClient(addr: Addr)
      modifies this`clients, this`masterClient
      ensures Removes(old(State()), addr, State())
    {
      clients := clients - {addr};
      if masterClient == Some(addr) {
        ElectNewMaster();
      }
    }

    /** `order` is the order in which the timed-out clients come out of the map. */
    method RemoveInactiveClients(timeout: nat, now: nat, order: seq<Addr>)
      requires Valid() && Elements(order) == Inactive(State(), timeout, now)
      modifies this`clients, this`masterClient
      ensures RemovesAll(old(State()), order, State())
      ensures Valid() && Purged(old(State()), State(), Inactive(old(State()), timeout, now))
    {
      ghost var s := State();
      for i := 0 to |order|
        invariant RemovesAll(s, order[..i], State())
      {
        ghost var s1 := State();
        RemoveClient(order[i]);
        OneMoreRemoved(s, order, i, s1, State());
      }
      assert order[..|order|] == order;
      RemovalMeaning(s, order, State());
    }

    method AllClientsAcked(number: U16) returns (all: bool)
      ensures all == AllAcked(State(), number)
      ensures all <==> clients != map[] && MissingClients(number) == {}
    {
      all := clients != map[] && forall a :: a in clients ==> number in clients[a].acked;
      assert forall a :: a in clients && number !in clients[a].acked <==> a in MissingClients(number);
    }

    function MissingClients(number: U16): set<Addr>
      reads this
    {
      set a | a in clients && number !in clients[a].acked
    }
  }
}
