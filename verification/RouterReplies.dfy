/** What becomes of the packets that waited for an ARP reply, and of the requests themselves. */
module RouterReplies {
  import opened Wrappers
  import opened ChecksumProofs
  import opened IpFrame
  import opened Topology
  import opened ArpTable
  import opened ArpQueue
  import opened RouterSpec
  import opened RouterInvariants

  // ---------- Draining a request ----------

  predicate AllParkable(packets: seq<Packet>, ip: Ip) {
    forall i :: 0 <= i < |packets| ==> Parkable(packets[i].bytes, ip)
  }

  /** The transmission of each packet in turn. */
  function Transmits(packets: seq<Packet>, ip: Ip, hop: Interface, mac: Mac): (r: seq<Out>)
    requires AllParkable(packets, ip)
    ensures |r| == |packets|
  {
    seq(|packets|, i requires 0 <= i < |packets| =>
      Transmit(packets[i].bytes, Rewritten(packets[i].bytes, hop.addr, mac), hop.name))
  }

  /** The packets as a fresh request holds them after all were queued again: last first, and recorded
      for the interface the reply came in on. */
  function Requeued(packets: seq<Packet>, iface: string): (r: seq<Packet>)
    ensures |r| == |packets|
  {
    seq(|packets|, i requires 0 <= i < |packets| => Packet(packets[|packets| - 1 - i].bytes, iface))
  }

  /** If the address is known after the insertion, every waiting packet is transmitted, in list order,
      and nothing else happens. */
  lemma {:induction false} DrainToKnown(s: State, packets: seq<Packet>, ip: Ip, iface: string, now: int)
    requires AllParkable(packets, ip)
    requires NextHop(s, ip).Some? && Lookup(s.table, ip).Some?
    ensures ForwardAll(s, packets, iface, now)
         == s.(out := s.out + Transmits(packets, ip, NextHop(s, ip).value, Lookup(s.table, ip).value.mac))
  {
    hide Rewritten, Validates, Lookup, NextHop;
    var hop, mac := NextHop(s, ip).value, Lookup(s.table, ip).value.mac;
    if packets == [] {
      assert s.out + Transmits(packets, ip, hop, mac) == s.out;
    } else {
      var n := |packets| - 1;
      DrainToKnown(s, packets[..n], ip, iface, now);
      var t := ForwardAll(s, packets[..n], iface, now);
      SameNextHop(s, t, ip);
      assert Parkable(packets[n].bytes, ip);
      assert Transmits(packets, ip, hop, mac)
          == Transmits(packets[..n], ip, hop, mac)
           + [Transmit(packets[n].bytes, Rewritten(packets[n].bytes, hop.addr, mac), hop.name)];
    }
  }

  /** The state once the packets have all been queued again under one fresh request. */
  function AllRequeued(s: State, packets: seq<Packet>, ip: Ip, iface: string, now: int): State {
    if packets == [] then s
    else if now > 1 then
      s.(queue := [Request(s.nextSerial, ip, now, 1, Requeued(packets, iface))] + s.queue,
         nextSerial := s.nextSerial + |packets|,
         out := s.out + [ArpRequest(s.nextSerial, ip, HopName(s, ip), now)])
    else
      s.(queue := [Request(s.nextSerial, ip, 0, 0, Requeued(packets, iface))] + s.queue,
         nextSerial := s.nextSerial + |packets|)
  }

  /** If the address is still unknown - the table was full - every waiting packet is on the queue again,
      under one fresh request at its head, for which one ARP request has been sent. */
  lemma {:induction false} DrainToUnknown(s: State, packets: seq<Packet>, ip: Ip, iface: string, now: int)
    requires AllParkable(packets, ip)
    requires NextHop(s, ip).Some? && Lookup(s.table, ip) == None
    requires Find(s.queue, ip) == |s.queue|
    ensures ForwardAll(s, packets, iface, now) == AllRequeued(s, packets, ip, iface, now)
  {
    hide Validates, Lookup, NextHop, Enqueue, Retry, Requeued;
    if packets != [] {
      var n := |packets| - 1;
      DrainToUnknown(s, packets[..n], ip, iface, now);
      var u, p := AllRequeued(s, packets[..n], ip, iface, now), Packet(packets[n].bytes, iface);
      SameNextHop(s, u, ip);
      RequeuedNext(packets, iface);
      if n == 0 {
        assert u == s && Requeued(packets, iface) == [p];
        QueueFirst(s, ip, p, now);
      } else {
        QueueNext(s.queue, u.queue[0], p, u.nextSerial);
        RetryIdle(Park(u, p.bytes, iface), 0, now);
      }
    }
  }

  lemma RequeuedNext(packets: seq<Packet>, iface: string)
    requires packets != []
    ensures Requeued(packets, iface)
         == [Packet(packets[|packets| - 1].bytes, iface)] + Requeued(packets[..|packets| - 1], iface)
  {
  }

  /** A packet for an address that is not on the queue: a fresh request, sent at once. */
  lemma {:induction false} QueueFirst(s: State, ip: Ip, p: Packet, now: int)
    requires p.bytes != [] && Find(s.queue, ip) == |s.queue|
    ensures Enqueue(s.queue, ip, p, s.nextSerial) == [Request(s.nextSerial, ip, 0, 0, [p])] + s.queue
    ensures Find([Request(s.nextSerial, ip, 0, 0, [p])] + s.queue, ip) == 0
    ensures var t := s.(queue := [Request(s.nextSerial, ip, 0, 0, [p])] + s.queue, nextSerial := s.nextSerial + 1);
            Retry(t, 0, now)
            == if now > 1 then t.(queue := [Request(s.nextSerial, ip, now, 1, [p])] + s.queue,
                                  out := s.out + [ArpRequest(s.nextSerial, ip, HopName(s, ip), now)])
               else t
  {
    hide NextHop, FindRoute;
    var r := Request(s.nextSerial, ip, 0, 0, [p]);
    var t := s.(queue := [r] + s.queue, nextSerial := s.nextSerial + 1);
    SameNextHop(s, t, ip);
    assert t.queue[0] == r;
    assert t.queue[0 := Retried(r, now)] == [Retried(r, now)] + s.queue;
    assert s.out + [] == s.out;
  }

  /** Another packet for the address at the head of the queue. */
  lemma {:induction false} QueueNext(queue: seq<Request>, r: Request, p: Packet, serial: nat)
    requires p.bytes != []
    ensures Enqueue([r] + queue, r.ip, p, serial) == [r.(packets := [p] + r.packets)] + queue
    ensures Find([r.(packets := [p] + r.packets)] + queue, r.ip) == 0
  {
    assert ([r] + queue)[0] == r;
  }

  lemma RetryIdle(s: State, k: nat, now: int)
    requires k < |s.queue| && !Due(s.queue[k], now)
    ensures Retry(s, k, now) == s
  {
    assert s.queue[k := s.queue[k]] == s.queue;
    assert s.out + [] == s.out;
  }

  /** The reply branch, exactly: the matching request leaves the queue, and its packets are all transmitted
      if a slot was free or the address was already known, and otherwise all queued again. */
  lemma {:induction false} ReplyOutcome(s: State, ip: Ip, mac: Mac, iface: string, now: int)
    requires Inv(s) && Find(s.queue, ip) < |s.queue|
    ensures var k := Find(s.queue, ip);
            var packets := s.queue[k].packets;
            var t := Insert(s, ip, mac, now);
            && t.queue == Remove(s.queue, k) && Find(t.queue, ip) == |t.queue|
            && AllParkable(packets, ip)
            && NextHop(t, ip).Some?
            && (Lookup(t.table, ip).Some? <==> FreeSlot(s.table) < |s.table| || Lookup(s.table, ip).Some?)
            && ReplyIn(s, ip, mac, iface, now)
            == if Lookup(t.table, ip).Some?
               then t.(out := t.out + Transmits(packets, ip, NextHop(t, ip).value, Lookup(t.table, ip).value.mac))
               else AllRequeued(t, packets, ip, iface, now)
  {
    hide Validates, Lookup, NextHop, Forward, Parkable, FreeSlot, ForwardAll, Learn;
    var k := Find(s.queue, ip);
    var t := Insert(s, ip, mac, now);
    WaitingIsParkable(s, ip);
    HasNextHop(s, k);
    SameNextHop(s, t, ip);
    LookupAfterStore(s.table, mac, ip, now);
    RemovedIsGone(s, k);
    if Lookup(t.table, ip).Some? {
      DrainToKnown(t, s.queue[k].packets, ip, iface, now);
    } else {
      DrainToUnknown(t, s.queue[k].packets, ip, iface, now);
    }
  }

  lemma HasNextHop(s: State, k: nat)
    requires Inv(s) && k < |s.queue|
    ensures NextHop(s, s.queue[k].ip).Some?
  {
    assert RequestOk(s, s.queue[k]);
  }

  lemma RemovedIsGone(s: State, k: nat)
    requires Inv(s) && k < |s.queue|
    ensures Find(Remove(s.queue, k), s.queue[k].ip) == |s.queue| - 1
  {
    QueueWithout(s.queue, k);
  }

  lemma QueueWithout(queue: seq<Request>, k: nat)
    requires DistinctIps(queue) && k < |queue|
    ensures Find(Remove(queue, k), queue[k].ip) == |queue| - 1
  {
    var q := Remove(queue, k);
    assert forall i :: 0 <= i < |q| ==> q[i] == queue[if i < k then i else i + 1];
    assert Find(q, queue[k].ip) == |q|;
  }
}
