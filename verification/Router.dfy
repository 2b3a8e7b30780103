/** The router's packet handling on the heap (sr_ip.c, sr_arp.c and the sweep of sr_arpcache.c). Each entry
    point is one step of RouterSpec. */
module Router {
  import opened Wrappers
  import opened Bytes
  import opened ChecksumProofs
  import opened IpFrame
  import opened Chain
  import opened Topology
  import opened ArpTable
  import opened ArpQueue
  import opened ArpCache
  import opened RouterSpec
  import opened RouterInvariants

  class Instance {
    const order: HostOrder
    const routes: List<Route>
    const ifaces: List<Interface>
    const cache: Cache

    // The output, and the history of the run.
    ghost var out: seq<Out>
    ghost var clock: int
    ghost var lastPass: int
    ghost var nextSerial: nat
    ghost var insertions: seq<Insertion>
    ghost var arrivals: seq<seq<Byte>>

    /** The lists are well formed and the routing table has passed its check. */
    ghost predicate Valid()
      reads this, cache, cache.nodes, routes, routes.nodes, ifaces, ifaces.nodes
    {
      cache.Valid() && routes.Valid() && ifaces.Valid() && Verified(routes.values, ifaces.values)
    }

    ghost function Abs(): State
      reads this, cache, cache.entries, routes, ifaces
    {
      State(routes.values, ifaces.values, cache.entries[..], cache.queue, out, clock, lastPass, nextSerial,
            insertions, arrivals)
    }

    constructor (order: HostOrder, routes: List<Route>, ifaces: List<Interface>, ghost now: int)
      requires routes.Valid() && ifaces.Valid() && Verified(routes.values, ifaces.values)
      ensures Valid() && Abs() == Start(routes.values, ifaces.values, now)
      ensures fresh(cache) && fresh(cache.entries) && cache.nodes == []
    {
      this.order, this.routes, this.ifaces := order, routes, ifaces;
      cache := new Cache();
      out, clock, lastPass, nextSerial, insertions, arrivals := [], now, now, 0, [], [];
    }

    /** sr_send_packet, and the ICMP builders that end in it. */
    ghost method Send(o: Out)
      modifies this`out
      ensures out == old(out) + [o]
    {
      out := out + [o];
    }

    /** The interface towards an address whose route is known to exist. */
    method HopInterface(rt: Node<Route>, ip: Ip) returns (hop: Node<Interface>)
      requires Valid() && rt in routes.nodes && FindRoute(routes.values, ip) == Some(rt.value)
      ensures hop in ifaces.nodes && NextHop(Abs(), ip) == Some(hop.value)
    {
      FoundRouteIsInTable(routes.values, ip);
      var found := GetInterface(ifaces, rt.value.iface);
      assert FindInterface(ifaces.values, rt.value.iface).Some?;
      hop := found;
    }

    // ---------- handle_arpreq, as sr_arpcache.h documents it ----------

    method HandleReq(req: RequestNode, now: int, ghost k: nat)
      requires Valid() && k < |cache.nodes| && req == cache.nodes[k]
      requires NextHop(Abs(), req.ip).Some?
      modifies this`out, cache`requests, cache`nodes, cache`queue, cache.nodes
      ensures Valid() && Abs() == Retry(old(Abs()), k, now)
      ensures cache.nodes == if Exhausted(old(cache.queue[k]), now) then old(cache.nodes[..k] + cache.nodes[k + 1..])
                             else old(cache.nodes)
    {
      hide Cache.Valid, List.Valid, Verified, FindRoute, FindInterface, NextHop, RouteName, Retry, Exhausted, Remove;
      cache.NodeHolds(k);
      RetryCases(Abs(), k, now);
      var rt := LongestPrefixSum(routes, req.ip);
      if now - req.sent > 1 {
        if req.timesSent >= MAX_SENDS {
          AnswerAll(req.packets, rt.value.iface);
          cache.Destroy(req);
        } else {
          var hop := HopInterface(rt, req.ip);
          Send(ArpRequest(req.serial, req.ip, hop.value.name, now));
          cache.MarkSent(req, now, k);
        }
      }
    }

    /** One host-unreachable for each packet of the list. */
    method AnswerAll(list: PacketNode?, iface: string)
      requires list != null ==> list.Ok()
      modifies this`out
      ensures out == old(out) + Unreachable(From(list), iface)
    {
      ghost var all, i := From(list), 0;
      var p := list;
      while p != null
        invariant 0 <= i <= |all| && (p != null ==> p.Ok()) && From(p) == all[i..]
        invariant out == old(out) + Unreachable(all[..i], iface)
        decreases |all| - i
      {
        assert all[..i + 1] == all[..i] + [all[i]];
        Send(HostUnreachable(p.buf, iface));
        p := p.next;
        i := i + 1;
      }
      assert all[..i] == all;
    }

    // ---------- Forwarding ----------

    /** packet_to_other_dest. */
    method PacketToOtherDest(packet: array<Byte>, interface: string, now: int)
      requires Valid() && packet.Length >= MIN_FRAME
      modifies packet, this`out, this`nextSerial, cache`requests, cache`nodes, cache`queue, cache.nodes
      ensures Valid() && Abs() == Forward(old(Abs()), old(packet[..]), interface, now)
      ensures forall j :: 0 <= j < |cache.nodes| ==> cache.nodes[j] in old(cache.nodes) || fresh(cache.nodes[j])
    {
      hide Cache.Valid, List.Valid, Verified, FindRoute, FindInterface, Rewritten, Lookup, Retry, Enqueue;
      ghost var bytes := packet[..];
      if packet[TTL] <= 1 {
        Send(TimeExceeded(bytes, interface));
        return;
      }
      var ip := ReadDestination(packet);
      var rt := LongestPrefixSum(routes, ip);
      if rt == null {
        Send(HostUnreachable(bytes, interface));
        return;
      }
      var hop := HopInterface(rt, ip);
      var entry := cache.LookupEntry(ip);
      if entry.Some? {
        RewriteForHop(order, packet, hop.value.addr, entry.value.mac);
        Send(Transmit(bytes, packet[..], hop.value.name));
      } else {
        ParkAndAsk(packet, ip, interface, now);
      }
    }

    method ReadDestination(packet: array<Byte>) returns (ip: Ip)
      requires packet.Length >= MIN_FRAME
      ensures ip == Destination(packet[..])
    {
      ip := 0x1_0000 * Word(packet[30], packet[31]) + Word(packet[32], packet[33]);
    }

    /** The end of packet_to_other_dest: queue the packet and handle its request. */
    method ParkAndAsk(packet: array<Byte>, ip: Ip, interface: string, now: int)
      requires Valid() && packet.Length >= MIN_FRAME && ip == Destination(packet[..])
      requires NextHop(Abs(), ip).Some?
      modifies this`out, this`nextSerial, cache`requests, cache`nodes, cache`queue, cache.nodes
      ensures Valid()
      ensures var s := Park(old(Abs()), packet[..], interface);
              Find(s.queue, ip) < |s.queue| && Abs() == Retry(s, Find(s.queue, ip), now)
      ensures forall j :: 0 <= j < |cache.nodes| ==> cache.nodes[j] in old(cache.nodes) || fresh(cache.nodes[j])
    {
      hide Cache.Valid, List.Valid, Verified, FindRoute, FindInterface, Retry, Enqueue;
      ghost var s := Abs();
      var req := cache.QueueReq(ip, packet[..], interface, nextSerial);
      nextSerial := nextSerial + 1;
      assert Abs() == Park(s, packet[..], interface);
      ghost var k := Find(cache.queue, ip);
      cache.SameLength();
      cache.NodeHolds(k);
      SameNextHop(s, Abs(), ip);
      assert forall i :: 0 <= i < |cache.nodes| ==> cache.nodes[i] in old(cache.nodes) || fresh(cache.nodes[i]);
      HandleReq(req, now, k);
    }

    // ---------- The three steps ----------

    /** IP_packet. */
    method IpPacket(packet: array<Byte>, interface: string, now: int)
      requires Valid() && Inv(Abs()) && clock <= now
      modifies packet, this`out, this`clock, this`arrivals, this`nextSerial
      modifies cache`requests, cache`nodes, cache`queue, cache.nodes
      ensures Valid() && Inv(Abs()) && Abs() == Step(old(Abs()), Frame(old(packet[..]), interface, now))
      ensures forall j :: 0 <= j < |cache.nodes| ==> cache.nodes[j] in old(cache.nodes) || fresh(cache.nodes[j])
    {
      hide Cache.Valid, List.Valid, Verified, Validates, Forward, Inv, PutWord, WordAt, Header;
      StepKeepsInv(Abs(), Frame(packet[..], interface, now));
      ghost var bytes := packet[..];
      clock := now;
      if packet.Length < MIN_FRAME {
        return;
      }
      var wrong := ValidateChecksum(order, packet);
      if wrong != 0 {
        return;
      }
      var ip := ReadDestination(packet);
      var own := InterfaceWithIp(ifaces, ip);
      if own != null {
        Send(Local(bytes, interface));
        return;
      }
      wrong := ValidateChecksum(order, packet);
      arrivals := arrivals + [bytes];
      PacketToOtherDest(packet, interface, now);
    }

    /** The reply branch of arp_packet. */
    method ArpReply(ip: Ip, mac: Mac, interface: string, now: int)
      requires Valid() && Inv(Abs()) && clock <= now
      modifies this`out, this`clock, this`insertions, this`nextSerial
      modifies cache`requests, cache`nodes, cache`queue, cache.nodes, cache.entries
      ensures Valid() && Inv(Abs()) && Abs() == Step(old(Abs()), Reply(ip, mac, interface, now))
      ensures forall j :: 0 <= j < |cache.nodes| ==> cache.nodes[j] in old(cache.nodes) || fresh(cache.nodes[j])
    {
      hide Cache.Valid, List.Valid, Verified, ForwardAll, Inv, Learn, Insert, WaitingFor, Step;
      ReplyStep(Abs(), ip, mac, interface, now);
      StepKeepsInv(Abs(), Reply(ip, mac, interface, now));
      WaitingIsParkable(Abs(), ip);
      var req := InsertMapping(ip, mac, now);
      if req == null {
        ForwardNone(Abs(), interface, now);
      } else {
        Drain(req, ip, interface, now);
      }
    }

    /** The waiting packets of a request that left the queue are forwarded, and it is destroyed. */
    method Drain(req: RequestNode, ghost ip: Ip, interface: string, now: int)
      requires Valid() && req !in cache.nodes && req.Holds()
      requires forall i :: 0 <= i < |From(req.packets)| ==> Parkable(From(req.packets)[i].bytes, ip)
      modifies this`out, this`nextSerial, cache`requests, cache`nodes, cache`queue, cache.nodes
      ensures Valid() && Abs() == ForwardAll(old(Abs()), old(From(req.packets)), interface, now)
      ensures forall j :: 0 <= j < |cache.nodes| ==> cache.nodes[j] in old(cache.nodes) || fresh(cache.nodes[j])
    {
      hide Cache.Valid, List.Valid, Verified, ForwardAll, Parkable;
      ForwardWaiting(req, ip, interface, now);
      cache.Destroy(req);
    }

    /** The insertion, with its entry in the history. */
    method InsertMapping(ip: Ip, mac: Mac, now: int) returns (req: RequestNode?)
      requires Valid()
      modifies this`clock, this`insertions, cache`requests, cache`nodes, cache`queue, cache.nodes, cache.entries
      ensures Valid() && Abs() == RouterSpec.Insert(old(Abs()), ip, mac, now)
      ensures forall j :: 0 <= j < |cache.nodes| ==> cache.nodes[j] in old(cache.nodes)
      ensures if req == null then WaitingFor(old(Abs()), ip) == []
              else req in old(cache.nodes) && req !in cache.nodes && req.Holds()
                   && From(req.packets) == WaitingFor(old(Abs()), ip)
    {
      hide Cache.Valid, List.Valid, Verified, Learn;
      req := cache.Insert(mac, ip, now);
      insertions := Logged(old(cache.entries[..]), insertions, mac, ip, now);
      clock := now;
    }

    /** The drain loop: each waiting packet, copied out of its node, is forwarded. */
    method ForwardWaiting(req: RequestNode, ghost ip: Ip, interface: string, now: int)
      requires Valid() && req !in cache.nodes && req.Holds()
      requires forall i :: 0 <= i < |From(req.packets)| ==> Parkable(From(req.packets)[i].bytes, ip)
      modifies this`out, this`nextSerial, cache`requests, cache`nodes, cache`queue, cache.nodes
      ensures Valid() && Abs() == ForwardAll(old(Abs()), old(From(req.packets)), interface, now)
      ensures forall j :: 0 <= j < |cache.nodes| ==> cache.nodes[j] in old(cache.nodes) || fresh(cache.nodes[j])
    {
      hide Cache.Valid, List.Valid, Verified, Forward, Validates, ForwardAll;
      ghost var s, all, i := Abs(), From(req.packets), 0;
      ForwardNone(s, interface, now);
      var p := req.packets;
      while p != null
        invariant Valid()
        invariant forall j :: 0 <= j < |cache.nodes| ==> cache.nodes[j] in old(cache.nodes) || fresh(cache.nodes[j])
        invariant 0 <= i <= |all| && (p != null ==> p.Ok()) && From(p) == all[i..]
        invariant Abs() == ForwardAll(s, all[..i], interface, now)
        decreases |all| - i
      {
        ForwardOneMore(s, all, i, interface, now);
        assert all[i] == Packet(p.buf, p.iface);
        ForwardCopy(p.buf, interface, now);
        p := p.next;
        i := i + 1;
      }
      assert all[..i] == all;
    }

    /** packet_to_other_dest on a copy of a waiting packet. */
    method ForwardCopy(bytes: seq<Byte>, interface: string, now: int)
      requires Valid() && IsFrame(bytes)
      modifies this`out, this`nextSerial, cache`requests, cache`nodes, cache`queue, cache.nodes
      ensures Valid() && Abs() == Forward(old(Abs()), bytes, interface, now)
      ensures forall j :: 0 <= j < |cache.nodes| ==> cache.nodes[j] in old(cache.nodes) || fresh(cache.nodes[j])
    {
      hide Cache.Valid, List.Valid, Verified, Forward;
      var copy := new Byte[|bytes|](j requires 0 <= j < |bytes| => bytes[j]);
      assert copy[..] == bytes;
      PacketToOtherDest(copy, interface, now);
    }

    /** sr_arpcache_sweepreqs, with the next pointer saved before each request is handled. */
    method SweepReqs(now: int)
      requires Valid() && forall i :: 0 <= i < |cache.queue| ==> NextHop(Abs(), cache.queue[i].ip).Some?
      modifies this`out, cache`requests, cache`nodes, cache`queue, cache.nodes
      ensures Valid() && Abs() == Sweep(old(Abs()), now)
      ensures forall j :: 0 <= j < |cache.nodes| ==> cache.nodes[j] in old(cache.nodes) || fresh(cache.nodes[j])
    {
      hide Cache.Valid, List.Valid, Verified, Retry, SweepTo, Kept, FindRoute, FindInterface;
      ghost var s, q, i := Abs(), cache.queue, 0;
      cache.SameLength();
      cache.FirstNode();
      SweepEnds(s, now);
      NoneKept(q, now);
      var req := cache.requests;
      while req != null
        invariant Valid() && 0 <= i <= |q| && Abs() == SweepTo(s, i, now)
        invariant forall j :: 0 <= j < |cache.nodes| ==> cache.nodes[j] in old(cache.nodes)
        invariant req == At(cache.nodes, |Kept(q[..i], now)|)
        invariant |cache.nodes| == |Kept(q[..i], now)| + |q| - i
        decreases |q| - i
      {
        req := HandleNext(s, i, req, now);
        i := i + 1;
      }
    }

    /** Handles a request of a sweep, and returns the one that was next before that. */
    method HandleNext(ghost s: State, ghost i: nat, req: RequestNode, now: int) returns (next: RequestNode?)
      requires Valid() && i < |s.queue| && Abs() == SweepTo(s, i, now) && NextHop(s, s.queue[i].ip).Some?
      requires |cache.nodes| == |Kept(s.queue[..i], now)| + |s.queue| - i
      requires req == cache.nodes[|Kept(s.queue[..i], now)|]
      modifies this`out, cache`requests, cache`nodes, cache`queue, cache.nodes
      ensures Valid() && Abs() == SweepTo(s, i + 1, now)
      ensures |cache.nodes| == |Kept(s.queue[..i + 1], now)| + |s.queue| - (i + 1)
      ensures next == At(cache.nodes, |Kept(s.queue[..i + 1], now)|)
      ensures forall j :: 0 <= j < |cache.nodes| ==> cache.nodes[j] in old(cache.nodes)
    {
      hide Cache.Valid, List.Valid, Verified, Retry, SweepTo, Kept, NextHop, Exhausted;
      ghost var k := |Kept(s.queue[..i], now)|;
      SweepStep(s, i, now);
      OneMore(s, i, now);
      cache.NodeHolds(k);
      cache.NextNode(k);
      SweepToSameHop(s, i, now, req.ip);
      next := req.next;
      HandleReq(req, now, k);
    }

    /** One turn of sr_arpcache_timeout. */
    method Timeout(now: int)
      requires Valid() && Inv(Abs()) && clock <= now
      modifies this`out, this`clock, this`lastPass, cache`requests, cache`nodes, cache`queue, cache.nodes, cache.entries
      ensures Valid() && Inv(Abs()) && Abs() == Step(old(Abs()), Second(now))
      ensures forall j :: 0 <= j < |cache.nodes| ==> cache.nodes[j] in old(cache.nodes) || fresh(cache.nodes[j])
    {
      hide Cache.Valid, List.Valid, Verified, Sweep, Inv, Expire;
      StepKeepsInv(Abs(), Second(now));
      QueuedHaveHops(Abs());
      cache.ExpireEntries(now);
      lastPass := now;
      clock := now;
      assert Abs() == ExpiryPass(old(Abs()), now);
      SameNextHops(old(Abs()), Abs());
      SweepReqs(now);
    }

    // ---------- Whole runs ----------

    /** One event, handled by its entry point. */
    method HandleEvent(e: Event)
      requires Valid() && Inv(Abs()) && clock <= e.at
      modifies this`out, this`clock, this`lastPass, this`nextSerial, this`insertions, this`arrivals
      modifies cache`requests, cache`nodes, cache`queue, cache.nodes, cache.entries
      ensures Valid() && Inv(Abs()) && Abs() == Step(old(Abs()), e) && clock == e.at
      ensures forall j :: 0 <= j < |cache.nodes| ==> cache.nodes[j] in old(cache.nodes) || fresh(cache.nodes[j])
    {
      hide Cache.Valid, List.Valid, Verified, Inv, Step;
      StepClock(Abs(), e);
      match e
      case Frame(bytes, interface, at) =>
        var packet := new Byte[|bytes|](j requires 0 <= j < |bytes| => bytes[j]);
        assert packet[..] == bytes;
        IpPacket(packet, interface, at);
      case Reply(ip, mac, interface, at) => ArpReply(ip, mac, interface, at);
      case Second(at) => Timeout(at);
    }

    /** Any sequence of events, one after the other: the heap goes through exactly the run of the state
        machine, so what holds in every run holds of it. */
    method HandleAll(events: seq<Event>)
      requires Valid() && Inv(Abs()) && Timely(clock, events)
      modifies this`out, this`clock, this`lastPass, this`nextSerial, this`insertions, this`arrivals
      modifies cache`requests, cache`nodes, cache`queue, cache.nodes, cache.entries
      ensures Valid() && Inv(Abs()) && Abs() == Run(old(Abs()), events)
      ensures forall j :: 0 <= j < |cache.nodes| ==> cache.nodes[j] in old(cache.nodes) || fresh(cache.nodes[j])
    {
      hide Cache.Valid, List.Valid, Verified, Inv, Step;
      var i := 0;
      while i < |events|
        invariant i <= |events| && Valid() && Inv(Abs())
        invariant Abs() == Run(old(Abs()), events[..i])
        invariant i < |events| ==> clock <= events[i].at
        invariant forall j :: 0 <= j < |cache.nodes| ==> cache.nodes[j] in old(cache.nodes) || fresh(cache.nodes[j])
      {
        assert events[..i + 1][..i] == events[..i];
        HandleEvent(events[i]);
        i := i + 1;
      }
      assert events[..i] == events;
    }
  }

  /** The three ways in which a request is handled. */
  lemma RetryCases(s: State, k: nat, now: int)
    requires k < |s.queue| && NextHop(s, s.queue[k].ip).Some?
    ensures var r, t := s.queue[k], Retry(s, k, now);
            && FindRoute(s.routes, r.ip).Some? && RouteName(s, r.ip) == FindRoute(s.routes, r.ip).value.iface
            && (Exhausted(r, now) <==> now - r.sent > 1 && r.timesSent >= MAX_SENDS)
            && t == if now - r.sent <= 1 then s
                    else if r.timesSent >= MAX_SENDS
                    then s.(queue := Remove(s.queue, k), out := s.out + Unreachable(r.packets, RouteName(s, r.ip)))
                    else s.(queue := s.queue[k := r.(sent := now, timesSent := r.timesSent + 1)],
                            out := s.out + [ArpRequest(r.serial, r.ip, NextHop(s, r.ip).value.name, now)])
  {
    hide FindRoute, FindInterface, Unreachable, Remove;
    assert s.queue[k := s.queue[k]] == s.queue;
    assert s.out + [] == s.out;
  }

  lemma {:induction false} ReplyStep(s: State, ip: Ip, mac: Mac, iface: string, now: int)
    ensures Step(s, Reply(ip, mac, iface, now))
         == ForwardAll(RouterSpec.Insert(s, ip, mac, now), WaitingFor(s, ip), iface, now)
  {
  }

  lemma QueuedHaveHops(s: State)
    requires Inv(s)
    ensures forall i :: 0 <= i < |s.queue| ==> NextHop(s, s.queue[i].ip).Some?
  {
    assert forall i :: 0 <= i < |s.queue| ==> RequestOk(s, s.queue[i]);
  }

  lemma SameNextHops(s: State, t: State)
    requires t.routes == s.routes && t.ifaces == s.ifaces
    ensures forall ip :: NextHop(t, ip) == NextHop(s, ip)
  {
  }

  lemma {:induction false} NoneKept(queue: seq<Request>, now: int)
    ensures Kept(queue[..0], now) == []
  {
  }

  lemma {:induction false} ForwardNone(s: State, iface: string, now: int)
    ensures ForwardAll(s, [], iface, now) == s
  {
  }

  lemma {:induction false} ForwardOneMore(s: State, packets: seq<Packet>, i: nat, iface: string, now: int)
    requires i < |packets|
    ensures ForwardAll(s, packets[..i + 1], iface, now)
         == Forward(ForwardAll(s, packets[..i], iface, now), packets[i].bytes, iface, now)
  {
    hide Forward;
    assert packets[..i + 1][..i] == packets[..i];
  }

  lemma SweepToSameHop(s: State, i: nat, now: int, ip: Ip)
    requires i <= |s.queue|
    ensures NextHop(SweepTo(s, i, now), ip) == NextHop(s, ip)
  {
    SameNextHop(s, SweepTo(s, i, now), ip);
  }
}
