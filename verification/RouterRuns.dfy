/** What holds in every run of the router, from the moment it starts. */
module RouterRuns {
  import opened Wrappers
  import opened Bytes
  import opened ChecksumProofs
  import opened IpFrame
  import opened Topology
  import opened ArpTable
  import opened ArpQueue
  import opened RouterSpec
  import opened RouterInvariants

  // ---------- Conservation of frames ----------

  /** The frames an output disposes of. */
  function Disposed(o: Out): multiset<seq<Byte>> {
    match o
    case Transmit(original, _, _) => multiset{original}
    case HostUnreachable(original, _) => multiset{original}
    case TimeExceeded(original, _) => multiset{original}
    case ArpRequest(_, _, _, _) => multiset{}
    case Local(_, _) => multiset{}
  }

  /** The frames transmitted or answered with an ICMP error. */
  function Concluded(out: seq<Out>): multiset<seq<Byte>> {
    if out == [] then multiset{} else Concluded(out[..|out| - 1]) + Disposed(out[|out| - 1])
  }

  /** The frames the router has dealt with or still holds. */
  function Tally(s: State): multiset<seq<Byte>> {
    Concluded(s.out) + Waiting(s.queue)
  }

  lemma {:induction false} ConcludedAppend(a: seq<Out>, b: seq<Out>)
    ensures Concluded(a + b) == Concluded(a) + Concluded(b)
    decreases |b|
  {
    if b == [] {
      assert a + b == a;
    } else {
      assert (a + b)[..|a + b| - 1] == a + b[..|b| - 1];
      ConcludedAppend(a, b[..|b| - 1]);
    }
  }

  lemma ConcludedOne(o: Out)
    ensures Concluded([o]) == Disposed(o)
  {
    assert [o][..0] == [];
  }

  /** Host-unreachables dispose of each waiting packet once. */
  lemma {:induction false} UnreachableDisposes(packets: seq<Packet>, iface: string)
    ensures Concluded(Unreachable(packets, iface)) == Frames(packets)
    decreases |packets|
  {
    hide Frames, Concluded, Unreachable;
    if packets != [] {
      var n := |packets| - 1;
      LastUnreachable(packets, iface);
      UnreachableDisposes(packets[..n], iface);
      assert packets == packets[..n] + [packets[n]];
      FramesAppend(packets[..n], [packets[n]]);
      FramesOne(packets[n]);
    } else {
      NoFrames();
      assert Unreachable(packets, iface) == [];
      NoneConcluded();
    }
  }

  lemma {:induction false} LastUnreachable(packets: seq<Packet>, iface: string)
    requires packets != []
    ensures var n := |packets| - 1;
            Concluded(Unreachable(packets, iface))
            == Concluded(Unreachable(packets[..n], iface)) + multiset{packets[n].bytes}
  {
    var n, out := |packets| - 1, Unreachable(packets, iface);
    assert out[..n] == Unreachable(packets[..n], iface);
  }

  lemma {:induction false} NoneConcluded()
    ensures Concluded([]) == multiset{}
  {
  }

  lemma FramesOne(p: Packet)
    ensures Frames([p]) == multiset{p.bytes}
  {
    assert [p][1..] == [];
  }

  lemma RetryConserves(s: State, k: nat, now: int)
    requires k < |s.queue|
    ensures Tally(Retry(s, k, now)) == Tally(s)
  {
    hide Waiting, Concluded, Frames, NextHop;
    var r := s.queue[k];
    ConcludedAppend(s.out, RetryOut(s, r, now));
    if Exhausted(r, now) {
      UnreachableDisposes(r.packets, RouteName(s, r.ip));
      WaitingSplit(s.queue, k);
    } else {
      WaitingUpdate(s.queue, k, Retried(r, now));
      Cancel(Waiting(s.queue[k := Retried(r, now)]), Frames(r.packets), Waiting(s.queue));
      RetryDisposesNothing(s, r, now);
    }
  }

  lemma RetryDisposesNothing(s: State, r: Request, now: int)
    requires !Exhausted(r, now)
    ensures Concluded(RetryOut(s, r, now)) == multiset{}
  {
    if Due(r, now) {
      ConcludedOne(RetryOut(s, r, now)[0]);
    }
  }

  /** Forwarding disposes of its frame or parks it, exactly once. */
  lemma ForwardConserves(s: State, bytes: seq<Byte>, iface: string, now: int)
    requires IsFrame(bytes)
    ensures Tally(Forward(s, bytes, iface, now)) == Tally(s) + multiset{bytes}
  {
    hide Waiting, Concluded, Frames, Rewritten, Lookup, NextHop, Retry;
    var ip := Destination(bytes);
    if bytes[TTL] <= 1 {
      EmitDisposes(s, TimeExceeded(bytes, iface));
    } else if NextHop(s, ip) == None {
      EmitDisposes(s, HostUnreachable(bytes, iface));
    } else if Lookup(s.table, ip).Some? {
      var hop, e := NextHop(s, ip).value, Lookup(s.table, ip).value;
      EmitDisposes(s, Transmit(bytes, Rewritten(bytes, hop.addr, e.mac), hop.name));
    } else {
      EnqueueAddsOne(s.queue, ip, Packet(bytes, iface), s.nextSerial);
      ParkedIsFound(s, bytes, iface);
      RetryConserves(Park(s, bytes, iface), Find(Park(s, bytes, iface).queue, ip), now);
    }
  }

  lemma EmitDisposes(s: State, o: Out)
    ensures Tally(Emit(s, o)) == Tally(s) + Disposed(o)
  {
    hide Waiting, Concluded;
    ConcludedAppend(s.out, [o]);
    ConcludedOne(o);
  }

  lemma {:induction false} ForwardAllConserves(s: State, packets: seq<Packet>, iface: string, now: int)
    requires forall i :: 0 <= i < |packets| ==> IsFrame(packets[i].bytes)
    ensures Tally(ForwardAll(s, packets, iface, now)) == Tally(s) + Frames(packets)
    decreases |packets|
  {
    hide Forward, Tally;
    if packets != [] {
      var n := |packets| - 1;
      ForwardAllConserves(s, packets[..n], iface, now);
      ForwardConserves(ForwardAll(s, packets[..n], iface, now), packets[n].bytes, iface, now);
      assert packets == packets[..n] + [packets[n]];
      FramesAppend(packets[..n], [packets[n]]);
      assert [packets[n]][1..] == [];
    }
  }

  lemma {:induction false} SweepToConserves(s: State, i: nat, now: int)
    requires i <= |s.queue|
    ensures Tally(SweepTo(s, i, now)) == Tally(s)
  {
    hide Tally, SweepTo, Retry;
    if i == 0 {
      SweepEnds(s, now);
    } else {
      SweepToConserves(s, i - 1, now);
      SweepStep(s, i - 1, now);
      RetryConserves(SweepTo(s, i - 1, now), |Kept(s.queue[..i - 1], now)|, now);
    }
  }

  /** A reply takes the waiting packets off the queue and hands each of them on. */
  lemma ReplyConserves(s: State, ip: Ip, mac: Mac, iface: string, now: int)
    requires Inv(s)
    ensures Tally(ReplyIn(s, ip, mac, iface, now)) == Tally(s)
  {
    hide Waiting, Concluded, Frames, ForwardAll, Inv, Parkable;
    var k := Find(s.queue, ip);
    if k < |s.queue| {
      WaitingSplit(s.queue, k);
    } else {
      NoFrames();
    }
    ParkableAreFrames(s, ip);
    ForwardAllConserves(Insert(s, ip, mac, now), WaitingFor(s, ip), iface, now);
  }

  lemma NoFrames()
    ensures Frames([]) == multiset{}
  {
  }

  lemma ParkableAreFrames(s: State, ip: Ip)
    requires Inv(s)
    ensures forall i :: 0 <= i < |WaitingFor(s, ip)| ==> IsFrame(WaitingFor(s, ip)[i].bytes)
  {
    WaitingIsParkable(s, ip);
  }

  /** Every frame accepted is dealt with or held, exactly once. */
  predicate Accounted(s: State) {
    multiset(s.arrivals) == Tally(s)
  }

  lemma FrameInConserves(s: State, bytes: seq<Byte>, iface: string, now: int)
    requires Accounted(s)
    ensures Accounted(FrameIn(s, bytes, iface, now))
  {
    hide Waiting, Concluded, Forward, Validates;
    var t := s.(clock := now, arrivals := s.arrivals + [bytes]);
    if IsFrame(bytes) && Validates(Header(bytes)) {
      if FindByIp(s.ifaces, Destination(bytes)).Some? {
        EmitDisposes(s.(clock := now), Local(bytes, iface));
      } else {
        ForwardConserves(t, bytes, iface, now);
        ForwardKeepsArrivals(t, bytes, iface, now);
      }
    }
  }

  lemma TickConserves(s: State, now: int)
    requires Accounted(s)
    ensures Accounted(Tick(s, now))
  {
    hide Waiting, Concluded, Sweep, SweepTo;
    var t := ExpiryPass(s, now);
    SweepToConserves(t, |t.queue|, now);
    SweepEnds(t, now);
    SweepKeepsArrivals(t, now);
  }

  lemma StepConserves(s: State, e: Event)
    requires Inv(s) && Accounted(s)
    ensures Accounted(Step(s, e))
  {
    hide Inv, Tally, FrameIn, Tick, Insert;
    match e
    case Frame(bytes, iface, at) =>
      FrameInConserves(s, bytes, iface, at);
    case Reply(ip, mac, iface, at) =>
      ReplyConserves(s, ip, mac, iface, at);
      ReplyKeepsArrivals(s, ip, mac, iface, at);
    case Second(at) =>
      TickConserves(s, at);
  }

  lemma ReplyKeepsArrivals(s: State, ip: Ip, mac: Mac, iface: string, now: int)
    ensures ReplyIn(s, ip, mac, iface, now).arrivals == s.arrivals
  {
    ForwardAllClock(Insert(s, ip, mac, now), WaitingFor(s, ip), iface, now);
  }

  lemma ForwardKeepsArrivals(s: State, bytes: seq<Byte>, iface: string, now: int)
    ensures Forward(s, bytes, iface, now).arrivals == s.arrivals
  {
  }

  lemma SweepKeepsArrivals(s: State, now: int)
    ensures Sweep(s, now).arrivals == s.arrivals
  {
  }

  /** In every run, the frames accepted for forwarding are exactly, counting repetitions, those that were
      transmitted, those that were answered with an ICMP error, and those still waiting. */
  lemma {:induction false} FramesAreConserved(routes: seq<Route>, ifaces: seq<Interface>, now: int, events: seq<Event>)
    requires Timely(now, events)
    ensures var s := Run(Start(routes, ifaces, now), events);
            multiset(s.arrivals) == Concluded(s.out) + Waiting(s.queue)
  {
    StartIsOk(routes, ifaces, now);
    RunConserves(Start(routes, ifaces, now), events);
  }

  lemma {:induction false} RunConserves(s: State, events: seq<Event>)
    requires Inv(s) && Accounted(s) && Timely(s.clock, events)
    ensures Accounted(Run(s, events))
  {
    hide Step, Inv, Accounted;
    if events != [] {
      var n := |events| - 1;
      RunConserves(s, events[..n]);
      RunKeepsInv(s, events[..n]);
      StepConserves(Run(s, events[..n]), events[n]);
    }
  }
}
