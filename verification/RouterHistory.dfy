/** What a run has to do with its events: which frames were accepted, what was answered at once and from where,
    which mappings were learned, when the last expiry pass was. */
module RouterHistory {
  import opened Wrappers
  import opened Bytes
  import opened Checksum
  import opened ChecksumProofs
  import opened IpFrame
  import opened Topology
  import opened ArpTable
  import opened ArpQueue
  import opened RouterSpec
  import opened RouterInvariants

  /** A frame for one of the router's own addresses. */
  ghost predicate IsOwn(ifaces: seq<Interface>, b: seq<Byte>)
    requires IsFrame(b)
  {
    exists f :: f in ifaces && f.ip == Destination(b)
  }

  /** The frames to be forwarded: whole, with a valid header, and not for the router itself. */
  ghost function ToForward(ifaces: seq<Interface>, events: seq<Event>): seq<seq<Byte>> {
    if events == [] then []
    else
      var last := events[|events| - 1];
      ToForward(ifaces, events[..|events| - 1])
      + if last.Frame? && Good(last.bytes) && !IsOwn(ifaces, last.bytes) then [last.bytes] else []
  }

  lemma {:induction false} OwnIsFound(ifaces: seq<Interface>, b: seq<Byte>)
    requires IsFrame(b)
    ensures IsOwn(ifaces, b) <==> FindByIp(ifaces, Destination(b)).Some?
  {
    hide FindByIp;
    var k := FoundByIpIsFirst(ifaces, Destination(b));
  }

  /** A good frame, by its bytes: 34 of them, an IP header in the last 20 that the receiver of RFC 1071 accepts,
      and a checksum that is not stored as zero. */
  lemma GoodByBytes(b: seq<Byte>)
    ensures Good(b) <==> |b| >= 34 && ReceiverAccepts(b[14..34]) && !(b[24] == b[25] == 0)
  {
    hide ReceiverAccepts;
    if |b| >= 34 {
      ValidatesExactly(b[14..34]);
      assert b[14..34][10] == b[24] && b[14..34][11] == b[25];
    }
  }

  /** The way on: the first route to exactly that address, and the first interface whose name agrees with the one
      the route gives. */
  lemma NextHopExactly(s: State, ip: Ip) returns (i: nat, k: nat)
    ensures i <= |s.routes| && forall j :: 0 <= j < i ==> s.routes[j].dest != ip
    ensures i == |s.routes| ==> NextHop(s, ip) == None
    ensures i < |s.routes| ==>
              && s.routes[i].dest == ip && RouteName(s, ip) == s.routes[i].iface
              && k <= |s.ifaces| && (forall j :: 0 <= j < k ==> !AgreeIn(s.ifaces[j].name, s.routes[i].iface, 32))
              && (k < |s.ifaces| ==> AgreeIn(s.ifaces[k].name, s.routes[i].iface, 32))
              && NextHop(s, ip) == if k < |s.ifaces| then Some(s.ifaces[k]) else None
  {
    hide FindRoute, FindInterface, AgreeIn;
    FoundRouteIsInTable(s.routes, ip);
    if FindRoute(s.routes, ip).Some? {
      i := FoundRouteIsFirst(s.routes, ip);
      k := FoundInterfaceIsFirst(s.ifaces, s.routes[i].iface);
    } else {
      i, k := |s.routes|, 0;
    }
  }

  // ---------- Frames accepted ----------

  lemma StepAccepts(s: State, e: Event)
    ensures Step(s, e).arrivals
         == s.arrivals + if e.Frame? && Good(e.bytes) && !IsOwn(s.ifaces, e.bytes) then [e.bytes] else []
  {
    hide IsOwn, FindByIp, Validates, ForwardAll, Insert, WaitingFor, Sweep, ExpiryPass;
    match e
    case Frame(bytes, iface, at) =>
      if Good(bytes) {
        OwnIsFound(s.ifaces, bytes);
        ForwardKeeps(s.(clock := at, arrivals := s.arrivals + [bytes]), bytes, iface, at);
      }
    case Reply(ip, mac, iface, at) =>
      InsertKeeps(s, ip, mac, at);
      ForwardAllClock(Insert(s, ip, mac, at), WaitingFor(s, ip), iface, at);
    case Second(at) => TickKeeps(s, at);
  }

  lemma ForwardKeeps(s: State, bytes: seq<Byte>, iface: string, now: int)
    ensures var t := Forward(s, bytes, iface, now);
            t.arrivals == s.arrivals && t.insertions == s.insertions && t.lastPass == s.lastPass
  {
  }

  lemma InsertKeeps(s: State, ip: Ip, mac: Mac, now: int)
    ensures Insert(s, ip, mac, now).arrivals == s.arrivals && Insert(s, ip, mac, now).lastPass == s.lastPass
  {
  }

  lemma TickKeeps(s: State, now: int)
    ensures Tick(s, now).arrivals == s.arrivals && Tick(s, now).insertions == s.insertions
    ensures Tick(s, now).lastPass == now
  {
  }

  /** In every run the frames accepted are those that were to be forwarded, in the order they came. */
  lemma {:induction false} ArrivalsInEveryRun(s: State, events: seq<Event>)
    ensures Run(s, events).arrivals == s.arrivals + ToForward(s.ifaces, events)
  {
    hide Step, IsOwn, Good;
    if events == [] {
      assert s.arrivals + [] == s.arrivals;
    } else {
      var n := |events| - 1;
      var t := Run(s, events[..n]);
      ArrivalsInEveryRun(s, events[..n]);
      RunKeepsTopology(s, events[..n]);
      StepAccepts(t, events[n]);
    }
  }

  lemma {:induction false} RunKeepsTopology(s: State, events: seq<Event>)
    ensures Run(s, events).routes == s.routes && Run(s, events).ifaces == s.ifaces
  {
    hide Step;
    if events != [] {
      RunKeepsTopology(s, events[..|events| - 1]);
      StepClock(Run(s, events[..|events| - 1]), events[|events| - 1]);
    }
  }

  // ---------- Frames answered at once ----------

  /** What a frame is answered with as it arrives: its own ICMP code if it is for the router, a time-exceeded if
      it has no hop left, a host-unreachable if there is no way on; always back to where it came from. */
  ghost function AnswerTo(s: State, e: Event): seq<Out> {
    if !e.Frame? || !Good(e.bytes) then []
    else if IsOwn(s.ifaces, e.bytes) then [Local(e.bytes, e.iface)]
    else if e.bytes[22] <= 1 then [TimeExceeded(e.bytes, e.iface)]
    else if NextHop(s, Destination(e.bytes)) == None then [HostUnreachable(e.bytes, e.iface)]
    else []
  }

  ghost function AnswersTo(s: State, events: seq<Event>): seq<Out> {
    if events == [] then []
    else AnswersTo(s, events[..|events| - 1]) + AnswerTo(s, events[|events| - 1])
  }

  /** Those outputs that are neither transmissions, nor ARP requests, nor answers to frames that had waited. */
  predicate IsPrompt(s: State, o: Out) {
    match o
    case Transmit(_, _, _) => false
    case ArpRequest(_, _, _, _) => false
    case HostUnreachable(b, _) => IsFrame(b) && NextHop(s, Destination(b)) == None
    case TimeExceeded(_, _) => true
    case Local(_, _) => true
  }

  function Prompt(s: State, out: seq<Out>): seq<Out> {
    if out == [] then []
    else Prompt(s, out[..|out| - 1]) + if IsPrompt(s, out[|out| - 1]) then [out[|out| - 1]] else []
  }

  lemma {:induction false} PromptAppend(s: State, a: seq<Out>, b: seq<Out>)
    ensures Prompt(s, a + b) == Prompt(s, a) + Prompt(s, b)
    decreases |b|
  {
    hide IsPrompt;
    if b == [] {
      assert a + b == a;
    } else {
      assert (a + b)[..|a + b| - 1] == a + b[..|b| - 1];
      PromptAppend(s, a, b[..|b| - 1]);
    }
  }

  lemma {:induction false} PromptOne(s: State, o: Out)
    ensures Prompt(s, [o]) == if IsPrompt(s, o) then [o] else []
  {
    assert [o][..0] == [];
  }

  lemma {:induction false} NonePrompt(s: State, out: seq<Out>)
    requires forall i :: 0 <= i < |out| ==> !IsPrompt(s, out[i])
    ensures Prompt(s, out) == []
  {
    hide IsPrompt;
    if out != [] {
      NonePrompt(s, out[..|out| - 1]);
    }
  }

  lemma {:induction false} SamePrompt(s: State, t: State, out: seq<Out>)
    requires t.routes == s.routes && t.ifaces == s.ifaces
    ensures Prompt(t, out) == Prompt(s, out)
  {
    if out != [] {
      SamePrompt(s, t, out[..|out| - 1]);
      var last := out[|out| - 1];
      if last.HostUnreachable? && IsFrame(last.original) {
        SameNextHop(s, t, Destination(last.original));
      }
    }
  }

  lemma {:induction false} EmitPrompt(s: State, o: Out)
    ensures Prompt(s, Emit(s, o).out) == Prompt(s, s.out) + if IsPrompt(s, o) then [o] else []
  {
    hide IsPrompt, Prompt;
    PromptAppend(s, s.out, [o]);
    PromptOne(s, o);
  }

  /** What handling a request sends is never prompt: its packets have a way on. */
  lemma {:induction false} RetryIsNotPrompt(s: State, k: nat, now: int)
    requires QueueOk(s) && k < |s.queue|
    ensures Prompt(s, Retry(s, k, now).out) == Prompt(s, s.out)
  {
    hide Prompt, NextHop, FindRoute, Validates;
    var r := s.queue[k];
    var sent := RetryOut(s, r, now);
    assert RequestOk(s, r);
    forall i | 0 <= i < |sent| ensures !IsPrompt(s, sent[i]) {
      if sent[i].HostUnreachable? {
        assert Parkable(r.packets[i].bytes, r.ip);
      }
    }
    NonePrompt(s, sent);
    PromptAppend(s, s.out, sent);
  }

  lemma InvGivesQueue(s: State)
    requires Inv(s)
    ensures QueueOk(s)
  {
  }

  /** Nor is the forwarding of a frame that has hops left and a way on. */
  lemma {:induction false} ForwardIsNotPrompt(s: State, bytes: seq<Byte>, iface: string, now: int)
    requires QueueOk(s) && Good(bytes) && bytes[TTL] >= 2 && NextHop(s, Destination(bytes)).Some?
    ensures Prompt(s, Forward(s, bytes, iface, now).out) == Prompt(s, s.out)
  {
    hide QueueOk, Prompt, NextHop, Rewritten, Lookup, Validates, Retry;
    var ip := Destination(bytes);
    if Lookup(s.table, ip).Some? {
      var hop, e := NextHop(s, ip).value, Lookup(s.table, ip).value;
      EmitPrompt(s, Transmit(bytes, Rewritten(bytes, hop.addr, e.mac), hop.name));
    } else {
      var t := Park(s, bytes, iface);
      ParkKeepsQueue(s, bytes, iface);
      ParkedIsFound(s, bytes, iface);
      var k := Find(t.queue, ip);
      RetryIsNotPrompt(t, k, now);
      SamePrompt(s, t, s.out);
      SamePrompt(s, t, Retry(t, k, now).out);
    }
  }

  lemma {:induction false} ForwardAllIsNotPrompt(s: State, packets: seq<Packet>, ip: Ip, iface: string, now: int)
    requires Inv(s) && NextHop(s, ip).Some?
    requires forall i :: 0 <= i < |packets| ==> Parkable(packets[i].bytes, ip)
    ensures Prompt(s, ForwardAll(s, packets, iface, now).out) == Prompt(s, s.out)
  {
    hide Inv, QueueOk, Forward, Prompt, NextHop, Validates;
    if packets != [] {
      var n := |packets| - 1;
      var t := ForwardAll(s, packets[..n], iface, now);
      ForwardAllIsNotPrompt(s, packets[..n], ip, iface, now);
      ForwardAllKeepsInv(s, packets[..n], iface, now);
      ForwardAllClock(s, packets[..n], iface, now);
      InvGivesQueue(t);
      SameNextHop(s, t, ip);
      ForwardIsNotPrompt(t, packets[n].bytes, iface, now);
      SamePrompt(s, t, t.out);
      SamePrompt(s, t, Forward(t, packets[n].bytes, iface, now).out);
    }
  }

  lemma {:induction false} SweepIsNotPrompt(s: State, i: nat, now: int)
    requires Inv(s) && i <= |s.queue|
    ensures Prompt(s, SweepTo(s, i, now).out) == Prompt(s, s.out)
  {
    hide Inv, QueueOk, Prompt, SweepTo, Retry;
    if i == 0 {
      SweepEnds(s, now);
    } else {
      var t, k := SweepTo(s, i - 1, now), |Kept(s.queue[..i - 1], now)|;
      SweepIsNotPrompt(s, i - 1, now);
      SweepToKeepsInv(s, i - 1, now);
      InvGivesQueue(t);
      SweepStep(s, i - 1, now);
      RetryIsNotPrompt(t, k, now);
      SweepToTopology(s, i - 1, now);
      SamePrompt(s, t, t.out);
      SamePrompt(s, t, Retry(t, k, now).out);
    }
  }

  lemma SweepToTopology(s: State, i: nat, now: int)
    requires i <= |s.queue|
    ensures SweepTo(s, i, now).routes == s.routes && SweepTo(s, i, now).ifaces == s.ifaces
  {
  }

  lemma {:induction false} FrameAnswered(s: State, bytes: seq<Byte>, iface: string, now: int)
    requires Inv(s)
    ensures Prompt(s, FrameIn(s, bytes, iface, now).out)
         == Prompt(s, s.out) + AnswerTo(s, Frame(bytes, iface, now))
  {
    hide Inv, QueueOk, Prompt, NextHop, Validates, IsOwn, Forward, FindByIp;
    var u := s.(clock := now, arrivals := s.arrivals + [bytes]);
    if Good(bytes) {
      OwnIsFound(s.ifaces, bytes);
      SameNextHop(s, u, Destination(bytes));
      if FindByIp(s.ifaces, Destination(bytes)).Some? {
        EmitPrompt(s.(clock := now), Local(bytes, iface));
        SamePrompt(s, s.(clock := now), s.out);
        SamePrompt(s, s.(clock := now), s.out + [Local(bytes, iface)]);
      } else {
        InvGivesQueue(s);
        QueueOfOther(s, u);
        ForwardAnswers(u, bytes, iface, now);
        SamePrompt(s, u, s.out);
        SamePrompt(s, u, Forward(u, bytes, iface, now).out);
      }
    }
  }

  lemma QueueOfOther(s: State, t: State)
    requires QueueOk(s) && t.queue == s.queue && t.nextSerial == s.nextSerial
    requires t.routes == s.routes && t.ifaces == s.ifaces
    ensures QueueOk(t)
  {
    hide DistinctIps, DistinctSerials, Parkable, NextHop;
    forall i | 0 <= i < |t.queue| ensures RequestOk(t, t.queue[i]) {
      assert RequestOk(s, s.queue[i]);
      SameNextHop(s, t, t.queue[i].ip);
    }
  }

  lemma {:induction false} ForwardAnswers(s: State, bytes: seq<Byte>, iface: string, now: int)
    requires QueueOk(s) && Good(bytes)
    ensures Prompt(s, Forward(s, bytes, iface, now).out)
         == Prompt(s, s.out) + if bytes[22] <= 1 then [TimeExceeded(bytes, iface)]
                               else if NextHop(s, Destination(bytes)) == None then [HostUnreachable(bytes, iface)]
                               else []
  {
    hide QueueOk, Prompt, NextHop, Validates, Rewritten, Lookup, Retry;
    if bytes[TTL] <= 1 {
      EmitPrompt(s, TimeExceeded(bytes, iface));
    } else if NextHop(s, Destination(bytes)) == None {
      EmitPrompt(s, HostUnreachable(bytes, iface));
    } else {
      ForwardIsNotPrompt(s, bytes, iface, now);
    }
  }

  lemma {:induction false} StepAnswers(s: State, e: Event)
    requires Inv(s) && s.clock <= e.at
    ensures Prompt(s, Step(s, e).out) == Prompt(s, s.out) + AnswerTo(s, e)
  {
    hide Inv, Prompt, AnswerTo, FrameIn, ForwardAll, Insert, Parkable, SweepTo, NextHop;
    match e
    case Frame(bytes, iface, at) => FrameAnswered(s, bytes, iface, at);
    case Reply(ip, mac, iface, at) =>
      NoAnswer(s, e);
      ReplyIsNotPrompt(s, ip, mac, iface, at);
    case Second(at) =>
      NoAnswer(s, e);
      TickIsNotPrompt(s, at);
  }

  lemma NoAnswer(s: State, e: Event)
    requires !e.Frame?
    ensures AnswerTo(s, e) == []
  {
  }

  lemma {:induction false} ReplyIsNotPrompt(s: State, ip: Ip, mac: Mac, iface: string, now: int)
    requires Inv(s) && s.clock <= now
    ensures Prompt(s, ReplyIn(s, ip, mac, iface, now).out) == Prompt(s, s.out)
  {
    hide Inv, Prompt, ForwardAll, Parkable, NextHop, Learn, Logged;
    var t, packets := Insert(s, ip, mac, now), WaitingFor(s, ip);
    if packets == [] {
      ForwardsNothing(t, iface, now);
    } else {
      InsertKeepsInv(s, ip, mac, now);
      WaitingIsParkable(s, ip);
      WaitingHasHop(s, ip);
      SameNextHop(s, t, ip);
      ForwardAllIsNotPrompt(t, packets, ip, iface, now);
      SamePrompt(s, t, s.out);
      SamePrompt(s, t, ForwardAll(t, packets, iface, now).out);
    }
  }

  lemma {:induction false} ForwardsNothing(s: State, iface: string, now: int)
    ensures ForwardAll(s, [], iface, now) == s
  {
  }

  lemma WaitingHasHop(s: State, ip: Ip)
    requires Inv(s) && WaitingFor(s, ip) != []
    ensures NextHop(s, ip).Some?
  {
    assert RequestOk(s, s.queue[Find(s.queue, ip)]);
  }

  lemma {:induction false} TickIsNotPrompt(s: State, now: int)
    requires Inv(s) && s.clock <= now
    ensures Prompt(s, Tick(s, now).out) == Prompt(s, s.out)
  {
    hide Inv, Prompt, SweepTo, Sweep, Expire, Faithful;
    var t := ExpiryPass(s, now);
    InvGivesTable(s);
    ExpireKeepsFaithful(s.table, s.insertions, s.lastPass, now);
    OtherFieldsKeepInv(s, t);
    SweepIsNotPrompt(t, |t.queue|, now);
    SweepEnds(t, now);
    SamePrompt(s, t, s.out);
    SamePrompt(s, t, Tick(s, now).out);
  }

  /** In every run exactly the frames that call for an answer at once get it, once, in the order they came, from
      the interface they came in on. */
  lemma {:induction false} AnswersInEveryRun(s: State, events: seq<Event>)
    requires Inv(s) && Timely(s.clock, events)
    ensures Prompt(s, Run(s, events).out) == Prompt(s, s.out) + AnswersTo(s, events)
  {
    hide Inv, Step, Prompt, AnswerTo;
    if events == [] {
      assert Prompt(s, s.out) + [] == Prompt(s, s.out);
    } else {
      var n := |events| - 1;
      var t := Run(s, events[..n]);
      AnswersInEveryRun(s, events[..n]);
      RunKeepsInv(s, events[..n]);
      RunKeepsTopology(s, events[..n]);
      StepAnswers(t, events[n]);
      SamePrompt(s, t, t.out);
      SamePrompt(s, t, Step(t, events[n]).out);
      SameAnswer(s, t, events[n]);
    }
  }

  lemma SameAnswer(s: State, t: State, e: Event)
    requires t.routes == s.routes && t.ifaces == s.ifaces
    ensures AnswerTo(t, e) == AnswerTo(s, e)
  {
    hide IsOwn, Validates, NextHop;
    if e.Frame? && Good(e.bytes) {
      SameNextHop(s, t, Destination(e.bytes));
    }
  }

  // ---------- Mappings and passes ----------

  /** The mappings heard of, in order. */
  function Heard(events: seq<Event>): seq<(Ip, Mac, int)> {
    if events == [] then []
    else
      var last := events[|events| - 1];
      Heard(events[..|events| - 1]) + if last.Reply? then [(last.ip, last.mac, last.at)] else []
  }

  function Mappings(log: seq<Insertion>): seq<(Ip, Mac, int)> {
    seq(|log|, i requires 0 <= i < |log| => (log[i].ip, log[i].mac, log[i].at))
  }

  /** When the last turn of the timeout thread was, if there was one. */
  function LastSecond(start: int, events: seq<Event>): int {
    if events == [] then start
    else if events[|events| - 1].Second? then events[|events| - 1].at
    else LastSecond(start, events[..|events| - 1])
  }

  lemma StepHears(s: State, e: Event)
    ensures Mappings(Step(s, e).insertions)
         == Mappings(s.insertions) + if e.Reply? then [(e.ip, e.mac, e.at)] else []
    ensures Step(s, e).lastPass == if e.Second? then e.at else s.lastPass
  {
    hide Validates, Forward, ForwardAll, Sweep, FindByIp;
    match e
    case Frame(bytes, iface, at) =>
      if Good(bytes) {
        ForwardKeeps(s.(clock := at, arrivals := s.arrivals + [bytes]), bytes, iface, at);
      }
    case Reply(ip, mac, iface, at) =>
      ForwardAllKeepsLog(Insert(s, ip, mac, at), WaitingFor(s, ip), iface, at);
    case Second(at) => TickKeeps(s, at);
  }

  lemma {:induction false} ForwardAllKeepsLog(s: State, packets: seq<Packet>, iface: string, now: int)
    ensures var t := ForwardAll(s, packets, iface, now); t.insertions == s.insertions && t.lastPass == s.lastPass
  {
    hide Forward;
    if packets != [] {
      var n := |packets| - 1;
      ForwardAllKeepsLog(s, packets[..n], iface, now);
      ForwardKeeps(ForwardAll(s, packets[..n], iface, now), packets[n].bytes, iface, now);
    }
  }

  /** In every run the log of insertions is what the replies said, in order, and the last expiry pass was at the
      last turn of the timeout thread. */
  lemma {:induction false} LogInEveryRun(s: State, events: seq<Event>)
    ensures Mappings(Run(s, events).insertions) == Mappings(s.insertions) + Heard(events)
    ensures Run(s, events).lastPass == LastSecond(s.lastPass, events)
  {
    hide Step, Mappings;
    if events == [] {
      assert Mappings(s.insertions) + [] == Mappings(s.insertions);
    } else {
      var n := |events| - 1;
      LogInEveryRun(s, events[..n]);
      StepHears(Run(s, events[..n]), events[n]);
    }
  }
}
