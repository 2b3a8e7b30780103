/** The promises of the router, over every run from its start. */
module RouterTheorems {
  import opened Wrappers
  import opened Bytes
  import opened Checksum
  import opened ChecksumProofs
  import opened IpFrame
  import opened Topology
  import opened ArpTable
  import opened ArpQueue
  import opened RouterSpec
  import opened RouterInvariants
  import opened RouterRuns
  import opened RouterHistory

  /** A mapping for ip that found a free slot and that the latest pass did not find too old. */
  predicate Current(i: Insertion, ip: Ip, lastPass: int) {
    i.stored && i.ip == ip && lastPass - i.at <= 15
  }

  /** Every lookup that succeeds returns a mapping that was inserted for its address at the recorded time,
      at most 15 seconds before the latest expiry pass; and a stored mapping that no pass has found older
      than that keeps its address known. */
  lemma {:induction false} LookupsInEveryRun(routes: seq<Route>, ifaces: seq<Interface>, now: int,
                                             events: seq<Event>, ip: Ip)
    requires Timely(now, events)
    ensures var s := Run(Start(routes, ifaces, now), events);
            && |s.table| == 100
            && (Lookup(s.table, ip).Some? ==>
                  var e := Lookup(s.table, ip).value;
                  e.ip == ip && Backed(e, s.insertions) && s.lastPass - e.added <= 15)
            && (forall i :: 0 <= i < |s.insertions| && Current(s.insertions[i], ip, s.lastPass) ==>
                  Lookup(s.table, ip).Some?)
  {
    hide Step, Lookup;
    var s := RunState(routes, ifaces, now, events);
    LookupIsBacked(s.table, s.insertions, s.lastPass, ip);
    forall i | 0 <= i < |s.insertions| && Current(s.insertions[i], ip, s.lastPass)
      ensures Lookup(s.table, ip).Some?
    {
      StoredIsFound(s.table, s.insertions, s.lastPass, i);
    }
  }

  /** A run in which the newest mapping for b does not win: the slot freed by the expiry of a lies below the
      older mapping for b. */
  function OldMappingWins(a: Ip, b: Ip, mac: Mac, older: Mac, newer: Mac, iface: string): seq<Event> {
    [Reply(a, mac, iface, 0), Reply(b, older, iface, 10), Second(16), Reply(b, newer, iface, 17)]
  }

  lemma {:induction false} NewestMappingMayLose(routes: seq<Route>, ifaces: seq<Interface>,
                                                a: Ip, b: Ip, mac: Mac, older: Mac, newer: Mac, iface: string)
    requires a != b
    ensures var s := Run(Start(routes, ifaces, 0), OldMappingWins(a, b, mac, older, newer, iface));
            && Entry(newer, b, 17, true) in s.table
            && Lookup(s.table, b) == Some(Entry(older, b, 10, true))
  {
    hide Step, FreeSlot, Lookup;
    var s, events := Start(routes, ifaces, 0), OldMappingWins(a, b, mac, older, newer, iface);
    var t0 := s.table;
    var t1 := t0[0 := Entry(mac, a, 0, true)];
    var t2 := t1[1 := Entry(older, b, 10, true)];
    var t3 := t2[0 := Entry(mac, a, 0, false)];
    var t4 := t3[0 := Entry(newer, b, 17, true)];
    var s1 := Step(s, events[0]);
    var s2 := Step(s1, events[1]);
    var s3 := Step(s2, events[2]);
    RunNext(s, [], events[0]);
    RunNext(s, events[..1], events[1]);
    RunNext(s, events[..2], events[2]);
    RunNext(s, events[..3], events[3]);
    assert events[..1] == [] + [events[0]] && events[..2] == events[..1] + [events[1]];
    assert events[..3] == events[..2] + [events[2]] && events == events[..3] + [events[3]];
    FirstFree(t0, 0);
    QuietReply(s, a, mac, iface, 0);
    FirstFree(t1, 1);
    QuietReply(s1, b, older, iface, 10);
    QuietSecond(s2, 16);
    assert Expire(t2, 16) == t3;
    FirstFree(t3, 0);
    QuietReply(s3, b, newer, iface, 17);
    LookupAt(t4, 1, b);
    assert t4[0] == Entry(newer, b, 17, true);
  }

  lemma {:induction false} RunNext(s: State, events: seq<Event>, e: Event)
    ensures Run(s, events + [e]) == Step(Run(s, events), e)
  {
    hide Step;
    assert (events + [e])[..|events|] == events;
  }

  lemma {:induction false} FirstFree(table: seq<Entry>, k: nat)
    requires k < |table| && !table[k].valid && forall j :: 0 <= j < k ==> table[j].valid
    ensures FreeSlot(table) == k
  {
    if k > 0 {
      FirstFree(table[1..], k - 1);
    }
  }

  /** A reply that nobody waits for only enters its mapping. */
  lemma {:induction false} QuietReply(s: State, ip: Ip, mac: Mac, iface: string, now: int)
    requires s.queue == []
    ensures Step(s, Reply(ip, mac, iface, now)).queue == []
    ensures Step(s, Reply(ip, mac, iface, now)).table == Learn(s.table, mac, ip, now)
  {
  }

  lemma {:induction false} QuietSecond(s: State, now: int)
    requires s.queue == []
    ensures Step(s, Second(now)).queue == [] && Step(s, Second(now)).table == Expire(s.table, now)
  {
  }

  /** The state a run ends in, which satisfies the invariant. */
  lemma RunState(routes: seq<Route>, ifaces: seq<Interface>, now: int, events: seq<Event>) returns (s: State)
    requires Timely(now, events)
    ensures s == Run(Start(routes, ifaces, now), events) && Inv(s)
  {
    hide Inv;
    StartIsOk(routes, ifaces, now);
    RunKeepsInv(Start(routes, ifaces, now), events);
    s := Run(Start(routes, ifaces, now), events);
  }

  /** How a frame on the wire relates to the frame that arrived. */
  ghost predicate HopOf(original: seq<Byte>, wire: seq<Byte>)
    requires IsFrame(original)
  {
    && |wire| == |original|
    && original[TTL] >= 2 && wire[TTL] == original[TTL] - 1
    && (forall i :: 12 <= i < |wire| && i !in {TTL, 24, 25} ==> wire[i] == original[i])
    && Validates(Header(wire)) && ReceiverAccepts(Header(wire))
    && (var before := WordAt(Header(original), TTL_WORD);
        before >= 0x100 &&
        var update := Rfc1624(WordAt(Header(original), SUM), before, before - 0x100);
        WordAt(Header(wire), SUM) == if update == 0 then 0xffff else update)
  }

  /** Every frame transmitted, at once or after any stay on the queue, is one that was accepted, with its
      time to live one lower, a valid checksum equal to the RFC 1624 update, and nothing else changed but
      the two hosts. It is still alive, it goes to a hardware address learned for its destination, and it leaves
      by the interface of the next hop, with the address of that interface as its source. */
  lemma {:induction false} TransmissionsInEveryRun(routes: seq<Route>, ifaces: seq<Interface>, now: int,
                                                   events: seq<Event>, i: nat)
    requires Timely(now, events)
    requires var s := Run(Start(routes, ifaces, now), events); i < |s.out| && s.out[i].Transmit?
    ensures var s := Run(Start(routes, ifaces, now), events);
            var (original, wire) := (s.out[i].original, s.out[i].wire);
            && original in s.arrivals
            && IsFrame(original) && HopOf(original, wire)
            && Learned(s.insertions, Destination(original), wire[..6])
            && (var hop := NextHop(s, Destination(original));
                hop.Some? && s.out[i].iface == hop.value.name && wire[6..12] == hop.value.addr)
  {
    hide Step, Concluded, Waiting, Rewritten, Validates, ReceiverAccepts, Rfc1624, Cksum, WordAt;
    var s := RunState(routes, ifaces, now, events);
    var original, wire := s.out[i].original, s.out[i].wire;
    assert OutOk(s, s.out[i]);
    assert WireOk(s, original, wire, s.out[i].iface);
    FramesAreConserved(routes, ifaces, now, events);
    TransmittedIsConcluded(s.out, i);
    assert original in multiset(s.arrivals);
    RewrittenIsHop(original, wire[6..12], wire[..6]);
  }

  lemma RewrittenIsHop(b: seq<Byte>, source: Mac, dest: Mac)
    requires IsFrame(b) && b[TTL] >= 2 && Validates(Header(b))
    ensures HopOf(b, Rewritten(b, source, dest))
  {
    hide Rewritten, Validates, ReceiverAccepts, Rfc1624, Cksum;
    RewrittenChangesOnly(b, source, dest);
    RewrittenIsValid(b, source, dest);
    ValidatesExactly(Header(b));
  }

  lemma {:induction false} TransmittedIsConcluded(out: seq<Out>, i: nat)
    requires i < |out| && out[i].Transmit?
    ensures out[i].original in Concluded(out)
  {
    var n := |out| - 1;
    if i < n {
      TransmittedIsConcluded(out[..n], i);
    }
  }

  /** In every run at most five ARP requests are sent for a queued request, each more than a second after
      the one before; the queue has one request per address. */
  lemma {:induction false} RetriesInEveryRun(routes: seq<Route>, ifaces: seq<Interface>, now: int,
                                             events: seq<Event>, serial: nat)
    requires Timely(now, events)
    ensures var s := Run(Start(routes, ifaces, now), events);
            && |Sends(s.out, serial)| <= 5
            && (forall i :: 0 < i < |Sends(s.out, serial)| ==>
                  Sends(s.out, serial)[i] - Sends(s.out, serial)[i - 1] > 1)
            && DistinctIps(s.queue)
  {
    hide Step, Sends;
    var s := RunState(routes, ifaces, now, events);
    assert WithinBudget(Sends(s.out, serial));
  }

  /** In every run the frames that were to be forwarded - whole, with a valid header, not for the router itself -
      are exactly, counting repetitions, those transmitted, those answered with an ICMP error and those waiting. */
  lemma {:induction false} EveryFrameIsAccountedFor(routes: seq<Route>, ifaces: seq<Interface>, now: int,
                                                    events: seq<Event>)
    requires Timely(now, events)
    ensures var s := Run(Start(routes, ifaces, now), events);
            multiset(ToForward(ifaces, events)) == Concluded(s.out) + Waiting(s.queue)
  {
    hide Run, ToForward, Concluded, Waiting;
    FramesAreConserved(routes, ifaces, now, events);
    ArrivalsInEveryRun(Start(routes, ifaces, now), events);
    assert [] + ToForward(ifaces, events) == ToForward(ifaces, events);
  }

  /** Every ICMP error has its cause: a time-exceeded answers a frame with no hop left, and a
      host-unreachable one for which there is no route, or whose destination did not answer five ARP
      requests, and then it goes out by the interface of the route there. Every ARP request
      goes out towards the address it asks for. */
  lemma {:induction false} OutputsInEveryRun(routes: seq<Route>, ifaces: seq<Interface>, now: int,
                                             events: seq<Event>, i: nat)
    requires Timely(now, events)
    requires i < |Run(Start(routes, ifaces, now), events).out|
    ensures var s := Run(Start(routes, ifaces, now), events); OutOk(s, s.out[i])
  {
    hide Step, OutOk;
    var s := RunState(routes, ifaces, now, events);
  }

  // ---------- Where handle_arpreq departs from its documentation ----------

  /** The loop of handle_arpreq that should answer the packets of an exhausted request, as written: it
      answers the packet it stands on and does not move. */
  datatype AnswerLoop = AnswerLoop(position: nat, sent: seq<Out>)

  predicate LoopGuard(packets: seq<Packet>, at: AnswerLoop) {
    at.position + 1 < |packets|  // packets->next != NULL
  }

  function LoopBody(packets: seq<Packet>, iface: string, at: AnswerLoop): AnswerLoop
    requires LoopGuard(packets, at)
  {
    AnswerLoop(at.position, at.sent + [HostUnreachable(packets[at.position].bytes, iface)])
  }

  /** The loop after so many turns, or where it stopped before that. */
  function LoopAfter(packets: seq<Packet>, iface: string, turns: nat): AnswerLoop {
    if turns == 0 then AnswerLoop(0, [])
    else
      var at := LoopAfter(packets, iface, turns - 1);
      if LoopGuard(packets, at) then LoopBody(packets, iface, at) else at
  }

  /** Two or more packets: the loop never ends, and only ever answers the first. */
  lemma {:induction false} AnswerLoopSticks(packets: seq<Packet>, iface: string, turns: nat)
    requires |packets| >= 2
    ensures var at := LoopAfter(packets, iface, turns);
            && LoopGuard(packets, at) && at.position == 0 && |at.sent| == turns
            && forall i :: 0 <= i < turns ==> at.sent[i] == HostUnreachable(packets[0].bytes, iface)
  {
    if turns > 0 {
      AnswerLoopSticks(packets, iface, turns - 1);
    }
  }

  /** One packet or none: the loop ends at once and answers nobody. */
  lemma {:induction false} AnswerLoopSkips(packets: seq<Packet>, iface: string, turns: nat)
    requires |packets| <= 1
    ensures LoopAfter(packets, iface, turns) == AnswerLoop(0, [])
  {
    if turns > 0 {
      AnswerLoopSkips(packets, iface, turns - 1);
    }
  }

  /** After so many turns the loop has ended, with every waiting packet answered once, in order. */
  predicate AnswersAll(packets: seq<Packet>, iface: string, turns: nat) {
    var at := LoopAfter(packets, iface, turns);
    !LoopGuard(packets, at) && at.sent == Unreachable(packets, iface)
  }

  /** The loop as written does that exactly when no packet was waiting. */
  lemma AnswerLoopMeetsProtocolExactly(packets: seq<Packet>, iface: string)
    ensures (exists turns: nat :: AnswersAll(packets, iface, turns)) <==> packets == []
  {
    forall turns: nat | AnswersAll(packets, iface, turns)
      ensures packets == []
    {
      if |packets| >= 2 {
        AnswerLoopSticks(packets, iface, turns);
      } else {
        AnswerLoopSkips(packets, iface, turns);
      }
    }
    if packets == [] {
      assert AnswersAll(packets, iface, 0);
    }
  }

  // ---------- Where sr_arpcache_sweepreqs departs from its documentation ----------

  /** What handling a request sends if an ARP request goes out by the route to via instead of its own. */
  function RetryOutVia(s: State, r: Request, via: Ip, now: int): (out: seq<Out>)
    ensures |out| == |RetryOut(s, r, now)|
  {
    if IsResent(r, now) then [ArpRequest(r.serial, r.ip, HopName(s, via), now)] else RetryOut(s, r, now)
  }

  predicate IsResent(r: Request, now: int) {
    Due(r, now) && r.timesSent < 5
  }

  /** The loop of sr_arpcache_sweepreqs as written, after i requests: the route of the first request serves for
      all, and the way to the next request is read off the one that was handled before it. If handling
      destroyed that one, the loop has lost its way. Each handling is the documented one. */
  function WrittenSweep(s: State, i: nat, now: int): (r: Option<State>)
    requires i <= |s.queue|
    ensures r.Some? && (i == 0 || !Exhausted(s.queue[i - 1], now)) ==> |r.value.queue| == |s.queue|
  {
    if i == 0 then Some(s)
    else if i > 1 && Exhausted(s.queue[i - 2], now) then None
    else
      match WrittenSweep(s, i - 1, now)
      case None => None
      case Some(t) =>
        var r := s.queue[i - 1];
        Some(t.(queue := if Exhausted(r, now) then Remove(t.queue, i - 1) else t.queue[i - 1 := Retried(r, now)],
                out := t.out + RetryOutVia(s, r, s.queue[0].ip, now)))
  }

  /** No request is destroyed while another is still to come. */
  ghost predicate NoneLost(queue: seq<Request>, i: nat, now: int)
    requires i <= |queue|
  {
    forall j :: 0 <= j < i - 1 ==> !Exhausted(queue[j], now)
  }

  function SweepOutVia(s: State, queue: seq<Request>, via: Ip, now: int): seq<Out> {
    if queue == [] then []
    else
      var n := |queue| - 1;
      SweepOutVia(s, queue[..n], via, now) + RetryOutVia(s, queue[n], via, now)
  }

  /** As long as none was lost, the loop differs from the documented sweep in what it sends at most. */
  lemma {:induction false} WrittenSweepGoes(s: State, i: nat, now: int)
    requires i <= |s.queue|
    ensures WrittenSweep(s, i, now) == if !NoneLost(s.queue, i, now) then None
            else if i == 0 then Some(s)
            else Some(SweepTo(s, i, now).(out := s.out + SweepOutVia(s, s.queue[..i], s.queue[0].ip, now)))
  {
    hide Exhausted, Retried, RetryOutVia, SweepTo, SweepOutVia, RetryOut, Remove, Kept, NoneLost;
    if i > 0 {
      WrittenSweepGoes(s, i - 1, now);
      LostBefore(s.queue, i, now);
      if NoneLost(s.queue, i, now) {
        AllKept(s.queue, i, now);
        SweepStep(s, i - 1, now);
        SweepEnds(s, now);
        OneMoreVia(s, i - 1, s.queue[0].ip, now);
        var before := SweepOutVia(s, s.queue[..i - 1], s.queue[0].ip, now);
        var last := RetryOutVia(s, s.queue[i - 1], s.queue[0].ip, now);
        assert s.out + before + last == s.out + (before + last);
        assert [] + last == last;
      }
    } else {
      NothingLost(s.queue, now);
    }
  }

  lemma NothingLost(queue: seq<Request>, now: int)
    ensures NoneLost(queue, 0, now)
  {
  }

  lemma {:induction false} OneMoreVia(s: State, i: nat, via: Ip, now: int)
    requires i < |s.queue|
    ensures i == 0 ==> SweepOutVia(s, s.queue[..i], via, now) == []
    ensures SweepOutVia(s, s.queue[..i + 1], via, now)
         == SweepOutVia(s, s.queue[..i], via, now) + RetryOutVia(s, s.queue[i], via, now)
  {
    hide RetryOutVia;
    assert s.queue[..i + 1][..i] == s.queue[..i];
  }

  lemma LostBefore(queue: seq<Request>, i: nat, now: int)
    requires 0 < i <= |queue|
    ensures NoneLost(queue, i, now) <==> NoneLost(queue, i - 1, now) && (i > 1 ==> !Exhausted(queue[i - 2], now))
  {
  }

  lemma {:induction false} AllKept(queue: seq<Request>, i: nat, now: int)
    requires 0 < i <= |queue| && NoneLost(queue, i, now)
    ensures |Kept(queue[..i - 1], now)| == i - 1
  {
    hide Exhausted, Retried;
    if i > 1 {
      AllKept(queue, i - 1, now);
      assert queue[..i - 1][..i - 2] == queue[..i - 2];
    }
  }

  /** What is sent is the same exactly if each request that is sent again has the interface of the route used. */
  lemma {:induction false} SameOutExactly(s: State, queue: seq<Request>, via: Ip, now: int)
    ensures |SweepOutVia(s, queue, via, now)| == |SweepOut(s, queue, now)|
    ensures SweepOutVia(s, queue, via, now) == SweepOut(s, queue, now)
       <==> forall i :: 0 <= i < |queue| && IsResent(queue[i], now) ==> HopName(s, queue[i].ip) == HopName(s, via)
  {
    hide HopName, RetryOut, RetryOutVia, IsResent;
    if queue != [] {
      var n := |queue| - 1;
      SameOutExactly(s, queue[..n], via, now);
      SameRetryExactly(s, queue[n], via, now);
      SameParts(SweepOutVia(s, queue[..n], via, now), RetryOutVia(s, queue[n], via, now),
                SweepOut(s, queue[..n], now), RetryOut(s, queue[n], now));
      assert forall i :: 0 <= i < n ==> queue[..n][i] == queue[i];
    }
  }

  lemma SameRetryExactly(s: State, r: Request, via: Ip, now: int)
    ensures RetryOutVia(s, r, via, now) == RetryOut(s, r, now)
       <==> (IsResent(r, now) ==> HopName(s, r.ip) == HopName(s, via))
  {
    hide HopName;
    if IsResent(r, now) {
      assert RetryOutVia(s, r, via, now)[0].iface == HopName(s, via);
      assert RetryOut(s, r, now)[0].iface == HopName(s, r.ip);
    }
  }

  lemma SameParts(a: seq<Out>, b: seq<Out>, c: seq<Out>, d: seq<Out>)
    requires |a| == |c|
    ensures a + b == c + d <==> a == c && b == d
  {
    if a + b == c + d {
      assert a == (a + b)[..|a|] && b == (a + b)[|a|..];
    }
  }

  /** The sweep as written is the documented sweep exactly if only the last request, if any, is exhausted, and
      every request that is sent again is reached by the interface that the first one is reached by. */
  lemma {:induction false} WrittenSweepMeetsProtocolExactly(s: State, now: int)
    ensures var q := s.queue;
            WrittenSweep(s, |q|, now) == Some(Sweep(s, now))
            <==>
            && (forall i :: 0 <= i < |q| - 1 ==> !Exhausted(q[i], now))
            && (forall i :: 0 <= i < |q| && IsResent(q[i], now) ==> HopName(s, q[i].ip) == HopName(s, q[0].ip))
  {
    hide Exhausted, IsResent, HopName, Kept, SweepOut, SweepOutVia;
    var q := s.queue;
    WrittenSweepGoes(s, |q|, now);
    SweepEnds(s, now);
    assert q[..|q|] == q;
    if q != [] {
      var via := SweepOutVia(s, q, q[0].ip, now);
      SameOutExactly(s, q, q[0].ip, now);
      SameParts(s.out, via, s.out, SweepOut(s, q, now));
    }
  }
}
