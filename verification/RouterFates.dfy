/** How a request leaves the queue, and that it does. */
module RouterFates {
  import opened Wrappers
  import opened Bytes
  import opened ChecksumProofs
  import opened IpFrame
  import opened Topology
  import opened ArpTable
  import opened ArpQueue
  import opened RouterSpec
  import opened RouterInvariants

  predicate Queued(queue: seq<Request>, serial: nat) {
    exists i :: 0 <= i < |queue| && queue[i].serial == serial
  }

  /** From the i-th output on, each of the packets is answered with a host-unreachable, in order. */
  predicate AnswersAt(out: seq<Out>, i: nat, packets: seq<Packet>, iface: string) {
    i + |packets| <= |out| && out[i..i + |packets|] == Unreachable(packets, iface)
  }

  /** What was sent after before has one stretch that answers each of the packets. */
  ghost predicate Answered(before: seq<Out>, after: seq<Out>, packets: seq<Packet>, iface: string) {
    before <= after && exists i: nat :: |before| <= i && AnswersAt(after, i, packets, iface)
  }

  /** Between the two states the request went, and each packet that waited in the first was answered. */
  ghost predicate Ended(s: State, t: State, r: Request) {
    !Queued(t.queue, r.serial) && Answered(s.out, t.out, r.packets, RouteName(s, r.ip))
  }

  /** The packets of a request, with others that came later in front of them. */
  predicate HasPacketsOf(later: Request, r: Request) {
    |r.packets| <= |later.packets| && later.packets[|later.packets| - |r.packets|..] == r.packets
  }

  /** The request after a step: sent once more, or not. */
  predicate Follows(later: Request, r: Request, now: int) {
    && later.serial == r.serial && later.ip == r.ip && HasPacketsOf(later, r)
    && (later.timesSent, later.sent) in {(r.timesSent, r.sent), (r.timesSent + 1, now)}
  }

  ghost predicate Remains(t: State, r: Request, now: int) {
    exists i :: 0 <= i < |t.queue| && Follows(t.queue[i], r, now)
  }

  lemma RemainsAt(t: State, i: nat, r: Request, now: int)
    requires i < |t.queue| && Follows(t.queue[i], r, now)
    ensures Remains(t, r, now)
  {
  }

  lemma RemainsAsItIs(t: State, r: Request, now: int)
    requires r in t.queue
    ensures Remains(t, r, now)
  {
    var i :| 0 <= i < |t.queue| && t.queue[i] == r;
    RemainsAt(t, i, r, now);
  }

  // ---------- Answers ----------

  lemma AnswersLater(first: seq<Out>, out: seq<Out>, i: nat, packets: seq<Packet>, iface: string)
    requires AnswersAt(out, i, packets, iface)
    ensures AnswersAt(first + out, |first| + i, packets, iface)
  {
    assert (first + out)[|first| + i..|first| + i + |packets|] == out[i..i + |packets|];
  }

  lemma AnswersBefore(out: seq<Out>, i: nat, packets: seq<Packet>, iface: string, more: seq<Out>)
    requires AnswersAt(out, i, packets, iface)
    ensures AnswersAt(out + more, i, packets, iface)
  {
    assert (out + more)[i..i + |packets|] == out[i..i + |packets|];
  }

  /** Answering a request answers the packets it had earlier. */
  lemma AnsweredForEarlier(before: seq<Out>, after: seq<Out>, later: Request, r: Request, iface: string)
    requires HasPacketsOf(later, r) && Answered(before, after, later.packets, iface)
    ensures Answered(before, after, r.packets, iface)
  {
    var i: nat :| |before| <= i && AnswersAt(after, i, later.packets, iface);
    var d := |later.packets| - |r.packets|;
    assert after[i + d..i + d + |r.packets|] == Unreachable(later.packets, iface)[d..];
    assert Unreachable(later.packets, iface)[d..] == Unreachable(r.packets, iface) by {
      assert forall j :: 0 <= j < |r.packets| ==> later.packets[d + j] == r.packets[j];
    }
    assert AnswersAt(after, i + d, r.packets, iface);
  }

  // ---------- Handling a request ----------

  /** Handling a request: it stays, or it was exhausted, goes, and each of its packets is answered. */
  lemma RetryFate(s: State, k: nat, now: int)
    requires DistinctSerials(s.queue, s.nextSerial) && k < |s.queue|
    ensures var t, r := Retry(s, k, now), s.queue[k];
            if Exhausted(r, now) then Ended(s, t, r) else k < |t.queue| && t.queue[k] == Retried(r, now)
  {
    hide NextHop, FindRoute;
    var t, r := Retry(s, k, now), s.queue[k];
    if Exhausted(r, now) {
      forall i | 0 <= i < |t.queue| ensures t.queue[i].serial != r.serial {
        assert t.queue[i] == s.queue[if i < k then i else i + 1];
      }
      assert t.out[|s.out|..|s.out| + |r.packets|] == Unreachable(r.packets, RouteName(s, r.ip));
      assert AnswersAt(t.out, |s.out|, r.packets, RouteName(s, r.ip));
    }
  }

  /** An exhausted request was sent exactly five times; handling it removes it, leaves the others alone and
      answers each of its packets once, in order. */
  lemma ExhaustionIsFinal(s: State, k: nat, now: int)
    requires Inv(s) && k < |s.queue| && Exhausted(s.queue[k], now)
    ensures |Sends(s.out, s.queue[k].serial)| == 5
    ensures !Queued(Retry(s, k, now).queue, s.queue[k].serial)
    ensures Retry(s, k, now).queue == Remove(s.queue, k)
    ensures Retry(s, k, now).out == s.out + Unreachable(s.queue[k].packets, RouteName(s, s.queue[k].ip))
  {
    hide Sends, Faithful, OutputsOk, Queued, Answered, RouteName, NextHop;
    var serial := s.queue[k].serial;
    assert Remembers(s.queue[k], Sends(s.out, serial));
    assert WithinBudget(Sends(s.out, serial));
    RetryFate(s, k, now);
  }

  // ---------- One step ----------

  /** Forwarding a frame for another address leaves a request as it is. */
  lemma ForwardLeaves(s: State, bytes: seq<Byte>, iface: string, now: int, r: Request)
    requires r in s.queue && IsFrame(bytes) && Destination(bytes) != r.ip
    ensures r in Forward(s, bytes, iface, now).queue
  {
    hide Rewritten, Lookup, NextHop, RetryOut;
    var ip := Destination(bytes);
    var i :| 0 <= i < |s.queue| && s.queue[i] == r;
    if bytes[TTL] > 1 && NextHop(s, ip).Some? && Lookup(s.table, ip) == None {
      var t := Park(s, bytes, iface);
      ParkedIsFound(s, bytes, iface);
      var j := if Find(s.queue, ip) < |s.queue| then i else i + 1;
      assert t.queue[j] == r;
      RetryLeaves(t, Find(t.queue, ip), now, j);
    }
  }

  lemma RetryLeaves(s: State, k: nat, now: int, i: nat)
    requires k < |s.queue| && i < |s.queue| && i != k
    ensures s.queue[i] in Retry(s, k, now).queue
  {
    hide RetryOut;
    var t := Retry(s, k, now);
    if Exhausted(s.queue[k], now) {
      assert t.queue[if i < k then i else i - 1] == s.queue[i];
    } else {
      assert t.queue[i] == s.queue[i];
    }
  }

  lemma {:induction false} ForwardAllLeaves(s: State, packets: seq<Packet>, ip: Ip, iface: string, now: int, r: Request)
    requires r in s.queue && ip != r.ip
    requires forall i :: 0 <= i < |packets| ==> Parkable(packets[i].bytes, ip)
    ensures r in ForwardAll(s, packets, iface, now).queue
  {
    hide Forward, Validates;
    if packets != [] {
      var n := |packets| - 1;
      ForwardAllLeaves(s, packets[..n], ip, iface, now, r);
      ForwardLeaves(ForwardAll(s, packets[..n], iface, now), packets[n].bytes, iface, now, r);
    }
  }

  /** Forwarding a frame for the address of a request: the request stays, or is exhausted and ends. */
  lemma ForwardFate(s: State, bytes: seq<Byte>, iface: string, now: int, i: nat)
    requires DistinctIps(s.queue) && DistinctSerials(s.queue, s.nextSerial)
    requires i < |s.queue| && IsFrame(bytes) && Destination(bytes) == s.queue[i].ip
    ensures var t, r := Forward(s, bytes, iface, now), s.queue[i];
            Remains(t, r, now) || (Exhausted(r, now) && Ended(s, t, r))
  {
    hide Rewritten, Lookup, NextHop, FindRoute, Retry, Remains, Queued, Answered, DistinctIps, DistinctSerials;
    var ip, r := Destination(bytes), s.queue[i];
    if bytes[TTL] > 1 && NextHop(s, ip).Some? && Lookup(s.table, ip) == None {
      var t, p := Park(s, bytes, iface), Packet(bytes, iface);
      FindAt(s.queue, i);
      EnqueueKeepsDistinct(s.queue, ip, p, s.nextSerial);
      assert t.queue[i] == r.(packets := [p] + r.packets);
      FindAt(t.queue, i);
      RetryFate(t, i, now);
      if Exhausted(r, now) {
        AnsweredForEarlier(s.out, Retry(t, i, now).out, t.queue[i], r, RouteName(s, ip));
      } else {
        RemainsAt(Retry(t, i, now), i, r, now);
      }
    } else {
      RemainsAsItIs(Forward(s, bytes, iface, now), r, now);
    }
  }

  lemma {:induction false} SweepFate(s: State, queue: seq<Request>, now: int, i: nat)
    requires i < |queue|
    ensures var r := queue[i];
            if Exhausted(r, now)
            then exists j: nat :: AnswersAt(SweepOut(s, queue, now), j, r.packets, RouteName(s, r.ip))
            else Retried(r, now) in Kept(queue, now)
  {
    hide FindRoute, NextHop, RouteName, AnswersAt, Unreachable, Exhausted;
    var n, r := |queue| - 1, queue[i];
    var before, last := SweepOut(s, queue[..n], now), RetryOut(s, queue[n], now);
    assert SweepOut(s, queue, now) == before + last;
    if i < n {
      SweepFate(s, queue[..n], now, i);
      if Exhausted(r, now) {
        var j: nat :| AnswersAt(before, j, r.packets, RouteName(s, r.ip));
        AnswersBefore(before, j, r.packets, RouteName(s, r.ip), last);
      }
    } else if Exhausted(r, now) {
      ExhaustedAnswers(s, r, now);
      AnswersLater(before, last, 0, r.packets, RouteName(s, r.ip));
    }
  }

  lemma ExhaustedAnswers(s: State, r: Request, now: int)
    requires Exhausted(r, now)
    ensures AnswersAt(RetryOut(s, r, now), 0, r.packets, RouteName(s, r.ip))
  {
  }

  lemma {:induction false} KeptComesFrom(queue: seq<Request>, now: int, j: nat)
    requires j < |Kept(queue, now)|
    ensures exists i :: 0 <= i < |queue| && !Exhausted(queue[i], now) && Kept(queue, now)[j] == Retried(queue[i], now)
  {
    var n := |queue| - 1;
    if j < |Kept(queue[..n], now)| {
      KeptComesFrom(queue[..n], now, j);
      var i :| 0 <= i < n && !Exhausted(queue[..n][i], now) && Kept(queue[..n], now)[j] == Retried(queue[..n][i], now);
      assert queue[i] == queue[..n][i];
    } else {
      assert Kept(queue, now)[j] == Retried(queue[n], now);
    }
  }

  /** A sweep drops an exhausted request. */
  lemma {:induction false} KeptDrops(queue: seq<Request>, next: nat, now: int, i: nat)
    requires DistinctSerials(queue, next) && i < |queue| && Exhausted(queue[i], now)
    ensures !Queued(Kept(queue, now), queue[i].serial)
  {
    hide Kept, Exhausted;
    var q := Kept(queue, now);
    forall j | 0 <= j < |q| ensures q[j].serial != queue[i].serial {
      KeptComesFrom(queue, now, j);
      var k :| 0 <= k < |queue| && !Exhausted(queue[k], now) && q[j] == Retried(queue[k], now);
      assert k != i;
    }
  }

  /** A turn of the timeout thread ends an exhausted request, and otherwise sends it again if it is due. */
  lemma TickFate(s: State, now: int, i: nat)
    requires DistinctSerials(s.queue, s.nextSerial) && i < |s.queue|
    ensures var t, r := Tick(s, now), s.queue[i];
            if Exhausted(r, now) then Ended(s, t, r) else Retried(r, now) in t.queue
  {
    hide FindRoute, NextHop, Kept, SweepOut, Expire, Queued, AnswersAt, DistinctSerials;
    var r, u := s.queue[i], ExpiryPass(s, now);
    SweepFate(u, u.queue, now, i);
    if Exhausted(r, now) {
      KeptDrops(u.queue, s.nextSerial, now, i);
      var j: nat :| AnswersAt(SweepOut(u, u.queue, now), j, r.packets, RouteName(s, r.ip));
      AnswersLater(u.out, SweepOut(u, u.queue, now), j, r.packets, RouteName(s, r.ip));
    }
  }

  lemma FrameInFate(s: State, bytes: seq<Byte>, iface: string, now: int, i: nat)
    requires DistinctIps(s.queue) && DistinctSerials(s.queue, s.nextSerial) && i < |s.queue|
    ensures var t, r := FrameIn(s, bytes, iface, now), s.queue[i];
            Remains(t, r, now) || (Exhausted(r, now) && Ended(s, t, r))
  {
    hide Validates, Forward, NextHop, FindRoute, Remains, Queued, Answered, DistinctIps, DistinctSerials;
    var r, u := s.queue[i], s.(clock := now, arrivals := s.arrivals + [bytes]);
    if IsFrame(bytes) && Validates(Header(bytes)) && FindByIp(s.ifaces, Destination(bytes)) == None {
      if Destination(bytes) == r.ip {
        ForwardFate(u, bytes, iface, now, i);
      } else {
        ForwardLeaves(u, bytes, iface, now, r);
        RemainsAsItIs(Forward(u, bytes, iface, now), r, now);
      }
    } else {
      RemainsAsItIs(FrameIn(s, bytes, iface, now), r, now);
    }
  }

  lemma InsertLeaves(s: State, ip: Ip, mac: Mac, now: int, i: nat)
    requires i < |s.queue| && ip != s.queue[i].ip
    ensures s.queue[i] in Insert(s, ip, mac, now).queue
  {
    hide Learn, Logged;
    var k, t := Find(s.queue, ip), Insert(s, ip, mac, now);
    assert t.queue[if k < i then i - 1 else i] == s.queue[i];
  }

  lemma RetriedFollows(r: Request, now: int)
    ensures Follows(Retried(r, now), r, now)
  {
  }

  /** A request leaves the queue in one of two ways: its reply came, or after exactly five ARP requests this
      step sends a host-unreachable for each packet waiting on it. */
  lemma StepFate(s: State, e: Event, i: nat)
    requires Inv(s) && i < |s.queue|
    ensures var t, r := Step(s, e), s.queue[i];
            || Remains(t, r, e.at)
            || (e.Reply? && e.ip == r.ip)
            || (|Sends(s.out, r.serial)| == 5 && Ended(s, t, r))
  {
    hide Inv, Ended, Remains, Follows, Retried, FrameIn, Tick, Insert, ForwardAll, Sends, Queued, Parkable;
    var r := s.queue[i];
    QueueIsDistinct(s);
    if Exhausted(r, e.at) {
      ExhaustionIsFinal(s, i, e.at);
    }
    match e
    case Frame(bytes, iface, at) => FrameInFate(s, bytes, iface, at, i);
    case Reply(ip, mac, iface, at) =>
      if ip != r.ip {
        InsertLeaves(s, ip, mac, at, i);
        WaitingIsParkable(s, ip);
        ForwardAllLeaves(Insert(s, ip, mac, at), WaitingFor(s, ip), ip, iface, at, r);
        RemainsAsItIs(ReplyIn(s, ip, mac, iface, at), r, at);
      }
    case Second(at) =>
      TickFate(s, at, i);
      if !Exhausted(r, at) {
        var t := Tick(s, at);
        var j :| 0 <= j < |t.queue| && t.queue[j] == Retried(r, at);
        RetriedFollows(r, at);
        RemainsAt(t, j, r, at);
      }
  }

  lemma QueueIsDistinct(s: State)
    requires Inv(s)
    ensures DistinctIps(s.queue) && DistinctSerials(s.queue, s.nextSerial)
  {
  }

  // ---------- What has ended does not come back ----------

  /** Output is only added, and a serial number that was handed out and is not on the queue stays off it. */
  ghost predicate Grown(s: State, t: State) {
    && s.out <= t.out && s.nextSerial <= t.nextSerial
    && forall serial: nat :: serial < s.nextSerial && Queued(t.queue, serial) ==> Queued(s.queue, serial)
  }

  lemma GrownTwice(s: State, t: State, u: State)
    requires Grown(s, t) && Grown(t, u)
    ensures Grown(s, u)
  {
    hide Queued;
  }

  lemma RetryGrows(s: State, k: nat, now: int)
    requires k < |s.queue|
    ensures Grown(s, Retry(s, k, now))
  {
    hide RetryOut;
    var t := Retry(s, k, now);
    forall serial: nat | Queued(t.queue, serial) ensures Queued(s.queue, serial) {
      var i :| 0 <= i < |t.queue| && t.queue[i].serial == serial;
      var j := if Exhausted(s.queue[k], now) && i >= k then i + 1 else i;
      assert s.queue[j].serial == serial;
    }
  }

  lemma ParkGrows(s: State, bytes: seq<Byte>, iface: string)
    requires IsFrame(bytes)
    ensures Grown(s, Park(s, bytes, iface))
  {
    var t, k := Park(s, bytes, iface), Find(s.queue, Destination(bytes));
    forall serial: nat | serial < s.nextSerial && Queued(t.queue, serial) ensures Queued(s.queue, serial) {
      var i :| 0 <= i < |t.queue| && t.queue[i].serial == serial;
      assert s.queue[if k < |s.queue| then i else i - 1].serial == serial;
    }
  }

  lemma ForwardGrows(s: State, bytes: seq<Byte>, iface: string, now: int)
    ensures Grown(s, Forward(s, bytes, iface, now))
  {
    hide Queued, Rewritten, Lookup, NextHop, Retry;
    if IsFrame(bytes) {
      var t := Park(s, bytes, iface);
      ParkGrows(s, bytes, iface);
      ParkedIsFound(s, bytes, iface);
      RetryGrows(t, Find(t.queue, Destination(bytes)), now);
      GrownTwice(s, t, Retry(t, Find(t.queue, Destination(bytes)), now));
    }
  }

  lemma {:induction false} ForwardAllGrows(s: State, packets: seq<Packet>, iface: string, now: int)
    ensures Grown(s, ForwardAll(s, packets, iface, now))
  {
    hide Queued, Forward;
    if packets != [] {
      var n := |packets| - 1;
      var t := ForwardAll(s, packets[..n], iface, now);
      ForwardAllGrows(s, packets[..n], iface, now);
      ForwardGrows(t, packets[n].bytes, iface, now);
      GrownTwice(s, t, Forward(t, packets[n].bytes, iface, now));
    }
  }

  lemma InsertGrows(s: State, ip: Ip, mac: Mac, now: int)
    ensures Grown(s, Insert(s, ip, mac, now))
  {
    hide Learn, Logged;
    var t, k := Insert(s, ip, mac, now), Find(s.queue, ip);
    forall serial: nat | Queued(t.queue, serial) ensures Queued(s.queue, serial) {
      var i :| 0 <= i < |t.queue| && t.queue[i].serial == serial;
      assert s.queue[if i < k then i else i + 1].serial == serial || k == |s.queue|;
    }
  }

  lemma TickGrows(s: State, now: int)
    ensures Grown(s, Tick(s, now))
  {
    hide Kept, SweepOut, Expire, Exhausted;
    var t := Tick(s, now);
    forall serial: nat | Queued(t.queue, serial) ensures Queued(s.queue, serial) {
      var j :| 0 <= j < |t.queue| && t.queue[j].serial == serial;
      KeptComesFrom(s.queue, now, j);
      var i :| 0 <= i < |s.queue| && !Exhausted(s.queue[i], now) && t.queue[j] == Retried(s.queue[i], now);
      assert s.queue[i].serial == serial;
    }
  }

  lemma StepGrows(s: State, e: Event)
    ensures Grown(s, Step(s, e))
  {
    hide Queued, Forward, ForwardAll, Tick, Insert, Validates;
    match e
    case Frame(bytes, iface, at) =>
      ForwardGrows(s.(clock := at, arrivals := s.arrivals + [bytes]), bytes, iface, at);
    case Reply(ip, mac, iface, at) =>
      var t := Insert(s, ip, mac, at);
      InsertGrows(s, ip, mac, at);
      ForwardAllGrows(t, WaitingFor(s, ip), iface, at);
      GrownTwice(s, t, ForwardAll(t, WaitingFor(s, ip), iface, at));
    case Second(at) => TickGrows(s, at);
  }

  lemma EndedForGood(s: State, t: State, u: State, r: Request)
    requires Ended(s, t, r) && Grown(t, u) && r.serial < t.nextSerial
    ensures Ended(s, u, r)
  {
    hide Queued, AnswersAt;
    var i: nat :| |s.out| <= i && AnswersAt(t.out, i, r.packets, RouteName(s, r.ip));
    AnswersBefore(t.out, i, r.packets, RouteName(s, r.ip), u.out[|t.out|..]);
    assert t.out + u.out[|t.out|..] == u.out;
  }

  lemma EndedLater(s: State, t: State, u: State, later: Request, r: Request)
    requires Grown(s, t) && Ended(t, u, later) && t.routes == s.routes
    requires later.serial == r.serial && later.ip == r.ip && HasPacketsOf(later, r)
    ensures Ended(s, u, r)
  {
    hide Queued, AnswersAt, HasPacketsOf, FindRoute;
    AnsweredForEarlier(t.out, u.out, later, r, RouteName(s, r.ip));
  }

  // ---------- Requests do not wait for ever ----------

  ghost predicate Unanswered(ip: Ip, events: seq<Event>) {
    forall i :: 0 <= i < |events| ==> !(events[i].Reply? && events[i].ip == ip)
  }

  /** Turns of the timeout thread among the events, by position: the first more than a second after the
      request was last sent, each more than a second after the one before. */
  ghost predicate Sweeps(r: Request, events: seq<Event>, sweeps: seq<nat>) {
    forall k :: 0 <= k < |sweeps| ==> SweepAt(r, events, sweeps, k)
  }

  predicate SweepAt(r: Request, events: seq<Event>, sweeps: seq<nat>, k: nat)
    requires k < |sweeps|
  {
    && sweeps[k] < |events| && events[sweeps[k]].Second?
    && if k == 0 then events[sweeps[0]].at - r.sent > 1
       else sweeps[k - 1] < sweeps[k] && events[sweeps[k]].at - events[sweeps[k - 1]].at > 1
  }

  lemma {:induction false} SweepsIncrease(r: Request, events: seq<Event>, sweeps: seq<nat>, j: nat, k: nat)
    requires Sweeps(r, events, sweeps) && j < k < |sweeps|
    ensures sweeps[j] < sweeps[k]
  {
    assert SweepAt(r, events, sweeps, k);
    if j < k - 1 {
      SweepsIncrease(r, events, sweeps, j, k - 1);
    }
  }

  function LastSweep(r: Request, events: seq<Event>, sweeps: seq<nat>): int {
    if sweeps == [] || sweeps[|sweeps| - 1] >= |events| then r.sent else events[sweeps[|sweeps| - 1]].at
  }

  /** A request some sweeps later: sent at least once for each, and if not more often then not since the
      last of them. */
  predicate Pressed(later: Request, r: Request, sweeps: nat, last: int, clock: int) {
    && later.serial == r.serial && later.ip == r.ip && HasPacketsOf(later, r)
    && later.timesSent >= r.timesSent + sweeps
    && (later.timesSent == r.timesSent + sweeps ==> later.sent <= last)
    && r.sent <= last && (later.sent <= clock || later.sent == r.sent)
  }

  lemma StaysPressed(next: Request, later: Request, r: Request, sweeps: nat, last: int, clock: int, now: int)
    requires Pressed(later, r, sweeps, last, clock) && Follows(next, later, now) && clock <= now
    ensures Pressed(next, r, sweeps, last, now)
  {
    FollowedPackets(next, later, r);
  }

  lemma FollowedPackets(next: Request, later: Request, r: Request)
    requires HasPacketsOf(next, later) && HasPacketsOf(later, r)
    ensures HasPacketsOf(next, r)
  {
    var d := |next.packets| - |later.packets|;
    assert next.packets[d..][|later.packets| - |r.packets|..] == next.packets[|next.packets| - |r.packets|..];
  }

  /** One more sweep: if the request was not due, it had been sent since the sweep before. */
  lemma PressedMore(later: Request, r: Request, sweeps: nat, last: int, clock: int, now: int)
    requires Pressed(later, r, sweeps, last, clock) && clock <= now && now - last > 1
    ensures Pressed(Retried(later, now), r, sweeps + 1, now, now)
  {
  }

  /** The sweeps before the last event. */
  function Earlier(events: seq<Event>, sweeps: seq<nat>): seq<nat> {
    if sweeps != [] && sweeps[|sweeps| - 1] == |events| - 1 then sweeps[..|sweeps| - 1] else sweeps
  }

  lemma EarlierSweeps(r: Request, events: seq<Event>, sweeps: seq<nat>)
    requires events != [] && Sweeps(r, events, sweeps)
    ensures Sweeps(r, events[..|events| - 1], Earlier(events, sweeps))
  {
    var n, before, earlier := |events| - 1, events[..|events| - 1], Earlier(events, sweeps);
    forall k | 0 <= k < |earlier| ensures SweepAt(r, before, earlier, k) {
      assert SweepAt(r, events, sweeps, k);
      if k < |sweeps| - 1 {
        SweepsIncrease(r, events, sweeps, k, |sweeps| - 1);
        assert SweepAt(r, events, sweeps, |sweeps| - 1);
      }
      assert sweeps[k] < n && earlier[k] == sweeps[k];
    }
  }

  /** The last event counts as a sweep, or the last sweep was before it. */
  lemma LastSweepOf(r: Request, events: seq<Event>, sweeps: seq<nat>)
    requires events != [] && Sweeps(r, events, sweeps)
    ensures var last, before := events[|events| - 1], LastSweep(r, events[..|events| - 1], Earlier(events, sweeps));
            if Earlier(events, sweeps) == sweeps then LastSweep(r, events, sweeps) == before
            else && |sweeps| == |Earlier(events, sweeps)| + 1
                 && last.Second? && LastSweep(r, events, sweeps) == last.at && last.at - before > 1
  {
    if sweeps != [] {
      assert SweepAt(r, events, sweeps, |sweeps| - 1);
    }
  }

  /** Where a request is after a run with so many sweeps. */
  ghost predicate Fate(s: State, t: State, r: Request, sweeps: nat, last: int) {
    Ended(s, t, r) || exists i :: 0 <= i < |t.queue| && Pressed(t.queue[i], r, sweeps, last, t.clock)
  }

  /** One more event, on a request that is still waiting. */
  lemma FateOfOneMore(s: State, t: State, i: nat, r: Request, e: Event, sweeps: nat, last: int)
    requires Inv(t) && t.clock <= e.at && Grown(s, t) && t.routes == s.routes
    requires i < |t.queue| && Pressed(t.queue[i], r, sweeps, last, t.clock)
    requires !(e.Reply? && e.ip == r.ip)
    ensures Fate(s, Step(t, e), r, sweeps, last)
  {
    hide Inv, Step, Grown, Ended, Pressed, Follows, Sends;
    var u, later := Step(t, e), t.queue[i];
    PressedIsSame(later, r, sweeps, last, t.clock);
    StepFate(t, e, i);
    StepClock(t, e);
    if Remains(u, later, e.at) {
      var j :| 0 <= j < |u.queue| && Follows(u.queue[j], later, e.at);
      StaysPressed(u.queue[j], later, r, sweeps, last, t.clock, e.at);
    } else {
      EndedLater(s, t, u, later, r);
    }
  }

  lemma PressedIsSame(later: Request, r: Request, sweeps: nat, last: int, clock: int)
    requires Pressed(later, r, sweeps, last, clock)
    ensures later.serial == r.serial && later.ip == r.ip && HasPacketsOf(later, r)
  {
  }

  /** One more sweep, counted. */
  lemma FateOfSweep(s: State, t: State, i: nat, r: Request, now: int, sweeps: nat, last: int)
    requires Inv(t) && t.clock <= now && Grown(s, t) && t.routes == s.routes
    requires i < |t.queue| && Pressed(t.queue[i], r, sweeps, last, t.clock) && now - last > 1
    ensures Fate(s, Tick(t, now), r, sweeps + 1, now)
  {
    hide Inv, Grown, Ended, Pressed, Kept, SweepOut, Expire, Retried, Exhausted;
    var u, later := Tick(t, now), t.queue[i];
    PressedIsSame(later, r, sweeps, last, t.clock);
    QueueIsDistinct(t);
    TickFate(t, now, i);
    if Exhausted(later, now) {
      EndedLater(s, t, u, later, r);
    } else {
      PressedMore(later, r, sweeps, last, t.clock, now);
    }
  }

  lemma {:induction false} RunFate(s: State, r: Request, events: seq<Event>, sweeps: seq<nat>)
    requires Inv(s) && Timely(s.clock, events) && r in s.queue
    requires Unanswered(r.ip, events) && Sweeps(r, events, sweeps)
    ensures Grown(s, Run(s, events)) && Fate(s, Run(s, events), r, |sweeps|, LastSweep(r, events, sweeps))
  {
    hide Inv, Step, Grown, Ended, Pressed, Earlier, LastSweep, Sweeps;
    if events == [] {
      FateAtFirst(s, r, events, sweeps);
    } else {
      var n, earlier := |events| - 1, Earlier(events, sweeps);
      var t, e := Run(s, events[..n]), events[n];
      EarlierSweeps(r, events, sweeps);
      LastSweepOf(r, events, sweeps);
      RunFate(s, r, events[..n], earlier);
      RunKeepsInv(s, events[..n]);
      RunKeepsRoutes(s, events[..n]);
      FateStep(s, t, r, e, |earlier|, LastSweep(r, events[..n], earlier), earlier != sweeps);
    }
  }

  lemma FateAtFirst(s: State, r: Request, events: seq<Event>, sweeps: seq<nat>)
    requires r in s.queue && events == [] && Sweeps(r, events, sweeps)
    ensures Grown(s, s) && Fate(s, s, r, |sweeps|, LastSweep(r, events, sweeps))
  {
    hide Ended, Queued;
    assert sweeps != [] ==> SweepAt(r, events, sweeps, 0);
    var i :| 0 <= i < |s.queue| && s.queue[i] == r;
    assert Pressed(s.queue[i], r, 0, r.sent, s.clock);
  }

  /** One more event, counted as a sweep or not. */
  lemma FateStep(s: State, t: State, r: Request, e: Event, sweeps: nat, last: int, counted: bool)
    requires Inv(s) && r in s.queue && Inv(t) && t.clock <= e.at && Grown(s, t) && t.routes == s.routes
    requires Fate(s, t, r, sweeps, last) && !(e.Reply? && e.ip == r.ip)
    requires counted ==> e.Second? && e.at - last > 1
    ensures Grown(s, Step(t, e))
    ensures if counted then Fate(s, Step(t, e), r, sweeps + 1, e.at) else Fate(s, Step(t, e), r, sweeps, last)
  {
    hide Inv, Step, Ended, Pressed, Queued, Tick;
    StepGrows(t, e);
    GrownTwice(s, t, Step(t, e));
    if Ended(s, t, r) {
      SerialIsOld(s, r);
      EndedForGood(s, t, Step(t, e), r);
    } else {
      var i :| 0 <= i < |t.queue| && Pressed(t.queue[i], r, sweeps, last, t.clock);
      if counted {
        FateOfSweep(s, t, i, r, e.at, sweeps, last);
        SecondIsTick(t, e);
      } else {
        FateOfOneMore(s, t, i, r, e, sweeps, last);
      }
    }
  }

  lemma SecondIsTick(s: State, e: Event)
    requires e.Second?
    ensures Step(s, e) == Tick(s, e.at)
  {
  }

  lemma SerialIsOld(s: State, r: Request)
    requires Inv(s) && r in s.queue
    ensures r.serial < s.nextSerial
  {
  }

  lemma SentAtMostFive(s: State, i: nat)
    requires Inv(s) && i < |s.queue|
    ensures s.queue[i].timesSent <= 5
  {
    assert Remembers(s.queue[i], Sends(s.out, s.queue[i].serial));
    assert WithinBudget(Sends(s.out, s.queue[i].serial));
  }

  /** Whatever else arrives, a request that is not answered has ended, with a host-unreachable for each
      packet that waited on it, after one sweep more than it has sends left. */
  lemma {:induction false} UnansweredRequestsEnd(s: State, r: Request, events: seq<Event>, sweeps: seq<nat>)
    requires Inv(s) && Timely(s.clock, events) && r in s.queue
    requires Unanswered(r.ip, events) && Sweeps(r, events, sweeps) && |sweeps| > 5 - r.timesSent
    ensures Ended(s, Run(s, events), r)
  {
    hide Inv, Step, Grown, Ended, Sweeps, Unanswered;
    var t := Run(s, events);
    RunFate(s, r, events, sweeps);
    RunKeepsInv(s, events);
    if !Ended(s, t, r) {
      var i :| 0 <= i < |t.queue| && Pressed(t.queue[i], r, |sweeps|, LastSweep(r, events, sweeps), t.clock);
      SentAtMostFive(t, i);
    }
  }

  /** The timeout thread sleeps for a second between turns, so turns may be only one second apart: then
      every other one is enough. */
  lemma {:induction false} UnansweredRequestsEndInTime(s: State, r: Request, events: seq<Event>, turns: seq<nat>)
    requires Inv(s) && Timely(s.clock, events) && r in s.queue && Unanswered(r.ip, events)
    requires forall k :: 0 <= k < |turns| ==> turns[k] < |events| && events[turns[k]].Second?
    requires forall j, k :: 0 <= j < k < |turns| ==>
               turns[j] < turns[k] && events[turns[k]].at - events[turns[j]].at >= k - j
    requires |turns| > 2 * (5 - r.timesSent) && events[turns[0]].at - r.sent > 1
    ensures Ended(s, Run(s, events), r)
  {
    hide Inv, Run, Ended;
    var sweeps := seq((|turns| + 1) / 2, k requires 0 <= 2 * k < |turns| => turns[2 * k]);
    assert forall k :: 0 <= k < |sweeps| ==> SweepAt(r, events, sweeps, k);
    UnansweredRequestsEnd(s, r, events, sweeps);
  }

  lemma {:induction false} RunKeepsRoutes(s: State, events: seq<Event>)
    ensures Run(s, events).routes == s.routes && Run(s, events).ifaces == s.ifaces
  {
    hide Step;
    if events != [] {
      RunKeepsRoutes(s, events[..|events| - 1]);
      StepClock(Run(s, events[..|events| - 1]), events[|events| - 1]);
    }
  }
}
