/** What every step of the router keeps: the shape of the queue, the retry budget, the truth of the ARP
    table, the form of what is transmitted; and what every step conserves: the frames. */
module RouterInvariants {
  import opened Wrappers
  import opened Bytes
  import opened ChecksumProofs
  import opened IpFrame
  import opened Topology
  import opened ArpTable
  import opened ArpQueue
  import opened RouterSpec

  // ---------- The invariants ----------

  /** A frame that may be forwarded. */
  predicate Good(b: seq<Byte>) {
    IsFrame(b) && Validates(Header(b))
  }

  /** A frame that may wait for a reply about ip. */
  predicate Parkable(b: seq<Byte>, ip: Ip) {
    Good(b) && Destination(b) == ip && b[TTL] >= 2
  }

  predicate RequestOk(s: State, r: Request) {
    NextHop(s, r.ip).Some? && forall j :: 0 <= j < |r.packets| ==> Parkable(r.packets[j].bytes, r.ip)
  }

  ghost predicate QueueOk(s: State) {
    && DistinctIps(s.queue)
    && DistinctSerials(s.queue, s.nextSerial)
    && forall i :: 0 <= i < |s.queue| ==> RequestOk(s, s.queue[i])
  }

  /** The times at which ARP requests were sent for one queued request. */
  function Sends(out: seq<Out>, serial: nat): seq<int> {
    if out == [] then []
    else
      var last := out[|out| - 1];
      Sends(out[..|out| - 1], serial) + if last.ArpRequest? && last.serial == serial then [last.at] else []
  }

  predicate Spaced(times: seq<int>) {
    forall i :: 0 < i < |times| ==> times[i] - times[i - 1] > 1
  }

  predicate WithinBudget(times: seq<int>) {
    |times| <= MAX_SENDS && Spaced(times)
  }

  /** A queued request remembers how often and when it was last sent. */
  predicate Remembers(r: Request, times: seq<int>) {
    |times| == r.timesSent && (times != [] ==> times[|times| - 1] == r.sent)
  }

  ghost predicate BudgetOk(s: State) {
    && (forall serial: nat :: WithinBudget(Sends(s.out, serial)))
    && (forall serial: nat :: serial >= s.nextSerial ==> Sends(s.out, serial) == [])
    && (forall i :: 0 <= i < |s.queue| ==> Remembers(s.queue[i], Sends(s.out, s.queue[i].serial)))
  }

  ghost predicate TableOk(s: State) {
    Faithful(s.table, s.insertions, s.lastPass) && s.lastPass <= s.clock
  }

  /** Some insertion stored this address for ip. */
  ghost predicate Learned(log: seq<Insertion>, ip: Ip, mac: seq<Byte>) {
    exists i :: 0 <= i < |log| && log[i].stored && log[i].ip == ip && log[i].mac == mac
  }

  /** A transmission is the rewriting of a good frame for its next hop, to a hardware address that was
      learned for its destination. */
  ghost predicate WireOk(s: State, original: seq<Byte>, wire: seq<Byte>, iface: string) {
    && Good(original) && original[TTL] >= 2
    && |wire| == |original|
    && wire == Rewritten(original, wire[6..12], wire[..6])
    && (var hop := NextHop(s, Destination(original));
        hop.Some? && hop.value.name == iface && hop.value.addr == wire[6..12])
    && Learned(s.insertions, Destination(original), wire[..6])
  }

  /** How many ARP requests for ip were sent under a serial number. */
  function Asked(out: seq<Out>, serial: nat, ip: Ip): nat {
    if out == [] then 0
    else
      var last := out[|out| - 1];
      Asked(out[..|out| - 1], serial, ip) + if last.ArpRequest? && last.serial == serial && last.ip == ip then 1 else 0
  }

  ghost predicate AskedOk(s: State) {
    forall i :: 0 <= i < |s.queue| ==> Asked(s.out, s.queue[i].serial, s.queue[i].ip) == s.queue[i].timesSent
  }

  /** Five ARP requests for ip went out for one queued request. */
  ghost predicate GaveUp(out: seq<Out>, ip: Ip) {
    exists serial: nat :: Asked(out, serial, ip) >= MAX_SENDS
  }

  /** Why each kind of output is sent. */
  ghost predicate OutOk(s: State, o: Out) {
    match o
    case Transmit(original, wire, iface) => WireOk(s, original, wire, iface)
    case ArpRequest(_, ip, iface, _) => NextHop(s, ip).Some? && NextHop(s, ip).value.name == iface
    case HostUnreachable(b, iface) =>
      && Good(b) && b[TTL] >= 2
      && (NextHop(s, Destination(b)) == None
          || (GaveUp(s.out, Destination(b)) && iface == RouteName(s, Destination(b))))
    case TimeExceeded(b, _) => Good(b) && b[TTL] <= 1
    case Local(b, _) => Good(b) && FindByIp(s.ifaces, Destination(b)).Some?
  }

  ghost predicate OutputsOk(s: State) {
    forall o :: o in s.out ==> OutOk(s, o)
  }

  ghost predicate Inv(s: State) {
    QueueOk(s) && BudgetOk(s) && AskedOk(s) && TableOk(s) && OutputsOk(s)
  }

  // ---------- Sends ----------

  lemma {:induction false} SendsAppend(a: seq<Out>, b: seq<Out>, serial: nat)
    ensures Sends(a + b, serial) == Sends(a, serial) + Sends(b, serial)
    decreases |b|
  {
    if b == [] {
      assert a + b == a;
    } else {
      assert (a + b)[..|a + b| - 1] == a + b[..|b| - 1];
      SendsAppend(a, b[..|b| - 1], serial);
    }
  }

  lemma {:induction false} NoSends(out: seq<Out>, serial: nat)
    requires forall i :: 0 <= i < |out| ==> !out[i].ArpRequest?
    ensures Sends(out, serial) == []
  {
    if out != [] {
      NoSends(out[..|out| - 1], serial);
    }
  }

  lemma {:induction false} OneSend(o: Out, serial: nat)
    ensures Sends([o], serial) == if o.ArpRequest? && o.serial == serial then [o.at] else []
  {
    assert [o][..0] == [];
  }

  lemma {:induction false} AskedAppend(a: seq<Out>, b: seq<Out>, serial: nat, ip: Ip)
    ensures Asked(a + b, serial, ip) == Asked(a, serial, ip) + Asked(b, serial, ip)
    decreases |b|
  {
    if b == [] {
      assert a + b == a;
    } else {
      assert (a + b)[..|a + b| - 1] == a + b[..|b| - 1];
      AskedAppend(a, b[..|b| - 1], serial, ip);
    }
  }

  lemma {:induction false} AskedAtMostSends(out: seq<Out>, serial: nat, ip: Ip)
    ensures Asked(out, serial, ip) <= |Sends(out, serial)|
  {
    if out != [] {
      AskedAtMostSends(out[..|out| - 1], serial, ip);
    }
  }

  lemma GaveUpForGood(a: seq<Out>, b: seq<Out>, ip: Ip)
    requires GaveUp(a, ip)
    ensures GaveUp(a + b, ip)
  {
    var serial: nat :| Asked(a, serial, ip) >= MAX_SENDS;
    AskedAppend(a, b, serial, ip);
  }

  /** An output that was in order stays so as the history grows. */
  lemma OutStaysOk(s: State, t: State, o: Out, more: seq<Out>)
    requires OutOk(s, o) && t.out == s.out + more
    requires t.routes == s.routes && t.ifaces == s.ifaces && s.insertions <= t.insertions
    ensures OutOk(t, o)
  {
    hide WireOk, Validates, Asked, GaveUp;
    match o
    case Transmit(original, wire, iface) => WireStaysOk(s, t, original, wire, iface);
    case HostUnreachable(b, _) =>
      if NextHop(s, Destination(b)).Some? {
        GaveUpForGood(s.out, more, Destination(b));
      }
    case _ =>
  }

  lemma OutputsStayOk(s: State, t: State, more: seq<Out>)
    requires OutputsOk(s) && t.out == s.out + more
    requires t.routes == s.routes && t.ifaces == s.ifaces && s.insertions <= t.insertions
    requires forall o :: o in more ==> OutOk(s, o)
    ensures OutputsOk(t)
  {
    hide OutOk;
    forall o | o in t.out ensures OutOk(t, o) {
      OutStaysOk(s, t, o, more);
    }
  }

  // ---------- Handling a request ----------

  lemma RetryKeepsQueue(s: State, k: nat, now: int)
    requires QueueOk(s) && k < |s.queue|
    ensures QueueOk(Retry(s, k, now))
  {
    var t := Retry(s, k, now);
    if Exhausted(s.queue[k], now) {
      RemoveKeepsDistinct(s.queue, k, s.nextSerial);
    }
    forall i | 0 <= i < |t.queue| ensures RequestOk(t, t.queue[i]) {
      var j := if Exhausted(s.queue[k], now) && i >= k then i + 1 else i;
      assert RequestOk(s, s.queue[j]);
    }
  }

  /** The send, if any, that handling a request adds for a serial number. */
  function Resent(r: Request, now: int, serial: nat): seq<int> {
    if Due(r, now) && !Exhausted(r, now) && serial == r.serial then [now] else []
  }

  lemma {:induction false} RetrySends(s: State, k: nat, now: int, serial: nat)
    requires k < |s.queue|
    ensures Sends(Retry(s, k, now).out, serial) == Sends(s.out, serial) + Resent(s.queue[k], now, serial)
  {
    var r := s.queue[k];
    var sent := RetryOut(s, r, now);
    SendsAppend(s.out, sent, serial);
    if Due(r, now) && !Exhausted(r, now) {
      OneSend(sent[0], serial);
    } else {
      NoSends(sent, serial);
    }
  }

  /** One more send of a request that is due keeps its sends few and far apart. */
  lemma ResendWithinBudget(r: Request, times: seq<int>, now: int, serial: nat)
    requires WithinBudget(times) && (serial == r.serial ==> Remembers(r, times))
    ensures WithinBudget(times + Resent(r, now, serial))
  {
  }

  lemma {:induction false} RetryKeepsSends(s: State, k: nat, now: int, serial: nat)
    requires QueueOk(s) && BudgetOk(s) && k < |s.queue|
    ensures WithinBudget(Sends(Retry(s, k, now).out, serial))
    ensures serial >= s.nextSerial ==> Sends(Retry(s, k, now).out, serial) == []
  {
    hide Sends, WithinBudget, Remembers, RequestOk;
    assert Remembers(s.queue[k], Sends(s.out, s.queue[k].serial));
    assert WithinBudget(Sends(s.out, serial));
    RetrySends(s, k, now, serial);
    ResendWithinBudget(s.queue[k], Sends(s.out, serial), now, serial);
  }

  lemma RetryKeepsMemory(s: State, k: nat, now: int, i: nat)
    requires QueueOk(s) && BudgetOk(s) && k < |s.queue| && i < |Retry(s, k, now).queue|
    ensures var t := Retry(s, k, now); Remembers(t.queue[i], Sends(t.out, t.queue[i].serial))
  {
    hide Sends, WithinBudget, RequestOk;
    var j := if Exhausted(s.queue[k], now) && i >= k then i + 1 else i;
    assert Remembers(s.queue[j], Sends(s.out, s.queue[j].serial));
    RetrySends(s, k, now, s.queue[j].serial);
  }

  lemma RetryKeepsBudget(s: State, k: nat, now: int)
    requires QueueOk(s) && BudgetOk(s) && k < |s.queue|
    ensures BudgetOk(Retry(s, k, now))
  {
    hide Sends, WithinBudget, Remembers, QueueOk;
    var t := Retry(s, k, now);
    forall serial: nat
      ensures WithinBudget(Sends(t.out, serial)) && (serial >= t.nextSerial ==> Sends(t.out, serial) == [])
    {
      RetryKeepsSends(s, k, now, serial);
    }
    forall i | 0 <= i < |t.queue| ensures Remembers(t.queue[i], Sends(t.out, t.queue[i].serial)) {
      RetryKeepsMemory(s, k, now, i);
    }
  }

  lemma {:induction false} RetryAsks(s: State, k: nat, now: int, serial: nat, ip: Ip)
    requires k < |s.queue|
    ensures Asked(Retry(s, k, now).out, serial, ip)
         == Asked(s.out, serial, ip) + if ip == s.queue[k].ip then |Resent(s.queue[k], now, serial)| else 0
  {
    hide Asked, Sends, NextHop, FindRoute;
    var r := s.queue[k];
    var sent := RetryOut(s, r, now);
    AskedAppend(s.out, sent, serial, ip);
    if Due(r, now) && !Exhausted(r, now) {
      AskedOne(sent[0], serial, ip);
    } else {
      NoSends(sent, serial);
      AskedAtMostSends(sent, serial, ip);
    }
  }

  lemma {:induction false} AskedOne(o: Out, serial: nat, ip: Ip)
    ensures Asked([o], serial, ip) == if o.ArpRequest? && o.serial == serial && o.ip == ip then 1 else 0
  {
    assert [o][..0] == [];
  }

  lemma RetryKeepsAsked(s: State, k: nat, now: int)
    requires QueueOk(s) && AskedOk(s) && k < |s.queue|
    ensures AskedOk(Retry(s, k, now))
  {
    hide Asked, RequestOk, RetryOut;
    var t, r := Retry(s, k, now), s.queue[k];
    forall i | 0 <= i < |t.queue| ensures Asked(t.out, t.queue[i].serial, t.queue[i].ip) == t.queue[i].timesSent {
      var j := if Exhausted(r, now) && i >= k then i + 1 else i;
      RetryAsks(s, k, now, s.queue[j].serial, s.queue[j].ip);
      assert Asked(s.out, s.queue[j].serial, s.queue[j].ip) == s.queue[j].timesSent;
    }
  }

  /** What handling a request sends is in order: an ARP request towards its address, or host-unreachables
      for packets whose destination was asked for five times. */
  lemma RetryOutIsOk(s: State, k: nat, now: int, o: Out)
    requires QueueOk(s) && AskedOk(s) && k < |s.queue| && o in RetryOut(s, s.queue[k], now)
    ensures OutOk(s, o)
  {
    hide Asked, NextHop, Validates, FindRoute;
    var r := s.queue[k];
    assert RequestOk(s, r);
    if Exhausted(r, now) {
      var i :| 0 <= i < |r.packets| && o == HostUnreachable(r.packets[i].bytes, RouteName(s, r.ip));
      assert Parkable(r.packets[i].bytes, r.ip);
      assert Asked(s.out, r.serial, r.ip) >= MAX_SENDS;
    }
  }

  lemma RetryKeepsOutputs(s: State, k: nat, now: int)
    requires QueueOk(s) && AskedOk(s) && OutputsOk(s) && k < |s.queue|
    ensures OutputsOk(Retry(s, k, now))
  {
    hide QueueOk, AskedOk, OutOk, OutputsOk, RetryOut;
    forall o | o in RetryOut(s, s.queue[k], now) ensures OutOk(s, o) {
      RetryOutIsOk(s, k, now, o);
    }
    OutputsStayOk(s, Retry(s, k, now), RetryOut(s, s.queue[k], now));
  }

  lemma RetryKeepsInv(s: State, k: nat, now: int)
    requires Inv(s) && k < |s.queue|
    ensures Inv(Retry(s, k, now))
  {
    hide QueueOk, BudgetOk, AskedOk, OutputsOk, Faithful;
    RetryKeepsQueue(s, k, now);
    RetryKeepsBudget(s, k, now);
    RetryKeepsAsked(s, k, now);
    RetryKeepsOutputs(s, k, now);
  }

  // ---------- Forwarding ----------

  lemma ParkKeepsInv(s: State, bytes: seq<Byte>, iface: string)
    requires Inv(s) && IsFrame(bytes) && Parkable(bytes, Destination(bytes))
    requires NextHop(s, Destination(bytes)).Some?
    ensures Inv(Park(s, bytes, iface))
  {
    ParkKeepsQueue(s, bytes, iface);
    ParkKeepsBudget(s, bytes, iface);
    ParkKeepsAsked(s, bytes, iface);
    OutputsStayOk(s, Park(s, bytes, iface), []);
  }

  lemma ParkKeepsQueue(s: State, bytes: seq<Byte>, iface: string)
    requires QueueOk(s) && IsFrame(bytes) && Parkable(bytes, Destination(bytes))
    requires NextHop(s, Destination(bytes)).Some?
    ensures QueueOk(Park(s, bytes, iface))
  {
    hide Parkable, DistinctIps, DistinctSerials, RequestOk, Enqueue, NextHop;
    var t, ip, p := Park(s, bytes, iface), Destination(bytes), Packet(bytes, iface);
    EnqueueKeepsDistinct(s.queue, ip, p, s.nextSerial);
    forall i | 0 <= i < |t.queue| ensures RequestOk(t, t.queue[i]) {
      ParkKeepsRequest(s, bytes, iface, i);
    }
  }

  lemma ParkKeepsRequest(s: State, bytes: seq<Byte>, iface: string, i: nat)
    requires IsFrame(bytes) && Parkable(bytes, Destination(bytes)) && NextHop(s, Destination(bytes)).Some?
    requires forall j :: 0 <= j < |s.queue| ==> RequestOk(s, s.queue[j])
    requires i < |Park(s, bytes, iface).queue|
    ensures RequestOk(s, Park(s, bytes, iface).queue[i])
    ensures RequestOk(Park(s, bytes, iface), Park(s, bytes, iface).queue[i])
  {
    hide Parkable, NextHop;
    var k := Find(s.queue, Destination(bytes));
    var j := if k < |s.queue| then i else i - 1;
    assert j >= 0 ==> RequestOk(s, s.queue[j]);
    SameNextHop(s, Park(s, bytes, iface), Park(s, bytes, iface).queue[i].ip);
  }

  lemma SameNextHop(s: State, t: State, ip: Ip)
    requires t.routes == s.routes && t.ifaces == s.ifaces
    ensures NextHop(t, ip) == NextHop(s, ip)
  {
  }

  lemma ParkKeepsBudget(s: State, bytes: seq<Byte>, iface: string)
    requires BudgetOk(s) && IsFrame(bytes)
    ensures BudgetOk(Park(s, bytes, iface))
  {
    hide Sends, WithinBudget;
    var t, k := Park(s, bytes, iface), Find(s.queue, Destination(bytes));
    forall i | 0 <= i < |t.queue| ensures Remembers(t.queue[i], Sends(t.out, t.queue[i].serial)) {
      var j := if k < |s.queue| then i else i - 1;
      assert j >= 0 ==> Remembers(s.queue[j], Sends(s.out, s.queue[j].serial));
    }
  }

  lemma ParkKeepsAsked(s: State, bytes: seq<Byte>, iface: string)
    requires BudgetOk(s) && AskedOk(s) && IsFrame(bytes)
    ensures AskedOk(Park(s, bytes, iface))
  {
    hide Sends, WithinBudget, Asked;
    var t, k := Park(s, bytes, iface), Find(s.queue, Destination(bytes));
    assert Sends(s.out, s.nextSerial) == [];
    AskedAtMostSends(s.out, s.nextSerial, Destination(bytes));
    forall i | 0 <= i < |t.queue| ensures Asked(t.out, t.queue[i].serial, t.queue[i].ip) == t.queue[i].timesSent {
      var j := if k < |s.queue| then i else i - 1;
      assert j >= 0 ==> Asked(s.out, s.queue[j].serial, s.queue[j].ip) == s.queue[j].timesSent;
    }
  }

  lemma WireStaysOk(s: State, t: State, original: seq<Byte>, wire: seq<Byte>, iface: string)
    requires WireOk(s, original, wire, iface)
    requires t.routes == s.routes && t.ifaces == s.ifaces && s.insertions <= t.insertions
    ensures WireOk(t, original, wire, iface)
  {
    hide Rewritten, Validates;
    var i :| 0 <= i < |s.insertions| && s.insertions[i].stored
             && s.insertions[i].ip == Destination(original) && s.insertions[i].mac == wire[..6];
    assert t.insertions[i] == s.insertions[i];
  }

  /** Emitting anything but an ARP request keeps the invariant, if it is in order. */
  lemma EmitKeepsInv(s: State, o: Out)
    requires Inv(s) && !o.ArpRequest? && OutOk(s, o)
    ensures Inv(Emit(s, o))
  {
    hide OutOk, OutputsOk, Faithful, Asked, BudgetOk;
    EmitKeepsBudget(s, o);
    OutputsStayOk(s, Emit(s, o), [o]);
    EmitKeepsAsked(s, o);
    assert forall i :: 0 <= i < |s.queue| ==> RequestOk(s, s.queue[i]);
  }

  lemma EmitKeepsAsked(s: State, o: Out)
    requires AskedOk(s) && !o.ArpRequest?
    ensures AskedOk(Emit(s, o))
  {
    forall i | 0 <= i < |s.queue|
      ensures Asked(s.out + [o], s.queue[i].serial, s.queue[i].ip) == s.queue[i].timesSent
    {
      AskedAppend(s.out, [o], s.queue[i].serial, s.queue[i].ip);
      AskedOne(o, s.queue[i].serial, s.queue[i].ip);
    }
  }

  lemma EmitKeepsBudget(s: State, o: Out)
    requires BudgetOk(s) && !o.ArpRequest?
    ensures BudgetOk(Emit(s, o))
  {
    hide WithinBudget, Remembers, Sends;
    forall serial: nat ensures Sends(s.out + [o], serial) == Sends(s.out, serial) {
      SendsAppend(s.out, [o], serial);
      OneSend(o, serial);
    }
  }

  /** A frame for a known address is sent on as it should be. */
  lemma TransmitIsOk(s: State, bytes: seq<Byte>, hop: Interface, e: Entry)
    requires TableOk(s) && Good(bytes) && bytes[TTL] >= 2
    requires NextHop(s, Destination(bytes)) == Some(hop) && Lookup(s.table, Destination(bytes)) == Some(e)
    ensures WireOk(s, bytes, Rewritten(bytes, hop.addr, e.mac), hop.name)
  {
    hide Validates, Rewritten, Lookup;
    LookupIsBacked(s.table, s.insertions, s.lastPass, Destination(bytes));
    RewrittenChangesOnly(bytes, hop.addr, e.mac);
    var i :| 0 <= i < |s.insertions| && s.insertions[i].stored && EntryOf(s.insertions[i]) == e;
    assert s.insertions[i].ip == Destination(bytes);
  }

  lemma ForwardKeepsInv(s: State, bytes: seq<Byte>, iface: string, now: int)
    requires Inv(s) && Good(bytes)
    ensures Inv(Forward(s, bytes, iface, now))
  {
    hide Inv, WireOk, Validates, Rewritten, Lookup, NextHop, GaveUp;
    var ip := Destination(bytes);
    if bytes[TTL] <= 1 {
      EmitKeepsInv(s, TimeExceeded(bytes, iface));
    } else if NextHop(s, ip) == None {
      EmitKeepsInv(s, HostUnreachable(bytes, iface));
    } else if Lookup(s.table, ip).Some? {
      var hop, e := NextHop(s, ip).value, Lookup(s.table, ip).value;
      InvGivesTable(s);
      TransmitIsOk(s, bytes, hop, e);
      EmitKeepsInv(s, Transmit(bytes, Rewritten(bytes, hop.addr, e.mac), hop.name));
    } else {
      ParkKeepsInv(s, bytes, iface);
      ParkedIsFound(s, bytes, iface);
      RetryKeepsInv(Park(s, bytes, iface), Find(Park(s, bytes, iface).queue, ip), now);
    }
  }

  lemma InvGivesTable(s: State)
    requires Inv(s)
    ensures TableOk(s)
  {
  }

  lemma {:induction false} ForwardAllKeepsInv(s: State, packets: seq<Packet>, iface: string, now: int)
    requires Inv(s) && forall i :: 0 <= i < |packets| ==> Good(packets[i].bytes)
    ensures Inv(ForwardAll(s, packets, iface, now))
  {
    hide Inv, Forward, Good;
    if packets != [] {
      var n := |packets| - 1;
      ForwardAllKeepsInv(s, packets[..n], iface, now);
      ForwardKeepsInv(ForwardAll(s, packets[..n], iface, now), packets[n].bytes, iface, now);
    }
  }

  // ---------- Sweeping ----------

  /** The state when a sweep has handled the first i requests of the queue it started with. */
  function SweepTo(s: State, i: nat, now: int): State
    requires i <= |s.queue|
  {
    s.(queue := Kept(s.queue[..i], now) + s.queue[i..], out := s.out + SweepOut(s, s.queue[..i], now))
  }

  /** Handling the next request of a sweep: it is found just after those that were kept, whether or not
      handling the earlier ones unlinked them. */
  lemma {:induction false} SweepStep(s: State, i: nat, now: int)
    requires i < |s.queue|
    ensures |Kept(s.queue[..i], now)| < |SweepTo(s, i, now).queue|
    ensures SweepTo(s, i, now).queue[|Kept(s.queue[..i], now)|] == s.queue[i]
    ensures SweepTo(s, i + 1, now) == Retry(SweepTo(s, i, now), |Kept(s.queue[..i], now)|, now)
  {
    hide Exhausted, Retried, RetryOut, Kept, SweepOut, Remove;
    var kept, r, t := Kept(s.queue[..i], now), s.queue[i], SweepTo(s, i, now);
    SameRetryOut(s, t, r, now);
    OneMore(s, i, now);
    assert s.queue[i..][1..] == s.queue[i + 1..];
    ReplaceNext(kept, s.queue[i..], Retried(r, now));
  }

  lemma SameRetryOut(s: State, t: State, r: Request, now: int)
    requires t.routes == s.routes && t.ifaces == s.ifaces
    ensures RetryOut(t, r, now) == RetryOut(s, r, now)
  {
  }

  lemma {:induction false} OneMore(s: State, i: nat, now: int)
    requires i < |s.queue|
    ensures Kept(s.queue[..i + 1], now)
         == Kept(s.queue[..i], now) + if Exhausted(s.queue[i], now) then [] else [Retried(s.queue[i], now)]
    ensures SweepOut(s, s.queue[..i + 1], now) == SweepOut(s, s.queue[..i], now) + RetryOut(s, s.queue[i], now)
  {
    hide Exhausted, Retried, RetryOut;
    assert s.queue[..i + 1][..i] == s.queue[..i];
  }

  lemma ReplaceNext(kept: seq<Request>, rest: seq<Request>, r: Request)
    requires rest != []
    ensures (kept + rest)[|kept|] == rest[0]
    ensures (kept + rest)[|kept| := r] == kept + [r] + rest[1..]
    ensures Remove(kept + rest, |kept|) == kept + [] + rest[1..]
  {
  }

  /** A sweep is the handling of each request of the queue, once. */
  lemma SweepEnds(s: State, now: int)
    ensures SweepTo(s, 0, now) == s
    ensures SweepTo(s, |s.queue|, now) == Sweep(s, now)
  {
    assert s.queue[..0] == [];
    assert s.queue[..|s.queue|] == s.queue;
  }

  lemma {:induction false} SweepToKeepsInv(s: State, i: nat, now: int)
    requires Inv(s) && i <= |s.queue|
    ensures Inv(SweepTo(s, i, now))
  {
    hide Inv, SweepTo, Retry;
    if i == 0 {
      SweepEnds(s, now);
    } else {
      SweepToKeepsInv(s, i - 1, now);
      SweepStep(s, i - 1, now);
      RetryKeepsInv(SweepTo(s, i - 1, now), |Kept(s.queue[..i - 1], now)|, now);
    }
  }

  // ---------- The steps ----------

  /** Nothing the invariant says about queue and output depends on the table, the log growing, the clock
      or the arrivals. */
  lemma OtherFieldsKeepInv(s: State, t: State)
    requires Inv(s) && TableOk(t)
    requires t.routes == s.routes && t.ifaces == s.ifaces && t.queue == s.queue && t.out == s.out
    requires t.nextSerial == s.nextSerial && s.insertions <= t.insertions
    ensures Inv(t)
  {
    hide Faithful, OutOk, OutputsOk;
    OutputsStayOk(s, t, []);
    forall i | 0 <= i < |t.queue| ensures RequestOk(t, t.queue[i]) {
      assert RequestOk(s, s.queue[i]);
      SameNextHop(s, t, t.queue[i].ip);
    }
  }

  lemma RemoveKeepsInv(s: State, k: nat)
    requires Inv(s) && k < |s.queue|
    ensures Inv(s.(queue := Remove(s.queue, k)))
  {
    hide Faithful, Sends, WithinBudget, OutOk, OutputsOk, Asked;
    var t := s.(queue := Remove(s.queue, k));
    RemoveKeepsDistinct(s.queue, k, s.nextSerial);
    OutputsStayOk(s, t, []);
    forall i | 0 <= i < |t.queue|
      ensures RequestOk(t, t.queue[i]) && Remembers(t.queue[i], Sends(t.out, t.queue[i].serial))
      ensures Asked(t.out, t.queue[i].serial, t.queue[i].ip) == t.queue[i].timesSent
    {
      var j := if i < k then i else i + 1;
      assert Asked(s.out, s.queue[j].serial, s.queue[j].ip) == s.queue[j].timesSent;
      assert RequestOk(s, s.queue[j]) && Remembers(s.queue[j], Sends(s.out, s.queue[j].serial));
    }
  }

  lemma InsertKeepsInv(s: State, ip: Ip, mac: Mac, now: int)
    requires Inv(s) && s.clock <= now
    ensures Inv(Insert(s, ip, mac, now))
  {
    hide Faithful, QueueOk, BudgetOk, AskedOk, OutputsOk;
    var k := Find(s.queue, ip);
    StoreKeepsFaithful(s.table, s.insertions, s.lastPass, mac, ip, now);
    if k < |s.queue| {
      RemoveKeepsInv(s, k);
      OtherFieldsKeepInv(s.(queue := Remove(s.queue, k)), Insert(s, ip, mac, now));
    } else {
      OtherFieldsKeepInv(s, Insert(s, ip, mac, now));
    }
  }

  lemma WaitingIsParkable(s: State, ip: Ip)
    requires Inv(s)
    ensures forall i :: 0 <= i < |WaitingFor(s, ip)| ==> Parkable(WaitingFor(s, ip)[i].bytes, ip)
  {
    var k := Find(s.queue, ip);
    assert k < |s.queue| ==> RequestOk(s, s.queue[k]);
  }

  lemma StepKeepsInv(s: State, e: Event)
    requires Inv(s) && s.clock <= e.at
    ensures Inv(Step(s, e)) && Step(s, e).clock == e.at
  {
    hide Inv, Validates, Sweep, Insert, Forward, ForwardAll;
    StepClock(s, e);
    match e
    case Frame(bytes, iface, at) =>
      InvGivesTable(s);
      OtherFieldsKeepInv(s, s.(clock := at));
      OtherFieldsKeepInv(s, s.(clock := at, arrivals := s.arrivals + [bytes]));
      if Good(bytes) && FindByIp(s.ifaces, Destination(bytes)).Some? {
        EmitKeepsInv(s.(clock := at), Local(bytes, iface));
      } else if Good(bytes) {
        ForwardKeepsInv(s.(clock := at, arrivals := s.arrivals + [bytes]), bytes, iface, at);
      }
    case Reply(ip, mac, iface, at) =>
      InsertKeepsInv(s, ip, mac, at);
      WaitingIsParkable(s, ip);
      ForwardAllKeepsInv(Insert(s, ip, mac, at), WaitingFor(s, ip), iface, at);
    case Second(at) =>
      InvGivesTable(s);
      ExpireKeepsFaithful(s.table, s.insertions, s.lastPass, at);
      var t := ExpiryPass(s, at);
      OtherFieldsKeepInv(s, t);
      SweepToKeepsInv(t, |t.queue|, at);
      SweepEnds(t, at);
  }

  lemma StepClock(s: State, e: Event)
    ensures Step(s, e).clock == e.at && Step(s, e).routes == s.routes && Step(s, e).ifaces == s.ifaces
  {
    if e.Reply? {
      ForwardAllClock(Insert(s, e.ip, e.mac, e.at), WaitingFor(s, e.ip), e.iface, e.at);
    }
  }

  lemma {:induction false} ForwardAllClock(s: State, packets: seq<Packet>, iface: string, now: int)
    ensures var t := ForwardAll(s, packets, iface, now);
            t.clock == s.clock && t.routes == s.routes && t.ifaces == s.ifaces && t.arrivals == s.arrivals
  {
    if packets != [] {
      ForwardAllClock(s, packets[..|packets| - 1], iface, now);
    }
  }

  lemma StartIsOk(routes: seq<Route>, ifaces: seq<Interface>, now: int)
    ensures Inv(Start(routes, ifaces, now))
  {
  }

  /** Every state of every run satisfies the invariant. */
  lemma {:induction false} RunKeepsInv(s: State, events: seq<Event>)
    requires Inv(s) && Timely(s.clock, events)
    ensures Inv(Run(s, events))
    ensures Run(s, events).clock == if events == [] then s.clock else events[|events| - 1].at
  {
    hide Inv, Step;
    if events != [] {
      var n := |events| - 1;
      RunKeepsInv(s, events[..n]);
      StepKeepsInv(Run(s, events[..n]), events[n]);
    }
  }
}
