/** The router as a state machine: a frame arrives, an ARP reply arrives, or a second passes. Each is taken
    as one atomic step. For the timeout turn the code sees to that, holding the cache lock throughout
    (sr_arpcache.c:244-257); for frames and replies, which hold it only inside each call of the cache, it is an
    assumption. A routing table that passed its start-up check is assumed as well: without it, a route whose
    interface is missing is no route here, and a null pointer in the code (sr_ip.c:119-122). */
module RouterSpec {
  import opened Wrappers
  import opened Bytes
  import opened ChecksumProofs
  import opened IpFrame
  import opened Topology
  import opened ArpTable
  import opened ArpQueue

  const MAX_SENDS: nat := 5

  /** What leaves the router. A transmission and an ICMP answer record the frame that caused them. */
  datatype Out =
    | Transmit(original: seq<Byte>, wire: seq<Byte>, iface: string)
    | ArpRequest(serial: nat, ip: Ip, iface: string, at: int)
    | HostUnreachable(original: seq<Byte>, iface: string)
    | TimeExceeded(original: seq<Byte>, iface: string)
    | Local(frame: seq<Byte>, iface: string)  // handed to the router's own ICMP code

  /** The routing table, interfaces, ARP table, request queue and output, with a history: the frames
      accepted for forwarding, the insertions made, the time of the last expiry pass. */
  datatype State = State(
    routes: seq<Route>, ifaces: seq<Interface>,
    table: seq<Entry>, queue: seq<Request>, out: seq<Out>,
    clock: int, lastPass: int, nextSerial: nat,
    insertions: seq<Insertion>, arrivals: seq<seq<Byte>>)

  /** The interface towards an address. With a verified routing table, as Router.Instance has it, there is
      none only if there is no route. */
  function NextHop(s: State, ip: Ip): Option<Interface> {
    match FindRoute(s.routes, ip)
    case None => None
    case Some(route) => FindInterface(s.ifaces, route.iface)
  }

  function HopName(s: State, ip: Ip): string {
    match NextHop(s, ip)
    case None => ""
    case Some(hop) => hop.name
  }

  function RouteName(s: State, ip: Ip): string {
    match FindRoute(s.routes, ip)
    case None => ""
    case Some(route) => route.iface
  }

  function Emit(s: State, o: Out): State {
    s.(out := s.out + [o])
  }

  function Unreachable(packets: seq<Packet>, iface: string): (r: seq<Out>)
    ensures |r| == |packets|
  {
    seq(|packets|, i requires 0 <= i < |packets| => HostUnreachable(packets[i].bytes, iface))
  }

  // ---------- Requests: the retry protocol documented in sr_arpcache.h ----------

  predicate Due(r: Request, now: int) {
    now - r.sent > 1
  }

  predicate Exhausted(r: Request, now: int) {
    Due(r, now) && r.timesSent >= MAX_SENDS
  }

  /** The request as handling leaves it, unless it is exhausted. */
  function Retried(r: Request, now: int): Request {
    if Due(r, now) then r.(sent := now, timesSent := r.timesSent + 1) else r
  }

  /** What handling a request sends. */
  function RetryOut(s: State, r: Request, now: int): seq<Out> {
    if !Due(r, now) then []
    else if r.timesSent >= MAX_SENDS then Unreachable(r.packets, RouteName(s, r.ip))
    else [ArpRequest(r.serial, r.ip, HopName(s, r.ip), now)]
  }

  /** handle_arpreq. */
  function Retry(s: State, k: nat, now: int): State
    requires k < |s.queue|
  {
    var r := s.queue[k];
    s.(queue := if Exhausted(r, now) then Remove(s.queue, k) else s.queue[k := Retried(r, now)],
       out := s.out + RetryOut(s, r, now))
  }

  // ---------- Forwarding ----------

  function Park(s: State, bytes: seq<Byte>, iface: string): State
    requires IsFrame(bytes)
  {
    s.(queue := Enqueue(s.queue, Destination(bytes), Packet(bytes, iface), s.nextSerial),
       nextSerial := s.nextSerial + 1)
  }

  lemma ParkedIsFound(s: State, bytes: seq<Byte>, iface: string)
    requires IsFrame(bytes)
    ensures Find(Park(s, bytes, iface).queue, Destination(bytes)) < |Park(s, bytes, iface).queue|
  {
    var ip, q := Destination(bytes), Park(s, bytes, iface).queue;
    var k := Find(s.queue, ip);
    assert q[if k < |s.queue| then k else 0].ip == ip;
  }

  /** packet_to_other_dest. Its callers only pass frames long enough to hold an IP header. */
  function Forward(s: State, bytes: seq<Byte>, iface: string, now: int): State {
    if !IsFrame(bytes) then s
    else if bytes[TTL] <= 1 then Emit(s, TimeExceeded(bytes, iface))
    else
      var ip := Destination(bytes);
      match NextHop(s, ip)
      case None => Emit(s, HostUnreachable(bytes, iface))
      case Some(hop) =>
        match Lookup(s.table, ip)
        case Some(e) => Emit(s, Transmit(bytes, Rewritten(bytes, hop.addr, e.mac), hop.name))
        case None =>
          ParkedIsFound(s, bytes, iface);
          var parked := Park(s, bytes, iface);
          Retry(parked, Find(parked.queue, ip), now)
  }

  /** The drain loop: each waiting packet is forwarded in turn, as if from the given interface. */
  function ForwardAll(s: State, packets: seq<Packet>, iface: string, now: int): State {
    if packets == [] then s
    else
      var n := |packets| - 1;
      Forward(ForwardAll(s, packets[..n], iface, now), packets[n].bytes, iface, now)
  }

  // ---------- The three steps ----------

  /** IP_packet: frames that are too short or whose header checksum is wrong are dropped, frames for one
      of the router's own addresses stay, and the others are forwarded. */
  function FrameIn(s: State, bytes: seq<Byte>, iface: string, now: int): State {
    var s := s.(clock := now);
    if !IsFrame(bytes) || !Validates(Header(bytes)) then s
    else if FindByIp(s.ifaces, Destination(bytes)).Some? then Emit(s, Local(bytes, iface))
    else Forward(s.(arrivals := s.arrivals + [bytes]), bytes, iface, now)
  }

  /** sr_arpcache_insert: the request for the address leaves the queue, the mapping enters the table. */
  function Insert(s: State, ip: Ip, mac: Mac, now: int): State {
    var k := Find(s.queue, ip);
    s.(table := Learn(s.table, mac, ip, now),
       insertions := Logged(s.table, s.insertions, mac, ip, now),
       queue := if k < |s.queue| then Remove(s.queue, k) else s.queue,
       clock := now)
  }

  /** The packets that were waiting for a reply about ip. */
  function WaitingFor(s: State, ip: Ip): seq<Packet> {
    var k := Find(s.queue, ip);
    if k < |s.queue| then s.queue[k].packets else []
  }

  /** The reply branch of arp_packet. */
  function ReplyIn(s: State, ip: Ip, mac: Mac, iface: string, now: int): State {
    ForwardAll(Insert(s, ip, mac, now), WaitingFor(s, ip), iface, now)
  }

  /** The requests left by a sweep: each is handled once, and the exhausted ones go. */
  function Kept(queue: seq<Request>, now: int): seq<Request> {
    if queue == [] then []
    else
      var n := |queue| - 1;
      Kept(queue[..n], now) + if Exhausted(queue[n], now) then [] else [Retried(queue[n], now)]
  }

  /** What a sweep sends: each request's output, in queue order. */
  function SweepOut(s: State, queue: seq<Request>, now: int): seq<Out> {
    if queue == [] then []
    else
      var n := |queue| - 1;
      SweepOut(s, queue[..n], now) + RetryOut(s, queue[n], now)
  }

  /** sr_arpcache_sweepreqs. */
  function Sweep(s: State, now: int): State {
    s.(queue := Kept(s.queue, now), out := s.out + SweepOut(s, s.queue, now))
  }

  /** The expiry pass of sr_arpcache_timeout. */
  function ExpiryPass(s: State, now: int): State {
    s.(table := Expire(s.table, now), lastPass := now, clock := now)
  }

  /** One turn of the timeout thread. */
  function Tick(s: State, now: int): State {
    Sweep(ExpiryPass(s, now), now)
  }

  // ---------- Runs ----------

  datatype Event =
    | Frame(bytes: seq<Byte>, iface: string, at: int)
    | Reply(ip: Ip, mac: Mac, iface: string, at: int)
    | Second(at: int)

  function Step(s: State, e: Event): State {
    match e
    case Frame(bytes, iface, at) => FrameIn(s, bytes, iface, at)
    case Reply(ip, mac, iface, at) => ReplyIn(s, ip, mac, iface, at)
    case Second(at) => Tick(s, at)
  }

  function Run(s: State, events: seq<Event>): State {
    if events == [] then s
    else Step(Run(s, events[..|events| - 1]), events[|events| - 1])
  }

  /** The clock never goes back. */
  ghost predicate Timely(start: int, events: seq<Event>) {
    && (forall i :: 0 <= i < |events| ==> start <= events[i].at)
    && (forall i, j :: 0 <= i < j < |events| ==> events[i].at <= events[j].at)
  }

  /** The router as it starts: nothing cached, nothing waiting, nothing sent. */
  function Start(routes: seq<Route>, ifaces: seq<Interface>, now: int): State {
    State(routes, ifaces, seq(SLOTS, _ => NO_ENTRY), [], [], now, now, 0, [], [])
  }
}
