/** The queue of outstanding ARP requests of sr_arpcache.c, as values. */
module ArpQueue {
  import opened Bytes
  import opened IpFrame

  /** A frame waiting for a reply, with the interface recorded for it. */
  datatype Packet = Packet(bytes: seq<Byte>, iface: string)

  /** An outstanding request. The serial number is a history variable: it tells apart two requests for
      the same address that were on the queue at different times. */
  datatype Request = Request(serial: nat, ip: Ip, sent: int, timesSent: nat, packets: seq<Packet>)

  /** The position of the request for ip, or the length of the queue. */
  function Find(queue: seq<Request>, ip: Ip): (k: nat)
    ensures k <= |queue|
    ensures k < |queue| ==> queue[k].ip == ip
    ensures forall i :: 0 <= i < k ==> queue[i].ip != ip
  {
    if queue == [] || queue[0].ip == ip then 0 else 1 + Find(queue[1..], ip)
  }

  function Remove(queue: seq<Request>, k: nat): (r: seq<Request>)
    requires k < |queue|
    ensures |r| == |queue| - 1
  {
    queue[..k] + queue[k + 1..]
  }

  /** What to add for a frame: nothing if the frame is empty. */
  function Arriving(p: Packet): seq<Packet> {
    if p.bytes == [] then [] else [p]
  }

  /** sr_arpcache_queuereq: the packet goes to the front of the request for its address, which is made
      and put at the head of the queue if there is none. */
  function Enqueue(queue: seq<Request>, ip: Ip, p: Packet, serial: nat): (r: seq<Request>) {
    var k := Find(queue, ip);
    if k < |queue| then queue[k := queue[k].(packets := Arriving(p) + queue[k].packets)]
    else [Request(serial, ip, 0, 0, Arriving(p))] + queue
  }

  ghost predicate DistinctIps(queue: seq<Request>) {
    forall i, j :: 0 <= i < j < |queue| ==> queue[i].ip != queue[j].ip
  }

  /** Serial numbers were handed out before next, each to one request. */
  ghost predicate DistinctSerials(queue: seq<Request>, next: nat) {
    && (forall i :: 0 <= i < |queue| ==> queue[i].serial < next)
    && (forall i, j :: 0 <= i < j < |queue| ==> queue[i].serial != queue[j].serial)
  }

  /** The frames waiting on the queue, counted. */
  function Waiting(queue: seq<Request>): multiset<seq<Byte>> {
    if queue == [] then multiset{} else Frames(queue[0].packets) + Waiting(queue[1..])
  }

  function Frames(packets: seq<Packet>): multiset<seq<Byte>> {
    if packets == [] then multiset{} else multiset{packets[0].bytes} + Frames(packets[1..])
  }

  // ---------- Counting ----------

  lemma {:induction false} WaitingAppend(a: seq<Request>, b: seq<Request>)
    ensures Waiting(a + b) == Waiting(a) + Waiting(b)
  {
    if a == [] {
      assert a + b == b;
    } else {
      assert (a + b)[1..] == a[1..] + b;
      WaitingAppend(a[1..], b);
    }
  }

  lemma {:induction false} FramesAppend(a: seq<Packet>, b: seq<Packet>)
    ensures Frames(a + b) == Frames(a) + Frames(b)
  {
    if a == [] {
      assert a + b == b;
    } else {
      assert (a + b)[1..] == a[1..] + b;
      FramesAppend(a[1..], b);
    }
  }

  lemma {:induction false} WaitingSplit(queue: seq<Request>, k: nat)
    requires k < |queue|
    ensures Waiting(queue) == Waiting(queue[..k]) + Frames(queue[k].packets) + Waiting(queue[k + 1..])
    ensures Waiting(queue) == Waiting(Remove(queue, k)) + Frames(queue[k].packets)
  {
    assert queue == queue[..k] + queue[k..];
    WaitingAppend(queue[..k], queue[k..]);
    WaitingAppend(queue[..k], queue[k + 1..]);
  }

  lemma WaitingUpdate(queue: seq<Request>, k: nat, r: Request)
    requires k < |queue|
    ensures Waiting(queue[k := r]) + Frames(queue[k].packets) == Waiting(queue) + Frames(r.packets)
  {
    WaitingSplit(queue, k);
    WaitingSplit(queue[k := r], k);
    assert Remove(queue[k := r], k) == Remove(queue, k);
  }

  lemma Cancel(a: multiset<seq<Byte>>, b: multiset<seq<Byte>>, c: multiset<seq<Byte>>)
    requires a + b == c + b
    ensures a == c
  {
    forall x ensures a[x] == c[x] {
      assert (a + b)[x] == (c + b)[x];
    }
  }

  /** Queueing a packet adds exactly that packet. */
  lemma {:induction false} EnqueueAddsOne(queue: seq<Request>, ip: Ip, p: Packet, serial: nat)
    requires p.bytes != []
    ensures Waiting(Enqueue(queue, ip, p, serial)) == Waiting(queue) + multiset{p.bytes}
  {
    var k := Find(queue, ip);
    if k < |queue| {
      var before, after := queue[k].packets, [p] + queue[k].packets;
      assert after[1..] == before;
      WaitingUpdate(queue, k, queue[k].(packets := after));
      Cancel(Waiting(Enqueue(queue, ip, p, serial)), Frames(before), Waiting(queue) + multiset{p.bytes});
    } else {
      var r := Enqueue(queue, ip, p, serial);
      assert r[0].packets == [p] && r[1..] == queue;
      assert [p][1..] == [] && Frames([p]) == multiset{p.bytes};
    }
  }

  /** Queueing touches one request and leaves every other, and the order of the queue, as it was. */
  lemma {:induction false} EnqueueKeepsOthers(queue: seq<Request>, ip: Ip, p: Packet, serial: nat)
    requires DistinctIps(queue)
    ensures DistinctIps(Enqueue(queue, ip, p, serial))
    ensures var q := Enqueue(queue, ip, p, serial);
            var k := Find(q, ip);
            && k < |q|
            && q[k].packets == Arriving(p) + (if Find(queue, ip) < |queue| then queue[Find(queue, ip)].packets else [])
            && Remove(q, k) == (if Find(queue, ip) < |queue| then Remove(queue, Find(queue, ip)) else queue)
  {
    var k, q := Find(queue, ip), Enqueue(queue, ip, p, serial);
    if k < |queue| {
      FindAt(q, k);
    } else {
      FindAt(q, 0);
    }
  }

  lemma {:induction false} FindAt(queue: seq<Request>, k: nat)
    requires k < |queue| && DistinctIps(queue)
    ensures Find(queue, queue[k].ip) == k
  {
    var f := Find(queue, queue[k].ip);
    assert f <= k;
  }

  lemma EnqueueKeepsSerials(queue: seq<Request>, ip: Ip, p: Packet, next: nat)
    requires DistinctSerials(queue, next)
    ensures DistinctSerials(Enqueue(queue, ip, p, next), next + 1)
  {
    var k, q := Find(queue, ip), Enqueue(queue, ip, p, next);
    if k < |queue| {
      assert forall i :: 0 <= i < |q| ==> q[i].serial == queue[i].serial;
    } else {
      assert forall i :: 1 <= i < |q| ==> q[i] == queue[i - 1];
    }
  }

  /** Queueing keeps one request for each address and for each serial number. */
  lemma EnqueueKeepsDistinct(queue: seq<Request>, ip: Ip, p: Packet, next: nat)
    requires DistinctIps(queue) && DistinctSerials(queue, next)
    ensures DistinctIps(Enqueue(queue, ip, p, next)) && DistinctSerials(Enqueue(queue, ip, p, next), next + 1)
  {
    hide DistinctIps, DistinctSerials, Enqueue, Remove;
    EnqueueKeepsOthers(queue, ip, p, next);
    EnqueueKeepsSerials(queue, ip, p, next);
  }

  lemma RemoveKeepsDistinct(queue: seq<Request>, k: nat, next: nat)
    requires k < |queue|
    ensures DistinctIps(queue) ==> DistinctIps(Remove(queue, k))
    ensures DistinctSerials(queue, next) ==> DistinctSerials(Remove(queue, k), next)
  {
  }
}
