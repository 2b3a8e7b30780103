/** The ARP cache of sr_arpcache.c on the heap: an array of entries and a linked list of requests, each
    owning a linked list of packets. Every method is measured against the values of ArpTable and ArpQueue. */
module ArpCache {
  import opened Wrappers
  import opened Bytes
  import opened IpFrame
  import opened ArpTable
  import opened ArpQueue

  /** A waiting packet. Once linked it is never changed, only dropped with its request. */
  class PacketNode {
    const buf: seq<Byte>
    const iface: string
    const next: PacketNode?
    ghost const contents: seq<Packet>  // from this packet to the end of its list
    ghost const owner: RequestNode

    constructor (buf: seq<Byte>, iface: string, next: PacketNode?, ghost owner: RequestNode)
      requires next != null ==> next.Ok() && next.owner == owner
      ensures Ok() && this.owner == owner && contents == [Packet(buf, iface)] + From(next)
    {
      this.buf, this.iface, this.next := buf, iface, next;
      this.contents, this.owner := [Packet(buf, iface)] + From(next), owner;
    }

    /** The list from here is acyclic, holds the contents, and belongs to one request. */
    ghost predicate Ok()
      decreases |contents|
    {
      && contents != []
      && contents[0] == Packet(buf, iface)
      && if next == null then |contents| == 1
         else next.contents == contents[1..] && next.owner == owner && next.Ok()
    }
  }

  /** Following next pointers from p leads to q. */
  ghost predicate Reaches(p: PacketNode, q: PacketNode)
    requires p.Ok()
    decreases |p.contents|
  {
    p == q || (p.next != null && Reaches(p.next, q))
  }

  lemma {:induction false} ReachedIsOwned(p: PacketNode, q: PacketNode)
    requires p.Ok() && Reaches(p, q)
    ensures q.Ok() && q.owner == p.owner && |q.contents| <= |p.contents|
    decreases |p.contents|
  {
    if p != q {
      ReachedIsOwned(p.next, q);
    }
  }

  /** A list never comes back to a packet. */
  lemma {:induction false} ListsAreAcyclic(p: PacketNode, q: PacketNode)
    requires p.Ok() && Reaches(p, q) && q.next != null
    ensures q.next.Ok() && !Reaches(q.next, p) && !Reaches(q.next, q)
  {
    ReachedIsOwned(p, q);
    if Reaches(q.next, p) {
      ReachedIsOwned(q.next, p);
    }
    if Reaches(q.next, q) {
      ReachedIsOwned(q.next, q);
    }
  }

  ghost function From(list: PacketNode?): seq<Packet> {
    if list == null then [] else list.contents
  }

  class RequestNode {
    var ip: Ip
    var sent: int
    var timesSent: nat
    var packets: PacketNode?
    var next: RequestNode?
    ghost var serial: nat

    constructor (ip: Ip, next: RequestNode?, ghost serial: nat)
      ensures Value() == Request(serial, ip, 0, 0, []) && this.next == next && packets == null
    {
      this.ip, this.next, this.serial := ip, next, serial;
      sent, timesSent, packets := 0, 0, null;
    }

    /** The bookkeeping of handle_arpreq. */
    method MarkSent(now: int)
      modifies this`sent, this`timesSent
      ensures Value() == old(Value()).(sent := now, timesSent := old(Value()).timesSent + 1)
    {
      sent := now;
      timesSent := timesSent + 1;
    }

    /** Puts a packet at the front of the list. */
    method Push(buf: seq<Byte>, iface: string)
      requires Holds()
      modifies this`packets
      ensures Holds() && Value() == old(Value()).(packets := [Packet(buf, iface)] + old(Value()).packets)
    {
      packets := new PacketNode(buf, iface, packets, this);
    }

    ghost function Value(): Request
      reads this`serial, this`ip, this`sent, this`timesSent, this`packets
    {
      Request(serial, ip, sent, timesSent, From(packets))
    }

    /** The packets are this request's own. */
    ghost predicate Holds()
      reads this`packets
    {
      packets != null ==> packets.Ok() && packets.owner == this
    }
  }

  /** The list from head goes through exactly these nodes, all distinct, and ends. */
  ghost predicate Linked(head: RequestNode?, nodes: seq<RequestNode>)
    reads nodes`next
  {
    && head == At(nodes, 0)
    && (forall i {:trigger nodes[i].next} :: 0 <= i < |nodes| ==> nodes[i].next == At(nodes, i + 1))
    && (forall i, j :: 0 <= i < j < |nodes| ==> nodes[i] != nodes[j])
  }

  ghost function At(nodes: seq<RequestNode>, i: nat): RequestNode? {
    if i < |nodes| then nodes[i] else null
  }

  /** The nodes hold the requests of the queue, each with packets of its own. */
  ghost predicate Held(nodes: seq<RequestNode>, queue: seq<Request>)
    reads nodes`serial, nodes`ip, nodes`sent, nodes`timesSent, nodes`packets
  {
    && |queue| == |nodes|
    && forall i :: 0 <= i < |nodes| ==> nodes[i].Value() == queue[i] && nodes[i].Holds()
  }

  class Cache {
    const entries: array<Entry>
    var requests: RequestNode?
    ghost var nodes: seq<RequestNode>
    ghost var queue: seq<Request>

    /** The requests form an acyclic list of distinct nodes with disjoint packet lists, and hold the queue. */
    ghost predicate Valid()
      reads this, nodes
    {
      entries.Length == SLOTS && Linked(requests, nodes) && Held(nodes, queue)
    }

    constructor ()
      ensures Valid() && queue == [] && nodes == [] && fresh(entries)
      ensures forall i :: 0 <= i < SLOTS ==> entries[i] == NO_ENTRY
    {
      entries := new Entry[SLOTS](_ => NO_ENTRY);
      requests := null;
      nodes, queue := [], [];
    }

    // ---------- The table ----------

    /** sr_arpcache_lookup. */
    method LookupEntry(ip: Ip) returns (copy: Option<Entry>)
      ensures copy == Lookup(entries[..], ip)
    {
      copy := None;
      var i := 0;
      while i < entries.Length
        invariant i <= entries.Length && copy == Lookup(entries[..i], ip)
      {
        assert entries[..i + 1][..i] == entries[..i];
        if entries[i].valid && entries[i].ip == ip {
          copy := Some(entries[i]);
        }
        i := i + 1;
      }
      assert entries[..i] == entries[..];
    }

    /** The second half of sr_arpcache_insert. */
    method StoreEntry(mac: Mac, ip: Ip, now: int)
      modifies entries
      ensures entries[..] == Learn(old(entries[..]), mac, ip, now)
    {
      var i := 0;
      while i < entries.Length
        invariant i <= entries.Length
        invariant FreeSlot(entries[..]) == i + FreeSlot(entries[i..])
      {
        if !entries[i].valid {
          break;
        }
        assert entries[i..][1..] == entries[i + 1..];
        i := i + 1;
      }
      assert i == FreeSlot(entries[..]);
      if i != entries.Length {
        entries[i] := Entry(mac, ip, now, true);
      }
    }

    /** The expiry pass of sr_arpcache_timeout. */
    method ExpireEntries(now: int)
      modifies entries
      ensures entries[..] == Expire(old(entries[..]), now)
    {
      var i := 0;
      while i < entries.Length
        invariant i <= entries.Length
        invariant forall j :: 0 <= j < i ==> entries[j] == ExpireEntry(old(entries[j]), now)
        invariant forall j :: i <= j < entries.Length ==> entries[j] == old(entries[j])
      {
        if entries[i].valid && now - entries[i].added > TIMEOUT {
          entries[i] := entries[i].(valid := false);
        }
        i := i + 1;
      }
    }

    // ---------- The queue ----------

    /** The walk that sr_arpcache_queuereq begins with. */
    method FindRequest(ip: Ip) returns (req: RequestNode?)
      requires Valid()
      ensures req == At(nodes, Find(queue, ip))
    {
      req := requests;
      ghost var i := 0;
      while req != null && req.ip != ip
        invariant 0 <= i <= |nodes| && req == At(nodes, i)
        invariant forall j :: 0 <= j < i ==> queue[j].ip != ip
        decreases |nodes| - i
      {
        assert nodes[i].Value() == queue[i];
        req := req.next;
        i := i + 1;
      }
      assert i < |nodes| ==> nodes[i].Value() == queue[i];
    }

    /** sr_arpcache_queuereq. */
    method QueueReq(ip: Ip, packet: seq<Byte>, iface: string, ghost serial: nat) returns (req: RequestNode)
      requires Valid()
      modifies this`requests, this`nodes, this`queue, nodes
      ensures Valid() && queue == Enqueue(old(queue), ip, Packet(packet, iface), serial)
      ensures Find(queue, ip) < |queue| == |nodes| && req == nodes[Find(queue, ip)]
      ensures forall n :: n in nodes ==> n in old(nodes) || fresh(n)
    {
      hide Valid;
      ghost var k := Find(queue, ip);
      var found := FindRequest(ip);
      SameLength();
      if found == null {
        req := AddRequest(ip, serial);
        k := 0;
      } else {
        req := found;
      }
      if |packet| > 0 {
        AddPacket(req, packet, iface, k);
      }
      EnqueueInTwo(old(queue), ip, Packet(packet, iface), serial);
    }

    /** No packet is on the lists of two requests. */
    lemma {:induction false} ListsAreApart(i: nat, j: nat, p: PacketNode)
      requires Valid() && i < j < |nodes| && nodes[i].packets != null && nodes[j].packets != null
      requires Reaches(nodes[i].packets, p)
      ensures !Reaches(nodes[j].packets, p)
    {
      ReachedIsOwned(nodes[i].packets, p);
      if Reaches(nodes[j].packets, p) {
        ReachedIsOwned(nodes[j].packets, p);
      }
    }

    lemma SameLength()
      requires Valid()
      ensures |nodes| == |queue|
    {
    }

    lemma FirstNode()
      requires Valid()
      ensures requests == At(nodes, 0)
    {
    }

    lemma NextNode(k: nat)
      requires Valid() && k < |nodes|
      ensures nodes[k].next == At(nodes, k + 1)
    {
    }

    lemma NodeHolds(k: nat)
      requires Valid() && k < |nodes|
      ensures |nodes| == |queue| && nodes[k].Value() == queue[k] && nodes[k].Holds()
    {
    }

    /** Puts an empty request at the head of the queue. */
    method AddRequest(ip: Ip, ghost serial: nat) returns (req: RequestNode)
      requires Valid()
      modifies this`requests, this`nodes, this`queue
      ensures Valid() && queue == [Request(serial, ip, 0, 0, [])] + old(queue)
      ensures nodes == [req] + old(nodes) && fresh(req)
    {
      req := new RequestNode(ip, requests, serial);
      requests := req;
      nodes, queue := [req] + nodes, [Request(serial, ip, 0, 0, [])] + queue;
    }

    /** Puts a packet at the front of a request's list. */
    method AddPacket(req: RequestNode, packet: seq<Byte>, iface: string, ghost k: nat)
      requires Valid() && k < |nodes| && req == nodes[k]
      modifies this`queue, req`packets
      ensures Valid()
      ensures queue == old(queue)[k := old(queue)[k].(packets := [Packet(packet, iface)] + old(queue)[k].packets)]
    {
      hide Linked, RequestNode.Value, RequestNode.Holds;
      DistinctNodes(requests, nodes, k);
      req.Push(packet, iface);
      queue := queue[k := queue[k].(packets := [Packet(packet, iface)] + queue[k].packets)];
    }

    /** Takes the k-th request off the list. */
    method Unlink(prev: RequestNode?, req: RequestNode, ghost k: nat)
      requires Valid() && k < |nodes| && req == nodes[k]
      requires if k == 0 then prev == null else prev == nodes[k - 1]
      modifies this`requests, this`nodes, this`queue, nodes`next
      ensures Valid() && queue == Remove(old(queue), k)
      ensures nodes == old(nodes)[..k] + old(nodes)[k + 1..]
      ensures req !in nodes && req.Value() == old(req.Value()) && req.Holds()
    {
      hide Held, Remove, RequestNode.Value, RequestNode.Holds;
      HeldWithout(nodes, queue, k);
      if prev != null {
        prev.next := req.next;
      } else {
        requests := req.next;
      }
      nodes, queue := nodes[..k] + nodes[k + 1..], Remove(queue, k);
    }

    /** The first half of sr_arpcache_insert: the request for ip, if any, leaves the queue and is returned. */
    method TakeRequest(ip: Ip) returns (req: RequestNode?)
      requires Valid()
      modifies this`requests, this`nodes, this`queue, nodes`next
      ensures Valid()
      ensures var k := Find(old(queue), ip);
              if req == null then k == |old(queue)| && queue == old(queue) && nodes == old(nodes)
              else && k < |old(queue)| && req == old(nodes)[k]
                   && queue == Remove(old(queue), k)
                   && nodes == old(nodes)[..k] + old(nodes)[k + 1..]
                   && req !in nodes && req.Value() == old(queue)[k] && req.Holds()
    {
      hide Valid, Remove, RequestNode.Holds;
      SameLength();
      FirstNode();
      var prev: RequestNode? := null;
      req := requests;
      ghost var i := 0;
      while req != null && req.ip != ip
        invariant Valid() && 0 <= i <= |nodes| == |queue| && req == At(nodes, i)
        invariant nodes == old(nodes) && queue == old(queue)
        invariant if i == 0 then prev == null else prev == nodes[i - 1]
        invariant forall j :: 0 <= j < i ==> queue[j].ip != ip
        decreases |nodes| - i
      {
        NodeHolds(i);
        NextNode(i);
        prev := req;
        req := req.next;
        i := i + 1;
      }
      if req != null {
        NodeHolds(i);
        Unlink(prev, req, i);
      }
    }

    /** sr_arpcache_insert. */
    method Insert(mac: Mac, ip: Ip, now: int) returns (req: RequestNode?)
      requires Valid()
      modifies this`requests, this`nodes, this`queue, nodes`next, entries
      ensures Valid() && entries[..] == Learn(old(entries[..]), mac, ip, now)
      ensures forall j :: 0 <= j < |nodes| ==> nodes[j] in old(nodes)
      ensures var k := Find(old(queue), ip);
              if req == null then k == |old(queue)| && queue == old(queue)
              else && k < |old(queue)| && queue == Remove(old(queue), k)
                   && req in old(nodes) && req !in nodes
                   && From(req.packets) == old(queue)[k].packets && req.Holds()
    {
      hide Linked, Held, Learn, Remove;
      SameLength();
      req := TakeRequest(ip);
      StoreEntry(mac, ip, now);
    }

    /** sr_arpreq_destroy: a request that is on the queue is taken off it; one that is not is just let go. */
    method Destroy(entry: RequestNode)
      requires Valid()
      modifies this`requests, this`nodes, this`queue, nodes`next
      ensures Valid()
      ensures entry !in old(nodes) ==> queue == old(queue) && nodes == old(nodes)
      ensures forall k :: 0 <= k < |old(nodes)| && old(nodes)[k] == entry ==>
                queue == Remove(old(queue), k) && nodes == old(nodes)[..k] + old(nodes)[k + 1..]
    {
      var prev: RequestNode? := null;
      var req := requests;
      ghost var i := 0;
      while req != null && req != entry
        invariant 0 <= i <= |nodes| && req == At(nodes, i)
        invariant if i == 0 then prev == null else prev == nodes[i - 1]
        invariant forall j :: 0 <= j < i ==> nodes[j] != entry
        decreases |nodes| - i
      {
        prev := req;
        req := req.next;
        i := i + 1;
      }
      if req != null {
        Unlink(prev, req, i);
      }
    }

    /** The bookkeeping of handle_arpreq for a request that was sent again. */
    method MarkSent(req: RequestNode, now: int, ghost k: nat)
      requires Valid() && k < |nodes| && req == nodes[k]
      modifies this`queue, req`sent, req`timesSent
      ensures Valid()
      ensures queue == old(queue)[k := old(queue)[k].(sent := now, timesSent := old(queue)[k].timesSent + 1)]
    {
      hide Linked, RequestNode.Value, RequestNode.Holds;
      DistinctNodes(requests, nodes, k);
      req.MarkSent(now);
      queue := queue[k := queue[k].(sent := now, timesSent := queue[k].timesSent + 1)];
    }
  }

  lemma DistinctNodes(head: RequestNode?, nodes: seq<RequestNode>, k: nat)
    requires Linked(head, nodes) && k < |nodes|
    ensures forall i :: 0 <= i < |nodes| && i != k ==> nodes[i] != nodes[k]
  {
  }

  lemma HeldWithout(nodes: seq<RequestNode>, queue: seq<Request>, k: nat)
    requires Held(nodes, queue) && k < |nodes|
    ensures |queue| == |nodes|
    ensures Held(nodes[..k] + nodes[k + 1..], Remove(queue, k))
    ensures nodes[k].Value() == queue[k] && nodes[k].Holds()
  {
  }

  /** Queueing is finding or making the request, then adding the packet. */
  lemma {:induction false} EnqueueInTwo(q: seq<Request>, ip: Ip, p: Packet, serial: nat)
    ensures var k := Find(q, ip);
            var made := if k < |q| then q else [Request(serial, ip, 0, 0, [])] + q;
            var at := if k < |q| then k else 0;
            && at == Find(Enqueue(q, ip, p, serial), ip)
            && Enqueue(q, ip, p, serial) == if p.bytes == [] then made
                                            else made[at := made[at].(packets := [p] + made[at].packets)]
  {
    var k, r := Find(q, ip), Enqueue(q, ip, p, serial);
    if k < |q| {
      assert [] + q[k].packets == q[k].packets;
      assert forall i :: 0 <= i < k ==> r[i].ip != ip;
      assert r[k].ip == ip;
    } else {
      assert r[0].ip == ip;
      assert [p] + [] == [p];
    }
  }
}
