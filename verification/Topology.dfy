/** Interfaces and routes: the lookups of sr_if.c and sr_ip.c and the start-up check of sr_main.c. */
module Topology {
  import opened Wrappers
  import opened IpFrame
  import opened Chain
  import opened Masks

  const NAME_LENGTH: nat := 32

  datatype Interface = Interface(name: string, addr: Mac, ip: Ip)
  datatype Route = Route(dest: Ip, gateway: Ip, mask: Ip, iface: string)

  // ---------- What the walks find ----------

  /** The part of a name that strncpy and strncmp with NAME_LENGTH look at. */
  function CName(name: string): string {
    CutAtNul(if |name| <= NAME_LENGTH then name else name[..NAME_LENGTH])
  }

  function CutAtNul(s: string): string {
    if s == [] || s[0] == '\0' then [] else [s[0]] + CutAtNul(s[1..])
  }

  predicate SameName(a: string, b: string) {
    CName(a) == CName(b)
  }

  function FindInterface(ifaces: seq<Interface>, name: string): Option<Interface> {
    if ifaces == [] then None
    else if SameName(ifaces[0].name, name) then Some(ifaces[0])
    else FindInterface(ifaces[1..], name)
  }

  function FindByIp(ifaces: seq<Interface>, ip: Ip): Option<Interface> {
    if ifaces == [] then None
    else if ifaces[0].ip == ip then Some(ifaces[0])
    else FindByIp(ifaces[1..], ip)
  }

  function FindRoute(routes: seq<Route>, ip: Ip): Option<Route> {
    if routes == [] then None
    else if routes[0].dest == ip then Some(routes[0])
    else FindRoute(routes[1..], ip)
  }

  /** How many routes name an interface that is not there. */
  function Missing(routes: seq<Route>, ifaces: seq<Interface>): nat {
    if routes == [] then 0
    else (if FindInterface(ifaces, routes[0].iface) == None then 1 else 0) + Missing(routes[1..], ifaces)
  }

  // ---------- Names, character by character ----------

  /** A character of a C string: past the end, the terminator. */
  function CharAt(s: string, i: nat): char {
    if i < |s| then s[i] else '\0'
  }

  /** Two names agree in their first n characters, as strncmp has it: at every position that is reached, where
      nothing before it differed or ended. */
  ghost predicate AgreeIn(a: string, b: string, n: nat) {
    forall i :: 0 <= i < n && Reached(a, b, i) ==> CharAt(a, i) == CharAt(b, i)
  }

  ghost predicate Reached(a: string, b: string, i: nat) {
    forall j :: 0 <= j < i ==> CharAt(a, j) == CharAt(b, j) && CharAt(a, j) != '\0'
  }

  function Take(s: string, n: nat): string {
    if |s| <= n then s else s[..n]
  }

  function Rest(s: string): string {
    if s == [] then [] else s[1..]
  }

  /** Names are the same exactly if their characters agree in the first 32 places. */
  lemma SameNameExactly(a: string, b: string)
    ensures SameName(a, b) <==> AgreeIn(a, b, 32)
  {
    hide CutAtNul, AgreeIn;
    CutsAgree(a, b, 32);
  }

  lemma {:induction false} CutsAgree(a: string, b: string, n: nat)
    ensures CutAtNul(Take(a, n)) == CutAtNul(Take(b, n)) <==> AgreeIn(a, b, n)
    decreases n
  {
    hide AgreeIn, CutAtNul;
    if n == 0 {
      NothingToAgree(a, b);
    } else {
      CutsAgree(Rest(a), Rest(b), n - 1);
      AgreeOneMore(a, b, n);
      CutOneMore(a, n);
      CutOneMore(b, n);
      SameParts(CharAt(a, 0), CutAtNul(Take(Rest(a), n - 1)), CharAt(b, 0), CutAtNul(Take(Rest(b), n - 1)));
    }
  }

  lemma SameParts(x: char, u: string, y: char, v: string)
    ensures [x] + u == [y] + v <==> x == y && u == v
  {
    assert ([x] + u)[0] == x && ([x] + u)[1..] == u;
    assert ([y] + v)[0] == y && ([y] + v)[1..] == v;
  }

  lemma NothingToAgree(a: string, b: string)
    ensures Take(a, 0) == Take(b, 0) == [] && AgreeIn(a, b, 0)
  {
  }

  lemma {:induction false} CutOneMore(s: string, n: nat)
    requires n > 0
    ensures CutAtNul(Take(s, n)) == if CharAt(s, 0) == '\0' then [] else [CharAt(s, 0)] + CutAtNul(Take(Rest(s), n - 1))
  {
    if s != [] {
      assert Take(s, n)[1..] == Take(Rest(s), n - 1);
    }
  }

  lemma AgreeOneMore(a: string, b: string, n: nat)
    requires n > 0
    ensures AgreeIn(a, b, n)
       <==> CharAt(a, 0) == CharAt(b, 0) && (CharAt(a, 0) == '\0' || AgreeIn(Rest(a), Rest(b), n - 1))
  {
    hide CharAt;
    if CharAt(a, 0) == CharAt(b, 0) != '\0' {
      forall i: nat ensures Reached(a, b, i + 1) <==> Reached(Rest(a), Rest(b), i) {
        ReachOneMore(a, b, i);
      }
      forall i: nat ensures CharAt(Rest(a), i) == CharAt(a, i + 1) && CharAt(Rest(b), i) == CharAt(b, i + 1) {
        NextChar(a, i);
        NextChar(b, i);
      }
      if AgreeIn(a, b, n) {
        forall i | 0 <= i < n - 1 && Reached(Rest(a), Rest(b), i) ensures CharAt(Rest(a), i) == CharAt(Rest(b), i) {
          assert Reached(a, b, i + 1);
        }
      }
      if AgreeIn(Rest(a), Rest(b), n - 1) {
        forall i | 0 <= i < n && Reached(a, b, i) ensures CharAt(a, i) == CharAt(b, i) {
          if i > 0 {
            assert Reached(a, b, (i - 1) + 1);
            assert CharAt(Rest(a), i - 1) == CharAt(Rest(b), i - 1);
          }
        }
      }
    } else {
      assert Reached(a, b, 0);
      assert forall i :: 0 < i < n ==> !Reached(a, b, i);
    }
  }

  lemma NextChar(s: string, i: nat)
    ensures CharAt(Rest(s), i) == CharAt(s, i + 1)
  {
  }

  lemma ReachOneMore(a: string, b: string, i: nat)
    requires CharAt(a, 0) == CharAt(b, 0) != '\0'
    ensures Reached(a, b, i + 1) <==> Reached(Rest(a), Rest(b), i)
  {
    if Reached(a, b, i + 1) {
      forall j | 0 <= j < i
        ensures CharAt(Rest(a), j) == CharAt(Rest(b), j) && CharAt(Rest(a), j) != '\0'
      {
        NextChar(a, j);
        NextChar(b, j);
        assert CharAt(a, j + 1) == CharAt(b, j + 1) && CharAt(a, j + 1) != '\0';
      }
    }
    if Reached(Rest(a), Rest(b), i) {
      forall j | 0 <= j < i + 1 ensures CharAt(a, j) == CharAt(b, j) && CharAt(a, j) != '\0' {
        if j > 0 {
          NextChar(a, j - 1);
          NextChar(b, j - 1);
          assert CharAt(Rest(a), j - 1) == CharAt(Rest(b), j - 1);
        }
      }
    }
  }

  /** The found interface is the first whose name agrees with the given one in the first 32 characters; none is
      found exactly if none does. */
  lemma {:induction false} FoundInterfaceIsFirst(ifaces: seq<Interface>, name: string) returns (k: nat)
    ensures k <= |ifaces| && forall j :: 0 <= j < k ==> !AgreeIn(ifaces[j].name, name, 32)
    ensures k < |ifaces| ==> AgreeIn(ifaces[k].name, name, 32)
    ensures FindInterface(ifaces, name) == if k < |ifaces| then Some(ifaces[k]) else None
  {
    hide AgreeIn, SameName;
    if ifaces == [] {
      k := 0;
    } else {
      SameNameExactly(ifaces[0].name, name);
      if SameName(ifaces[0].name, name) {
        k := 0;
      } else {
        var i := FoundInterfaceIsFirst(ifaces[1..], name);
        k := i + 1;
        forall j | 0 <= j < k ensures !AgreeIn(ifaces[j].name, name, 32) {
          assert j > 0 ==> ifaces[j] == ifaces[1..][j - 1];
        }
      }
    }
  }

  /** The name a new record is given agrees with the name it was added under, and is at most 32 characters. */
  lemma NameIsKept(name: string)
    ensures |CName(name)| <= 32 && CName(name) <= name && AgreeIn(CName(name), name, 32)
  {
    hide AgreeIn, CutAtNul;
    CutIsPrefix(Take(name, 32));
    CutTwice(Take(name, 32));
    SameNameExactly(CName(name), name);
  }

  lemma {:induction false} CutIsPrefix(s: string)
    ensures CutAtNul(s) <= s
  {
    if s != [] && s[0] != '\0' {
      CutIsPrefix(s[1..]);
      assert s == [s[0]] + s[1..];
    }
  }

  lemma {:induction false} CutTwice(s: string)
    ensures CutAtNul(CutAtNul(s)) == CutAtNul(s)
  {
    if s != [] && s[0] != '\0' {
      CutTwice(s[1..]);
      assert CutAtNul(s)[1..] == CutAtNul(s[1..]);
    }
  }

  // ---------- The walks ----------

  method GetInterface(list: List<Interface>, name: string) returns (found: Node?<Interface>)
    requires list.Valid()
    ensures found == null ==> FindInterface(list.values, name) == None
    ensures found != null ==> found in list.nodes && FindInterface(list.values, name) == Some(found.value)
  {
    found := list.head;
    ghost var i := 0;
    while found != null
      invariant 0 <= i <= |list.nodes| && found == list.At(i)
      invariant FindInterface(list.values, name) == FindInterface(list.values[i..], name)
      decreases |list.nodes| - i
    {
      if SameName(found.value.name, name) {
        return;
      }
      found := found.next;
      i := i + 1;
    }
  }

  method InterfaceWithIp(list: List<Interface>, ip: Ip) returns (found: Node?<Interface>)
    requires list.Valid()
    ensures found == null ==> FindByIp(list.values, ip) == None
    ensures found != null ==> found in list.nodes && FindByIp(list.values, ip) == Some(found.value)
  {
    found := list.head;
    ghost var i := 0;
    while found != null
      invariant 0 <= i <= |list.nodes| && found == list.At(i)
      invariant FindByIp(list.values, ip) == FindByIp(list.values[i..], ip)
      decreases |list.nodes| - i
    {
      if found.value.ip == ip {
        return;
      }
      found := found.next;
      i := i + 1;
    }
  }

  /** longest_prefix_sum: despite its name, the first route whose destination is the address itself. The
      last route is examined after the loop. */
  method LongestPrefixSum(list: List<Route>, ip: Ip) returns (found: Node?<Route>)
    requires list.Valid()
    ensures found == null ==> FindRoute(list.values, ip) == None
    ensures found != null ==> found in list.nodes && FindRoute(list.values, ip) == Some(found.value)
  {
    var current := list.head;
    if current != null {
      ghost var i := 0;
      while current.next != null
        invariant 0 <= i < |list.nodes| && current == list.nodes[i]
        invariant FindRoute(list.values, ip) == FindRoute(list.values[i..], ip)
        decreases |list.nodes| - i
      {
        if current.value.dest == ip {
          return current;
        }
        current := current.next;
        i := i + 1;
      }
      if current.value.dest == ip {
        return current;
      }
    }
    return null;
  }

  const NO_LISTS: nat := 999

  /** sr_verify_routing_table: the number of routes without an interface, or 999 if a list is empty. */
  method VerifyRoutingTable(routes: List<Route>, ifaces: List<Interface>) returns (missing: nat)
    requires routes.Valid() && ifaces.Valid()
    ensures missing == if routes.values == [] || ifaces.values == [] then 999
                       else Missing(routes.values, ifaces.values)
    ensures missing == 0 <==> routes.values != [] && ifaces.values != [] && Verified(routes.values, ifaces.values)
  {
    hide FindInterface, Missing, Verified;
    NoneMissing(routes.values, ifaces.values);
    if ifaces.head == null || routes.head == null {
      return NO_LISTS;
    }
    missing := 0;
    var walker := routes.head;
    ghost var i := 0;
    while walker != null
      invariant 0 <= i <= |routes.nodes| && walker == routes.At(i)
      invariant missing + Missing(routes.values[i..], ifaces.values) == Missing(routes.values, ifaces.values)
      decreases |routes.nodes| - i
    {
      var found := GetInterface(ifaces, walker.value.iface);
      if found == null {
        missing := missing + 1;
      }
      MissingFrom(routes.values, ifaces.values, i);
      walker := walker.next;
      i := i + 1;
    }
    assert routes.values[i..] == [];
    NoRoutesMissing(ifaces.values);
  }

  lemma {:induction false} MissingFrom(routes: seq<Route>, ifaces: seq<Interface>, i: nat)
    requires i < |routes|
    ensures Missing(routes[i..], ifaces)
         == (if FindInterface(ifaces, routes[i].iface) == None then 1 else 0) + Missing(routes[i + 1..], ifaces)
  {
    hide FindInterface;
    assert routes[i..][1..] == routes[i + 1..];
  }

  lemma {:induction false} NoRoutesMissing(ifaces: seq<Interface>)
    ensures Missing([], ifaces) == 0
  {
  }

  /** sr_add_interface: the new record has its name; its addresses are whatever memory held. */
  method AddInterface(list: List<Interface>, name: string, junk: Interface)
    requires list.Valid()
    modifies list, list.nodes
    ensures list.Valid() && list.values == old(list.values) + [junk.(name := CName(name))]
  {
    list.Append(junk.(name := CName(name)));
  }

  method SetEtherAddr(list: List<Interface>, addr: Mac)
    requires list.Valid() && list.values != []
    modifies list`values, list.nodes
    ensures list.Valid()
    ensures var n := |old(list.values)| - 1;
            list.values == old(list.values)[..n] + [old(list.values)[n].(addr := addr)]
  {
    var last := list.Last();
    list.SetLast(last.value.(addr := addr));
  }

  method SetEtherIp(list: List<Interface>, ip: Ip)
    requires list.Valid() && list.values != []
    modifies list`values, list.nodes
    ensures list.Valid()
    ensures var n := |old(list.values)| - 1;
            list.values == old(list.values)[..n] + [old(list.values)[n].(ip := ip)]
  {
    var last := list.Last();
    list.SetLast(last.value.(ip := ip));
  }

  // ---------- What start-up verification buys ----------

  /** Every route names an interface that can be found. */
  ghost predicate Verified(routes: seq<Route>, ifaces: seq<Interface>) {
    forall r :: r in routes ==> FindInterface(ifaces, r.iface).Some?
  }

  lemma {:induction false} NoneMissing(routes: seq<Route>, ifaces: seq<Interface>)
    ensures Missing(routes, ifaces) == 0 <==> Verified(routes, ifaces)
  {
    if routes != [] {
      NoneMissing(routes[1..], ifaces);
      assert routes == [routes[0]] + routes[1..];
    }
  }

  lemma {:induction false} FoundRouteIsInTable(routes: seq<Route>, ip: Ip)
    ensures match FindRoute(routes, ip)
            case Some(r) => r in routes && r.dest == ip
            case None => forall r :: r in routes ==> r.dest != ip
  {
    if routes != [] {
      FoundRouteIsInTable(routes[1..], ip);
      assert routes == [routes[0]] + routes[1..];
    }
  }

  /** The found interface is the first with the address; none is found exactly if none has it. */
  lemma {:induction false} FoundByIpIsFirst(ifaces: seq<Interface>, ip: Ip) returns (k: nat)
    ensures k <= |ifaces| && forall j :: 0 <= j < k ==> ifaces[j].ip != ip
    ensures k < |ifaces| ==> ifaces[k].ip == ip
    ensures FindByIp(ifaces, ip) == if k < |ifaces| then Some(ifaces[k]) else None
  {
    if ifaces == [] || ifaces[0].ip == ip {
      k := 0;
    } else {
      var i := FoundByIpIsFirst(ifaces[1..], ip);
      k := i + 1;
      forall j | 0 <= j < k ensures ifaces[j].ip != ip {
        assert j > 0 ==> ifaces[j] == ifaces[1..][j - 1];
      }
    }
  }

  lemma {:induction false} AppendKeepsFound(ifaces: seq<Interface>, more: seq<Interface>, name: string)
    requires FindInterface(ifaces, name).Some?
    ensures FindInterface(ifaces + more, name) == FindInterface(ifaces, name)
  {
    assert (ifaces + more)[1..] == ifaces[1..] + more;
    if !SameName(ifaces[0].name, name) {
      AppendKeepsFound(ifaces[1..], more, name);
    }
  }

  /** Once the routing table verifies, every route that a lookup returns names an interface that is found,
      and the same one whatever interfaces are appended later. */
  lemma {:induction false} VerifiedLookupsResolve(routes: seq<Route>, ifaces: seq<Interface>,
                                                  more: seq<Interface>, ip: Ip)
    requires Missing(routes, ifaces) == 0
    requires FindRoute(routes, ip).Some?
    ensures var name := FindRoute(routes, ip).value.iface;
            FindInterface(ifaces, name).Some? && FindInterface(ifaces + more, name) == FindInterface(ifaces, name)
  {
    NoneMissing(routes, ifaces);
    FoundRouteIsInTable(routes, ip);
    AppendKeepsFound(ifaces, more, FindRoute(routes, ip).value.iface);
  }

  // ---------- The scan and longest-prefix matching ----------

  const ADDRESS_BITS: nat := 32
  const HOST_MASK: Ip := 0xffff_ffff

  /** An address agrees with the destination of a route in the bits of its mask, whatever mask that is. */
  predicate Matches(r: Route, ip: Ip) {
    Masked(ip, r.mask) == Masked(r.dest, r.mask)
  }

  lemma AddressSpace()
    ensures Pow2(ADDRESS_BITS) == 0x1_0000_0000
  {
    assert Pow2(8) == 0x100;
    assert Pow2(16) == 0x1_0000;
    assert Pow2(24) == 0x100_0000;
  }

  /** How many addresses a route matches. */
  function MatchCount(r: Route): nat {
    Reach(r.mask, ADDRESS_BITS)
  }

  /** Longest-prefix matching: a matching route of the table with the greatest mask among those matching,
      which among prefix masks is the longest. */
  ghost predicate LongestMatch(routes: seq<Route>, ip: Ip, r: Route) {
    && r in routes
    && Matches(r, ip)
    && forall other :: other in routes && Matches(other, ip) ==> other.mask <= r.mask
  }

  /** For this address the scan gives what longest-prefix matching would. */
  ghost predicate ScanIsRight(routes: seq<Route>, ip: Ip) {
    match FindRoute(routes, ip)
    case Some(r) => LongestMatch(routes, ip, r)
    case None => forall r :: r in routes ==> !Matches(r, ip)
  }

  /** Every address that a route matches is the destination of some route. */
  ghost predicate SpelledOut(routes: seq<Route>) {
    forall r, ip: Ip :: r in routes && Matches(r, ip) ==> exists q :: q in routes && q.dest == ip
  }

  /** The first route for its destination. */
  ghost predicate IsFirst(routes: seq<Route>, i: nat)
    requires i < |routes|
  {
    forall k :: 0 <= k < i ==> routes[k].dest != routes[i].dest
  }

  /** No route that matches the destination of a first route has a greater mask. */
  ghost predicate LongestFirst(routes: seq<Route>) {
    forall i, r :: 0 <= i < |routes| && IsFirst(routes, i) && r in routes && Matches(r, routes[i].dest) ==>
      r.mask <= routes[i].mask
  }

  /** On any table, with any masks, the scan is longest-prefix matching for every address exactly if what each
      route matches is spelled out address by address, and the first route for a destination is the most
      specific one that matches it. */
  lemma ScanIsRightExactly(routes: seq<Route>)
    ensures (forall ip: Ip :: ScanIsRight(routes, ip)) <==> SpelledOut(routes) && LongestFirst(routes)
  {
    hide FindRoute, Matches;
    if SpelledOut(routes) && LongestFirst(routes) {
      forall ip: Ip ensures ScanIsRight(routes, ip) {
        FoundRouteIsInTable(routes, ip);
        if FindRoute(routes, ip).Some? {
          var i := FoundRouteIsFirst(routes, ip);
          OwnBlock(routes[i]);
        }
      }
    }
    if forall ip: Ip :: ScanIsRight(routes, ip) {
      forall r, ip: Ip | r in routes && Matches(r, ip) ensures exists q :: q in routes && q.dest == ip {
        FoundRouteIsInTable(routes, ip);
        assert ScanIsRight(routes, ip);
      }
      forall i, r | 0 <= i < |routes| && IsFirst(routes, i) && r in routes && Matches(r, routes[i].dest)
        ensures r.mask <= routes[i].mask
      {
        FirstRouteIsFound(routes, i);
        assert ScanIsRight(routes, routes[i].dest);
      }
    }
  }

  lemma OwnBlock(r: Route)
    ensures Matches(r, r.dest)
  {
  }

  lemma {:induction false} FirstRouteIsFound(routes: seq<Route>, i: nat)
    requires i < |routes| && IsFirst(routes, i)
    ensures FindRoute(routes, routes[i].dest) == Some(routes[i])
  {
    if i > 0 {
      assert routes[0].dest != routes[i].dest;
      forall k | 0 <= k < i - 1 ensures routes[1..][k].dest != routes[1..][i - 1].dest {
        assert routes[k + 1].dest != routes[i].dest;
      }
      FirstRouteIsFound(routes[1..], i - 1);
    }
  }

  lemma {:induction false} FoundRouteIsFirst(routes: seq<Route>, ip: Ip) returns (i: nat)
    requires FindRoute(routes, ip).Some?
    ensures i < |routes| && routes[i].dest == ip && IsFirst(routes, i) && FindRoute(routes, ip) == Some(routes[i])
  {
    if routes[0].dest == ip {
      i := 0;
    } else {
      var k := FoundRouteIsFirst(routes[1..], ip);
      i := k + 1;
      forall j | 0 <= j < i ensures routes[j].dest != ip {
        assert j > 0 ==> routes[j] == routes[1..][j - 1];
      }
    }
  }

  /** Under a prefix mask, matching by the bits is lying in the same block: ip and dest agree up to the zeros. */
  lemma {:induction false} PrefixMatch(r: Route, ip: Ip, zeros: nat)
    requires zeros <= ADDRESS_BITS && r.mask == 0x1_0000_0000 - Pow2(zeros)
    ensures Matches(r, ip) <==> ip / Pow2(zeros) == r.dest / Pow2(zeros)
  {
    hide Pow2, Masked, BlockStart;
    AddressSpace();
    PrefixMask(ip, zeros, ADDRESS_BITS);
    PrefixMask(r.dest, zeros, ADDRESS_BITS);
    SameBlock(ip, r.dest, Pow2(zeros));
  }

  lemma HostMatch(r: Route, ip: Ip)
    requires r.mask == HOST_MASK
    ensures Matches(r, ip) <==> r.dest == ip
  {
    hide Pow2, Matches;
    NoZeros();
    PrefixMatch(r, ip, 0);
  }

  /** On a table of host routes the exact-match scan is longest-prefix matching. */
  lemma {:induction false} ScanOnHostRoutes(routes: seq<Route>, ip: Ip)
    requires forall r :: r in routes ==> r.mask == HOST_MASK
    ensures ScanIsRight(routes, ip)
  {
    hide FindRoute, Matches;
    FoundRouteIsInTable(routes, ip);
    forall r | r in routes ensures Matches(r, ip) <==> r.dest == ip {
      HostMatch(r, ip);
    }
  }

  /** As long as no route but a host route matches few enough addresses for the table to spell them out, it is
      so for every address exactly on the tables of host routes. */
  lemma ScanNeedsHostRoutes(routes: seq<Route>)
    requires forall r :: r in routes && r.mask != HOST_MASK ==> MatchCount(r) > |routes|
    ensures (forall ip: Ip :: ScanIsRight(routes, ip)) <==> forall r :: r in routes ==> r.mask == HOST_MASK
  {
    hide FindRoute, Matches, MatchCount, ScanIsRight;
    if forall r :: r in routes ==> r.mask == HOST_MASK {
      forall ip: Ip ensures ScanIsRight(routes, ip) {
        ScanOnHostRoutes(routes, ip);
      }
    } else {
      var r :| r in routes && r.mask != HOST_MASK;
      var ip := MissedAddress(routes, r);
      assert !ScanIsRight(routes, ip);
    }
  }

  function Without(routes: seq<Route>, dest: int): (rest: seq<Route>)
    ensures |rest| <= |routes|
    ensures forall r :: r in rest <==> r in routes && r.dest != dest
    ensures (exists r :: r in routes && r.dest == dest) ==> |rest| < |routes|
  {
    if routes == [] then []
    else
      assert routes == [routes[0]] + routes[1..];
      (if routes[0].dest == dest then [] else [routes[0]]) + Without(routes[1..], dest)
  }

  /** Of more members than there are routes, one is not spelled out. */
  lemma FreeMember(routes: seq<Route>, mask: nat, dest: nat, bits: nat, count: nat) returns (i: nat)
    requires |routes| < count <= Reach(mask, bits)
    ensures i < count && forall r :: r in routes ==> r.dest != Member(i, mask, dest, bits)
    decreases count
  {
    hide Member, Reach;
    i := count - 1;
    var last := Member(i, mask, dest, bits);
    if exists r :: r in routes && r.dest == last {
      i := FreeMember(Without(routes, last), mask, dest, bits, count - 1);
      MembersDiffer(i, count - 1, mask, dest, bits);
    }
  }

  /** A route that matches more addresses than the table has routes matches one that the scan misses. */
  lemma MissedAddress(routes: seq<Route>, r: Route) returns (ip: Ip)
    requires r in routes && MatchCount(r) > |routes|
    ensures Matches(r, ip) && FindRoute(routes, ip) == None && !ScanIsRight(routes, ip)
  {
    hide FindRoute, Member, Reach, Pow2, Masked;
    AddressSpace();
    var i := FreeMember(routes, r.mask, r.dest, ADDRESS_BITS, MatchCount(r));
    MemberMatches(i, r.mask, r.dest, ADDRESS_BITS);
    ip := Member(i, r.mask, r.dest, ADDRESS_BITS);
    FoundRouteIsInTable(routes, ip);
  }

  /** A default route matches every address: with one, any table of fewer than 2^32 routes goes wrong. */
  lemma {:induction false} DefaultRouteIsMissed(routes: seq<Route>, default: Route)
    requires default in routes && default.mask == 0 && |routes| < 0x1_0000_0000
    ensures forall ip: Ip :: Matches(default, ip)
    ensures exists ip: Ip :: FindRoute(routes, ip) == None && !ScanIsRight(routes, ip)
  {
    hide FindRoute, Reach, Pow2, ScanIsRight;
    AddressSpace();
    ReachOfNoMask(ADDRESS_BITS);
    var ip := MissedAddress(routes, default);
  }

  /** The smallest case: a default route alone, and any address but its own. */
  lemma {:induction false} LoneDefaultRoute(gateway: Ip, iface: string, ip: Ip)
    requires ip != 0
    ensures FindRoute([Route(0, gateway, 0, iface)], ip) == None
    ensures LongestMatch([Route(0, gateway, 0, iface)], ip, Route(0, gateway, 0, iface))
  {
    FoundRouteIsInTable([Route(0, gateway, 0, iface)], ip);
  }
}
