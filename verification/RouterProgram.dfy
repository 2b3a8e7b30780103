/** The router as a program: started, then handling whatever happens. */
module RouterProgram {
  import opened Bytes
  import opened Chain
  import opened Topology
  import opened ArpQueue
  import opened RouterSpec
  import opened RouterInvariants
  import opened RouterRuns
  import opened RouterHistory
  import opened RouterTheorems
  import opened Router

  /** A router that is started and then handles any sequence of events: its heap, its output and its history
      are those of the run from the start, and every frame that was to be forwarded is accounted for. */
  method Serve(order: HostOrder, routes: List<Route>, ifaces: List<Interface>, now: int, events: seq<Event>)
    returns (router: Instance)
    requires routes.Valid() && ifaces.Valid() && Verified(routes.values, ifaces.values)
    requires Timely(now, events)
    ensures router.Valid() && router.Abs() == Run(Start(routes.values, ifaces.values, now), events)
    ensures multiset(ToForward(ifaces.values, events)) == Concluded(router.out) + Waiting(router.cache.queue)
  {
    hide List.Valid, Verified, Inv, Run, Step;
    router := new Instance(order, routes, ifaces, now);
    StartIsOk(routes.values, ifaces.values, now);
    EveryFrameIsAccountedFor(routes.values, ifaces.values, now, events);
    router.HandleAll(events);
  }
}
