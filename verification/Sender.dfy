/** The sender's accounting (sender.cc), driving the AIMD controller: sequence numbers, the next ack
    expected, and the rules that decide when to send. */
module Sender {
  import opened Aimd

  /** The sender's fields, with the history of a run: the numbers sent, the acks and timeouts so far, and
      the largest window that was filled, in whole datagrams. */
  datatype State = State(window: Window, next: nat, expected: nat,
                         sent: seq<nat>, acks: nat, timeouts: nat, widest: nat)

  datatype Event =
    | Writable
    | Acked(number: nat, sentAt: nat, receivedAt: nat)
    | Timeout

  /** Outstanding datagrams as the code computes them, in unsigned 64-bit arithmetic. */
  function Outstanding(s: State): nat {
    (s.next - s.expected) % UINT64
  }

  function WindowSize(w: Window): nat {
    Truncate(w.size)
  }

  predicate IsOpen(s: State) {
    Outstanding(s) < WindowSize(s.window)
  }

  function SendOne(s: State): State {
    s.(next := (s.next + 1) % UINT64, sent := s.sent + [s.next])
  }

  /** Consecutive sequence numbers from first, in 64-bit arithmetic. */
  function Burst(first: nat, count: nat): (b: seq<nat>)
    ensures |b| == count
  {
    seq(count, i requires 0 <= i < count => (first + i) % UINT64)
  }

  function Room(s: State): nat {
    if IsOpen(s) then WindowSize(s.window) - Outstanding(s) else 0
  }

  function Max(x: nat, y: nat): nat {
    if x >= y then x else y
  }

  /** The first rule: if the window is open, close it. */
  function CloseWindow(s: State): State {
    s.(next := (s.next + Room(s)) % UINT64, sent := s.sent + Burst(s.next, Room(s)),
       widest := Max(s.widest, WindowSize(s.window)))
  }

  /** The second rule. */
  function GotAck(s: State, number: nat, sentAt: nat, receivedAt: nat): State {
    s.(expected := Max(s.expected, (number + 1) % UINT64),
       window := Ack(s.window, RoundTrip(sentAt, receivedAt) <= TIMEOUT_MS), acks := s.acks + 1)
  }

  function Step(s: State, e: Event): State {
    match e
    case Writable => CloseWindow(s)
    case Acked(number, sentAt, receivedAt) => GotAck(s, number, sentAt, receivedAt)
    case Timeout => SendOne(s).(timeouts := s.timeouts + 1)
  }

  class DatagrumpSender {
    const controller: Controller
    var sequenceNumber: nat
    var nextAckExpected: nat
    ghost var sent: seq<nat>
    ghost var acks: nat
    ghost var timeouts: nat
    ghost var widest: nat

    /** The window holds a datagram and fits the unsigned int that window_size returns. */
    ghost predicate Valid()
      reads this, controller
    {
      1.0 <= controller.thisWindow < UINT32 as real && sequenceNumber < UINT64 && nextAckExpected < UINT64
    }

    ghost function Abs(): State
      requires controller.thisWindow > 0.0
      reads this, controller
    {
      State(controller.Abs(), sequenceNumber, nextAckExpected, sent, acks, timeouts, widest)
    }

    constructor ()
      ensures Valid() && Abs() == BEGIN && fresh(controller)
    {
      controller := new Controller(10.0, 25.0);
      sequenceNumber, nextAckExpected := 0, 0;
      sent, acks, timeouts, widest := [], 0, 0, 0;
    }

    method WindowIsOpen() returns (open: bool)
      requires Valid()
      ensures open == IsOpen(Abs())
    {
      var size := controller.WindowSize();
      open := (sequenceNumber - nextAckExpected) % UINT64 < size;
    }

    method SendDatagram()
      requires Valid()
      modifies this`sequenceNumber, this`sent
      ensures Valid() && Abs() == SendOne(old(Abs()))
    {
      sent := sent + [sequenceNumber];
      sequenceNumber := (sequenceNumber + 1) % UINT64;
    }

    /** The action of the first rule; it ends because every datagram sent takes up window. */
    method FillWindow()
      requires Valid()
      modifies this`sequenceNumber, this`sent, this`widest
      ensures Valid() && Abs() == Step(old(Abs()), Writable)
      ensures !IsOpen(Abs())
    {
      hide Outstanding, WindowSize, Burst, Truncate;
      ghost var s, count := Abs(), 0;
      widest := Max(widest, WindowSize(s.window));
      FillStart(s);
      var open := WindowIsOpen();
      while open
        invariant Valid() && count <= Room(s) && open == IsOpen(Abs()) == (count < Room(s))
        invariant Abs() == Filling(s, count)
        decreases Room(s) - count
      {
        SendDatagram();
        FillOneMore(s, count);
        count := count + 1;
        open := WindowIsOpen();
      }
    }

    method GotAck(number: nat, sentAt: nat, receivedAt: nat)
      requires Valid() && controller.thisWindow < (UINT32 - 2) as real
      modifies this`nextAckExpected, this`acks, controller
      ensures Valid() && Abs() == Step(old(Abs()), Acked(number, sentAt, receivedAt))
    {
      AckAddsAtMostTwo(controller.Abs(), RoundTrip(sentAt, receivedAt) <= TIMEOUT_MS);
      nextAckExpected := Max(nextAckExpected, (number + 1) % UINT64);
      controller.AckReceived(sentAt, receivedAt);
      acks := acks + 1;
    }

    /** After a poll without events, one datagram is sent. */
    method OnTimeout()
      requires Valid()
      modifies this`sequenceNumber, this`sent, this`timeouts
      ensures Valid() && Abs() == Step(old(Abs()), Timeout)
    {
      SendDatagram();
      timeouts := timeouts + 1;
    }

    /** One event, handled by its action. */
    method HandleEvent(e: Event)
      requires Valid() && (e.Acked? ==> controller.thisWindow < (UINT32 - 2) as real)
      modifies this, controller
      ensures Valid() && Abs() == Step(old(Abs()), e)
    {
      match e
      case Writable => FillWindow();
      case Acked(number, sentAt, receivedAt) => GotAck(number, sentAt, receivedAt);
      case Timeout => OnTimeout();
    }
  }

  /** A sender that is started and then handles any sequence of events: it goes through exactly the run of the
      state machine, and is safe at its end. */
  method Serve(events: seq<Event>) returns (d: DatagrumpSender)
    requires Honest(BEGIN, events) && |Run(BEGIN, events).sent| < UINT64 && Run(BEGIN, events).acks <= ACK_LIMIT
    ensures d.Valid() && d.Abs() == Run(BEGIN, events) && Safe(d.Abs())
  {
    hide Safe, Honest, Step;
    d := new DatagrumpSender();
    EveryRunIsSafe(events);
    var i := 0;
    while i < |events|
      invariant i <= |events| && d.Valid() && fresh(d) && fresh(d.controller)
      invariant d.Abs() == Run(BEGIN, events[..i])
    {
      assert events[..i + 1][..i] == events[..i];
      PrefixIsSafe(events, i);
      d.HandleEvent(events[i]);
      i := i + 1;
    }
    assert events[..i] == events;
  }

  lemma AckAddsAtMostTwo(w: Window, onTime: bool)
    requires w.size >= 1.0
    ensures 1.0 < Ack(w, onTime).size && (Ack(w, onTime).size <= w.size + 2.0 || Ack(w, onTime).size == 3.0)
  {
    ClampNeverFires(w, onTime);
    QuotientShrinks(w.size, 1.0);
  }

  /** The state while the window is being filled, so many datagrams on. */
  function Filling(s: State, count: nat): State {
    s.(next := (s.next + count) % UINT64, sent := s.sent + Burst(s.next, count),
       widest := Max(s.widest, WindowSize(s.window)))
  }

  lemma FillStart(s: State)
    requires s.next < UINT64 && s.window.size < UINT32 as real
    ensures Filling(s, 0) == s.(widest := Max(s.widest, WindowSize(s.window)))
    ensures IsOpen(Filling(s, 0)) == (0 < Room(s)) && WindowSize(s.window) <= UINT32
  {
    assert s.sent + Burst(s.next, 0) == s.sent;
  }

  lemma FillOneMore(s: State, count: nat)
    requires count < Room(s) && WindowSize(s.window) <= UINT32
    ensures SendOne(Filling(s, count)) == Filling(s, count + 1)
    ensures IsOpen(Filling(s, count + 1)) == (count + 1 < Room(s))
  {
    hide Truncate;
    assert Burst(s.next, count + 1) == Burst(s.next, count) + [(s.next + count) % UINT64];
    NextNumber(s.next, s.expected, count, Outstanding(s));
  }

  lemma NextNumber(next: nat, expected: nat, count: nat, gap: nat)
    requires gap == (next - expected) % UINT64 && gap + count + 1 < UINT64
    ensures ((next + count) % UINT64 + 1) % UINT64 == (next + (count + 1)) % UINT64
    ensures ((next + (count + 1)) % UINT64 - expected) % UINT64 == gap + count + 1
  {
  }

  const BEGIN := State(Aimd.START, 0, 0, [], 0, 0, 0)

  // ---------- Whole runs ----------

  function Run(s: State, events: seq<Event>): State {
    if events == [] then s else Step(Run(s, events[..|events| - 1]), events[|events| - 1])
  }

  /** Only numbers that have been sent are acknowledged. */
  ghost predicate Honest(s: State, events: seq<Event>) {
    events == [] ||
    (var before, last := events[..|events| - 1], events[|events| - 1];
     Honest(s, before) && (last.Acked? ==> last.number < |Run(s, before).sent|))
  }

  /** Every number is sent once and in order, none is acknowledged before it is sent, and no more are
      outstanding than the widest window filled so far and one for each timeout. */
  ghost predicate Safe(s: State) {
    && (forall i :: 0 <= i < |s.sent| ==> s.sent[i] == i)
    && s.expected <= s.next == |s.sent| < UINT64
    && s.next - s.expected <= s.widest + s.timeouts
    && Within(s.window, s.acks)
    && Square(s.widest as real) <= Bound(s.acks)
  }

  lemma StepKeepsSafe(s: State, e: Event)
    requires Safe(s) && |Step(s, e).sent| < UINT64
    requires e.Acked? ==> e.number < |s.sent|
    ensures Safe(Step(s, e))
  {
    hide Within, Bound, Square, Ack;
    match e
    case Writable => CloseKeepsSafe(s);
    case Acked(number, sentAt, receivedAt) => AckKeepsSafe(s, number, sentAt, receivedAt);
    case Timeout =>
  }

  lemma CloseKeepsSafe(s: State)
    requires Safe(s) && |CloseWindow(s).sent| < UINT64
    ensures Safe(CloseWindow(s))
  {
    hide WindowSize, Bound, Within, Square;
    WidestIsBounded(s.window, s.acks);
    var room := Room(s);
    assert Outstanding(s) == s.next - s.expected;
    assert s.next + room < UINT64;
    forall i | 0 <= i < |CloseWindow(s).sent| ensures CloseWindow(s).sent[i] == i {
      if i >= |s.sent| {
        assert CloseWindow(s).sent[i] == Burst(s.next, room)[i - |s.sent|];
      }
    }
  }

  lemma WidestIsBounded(w: Window, acks: nat)
    requires Within(w, acks)
    ensures Square(WindowSize(w) as real) <= Bound(acks)
  {
    SquareGrows(WindowSize(w) as real, w.size);
  }

  lemma AckKeepsSafe(s: State, number: nat, sentAt: nat, receivedAt: nat)
    requires Safe(s) && number < |s.sent|
    ensures Safe(GotAck(s, number, sentAt, receivedAt))
  {
    hide Within, Ack;
    StepStaysWithin(s.window, s.acks, RoundTrip(sentAt, receivedAt) <= TIMEOUT_MS);
    assert Bound(s.acks) <= Bound(s.acks + 1);
  }

  lemma StepSendsMore(s: State, e: Event)
    ensures |s.sent| <= |Step(s, e).sent|
    ensures s.expected <= Step(s, e).expected && s.acks <= Step(s, e).acks
  {
  }

  /** In every run in which only sent numbers are acknowledged and fewer than 2^64 datagrams are sent,
      every state is safe. */
  lemma {:induction false} EveryRunIsSafe(events: seq<Event>)
    requires Honest(BEGIN, events) && |Run(BEGIN, events).sent| < UINT64
    ensures Safe(Run(BEGIN, events))
  {
    hide Step, Safe;
    if events != [] {
      var before, last := events[..|events| - 1], events[|events| - 1];
      StepSendsMore(Run(BEGIN, before), last);
      EveryRunIsSafe(before);
      StepKeepsSafe(Run(BEGIN, before), last);
    } else {
      BeginIsSafe();
    }
  }

  /** Each state on the way is safe as well, and its window fits the unsigned int. */
  lemma {:induction false} PrefixIsSafe(events: seq<Event>, i: nat)
    requires i <= |events| && Honest(BEGIN, events)
    requires |Run(BEGIN, events).sent| < UINT64 && Run(BEGIN, events).acks <= ACK_LIMIT
    ensures var s := Run(BEGIN, events[..i]); Safe(s) && s.window.size < (UINT32 - 2) as real
    decreases |events|
  {
    hide Step, Safe;
    if i == |events| {
      assert events[..i] == events;
      EveryRunIsSafe(events);
      SafeWindowFits(Run(BEGIN, events));
    } else {
      var n := |events| - 1;
      StepSendsMore(Run(BEGIN, events[..n]), events[n]);
      assert events[..n][..i] == events[..i];
      PrefixIsSafe(events[..n], i);
    }
  }

  lemma SafeWindowFits(s: State)
    requires Safe(s) && s.acks <= ACK_LIMIT
    ensures s.window.size < (UINT32 - 2) as real
  {
    hide Within;
    WithinFits(s.window, s.acks);
  }

  lemma BeginIsSafe()
    ensures Safe(BEGIN)
  {
  }

  /** For each ack of the run, whether it came within 105 ms, as the code reckons it: the difference of the two
      64-bit clocks, cut to 32 bits. */
  function Punctual(events: seq<Event>): seq<bool> {
    if events == [] then []
    else
      var last := events[|events| - 1];
      Punctual(events[..|events| - 1])
      + if last.Acked?
        then [(last.receivedAt - last.sentAt) % 0x1_0000_0000_0000_0000 % 0x1_0000_0000 <= 105]
        else []
  }

  function TimeoutsIn(events: seq<Event>): nat {
    if events == [] then 0
    else TimeoutsIn(events[..|events| - 1]) + if events[|events| - 1].Timeout? then 1 else 0
  }

  /** In every run the window is the one the acks make of the first window, 10 datagrams with a threshold of 25,
      and the counts kept with the run are the counts of its events. */
  lemma {:induction false} WindowInEveryRun(events: seq<Event>)
    ensures var s := Run(BEGIN, events);
            && s.window == Aimd.Run(Window(10.0, 25), Punctual(events))
            && s.acks == |Punctual(events)| && s.timeouts == TimeoutsIn(events)
  {
    hide Ack;
    if events != [] {
      var n := |events| - 1;
      WindowInEveryRun(events[..n]);
      var acks, last := Punctual(events), events[n];
      if last.Acked? {
        assert acks[..|acks| - 1] == Punctual(events[..n]);
        assert acks[|acks| - 1] == (RoundTrip(last.sentAt, last.receivedAt) <= TIMEOUT_MS);
      } else {
        assert acks == Punctual(events[..n]);
        SendingKeepsWindow(Run(BEGIN, events[..n]), last);
      }
    }
  }

  /** In every honest run the next expected number is one more than the highest that was acknowledged. */
  lemma {:induction false} ExpectedInEveryRun(events: seq<Event>)
    requires Honest(BEGIN, events) && |Run(BEGIN, events).sent| < UINT64
    ensures var s := Run(BEGIN, events);
            && (forall i :: 0 <= i < |events| && events[i].Acked? ==> events[i].number < s.expected)
            && (s.expected == 0
                || exists i :: 0 <= i < |events| && events[i].Acked? && s.expected == events[i].number + 1)
  {
    hide Ack, Safe, CloseWindow, Within;
    if events != [] {
      var n := |events| - 1;
      var s, last := Run(BEGIN, events[..n]), events[n];
      StepSendsMore(s, last);
      ExpectedInEveryRun(events[..n]);
      if last.Acked? {
        assert (last.number + 1) % UINT64 == last.number + 1;
      } else {
        SendingExpectsNothing(s, last);
      }
      assert s.expected == 0
          || exists i :: 0 <= i < n && events[i].Acked? && s.expected == events[..n][i].number + 1;
      var t := Run(BEGIN, events);
      assert t.expected == s.expected || (last.Acked? && t.expected == last.number + 1);
      assert events[n] == last;
    }
  }

  lemma SendingKeepsWindow(s: State, e: Event)
    requires !e.Acked?
    ensures Step(s, e).window == s.window && Step(s, e).acks == s.acks
    ensures Step(s, e).timeouts == s.timeouts + if e.Timeout? then 1 else 0
  {
  }

  lemma SendingExpectsNothing(s: State, e: Event)
    requires !e.Acked?
    ensures Step(s, e).expected == s.expected
  {
  }

  /** The window is open exactly if one datagram more would fit in it. */
  lemma OpenIsRoomForOne(s: State)
    requires Safe(s)
    ensures IsOpen(s) <==> (s.next - s.expected + 1) as real <= s.window.size
  {
    hide Bound, Square;
  }

  /** The first rule fills the window to the last whole datagram, and takes nothing back if it is overfull. */
  lemma ClosingFillsWindow(s: State)
    requires Safe(s) && |CloseWindow(s).sent| < UINT64
    ensures var t := CloseWindow(s);
            && t.expected == s.expected
            && t.next - t.expected == Max(s.next - s.expected, s.window.size.Floor)
  {
    hide Bound, Square;
    assert Outstanding(s) == s.next - s.expected;
    assert |CloseWindow(s).sent| == |s.sent| + Room(s);
  }

  /** A timeout sends one datagram more. */
  lemma TimeoutSendsOne(s: State)
    requires Safe(s) && |s.sent| + 1 < UINT64
    ensures var t := Step(s, Timeout);
            t.next - t.expected == s.next - s.expected + 1 && t.sent == s.sent + [|s.sent|]
  {
    hide Bound, Square;
  }

  /** So the datagrams outstanding, beyond one for each timeout, are at most the square root of 676 plus
      40/9 for each ack. */
  lemma {:induction false} OutstandingIsLimited(events: seq<Event>)
    requires Honest(BEGIN, events) && |Run(BEGIN, events).sent| < UINT64
    ensures var s := Run(BEGIN, events);
            var beyond := Outstanding(s) - s.timeouts;
            beyond <= 0 || Square(beyond as real) <= Bound(s.acks)
  {
    hide Bound, Run;
    EveryRunIsSafe(events);
    var s := Run(BEGIN, events);
    assert Outstanding(s) == s.next - s.expected;
    var beyond := Outstanding(s) - s.timeouts;
    if beyond > 0 {
      SquareGrows(beyond as real, s.widest as real);
    }
  }

  /** From a safe state, an ack keeps the next expected number within what was sent exactly if the number
      after it, in 64-bit arithmetic, is at most how many were sent: its own number was sent, or it is the last
      number of all. An ack for a number up to 2^64 - 2^32 beyond leaves the window shut, whatever its size. */
  lemma AckOfUnsentNumber(s: State, number: nat, sentAt: nat, receivedAt: nat)
    requires Safe(s) && s.window.size < (UINT32 - 2) as real
    ensures var t, after := GotAck(s, number, sentAt, receivedAt), (number + 1) % UINT64;
            && (t.expected <= t.next <==> after <= |s.sent|)
            && (number < UINT64 ==> (after <= |s.sent| <==> number < |s.sent| || number == UINT64 - 1))
            && (|s.sent| < after <= |s.sent| + UINT64 - UINT32 ==> !IsOpen(t))
  {
    hide Bound, Square;
    var t, after := GotAck(s, number, sentAt, receivedAt), (number + 1) % UINT64;
    AckAddsAtMostTwo(s.window, RoundTrip(sentAt, receivedAt) <= TIMEOUT_MS);
    if after > |s.sent| {
      assert Outstanding(t) == UINT64 + t.next - t.expected;
    }
  }
}
