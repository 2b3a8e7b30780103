/** The throughput-estimating controller of controller_throughput.cc, with its file-level state. Doubles are
    exact reals. */
module Throughput {

  const TIMEOUT_MS: nat := 100
  const SLOT: nat := 30
  const UINT64: nat := 0x1_0000_0000_0000_0000

  /** this_window_ and the file-level variables, with the history of slot counts reported so far. */
  datatype Meter = Meter(window: real, estimate: real, packetCount: nat, endTime: nat, successiveTimeouts: nat,
                         reports: seq<nat>)

  /** Consecutive acks slower than the timeout, this one included. */
  function Timeouts(m: Meter, sent: nat, received: nat): nat {
    if (received - sent) % UINT64 > TIMEOUT_MS then m.successiveTimeouts + 1 else 0
  }

  function Delay(timeouts: nat): real {
    if timeouts >= 2 then 44.0 else 50.0
  }

  /** The moving average with alpha = 0.15 over packets per half slot. */
  function Average(estimate: real, packets: nat): real {
    estimate * (1.0 - 0.15) + 0.15 * (packets as real / (SLOT as real / 2.0))
  }

  function Ack(m: Meter, sent: nat, received: nat): Meter {
    var late := Timeouts(m, sent, received);
    var counted :=
      if received <= m.endTime then m.(packetCount := m.packetCount + 1)
      else
        var estimate := Average(m.estimate, m.packetCount);
        Meter(estimate * Delay(late), estimate, 1, m.endTime + SLOT, late, m.reports + [m.packetCount]);
    counted.(successiveTimeouts := late, window := if counted.window < 1.0 then 3.0 else counted.window)
  }

  class Controller {
    var thisWindow: real
    var estimateThroughput: real
    var observedThroughput: real
    var packetCount: nat
    var endTime: nat
    var successiveTimeOut: nat
    var delay: real
    ghost var reports: seq<nat>

    ghost function Abs(): Meter
      reads this
    {
      Meter(thisWindow, estimateThroughput, packetCount, endTime, successiveTimeOut, reports)
    }

    constructor (window: real)
      ensures Abs() == Meter(window, 0.0, 0, 0, 0, [])
    {
      thisWindow := window;
      estimateThroughput, observedThroughput, packetCount, endTime := 0.0, 0.0, 0, 0;
      successiveTimeOut, delay, reports := 0, 50.0, [];
    }

    method AckReceived(sent: nat, received: nat)
      modifies this
      ensures Abs() == Ack(old(Abs()), sent, received)
    {
      if (received - sent) % UINT64 > TIMEOUT_MS {
        successiveTimeOut := successiveTimeOut + 1;
      } else {
        successiveTimeOut := 0;
      }
      if successiveTimeOut >= 2 {
        delay := 44.0;
      } else {
        delay := 50.0;
      }
      if received <= endTime {
        packetCount := packetCount + 1;
      } else {
        observedThroughput := packetCount as real / (SLOT as real / 2.0);
        estimateThroughput := estimateThroughput * (1.0 - 0.15) + 0.15 * observedThroughput;
        thisWindow := estimateThroughput * delay;
        endTime := SLOT + endTime;
        reports := reports + [packetCount];
        packetCount := 1;
      }
      if thisWindow < 1.0 {
        thisWindow := 3.0;
      }
    }
  }

  // ---------- Whole runs ----------

  /** When a datagram was sent and its ack received. */
  datatype Timing = Timing(sent: nat, received: nat)

  function Run(m: Meter, acks: seq<Timing>): Meter {
    if acks == [] then m
    else
      var last := acks[|acks| - 1];
      Ack(Run(m, acks[..|acks| - 1]), last.sent, last.received)
  }

  /** As the sender starts it. */
  const START := Meter(10.0, 0.0, 0, 0, 0, [])

  function Sum(counts: seq<nat>): nat {
    if counts == [] then 0 else Sum(counts[..|counts| - 1]) + counts[|counts| - 1]
  }

  function Decay(age: nat): real {
    if age == 0 then 1.0 else 0.85 * Decay(age - 1)
  }

  /** A hundredth of each count, weighted by 0.85 for every count after it. */
  function Weighted(counts: seq<nat>): real {
    if counts == [] then 0.0
    else Decay(|counts| - 1) * counts[0] as real / 100.0 + Weighted(counts[1..])
  }

  lemma AverageByHundredths(estimate: real, packets: nat)
    ensures Average(estimate, packets) == 0.85 * estimate + packets as real / 100.0
  {
  }

  lemma {:induction false} WeightedAppend(counts: seq<nat>, last: nat)
    ensures Weighted(counts + [last]) == 0.85 * Weighted(counts) + last as real / 100.0
  {
    if counts == [] {
      assert Weighted([last]) == Decay(0) * last as real / 100.0 + Weighted([last][1..]);
    } else {
      var all := counts + [last];
      assert all[1..] == counts[1..] + [last];
      WeightedAppend(counts[1..], last);
      assert Decay(|counts|) * counts[0] as real / 100.0 == 0.85 * (Decay(|counts| - 1) * counts[0] as real / 100.0);
    }
  }

  /** What every run keeps: the acks are the counts reported and the count in progress; the estimate is the
      decayed sum of the counts; each report moved the end time by one slot; the window is bounded. */
  predicate Accounted(m: Meter, acks: nat) {
    && acks == Sum(m.reports) + m.packetCount
    && m.estimate == Weighted(m.reports)
    && 0.0 <= m.estimate <= Sum(m.reports) as real / 100.0
    && m.endTime == SLOT * |m.reports|
    && 1.0 <= m.window
    && (m.window <= 10.0 || m.window <= acks as real / 2.0)
  }

  lemma AckKeepsAccount(m: Meter, acks: nat, sent: nat, received: nat)
    requires Accounted(m, acks)
    ensures Accounted(Ack(m, sent, received), acks + 1)
  {
    hide Sum, Weighted, Average;
    if received > m.endTime {
      var reports := m.reports + [m.packetCount];
      AverageByHundredths(m.estimate, m.packetCount);
      WeightedAppend(m.reports, m.packetCount);
      SumAppend(m.reports, m.packetCount);
      WindowFromEstimate(Average(m.estimate, m.packetCount), Sum(reports), Delay(Timeouts(m, sent, received)));
    }
  }

  lemma {:induction false} SumAppend(counts: seq<nat>, last: nat)
    ensures Sum(counts + [last]) == Sum(counts) + last
  {
    assert (counts + [last])[..|counts|] == counts;
  }

  lemma WindowFromEstimate(estimate: real, reported: nat, delay: real)
    requires 0.0 <= estimate <= reported as real / 100.0 && 0.0 <= delay <= 50.0
    ensures estimate * delay <= reported as real / 2.0
  {
    assert estimate * delay <= estimate * 50.0;
  }

  /** From the sender's start, over any sequence of acks, no ack is lost or counted twice, and the window
      stays between 1 and the greater of 10 and half the acks. */
  lemma {:induction false} AcksAreAccounted(acks: seq<Timing>)
    ensures Accounted(Run(START, acks), |acks|)
  {
    if acks != [] {
      var n := |acks| - 1;
      AcksAreAccounted(acks[..n]);
      AckKeepsAccount(Run(START, acks[..n]), n, acks[n].sent, acks[n].received);
    }
  }

  /** An ack that took more than 100 ms, by the difference of two 64-bit clocks. */
  predicate IsLate(ack: Timing) {
    (ack.received - ack.sent) % 0x1_0000_0000_0000_0000 > 100
  }

  /** In every run the consecutive timeouts counted are the late acks at the end of the sequence. */
  lemma {:induction false} LateAcksAtEnd(acks: seq<Timing>)
    ensures var n := Run(START, acks).successiveTimeouts;
            && n <= |acks|
            && (forall i :: |acks| - n <= i < |acks| ==> IsLate(acks[i]))
            && (n < |acks| ==> !IsLate(acks[|acks| - n - 1]))
  {
    hide Average;
    if acks != [] {
      var before, last := acks[..|acks| - 1], acks[|acks| - 1];
      LateAcksAtEnd(before);
      var n := Run(START, before).successiveTimeouts;
      assert Run(START, acks).successiveTimeouts == if IsLate(last) then n + 1 else 0;
      assert forall i :: 0 <= i < |before| ==> acks[i] == before[i];
    }
  }

  /** One more ack in any run. Up to the end of the slot, 30 ms for each slot closed so far, it is counted and the
      window stays. After that it closes the slot: the count is reported, a new one begins with this ack, and the
      window is the decayed sum of the reports times 50, or times 44 if it is at least the second late ack in a
      row; a window below 1 becomes 3. */
  lemma {:induction false} NextAckInEveryRun(acks: seq<Timing>, ack: Timing)
    ensures var m, t := Run(START, acks), Run(START, acks + [ack]);
            if ack.received <= 30 * |m.reports|
            then t.reports == m.reports && t.packetCount == m.packetCount + 1 && t.window == m.window
            else && t.reports == m.reports + [m.packetCount] && t.packetCount == 1
                 && (var size := (if t.successiveTimeouts >= 2 then 44.0 else 50.0) * Weighted(t.reports);
                     t.window == if size < 1.0 then 3.0 else size)
  {
    hide Average, Weighted, Sum;
    assert (acks + [ack])[..|acks|] == acks;
    AcksAreAccounted(acks);
    AcksAreAccounted(acks + [ack]);
  }

  /** A controller that is started and takes any sequence of acks. */
  method TakeAcks(acks: seq<Timing>) returns (controller: Controller)
    ensures controller.Abs() == Run(Meter(10.0, 0.0, 0, 0, 0, []), acks) && Accounted(controller.Abs(), |acks|)
  {
    hide Ack, Accounted;
    controller := new Controller(10.0);
    var i := 0;
    while i < |acks|
      invariant i <= |acks| && fresh(controller) && controller.Abs() == Run(START, acks[..i])
    {
      assert acks[..i + 1][..i] == acks[..i];
      controller.AckReceived(acks[i].sent, acks[i].received);
      i := i + 1;
    }
    assert acks[..i] == acks;
    AcksAreAccounted(acks);
  }

  /** The end time never gets further than one slot beyond the latest ack. So the double in which the code
      adds the slot is exact, and fits the 64 bits it is stored in, as long as clocks stay below 2^53 ms. */
  lemma {:induction false} EndTimeFollowsAcks(acks: seq<Timing>, latest: nat)
    requires forall i :: 0 <= i < |acks| ==> acks[i].received <= latest
    ensures Run(START, acks).endTime < latest + SLOT
  {
    hide Average;
    if acks != [] {
      EndTimeFollowsAcks(acks[..|acks| - 1], latest);
    }
  }
}
