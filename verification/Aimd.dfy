/** The additive-increase, multiplicative-decrease controller of controller_AIMD_best.cc. Long doubles are
    exact reals; truncation happens where the code assigns to an integer type. */
module Aimd {

  const TIMEOUT_MS: nat := 105
  const UINT64: nat := 0x1_0000_0000_0000_0000
  const UINT32: nat := 0x1_0000_0000

  /** this_window_ and ssthresh_. */
  datatype Fields = Window(size: real, threshold: int)

  /** A window is never empty: the code divides by it. */
  type Window = w: Fields | w.size > 0.0 witness Window(1.0, 0)

  /** Conversion of a floating-point value to an integer type. */
  function Truncate(x: real): int {
    if x >= 0.0 then x.Floor else -(-x).Floor
  }

  function Clamp(w: Window): Window {
    if w.size < 1.0 then w.(size := 1.0) else w
  }

  /** An ack within the timeout: slow start up to the threshold, then two datagrams per window. */
  function OnTime(w: Window): Window {
    if w.size <= w.threshold as real then w.(size := w.size + 1.0)
    else w.(size := w.size + 2.0 / w.size)
  }

  /** An ack after the timeout. */
  function Late(w: Window): Window {
    Window(3.0, Truncate(w.size / 2.0 + 1.0))
  }

  function Ack(w: Window, onTime: bool): Window {
    Clamp(if onTime then OnTime(w) else Late(w))
  }

  /** The final clamp to one never fires. */
  lemma ClampNeverFires(w: Window, onTime: bool)
    ensures Ack(w, onTime) == if onTime then OnTime(w) else Late(w)
    ensures Ack(w, onTime).size > 1.0
  {
    if onTime && w.size > w.threshold as real && w.size < 2.0 {
      QuotientShrinks(2.0, w.size);
    }
  }

  /** The round-trip time as the code computes it: 64-bit wrap-around, then cut to 32 bits. */
  function RoundTrip(sent: nat, received: nat): nat {
    (received - sent) % UINT64 % UINT32
  }

  /** Truncation goes toward zero, by less than one. */
  lemma TruncatesTowardZero(x: real)
    ensures x >= 0.0 ==> Truncate(x) as real <= x < Truncate(x) as real + 1.0
    ensures x <= 0.0 ==> Truncate(x) as real - 1.0 < x <= Truncate(x) as real
  {
  }

  class Controller {
    var thisWindow: real
    var ssthresh: int
    var previousRtt: nat

    ghost function Abs(): Window
      requires thisWindow > 0.0
      reads this
    {
      Window(thisWindow, ssthresh)
    }

    constructor (window: real, thresh: real)
      requires window > 0.0
      ensures thisWindow > 0.0 && Abs() == Window(window, Truncate(thresh))
    {
      thisWindow, ssthresh, previousRtt := window, Truncate(thresh), 0;
    }

    /** The window in whole datagrams. */
    method WindowSize() returns (n: int)
      ensures n == Truncate(thisWindow)
    {
      n := Truncate(thisWindow);
    }

    method AckReceived(sent: nat, received: nat)
      requires thisWindow > 0.0
      modifies this
      ensures thisWindow > 0.0 && Abs() == Ack(old(Abs()), RoundTrip(sent, received) <= TIMEOUT_MS)
    {
      var currentRtt := RoundTrip(sent, received);
      previousRtt := currentRtt;
      if currentRtt <= TIMEOUT_MS {
        if thisWindow <= ssthresh as real {
          thisWindow := thisWindow + 1.0;
        } else {
          thisWindow := thisWindow + 2.0 / thisWindow;
        }
      } else {
        ssthresh := Truncate(thisWindow / 2.0 + 1.0);
        thisWindow := 3.0;
      }
      if thisWindow < 1.0 {
        thisWindow := 1.0;
      }
    }
  }

  // ---------- Whole runs ----------

  function Run(w: Window, acks: seq<bool>): Window {
    if acks == [] then w
    else Ack(Run(w, acks[..|acks| - 1]), acks[|acks| - 1])
  }

  /** The window the sender starts with. */
  const START := Window(10.0, 25)

  function Square(x: real): real {
    x * x
  }

  /** The bound after so many acks: the square of one more than the first threshold, and 40/9 an ack. */
  function Bound(acks: nat): real {
    676.0 + 40.0 / 9.0 * acks as real
  }

  predicate Within(w: Window, acks: nat) {
    && w.size >= 3.0
    && w.threshold >= 2
    && Square(w.size) <= Bound(acks)
    && Square(w.threshold as real + 1.0) <= Bound(acks)
  }

  lemma SquareGrows(x: real, y: real)
    requires 0.0 <= x <= y
    ensures Square(x) <= Square(y)
  {
  }

  /** One ack in congestion avoidance adds between 4 and 40/9 to the square of the window. */
  lemma AvoidanceStep(x: real, low: real)
    requires x >= low >= 3.0
    ensures Square(x) + 4.0 <= Square(x + 2.0 / x) <= Square(x) + 4.0 + Square(2.0 / low) <= Square(x) + 40.0 / 9.0
  {
    var q, r := 2.0 / x, 2.0 / low;
    assert q * x == 2.0 && r * low == 2.0;
    assert Square(x + q) == Square(x) + 2.0 * (q * x) + Square(q);
    QuotientShrinks(x, low);
    QuotientShrinks(low, 3.0);
    SquareGrows(q, r);
    SquareGrows(r, 2.0 / 3.0);
  }

  lemma QuotientShrinks(x: real, low: real)
    requires x >= low > 0.0
    ensures 0.0 < 2.0 / x <= 2.0 / low
  {
  }

  lemma StepStaysWithin(w: Window, acks: nat, onTime: bool)
    requires Within(w, acks)
    ensures Within(Ack(w, onTime), acks + 1)
  {
    ClampNeverFires(w, onTime);
    if onTime {
      if w.size <= w.threshold as real {
        SquareGrows(w.size + 1.0, w.threshold as real + 1.0);
      } else {
        AvoidanceStep(w.size, 3.0);
      }
    } else {
      HalvedThreshold(w.size, acks);
    }
  }

  /** After a late ack, one more than the new threshold stays below the old window, or below four. */
  lemma HalvedThreshold(size: real, acks: nat)
    requires size >= 3.0 && Square(size) <= Bound(acks)
    ensures Truncate(size / 2.0 + 1.0) >= 2
    ensures Square(Truncate(size / 2.0 + 1.0) as real + 1.0) <= Bound(acks)
  {
    var t := Truncate(size / 2.0 + 1.0) as real + 1.0;
    assert t <= size / 2.0 + 2.0;
    if size >= 4.0 {
      SquareGrows(t, size);
    } else {
      SquareGrows(t, 4.0);
    }
  }

  /** From the sender's start, after any sequence of on-time and late acks, the window is at least 3, the
      threshold at least 2, and the square of the window at most 676 plus 40/9 for each ack. */
  lemma {:induction false} WindowIsBounded(acks: seq<bool>)
    ensures Within(Run(START, acks), |acks|)
  {
    if acks != [] {
      var n := |acks| - 1;
      WindowIsBounded(acks[..n]);
      StepStaysWithin(Run(START, acks[..n]), n, acks[n]);
    }
  }

  const ACK_LIMIT: nat := 4_000_000_000_000_000_000

  /** So the window fits the unsigned int it is returned as, for any number of acks up to 4 * 10^18. */
  lemma {:induction false} WindowFitsUnsigned(acks: seq<bool>)
    requires |acks| <= ACK_LIMIT
    ensures 3.0 <= Run(START, acks).size < (UINT32 - 2) as real
  {
    hide Run;
    WindowIsBounded(acks);
    WithinFits(Run(START, acks), |acks|);
  }

  lemma WithinFits(w: Window, acks: nat)
    requires Within(w, acks) && acks <= ACK_LIMIT
    ensures w.size < (UINT32 - 2) as real
  {
    if w.size >= (UINT32 - 2) as real {
      SquareGrows((UINT32 - 2) as real, w.size);
    }
  }

  // ---------- Recovery after a late ack ----------

  function AllOnTime(n: nat): seq<bool> {
    seq(n, _ => true)
  }

  lemma {:induction false} RunOneMore(w: Window, n: nat)
    ensures Run(w, AllOnTime(n + 1)) == Ack(Run(w, AllOnTime(n)), true)
  {
    assert AllOnTime(n + 1)[..n] == AllOnTime(n);
  }

  /** The threshold a late ack sets. */
  function NewThreshold(size: real): int {
    Truncate(size / 2.0 + 1.0)
  }

  lemma AfterLateAck(w: Window)
    ensures Ack(w, false) == Window(3.0, NewThreshold(w.size))
    ensures NewThreshold(w.size) as real - 1.0 <= w.size / 2.0 < NewThreshold(w.size) as real
  {
  }

  /** Slow start after a late ack climbs 3, 4, 5, ... to one above the new threshold. */
  lemma {:induction false} SlowStartClimbs(threshold: int, n: nat)
    requires n <= threshold - 2
    ensures Run(Window(3.0, threshold), AllOnTime(n)) == Window(3.0 + n as real, threshold)
  {
    if n > 0 {
      SlowStartClimbs(threshold, n - 1);
      RunOneMore(Window(3.0, threshold), n - 1);
    }
  }

  /** The window after the climb and n more on-time acks. */
  function Recovered(w: Window, n: nat): Window
    requires w.size >= 3.0
  {
    HalvedAtLeastTwo(w.size);
    Run(Ack(w, false), AllOnTime(NewThreshold(w.size) - 2 + n))
  }

  lemma HalvedAtLeastTwo(size: real)
    requires size >= 3.0
    ensures NewThreshold(size) >= 2
  {
  }

  /** What one on-time ack in avoidance adds to the square of a window of at least top, at most. */
  function Growth(top: real): real
    requires top > 0.0
  {
    4.0 + Square(2.0 / top)
  }

  /** After the climb, each further on-time ack adds between 4 and 4 + (2/(s+1))^2 to the square of the
      window, where s is the new threshold. */
  lemma {:induction false} AvoidanceGrows(w: Window, n: nat)
    requires w.size >= 3.0
    ensures NewThreshold(w.size) >= 2
    ensures var top := NewThreshold(w.size) as real + 1.0;
            var v := Recovered(w, n);
            && v.threshold == NewThreshold(w.size) && v.size >= top
            && Square(top) + 4.0 * n as real <= Square(v.size) <= Square(top) + Growth(top) * n as real
  {
    hide Square, NewThreshold, Run, Ack, Growth;
    HalvedAtLeastTwo(w.size);
    var s := NewThreshold(w.size);
    var top := s as real + 1.0;
    if n == 0 {
      AfterLateAck(w);
      SlowStartClimbs(s, s - 2);
    } else {
      AvoidanceGrows(w, n - 1);
      var u, v := Recovered(w, n - 1), Recovered(w, n);
      RunOneMore(Ack(w, false), s - 2 + n - 1);
      AvoidanceAck(u, top);
      GrowthAdds(Growth(top), n);
    }
  }

  /** One on-time ack above the threshold. */
  lemma AvoidanceAck(u: Window, top: real)
    requires u.size >= top >= 3.0 && u.threshold as real + 1.0 == top
    ensures var v := Ack(u, true);
            && v.threshold == u.threshold && v.size >= top
            && Square(u.size) + 4.0 <= Square(v.size) <= Square(u.size) + Growth(top)
  {
    hide Square;
    ClampNeverFires(u, true);
    AvoidanceStep(u.size, top);
    QuotientShrinks(u.size, top);
  }

  lemma GrowthAdds(c: real, n: nat)
    requires n > 0
    ensures c * n as real == c * (n - 1) as real + c
  {
  }

  /** How many on-time acks regain the window: enough of them always do, and too few never do. */
  lemma AcksToRegain(w: Window, n: nat)
    requires w.size >= 3.0
    ensures NewThreshold(w.size) >= 2
    ensures var missing := Square(w.size) - Square(NewThreshold(w.size) as real + 1.0);
            && (4.0 * n as real >= missing ==> Recovered(w, n).size >= w.size)
            && (Recovered(w, n).size >= w.size ==> 40.0 / 9.0 * n as real >= missing)
  {
    hide Square, NewThreshold, Recovered, Growth;
    AvoidanceGrows(w, n);
    var top, v := NewThreshold(w.size) as real + 1.0, Recovered(w, n);
    if v.size < w.size {
      SquareGrowsStrictly(v.size, w.size);
    } else {
      SquareGrows(w.size, v.size);
      GrowthIsSmall(top);
      GrowthScales(Growth(top), 40.0 / 9.0, n);
    }
  }

  lemma GrowthIsSmall(top: real)
    requires top >= 3.0
    ensures Growth(top) <= 40.0 / 9.0
  {
    QuotientShrinks(top, 3.0);
    SquareGrows(2.0 / top, 2.0 / 3.0);
  }

  lemma SquareGrowsStrictly(x: real, y: real)
    requires 0.0 <= x < y
    ensures Square(x) < Square(y)
  {
    var gap := y - x;
    assert y * gap > 0.0 && x * gap >= 0.0;
    assert Square(y) - Square(x) == y * gap + x * gap;
  }

  lemma GrowthScales(c: real, d: real, n: nat)
    requires c <= d
    ensures c * n as real <= d * n as real
  {
  }
}
