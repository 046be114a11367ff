/** The clock and the timer that drives it: each callback of the timer is one firing
    of the NVR device's one-second timer. */
module ClockTimer {
  import opened Arith
  import opened Calendar
  import opened Timers

  class Machine {
    const ts: TimerSystem
    const nvr: Nvr
    const c: nat                    // the timer of the NVR device

    constructor (ts: TimerSystem, nvr: Nvr, c: nat)
      ensures this.ts == ts && this.nvr == nvr && this.c == c
    {
      this.ts, this.nvr, this.c := ts, nvr, c;
    }

    /** Does timer c belong to the device?  Its enable variable is not its count. */
    ghost predicate Wired()
      reads ts, ts.Cells()
    {
      ts.AtRest() && c < |ts.timers| && ts.timers[c].callback == Periodic(nvr.period) && !Self(ts.timers[c])
    }

    /** The clock shows second s0 and as many hundredths more as callbacks have been
        run since the timer was set. */
    ghost predicate InStep(s0: int)
      requires c < |ts.tallies|
      reads this, ts`tallies, nvr, nvr.clock
    {
      && Running(nvr.clock.Time()) && 0 <= nvr.onesecCnt < 100
      && 100 * Seconds(nvr.clock.Time()) + nvr.onesecCnt == 100 * s0 + ts.tallies[c].fired
    }

    /** Do the steps leave the device's variables alone? */
    ghost predicate Spared(cells: set<Cell>)
      reads ts`timers
    {
      cells <= ts.Cells() && (c < |ts.timers| ==> ts.timers[c].count !in cells && ts.timers[c].enable !in cells)
    }

    method Step(st: Step, ghost s0: int)
      requires Wired() && InStep(s0) && Spared(Written(st.Writes()))
      modifies ts`latch, ts`timerCount, ts`timerStart, ts`elapsed, ts`board, ts`now, ts`tallies, ts`charges
      modifies ts`watched, ts`log, ts`calls, ts.Cells(), nvr, nvr.clock
      ensures Wired() && InStep(s0) && ts.tallies[c] == old(ts.tallies[c]).(fired := ts.tallies[c].fired)
      ensures ts.tallies[c].fired >= old(ts.tallies[c].fired) && ts.elapsed == old(ts.elapsed) + st.Time()
    {
      var n := ts.calls[c];
      ts.Perform(st);
      nvr.Firings(ts.calls[c] - n);
    }

    /** Enabled, and charged since it was set? */
    ghost predicate Served()
      requires c < |ts.tallies| == |ts.board.on|
      reads this, ts`tallies, ts`charges, ts`board
    {
      ts.board.on[c] && ts.tallies[c].base < |ts.charges|
    }

    /** Once it has fired, that is for good. */
    lemma FiredIsServed()
      requires Wired()
      ensures ts.tallies[c].fired > 0 ==> Served()
    {
      ts.FiringsAreExact(c);
    }

    /** For the time charged the clock shows what a timer set to zero, as the device
        sets its own, should have made of it: it fires once at once and then every
        period.  For the time passed it is right to within the slack. */
    ghost predicate TellsTime(s0: int)
      requires Wired()
      reads this, ts, ts.Cells(), nvr, nvr.clock
    {
      var t, p := ts.tallies[c], nvr.period;
      && p > 0 && Running(nvr.clock.Time())
      && Seconds(nvr.clock.Time()) == s0 + ((ts.now - t.born) / p + 1) / 100
      && Seconds(nvr.clock.Time()) <= s0 + Expected(0, p, ts.elapsed - t.born) / 100
      && (c in ts.watched && ts.timerCount > 0 ==>
            Seconds(nvr.clock.Time()) >= s0 + Expected(0, p, ts.elapsed - SLACK - t.born) / 100)
    }

    lemma ClockIsExact(s0: int)
      requires Wired() && InStep(s0) && Served() && ts.tallies[c].start == 0
      ensures TellsTime(s0)
    {
      ts.FiringsAreExact(c);
      DivIs(ts.tallies[c].fired, 100, Seconds(nvr.clock.Time()) - s0, nvr.onesecCnt);
    }

    /** Any run of the emulator that does not write the device's timer, since that was
        set to zero: the clock tells the time once the timer has been served. */
    method Run(steps: seq<Step>, ghost s0: int)
      requires Wired() && InStep(s0) && Spared(WrittenBy(steps)) && ts.tallies[c].start == 0
      modifies ts`latch, ts`timerCount, ts`timerStart, ts`elapsed, ts`board, ts`now, ts`tallies, ts`charges
      modifies ts`watched, ts`log, ts`calls, ts.Cells(), nvr, nvr.clock
      ensures Wired() && (Served() ==> TellsTime(s0)) && (ts.tallies[c].fired > 0 ==> Served())
      ensures ts.elapsed == old(ts.elapsed) + TimeOf(steps)
      ensures ts.tallies[c].born == old(ts.tallies[c].born)
    {
      ghost var t0, e0 := ts.tallies[c], ts.elapsed;
      for k := 0 to |steps|
        invariant Wired() && InStep(s0) && ts.elapsed == e0 + TimeOf(steps[..k])
        invariant ts.tallies[c] == t0.(fired := ts.tallies[c].fired)
      {
        WritesOfNext(steps, k);
        assert Written(steps[k].Writes()) <= WrittenBy(steps);
        Step(steps[k], s0);
      }
      assert steps[..|steps|] == steps;
      FiredIsServed();
      if Served() {
        ClockIsExact(s0);
      }
    }
  }
}
