/** The event timers.  Time is counted down lazily in timerCount and charged to
    the timers only when an expiry may have been reached.  Many timers use their
    count as their enable variable, too: then reaching zero disables them. */
module Timers {
  import opened Arith

  const TIMERS_MAX := 64
  const TIMER_SHIFT := 6
  const SLACK := 63                             // (1 << TIMER_SHIFT) - 1
  const FOREVER := 0x7fff_ffff_ffff_ffff

  /** A 64-bit variable of some device that a timer refers to. */
  class Cell {
    var v: int
  }

  /** A callback reloads its own count by a fixed period, or by any amount of at
      least one, or does any of this or disables its own timer.  Only the last
      kind writes the enable variable. */
  datatype Callback = Periodic(period: nat) | Varying(func: nat) | Arbitrary(func: nat)

  datatype Entry = Entry(callback: Callback, priv: nat, count: Cell, enable: Cell)

  /** A callback run: when its timer was due, in which charge of time, and whether
      this is the first charge since the timer was set to a time already past. */
  datatype Firing = Firing(timer: nat, expiry: int, round: nat, overdue: bool)

  /** A stretch of time charged to the timers at once. */
  datatype Charge = Charge(from: int, to: int)

  // ----- arithmetic of periodic timers ---------------------------------------

  /** How often a timer of period p and initial count c0 expires by time t. */
  function Expected(c0: int, p: int, t: int): nat
    requires p > 0
  {
    if t < c0 then 0 else (t - c0) / p + 1
  }

  /** A count that is positive, and at most p after a reload, leaves only one
      possible number of firings. */
  lemma {:induction false} CountDeterminesFirings(c0: int, p: int, t: int, fired: nat)
    requires p > 0 && 0 < c0 - t + fired * p && (fired > 0 ==> c0 - t + fired * p <= p)
    ensures fired == Expected(c0, p, t)
  {
    if fired > 0 {
      assert (fired - 1) * p == fired * p - p;
      DivIs(t - c0, p, fired - 1, t - c0 - (fired - 1) * p);
    }
  }

  lemma {:induction false} ExpectedIsMonotone(c0: int, p: int, t: int, t': int)
    requires p > 0 && t <= t'
    ensures Expected(c0, p, t) <= Expected(c0, p, t')
  {
    if c0 <= t {
      var a, b := t - c0, t' - c0;
      assert a == a / p * p + a % p && b == b / p * p + b % p;
      MulOrder(a / p, b / p + 1, p);
    }
  }

  /** A charge that ends exactly at an expiry and began before the one before it, or
      is the first one since the count was set. */
  predicate Skips(c0: int, p: int, from: int, to: int, first: bool)
    requires p > 0
  {
    (to - c0) % p == 0 && c0 <= to - p && (first || from < to - p)
  }

  /** A reload that ends at zero does so because the charge skips an expiry, and is
      not the last one that was due. */
  lemma {:induction false} ZeroIsSkipped(c0: int, p: int, from: int, to: int, first: bool, fired: nat)
    requires p > 0 && c0 - to + fired * p == -p && (first || -p + (to - from) > 0)
    ensures Skips(c0, p, from, to, first) && fired + 1 < Expected(c0, p, to)
  {
    assert (fired + 1) * p == fired * p + p;
    DivIs(to - c0, p, fired + 1, 0);
    MulOrder(0, fired, p);
  }

  /** A charge that skips an expiry takes the count below zero. */
  lemma {:induction false} SkipOverdraws(c0: int, p: int, from: int, to: int, first: bool, fired: nat)
    requires p > 0 && Skips(c0, p, from, to, first)
    requires (first ==> fired == 0) && (fired > 0 ==> c0 - from + fired * p <= p)
    ensures c0 - to + fired * p < 0
  {
  }

  /** From there reloads do not pass zero. */
  lemma {:induction false} SkipStopsAtZero(c0: int, p: int, from: int, to: int, first: bool, fired: nat)
    requires p > 0 && Skips(c0, p, from, to, first) && c0 - to + fired * p < 0
    ensures c0 - to + fired * p + p <= 0
  {
    var q := (to - c0) / p;
    assert to - c0 == q * p;
    assert (fired - q) * p == fired * p - q * p;
    MulSign(fired - q, p);
    MulOrder(fired - q, -1, p);
  }

  /** Some charge of those from base to n skips an expiry. */
  predicate MissedIn(charges: seq<Charge>, base: nat, n: nat, c0: int, p: int, born: int)
    requires n <= |charges| && p > 0
  {
    exists k :: base <= k < n && Skips(c0, p, charges[k].from - born, charges[k].to - born, k == base)
  }

  lemma {:induction false} MissedMore(charges: seq<Charge>, more: Charge, base: nat, c0: int, p: int, born: int)
    requires p > 0 && base <= |charges|
    ensures MissedIn(charges + [more], base, |charges|, c0, p, born) == MissedIn(charges, base, |charges|, c0, p, born)
    ensures MissedIn(charges + [more], base, |charges| + 1, c0, p, born) <==>
            MissedIn(charges, base, |charges|, c0, p, born)
                || Skips(c0, p, more.from - born, more.to - born, |charges| == base)
  {
    var all, n := charges + [more], |charges|;
    assert all[n] == more && forall k | 0 <= k < n :: all[k] == charges[k];
    if MissedIn(charges, base, n, c0, p, born) {
      var k :| base <= k < n && Skips(c0, p, charges[k].from - born, charges[k].to - born, k == base);
      assert Skips(c0, p, all[k].from - born, all[k].to - born, k == base);
    }
    if Skips(c0, p, more.from - born, more.to - born, n == base) {
      assert Skips(c0, p, all[n].from - born, all[n].to - born, n == base);
    }
  }

  // ----- the measure of timer_process ----------------------------------------

  function Lateness(on: bool, count: int): nat {
    if on && count <= 0 then 1 - count else 0
  }

  /** The summed overdue amounts of the timers taken to be enabled. */
  function Overdue(on: seq<bool>, counts: seq<int>): nat
    requires |on| == |counts|
  {
    if on == [] then 0
    else Lateness(on[0], counts[0]) + Overdue(on[1..], counts[1..])
  }

  lemma {:induction false} OverdueAt(on: seq<bool>, counts: seq<int>, k: nat, b: bool, x: int)
    requires k < |on| == |counts|
    ensures Overdue(on[k := b], counts[k := x]) ==
            Overdue(on, counts) - Lateness(on[k], counts[k]) + Lateness(b, x)
  {
    if k == 0 {
      assert on[k := b][1..] == on[1..] && counts[k := x][1..] == counts[1..];
    } else {
      assert on[k := b][1..] == on[1..][k - 1 := b] && counts[k := x][1..] == counts[1..][k - 1 := x];
      OverdueAt(on[1..], counts[1..], k - 1, b, x);
    }
  }

  // ----- the account of one timer --------------------------------------------

  /** What is known of a timer: its count when it was registered or last written,
      the time charged, the number of charges and the callbacks run by then, and its
      callbacks run since. */
  datatype Tally = Tally(start: int, born: int, base: nat, before: nat, fired: nat) {
    predicate Missed(p: int, charges: seq<Charge>, n: nat)
      requires n <= |charges| && p > 0
    {
      MissedIn(charges, base, n, start, p, born)
    }

    /** Has p expired more often than callbacks were run? */
    predicate Behind(p: int, now: int)
      requires p > 0
    {
      fired < Expected(start, p, now - born)
    }

    /** Set to a time ahead, or charged since? */
    predicate Current(rounds: nat) {
      start > 0 || base < rounds
    }
  }

  predicate Sound(cb: Callback) {
    cb.Periodic? ==> cb.period > 0
  }

  /** The count of a periodic timer that is on accounts for every unit charged; one
      that is off by a variable of its own stands still. */
  predicate Lawful(cb: Callback, self: bool, t: Tally, on: bool, count: int, now: int)
    requires Sound(cb)
  {
    cb.Periodic? ==>
      && (on ==> count == t.start - (now - t.born) + t.fired * cb.period && (t.fired > 0 ==> count <= cb.period))
      && (!on && !self ==> count == t.start && t.fired == 0)
  }

  /** A periodic timer that enables itself is on just while no charge has skipped
      an expiry of it, if it was set to anything but zero. */
  predicate Alive(cb: Callback, self: bool, t: Tally, on: bool, now: int, charges: seq<Charge>)
    requires Sound(cb)
  {
    && t.base <= |charges| && t.born <= now && (t.base == |charges| ==> t.fired == 0 && t.born == now)
    && (cb.Periodic? && self ==>
          && (on <==> t.start != 0 && !t.Missed(cb.period, charges, |charges|))
          && (!on ==> if t.start == 0 then t.fired == 0 else t.Behind(cb.period, now)))
  }

  /** Is the timer's next expiry ahead, but for one that was set otherwise and has not
      been charged yet? */
  predicate OnTime(t: Tally, on: bool, count: int, rounds: nat) {
    on ==> if t.Current(rounds) then count > 0 else count == t.start
  }

  /** The same while callbacks are run for the last charge. */
  predicate Serving(cb: Callback, self: bool, t: Tally, on: bool, count: int, charges: seq<Charge>)
    requires Sound(cb) && |charges| > 0
  {
    var n := |charges| - 1;
    var last := charges[n];
    && t.base <= n && t.born <= last.to
    && (on && t.Current(n) ==> count + (last.to - last.from) > 0)
    && (on && t.start == 0 ==> count + (last.to - last.from) >= 0)
    && (cb.Periodic? && self ==>
          && (on ==> t.start != 0 && !t.Missed(cb.period, charges, n))
          && (on && Skips(t.start, cb.period, last.from - t.born, last.to - t.born, n == t.base) ==> count < 0)
          && (!on ==>
                if t.start == 0 then t.fired == 0
                else t.Missed(cb.period, charges, n + 1) && t.Behind(cb.period, last.to)))
  }

  lemma {:induction false} ChargeStep(cb: Callback, self: bool, t: Tally, on: bool, count: int, now: int,
                                      charges: seq<Charge>, diff: nat)
    requires Sound(cb) && Lawful(cb, self, t, on, count, now) && Alive(cb, self, t, on, now, charges)
    requires OnTime(t, on, count, |charges|)
    ensures var count' := if on then count - diff else count;
            && Lawful(cb, self, t, on, count', now + diff)
            && Serving(cb, self, t, on, count', charges + [Charge(now, now + diff)])
  {
    if cb.Periodic? && self {
      var p, ch, first := cb.period, Charge(now, now + diff), |charges| == t.base;
      MissedMore(charges, ch, t.base, t.start, p, t.born);
      ExpectedIsMonotone(t.start, p, now - t.born, now + diff - t.born);
      if on && Skips(t.start, p, ch.from - t.born, ch.to - t.born, first) {
        SkipOverdraws(t.start, p, ch.from - t.born, ch.to - t.born, first, t.fired);
      }
    }
  }

  /** One callback of a timer that is due.  If it is periodic and enables itself,
      it stays on unless the reload ends at zero. */
  lemma {:induction false} FireStep(cb: Callback, self: bool, t: Tally, count: int, on': bool, count': int,
                                    charges: seq<Charge>)
    requires Sound(cb) && |charges| > 0 && count <= 0
    requires Lawful(cb, self, t, true, count, charges[|charges| - 1].to) && Serving(cb, self, t, true, count, charges)
    requires on' ==> count' > count
    requires cb.Periodic? ==> count' == count + cb.period && on' == (self ==> count' != 0)
    ensures Lawful(cb, self, t.(fired := t.fired + 1), on', count', charges[|charges| - 1].to)
    ensures Serving(cb, self, t.(fired := t.fired + 1), on', count', charges)
  {
    if cb.Periodic? {
      var p, n := cb.period, |charges| - 1;
      var from, to, first := charges[n].from - t.born, charges[n].to - t.born, n == t.base;
      assert (t.fired + 1) * p == t.fired * p + p;
      if self {
        if Skips(t.start, p, from, to, first) {
          SkipStopsAtZero(t.start, p, from, to, first, t.fired);
        }
        if !on' {
          ZeroIsSkipped(t.start, p, from, to, first, t.fired);
          assert MissedIn(charges, t.base, n + 1, t.start, p, t.born);
        }
      }
    }
  }

  lemma {:induction false} DoneStep(cb: Callback, self: bool, t: Tally, on: bool, count: int, charges: seq<Charge>)
    requires Sound(cb) && |charges| > 0 && Serving(cb, self, t, on, count, charges) && (on ==> count > 0)
    ensures Alive(cb, self, t, on, charges[|charges| - 1].to, charges)
  {
    if cb.Periodic? && self {
      var n := |charges| - 1;
      MissedMore(charges[..n], charges[n], t.base, t.start, cb.period, t.born);
      assert charges[..n] + [charges[n]] == charges;
    }
  }

  /** Registered or written just now. */
  lemma {:induction false} NewStep(cb: Callback, self: bool, t: Tally, on: bool, count: int, now: int,
                                   charges: seq<Charge>)
    requires Sound(cb) && t == Tally(count, now, |charges|, t.before, 0) && (self ==> on == (count != 0))
    ensures Lawful(cb, self, t, on, count, now) && Alive(cb, self, t, on, now, charges)
            && OnTime(t, on, count, |charges|)
  {
  }

  /** What the account says about the number of callbacks, whatever the count was set
      to.  One set to a time already past is served by the next charge. */
  lemma {:induction false} TallyIsExact(cb: Callback, self: bool, t: Tally, on: bool, count: int, now: int,
                                        charges: seq<Charge>)
    requires cb.Periodic? && Sound(cb) && OnTime(t, on, count, |charges|)
    requires Lawful(cb, self, t, on, count, now) && Alive(cb, self, t, on, now, charges)
    ensures var due, current := Expected(t.start, cb.period, now - t.born), t.Current(|charges|);
            && t.fired <= due && (if current then on ==> t.fired == due else t.fired == 0)
            && (self ==> (on <==> t.start != 0 && !t.Missed(cb.period, charges, |charges|)))
            && (self && current ==> (on <==> t.fired == due))
  {
    if on && t.Current(|charges|) {
      CountDeterminesFirings(t.start, cb.period, now - t.born, t.fired);
    }
  }

  // ----- the accounts of all timers ------------------------------------------

  predicate Self(e: Entry) {
    e.count == e.enable
  }

  /** Counts are private to a timer, and so is an enable variable that callbacks
      write; any other one may be shared. */
  ghost predicate Separate(timers: seq<Entry>) {
    && (forall i, j | 0 <= i < |timers| && 0 <= j < |timers| && i != j ::
          timers[i].count != timers[j].count && timers[i].count != timers[j].enable)
    && (forall i, j | 0 <= i < |timers| && 0 <= j < |timers| && i != j && timers[i].callback.Arbitrary? ::
          timers[i].enable != timers[j].enable)
    && (forall i | 0 <= i < |timers| :: Sound(timers[i].callback))
  }

  /** The state of the timers: which are on, and their counts. */
  datatype Board = Board(on: seq<bool>, counts: seq<int>)

  predicate Fits(timers: seq<Entry>, tallies: seq<Tally>, b: Board) {
    && |tallies| == |b.on| == |b.counts| == |timers| && forall c | 0 <= c < |timers| :: Sound(timers[c].callback)
  }

  predicate Accounted(timers: seq<Entry>, tallies: seq<Tally>, b: Board, now: int, charges: seq<Charge>) {
    && Fits(timers, tallies, b)
    && forall c | 0 <= c < |timers| ::
         && Lawful(timers[c].callback, Self(timers[c]), tallies[c], b.on[c], b.counts[c], now)
         && Alive(timers[c].callback, Self(timers[c]), tallies[c], b.on[c], now, charges)
  }

  /** No enabled timer is due, but one that was set so and not charged since. */
  predicate Timely(tallies: seq<Tally>, b: Board, rounds: nat) {
    |tallies| == |b.on| == |b.counts| && forall c | 0 <= c < |b.on| :: OnTime(tallies[c], b.on[c], b.counts[c], rounds)
  }

  /** The accounts while callbacks are run for the last charge; on is the snapshot
      of the enabled timers. */
  predicate Served(timers: seq<Entry>, tallies: seq<Tally>, b: Board, charges: seq<Charge>) {
    && Fits(timers, tallies, b) && |charges| > 0
    && forall c | 0 <= c < |timers| ::
         && Lawful(timers[c].callback, Self(timers[c]), tallies[c], b.on[c], b.counts[c], charges[|charges| - 1].to)
         && Serving(timers[c].callback, Self(timers[c]), tallies[c], b.on[c], b.counts[c], charges)
  }

  function Less(b: Board, diff: int): (r: Board)
    requires |b.on| == |b.counts|
    ensures r.on == b.on && |r.counts| == |b.counts|
  {
    b.(counts := seq(|b.counts|, c requires 0 <= c < |b.counts| => if b.on[c] then b.counts[c] - diff else b.counts[c]))
  }

  lemma {:induction false} AllCharged(timers: seq<Entry>, tallies: seq<Tally>, b: Board, now: int,
                                      charges: seq<Charge>, diff: nat)
    requires Accounted(timers, tallies, b, now, charges) && Timely(tallies, b, |charges|)
    ensures Served(timers, tallies, Less(b, diff), charges + [Charge(now, now + diff)])
  {
    forall c | 0 <= c < |timers|
      ensures Lawful(timers[c].callback, Self(timers[c]), tallies[c], b.on[c], Less(b, diff).counts[c], now + diff)
      ensures Serving(timers[c].callback, Self(timers[c]), tallies[c], b.on[c], Less(b, diff).counts[c],
              charges + [Charge(now, now + diff)])
    {
      ChargeStep(timers[c].callback, Self(timers[c]), tallies[c], b.on[c], b.counts[c], now, charges, diff);
    }
  }

  /** Some callbacks have been run; a timer whose callback was not is as before. */
  predicate Ran(tallies: seq<Tally>, tallies': seq<Tally>, counts: seq<int>, counts': seq<int>) {
    |tallies| == |tallies'| == |counts| == |counts'| && forall c | 0 <= c < |tallies| ::
      && tallies'[c] == tallies[c].(fired := tallies'[c].fired) && tallies'[c].fired >= tallies[c].fired
      && (tallies'[c].fired == tallies[c].fired ==> counts'[c] == counts[c])
  }

  function Fired(tallies: seq<Tally>, c: nat): seq<Tally>
    requires c < |tallies|
  {
    tallies[c := tallies[c].(fired := tallies[c].fired + 1)]
  }

  lemma {:induction false} OneFired(timers: seq<Entry>, tallies: seq<Tally>, b: Board, charges: seq<Charge>, c: nat,
                                    on': bool, count': int)
    requires Served(timers, tallies, b, charges) && c < |timers| && b.on[c] && b.counts[c] <= 0
    requires on' ==> count' > b.counts[c]
    requires timers[c].callback.Periodic? ==>
               count' == b.counts[c] + timers[c].callback.period && on' == (Self(timers[c]) ==> count' != 0)
    ensures Served(timers, Fired(tallies, c), Board(b.on[c := on'], b.counts[c := count']), charges)
  {
    FireStep(timers[c].callback, Self(timers[c]), tallies[c], b.counts[c], on', count', charges);
  }

  lemma {:induction false} AllDone(timers: seq<Entry>, tallies: seq<Tally>, b: Board, charges: seq<Charge>)
    requires Served(timers, tallies, b, charges) && forall c | 0 <= c < |timers| && b.on[c] :: b.counts[c] > 0
    ensures Accounted(timers, tallies, b, charges[|charges| - 1].to, charges) && Timely(tallies, b, |charges|)
  {
    forall c | 0 <= c < |timers|
      ensures Alive(timers[c].callback, Self(timers[c]), tallies[c], b.on[c], charges[|charges| - 1].to, charges)
    {
      DoneStep(timers[c].callback, Self(timers[c]), tallies[c], b.on[c], b.counts[c], charges);
    }
  }

  /** The tallies after the timers in a set have been written. */
  function Restarted(tallies: seq<Tally>, written: set<nat>, counts: seq<int>, now: int, rounds: nat,
                     calls: seq<nat>): (r: seq<Tally>)
    requires |tallies| == |counts| == |calls|
    ensures |r| == |tallies|
  {
    seq(|tallies|, c requires 0 <= c < |tallies| => if c in written then Tally(counts[c], now, rounds, calls[c], 0)
        else tallies[c])
  }

  /** All timers that were not written are as before. */
  predicate SameBut(b: Board, b': Board, written: set<nat>) {
    |b.on| == |b'.on| == |b.counts| == |b'.counts| &&
    forall c | 0 <= c < |b.on| && c !in written :: b'.on[c] == b.on[c] && b'.counts[c] == b.counts[c]
  }

  lemma {:induction false} SomeWritten(timers: seq<Entry>, tallies: seq<Tally>, b: Board, b': Board, written: set<nat>,
                                       now: int, charges: seq<Charge>, calls: seq<nat>)
    requires |calls| == |tallies| && Accounted(timers, tallies, b, now, charges) && Timely(tallies, b, |charges|)
             && SameBut(b, b', written)
    requires forall c | 0 <= c < |timers| && Self(timers[c]) :: b'.on[c] == (b'.counts[c] != 0)
    ensures var t := Restarted(tallies, written, b'.counts, now, |charges|, calls);
            Accounted(timers, t, b', now, charges) && Timely(t, b', |charges|)
  {
    var t := Restarted(tallies, written, b'.counts, now, |charges|, calls);
    forall c | 0 <= c < |timers|
      ensures Lawful(timers[c].callback, Self(timers[c]), t[c], b'.on[c], b'.counts[c], now)
      ensures Alive(timers[c].callback, Self(timers[c]), t[c], b'.on[c], now, charges)
    {
      if c in written {
        NewStep(timers[c].callback, Self(timers[c]), t[c], b'.on[c], b'.counts[c], now, charges);
      }
    }
  }

  lemma {:induction false} OneAdded(timers: seq<Entry>, tallies: seq<Tally>, b: Board, e: Entry, on: bool, count: int,
                                    now: int, charges: seq<Charge>)
    requires Accounted(timers, tallies, b, now, charges) && Timely(tallies, b, |charges|)
    requires Sound(e.callback) && (Self(e) ==> on == (count != 0))
    ensures var t := tallies + [Tally(count, now, |charges|, 0, 0)];
            && Accounted(timers + [e], t, Board(b.on + [on], b.counts + [count]), now, charges)
            && Timely(t, Board(b.on + [on], b.counts + [count]), |charges|)
  {
    NewStep(e.callback, Self(e), Tally(count, now, |charges|, 0, 0), on, count, now, charges);
  }

  // ----- the order of callbacks ----------------------------------------------

  /** Callbacks are run in the order in which their timers were due.  Those of a timer
      set to a time already past are, in the first charge after that, in order among
      those of the same charge. */
  ghost predicate Chronological(log: seq<Firing>) {
    forall i, j | 0 <= i < j < |log| && (!log[j].overdue || log[i].round == log[j].round) ::
        log[i].expiry <= log[j].expiry
  }

  ghost predicate Logged(log: seq<Firing>, rounds: nat, now: int) {
    Chronological(log) && forall i | 0 <= i < |log| :: log[i].expiry <= now && log[i].round < rounds
  }

  /** Callbacks run for earlier charges were due by the time the last one began. */
  ghost predicate Earlier(log: seq<Firing>, charges: seq<Charge>) {
    |charges| > 0 && forall i | 0 <= i < |log| && log[i].round != |charges| - 1 ::
        log[i].expiry <= charges[|charges| - 1].from
  }

  /** No callback run for the last charge was due after a timer that is on. */
  ghost predicate Next(log: seq<Firing>, b: Board, charges: seq<Charge>) {
    |b.on| == |b.counts| && |charges| > 0 &&
    forall i, c | 0 <= i < |log| && log[i].round == |charges| - 1 && 0 <= c < |b.on| && b.on[c] ::
      log[i].expiry <= charges[|charges| - 1].to + b.counts[c]
  }

  ghost predicate InOrder(log: seq<Firing>, b: Board, charges: seq<Charge>) {
    && |charges| > 0 && Logged(log, |charges|, charges[|charges| - 1].to)
    && Earlier(log, charges) && Next(log, b, charges)
  }

  lemma {:induction false} LogCharged(log: seq<Firing>, b: Board, charges: seq<Charge>, now: int, diff: nat)
    requires Logged(log, |charges|, now) && |b.on| == |b.counts|
    ensures InOrder(log, b, charges + [Charge(now, now + diff)])
  {
  }

  lemma {:induction false} LogFired(log: seq<Firing>, b: Board, charges: seq<Charge>, c: nat, overdue: bool,
                                    on': bool, count': int)
    requires InOrder(log, b, charges) && c < |b.on| && b.on[c] && b.counts[c] <= 0
    requires forall i | 0 <= i < |b.on| && b.on[i] :: b.counts[c] <= b.counts[i]
    requires !overdue ==> b.counts[c] + charges[|charges| - 1].to >= charges[|charges| - 1].from
    requires on' ==> count' > b.counts[c]
    ensures InOrder(log + [Firing(c, charges[|charges| - 1].to + b.counts[c], |charges| - 1, overdue)],
                    Board(b.on[c := on'], b.counts[c := count']), charges)
  {
  }

  /** Is the last charge the first one since the timer was set to a time past? */
  predicate IsOverdue(t: Tally, charges: seq<Charge>) {
    t.start < 0 && t.base + 1 >= |charges|
  }

  /** Do the tallies add up to the calls of each callback? */
  predicate Counted(calls: seq<nat>, tallies: seq<Tally>) {
    |calls| == |tallies| && forall c | 0 <= c < |calls| :: calls[c] == tallies[c].before + tallies[c].fired
  }

  /** Does on hold the timers that are enabled, of which b tells?  One that enables
      itself may be in it and yet stand at zero, once time has been taken off it. */
  predicate Snapshot(timers: seq<Entry>, b: Board, on: seq<bool>) {
    |on| == |b.on| == |b.counts| == |timers| && forall c | 0 <= c < |timers| ::
      if Self(timers[c]) then !on[c] ==> b.counts[c] == 0 else on[c] == b.on[c]
  }

  /** Timers that enable themselves are on while they count. */
  predicate Coherent(timers: seq<Entry>, b: Board) {
    |b.on| == |b.counts| == |timers| && forall c | 0 <= c < |timers| && Self(timers[c]) :: b.on[c] == (b.counts[c] != 0)
  }

  /** The board after diff has been taken off every enabled timer. */
  function Taken(timers: seq<Entry>, b: Board, diff: int): (r: Board)
    requires |b.on| == |b.counts| == |timers|
    ensures r.counts == Less(b, diff).counts && |r.on| == |b.on|
    ensures forall c | 0 <= c < |r.on| :: r.on[c] == if Self(timers[c]) then r.counts[c] != 0 else b.on[c]
  {
    var counts := Less(b, diff).counts;
    Board(seq(|timers|, c requires 0 <= c < |timers| => if Self(timers[c]) then counts[c] != 0 else b.on[c]), counts)
  }

  /** All that holds between two charges, and while callbacks are run for one. */
  ghost predicate Sane(timers: seq<Entry>, tallies: seq<Tally>, b: Board, now: int, charges: seq<Charge>,
                       log: seq<Firing>) {
    && |timers| <= TIMERS_MAX && Separate(timers) && Coherent(timers, b)
    && Accounted(timers, tallies, b, now, charges) && Timely(tallies, b, |charges|) && Logged(log, |charges|, now)
  }

  ghost predicate Serviced(timers: seq<Entry>, tallies: seq<Tally>, b: Board, on: seq<bool>, charges: seq<Charge>,
                           log: seq<Firing>) {
    && |timers| <= TIMERS_MAX && Separate(timers) && Coherent(timers, b) && Snapshot(timers, b, on)
    && Served(timers, tallies, Board(on, b.counts), charges) && InOrder(log, Board(on, b.counts), charges)
  }

  lemma {:induction false} ServiceBegins(timers: seq<Entry>, tallies: seq<Tally>, b: Board, now: int,
                                         charges: seq<Charge>,
                                         log: seq<Firing>, diff: nat, b': Board, charges': seq<Charge>)
    requires Sane(timers, tallies, b, now, charges, log)
    requires b' == Taken(timers, b, diff) && charges' == charges + [Charge(now, now + diff)]
    ensures Serviced(timers, tallies, b', b.on, charges', log)
  {
    AllCharged(timers, tallies, b, now, charges, diff);
    LogCharged(log, Less(b, diff), charges, now, diff);
    assert Less(b, diff) == Board(b.on, b'.counts);
  }

  lemma {:induction false} ServiceGoesOn(timers: seq<Entry>, tallies: seq<Tally>, b: Board, on: seq<bool>,
                                         charges: seq<Charge>,
                                         log: seq<Firing>, c: nat, b': Board, on': seq<bool>, log': seq<Firing>)
    requires Serviced(timers, tallies, b, on, charges, log) && c < |timers| && on[c] && b.counts[c] <= 0
    requires forall i | 0 <= i < |on| && on[i] :: b.counts[c] <= b.counts[i]
    requires |b'.on| == |b'.counts| == |timers| && b' == Board(b.on[c := b'.on[c]], b.counts[c := b'.counts[c]])
    requires on' == on[c := b'.on[c]]
    requires (b'.on[c] ==> b'.counts[c] > b.counts[c]) && (Self(timers[c]) ==> b'.on[c] == (b'.counts[c] != 0))
    requires timers[c].callback.Periodic? ==>
               b'.counts[c] == b.counts[c] + timers[c].callback.period
                   && b'.on[c] == (Self(timers[c]) ==> b'.counts[c] != 0)
    requires log' == log + [Firing(c, charges[|charges| - 1].to + b.counts[c], |charges| - 1,
             IsOverdue(tallies[c], charges))]
    ensures Serviced(timers, Fired(tallies, c), b', on', charges, log')
  {
    OneFired(timers, tallies, Board(on, b.counts), charges, c, b'.on[c], b'.counts[c]);
    LogFired(log, Board(on, b.counts), charges, c, IsOverdue(tallies[c], charges), b'.on[c], b'.counts[c]);
    assert Board(on', b'.counts) == Board(on[c := b'.on[c]], b.counts[c := b'.counts[c]]);
  }

  lemma {:induction false} WritingKeeps(timers: seq<Entry>, tallies: seq<Tally>, b: Board, now: int,
                                        charges: seq<Charge>, log: seq<Firing>,
                                        written: set<nat>, b': Board, calls: seq<nat>, tallies': seq<Tally>)
    requires |calls| == |tallies| && Sane(timers, tallies, b, now, charges, log) && SameBut(b, b', written)
             && Coherent(timers, b')
    requires tallies' == Restarted(tallies, written, b'.counts, now, |charges|, calls)
    ensures Sane(timers, tallies', b', now, charges, log)
  {
    SomeWritten(timers, tallies, b, b', written, now, charges, calls);
  }

  lemma {:induction false} AddingKeeps(timers: seq<Entry>, tallies: seq<Tally>, b: Board, now: int,
                                       charges: seq<Charge>, log: seq<Firing>,
                                       e: Entry, on: bool, count: int, timers': seq<Entry>, b': Board,
                                           tallies': seq<Tally>)
    requires Sane(timers, tallies, b, now, charges, log) && |timers| < TIMERS_MAX && timers' == timers + [e]
             && Separate(timers')
    requires Self(e) ==> on == (count != 0)
    requires b' == Board(b.on + [on], b.counts + [count]) && tallies' == tallies + [Tally(count, now, |charges|, 0, 0)]
    ensures Sane(timers', tallies', b', now, charges, log)
  {
    assert timers'[|timers|] == e;
    OneAdded(timers, tallies, b, e, on, count, now, charges);
  }

  /** With nothing due the snapshot is what is enabled. */
  lemma {:induction false} ServiceEnds(timers: seq<Entry>, tallies: seq<Tally>, b: Board, on: seq<bool>,
                                       charges: seq<Charge>, log: seq<Firing>)
    requires Serviced(timers, tallies, b, on, charges, log) && forall c | 0 <= c < |on| && on[c] :: b.counts[c] > 0
    ensures on == b.on && Sane(timers, tallies, b, charges[|charges| - 1].to, charges, log)
  {
    assert on == b.on;
    assert b == Board(on, b.counts);
    AllDone(timers, tallies, b, charges);
  }

  // ----- what the rest of the emulator does ----------------------------------

  /** x := v */
  datatype Assignment = Assignment(x: Cell, v: int)

  /** Time passes, by timer_end_period or timer_clock; a device writes its variables
      at any time; or it does so between timer_process, or timer_clock, and
      timer_update_outstanding. */
  datatype Step =
    | EndStep(diff: nat)
    | ClockStep(diff: nat)
    | WriteStep(writes: seq<Assignment>)
    | RearmStep(writes: seq<Assignment>)
    | ClockRearmStep(diff: nat, writes: seq<Assignment>)
  {
    function Time(): nat {
      if EndStep? || ClockStep? || ClockRearmStep? then diff else 0
    }

    function Writes(): seq<Assignment> {
      if WriteStep? || RearmStep? || ClockRearmStep? then writes else []
    }
  }

  function TimeOf(steps: seq<Step>): nat {
    if steps == [] then 0 else TimeOf(steps[..|steps| - 1]) + steps[|steps| - 1].Time()
  }

  function Written(writes: seq<Assignment>): set<Cell> {
    set w | w in writes :: w.x
  }

  function WrittenBy(steps: seq<Step>): set<Cell> {
    set st, w | st in steps && w in st.Writes() :: w.x
  }

  class TimerSystem {
    var timers: seq<Entry>
    var calls: seq<nat>              // how often each timer's callback has been called
    var latch: int
    var timerCount: int
    var timerStart: int

    ghost var board: Board           // which timers are enabled, and their counts
    ghost var now: int               // time charged to the timers so far
    ghost var elapsed: int           // time passed so far
    ghost var tallies: seq<Tally>    // one for each timer
    ghost var charges: seq<Charge>   // all charges, oldest first
    ghost var watched: set<nat>      // timers enabled at the last update and not written since
    ghost var log: seq<Firing>       // all callbacks run, oldest first

    constructor ()
      ensures AtRest() && timers == [] && latch == timerCount == timerStart == 0
      ensures now == elapsed == 0 && log == [] && charges == []
    {
      timers, calls, latch, timerCount, timerStart := [], [], 0, 0, 0;
      board, now, elapsed, tallies, charges, watched, log := Board([], []), 0, 0, [], [], {}, [];
    }

    ghost function Cells(): set<Cell>
      reads this`timers
    {
      (set e | e in timers :: e.count) + (set e | e in timers :: e.enable)
    }

    /** The board shows what is in the variables. */
    ghost predicate Shown()
      reads this`timers, this`board, Cells()
    {
      Shows(board)
    }

    ghost predicate Shows(b: Board)
      reads this`timers, Cells()
    {
      && |b.on| == |b.counts| == |timers|
      && (forall c | 0 <= c < |timers| :: b.counts[c] == timers[c].count.v)
      && (forall c | 0 <= c < |timers| :: b.on[c] == (timers[c].enable.v != 0))
    }

    ghost predicate Valid()
      reads this`timers, this`calls, this`board, this`now, this`tallies, this`charges, this`log, Cells()
    {
      Shown() && Sane(timers, tallies, board, now, charges, log) && Counted(calls, tallies)
    }

    /** No enabled timer is due. */
    ghost predicate Settled()
      reads this`board
    {
      |board.on| == |board.counts| && forall c | 0 <= c < |board.on| && board.on[c] :: board.counts[c] > 0
    }

    /** The countdown ends early enough for every watched timer. */
    ghost predicate Watching()
      reads this`board, this`latch, this`watched
    {
      |board.on| == |board.counts| && forall c | c in watched ::
        c < |board.on| && board.on[c] && board.counts[c] >= latch - SLACK
    }

    /** The state between two steps. */
    ghost predicate AtRest()
      reads this, Cells()
    {
      Valid() && Watching() && elapsed - now == latch - timerCount >= 0
    }

    // ----- timer_process -----------------------------------------------------

    /** The variables while the first loop runs, b being the board before it: the
        first c timers have been seen to. */
    ghost predicate Halfway(b: Board, c: nat, diff: int)
      reads this`timers, Cells()
    {
      && |b.on| == |b.counts| == |timers|
      && (forall i | 0 <= i < |timers| :: timers[i].count.v == b.counts[i] - if i < c && b.on[i] then diff else 0)
      && (forall i | 0 <= i < |timers| && (i >= c || !Self(timers[i])) :: b.on[i] == (timers[i].enable.v != 0))
    }

    /** Takes diff off timer c, if it is enabled. */
    method SubtractFrom(c: nat, diff: int, ghost b: Board) returns (on: bool, due: bool)
      requires c < |timers| && Separate(timers) && Halfway(b, c, diff)
      modifies timers[c].count
      ensures Halfway(b, c + 1, diff) && on == b.on[c] && due == (on && b.counts[c] - diff <= 0)
    {
      on, due := timers[c].enable.v != 0, false;
      if on {
        timers[c].count.v := timers[c].count.v - diff;
        due := timers[c].count.v <= 0;
      }
    }

    /** The first loop: takes diff off every enabled timer. */
    method SubtractLoop(diff: int) returns (enable: seq<bool>, due: bool)
      requires Separate(timers) && Shown()
      modifies set e | e in timers :: e.count
      ensures enable == board.on && Halfway(board, |timers|, diff)
      ensures due || forall c | 0 <= c < |timers| && enable[c] :: board.counts[c] - diff > 0
      ensures due ==> exists c :: 0 <= c < |timers| && enable[c] && board.counts[c] - diff <= 0
    {
      enable, due := [], false;
      ghost var b, first := board, 0;
      for c := 0 to |timers|
        invariant Halfway(b, c, diff) && enable == b.on[..c]
        invariant if due then first < c && b.on[first] && b.counts[first] - diff <= 0
                  else forall i | 0 <= i < c && b.on[i] :: b.counts[i] - diff > 0
      {
        var on, low := SubtractFrom(c, diff, b);
        enable := enable + [on];
        if low {
          due, first := true, c;
        }
      }
    }

    method Subtract(diff: int) returns (enable: seq<bool>, due: bool)
      requires Separate(timers) && Shown()
      modifies this`board, set e | e in timers :: e.count
      ensures Shown() && enable == old(board.on) && |enable| == |old(board.counts)| == |timers|
      ensures board == Taken(timers, old(board), diff)
      ensures due || forall c | 0 <= c < |timers| && enable[c] :: board.counts[c] > 0
    {
      enable, due := SubtractLoop(diff);
      board := Taken(timers, board, diff);
    }

    /** The state while callbacks are run for the last charge; on is the snapshot
        of the enabled timers. */
    ghost predicate InService(on: seq<bool>)
      reads this`timers, this`calls, this`board, this`now, this`tallies, this`charges, this`log, Cells()
    {
      && Shown() && Serviced(timers, tallies, board, on, charges, log) && charges[|charges| - 1].to == now
      && Counted(calls, tallies)
    }

    /** The first loop, with the charge on record. */
    method ChargeTime(diff: int) returns (enable: seq<bool>, due: bool)
      requires Valid() && diff >= 0
      modifies this`board, this`now, this`charges, set e | e in timers :: e.count
      ensures InService(enable) && now == old(now) + diff && charges == old(charges) + [Charge(old(now), now)]
      ensures enable == old(board.on) && |enable| == |old(board.counts)| == |timers|
              && board == Taken(timers, old(board), diff)
      ensures due || forall c | 0 <= c < |timers| && enable[c] :: board.counts[c] > 0
      ensures latch == old(latch) && elapsed == old(elapsed) && timerStart == old(timerStart)
    {
      ghost var b, more := board, charges + [Charge(now, now + diff)];
      enable, due := Subtract(diff);
      ServiceBegins(timers, tallies, b, now, charges, log, diff, board, more);
      charges := more;
      now := now + diff;
    }

    /** Runs the callback of timer c. */
    method Fire(c: nat)
      requires c < |timers| == |calls| && Separate(timers)
      modifies this`calls, timers[c].count, timers[c].enable
      ensures calls == old(calls)[c := old(calls)[c] + 1]
      ensures timers[c].count.v > old(timers[c].count.v) || timers[c].enable.v == 0
      ensures timers[c].callback.Periodic? ==> timers[c].count.v == old(timers[c].count.v) + timers[c].callback.period
      ensures !timers[c].callback.Arbitrary? && !Self(timers[c]) ==> timers[c].enable.v == old(timers[c].enable.v)
    {
      var e := timers[c];
      calls := calls[c := calls[c] + 1];
      match e.callback {
        case Periodic(p) =>
          e.count.v := e.count.v + p;
        case Varying(_) =>
          var more: int := *;
          e.count.v := e.count.v + if more >= 1 then more else 1;
        case Arbitrary(_) =>
          var more: int, off: bool := *, *;
          e.count.v := e.count.v + if more >= 1 then more else 1;
          if off {
            e.count.v := more;
            e.enable.v := 0;
          }
      }
    }

    /** The inner loop: the first timer of the snapshot with the lowest count, if
        that count is not positive. */
    method FindLowest(enable: seq<bool>) returns (lowest: int, lowestC: nat)
      requires |enable| == |timers|
      ensures lowest <= 1
      ensures forall c | 0 <= c < |timers| && enable[c] :: lowest <= timers[c].count.v
      ensures lowest <= 0 ==> lowestC < |timers| && enable[lowestC] && timers[lowestC].count.v == lowest
      ensures lowest <= 0 ==> forall c | 0 <= c < lowestC && enable[c] :: lowest < timers[c].count.v
    {
      lowest, lowestC := 1, 0;
      for c := 0 to |timers|
        invariant lowest <= 1
        invariant forall i | 0 <= i < c && enable[i] :: lowest <= timers[i].count.v
        invariant lowest <= 0 ==> lowestC < c && enable[lowestC] && timers[lowestC].count.v == lowest
        invariant lowest <= 0 ==> forall i | 0 <= i < lowestC && enable[i] :: lowest < timers[i].count.v
      {
        if enable[c] && timers[c].count.v < lowest {
          lowest, lowestC := timers[c].count.v, c;
        }
      }
    }

    /** The callback alone: the other timers stay as they are. */
    method FireOne(c: nat) returns (on: bool)
      requires Shown() && Coherent(timers, board) && Separate(timers) && c < |timers| == |calls|
      modifies this`board, this`calls, timers[c].count, timers[c].enable
      ensures Shown() && Coherent(timers, board) && on == board.on[c]
      ensures |board.on| == |board.counts| == |timers| == |old(board.on)| == |old(board.counts)|
      ensures board == Board(old(board.on)[c := on], old(board.counts)[c := board.counts[c]])
      ensures on ==> board.counts[c] > old(board.counts[c])
      ensures timers[c].callback.Periodic? ==> board.counts[c] == old(board.counts[c]) + timers[c].callback.period
      ensures !timers[c].callback.Arbitrary? && !Self(timers[c]) ==> on == old(board.on[c])
      ensures calls == old(calls)[c := old(calls)[c] + 1]
      ensures log == old(log) && charges == old(charges) && now == old(now) && tallies == old(tallies)
    {
      Fire(c);
      on := timers[c].enable.v != 0;
      board := Board(board.on[c := on], board.counts[c := timers[c].count.v]);
    }

    ghost method Book(on: seq<bool>, tallies': seq<Tally>, log': seq<Firing>)
      requires Shown() && Serviced(timers, tallies', board, on, charges, log') && charges[|charges| - 1].to == now
      requires Counted(calls, tallies')
      modifies this`tallies, this`log
      ensures InService(on) && tallies == tallies' && log == log'
    {
      tallies, log := tallies', log';
    }

    /** Runs the callback of the timer due first, and accounts for it. */
    method FireLowest(on: seq<bool>, c: nat) returns (on': seq<bool>)
      requires InService(on) && c < |timers| && on[c] && board.counts[c] <= 0
      requires forall i | 0 <= i < |timers| && on[i] :: board.counts[c] <= board.counts[i]
      modifies this`board, this`log, this`calls, this`tallies, timers[c].count, timers[c].enable
      ensures InService(on')
      ensures log == old(log) + [Firing(c, now + old(board.counts[c]), |charges| - 1,
              IsOverdue(old(tallies[c]), charges))]
      ensures tallies == Fired(old(tallies), c) && board.counts == old(board.counts)[c := board.counts[c]]
      ensures |on'| == |on| && on' == on[c := on'[c]] && (on'[c] ==> board.counts[c] > old(board.counts[c]))
    {
      ghost var b, more := board,
          log + [Firing(c, now + board.counts[c], |charges| - 1, IsOverdue(tallies[c], charges))];
      var b1 := FireOne(c);
      on' := on[c := b1];
      ServiceGoesOn(timers, tallies, b, on, charges, log, c, board, on', more);
      Book(on', Fired(tallies, c), more);
    }

    /** One round of the second loop: false when no timer of the snapshot is due. */
    method ServeOne(enable: seq<bool>) returns (more: bool, enable': seq<bool>)
      requires InService(enable)
      modifies this`board, this`tallies, this`log, this`calls, Cells()
      ensures InService(enable') && old(log) <= log
      ensures !more ==> forall c | 0 <= c < |timers| && enable'[c] :: board.counts[c] > 0
      ensures more ==> Overdue(enable', board.counts) < Overdue(enable, old(board.counts))
      ensures Ran(old(tallies), tallies, old(board.counts), board.counts)
    {
      var lowest, c := FindLowest(enable);
      if lowest > 0 {
        return false, enable;
      }
      more := true;
      ghost var counts := board.counts;
      enable' := FireLowest(enable, c);
      OverdueAt(enable, counts, c, enable'[c], board.counts[c]);
    }

    /** The second loop: runs callbacks until none is due. */
    method Serve(on: seq<bool>)
      requires InService(on)
      modifies this`board, this`tallies, this`log, this`calls, Cells()
      ensures Valid() && Settled() && old(log) <= log
      ensures Ran(old(tallies), tallies, old(board.counts), board.counts)
    {
      var enable, more := on, true;
      while more
        invariant InService(enable) && old(log) <= log
        invariant !more ==> forall c | 0 <= c < |timers| && enable[c] :: board.counts[c] > 0
        invariant Ran(old(tallies), tallies, old(board.counts), board.counts)
        decreases more, Overdue(enable, board.counts)
      {
        more, enable := ServeOne(enable);
      }
      ServiceEnds(timers, tallies, board, enable, charges, log);
    }

    /** timer_process: charges the elapsed time and runs every callback that has
        become due.  A timer whose callback is not run is charged and no more. */
    method Process()
      requires Valid() && latch >= timerCount
      modifies this`latch, this`board, this`now, this`tallies, this`charges, this`log, this`calls, Cells()
      ensures Valid() && Settled() && old(log) <= log
      ensures latch == 0 && now == old(now) + old(latch) - timerCount
              && charges == old(charges) + [Charge(old(now), now)]
      ensures |old(board.on)| == |old(board.counts)|
      ensures Ran(old(tallies), tallies, Less(old(board), old(latch) - timerCount).counts, board.counts)
      ensures Continued(old(tallies)) && elapsed == old(elapsed) && timerStart == old(timerStart)
    {
      var diff := latch - timerCount;
      latch := 0;
      ChargeAndServe(diff);
    }

    method ChargeAndServe(diff: int)
      requires Valid() && diff >= 0
      modifies this`board, this`now, this`tallies, this`charges, this`log, this`calls, Cells()
      ensures Valid() && Settled() && old(log) <= log
      ensures now == old(now) + diff && charges == old(charges) + [Charge(old(now), now)]
      ensures |old(board.on)| == |old(board.counts)|
              && Ran(old(tallies), tallies, Less(old(board), diff).counts, board.counts)
      ensures Continued(old(tallies)) && latch == old(latch) && elapsed == old(elapsed) && timerStart == old(timerStart)
    {
      var enable, due := ChargeTime(diff);
      ServeIf(enable, due);
    }

    method ServeIf(on: seq<bool>, due: bool)
      requires InService(on) && (due || forall c | 0 <= c < |timers| && on[c] :: board.counts[c] > 0)
      modifies this`board, this`tallies, this`log, this`calls, Cells()
      ensures Valid() && Settled() && old(log) <= log
      ensures Ran(old(tallies), tallies, old(board.counts), board.counts)
      ensures now == old(now) && charges == old(charges)
      ensures latch == old(latch) && elapsed == old(elapsed) && timerStart == old(timerStart)
    {
      if due {
        Serve(on);
      } else {
        ServiceEnds(timers, tallies, board, on, charges, log);
      }
    }

    // ----- the countdown -----------------------------------------------------

    /** timer_update_outstanding: sets the countdown to the earliest enabled timer,
        rounded up by less than one unit of 64.  The sum fits 64 bits just when
        some timer is enabled and its count is not among the largest 63 values. */
    method UpdateOutstanding()
      requires Shown()
      modifies this`latch, this`timerCount, this`watched
      ensures timerCount == latch && Watching() && watched == WhichOn()
      ensures latch - 63 == 0x7fff_ffff_ffff_ffff || exists c ::
                0 <= c < |timers| && board.on[c] && latch - 63 == board.counts[c]
      ensures latch <= 0x7fff_ffff_ffff_ffff <==>
                exists c :: 0 <= c < |timers| && board.on[c] && board.counts[c] <= 0x7fff_ffff_ffff_ffc0
    {
      latch := FOREVER;
      ghost var first := 0;
      for c := 0 to |timers|
        invariant latch <= FOREVER
        invariant forall i | 0 <= i < c && board.on[i] :: latch <= board.counts[i]
        invariant latch == FOREVER || (first < c && board.on[first] && latch == board.counts[first])
      {
        if timers[c].enable.v != 0 && timers[c].count.v < latch {
          latch := timers[c].count.v;
          first := c;
        }
      }
      latch := latch + SLACK;
      timerCount := latch;
      watched := WhichOn();
    }

    ghost function WhichOn(): set<nat>
      reads this`board
    {
      set c: nat | c < |board.on| && board.on[c]
    }

    /** No watched timer is late by a whole CPU cycle of 64 units: its count less
        the uncharged time stays above -63. */
    ghost predicate Punctual()
      reads this`board, this`latch, this`timerCount, this`watched
    {
      forall c | c in watched :: c < |board.on| && c < |board.counts| && board.on[c]
          && board.counts[c] - (latch - timerCount) > -63
    }

    /** The accounts go on: no timer has been written. */
    ghost predicate Continued(was: seq<Tally>)
      reads this`tallies
    {
      |tallies| == |was| && forall c | 0 <= c < |was| ::
        tallies[c] == was[c].(fired := tallies[c].fired) && tallies[c].fired >= was[c].fired
    }

    /** An update when all time has been charged. */
    method Renew()
      requires Valid() && elapsed == now
      modifies this`latch, this`timerCount, this`watched
      ensures AtRest() && watched == WhichOn() && timerCount == latch && (Settled() ==> latch > 0 && Punctual())
      ensures log == old(log) && charges == old(charges) && tallies == old(tallies) && board == old(board)
    {
      UpdateOutstanding();
    }

    /** Processing followed by an update. */
    method Refresh()
      requires AtRest()
      modifies this`latch, this`timerCount, this`board, this`now, this`tallies, this`charges, this`watched, this`log,
               this`calls, Cells()
      ensures AtRest() && Settled() && old(log) <= log && now == elapsed && Continued(old(tallies))
      ensures timerCount == latch > 0 && Punctual() && charges == old(charges) + [Charge(old(now), now)]
              && watched == WhichOn()
      ensures elapsed == old(elapsed) && timerStart == old(timerStart)
    {
      Process();
      Renew();
    }

    method StartPeriod(cycles: int)
      modifies this`timerStart
      ensures timerStart == cycles
    {
      timerStart := cycles;
    }

    /** The cycle counter has come down to cycles. */
    method Elapse(cycles: int)
      requires AtRest() && cycles <= timerStart
      modifies this`timerCount, this`timerStart, this`elapsed
      ensures AtRest() && timerStart == cycles
      ensures timerCount == old(timerCount) - (old(timerStart) - cycles)
              && elapsed == old(elapsed) + (old(timerStart) - cycles)
    {
      timerCount := timerCount - (timerStart - cycles);
      elapsed := elapsed + (timerStart - cycles);
      timerStart := cycles;
    }

    /** timer_end_period: the CPU's cycle counter has come down to cycles.  On
        return no timer that was enabled at the last update and has not been
        written since is a CPU cycle late. */
    method EndPeriod(cycles: int)
      requires AtRest() && cycles <= timerStart
      modifies this`latch, this`timerCount, this`timerStart, this`elapsed, this`board
      modifies this`now, this`tallies, this`charges, this`watched, this`log, this`calls, Cells()
      ensures AtRest() && Punctual() && timerCount > 0 && old(log) <= log && Continued(old(tallies))
      ensures timerStart == cycles && elapsed == old(elapsed) + old(timerStart) - cycles
      ensures if old(timerCount) <= old(timerStart) - cycles then
                now == elapsed && Settled() && charges == old(charges) + [Charge(old(now), now)] && watched == WhichOn()
              else
                now == old(now) && log == old(log) && tallies == old(tallies) && charges == old(charges)
                && watched == old(watched) && board == old(board)
    {
      Elapse(cycles);
      if timerCount <= 0 {
        Refresh();
      }
    }

    /** timer_clock: as EndPeriod, but the timers are processed in any case. */
    method Clock(cycles: int)
      requires AtRest() && cycles <= timerStart
      modifies this`latch, this`timerCount, this`timerStart, this`elapsed, this`board
      modifies this`now, this`tallies, this`charges, this`watched, this`log, this`calls, Cells()
      ensures AtRest() && Settled() && Punctual() && timerCount == latch > 0 && old(log) <= log
              && Continued(old(tallies))
      ensures timerStart == cycles && now == elapsed == old(elapsed) + old(timerStart) - cycles
      ensures charges == old(charges) + [Charge(old(now), now)] && watched == WhichOn()
    {
      Elapse(cycles);
      Refresh();
    }

    // ----- what devices do ---------------------------------------------------

    ghost function Touched(x: Cell): set<nat>
      reads this`timers
    {
      set c: nat | c < |timers| && (timers[c].count == x || timers[c].enable == x)
    }

    /** Brings the board up to date after variable x has been written. */
    ghost method Show(x: Cell)
      requires |board.on| == |board.counts| == |timers| && Separate(timers) && Coherent(timers, board)
      requires forall c | 0 <= c < |timers| && timers[c].count != x :: board.counts[c] == timers[c].count.v
      requires forall c | 0 <= c < |timers| && timers[c].enable != x :: board.on[c] == (timers[c].enable.v != 0)
      modifies this`board
      ensures Shown() && Coherent(timers, board) && SameBut(old(board), board, Touched(x))
    {
      var ts := timers;
      board := Board(seq(|ts|,
          c requires 0 <= c < |ts| reads if 0 <= c < |ts| then {ts[c].enable} else {} => ts[c].enable.v != 0),
                     seq(|ts|, c requires 0 <= c < |ts| reads if 0 <= c < |ts| then {ts[c].count}
                         else {} => ts[c].count.v));
    }

    method Poke(x: Cell, v: int)
      requires Shown() && Coherent(timers, board) && Separate(timers)
      modifies this`board, x
      ensures x.v == v && Shown() && Coherent(timers, board) && SameBut(old(board), board, Touched(x))
    {
      x.v := v;
      Show(x);
    }

    ghost method Restart(t: seq<Tally>, w: set<nat>)
      requires Shown() && Sane(timers, t, board, now, charges, log) && Counted(calls, t)
      modifies this`tallies, this`watched
      ensures Valid() && tallies == t && watched == w
    {
      tallies, watched := t, w;
    }

    /** A device writes a variable of its own.  The accounts of the timers it
        belongs to start over, and those of all others go on. */
    method Write(x: Cell, v: int)
      requires Valid() && x in Cells()
      modifies this`board, this`tallies, this`watched, x
      ensures Valid() && x.v == v && watched == old(watched) - Touched(x)
      ensures |old(tallies)| == |board.counts| == |calls|
              && tallies == Restarted(old(tallies), Touched(x), board.counts, now, |charges|, calls)
      ensures SameBut(old(board), board, Touched(x)) && (old(Watching()) ==> Watching())
    {
      ghost var was := board;
      Poke(x, v);
      ghost var restarted := Restarted(tallies, Touched(x), board.counts, now, |charges|, calls);
      WritingKeeps(timers, tallies, was, now, charges, log, Touched(x), board, calls, restarted);
      Restart(restarted, watched - Touched(x));
    }

    /** The accounts of timers whose variables are not among those written go on. */
    ghost predicate ContinuedBut(was: seq<Tally>, cells: set<Cell>)
      reads this`tallies, this`timers
    {
      |tallies| == |timers| == |was| && forall c | 0 <= c < |was| && timers[c].count !in cells
          && timers[c].enable !in cells ::
        tallies[c] == was[c].(fired := tallies[c].fired) && tallies[c].fired >= was[c].fired
    }

    /** Timers whose variables are not among those written stay watched. */
    ghost predicate WatchedBut(was: set<nat>, cells: set<Cell>)
      reads this`watched, this`timers
    {
      watched <= was && forall c | c in was && c < |timers| && timers[c].count !in cells
          && timers[c].enable !in cells :: c in watched
    }

    method WriteAll(writes: seq<Assignment>)
      requires Valid() && Written(writes) <= Cells()
      modifies this`board, this`tallies, this`watched, Cells()
      ensures Valid() && (old(Watching()) ==> Watching())
      ensures ContinuedBut(old(tallies), Written(writes)) && WatchedBut(old(watched), Written(writes))
    {
      ghost var was, seen := tallies, watched;
      for k := 0 to |writes|
        invariant Valid() && (old(Watching()) ==> Watching())
        invariant ContinuedBut(was, Written(writes[..k])) && WatchedBut(seen, Written(writes[..k]))
      {
        assert writes[k] in writes && writes[k] in writes[..k + 1];
        assert Written(writes[..k]) <= Written(writes[..k + 1]);
        Write(writes[k].x, writes[k].v);
      }
      assert writes[..|writes|] == writes;
    }

    method WriteAndUpdate(writes: seq<Assignment>)
      requires Valid() && elapsed == now && Written(writes) <= Cells()
      modifies this`latch, this`timerCount, this`board, this`tallies, this`watched, Cells()
      ensures AtRest() && watched == WhichOn() && ContinuedBut(old(tallies), Written(writes))
    {
      WriteAll(writes);
      Renew();
    }

    /** A device brings the timers up to date, writes its own, and updates. */
    method Rearm(writes: seq<Assignment>)
      requires AtRest() && Written(writes) <= Cells()
      modifies this`latch, this`timerCount, this`board, this`now, this`tallies, this`charges, this`watched, this`log,
               this`calls, Cells()
      ensures AtRest() && old(log) <= log && now == elapsed && watched == WhichOn()
      ensures ContinuedBut(old(tallies), Written(writes))
    {
      Process();
      WriteAndUpdate(writes);
    }

    method ClockRearm(cycles: int, writes: seq<Assignment>)
      requires AtRest() && cycles <= timerStart && Written(writes) <= Cells()
      modifies this`latch, this`timerCount, this`timerStart, this`elapsed, this`board
      modifies this`now, this`tallies, this`charges, this`watched, this`log, this`calls, Cells()
      ensures AtRest() && old(log) <= log && now == elapsed == old(elapsed) + old(timerStart) - cycles
              && watched == WhichOn()
      ensures ContinuedBut(old(tallies), Written(writes))
    {
      Clock(cycles);
      WriteAndUpdate(writes);
    }

    /** What the account of a periodic timer says about its firings: as many as the
        charged time demands, if it is enabled, whatever its count was set to; only
        before the first charge one set to a time past has not fired yet.  One that
        enables itself has lost firings if and only if it was set to zero or some
        charge since has skipped an expiry, and then it is disabled.  In real time a
        watched one is behind by less than a cycle. */
    lemma FiringsAreExact(c: nat)
      requires AtRest() && c < |timers| && timers[c].callback.Periodic?
      ensures Exact(c)
    {
      var t, p := tallies[c], timers[c].callback.period;
      TallyIsExact(timers[c].callback, Self(timers[c]), t, board.on[c], board.counts[c], now, charges);
      ExpectedIsMonotone(t.start, p, now - t.born, elapsed - t.born);
      if c in watched && timerCount > 0 {
        LagIsSmall(t.start, p, elapsed - SLACK - t.born, t.fired);
      }
    }

    ghost predicate AllExact()
      requires Fits(timers, tallies, board)
      reads this`timers, this`tallies, this`board, this`charges, this`now, this`elapsed, this`watched, this`timerCount
    {
      forall c | 0 <= c < |timers| && timers[c].callback.Periodic? :: Exact(c)
    }

    lemma AllFiringsAreExact()
      requires AtRest()
      ensures AllExact()
    {
      forall c | 0 <= c < |timers| && timers[c].callback.Periodic?
        ensures Exact(c)
      {
        FiringsAreExact(c);
      }
    }

    ghost predicate Exact(c: nat)
      requires c < |timers| && timers[c].callback.Periodic? && Sound(timers[c].callback)
               && |tallies| == |timers| == |board.on|
      reads this`timers, this`tallies, this`board, this`charges, this`now, this`elapsed, this`watched, this`timerCount
    {
      var t, p := tallies[c], timers[c].callback.period;
      var due, current := Expected(t.start, p, now - t.born), t.Current(|charges|);
      && t.base <= |charges| && (if current then board.on[c] ==> t.fired == due else t.fired == 0)
      && (Self(timers[c]) ==>
            && (board.on[c] <==> t.start != 0 && !t.Missed(p, charges, |charges|))
            && (current ==> (board.on[c] <==> t.fired == due)))
      && t.fired <= Expected(t.start, p, elapsed - t.born)
      && (c in watched && timerCount > 0 ==> Expected(t.start, p, elapsed - 63 - t.born) <= t.fired)
    }

    // ----- timer_add and timer_reset -----------------------------------------

    /** Does e keep clear of the other timers' variables? */
    ghost predicate Clear(e: Entry)
      reads this`timers
    {
      Sound(e.callback) && forall d | d in timers ::
        && e.count != d.count && e.count != d.enable && e.enable != d.count
        && (e.callback.Arbitrary? || d.callback.Arbitrary? ==> e.enable != d.enable)
    }

    /** timer_add: refused when the table is full, ignored when the very same timer
        is there already, else appended. */
    method Add(e: Entry) returns (index: int)
      requires AtRest() && (e in timers || Clear(e))
      modifies this`timers, this`calls, this`board, this`tallies
      ensures AtRest()
      ensures if old(|timers|) == 64 || e in old(timers) then
                timers == old(timers) && tallies == old(tallies) && index == if |timers| == 64 then -1 else 0
              else
                timers == old(timers) + [e] && index == old(|timers|)
                && tallies == old(tallies) + [Tally(e.count.v, now, |charges|, 0, 0)]
    {
      if |timers| == TIMERS_MAX {
        return -1;
      }
      for i := 0 to |timers|
        invariant e !in timers[..i]
      {
        if timers[i] == e {
          return 0;
        }
      }
      Append(e);
      return |timers| - 1;
    }

    method Append(e: Entry)
      requires AtRest() && Clear(e) && |timers| < TIMERS_MAX
      modifies this`timers, this`calls, this`board, this`tallies
      ensures AtRest() && timers == old(timers) + [e]
              && tallies == old(tallies) + [Tally(e.count.v, now, |charges|, 0, 0)]
    {
      Enter(e);
    }

    method Grow(e: Entry)
      requires Shown()
      modifies this`timers, this`calls
      ensures timers == old(timers) + [e] && calls == old(calls) + [0]
      ensures Shows(Board(board.on + [e.enable.v != 0], board.counts + [e.count.v]))
    {
      ghost var was := timers;
      timers := timers + [e];
      calls := calls + [0];
      assert forall c | 0 <= c < |was| :: timers[c] == was[c];
    }

    method Enter(e: Entry)
      requires Valid() && Clear(e) && |timers| < TIMERS_MAX
      modifies this`timers, this`calls, this`board, this`tallies
      ensures Valid() && timers == old(timers) + [e]
              && tallies == old(tallies) + [Tally(e.count.v, now, |charges|, 0, 0)]
      ensures board == Board(old(board.on) + [e.enable.v != 0], old(board.counts) + [e.count.v])
    {
      ghost var on, more := e.enable.v != 0, timers + [e];
      ghost var b, t := Board(board.on + [on], board.counts + [e.count.v]),
          tallies + [Tally(e.count.v, now, |charges|, 0, 0)];
      AddingKeeps(timers, tallies, board, now, charges, log, e, on, e.count.v, more, b, t);
      ghost var calls' := calls + [0];
      assert Counted(calls', t);
      Grow(e);
      Adopt(b, t);
    }

    ghost method Adopt(b: Board, t: seq<Tally>)
      requires Shows(b) && Sane(timers, t, b, now, charges, log) && Counted(calls, t)
      modifies this`board, this`tallies
      ensures Valid() && board == b && tallies == t
    {
      board, tallies := b, t;
    }

    /** timer_reset: forgets all timers, and the time not charged yet. */
    method Reset()
      modifies this`timers, this`calls, this`latch, this`timerCount, this`board, this`tallies, this`charges, this`log
      modifies this`watched, this`now, this`elapsed
      ensures AtRest() && timers == [] && latch == timerCount == 0
    {
      timers, calls, latch, timerCount := [], [], 0, 0;
      Forget();
    }

    ghost method Forget()
      requires timers == [] && calls == [] && latch == timerCount == 0
      modifies this`board, this`tallies, this`charges, this`log, this`watched, this`now, this`elapsed
      ensures AtRest()
    {
      board, tallies, charges, log, watched, now, elapsed := Board([], []), [], [], [], {}, 0, 0;
    }

    // ----- any run -----------------------------------------------------------

    method Perform(st: Step)
      requires AtRest() && Written(st.Writes()) <= Cells()
      modifies this`latch, this`timerCount, this`timerStart, this`elapsed, this`board
      modifies this`now, this`tallies, this`charges, this`watched, this`log, this`calls, Cells()
      ensures AtRest() && old(log) <= log && elapsed == old(elapsed) + st.Time()
      ensures ContinuedBut(old(tallies), Written(st.Writes()))
      ensures st.EndStep? || st.ClockStep? ==> Punctual() && timerCount > 0
      ensures !st.EndStep? && !st.WriteStep? ==> now == elapsed
    {
      match st {
        case EndStep(d) => EndPeriod(timerStart - d);
        case ClockStep(d) => Clock(timerStart - d);
        case WriteStep(writes) => WriteAll(writes);
        case RearmStep(writes) => Rearm(writes);
        case ClockRearmStep(d, writes) => ClockRearm(timerStart - d, writes);
      }
    }

    /** However time is split into steps, and whatever devices write in between:
        callbacks have run in order of expiry; after timer_end_period no timer that
        was enabled at the last update and not written since is late; the account
        of a timer that was not written goes on, and every account of a periodic
        timer tells exactly how often it has fired. */
    method Run(steps: seq<Step>)
      requires AtRest() && WrittenBy(steps) <= Cells()
      modifies this`latch, this`timerCount, this`timerStart, this`elapsed, this`board
      modifies this`now, this`tallies, this`charges, this`watched, this`log, this`calls, Cells()
      ensures AtRest() && AllExact() && Chronological(log) && old(log) <= log
      ensures elapsed == old(elapsed) + TimeOf(steps) && ContinuedBut(old(tallies), WrittenBy(steps))
      ensures var last := |steps| - 1;
              && (last >= 0 && (steps[last].EndStep? || steps[last].ClockStep?) ==> Punctual() && timerCount > 0)
              && (last >= 0 && !steps[last].EndStep? && !steps[last].WriteStep? ==> now == elapsed)
    {
      ghost var was, before := tallies, log;
      for n := 0 to |steps|
        invariant AtRest() && before <= log && elapsed == old(elapsed) + TimeOf(steps[..n])
        invariant ContinuedBut(was, WrittenBy(steps[..n]))
        invariant n > 0 && (steps[n - 1].EndStep? || steps[n - 1].ClockStep?) ==> Punctual() && timerCount > 0
        invariant n > 0 && !steps[n - 1].EndStep? && !steps[n - 1].WriteStep? ==> now == elapsed
      {
        WritesOfNext(steps, n);
        Perform(steps[n]);
      }
      assert steps[..|steps|] == steps;
      AllFiringsAreExact();
    }
  }

  lemma {:induction false} WritesOfNext(steps: seq<Step>, n: nat)
    requires n < |steps|
    ensures WrittenBy(steps[..n + 1]) == WrittenBy(steps[..n]) + Written(steps[n].Writes()) <= WrittenBy(steps)
    ensures TimeOf(steps[..n + 1]) == TimeOf(steps[..n]) + steps[n].Time()
  {
    assert steps[..n + 1][..n] == steps[..n] && steps[..n + 1] == steps[..n] + [steps[n]];
    assert steps[n] in steps;
  }

  /** Time that has not been charged yet cannot hide a firing, but for the slack. */
  lemma {:induction false} LagIsSmall(c0: int, p: int, t: int, fired: nat)
    requires p > 0 && t < c0 + fired * p
    ensures Expected(c0, p, t) <= fired
  {
    if t >= c0 {
      assert t - c0 == (t - c0) / p * p + (t - c0) % p;
      MulOrder((t - c0) / p, fired, p);
    }
  }

  /** A charge of 200 units skips an expiry of a timer with period and count 100. */
  lemma {:induction false} TwoPeriodsSkip()
    ensures MissedIn([Charge(0, 200)], 0, 1, 100, 100, 0) && Expected(100, 100, 200) == 2
  {
    var charges := [Charge(0, 200)];
    assert Skips(100, 100, charges[0].from - 0, charges[0].to - 0, 0 == 0);
  }

  /** One timer of period p and count p, enabling itself. */
  method OneTimer(p: nat) returns (ts: TimerSystem, x: Cell)
    requires p > 0
    ensures fresh(ts) && fresh(x) && ts.AtRest() && ts.timers == [Entry(Periodic(p), 0, x, x)]
    ensures ts.tallies == [Tally(p, 0, 0, 0, 0)] && ts.charges == [] && ts.now == ts.latch == ts.timerCount == 0
  {
    ts := new TimerSystem();
    x := new Cell;
    x.v := p;
    ts.Append(Entry(Periodic(p), 0, x, x));
  }

  method OneCharge(ts: TimerSystem, diff: nat)
    requires ts.AtRest() && ts.timerCount == 0
    modifies ts, ts.Cells()
    ensures ts.AtRest() && ts.timers == old(ts.timers) && ts.Continued(old(ts.tallies))
    ensures ts.now == old(ts.now + ts.latch) + diff && ts.charges == old(ts.charges) + [Charge(old(ts.now), ts.now)]
  {
    ts.StartPeriod(diff);
    ts.EndPeriod(0);
  }

  /** Was a timer of period and count p, enabling itself, charged diff units at once
      and no more? */
  ghost predicate ChargedOnce(ts: TimerSystem, x: Cell, p: nat, diff: nat)
    reads ts
  {
    && ts.timers == [Entry(Periodic(p), 0, x, x)] && ts.charges == [Charge(0, diff)] && ts.now == diff
    && |ts.tallies| == 1 && ts.tallies[0].start == p && ts.tallies[0].born == 0 == ts.tallies[0].base
  }

  /** Two periods at once: it was due twice, but it is disabled after at most one
      firing. */
  lemma {:induction false} FiringIsLost(ts: TimerSystem, x: Cell)
    requires ts.AtRest() && ChargedOnce(ts, x, 100, 200)
    ensures x.v == 0 && ts.tallies[0].fired < Expected(100, 100, 200) == 2
  {
    TwoPeriodsSkip();
    ts.FiringsAreExact(0);
    assert ts.tallies[0].Missed(100, ts.charges, 1);
    assert ts.timers[0].callback.period == 100;
  }

  method ChargeOnce(ts: TimerSystem, x: Cell, p: nat, diff: nat)
    requires ts.AtRest() && ts.timers == [Entry(Periodic(p), 0, x, x)] && ts.tallies == [Tally(p, 0, 0, 0, 0)]
    requires ts.charges == [] && ts.now == ts.latch == ts.timerCount == 0
    modifies ts, ts.Cells()
    ensures ts.AtRest() && ChargedOnce(ts, x, p, diff)
  {
    ghost var was := ts.tallies;
    OneCharge(ts, diff);
    assert ts.tallies[0] == was[0].(fired := ts.tallies[0].fired);
  }

  /** Such a state is reached. */
  method LostFiring() returns (ts: TimerSystem, x: Cell)
    ensures ts.AtRest() && ChargedOnce(ts, x, 100, 200) && x.v == 0 && ts.tallies[0].fired < 2
  {
    ts, x := OneTimer(100);
    ChargeOnce(ts, x, 100, 200);
    FiringIsLost(ts, x);
  }
}
