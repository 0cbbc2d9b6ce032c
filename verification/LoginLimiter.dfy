/** Login throttling: a swept table of counters that must act like the full history. */
module LoginLimiter {
  import opened Common

  // ---------------------------------------------------------------------
  // The history and what it says about a key
  // ---------------------------------------------------------------------

  datatype Event = Failed(key: string, at: int) | Cleared(key: string)

  /** Times of the failures of a key since it was last cleared, oldest first. */
  function Failures(h: seq<Event>, key: string): seq<int> {
    if h == [] then []
    else
      var n := |h| - 1;
      var before := Failures(h[..n], key);
      if h[n].key != key then before
      else match h[n]
           case Failed(_, t) => before + [t]
           case Cleared(_) => []
  }

  /** Length of the longest run of final failures with all gaps below the lockout. */
  function Streak(ts: seq<int>, lockout: int): nat {
    if ts == [] then 0
    else
      var n := |ts| - 1;
      if n > 0 && ts[n] - ts[n - 1] < lockout then Streak(ts[..n], lockout) + 1 else 1
  }

  /** The last `max` failures came close together and the last one is recent. */
  ghost predicate Locked(h: seq<Event>, key: string, now: int, max: int, lockout: int) {
    var ts := Failures(h, key);
    && ts != [] && now - ts[|ts| - 1] < lockout
    && max <= |ts|
    && forall i :: |ts| - max < i < |ts| ==> ts[i] - ts[i - 1] < lockout
  }

  lemma {:induction false} StreakMeaning(ts: seq<int>, lockout: int, n: int)
    ensures Streak(ts, lockout) <= |ts|
    ensures ts != [] ==>
      (n <= Streak(ts, lockout) <==> n <= |ts| && forall i :: |ts| - n < i < |ts| ==> ts[i] - ts[i - 1] < lockout)
  {
    if ts != [] {
      var m := |ts| - 1;
      StreakMeaning(ts[..m], lockout, n - 1);
      if m > 0 {
        assert forall i :: 0 <= i < m ==> ts[..m][i] == ts[i];
        assert n <= |ts| ==> ((forall i :: |ts| - n < i < |ts| ==> ts[i] - ts[i - 1] < lockout) <==>
                (n > 1 ==> ts[m] - ts[m - 1] < lockout) &&
                (forall i :: m - (n - 1) < i < m ==> ts[..m][i] - ts[..m][i - 1] < lockout));
      }
    }
  }

  lemma StreakAppend(ts: seq<int>, t: int, lockout: int)
    ensures Streak(ts + [t], lockout) ==
            if ts != [] && t - ts[|ts| - 1] < lockout then Streak(ts, lockout) + 1 else 1
  {
    assert (ts + [t])[..|ts|] == ts;
  }

  // ---------------------------------------------------------------------
  // The table
  // ---------------------------------------------------------------------

  datatype Record = Record(count: int, lastAt: int)

  /** What the table says about a key whose failures are `ts`. */
  ghost predicate Tells(attempts: map<string, Record>, ts: seq<int>, k: string, clock: int, lockout: int) {
    if k in attempts then ts != [] && attempts[k] == Record(Streak(ts, lockout), ts[|ts| - 1])
    else ts != [] ==> clock - ts[|ts| - 1] >= lockout
  }

  /** The record of a key after one more failure. */
  function Counted(attempts: map<string, Record>, key: string, now: int, lockout: int): Record {
    if key !in attempts || now - attempts[key].lastAt >= lockout then Record(1, now)
    else Record(attempts[key].count + 1, now)
  }

  lemma CountedTells(attempts: map<string, Record>, ts: seq<int>, key: string, now: int, lockout: int)
    requires Tells(attempts, ts, key, now, lockout)
    ensures Tells(attempts[key := Counted(attempts, key, now, lockout)], ts + [now], key, now, lockout)
  {
    StreakAppend(ts, now, lockout);
  }

  /** Five minutes in nanoseconds. */
  const SWEEP_INTERVAL := 300_000_000_000

  class Limiter {
    var attempts: map<string, Record>
    var lastSweep: int
    const max: int
    const lockout: int

    ghost var history: seq<Event>
    ghost var clock: int

    /** The record of a key is its streak; without a record no streak is left. */
    ghost predicate Faithful(k: string)
      reads this
    {
      Tells(attempts, Failures(history, k), k, clock, lockout)
    }

    ghost predicate Valid()
      reads this
    {
      forall k: string :: Faithful(k)
    }

    constructor (max: int, lockout: int)
      ensures Valid() && history == [] && this.max == max && this.lockout == lockout
    {
      this.max, this.lockout := max, lockout;
      attempts, lastSweep := map[], 0;
      history, clock := [], 0;
    }

    /** Drops the records that are out of date, at most once per interval. */
    method Sweep(now: int)
      modifies this`attempts, this`lastSweep
      ensures now - old(lastSweep) < SWEEP_INTERVAL ==> attempts == old(attempts) && lastSweep == old(lastSweep)
      ensures now - old(lastSweep) >= SWEEP_INTERVAL ==> lastSweep == now
      ensures now - old(lastSweep) >= SWEEP_INTERVAL ==>
                attempts == map k | k in old(attempts) && now - old(attempts)[k].lastAt < lockout :: old(attempts)[k]
    {
      if now - lastSweep < SWEEP_INTERVAL {
        return;
      }
      lastSweep := now;
      var todo := attempts.Keys;
      while todo != {}
        invariant lastSweep == now
        invariant todo <= attempts.Keys <= old(attempts).Keys
        invariant forall k :: k in attempts ==> attempts[k] == old(attempts)[k]
        invariant forall k :: k in old(attempts) && k !in todo ==>
                    (k in attempts <==> now - old(attempts)[k].lastAt < lockout)
        invariant forall k :: k in todo ==> k in attempts
        decreases |todo|
      {
        var k := AnyOf(todo);
        todo := todo - {k};
        if now - attempts[k].lastAt >= lockout {
          attempts := attempts - {k};
        }
      }
    }

    /** Answers as the history says, whatever was swept or dropped before. */
    method Allow(key: string, now: int) returns (granted: bool)
      requires Valid() && clock <= now
      modifies this
      ensures Valid() && clock == now && history == old(history)
      ensures granted <==> !Locked(history, key, now, max, lockout)
    {
      StreakMeaning(Failures(history, key), lockout, max);
      assert Faithful(key);
      Sweep(now);
      clock := now;
      assert Valid() by {
        forall k ensures Faithful(k) { assert old(Faithful(k)); }
      }
      if key !in attempts {
        return true;
      }
      if now - attempts[key].lastAt >= lockout {
        attempts := attempts - {key};
        assert forall k :: old(Faithful(k)) ==> Faithful(k);
        return true;
      }
      granted := attempts[key].count < max;
    }

    method Fail(key: string, now: int)
      requires Valid() && clock <= now
      modifies this
      ensures Valid() && clock == now && history == old(history) + [Failed(key, now)]
    {
      Sweep(now);
      assert forall k :: old(Faithful(k)) ==> Tells(attempts, Failures(history, k), k, now, lockout);
      CountedTells(attempts, Failures(history, key), key, now, lockout);
      if key !in attempts || now - attempts[key].lastAt >= lockout {
        attempts := attempts[key := Record(1, now)];
      } else {
        attempts := attempts[key := Record(attempts[key].count + 1, now)];
      }
      clock := now;
      history := history + [Failed(key, now)];
      forall k ensures Faithful(k) {
        assert old(Faithful(k));
        FailuresAppend(old(history), Failed(key, now), k);
      }
    }

    /** Both `success` and `reset`. */
    method Clear(key: string)
      requires Valid()
      modifies this
      ensures Valid() && clock == old(clock) && history == old(history) + [Cleared(key)]
    {
      history := history + [Cleared(key)];
      attempts := attempts - {key};
      forall k ensures Faithful(k) {
        assert old(Faithful(k));
        FailuresAppend(old(history), Cleared(key), k);
      }
    }
  }

  // ---------------------------------------------------------------------
  // How far the login flow can push a streak
  // ---------------------------------------------------------------------

  /** Moves of the login attempts on one key; `Begin` is an `allow` that was granted. */
  datatype Move = Begin(at: int) | Fail(at: int) | Abandon | Succeed

  function Events(ms: seq<Move>, key: string): seq<Event> {
    if ms == [] then []
    else
      var before := Events(ms[..|ms| - 1], key);
      match ms[|ms| - 1]
      case Fail(t) => before + [Failed(key, t)]
      case Succeed => before + [Cleared(key)]
      case _ => before
  }

  /** Attempts begun and not yet ended. */
  function Pending(ms: seq<Move>): int {
    if ms == [] then 0
    else Pending(ms[..|ms| - 1]) + if ms[|ms| - 1].Begin? then 1 else -1
  }

  function Clock(ms: seq<Move>): int {
    if ms == [] then 0
    else
      var last := ms[|ms| - 1];
      if last.Begin? || last.Fail? then last.at else Clock(ms[..|ms| - 1])
  }

  /** Only granted attempts fail, at most `c` overlap, and time does not run back. */
  ghost predicate MayFollow(ms: seq<Move>, m: Move, key: string, max: int, lockout: int, c: int) {
    match m
    case Begin(t) => Clock(ms) <= t && Pending(ms) < c && !Locked(Events(ms, key), key, t, max, lockout)
    case Fail(t) => Clock(ms) <= t && Pending(ms) > 0
    case _ => Pending(ms) > 0
  }

  ghost predicate Legal(ms: seq<Move>, key: string, max: int, lockout: int, c: int) {
    ms == [] ||
    (Legal(ms[..|ms| - 1], key, max, lockout, c) && MayFollow(ms[..|ms| - 1], ms[|ms| - 1], key, max, lockout, c))
  }

  function StreakOf(ms: seq<Move>, key: string, lockout: int): nat {
    Streak(Failures(Events(ms, key), key), lockout)
  }

  /** A new event at the end of a history. */
  lemma FailuresAppend(h: seq<Event>, e: Event, key: string)
    ensures Failures(h + [e], key) ==
            if e.key != key then Failures(h, key)
            else if e.Failed? then Failures(h, key) + [e.at] else []
  {
    assert (h + [e])[..|h|] == h;
  }

  /** Appending one move. */
  lemma Appended(ms: seq<Move>, m: Move, key: string)
    ensures var now := ms + [m];
            && now[..|now| - 1] == ms && now[|now| - 1] == m
            && Pending(now) == Pending(ms) + (if m.Begin? then 1 else -1)
            && Clock(now) == (if m.Begin? || m.Fail? then m.at else Clock(ms))
            && Failures(Events(now, key), key) ==
               if m.Succeed? then [] else Failures(Events(ms, key), key) + if m.Fail? then [m.at] else []
  {
    assert (ms + [m])[..|ms|] == ms;
    match m
    case Fail(t) => FailuresAppend(Events(ms, key), Failed(key, t), key);
    case Succeed => FailuresAppend(Events(ms, key), Cleared(key), key);
    case _ =>
  }

  /** The attempts in flight count against the streak while it is recent. */
  ghost predicate Bounded(ts: seq<int>, pending: int, clock: int, max: int, lockout: int, c: int) {
    && 0 <= pending <= c && Streak(ts, lockout) <= max + c - 1
    && (ts != [] && clock - ts[|ts| - 1] < lockout ==> Streak(ts, lockout) + pending <= max + c - 1)
  }

  lemma BoundedStep(ms: seq<Move>, m: Move, ts: seq<int>, key: string, max: int, lockout: int, c: int)
    requires 1 <= max && 1 <= c && MayFollow(ms, m, key, max, lockout, c)
    requires ts == Failures(Events(ms, key), key) && Bounded(ts, Pending(ms), Clock(ms), max, lockout, c)
    ensures m.Begin? ==> Bounded(ts, Pending(ms) + 1, m.at, max, lockout, c)
    ensures m.Fail? ==> Bounded(ts + [m.at], Pending(ms) - 1, m.at, max, lockout, c)
    ensures m.Abandon? ==> Bounded(ts, Pending(ms) - 1, Clock(ms), max, lockout, c)
    ensures m.Succeed? ==> Bounded([], Pending(ms) - 1, Clock(ms), max, lockout, c)
  {
    StreakMeaning(ts, lockout, max);
    if m.Fail? {
      assert (ts + [m.at])[..|ts|] == ts;
    }
  }

  lemma {:induction false} StreakPlusPending(ms: seq<Move>, key: string, max: int, lockout: int, c: int)
    requires 1 <= max && 1 <= c && Legal(ms, key, max, lockout, c)
    ensures Bounded(Failures(Events(ms, key), key), Pending(ms), Clock(ms), max, lockout, c)
  {
    if ms != [] {
      var before, last := ms[..|ms| - 1], ms[|ms| - 1];
      var ts := Failures(Events(before, key), key);
      StreakPlusPending(before, key, max, lockout, c);
      BoundedStep(before, last, ts, key, max, lockout, c);
      Appended(before, last, key);
      assert ms == before + [last] && ts + [] == ts;
    }
  }

  /** A maximum below one still grants the first attempt. */
  function Cap(max: int): int { if max < 1 then 1 else max }

  lemma LockedByCap(h: seq<Event>, key: string, now: int, max: int, lockout: int)
    ensures Locked(h, key, now, max, lockout) <==> Locked(h, key, now, Cap(max), lockout)
  {
  }

  lemma {:induction false} LegalByCap(ms: seq<Move>, key: string, max: int, lockout: int, c: int)
    ensures Legal(ms, key, max, lockout, c) <==> Legal(ms, key, Cap(max), lockout, c)
  {
    if ms != [] {
      var before, last := ms[..|ms| - 1], ms[|ms| - 1];
      LegalByCap(before, key, max, lockout, c);
      if last.Begin? {
        LockedByCap(Events(before, key), key, last.at, max, lockout);
      }
    }
  }

  /** The last two failures are in order and not in the future. */
  ghost predicate InOrder(ts: seq<int>, clock: int) {
    var n := |ts| - 1;
    n >= 0 ==> ts[n] <= clock && (n > 0 ==> ts[n - 1] <= ts[n])
  }

  lemma {:induction false} FailuresInOrder(ms: seq<Move>, key: string, max: int, lockout: int, c: int)
    requires Legal(ms, key, max, lockout, c)
    ensures InOrder(Failures(Events(ms, key), key), Clock(ms))
  {
    if ms != [] {
      var before, last := ms[..|ms| - 1], ms[|ms| - 1];
      FailuresInOrder(before, key, max, lockout, c);
      Appended(before, last, key);
      assert ms == before + [last];
    }
  }

  /** The longest streak that at most `c` overlapping attempts can produce. */
  function WorstStreak(max: int, lockout: int, c: int): int {
    if lockout <= 0 then 1 else Cap(max) + c - 1
  }

  /** With at most `c` overlapping attempts no streak exceeds max + c - 1; with one, max. */
  lemma StreakBound(ms: seq<Move>, key: string, max: int, lockout: int, c: int)
    requires 1 <= c && Legal(ms, key, max, lockout, c)
    ensures StreakOf(ms, key, lockout) <= WorstStreak(max, lockout, c)
  {
    if lockout <= 0 {
      FailuresInOrder(ms, key, max, lockout, c);
    } else {
      LegalByCap(ms, key, max, lockout, c);
      StreakPlusPending(ms, key, Cap(max), lockout, c);
    }
  }

  /** n attempts one after the other, all failing at time 0. */
  function Serial(n: nat): seq<Move> {
    if n == 0 then [] else Serial(n - 1) + [Begin(0)] + [Fail(0)]
  }

  /** `open` attempts begun after `ms`, of which `failed` have failed. */
  function Overlap(ms: seq<Move>, open: nat, failed: nat): seq<Move> {
    if failed > 0 then Overlap(ms, open, failed - 1) + [Fail(0)]
    else if open > 0 then Overlap(ms, open - 1, 0) + [Begin(0)]
    else ms
  }

  ghost predicate AllZero(ts: seq<int>) { forall i :: 0 <= i < |ts| ==> ts[i] == 0 }

  lemma {:induction false} ZeroStreak(ts: seq<int>, lockout: int)
    requires AllZero(ts) && lockout > 0
    ensures Streak(ts, lockout) == |ts|
  {
    if ts != [] {
      ZeroStreak(ts[..|ts| - 1], lockout);
    }
  }

  /** A legal run at time 0 with `p` attempts pending after `n` failures. */
  ghost predicate At(ms: seq<Move>, p: int, n: nat, key: string, max: int, lockout: int, c: int) {
    var ts := Failures(Events(ms, key), key);
    Legal(ms, key, max, lockout, c) && Pending(ms) == p && Clock(ms) == 0 && |ts| == n && AllZero(ts)
  }

  lemma BeginAt(ms: seq<Move>, p: int, n: nat, key: string, max: int, lockout: int, c: int)
    requires At(ms, p, n, key, max, lockout, c) && p < c && n < max
    ensures At(ms + [Begin(0)], p + 1, n, key, max, lockout, c)
  {
    Appended(ms, Begin(0), key);
    assert MayFollow(ms, Begin(0), key, max, lockout, c);
  }

  lemma FailAt(ms: seq<Move>, p: int, n: nat, key: string, max: int, lockout: int, c: int)
    requires At(ms, p, n, key, max, lockout, c) && p > 0
    ensures At(ms + [Fail(0)], p - 1, n + 1, key, max, lockout, c)
  {
    Appended(ms, Fail(0), key);
    assert MayFollow(ms, Fail(0), key, max, lockout, c);
  }

  lemma {:induction false} SerialAt(n: nat, key: string, max: int, lockout: int, c: int)
    requires n < max && 1 <= c
    ensures At(Serial(n), 0, n, key, max, lockout, c)
  {
    if n > 0 {
      SerialAt(n - 1, key, max, lockout, c);
      BeginAt(Serial(n - 1), 0, n - 1, key, max, lockout, c);
      FailAt(Serial(n - 1) + [Begin(0)], 1, n - 1, key, max, lockout, c);
    }
  }

  lemma {:induction false} OverlapAt(n: nat, open: nat, failed: nat, key: string, max: int, lockout: int, c: int)
    requires n < max && 1 <= c && failed <= open <= c
    ensures At(Overlap(Serial(n), open, failed), open - failed, n + failed, key, max, lockout, c)
    decreases open, failed
  {
    if failed > 0 {
      OverlapAt(n, open, failed - 1, key, max, lockout, c);
      FailAt(Overlap(Serial(n), open, failed - 1), open - failed + 1, n + failed - 1, key, max, lockout, c);
    } else if open > 0 {
      OverlapAt(n, open - 1, 0, key, max, lockout, c);
      BeginAt(Overlap(Serial(n), open - 1, 0), open - 1, n, key, max, lockout, c);
    } else {
      SerialAt(n, key, max, lockout, c);
    }
  }

  lemma SharpWithLockout(key: string, max: int, lockout: int, c: int)
    requires 1 <= c && 0 < lockout
    ensures exists ms :: Legal(ms, key, max, lockout, c) && StreakOf(ms, key, lockout) == Cap(max) + c - 1
  {
    var n := Cap(max) - 1;
    var ms := Overlap(Serial(n), c, c);
    OverlapAt(n, c, c, key, Cap(max), lockout, c);
    LegalByCap(ms, key, max, lockout, c);
    ZeroStreak(Failures(Events(ms, key), key), lockout);
  }

  lemma SharpWithoutLockout(key: string, max: int, lockout: int, c: int)
    requires 1 <= c && lockout <= 0
    ensures exists ms :: Legal(ms, key, max, lockout, c) && StreakOf(ms, key, lockout) == 1
  {
    var ms := Overlap(Serial(0), 1, 1);
    OverlapAt(0, 1, 1, key, Cap(max), lockout, c);
    LegalByCap(ms, key, max, lockout, c);
    assert StreakOf(ms, key, lockout) == 1;
  }

  /** The bound is reached for every maximum, lockout and overlap. */
  lemma StreakBoundSharp(key: string, max: int, lockout: int, c: int)
    requires 1 <= c
    ensures exists ms :: Legal(ms, key, max, lockout, c) && StreakOf(ms, key, lockout) == WorstStreak(max, lockout, c)
  {
    if lockout <= 0 {
      SharpWithoutLockout(key, max, lockout, c);
    } else {
      SharpWithLockout(key, max, lockout, c);
    }
  }
}
