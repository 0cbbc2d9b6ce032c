/**
 Appends to one job's log that overlap: an append reads the stored size and, in a later step, stores
 what it found room for. How far can the log grow beyond its cap?
 */
module RunnerLogRaces {
  /** An append that has read the size: the length of its chunk and the room it found. */
  datatype Append = Append(length: nat, room: nat)

  datatype State = State(stored: nat, waiting: seq<Append>)

  /** `Read` starts an append of a chunk, `Insert` finishes the i-th one that waits. */
  datatype Event = Read(length: nat) | Insert(i: nat)

  function Min(a: nat, b: nat): nat { if a < b then a else b }

  function Without(ws: seq<Append>, i: nat): seq<Append>
    requires i < |ws|
  {
    ws[..i] + ws[i + 1..]
  }

  function Step(s: State, e: Event, cap: nat): State {
    match e
    case Read(length) =>
      if length == 0 || s.stored >= cap then s
      else s.(waiting := s.waiting + [Append(length, cap - s.stored)])
    case Insert(i) =>
      if i >= |s.waiting| then s
      else State(s.stored + Min(s.waiting[i].length, s.waiting[i].room), Without(s.waiting, i))
  }

  function Run(es: seq<Event>, n: nat, cap: nat): State
    requires n <= |es|
  {
    if n == 0 then State(0, []) else Step(Run(es, n - 1, cap), es[n - 1], cap)
  }

  /** At most c appends wait at any time. */
  ghost predicate Overlapping(es: seq<Event>, cap: nat, c: nat) {
    forall n :: 0 <= n <= |es| ==> |Run(es, n, cap).waiting| <= c
  }

  // ---------------------------------------------------------------------
  // The bound
  // ---------------------------------------------------------------------

  /** n times a length. */
  function Times(n: nat, length: nat): nat {
    if n == 0 then 0 else Times(n - 1, length) + length
  }

  lemma {:induction false} TimesMonotone(m: nat, n: nat, length: nat)
    requires m <= n
    ensures Times(m, length) <= Times(n, length)
  {
    if m < n {
      TimesMonotone(m, n - 1, length);
    }
  }

  lemma {:induction false} TimesIsProduct(n: nat, length: nat)
    ensures Times(n, length) == n * length
  {
    if n > 0 {
      TimesIsProduct(n - 1, length);
      assert n * length == (n - 1) * length + length;
    }
  }

  /** The room that the waiting appends have found in all. */
  function Rooms(ws: seq<Append>): nat {
    if ws == [] then 0 else Rooms(ws[..|ws| - 1]) + ws[|ws| - 1].room
  }

  lemma RoomsAppend(ws: seq<Append>, w: Append)
    ensures Rooms(ws + [w]) == Rooms(ws) + w.room
  {
    assert (ws + [w])[..|ws|] == ws;
  }

  lemma {:induction false} RoomsWithout(ws: seq<Append>, i: nat)
    requires i < |ws|
    ensures Rooms(Without(ws, i)) == Rooms(ws) - ws[i].room
  {
    var n := |ws| - 1;
    if i == n {
      assert Without(ws, i) == ws[..n];
    } else {
      RoomsWithout(ws[..n], i);
      assert Without(ws, i) == Without(ws[..n], i) + [ws[n]];
      RoomsAppend(Without(ws[..n], i), ws[n]);
    }
  }

  lemma {:induction false} RoomsBound(ws: seq<Append>, cap: nat)
    requires forall i :: 0 <= i < |ws| ==> ws[i].room <= cap
    ensures Rooms(ws) <= Times(|ws|, cap)
  {
    if ws != [] {
      RoomsBound(ws[..|ws| - 1], cap);
    }
  }

  ghost predicate Inv(s: State, cap: nat, c: nat) {
    && (forall i :: 0 <= i < |s.waiting| ==> s.waiting[i].room <= cap)
    && s.stored + Rooms(s.waiting) <= Times(c, cap)
  }

  lemma StepKeepsInv(s: State, e: Event, cap: nat, c: nat)
    requires Inv(s, cap, c) && |s.waiting| <= c && |Step(s, e, cap).waiting| <= c
    ensures Inv(Step(s, e, cap), cap, c)
  {
    match e
    case Read(length) =>
      if length != 0 && s.stored < cap {
        RoomsAppend(s.waiting, Append(length, cap - s.stored));
        RoomsBound(s.waiting, cap);
        TimesMonotone(|s.waiting| + 1, c, cap);
      }
    case Insert(i) =>
      if i < |s.waiting| {
        RoomsWithout(s.waiting, i);
      }
  }

  lemma {:induction false} RunKeepsInv(es: seq<Event>, n: nat, cap: nat, c: nat)
    requires n <= |es| && Overlapping(es, cap, c)
    ensures Inv(Run(es, n, cap), cap, c)
  {
    if n > 0 {
      RunKeepsInv(es, n - 1, cap, c);
      StepKeepsInv(Run(es, n - 1, cap), es[n - 1], cap, c);
    }
  }

  /** With at most c appends at a time no more than c times the cap is stored. */
  lemma OverlapBound(es: seq<Event>, cap: nat, c: nat)
    requires Overlapping(es, cap, c)
    ensures Run(es, |es|, cap).stored <= c * cap
  {
    RunKeepsInv(es, |es|, cap, c);
    TimesIsProduct(c, cap);
  }

  // ---------------------------------------------------------------------
  // One append after the other
  // ---------------------------------------------------------------------

  /** Appends of chunks of these lengths, each finished before the next one reads. */
  function Serial(lengths: seq<nat>): seq<Event> {
    if lengths == [] then []
    else Serial(lengths[..|lengths| - 1]) + [Read(lengths[|lengths| - 1])] + [Insert(0)]
  }

  function Sum(lengths: seq<nat>): nat {
    if lengths == [] then 0 else Sum(lengths[..|lengths| - 1]) + lengths[|lengths| - 1]
  }

  lemma {:induction false} RunOn(es: seq<Event>, more: seq<Event>, n: nat, cap: nat)
    requires n <= |es|
    ensures Run(es + more, n, cap) == Run(es, n, cap)
  {
    if n > 0 {
      RunOn(es, more, n - 1, cap);
    }
  }

  lemma RunSnoc(es: seq<Event>, e: Event, cap: nat)
    ensures Run(es + [e], |es| + 1, cap) == Step(Run(es, |es|, cap), e, cap)
  {
    RunOn(es, [e], |es|, cap);
  }

  /** Serial appends store exactly what fits of all they were given. */
  lemma {:induction false} SerialStoresAllThatFits(lengths: seq<nat>, cap: nat)
    ensures Run(Serial(lengths), |Serial(lengths)|, cap) == State(Min(Sum(lengths), cap), [])
  {
    if lengths != [] {
      var before, last := lengths[..|lengths| - 1], lengths[|lengths| - 1];
      SerialStoresAllThatFits(before, cap);
      RunSnoc(Serial(before), Read(last), cap);
      RunSnoc(Serial(before) + [Read(last)], Insert(0), cap);
      assert forall w: Append :: Without([w], 0) == [];
    }
  }

  // ---------------------------------------------------------------------
  // The bound is reached
  // ---------------------------------------------------------------------

  /** c appends of a full cap each: all read, then all insert. */
  function AllAtOnce(cap: nat, c: nat): seq<Event> {
    seq(2 * c, i => if i < c then Read(cap) else Insert(0))
  }

  /** n appends that each have found the whole cap free. */
  function Full(cap: nat, n: nat): seq<Append> {
    seq(n, _ => Append(cap, cap))
  }

  lemma {:induction false} AllAtOnceRuns(cap: nat, c: nat, n: nat)
    requires 0 < cap && n <= 2 * c
    ensures Run(AllAtOnce(cap, c), n, cap) ==
            if n <= c then State(0, Full(cap, n)) else State(Times(n - c, cap), Full(cap, 2 * c - n))
  {
    if n > 0 {
      AllAtOnceRuns(cap, c, n - 1);
      if n <= c {
        assert Full(cap, n) == Full(cap, n - 1) + [Append(cap, cap)];
      } else {
        var left := 2 * c - n + 1;
        assert Without(Full(cap, left), 0) == Full(cap, left - 1);
      }
    }
  }

  lemma OverlapBoundReached(cap: nat, c: nat)
    requires 0 < cap
    ensures Overlapping(AllAtOnce(cap, c), cap, c) && Run(AllAtOnce(cap, c), 2 * c, cap).stored == c * cap
  {
    forall n | 0 <= n <= 2 * c ensures |Run(AllAtOnce(cap, c), n, cap).waiting| <= c {
      AllAtOnceRuns(cap, c, n);
    }
    AllAtOnceRuns(cap, c, 2 * c);
    TimesIsProduct(c, cap);
  }

  ghost predicate Capped(es: seq<Event>, cap: nat) { Run(es, |es|, cap).stored <= cap }

  /** The cap is kept by all runs of at most c appends at a time exactly when they do not overlap. */
  lemma CapKeptExactly(cap: nat, c: nat)
    requires 0 < cap
    ensures (forall es :: Overlapping(es, cap, c) ==> Capped(es, cap)) <==> c <= 1
  {
    if c <= 1 {
      forall es | Overlapping(es, cap, c) ensures Capped(es, cap) {
        OverlapBound(es, cap, c);
      }
    } else {
      OverlapBoundReached(cap, c);
      assert c * cap == cap + (c - 1) * cap > cap;
      assert !Capped(AllAtOnce(cap, c), cap);
    }
  }
}
