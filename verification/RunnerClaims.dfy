/**
 Claiming jobs. A claim selects the oldest pending job and then updates it under the
 condition that it is still pending; claims of several runners, completions and
 cancellations interleave between and inside these two steps.
 */
module RunnerClaims {
  import opened Common

  datatype Status = Pending | Running | Success | Failed | Cancelled

  datatype Job = Job(status: Status, runner: Option<string>)

  /** A claim transaction between its select and its update. */
  datatype Claim = Claim(runner: string, job: nat)

  /** Job ids are positions in the table: they grow and rows are never deleted. */
  datatype State = State(jobs: seq<Job>, inFlight: map<nat, Claim>, claimed: seq<Claim>)

  datatype Event =
    | Create
    | Select(tx: nat, runner: string)
    | Update(tx: nat)
    | Complete(id: nat, reported: string)
    | Cancel(id: nat)

  // ---------------------------------------------------------------------
  // Steps
  // ---------------------------------------------------------------------

  /** The oldest pending job from position i on. */
  function OldestPending(jobs: seq<Job>, i: nat): (r: Option<nat>)
    requires i <= |jobs|
    ensures r.Some? ==> i <= r.value < |jobs| && jobs[r.value].status == Pending
    ensures forall j :: i <= j < (if r.Some? then r.value else |jobs|) ==> jobs[j].status != Pending
    decreases |jobs| - i
  {
    if i == |jobs| then None
    else if jobs[i].status == Pending then Some(i)
    else OldestPending(jobs, i + 1)
  }

  function FinalStatus(reported: string): Status {
    if reported == "success" then Success
    else if reported == "cancelled" then Cancelled
    else Failed
  }

  function Step(s: State, e: Event): State {
    match e
    case Create => s.(jobs := s.jobs + [Job(Pending, None)])
    case Select(tx, runner) =>
      var oldest := OldestPending(s.jobs, 0);
      if tx in s.inFlight || oldest.None? then s
      else s.(inFlight := s.inFlight[tx := Claim(runner, oldest.value)])
    case Update(tx) =>
      if tx !in s.inFlight then s
      else
        var c := s.inFlight[tx];
        var done := s.(inFlight := s.inFlight - {tx});
        if c.job < |s.jobs| && s.jobs[c.job].status == Pending then
          done.(jobs := s.jobs[c.job := Job(Running, Some(c.runner))], claimed := s.claimed + [c])
        else done
    case Complete(id, reported) =>
      if id < |s.jobs| then s.(jobs := s.jobs[id := s.jobs[id].(status := FinalStatus(reported))]) else s
    case Cancel(id) =>
      if id < |s.jobs| && (s.jobs[id].status == Pending || s.jobs[id].status == Running) then
        s.(jobs := s.jobs[id := s.jobs[id].(status := Cancelled)])
      else s
  }

  function Run(s: State, es: seq<Event>): State {
    if es == [] then s else Step(Run(s, es[..|es| - 1]), es[|es| - 1])
  }

  const INITIAL := State([], map[], [])

  // ---------------------------------------------------------------------
  // What every step keeps
  // ---------------------------------------------------------------------

  /** From `s` to `t` no job returns to pending or changes the runner it has. */
  ghost predicate Settles(s: State, t: State) {
    && |s.jobs| <= |t.jobs|
    && forall i :: 0 <= i < |s.jobs| ==>
         && (s.jobs[i].status != Pending ==> t.jobs[i].status != Pending)
         && (s.jobs[i].runner.Some? ==> t.jobs[i].runner == s.jobs[i].runner)
  }

  /** No job before this position is pending. */
  ghost predicate NoneBefore(jobs: seq<Job>, id: nat) {
    id < |jobs| && forall j :: 0 <= j < id ==> jobs[j].status != Pending
  }

  ghost predicate Inv(s: State) {
    && (forall i :: 0 <= i < |s.jobs| && s.jobs[i].status == Pending ==> s.jobs[i].runner.None?)
    && (forall tx :: tx in s.inFlight ==> NoneBefore(s.jobs, s.inFlight[tx].job))
    && (forall k :: 0 <= k < |s.claimed| ==>
          var c := s.claimed[k];
          && NoneBefore(s.jobs, c.job)
          && s.jobs[c.job].status != Pending && s.jobs[c.job].runner == Some(c.runner))
    && forall k, l :: 0 <= k < l < |s.claimed| ==> s.claimed[k].job < s.claimed[l].job
  }

  lemma StepSettles(s: State, e: Event)
    requires Inv(s)
    ensures Settles(s, Step(s, e))
  {
  }

  /** A position with nothing pending before it stays so. */
  lemma NoneBeforeKept(s: State, t: State, id: nat)
    requires Settles(s, t) && NoneBefore(s.jobs, id)
    ensures NoneBefore(t.jobs, id)
  {
  }

  lemma StepKeepsInv(s: State, e: Event)
    requires Inv(s)
    ensures Inv(Step(s, e))
  {
    var t := Step(s, e);
    StepSettles(s, e);
    forall id | NoneBefore(s.jobs, id) ensures NoneBefore(t.jobs, id) {
      NoneBeforeKept(s, t, id);
    }
    if e.Update? && e.tx in s.inFlight {
      var c := s.inFlight[e.tx];
      assert NoneBefore(s.jobs, c.job);
      if s.jobs[c.job].status == Pending {
        forall k | 0 <= k < |s.claimed| ensures s.claimed[k].job < c.job {
          assert NoneBefore(s.jobs, s.claimed[k].job);
        }
      }
    }
  }

  lemma {:induction false} RunKeepsInv(es: seq<Event>)
    ensures Inv(Run(INITIAL, es))
  {
    if es != [] {
      RunKeepsInv(es[..|es| - 1]);
      StepKeepsInv(Run(INITIAL, es[..|es| - 1]), es[|es| - 1]);
    }
  }

  // ---------------------------------------------------------------------
  // What the other steps do to a job
  // ---------------------------------------------------------------------

  /** All jobs but one are as before. */
  ghost predicate OnlyJob(s: State, t: State, id: nat) {
    |t.jobs| == |s.jobs| && forall i :: 0 <= i < |s.jobs| && i != id ==> t.jobs[i] == s.jobs[i]
  }

  /** A completed job has the reported status; a report other than success and cancelled means failed. */
  lemma CompleteEffect(s: State, id: nat, reported: string)
    requires id < |s.jobs|
    ensures var t := Step(s, Complete(id, reported));
            && OnlyJob(s, t, id) && t.jobs[id].runner == s.jobs[id].runner
            && (t.jobs[id].status == Success <==> reported == "success")
            && (t.jobs[id].status == Cancelled <==> reported == "cancelled")
            && (t.jobs[id].status == Failed <==> reported != "success" && reported != "cancelled")
            && t.inFlight == s.inFlight && t.claimed == s.claimed
  {
    assert "success"[0] != "cancelled"[0];
  }

  /** Cancelling ends a pending or running job and leaves one that has ended alone. */
  lemma CancelEffect(s: State, id: nat)
    requires id < |s.jobs|
    ensures var t := Step(s, Cancel(id));
            && OnlyJob(s, t, id) && t.jobs[id].runner == s.jobs[id].runner
            && (s.jobs[id].status in {Pending, Running} ==> t.jobs[id].status == Cancelled)
            && (s.jobs[id].status in {Success, Failed, Cancelled} ==> t.jobs[id] == s.jobs[id])
            && t.inFlight == s.inFlight && t.claimed == s.claimed
  {
  }

  /** A new job is the last one, pending and without a runner. */
  lemma CreateEffect(s: State)
    ensures var t := Step(s, Create);
            && |t.jobs| == |s.jobs| + 1 && t.jobs[..|s.jobs|] == s.jobs && t.jobs[|s.jobs|] == Job(Pending, None)
            && t.inFlight == s.inFlight && t.claimed == s.claimed
  {
  }

  // ---------------------------------------------------------------------
  // Results for every interleaving
  // ---------------------------------------------------------------------

  /**
   No job is claimed twice, claims happen in the order the jobs were created, and a
   claimed job keeps the runner that claimed it.
   */
  lemma ClaimedOnceInOrder(es: seq<Event>)
    ensures var s := Run(INITIAL, es);
            && (forall k, l :: 0 <= k < l < |s.claimed| ==> s.claimed[k].job < s.claimed[l].job)
            && (forall k :: 0 <= k < |s.claimed| ==>
                  s.claimed[k].job < |s.jobs| && s.jobs[s.claimed[k].job].runner == Some(s.claimed[k].runner))
  {
    RunKeepsInv(es);
    var s := Run(INITIAL, es);
    forall k | 0 <= k < |s.claimed|
      ensures s.claimed[k].job < |s.jobs| && s.jobs[s.claimed[k].job].runner == Some(s.claimed[k].runner)
    {
      assert NoneBefore(s.jobs, s.claimed[k].job);
    }
  }

  /** Between any two moments of a run no job re-enters pending or changes runner. */
  lemma {:induction false} RunSettles(es: seq<Event>, more: seq<Event>)
    ensures Settles(Run(INITIAL, es), Run(INITIAL, es + more))
  {
    if more == [] {
      assert es + more == es;
    } else {
      var n := |more| - 1;
      RunSettles(es, more[..n]);
      assert (es + more)[..|es + more| - 1] == es + more[..n];
      RunKeepsInv(es + more[..n]);
      StepSettles(Run(INITIAL, es + more[..n]), more[n]);
    }
  }

  /** The claim the source describes: select and update as one indivisible step. */
  function AtomicClaim(jobs: seq<Job>, runner: string): seq<Job> {
    match OldestPending(jobs, 0)
    case None => jobs
    case Some(id) => jobs[id := Job(Running, Some(runner))]
  }

  /**
   Although other steps may have come between, an update that succeeds takes the job
   that is the oldest pending one at that moment: it is an atomic claim. It fails
   exactly when the selected job is no longer pending.
   */
  lemma UpdateIsAtomicClaim(es: seq<Event>, tx: nat)
    requires tx in Run(INITIAL, es).inFlight
    ensures var s := Run(INITIAL, es);
            var t := Run(INITIAL, es + [Update(tx)]);
            var c := s.inFlight[tx];
            && c.job < |s.jobs|
            && (s.jobs[c.job].status == Pending ==>
                  OnlyJob(s, t, c.job) && t.jobs[c.job].status == Running && t.jobs[c.job].runner == Some(c.runner))
            && (if s.jobs[c.job].status == Pending
                then OldestPending(s.jobs, 0) == Some(c.job) && t.jobs == AtomicClaim(s.jobs, c.runner) &&
                     t.claimed == s.claimed + [c]
                else t.jobs == s.jobs && t.claimed == s.claimed)
  {
    assert (es + [Update(tx)])[..|es|] == es;
    RunKeepsInv(es);
    var s := Run(INITIAL, es);
    assert NoneBefore(s.jobs, s.inFlight[tx].job);
  }

  /** The update of a transaction claims nothing although a job is pending. */
  ghost predicate Disappointed(s: State, tx: nat) {
    tx in s.inFlight && OldestPending(s.jobs, 0).Some? && Step(s, Update(tx)).claimed == s.claimed
  }

  /** A claim can report that no job is available although one is pending. */
  lemma NoJobWhilePending()
    ensures exists es, tx :: Disappointed(Run(INITIAL, es), tx)
  {
    var jobs := [Job(Pending, None), Job(Pending, None)];
    var a, b := Claim("a", 0), Claim("b", 0);
    var s2 := RunOf([], [Create, Create], INITIAL);
    assert s2 == State(jobs, map[], []);
    var s4 := RunOf([Create, Create], [Select(1, "a"), Select(2, "b")], s2);
    assert s4 == State(jobs, map[1 := a, 2 := b], []);
    var es := [Create, Create] + [Select(1, "a"), Select(2, "b")];
    var s5 := Step(s4, Update(1));
    assert (es + [Update(1)])[..|es|] == es;
    assert Run(INITIAL, es + [Update(1)]) == s5;
    assert s5.jobs == [Job(Running, Some("a")), Job(Pending, None)] && s5.inFlight == map[2 := b];
    assert OldestPending(s5.jobs, 0) == OldestPending(s5.jobs, 1) == Some(1);
    assert Disappointed(Run(INITIAL, es + [Update(1)]), 2);
  }

  /** Two more steps of a run. */
  lemma RunOf(es: seq<Event>, two: seq<Event>, s: State) returns (t: State)
    requires |two| == 2 && s == Run(INITIAL, es)
    ensures t == Run(INITIAL, es + two) == Step(Step(s, two[0]), two[1])
  {
    t := Step(Step(s, two[0]), two[1]);
    var mid := es + [two[0]];
    assert mid[..|es|] == es && (es + two)[..|es| + 1] == mid;
    assert Run(INITIAL, mid) == Step(s, two[0]);
  }
}
