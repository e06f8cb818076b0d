/** The inactivity guard over whole runs of a copy: when it ends a copy, what a copy comes to that it
    does not end, and how long it lets a copy wait. */
module Timing {
  import opened Strings
  import opened Reader
  import opened Transfer

  // ---------- an observer of the source ----------

  /** What a bystander sees of the reads of a run: how many are finished, since when the one under way has
      been pending, when the source was last polled, and how long the finished ones were pending. */
  datatype Watch = Watch(finished: nat, since: Option<nat>, last: nat, total: nat)

  function SinceOr(k: Watch, now: nat): nat {
    if k.since.Some? then k.since.value else now
  }

  // A poll leaves the read pending, or finishes it one way or another.
  function Observe(job: Job, c: Copy, k: Watch, e: Event): Watch {
    if !e.PollSource? || !CanPoll(job, c) then k
    else
      var since := SinceOr(k, e.now);
      if e.inner.Pending? && Step(job, c, e).phase.Pumping? then Watch(k.finished, Some(since), e.now, k.total)
      else Watch(k.finished + 1, None, e.now, k.total + if e.now > since then e.now - since else 0)
  }

  function Observed(job: Job, w0: World, events: seq<Event>): Watch {
    if events == [] then Watch(0, None, 0, 0)
    else
      var n := |events| - 1;
      Observe(job, Run(job, Begin(w0), events[..n]), Observed(job, w0, events[..n]), events[n])
  }

  // All the time of a run in which a read was pending, the read under way included.
  function WaitingTime(k: Watch): nat {
    k.total + if k.since.Some? && k.last > k.since.value then k.last - k.since.value else 0
  }

  // The deadline the copy keeps is that of the read the bystander sees.
  ghost predicate Agree(c: Copy, k: Watch) {
    && (c.phase.Pumping? ==> k.since == c.waiting)
    && (c.phase.Opening? ==> k.since == None && c.waiting == None)
  }

  lemma AgreeStep(job: Job, w0: World, c: Copy, k: Watch, e: Event)
    requires Inv(job, w0, c) && Agree(c, k)
    ensures Agree(Step(job, c, e), Observe(job, c, k, e))
  {
  }

  lemma {:induction false} ObserverAgrees(job: Job, w0: World, events: seq<Event>)
    requires CounterFits(job)
    ensures Inv(job, w0, Run(job, Begin(w0), events))
    ensures Agree(Run(job, Begin(w0), events), Observed(job, w0, events))
  {
    RunInv(job, w0, events);
    if events != [] {
      var n := |events| - 1;
      ObserverAgrees(job, w0, events[..n]);
      AgreeStep(job, w0, Run(job, Begin(w0), events[..n]), Observed(job, w0, events[..n]), events[n]);
    }
  }

  // ---------- stalls ----------

  /** Event `i` finds a read still pending that was first found so a whole budget before. */
  ghost predicate StallsAt(job: Job, w0: World, events: seq<Event>, i: nat)
    requires i < |events|
  {
    var e := events[i];
    && e.PollSource? && e.inner.Pending? && CanPoll(job, Run(job, Begin(w0), events[..i]))
    && e.now >= SinceOr(Observed(job, w0, events[..i]), e.now) + job.budget
  }

  ghost predicate Stalls(job: Job, w0: World, events: seq<Event>) {
    exists i :: 0 <= i < |events| && StallsAt(job, w0, events, i)
  }

  lemma StallsStep(job: Job, w0: World, events: seq<Event>)
    requires events != []
    ensures
      var n := |events| - 1;
      Stalls(job, w0, events) <==> Stalls(job, w0, events[..n]) || StallsAt(job, w0, events, n)
  {
    var n := |events| - 1;
    forall i | 0 <= i < n
      ensures StallsAt(job, w0, events[..n], i) <==> StallsAt(job, w0, events, i)
    {
      assert events[..n][..i] == events[..i] && events[..n][i] == events[i];
    }
  }

  lemma TimeoutAtStep(job: Job, w0: World, c: Copy, k: Watch, e: Event)
    requires Inv(job, w0, c) && Agree(c, k)
    ensures Step(job, c, e).phase == Failed(TimedOut) <==>
              || c.phase == Failed(TimedOut)
              || (e.PollSource? && e.inner.Pending? && CanPoll(job, c) && e.now >= SinceOr(k, e.now) + job.budget)
  {
  }

  /** A run ends in a timeout if and only if somewhere in it the source stalled. */
  lemma {:induction false} TimeoutIsExact(job: Job, w0: World, events: seq<Event>)
    requires CounterFits(job)
    ensures Run(job, Begin(w0), events).phase == Failed(TimedOut) <==> Stalls(job, w0, events)
  {
    if events != [] {
      var n := |events| - 1;
      TimeoutIsExact(job, w0, events[..n]);
      StallsStep(job, w0, events);
      ObserverAgrees(job, w0, events[..n]);
      TimeoutAtStep(job, w0, Run(job, Begin(w0), events[..n]), Observed(job, w0, events[..n]), events[n]);
    }
  }

  // ---------- what an unhindered copy comes to ----------

  // No failure from outside, no dropped request, no stall.
  ghost predicate Unhindered(job: Job, w0: World, events: seq<Event>) {
    (forall e :: e in events ==> Smooth(e)) && !Stalls(job, w0, events)
  }

  /** An unhindered copy that has ended has succeeded if and only if the source is within the cap, in
      whatever chunks it was read and written; else it has failed at the cap. */
  lemma OutcomeIsExact(job: Job, w0: World, events: seq<Event>)
    requires CounterFits(job) && Unhindered(job, w0, events)
    ensures
      var phase := Run(job, Begin(w0), events).phase;
      Ended(phase) ==>
        phase == if Fits(job.src, job.max) then Done(job.src.length.value) else Failed(CapExceeded)
  {
    SmoothRunsFailAtTheSource(job, w0, events);
    SuccessIsDelivery(job, w0, events);
    TimeoutIsExact(job, w0, events);
  }

  /** An unhindered copy ends, and succeeds if and only if the source fits: by the time it has taken
      `2 * max + 4` steps, and from wherever it stands within as many more events. */
  lemma UnhinderedCopyEnds(job: Job, w0: World, events: seq<Event>) returns (more: seq<Event>)
    requires CounterFits(job) && job.size >= 1 && Unhindered(job, w0, events)
    ensures Advancing(job, Begin(w0), events) >= 2 * job.max + 4 ==>
              var phase := Run(job, Begin(w0), events).phase;
              Ended(phase) && (phase.Done? <==> Fits(job.src, job.max))
    ensures Unhindered(job, w0, events + more) && |more| <= 2 * job.max + 4
    ensures Ended(Run(job, Begin(w0), events + more).phase)
    ensures Run(job, Begin(w0), events + more).phase.Done? <==> Fits(job.src, job.max)
  {
    RunsAreBounded(job, w0, events);
    OutcomeIsExact(job, w0, events);
    var whole := EndingRun(job, w0, events, 2 * job.max + 4);
    OutcomeIsExact(job, w0, whole);
    more := whole[|events|..];
    assert events + more == whole;
  }

  // At most `left` steps are left to take.
  ghost predicate Left(job: Job, w0: World, c: Copy, left: nat) {
    Inv(job, w0, c) && Rank(job, c) <= left
  }

  lemma {:induction false} EndingRun(job: Job, w0: World, events: seq<Event>, left: nat) returns (whole: seq<Event>)
    requires CounterFits(job) && job.size >= 1 && Unhindered(job, w0, events)
    requires Left(job, w0, Run(job, Begin(w0), events), left)
    ensures events <= whole && |whole| <= |events| + left
    ensures Unhindered(job, w0, whole) && Ended(Run(job, Begin(w0), whole).phase)
    decreases left
  {
    if Ended(Run(job, Begin(w0), events).phase) {
      whole := events;
    } else {
      var e := NextSmooth(job, w0, Run(job, Begin(w0), events), left);
      UnhinderedStep(job, w0, events, e);
      whole := EndingRun(job, w0, events + [e], left - 1);
    }
  }

  lemma NextSmooth(job: Job, w0: World, c: Copy, left: nat) returns (e: Event)
    requires CounterFits(job) && job.size >= 1 && Left(job, w0, c, left) && !Ended(c.phase)
    ensures Smooth(e) && (e.PollSource? ==> !e.inner.Pending?)
    ensures left >= 1 && Left(job, w0, Step(job, c, e), left - 1)
  {
    e := NeverStuck(job, w0, c);
    StepInv(job, w0, c, e);
    AdvanceLowersRank(job, w0, c, e);
  }

  lemma UnhinderedStep(job: Job, w0: World, events: seq<Event>, e: Event)
    requires Unhindered(job, w0, events) && Smooth(e) && (e.PollSource? ==> !e.inner.Pending?)
    ensures Unhindered(job, w0, events + [e])
    ensures Run(job, Begin(w0), events + [e]) == Step(job, Run(job, Begin(w0), events), e)
  {
    var longer := events + [e];
    assert longer[..|longer| - 1] == events;
    StallsStep(job, w0, longer);
  }

  // ---------- time spent waiting for the source ----------

  /** The scheduler looks at a pending read again within `lag`. That alone bounds no read: a source may
      stay pending through any number of looks. */
  ghost predicate LooksAgain(job: Job, c: Copy, k: Watch, e: Event, lag: nat) {
    e.PollSource? && CanPoll(job, c) && k.since.Some? ==> k.last <= e.now <= k.last + lag
  }

  ghost predicate KeepsLooking(job: Job, w0: World, events: seq<Event>, lag: nat) {
    forall i :: 0 <= i < |events| ==>
      LooksAgain(job, Run(job, Begin(w0), events[..i]), Observed(job, w0, events[..i]), events[i], lag)
  }

  function Times(count: nat, each: nat): nat {
    if count == 0 then 0 else Times(count - 1, each) + each
  }

  lemma {:induction false} TimesIsProduct(count: nat, each: nat)
    ensures Times(count, each) == count * each
  {
    if count > 0 {
      TimesIsProduct(count - 1, each);
    }
  }

  lemma {:induction false} TimesGrows(count: nat, count': nat, each: nat)
    requires count <= count'
    ensures Times(count, each) <= Times(count', each)
    decreases count'
  {
    if count < count' {
      TimesGrows(count, count' - 1, each);
    }
  }

  // A read found pending was last looked at before its deadline: the guard has not ended it.
  ghost predicate BeforeDeadline(job: Job, k: Watch) {
    k.since.Some? ==> k.since.value <= k.last < k.since.value + job.budget
  }

  // Every finished read but the last let at least one byte through.
  ghost predicate ReadsInv(c: Copy, k: Watch) {
    k.finished <= |c.reader.exposed| + if k.since.Some? || c.phase.Opening? || c.phase.Pumping? then 0 else 1
  }

  ghost predicate TimeInv(job: Job, c: Copy, k: Watch, lag: nat) {
    Agree(c, k) && BeforeDeadline(job, k) && ReadsInv(c, k) && k.total <= Times(k.finished, job.budget + lag)
  }

  lemma PollTime(job: Job, w0: World, c: Copy, k: Watch, now: nat, inner: Inner, lag: nat)
    requires CounterFits(job) && Inv(job, w0, c) && TimeInv(job, c, k, lag) && CanPoll(job, c)
    requires LooksAgain(job, c, k, PollSource(now, inner), lag)
    ensures
      var e := PollSource(now, inner);
      TimeInv(job, Step(job, c, e), Observe(job, c, k, e), lag)
  {
  }

  lemma OtherTime(job: Job, w0: World, c: Copy, k: Watch, e: Event, lag: nat)
    requires Inv(job, w0, c) && TimeInv(job, c, k, lag) && !(e.PollSource? && CanPoll(job, c))
    ensures TimeInv(job, Step(job, c, e), Observe(job, c, k, e), lag)
  {
  }

  lemma {:induction false} RunTime(job: Job, w0: World, events: seq<Event>, lag: nat)
    requires CounterFits(job) && KeepsLooking(job, w0, events, lag)
    ensures Inv(job, w0, Run(job, Begin(w0), events))
    ensures TimeInv(job, Run(job, Begin(w0), events), Observed(job, w0, events), lag)
  {
    RunInv(job, w0, events);
    if events != [] {
      var n := |events| - 1;
      var c, k, e := Run(job, Begin(w0), events[..n]), Observed(job, w0, events[..n]), events[n];
      LookingPrefix(job, w0, events, lag);
      RunTime(job, w0, events[..n], lag);
      if e.PollSource? && CanPoll(job, c) {
        PollTime(job, w0, c, k, e.now, e.inner, lag);
      } else {
        OtherTime(job, w0, c, k, e, lag);
      }
    }
  }

  lemma LookingPrefix(job: Job, w0: World, events: seq<Event>, lag: nat)
    requires KeepsLooking(job, w0, events, lag) && events != []
    ensures
      var n := |events| - 1;
      && KeepsLooking(job, w0, events[..n], lag)
      && LooksAgain(job, Run(job, Begin(w0), events[..n]), Observed(job, w0, events[..n]), events[n], lag)
  {
    var n := |events| - 1;
    assert forall i :: 0 <= i < n ==> events[..n][..i] == events[..i] && events[..n][i] == events[i];
  }

  /** However long the source stays pending, the guard bounds the waiting of a run, even on a source that
      never ends: at most `max + 1` reads, and for each the budget and one look of the scheduler. The read
      under way when the run stops is counted in. */
  lemma WaitingIsBounded(job: Job, w0: World, events: seq<Event>, lag: nat)
    requires CounterFits(job) && KeepsLooking(job, w0, events, lag)
    ensures Observed(job, w0, events).finished <= job.max + 1
    ensures WaitingTime(Observed(job, w0, events)) <= (job.max + 1) * (job.budget + lag)
  {
    RunTime(job, w0, events, lag);
    WaitSums(job, w0, Run(job, Begin(w0), events), Observed(job, w0, events), lag);
  }

  lemma WaitSums(job: Job, w0: World, c: Copy, k: Watch, lag: nat)
    requires Inv(job, w0, c) && TimeInv(job, c, k, lag)
    ensures k.finished <= job.max + 1 && WaitingTime(k) <= (job.max + 1) * (job.budget + lag)
  {
    TimesGrows(k.finished, if k.since.Some? then job.max else job.max + 1, job.budget + lag);
    TimesIsProduct(job.max + 1, job.budget + lag);
  }
}
