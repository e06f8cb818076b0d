/** One copy as a machine that takes one event at a time: the destination opens, the source is polled,
    a buffer is written out, a temporary file is uploaded, the request is dropped. Any sequence of
    events is a run; an event that does not apply where it comes leaves the machine as it is. */
module Transfer {
  import opened Strings
  import opened Reader

  // Both stores: files by their names below the root, objects by key.
  datatype World = World(fs: map<seq<string>, seq<byte>>, s3: map<string, seq<byte>>)

  datatype Target = ToFs(loc: seq<string>) | ToS3(key: string)

  // `size` is the copy buffer, `budget` the time one read may keep the copy waiting.
  datatype Job = Job(src: Source, target: Target, max: nat, size: nat, budget: nat)

  datatype Cause = OpenFailed | CapExceeded | SourceFailed | TimedOut | WriteFailed | UploadFailed

  datatype Phase = Opening | Pumping | Draining | Uploading | Done(total: nat) | Failed(cause: Cause) | Cancelled

  datatype Event =
    | Open(ok: bool)                     // create or truncate the file written to
    | PollSource(now: nat, inner: Inner) // the copy polls its reader at time `now`
    | Write(n: nat)                      // up to `n` buffered bytes reach the file
    | WriteFault
    | Flush(ok: bool)
    | Put(ok: bool, applied: bool)       // the upload; one that fails may still have been applied
    | Cancel(applied: bool)              // the request is dropped, perhaps with an upload in flight

  // `isOpen` says that the file written to is open. `exposed[base..]` is the buffer, of which all before
  // `written` is in the file. `waiting` is when the pending read began to wait, and so when its deadline
  // falls. `temp` is the temporary file of an upload.
  datatype Copy = Copy(phase: Phase, isOpen: bool, reader: Limited, waiting: Option<nat>, base: nat,
                       written: nat, temp: seq<byte>, world: World)

  function Begin(w: World): Copy {
    Copy(Opening, false, START, None, 0, 0, [], w)
  }

  predicate Ended(phase: Phase) {
    phase.Done? || phase.Failed? || phase.Cancelled?
  }

  // ---------- steps ----------

  function SetFile(w: World, loc: seq<string>, contents: seq<byte>): World {
    w.(fs := w.fs[loc := contents])
  }

  function SetObject(w: World, key: string, contents: seq<byte>): World {
    w.(s3 := w.s3[key := contents])
  }

  function OnOpen(job: Job, c: Copy, ok: bool): Copy {
    if !c.phase.Opening? then c
    else if !ok then c.(phase := Failed(OpenFailed))
    else
      match job.target
      case ToFs(loc) => c.(phase := Pumping, isOpen := true, world := SetFile(c.world, loc, []))
      case ToS3(_) => c.(phase := Pumping, isOpen := true, temp := [])
  }

  function Space(job: Job, c: Copy): nat {
    var used := |c.reader.exposed| - c.base;
    if 0 <= used <= job.size then job.size - used else 0
  }

  // The copy polls its reader when it is pumping and its buffer has room.
  predicate CanPoll(job: Job, c: Copy) {
    c.phase.Pumping? && Space(job, c) > 0
  }

  function OnPoll(job: Job, c: Copy, now: nat, inner: Inner): Copy {
    if !CanPoll(job, c) then c
    else
      var since := if c.waiting.Some? then c.waiting.value else now;
      var (r, outcome) := Poll(job.src, job.max, c.reader, Timed(job, c, now, inner), Space(job, c));
      Settle(c.(reader := r), since, inner.Pending?, outcome)
  }

  // The inactivity guard: what the source does, or the failure of a read that is pending at its deadline.
  function Timed(job: Job, c: Copy, now: nat, inner: Inner): Inner {
    var since := if c.waiting.Some? then c.waiting.value else now;
    if inner.Pending? && now >= since + job.budget then Fault else inner
  }

  // The copy takes note of what a poll came to.
  function Settle(c: Copy, since: nat, pending: bool, outcome: Outcome): Copy {
    if outcome.NotReady? then c.(waiting := Some(since))
    else
      var next := if outcome == Filled(0) then Draining
                  else if outcome.Filled? then c.phase
                  else if outcome.CapError? then Failed(CapExceeded)
                  else Failed(if pending then TimedOut else SourceFailed);
      c.(phase := next, waiting := None)
  }

  function OnWrite(job: Job, c: Copy, n: nat): Copy {
    var exposed := c.reader.exposed;
    if !(c.phase.Pumping? || c.phase.Draining?) || c.written >= |exposed| then c
    else
      var left := |exposed| - c.written;
      var k := if n == 0 then 1 else if n < left then n else left;
      WriteChunk(job, c, k)
  }

  // The next `k` bytes of the buffer reach the file.
  function WriteChunk(job: Job, c: Copy, k: nat): Copy
    requires c.written + k <= |c.reader.exposed|
  {
    Advance(Append(job, c, c.reader.exposed[c.written..c.written + k]), k)
  }

  // A chunk goes to the end of the destination file, or of the temporary file of an upload.
  function Append(job: Job, c: Copy, chunk: seq<byte>): Copy {
    match job.target
    case ToFs(loc) =>
      var before := if loc in c.world.fs then c.world.fs[loc] else [];
      c.(world := SetFile(c.world, loc, before + chunk))
    case ToS3(_) => c.(temp := c.temp + chunk)
  }

  // A buffer written out to its end is filled from its start again.
  function Advance(c: Copy, k: nat): Copy {
    c.(written := c.written + k, base := if c.written + k == |c.reader.exposed| then |c.reader.exposed| else c.base)
  }

  function OnWriteFault(c: Copy): Copy {
    if c.phase.Pumping? || c.phase.Draining? then c.(phase := Failed(WriteFailed)) else c
  }

  function OnFlush(job: Job, c: Copy, ok: bool): Copy {
    if !c.phase.Draining? || c.written != |c.reader.exposed| then c
    else if !ok then c.(phase := Failed(WriteFailed))
    else if job.target.ToFs? then c.(phase := Done(c.reader.counter))
    else c.(phase := Uploading)
  }

  function OnPut(job: Job, c: Copy, ok: bool, applied: bool): Copy {
    if !c.phase.Uploading? || job.target.ToFs? then c
    else
      var world := if ok || applied then SetObject(c.world, job.target.key, c.temp) else c.world;
      c.(world := world, phase := if ok then Done(c.reader.counter) else Failed(UploadFailed))
  }

  function OnCancel(job: Job, c: Copy, applied: bool): Copy {
    if Ended(c.phase) then c
    else if c.phase.Uploading? && job.target.ToS3? && applied then
      c.(world := SetObject(c.world, job.target.key, c.temp), phase := Cancelled)
    else c.(phase := Cancelled)
  }

  function Step(job: Job, c: Copy, e: Event): Copy {
    match e
    case Open(ok) => OnOpen(job, c, ok)
    case PollSource(now, inner) => OnPoll(job, c, now, inner)
    case Write(n) => OnWrite(job, c, n)
    case WriteFault => OnWriteFault(c)
    case Flush(ok) => OnFlush(job, c, ok)
    case Put(ok, applied) => OnPut(job, c, ok, applied)
    case Cancel(applied) => OnCancel(job, c, applied)
  }

  function Run(job: Job, c: Copy, events: seq<Event>): Copy {
    if events == [] then c
    else Step(job, Run(job, c, events[..|events| - 1]), events[|events| - 1])
  }

  // ---------- what every run keeps ----------

  // Room for one more buffer below the range of the 64-bit counter.
  predicate CounterFits(job: Job) {
    job.max + job.size < U64_LIMIT
  }

  ghost predicate Inv(job: Job, w0: World, c: Copy) {
    && Capped(job.src, job.max, c.reader)
    && c.base <= c.written <= |c.reader.exposed| <= c.base + job.size
    && (c.written == |c.reader.exposed| ==> c.base == c.written)
    && (c.isOpen || (c.reader == START && c.phase in {Opening, Failed(OpenFailed), Cancelled}))
    && (!Ended(c.phase) ==> c.reader.counter <= job.max && (c.phase.Opening? <==> !c.isOpen))
    && (c.phase.Draining? || c.phase.Uploading? || c.phase.Done? ==> job.src.length == Some(|c.reader.exposed|))
    && (c.phase.Uploading? || c.phase.Done? ==> c.written == |c.reader.exposed|)
    && (c.phase.Uploading? ==> job.target.ToS3?)
    && (c.phase.Done? ==> c.isOpen && c.phase.total == |c.reader.exposed|)
    && (c.phase == Failed(CapExceeded) ==> !Fits(job.src, job.max))
    && match job.target
       case ToFs(loc) => FileInv(w0, c, loc)
       case ToS3(key) => ObjectInv(job, w0, c, key)
  }

  // A file, once open, holds what has been written of what the reader let through.
  ghost predicate FileInv(w0: World, c: Copy, loc: seq<string>)
    requires c.written <= |c.reader.exposed|
  {
    c.world == if c.isOpen then SetFile(w0, loc, c.reader.exposed[..c.written]) else w0
  }

  // An object is put whole or not at all.
  ghost predicate ObjectInv(job: Job, w0: World, c: Copy, key: string)
    requires c.written <= |c.reader.exposed|
  {
    var whole := c.reader.exposed;
    && c.temp == whole[..c.written]
    && (c.world == w0 || (c.world == SetObject(w0, key, whole) && job.src.length == Some(|whole|)))
    && (c.phase.Done? ==> c.world == SetObject(w0, key, whole))
    && (c.world != w0 ==> c.isOpen && (c.phase.Done? || c.phase in {Failed(UploadFailed), Cancelled}))
  }

  lemma BeginInv(job: Job, w: World)
    ensures Inv(job, w, Begin(w))
  {
    assert START.exposed == Prefix(job.src, 0);
  }

  lemma OpenInv(job: Job, w0: World, c: Copy, ok: bool)
    requires Inv(job, w0, c)
    ensures Inv(job, w0, OnOpen(job, c, ok))
  {
  }

  lemma PollInv(job: Job, w0: World, c: Copy, now: nat, inner: Inner)
    requires CounterFits(job) && Inv(job, w0, c)
    ensures Inv(job, w0, OnPoll(job, c, now, inner))
  {
    if CanPoll(job, c) {
      var since := if c.waiting.Some? then c.waiting.value else now;
      var timed := Timed(job, c, now, inner);
      PollGave(job.src, job.max, c.reader, timed, Space(job, c));
      var (r, outcome) := Poll(job.src, job.max, c.reader, timed, Space(job, c));
      SettleInv(job, w0, c, r, since, inner.Pending?, outcome);
    }
  }

  lemma SettleInv(job: Job, w0: World, c: Copy, r: Limited, since: nat, pending: bool, outcome: Outcome)
    requires Inv(job, w0, c) && CanPoll(job, c)
    requires Gave(job.src, job.max, c.reader, r, outcome, Space(job, c))
    ensures Inv(job, w0, Settle(c.(reader := r), since, pending, outcome))
  {
    assert r.exposed[..c.written] == c.reader.exposed[..c.written];
  }

  lemma WriteInv(job: Job, w0: World, c: Copy, n: nat)
    requires Inv(job, w0, c)
    ensures Inv(job, w0, OnWrite(job, c, n))
  {
    var c' := OnWrite(job, c, n);
    if c' != c {
      var exposed := c.reader.exposed;
      assert exposed[..c.written] + exposed[c.written..c'.written] == exposed[..c'.written];
    }
  }

  lemma FlushInv(job: Job, w0: World, c: Copy, ok: bool)
    requires Inv(job, w0, c)
    ensures Inv(job, w0, OnFlush(job, c, ok))
  {
    assert c.written == |c.reader.exposed| ==> c.reader.exposed[..c.written] == c.reader.exposed;
  }

  lemma PutInv(job: Job, w0: World, c: Copy, ok: bool, applied: bool)
    requires Inv(job, w0, c)
    ensures Inv(job, w0, OnPut(job, c, ok, applied))
  {
    assert c.written == |c.reader.exposed| ==> c.reader.exposed[..c.written] == c.reader.exposed;
  }

  lemma StopInv(job: Job, w0: World, c: Copy, applied: bool)
    requires Inv(job, w0, c)
    ensures Inv(job, w0, OnWriteFault(c)) && Inv(job, w0, OnCancel(job, c, applied))
  {
    assert c.written == |c.reader.exposed| ==> c.reader.exposed[..c.written] == c.reader.exposed;
  }

  lemma StepInv(job: Job, w0: World, c: Copy, e: Event)
    requires CounterFits(job) && Inv(job, w0, c)
    ensures Inv(job, w0, Step(job, c, e))
  {
    match e
    case Open(ok) => OpenInv(job, w0, c, ok);
    case PollSource(now, inner) => PollInv(job, w0, c, now, inner);
    case Write(n) => WriteInv(job, w0, c, n);
    case WriteFault => StopInv(job, w0, c, true);
    case Flush(ok) => FlushInv(job, w0, c, ok);
    case Put(ok, applied) => PutInv(job, w0, c, ok, applied);
    case Cancel(applied) => StopInv(job, w0, c, applied);
  }

  lemma {:induction false} RunInv(job: Job, w0: World, events: seq<Event>)
    requires CounterFits(job)
    ensures Inv(job, w0, Run(job, Begin(w0), events))
  {
    if events == [] {
      BeginInv(job, w0);
    } else {
      var n := |events| - 1;
      RunInv(job, w0, events[..n]);
      StepInv(job, w0, Run(job, Begin(w0), events[..n]), events[n]);
    }
  }

  // ---------- safety at every step ----------

  ghost predicate SameAt<K>(before: map<K, seq<byte>>, after: map<K, seq<byte>>, k: K) {
    (k in after <==> k in before) && (k in before ==> after[k] == before[k])
  }

  // All of both stores but the target.
  ghost predicate OnlyTargetChanges(target: Target, w0: World, w: World) {
    && (forall loc :: target != ToFs(loc) ==> SameAt(w0.fs, w.fs, loc))
    && (forall key :: target != ToS3(key) ==> SameAt(w0.s3, w.s3, key))
  }

  /** Whenever a copy stops, by whatever failure or by being dropped: nothing but its target has changed;
      a file, once open, holds a prefix of the source no longer than the cap; an object is the old one, or
      none, or the whole source, within the cap. */
  lemma SafeAtEveryStep(job: Job, w0: World, events: seq<Event>)
    requires CounterFits(job)
    ensures
      var c := Run(job, Begin(w0), events);
      && OnlyTargetChanges(job.target, w0, c.world)
      && (!c.isOpen ==> c.world == w0)
      && match job.target
         case ToFs(loc) =>
           c.isOpen ==>
             && loc in c.world.fs && c.world.fs[loc] == Prefix(job.src, c.written)
             && c.written <= job.max && (job.src.length.Some? ==> c.written <= job.src.length.value)
         case ToS3(key) =>
           || c.world == w0
           || (Fits(job.src, job.max) && key in c.world.s3 && c.world.s3[key] == Prefix(job.src, job.src.length.value))
  {
    RunInv(job, w0, events);
    var c := Run(job, Begin(w0), events);
    assert c.reader.exposed[..c.written] == Prefix(job.src, c.written);
  }

  // ---------- what a copy comes to ----------

  // The whole source is at the target.
  ghost predicate Delivered(job: Job, w: World) {
    job.src.length.Some? &&
    match job.target
    case ToFs(loc) => loc in w.fs && w.fs[loc] == Prefix(job.src, job.src.length.value)
    case ToS3(key) => key in w.s3 && w.s3[key] == Prefix(job.src, job.src.length.value)
  }

  /** A copy that reports success has delivered the whole source and reports its length; the source kept
      within the cap. A copy that fails at the cap had a source that did not. */
  lemma SuccessIsDelivery(job: Job, w0: World, events: seq<Event>)
    requires CounterFits(job)
    ensures
      var c := Run(job, Begin(w0), events);
      && (c.phase.Done? ==> Fits(job.src, job.max) && c.phase.total == job.src.length.value && Delivered(job, c.world))
      && (c.phase == Failed(CapExceeded) ==> !Fits(job.src, job.max))
  {
    RunInv(job, w0, events);
    var c := Run(job, Begin(w0), events);
    assert c.written == |c.reader.exposed| ==> c.reader.exposed[..c.written] == c.reader.exposed;
  }

  // Nothing fails but, perhaps, a read that waits too long or too much.
  predicate Smooth(e: Event) {
    match e
    case Open(ok) => ok
    case PollSource(_, inner) => !inner.Fault?
    case Write(_) => true
    case WriteFault => false
    case Flush(ok) => ok
    case Put(ok, _) => ok
    case Cancel(_) => false
  }

  lemma {:induction false} SmoothRunsFailAtTheSource(job: Job, w0: World, events: seq<Event>)
    requires forall e :: e in events ==> Smooth(e)
    ensures
      var phase := Run(job, Begin(w0), events).phase;
      !phase.Cancelled? && (phase.Failed? ==> phase.cause in {CapExceeded, TimedOut})
  {
    if events != [] {
      var n := |events| - 1;
      SmoothRunsFailAtTheSource(job, w0, events[..n]);
      assert events[n] in events && Smooth(events[n]);
    }
  }

  /** Two schedules of one copy that both succeed leave the same stores and report the same count. */
  lemma ScheduleDoesNotMatter(job: Job, w0: World, a: seq<Event>, b: seq<Event>)
    requires CounterFits(job)
    requires Run(job, Begin(w0), a).phase.Done? && Run(job, Begin(w0), b).phase.Done?
    ensures Run(job, Begin(w0), a).phase == Run(job, Begin(w0), b).phase
    ensures Run(job, Begin(w0), a).world == Run(job, Begin(w0), b).world
  {
    RunInv(job, w0, a);
    RunInv(job, w0, b);
    var c, d := Run(job, Begin(w0), a), Run(job, Begin(w0), b);
    assert c.reader.exposed == d.reader.exposed;
    assert c.reader.exposed[..c.written] == c.reader.exposed == d.reader.exposed[..d.written];
  }

  // ---------- how a copy ends ----------

  /** The event ends the copy, and in this way. */
  ghost predicate Ends(job: Job, c: Copy, e: Event, end: Phase) {
    match end
    case Done(total) =>
      && total == |c.reader.exposed| == c.written
      && if job.target.ToFs? then c.phase.Draining? && e == Flush(true) else c.phase.Uploading? && e.Put? && e.ok
    case Failed(OpenFailed) => c.phase.Opening? && e == Open(false)
    case Failed(SourceFailed) => CanPoll(job, c) && e.PollSource? && e.inner.Fault?
    case Failed(WriteFailed) =>
      || ((c.phase.Pumping? || c.phase.Draining?) && e == WriteFault)
      || (c.phase.Draining? && c.written == |c.reader.exposed| && e == Flush(false))
    case Failed(UploadFailed) => c.phase.Uploading? && e.Put? && !e.ok
    case Cancelled => !Ended(c.phase) && e.Cancel?
    case _ => false
  }

  // The ends that one event settles. The cap and the deadline depend on more.
  predicate Settled(end: Phase) {
    end.Done? || end.Cancelled? || (end.Failed? && end.cause in {OpenFailed, SourceFailed, WriteFailed, UploadFailed})
  }

  lemma EndAtStep(job: Job, w0: World, c: Copy, e: Event, end: Phase)
    requires CounterFits(job) && Inv(job, w0, c) && Settled(end)
    ensures Step(job, c, e).phase == end <==> c.phase == end || Ends(job, c, e, end)
  {
    if e.PollSource? {
      EndAtPoll(job, w0, c, e.now, e.inner, end);
    }
  }

  lemma EndAtPoll(job: Job, w0: World, c: Copy, now: nat, inner: Inner, end: Phase)
    requires CounterFits(job) && Inv(job, w0, c) && Settled(end)
    ensures OnPoll(job, c, now, inner).phase == end <==> c.phase == end || Ends(job, c, PollSource(now, inner), end)
  {
    if CanPoll(job, c) {
      PollGave(job.src, job.max, c.reader, Timed(job, c, now, inner), Space(job, c));
    }
  }

  ghost predicate EndsAt(job: Job, w0: World, events: seq<Event>, end: Phase, i: nat)
    requires i < |events|
  {
    Ends(job, Run(job, Begin(w0), events[..i]), events[i], end)
  }

  ghost predicate EverEnds(job: Job, w0: World, events: seq<Event>, end: Phase) {
    exists i :: 0 <= i < |events| && EndsAt(job, w0, events, end, i)
  }

  lemma EverEndsStep(job: Job, w0: World, events: seq<Event>, end: Phase)
    requires events != []
    ensures
      var n := |events| - 1;
      EverEnds(job, w0, events, end) <==>
        EverEnds(job, w0, events[..n], end) || Ends(job, Run(job, Begin(w0), events[..n]), events[n], end)
  {
    var n := |events| - 1;
    forall i | 0 <= i < n
      ensures EndsAt(job, w0, events[..n], end, i) <==> EndsAt(job, w0, events, end, i)
    {
      assert events[..n][..i] == events[..i] && events[..n][i] == events[i];
    }
    assert EndsAt(job, w0, events, end, n) <==> Ends(job, Run(job, Begin(w0), events[..n]), events[n], end);
  }

  /** Every end has its event and every such event its end: a run has succeeded, been dropped, or failed to
      open, read, write or upload, if and only if somewhere in it the event came that does so. What comes
      after changes nothing. */
  lemma {:induction false} EndIsExact(job: Job, w0: World, events: seq<Event>, end: Phase)
    requires CounterFits(job) && Settled(end)
    ensures Run(job, Begin(w0), events).phase == end <==> EverEnds(job, w0, events, end)
  {
    if events != [] {
      var n := |events| - 1;
      EndIsExact(job, w0, events[..n], end);
      RunInv(job, w0, events[..n]);
      EndAtStep(job, w0, Run(job, Begin(w0), events[..n]), events[n], end);
      EverEndsStep(job, w0, events, end);
    }
  }

  // The upload takes effect, acknowledged or not.
  ghost predicate Lands(c: Copy, e: Event) {
    c.phase.Uploading? && ((e.Put? && (e.ok || e.applied)) || (e.Cancel? && e.applied))
  }

  ghost predicate LandsAt(job: Job, w0: World, events: seq<Event>, i: nat)
    requires i < |events|
  {
    Lands(Run(job, Begin(w0), events[..i]), events[i])
  }

  ghost predicate EverLands(job: Job, w0: World, events: seq<Event>) {
    exists i :: 0 <= i < |events| && LandsAt(job, w0, events, i)
  }

  lemma EverLandsStep(job: Job, w0: World, events: seq<Event>)
    requires events != []
    ensures
      var n := |events| - 1;
      EverLands(job, w0, events) <==>
        EverLands(job, w0, events[..n]) || Lands(Run(job, Begin(w0), events[..n]), events[n])
  {
    var n := |events| - 1;
    forall i | 0 <= i < n
      ensures LandsAt(job, w0, events[..n], i) <==> LandsAt(job, w0, events, i)
    {
      assert events[..n][..i] == events[..i] && events[..n][i] == events[i];
    }
    assert LandsAt(job, w0, events, n) <==> Lands(Run(job, Begin(w0), events[..n]), events[n]);
  }

  lemma LandsAtStep(job: Job, w0: World, c: Copy, e: Event)
    requires Inv(job, w0, c) && job.target.ToS3?
    ensures Step(job, c, e).world ==
              if Lands(c, e) then SetObject(w0, job.target.key, Prefix(job.src, |c.reader.exposed|)) else c.world
    ensures Lands(c, e) ==> c.world == w0 && job.src.length == Some(|c.reader.exposed|)
  {
    assert c.written == |c.reader.exposed| ==> c.reader.exposed[..c.written] == c.reader.exposed;
  }

  /** The bucket changes if and only if an upload has taken effect, and then it holds the whole source. */
  lemma {:induction false} ObjectIsExact(job: Job, w0: World, events: seq<Event>)
    requires CounterFits(job) && job.target.ToS3?
    ensures !EverLands(job, w0, events) ==> Run(job, Begin(w0), events).world == w0
    ensures EverLands(job, w0, events) ==>
              && job.src.length.Some?
              && Run(job, Begin(w0), events).world
                 == SetObject(w0, job.target.key, Prefix(job.src, job.src.length.value))
  {
    if events != [] {
      var n := |events| - 1;
      ObjectIsExact(job, w0, events[..n]);
      RunInv(job, w0, events[..n]);
      LandsAtStep(job, w0, Run(job, Begin(w0), events[..n]), events[n]);
      EverLandsStep(job, w0, events);
    }
  }

  /** As long as there is room in the buffer, any number of bytes may come in that the source has and that
      fit the room and the cap. */
  lemma AnyChunkIsRead(job: Job, w0: World, c: Copy, now: nat, k: nat)
    requires CounterFits(job) && Inv(job, w0, c) && c.phase.Pumping?
    requires 1 <= k <= c.base + job.size - |c.reader.exposed| && |c.reader.exposed| + k <= job.max
    requires job.src.length.Some? ==> |c.reader.exposed| + k <= job.src.length.value
    ensures
      var c' := Step(job, c, PollSource(now, Ready(k)));
      c'.phase.Pumping? && c'.reader.exposed == Prefix(job.src, |c.reader.exposed| + k)
  {
    AnyChunkComes(job.src, c.reader.pulled, Space(job, c), k);
    PollGave(job.src, job.max, c.reader, Ready(k), Space(job, c));
  }

  // Any number of buffered bytes may be written at once.
  lemma AnyChunkIsWritten(job: Job, c: Copy, k: nat)
    requires (c.phase.Pumping? || c.phase.Draining?) && 1 <= k <= |c.reader.exposed| - c.written
    ensures OnWrite(job, c, k) == WriteChunk(job, c, k)
  {
  }

  // ---------- every copy comes to an end ----------

  /** A bound on the steps still to come, waiting apart. */
  ghost function Rank(job: Job, c: Copy): nat
    requires |c.reader.exposed| <= job.max && c.written <= |c.reader.exposed|
  {
    if Ended(c.phase) then 0
    else
      2 * (job.max - |c.reader.exposed|) + (|c.reader.exposed| - c.written)
      + if c.phase.Opening? then 4 else if c.phase.Pumping? then 3 else if c.phase.Draining? then 2 else 1
  }

  // The event did something other than make the pending read wait.
  ghost predicate Advances(job: Job, c: Copy, e: Event) {
    Step(job, c, e) != c.(waiting := Step(job, c, e).waiting)
  }

  lemma AdvanceLowersRank(job: Job, w0: World, c: Copy, e: Event)
    requires Inv(job, w0, c) && Inv(job, w0, Step(job, c, e))
    ensures Advances(job, c, e) ==> Rank(job, Step(job, c, e)) < Rank(job, c)
    ensures !Advances(job, c, e) ==> Rank(job, Step(job, c, e)) == Rank(job, c)
  {
    if e.PollSource? {
      PollLowersRank(job, w0, c, e.now, e.inner);
    } else if e.Write? {
      WriteLowersRank(job, w0, c, e.n);
    }
  }

  lemma WriteLowersRank(job: Job, w0: World, c: Copy, n: nat)
    requires Inv(job, w0, c) && Inv(job, w0, OnWrite(job, c, n))
    ensures OnWrite(job, c, n) == c || Rank(job, OnWrite(job, c, n)) < Rank(job, c)
  {
  }

  lemma PollLowersRank(job: Job, w0: World, c: Copy, now: nat, inner: Inner)
    requires Inv(job, w0, c) && Inv(job, w0, OnPoll(job, c, now, inner))
    ensures
      var c' := OnPoll(job, c, now, inner);
      || c' == c.(waiting := c'.waiting)
      || Rank(job, c') < Rank(job, c)
  {
  }

  ghost function Advancing(job: Job, c: Copy, events: seq<Event>): nat {
    if events == [] then 0
    else
      var n := |events| - 1;
      Advancing(job, c, events[..n]) + if Advances(job, Run(job, c, events[..n]), events[n]) then 1 else 0
  }

  /** No run makes more than `2 * max + 4` steps, even from a source that never ends. */
  lemma {:induction false} RunsAreBounded(job: Job, w0: World, events: seq<Event>)
    requires CounterFits(job)
    ensures Inv(job, w0, Run(job, Begin(w0), events))
    ensures Advancing(job, Begin(w0), events) + Rank(job, Run(job, Begin(w0), events)) <= 2 * job.max + 4
  {
    if events == [] {
      BeginInv(job, w0);
    } else {
      var n := |events| - 1;
      RunsAreBounded(job, w0, events[..n]);
      StepInv(job, w0, Run(job, Begin(w0), events[..n]), events[n]);
      AdvanceLowersRank(job, w0, Run(job, Begin(w0), events[..n]), events[n]);
    }
  }

  /** A copy that has not ended is never stuck: some event takes it further. */
  lemma NeverStuck(job: Job, w0: World, c: Copy) returns (e: Event)
    requires CounterFits(job) && job.size >= 1 && Inv(job, w0, c) && !Ended(c.phase)
    ensures Smooth(e) && Advances(job, c, e) && (e.PollSource? ==> !e.inner.Pending?)
  {
    match c.phase
    case Opening => e := Open(true);
    case Pumping => e := if Space(job, c) > 0 then PollSource(0, Ready(1)) else Write(1);
    case Draining => e := if c.written < |c.reader.exposed| then Write(1) else Flush(true);
    case Uploading => e := Put(true, true);
    assert e.Write? ==> Step(job, c, e).written == c.written + 1;
  }
}
