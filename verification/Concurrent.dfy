/** Copies served at the same time: their steps interleave as the scheduler likes, over the same two
    stores. */
module Concurrent {
  import opened Strings
  import opened Reader
  import opened Transfer
  import opened Pagination
  import opened Service
  import Paths

  // A copy from place to place. `from` names a file or an object like a target does.
  datatype Task = Task(from: Target, to: Target, max: nat, size: nat, budget: nat)

  // One step of the task with this number.
  datatype Turn = Turn(task: nat, event: Event)

  // Each task has a copy of its own; the stores are shared. The stores inside the copies are not used.
  datatype Crew = Crew(copies: seq<Copy>, world: World)

  function Contents(w: World, at: Target): seq<byte> {
    if Stored(w, at).Some? then Stored(w, at).value else []
  }

  // The task as a job that reads its source as it is stored now.
  function JobIn(t: Task, w: World): Job {
    Job(SourceOf(Contents(w, t.from)), t.to, t.max, t.size, t.budget)
  }

  function TakeTurn(tasks: seq<Task>, c: Crew, turn: Turn): Crew {
    var i := turn.task;
    if i >= |tasks| || |c.copies| != |tasks| then c
    else
      var next := Step(JobIn(tasks[i], c.world), c.copies[i].(world := c.world), turn.event);
      Crew(c.copies[i := next], next.world)
  }

  function Interleave(tasks: seq<Task>, w0: World, turns: seq<Turn>): (c: Crew)
    ensures |c.copies| == |tasks|
  {
    if turns == [] then Crew(seq(|tasks|, _ => Begin(w0)), w0)
    else TakeTurn(tasks, Interleave(tasks, w0, turns[..|turns| - 1]), turns[|turns| - 1])
  }

  // The events of one task, in their order.
  function EventsOf(turns: seq<Turn>, i: nat): seq<Event> {
    if turns == [] then []
    else
      var n := |turns| - 1;
      EventsOf(turns[..n], i) + if turns[n].task == i then [turns[n].event] else []
  }

  // The task alone, from the stores as they were at first.
  function Solo(t: Task, w0: World, turns: seq<Turn>, i: nat): Copy {
    Run(JobIn(t, w0), Begin(w0), EventsOf(turns, i))
  }

  /** No two tasks write the same place, and none reads a place that is written. */
  predicate Independent(tasks: seq<Task>) {
    && (forall i, j :: 0 <= i < j < |tasks| ==> tasks[i].to != tasks[j].to)
    && forall i, j :: 0 <= i < |tasks| && 0 <= j < |tasks| ==> tasks[i].from != tasks[j].to
  }

  // ---------- what one step depends on ----------

  // But for the other places of the stores, the same state.
  ghost predicate SameBut(target: Target, x: Copy, y: Copy) {
    x.(world := y.world) == y && Stored(x.world, target) == Stored(y.world, target)
  }

  lemma PollIsLocal(job: Job, x: Copy, y: Copy, now: nat, inner: Inner)
    requires SameBut(job.target, x, y)
    ensures SameBut(job.target, OnPoll(job, x, now, inner), OnPoll(job, y, now, inner))
  {
    assert CanPoll(job, x) <==> CanPoll(job, y);
    assert Space(job, x) == Space(job, y);
  }

  lemma WriteIsLocal(job: Job, x: Copy, y: Copy, n: nat)
    requires SameBut(job.target, x, y)
    ensures SameBut(job.target, OnWrite(job, x, n), OnWrite(job, y, n))
  {
  }

  lemma OpenIsLocal(job: Job, x: Copy, y: Copy, ok: bool)
    requires SameBut(job.target, x, y)
    ensures SameBut(job.target, OnOpen(job, x, ok), OnOpen(job, y, ok))
  {
  }

  lemma PutIsLocal(job: Job, x: Copy, y: Copy, ok: bool, applied: bool)
    requires SameBut(job.target, x, y)
    ensures SameBut(job.target, OnPut(job, x, ok, applied), OnPut(job, y, ok, applied))
    ensures SameBut(job.target, OnCancel(job, x, applied), OnCancel(job, y, applied))
  {
  }

  // All that a step reads of the stores is the source and the target.
  lemma StepIsLocal(job: Job, x: Copy, y: Copy, e: Event)
    requires SameBut(job.target, x, y)
    ensures SameBut(job.target, Step(job, x, e), Step(job, y, e))
  {
    match e
    case Open(ok) => OpenIsLocal(job, x, y, ok);
    case PollSource(now, inner) => PollIsLocal(job, x, y, now, inner);
    case Write(n) => WriteIsLocal(job, x, y, n);
    case WriteFault =>
    case Flush(_) =>
    case Put(ok, applied) => PutIsLocal(job, x, y, ok, applied);
    case Cancel(applied) => PutIsLocal(job, x, y, true, applied);
  }

  lemma StepChangesTarget(job: Job, c: Copy, e: Event, at: Target)
    requires at != job.target
    ensures Stored(Step(job, c, e).world, at) == Stored(c.world, at)
  {
  }

  // ---------- what every interleaving keeps ----------

  // Each task stands where it would stand alone, its target as it would be.
  ghost predicate AsAlone(tasks: seq<Task>, w0: World, turns: seq<Turn>, c: Crew, i: nat)
    requires i < |tasks| == |c.copies|
  {
    SameBut(tasks[i].to, c.copies[i].(world := c.world), Solo(tasks[i], w0, turns, i))
  }

  ghost predicate IsTarget(tasks: seq<Task>, at: Target) {
    exists i :: 0 <= i < |tasks| && tasks[i].to == at
  }

  ghost predicate OthersUntouched(tasks: seq<Task>, w0: World, w: World) {
    forall at :: !IsTarget(tasks, at) ==> Stored(w, at) == Stored(w0, at)
  }

  lemma SourceUntouched(tasks: seq<Task>, w0: World, w: World, i: nat)
    requires Independent(tasks) && OthersUntouched(tasks, w0, w) && i < |tasks|
    ensures JobIn(tasks[i], w) == JobIn(tasks[i], w0)
  {
    assert !IsTarget(tasks, tasks[i].from);
  }

  lemma EventsStep(turns: seq<Turn>, i: nat)
    requires turns != []
    ensures
      var n := |turns| - 1;
      EventsOf(turns, i) == EventsOf(turns[..n], i) + if turns[n].task == i then [turns[n].event] else []
  {
  }

  lemma SoloStep(t: Task, w0: World, turns: seq<Turn>, i: nat)
    requires turns != []
    ensures
      var n := |turns| - 1;
      var before := Solo(t, w0, turns[..n], i);
      Solo(t, w0, turns, i) == if turns[n].task == i then Step(JobIn(t, w0), before, turns[n].event) else before
  {
    var n := |turns| - 1;
    var before, e := EventsOf(turns[..n], i), turns[n].event;
    assert (before + [e])[..|before + [e]| - 1] == before;
    assert before + [] == before;
  }

  // The task whose turn it is takes the step it would take alone.
  lemma OwnTurn(tasks: seq<Task>, w0: World, turns: seq<Turn>, c: Crew, i: nat)
    requires Independent(tasks) && turns != [] && i == turns[|turns| - 1].task < |tasks| == |c.copies|
    requires OthersUntouched(tasks, w0, c.world) && AsAlone(tasks, w0, turns[..|turns| - 1], c, i)
    ensures AsAlone(tasks, w0, turns, TakeTurn(tasks, c, turns[|turns| - 1]), i)
  {
    var before := Solo(tasks[i], w0, turns[..|turns| - 1], i);
    SoloStep(tasks[i], w0, turns, i);
    SourceUntouched(tasks, w0, c.world, i);
    StepIsLocal(JobIn(tasks[i], w0), c.copies[i].(world := c.world), before, turns[|turns| - 1].event);
  }

  lemma OthersTurn(tasks: seq<Task>, w0: World, turns: seq<Turn>, c: Crew, i: nat)
    requires Independent(tasks) && turns != [] && i != turns[|turns| - 1].task && i < |tasks| == |c.copies|
    requires AsAlone(tasks, w0, turns[..|turns| - 1], c, i)
    ensures AsAlone(tasks, w0, turns, TakeTurn(tasks, c, turns[|turns| - 1]), i)
  {
    var turn := turns[|turns| - 1];
    SoloStep(tasks[i], w0, turns, i);
    if turn.task < |tasks| {
      var j := turn.task;
      assert tasks[j].to != tasks[i].to by {
        assert if i < j then tasks[i].to != tasks[j].to else tasks[j].to != tasks[i].to;
      }
      StepChangesTarget(JobIn(tasks[j], c.world), c.copies[j].(world := c.world), turn.event, tasks[i].to);
    }
  }

  lemma TurnLeavesOthers(tasks: seq<Task>, w0: World, c: Crew, turn: Turn)
    requires |tasks| == |c.copies| && OthersUntouched(tasks, w0, c.world)
    ensures OthersUntouched(tasks, w0, TakeTurn(tasks, c, turn).world)
  {
    if turn.task < |tasks| {
      var i := turn.task;
      forall at | !IsTarget(tasks, at)
        ensures Stored(TakeTurn(tasks, c, turn).world, at) == Stored(w0, at)
      {
        assert at != tasks[i].to;
        StepChangesTarget(JobIn(tasks[i], c.world), c.copies[i].(world := c.world), turn.event, at);
      }
    }
  }

  /** Independent copies do not notice each other: however their steps interleave, each comes to where it
      would come alone, its target holds what it would hold, and no other place changes. */
  lemma {:induction false} InterleavingIsSolo(tasks: seq<Task>, w0: World, turns: seq<Turn>)
    requires Independent(tasks)
    ensures
      var c := Interleave(tasks, w0, turns);
      && OthersUntouched(tasks, w0, c.world)
      && forall i :: 0 <= i < |tasks| ==> AsAlone(tasks, w0, turns, c, i)
  {
    if turns != [] {
      var n := |turns| - 1;
      var c := Interleave(tasks, w0, turns[..n]);
      InterleavingIsSolo(tasks, w0, turns[..n]);
      TurnLeavesOthers(tasks, w0, c, turns[n]);
      forall i | 0 <= i < |tasks|
        ensures AsAlone(tasks, w0, turns, TakeTurn(tasks, c, turns[n]), i)
      {
        if i == turns[n].task {
          OwnTurn(tasks, w0, turns, c, i);
        } else {
          OthersTurn(tasks, w0, turns, c, i);
        }
      }
    }
  }

  // ---------- requests served at the same time ----------

  function TaskOf(cfg: Config, req: CopyRequest): Task {
    Task(PlaceOf(cfg, req.sourceType, req.sourcePath), PlaceOf(cfg, req.destinationType, req.destinationPath),
         cfg.max, cfg.size, cfg.budget)
  }

  function TasksOf(cfg: Config, requests: seq<Served>): (tasks: seq<Task>)
    ensures |tasks| == |requests| && forall i :: 0 <= i < |requests| ==> tasks[i] == TaskOf(cfg, requests[i].req)
  {
    seq(|requests|, i requires 0 <= i < |requests| => TaskOf(cfg, requests[i].req))
  }

  lemma OpenReadIsLocal(cfg: Config, v: World, w: World, storage: StorageType, path: string, stat: Paths.Stat,
                        fails: bool)
    requires Stored(v, PlaceOf(cfg, storage, path)) == Stored(w, PlaceOf(cfg, storage, path))
    ensures OpenRead(cfg, v, storage, path, stat, fails) == OpenRead(cfg, w, storage, path, stat, fails)
  {
    Paths.ResolveIsExact(cfg.root, cfg.canonical, path, stat);
  }

  // A plan reads the source of the request, and nothing else of the stores.
  lemma PlanIsTask(cfg: Config, w: World, req: CopyRequest, env: Env)
    requires Plan(cfg, w, req, env).Ok?
    ensures Plan(cfg, w, req, env).value == JobIn(TaskOf(cfg, req), w)
    ensures Stored(w, TaskOf(cfg, req).from) == Some(PlannedContents(cfg, w, req, env))
  {
    OpenReadsPlace(cfg, w, req.sourceType, req.sourcePath, env.sourceStat, env.openFails);
    TargetIsPlace(cfg, req.destinationType, req.destinationPath, env.destinationStat);
  }

  lemma PlanReadsSource(cfg: Config, v: World, w: World, req: CopyRequest, env: Env)
    requires Stored(v, TaskOf(cfg, req).from) == Stored(w, TaskOf(cfg, req).from)
    ensures Plan(cfg, v, req, env) == Plan(cfg, w, req, env)
  {
    OpenReadIsLocal(cfg, v, w, req.sourceType, req.sourcePath, env.sourceStat, env.openFails);
  }

  // All requests get as far as copying.
  ghost predicate AllPlanned(cfg: Config, w: World, requests: seq<Served>) {
    forall i :: 0 <= i < |requests| ==> Plan(cfg, w, requests[i].req, requests[i].env).Ok?
  }

  /** Requests whose copies are independent, served at the same time: at whatever moment one is planned, the
      plan is the same; and each is answered as if it were served alone. */
  lemma ConcurrentRepliesAreSolo(cfg: Config, w0: World, requests: seq<Served>, turns: seq<Turn>, i: nat)
    requires i < |requests| && AllPlanned(cfg, w0, requests) && Independent(TasksOf(cfg, requests))
    ensures
      var c := Interleave(TasksOf(cfg, requests), w0, turns);
      var (req, env) := (requests[i].req, requests[i].env);
      && Plan(cfg, c.world, req, env) == Plan(cfg, w0, req, env)
      && ReplyOf(c.copies[i].phase) == HandleCopy(cfg, w0, req, env.(events := EventsOf(turns, i))).1
  {
    var tasks := TasksOf(cfg, requests);
    var c := Interleave(tasks, w0, turns);
    InterleavingIsSolo(tasks, w0, turns);
    assert AsAlone(tasks, w0, turns, c, i);
    PlanStays(cfg, w0, c.world, tasks, i, requests[i].req, requests[i].env);
    SoloReply(cfg, w0, requests[i].req, requests[i].env, turns, i);
  }

  lemma PlanStays(cfg: Config, w0: World, w: World, tasks: seq<Task>, i: nat, req: CopyRequest, env: Env)
    requires Independent(tasks) && OthersUntouched(tasks, w0, w) && i < |tasks| && tasks[i] == TaskOf(cfg, req)
    ensures Plan(cfg, w, req, env) == Plan(cfg, w0, req, env)
  {
    assert !IsTarget(tasks, tasks[i].from);
    PlanReadsSource(cfg, w, w0, req, env);
  }

  lemma SoloReply(cfg: Config, w0: World, req: CopyRequest, env: Env, turns: seq<Turn>, i: nat)
    requires Plan(cfg, w0, req, env).Ok?
    ensures HandleCopy(cfg, w0, req, env.(events := EventsOf(turns, i))).1
            == ReplyOf(Solo(TaskOf(cfg, req), w0, turns, i).phase)
  {
    PlanIsTask(cfg, w0, req, env);
  }

  // The place is as it was, or holds a beginning of something stored at first, within the cap.
  ghost predicate PlaceIsPiece(w0: World, w: World, at: Target, max: nat) {
    || Stored(w, at) == Stored(w0, at)
    || (Stored(w, at).Some? && |Stored(w, at).value| <= max && PieceOf(w0, Stored(w, at).value))
  }

  lemma TargetHoldsPiece(task: Task, w0: World, w: World, contents: seq<byte>, turns: seq<Turn>, i: nat)
    requires task.max + task.size < U64_LIMIT && Stored(w0, task.from) == Some(contents)
    requires Stored(w, task.to) == Stored(Solo(task, w0, turns, i).world, task.to)
    ensures PlaceIsPiece(w0, w, task.to, task.max)
  {
    CopyMovesPieces(JobIn(task, w0), w0, contents, EventsOf(turns, i));
    StoredSomewhere(w0, task.from);
  }

  lemma TaskHoldsPiece(cfg: Config, w0: World, w: World, served: Served, turns: seq<Turn>, i: nat)
    requires BufferFits(cfg) && Plan(cfg, w0, served.req, served.env).Ok?
    requires
      var task := TaskOf(cfg, served.req);
      Stored(w, task.to) == Stored(Solo(task, w0, turns, i).world, task.to)
    ensures PlaceIsPiece(w0, w, TaskOf(cfg, served.req).to, cfg.max)
  {
    PlanIsTask(cfg, w0, served.req, served.env);
    var contents := PlannedContents(cfg, w0, served.req, served.env);
    TargetHoldsPiece(TaskOf(cfg, served.req), w0, w, contents, turns, i);
  }

  lemma EveryPlaceIsPiece(cfg: Config, w0: World, requests: seq<Served>, turns: seq<Turn>, at: Target)
    requires BufferFits(cfg) && AllPlanned(cfg, w0, requests) && Independent(TasksOf(cfg, requests))
    ensures PlaceIsPiece(w0, Interleave(TasksOf(cfg, requests), w0, turns).world, at, cfg.max)
  {
    var tasks := TasksOf(cfg, requests);
    var c := Interleave(tasks, w0, turns);
    InterleavingIsSolo(tasks, w0, turns);
    if IsTarget(tasks, at) {
      var i :| 0 <= i < |tasks| && tasks[i].to == at;
      assert AsAlone(tasks, w0, turns, c, i);
      TaskHoldsPiece(cfg, w0, c.world, requests[i], turns, i);
    }
  }

  lemma StoredSomewhere(w: World, at: Target)
    ensures Stored(w, at).Some? ==> StoredIn(w, Stored(w, at).value)
  {
  }

  /** Independent requests, served at the same time, whatever fails in them: no file and no object is lost,
      each holds a beginning of something stored at the start, and each that is not as it was lies within
      the cap. */
  lemma ConcurrentCopiesOnlyMovePieces(cfg: Config, w0: World, requests: seq<Served>, turns: seq<Turn>)
    requires BufferFits(cfg) && AllPlanned(cfg, w0, requests) && Independent(TasksOf(cfg, requests))
    ensures
      var w := Interleave(TasksOf(cfg, requests), w0, turns).world;
      OnlyPieces(w0, w0.fs, w.fs, cfg.max) && OnlyPieces(w0, w0.s3, w.s3, cfg.max)
  {
    var w := Interleave(TasksOf(cfg, requests), w0, turns).world;
    forall at
      ensures PlaceIsPiece(w0, w, at, cfg.max)
    {
      EveryPlaceIsPiece(cfg, w0, requests, turns, at);
    }
    FilesArePieces(w0, w, cfg.max);
    ObjectsArePieces(w0, w, cfg.max);
  }

  lemma FilesArePieces(w0: World, w: World, max: nat)
    requires forall at :: PlaceIsPiece(w0, w, at, max)
    ensures OnlyPieces(w0, w0.fs, w.fs, max)
  {
    forall loc
      ensures loc in w0.fs ==> loc in w.fs
      ensures loc in w.fs ==>
                PieceOf(w0, w.fs[loc]) && ((loc in w0.fs && w.fs[loc] == w0.fs[loc]) || |w.fs[loc]| <= max)
    {
      assert PlaceIsPiece(w0, w, ToFs(loc), max);
      assert loc in w0.fs ==> StoredIn(w0, w0.fs[loc]) && w0.fs[loc] <= w0.fs[loc];
    }
  }

  lemma ObjectsArePieces(w0: World, w: World, max: nat)
    requires forall at :: PlaceIsPiece(w0, w, at, max)
    ensures OnlyPieces(w0, w0.s3, w.s3, max)
  {
    forall key
      ensures key in w0.s3 ==> key in w.s3
      ensures key in w.s3 ==>
                PieceOf(w0, w.s3[key]) && ((key in w0.s3 && w.s3[key] == w0.s3[key]) || |w.s3[key]| <= max)
    {
      assert PlaceIsPiece(w0, w, ToS3(key), max);
      assert key in w0.s3 ==> StoredIn(w0, w0.s3[key]) && w0.s3[key] <= w0.s3[key];
    }
  }
}
