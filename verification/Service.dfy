/** `POST /v1/files/copy`: the guards in front of a copy, the copy between the two stores, and runs of
    many requests. */
module Service {
  import opened Strings
  import opened Order
  import opened Paths
  import opened Keys
  import opened Reader
  import opened Transfer
  import opened Streaming
  import opened Listing
  import opened Pagination
  import FsList
  import Timing
  import S3List

  // `size` is the copy buffer. The root and its canonical form locate the files.
  datatype Config = Config(root: string, canonical: Option<string>, bucketPath: string, s3Configured: bool,
                           max: nat, size: nat, budget: nat)

  datatype CopyRequest = CopyRequest(sourceType: StorageType, sourcePath: string,
                                     destinationType: StorageType, destinationPath: string)

  // How the outside behaves during one request.
  datatype Env = Env(sourceStat: Stat, destinationStat: Stat, openFails: bool, events: seq<Event>)

  datatype CopyError =
    | SameStorageType
    | InvalidPath(fault: PathFault)
    | NotConfigured
    | NotFound
    | OpenError
    | CopyFailed(cause: Cause)

  datatype Reply = Copied(total: nat) | Rejected(error: CopyError) | NoReply

  // ---------- locating a path ----------

  function Names(c: seq<Component>): seq<string> {
    if c == [] then []
    else (if c[0].Name? then [c[0].name] else []) + Names(c[1..])
  }

  function Behind(base: seq<Component>, c: seq<Component>): seq<Component> {
    if |base| <= |c| then c[|base|..] else []
  }

  // The place of a resolved path, as names below the root.
  function Locate(cfg: Config, joined: string): seq<string> {
    var c := Components(joined);
    Names(if Components(cfg.root) in Ancestors(c) then Behind(Components(cfg.root), c)
          else if cfg.canonical.Some? then Behind(Components(cfg.canonical.value), c)
          else c)
  }

  function Places(loc: seq<string>): (c: seq<Component>)
    ensures |c| == |loc| && forall i :: 0 <= i < |loc| ==> c[i] == Name(loc[i])
  {
    seq(|loc|, i requires 0 <= i < |loc| => Name(loc[i]))
  }

  lemma {:induction false} PlacesOfNames(c: seq<Component>)
    requires AllNames(c)
    ensures Places(Names(c)) == c
  {
    if c != [] {
      PlacesOfNames(c[1..]);
      assert c == [c[0]] + c[1..];
    }
  }

  /** A path that is accepted and resolves is located: it leads to its place below the root or the
      canonical root, with every `..` of the root itself resolved. */
  lemma LocateIsBeneath(cfg: Config, path: string, stat: Stat)
    requires Accepted(path) && Resolve(cfg.root, cfg.canonical, path, stat).Ok?
    ensures
      var joined := Resolve(cfg.root, cfg.canonical, path, stat).value;
      || Beneath(cfg.root, joined, Places(Locate(cfg, joined)))
      || (cfg.canonical.Some? && Beneath(cfg.canonical.value, joined, Places(Locate(cfg, joined))))
  {
    var joined := Join(cfg.root, path);
    if !Absolute(path) {
      RelativeJoinHasRoot(cfg.root, path);
    }
    var base := if Components(cfg.root) in Ancestors(Components(joined)) then cfg.root else cfg.canonical.value;
    BeneathAncestor(cfg.root, path, base);
    var names :| Beneath(base, joined, names);
    BehindBase(Components(base), names);
    PlacesOfNames(names);
  }

  lemma BehindBase(base: seq<Component>, names: seq<Component>)
    ensures Behind(base, base + names) == names
  {
  }

  function ResolveFault(e: ResolveError): CopyError {
    if e.BadPath? then InvalidPath(e.fault) else OpenError
  }

  // ---------- one request ----------

  function SourceOf(contents: seq<byte>): Source {
    Source((i: nat) => if i < |contents| then contents[i] else 0, Some(|contents|))
  }

  function OpenRead(cfg: Config, w: World, storage: StorageType, path: string, stat: Stat,
                    fails: bool): Result<seq<byte>, CopyError> {
    match storage
    case FS =>
      (match Resolve(cfg.root, cfg.canonical, path, stat)
       case Err(e) => Err(ResolveFault(e))
       case Ok(joined) =>
         if fails then Err(OpenError)
         else if Locate(cfg, joined) in w.fs then Ok(w.fs[Locate(cfg, joined)]) else Err(NotFound))
    case S3 =>
      if fails then Err(OpenError)
      else if Key(cfg.bucketPath, path) in w.s3 then Ok(w.s3[Key(cfg.bucketPath, path)]) else Err(NotFound)
  }

  function TargetOf(cfg: Config, storage: StorageType, path: string, stat: Stat): Result<Target, CopyError> {
    match storage
    case FS =>
      (match Resolve(cfg.root, cfg.canonical, path, stat)
       case Err(e) => Err(ResolveFault(e))
       case Ok(joined) => Ok(ToFs(Locate(cfg, joined))))
    case S3 => Ok(ToS3(Key(cfg.bucketPath, path)))
  }

  function Stored(w: World, at: Target): Option<seq<byte>> {
    match at
    case ToFs(loc) => if loc in w.fs then Some(w.fs[loc]) else None
    case ToS3(key) => if key in w.s3 then Some(w.s3[key]) else None
  }

  // The place of a path that resolves.
  function PlaceOf(cfg: Config, storage: StorageType, path: string): Target {
    match storage
    case FS => ToFs(Locate(cfg, Join(cfg.root, path)))
    case S3 => ToS3(Key(cfg.bucketPath, path))
  }

  function ReplyOf(phase: Phase): Reply {
    match phase
    case Done(total) => Copied(total)
    case Failed(cause) => Rejected(CopyFailed(cause))
    case _ => NoReply
  }

  // What is wrong with a request itself.
  function Guard(cfg: Config, req: CopyRequest): Option<CopyError> {
    if req.sourceType == req.destinationType then Some(SameStorageType)
    else if !Accepted(req.sourcePath) then Some(InvalidPath(ValidatePath(req.sourcePath).error))
    else if !Accepted(req.destinationPath) then Some(InvalidPath(ValidatePath(req.destinationPath).error))
    else if !cfg.s3Configured then Some(NotConfigured)
    else None
  }

  // The guards, the opening of the source and the resolution of the destination.
  function Plan(cfg: Config, w: World, req: CopyRequest, env: Env): Result<Job, CopyError> {
    if Guard(cfg, req).Some? then Err(Guard(cfg, req).value)
    else
      match OpenRead(cfg, w, req.sourceType, req.sourcePath, env.sourceStat, env.openFails)
      case Err(e) => Err(e)
      case Ok(contents) =>
        match TargetOf(cfg, req.destinationType, req.destinationPath, env.destinationStat)
        case Err(e) => Err(e)
        case Ok(target) => Ok(Job(SourceOf(contents), target, cfg.max, cfg.size, cfg.budget))
  }

  /** The stores after one request, and its answer. */
  function HandleCopy(cfg: Config, w: World, req: CopyRequest, env: Env): (World, Reply) {
    match Plan(cfg, w, req, env)
    case Err(e) => (w, Rejected(e))
    case Ok(job) =>
      var c := Run(job, Begin(w), env.events);
      (c.world, ReplyOf(c.phase))
  }

  // ---------- what one request does ----------

  predicate BufferFits(cfg: Config) {
    cfg.max + cfg.size < U64_LIMIT
  }

  // The stored contents a planned copy reads.
  ghost function PlannedContents(cfg: Config, w: World, req: CopyRequest, env: Env): seq<byte>
    requires Plan(cfg, w, req, env).Ok?
  {
    OpenRead(cfg, w, req.sourceType, req.sourcePath, env.sourceStat, env.openFails).value
  }

  lemma PrefixOfSource(contents: seq<byte>, n: nat)
    requires n <= |contents|
    ensures Prefix(SourceOf(contents), n) == contents[..n]
  {
  }

  // The path of a request that names a file.
  function FilePath(req: CopyRequest): string {
    if req.sourceType.FS? then req.sourcePath else req.destinationPath
  }

  ghost predicate BeneathRoot(cfg: Config, joined: string, loc: seq<string>) {
    || Beneath(cfg.root, joined, Places(loc))
    || (cfg.canonical.Some? && Beneath(cfg.canonical.value, joined, Places(loc)))
  }

  lemma FileOpens(cfg: Config, w: World, path: string, stat: Stat, fails: bool)
    requires Accepted(path) && OpenRead(cfg, w, FS, path, stat, fails).Ok?
    ensures
      var joined := Join(cfg.root, path);
      var loc := Locate(cfg, joined);
      BeneathRoot(cfg, joined, loc) && loc in w.fs && OpenRead(cfg, w, FS, path, stat, fails).value == w.fs[loc]
  {
    LocateIsBeneath(cfg, path, stat);
    ResolveIsContained(cfg.root, cfg.canonical, path, stat);
  }

  lemma FileIsTargeted(cfg: Config, path: string, stat: Stat)
    requires Accepted(path) && TargetOf(cfg, FS, path, stat).Ok?
    ensures
      var joined := Join(cfg.root, path);
      BeneathRoot(cfg, joined, Locate(cfg, joined)) && TargetOf(cfg, FS, path, stat).value == ToFs(Locate(cfg, joined))
  {
    LocateIsBeneath(cfg, path, stat);
    ResolveIsContained(cfg.root, cfg.canonical, path, stat);
  }

  /** A request that gets as far as copying names one file and one object. The file lies beneath the root
      or the canonical root, whether it is read or written, and the object has the key of its path. */
  lemma CopiesBetweenFileAndObject(cfg: Config, w: World, req: CopyRequest, env: Env)
    requires Plan(cfg, w, req, env).Ok?
    ensures
      var job := Plan(cfg, w, req, env).value;
      var contents := PlannedContents(cfg, w, req, env);
      var joined := Join(cfg.root, FilePath(req));
      var loc := Locate(cfg, joined);
      && cfg.s3Configured && BeneathRoot(cfg, joined, loc)
      && if req.sourceType.FS?
         then loc in w.fs && contents == w.fs[loc] && job.target == ToS3(Key(cfg.bucketPath, req.destinationPath))
         else Key(cfg.bucketPath, req.sourcePath) in w.s3 && contents == w.s3[Key(cfg.bucketPath, req.sourcePath)]
              && job.target == ToFs(loc)
  {
    if req.sourceType.FS? {
      FileOpens(cfg, w, req.sourcePath, env.sourceStat, env.openFails);
    } else {
      FileIsTargeted(cfg, req.destinationPath, env.destinationStat);
    }
  }

  // An object of the stores before, or a piece of `contents` within the cap.
  ghost predicate OldOrPiece<K>(before: map<K, seq<byte>>, after: map<K, seq<byte>>, contents: seq<byte>, max: nat) {
    && before.Keys <= after.Keys
    && forall k :: k in after ==> (k in before && after[k] == before[k]) || (after[k] <= contents && |after[k]| <= max)
  }

  lemma CopyMovesPieces(job: Job, w: World, contents: seq<byte>, events: seq<Event>)
    requires job.src == SourceOf(contents) && Transfer.CounterFits(job)
    ensures
      var w' := Run(job, Begin(w), events).world;
      OldOrPiece(w.fs, w'.fs, contents, job.max) && OldOrPiece(w.s3, w'.s3, contents, job.max)
  {
    RunInv(job, w, events);
    var c := Run(job, Begin(w), events);
    var n := |c.reader.exposed|;
    PrefixOfSource(contents, n);
    assert c.reader.exposed[..c.written] <= contents;
  }

  // ---------- how a request is answered ----------

  lemma OpenReadsPlace(cfg: Config, w: World, storage: StorageType, path: string, stat: Stat, fails: bool)
    requires OpenRead(cfg, w, storage, path, stat, fails).Ok?
    ensures Stored(w, PlaceOf(cfg, storage, path)) == Some(OpenRead(cfg, w, storage, path, stat, fails).value)
  {
    ResolveIsExact(cfg.root, cfg.canonical, path, stat);
  }

  lemma TargetIsPlace(cfg: Config, storage: StorageType, path: string, stat: Stat)
    requires TargetOf(cfg, storage, path, stat).Ok?
    ensures TargetOf(cfg, storage, path, stat).value == PlaceOf(cfg, storage, path)
  {
    ResolveIsExact(cfg.root, cfg.canonical, path, stat);
  }

  // Why a path of a store cannot be used, whatever is stored there.
  function Barred(cfg: Config, storage: StorageType, path: string, stat: Stat): Option<CopyError> {
    if storage.S3? then None
    else if !Admitted(cfg.root, cfg.canonical, path) then Some(InvalidPath(EscapesRoot))
    else if stat.Link? then Some(InvalidPath(SymbolicLink))
    else if stat.StatFails? then Some(OpenError)
    else None
  }

  lemma OpenReadIsExact(cfg: Config, w: World, storage: StorageType, path: string, stat: Stat, fails: bool)
    ensures
      var barred := Barred(cfg, storage, path, stat);
      var stored := Stored(w, PlaceOf(cfg, storage, path));
      OpenRead(cfg, w, storage, path, stat, fails) ==
        if barred.Some? then Err(barred.value)
        else if fails then Err(OpenError)
        else if stored.None? then Err(NotFound)
        else Ok(stored.value)
  {
    ResolveIsExact(cfg.root, cfg.canonical, path, stat);
  }

  lemma TargetIsExact(cfg: Config, storage: StorageType, path: string, stat: Stat)
    ensures
      var barred := Barred(cfg, storage, path, stat);
      TargetOf(cfg, storage, path, stat) ==
        if barred.Some? then Err(barred.value) else Ok(PlaceOf(cfg, storage, path))
  {
    ResolveIsExact(cfg.root, cfg.canonical, path, stat);
  }

  // What is wrong with a request itself comes first.
  lemma GuardIsExact(cfg: Config, req: CopyRequest)
    ensures
      var source, destination := ValidatePath(req.sourcePath), ValidatePath(req.destinationPath);
      Guard(cfg, req) ==
        if req.sourceType == req.destinationType then Some(SameStorageType)
        else if source.Err? then Some(InvalidPath(source.error))
        else if destination.Err? then Some(InvalidPath(destination.error))
        else if !cfg.s3Configured then Some(NotConfigured)
        else None
  {
  }

  // Then what is wrong with its source, then with its destination.
  lemma PlanIsExact(cfg: Config, w: World, req: CopyRequest, env: Env)
    ensures
      var guard := Guard(cfg, req);
      var sourceBarred := Barred(cfg, req.sourceType, req.sourcePath, env.sourceStat);
      var destinationBarred := Barred(cfg, req.destinationType, req.destinationPath, env.destinationStat);
      var stored := Stored(w, PlaceOf(cfg, req.sourceType, req.sourcePath));
      Plan(cfg, w, req, env) ==
        if guard.Some? then Err(guard.value)
        else if sourceBarred.Some? then Err(sourceBarred.value)
        else if env.openFails then Err(OpenError)
        else if stored.None? then Err(NotFound)
        else if destinationBarred.Some? then Err(destinationBarred.value)
        else Ok(JobOf(cfg, req, stored.value))
  {
    OpenReadIsExact(cfg, w, req.sourceType, req.sourcePath, env.sourceStat, env.openFails);
    TargetIsExact(cfg, req.destinationType, req.destinationPath, env.destinationStat);
  }

  function JobOf(cfg: Config, req: CopyRequest, contents: seq<byte>): Job {
    Job(SourceOf(contents), PlaceOf(cfg, req.destinationType, req.destinationPath), cfg.max, cfg.size, cfg.budget)
  }

  // The stores and the answer tell how the copy went.
  ghost predicate Tells(job: Job, w: World, events: seq<Event>, w': World, reply: Reply) {
    var c := Run(job, Begin(w), events);
    && w' == c.world
    && (reply.Copied? <==> c.phase.Done?) && (c.phase.Done? ==> reply.total == c.phase.total)
    && (c.phase.Failed? ==> reply == Rejected(CopyFailed(c.phase.cause)))
    && (reply.NoReply? <==> !c.phase.Done? && !c.phase.Failed?)
  }

  lemma AnswerOfRun(job: Job, w: World, events: seq<Event>)
    ensures
      var c := Run(job, Begin(w), events);
      Tells(job, w, events, c.world, ReplyOf(c.phase))
  {
  }

  /** A request is refused exactly for what is wrong with it, in this order, and then changes nothing: one
      type for both sides, a path that the validator refuses, no bucket, a source that cannot be used or
      opened or is not there, a destination that cannot be used. Any other request copies. */
  lemma AnswerIsExact(cfg: Config, w: World, req: CopyRequest, env: Env)
    ensures
      var (w', reply) := HandleCopy(cfg, w, req, env);
      var source, destination := ValidatePath(req.sourcePath), ValidatePath(req.destinationPath);
      var sourceBarred := Barred(cfg, req.sourceType, req.sourcePath, env.sourceStat);
      var destinationBarred := Barred(cfg, req.destinationType, req.destinationPath, env.destinationStat);
      var stored := Stored(w, PlaceOf(cfg, req.sourceType, req.sourcePath));
      if req.sourceType == req.destinationType then w' == w && reply == Rejected(SameStorageType)
      else if source.Err? then w' == w && reply == Rejected(InvalidPath(source.error))
      else if destination.Err? then w' == w && reply == Rejected(InvalidPath(destination.error))
      else if !cfg.s3Configured then w' == w && reply == Rejected(NotConfigured)
      else if sourceBarred.Some? then w' == w && reply == Rejected(sourceBarred.value)
      else if env.openFails then w' == w && reply == Rejected(OpenError)
      else if stored.None? then w' == w && reply == Rejected(NotFound)
      else if destinationBarred.Some? then w' == w && reply == Rejected(destinationBarred.value)
      else Tells(JobOf(cfg, req, stored.value), w, env.events, w', reply)
  {
    GuardIsExact(cfg, req);
    PlanIsExact(cfg, w, req, env);
    var plan := Plan(cfg, w, req, env);
    if plan.Ok? {
      AnswerOfRun(plan.value, w, env.events);
    }
  }

  // Nothing stands in the way of copying `contents`.
  ghost predicate Unobstructed(cfg: Config, w: World, req: CopyRequest, env: Env, contents: seq<byte>) {
    && req.sourceType != req.destinationType
    && Accepted(req.sourcePath) && Accepted(req.destinationPath) && cfg.s3Configured && !env.openFails
    && (req.sourceType.FS? ==> env.sourceStat.Plainly? || env.sourceStat.Missing?)
    && (req.destinationType.FS? ==> env.destinationStat.Plainly? || env.destinationStat.Missing?)
    && Admitted(cfg.root, cfg.canonical, FilePath(req))
    && Stored(w, PlaceOf(cfg, req.sourceType, req.sourcePath)) == Some(contents)
  }

  /** With nothing in the way and no stall, the answer to a copy that runs to its end says that all bytes
      were copied, if and only if they are within the cap, and else that the cap was exceeded. */
  lemma CopyIsAnswered(cfg: Config, w: World, req: CopyRequest, env: Env, contents: seq<byte>)
    requires BufferFits(cfg) && Unobstructed(cfg, w, req, env, contents)
    requires Timing.Unhindered(JobOf(cfg, req, contents), w, env.events)
    requires Ended(Run(JobOf(cfg, req, contents), Begin(w), env.events).phase)
    ensures HandleCopy(cfg, w, req, env).1 ==
              if |contents| <= cfg.max then Copied(|contents|) else Rejected(CopyFailed(CapExceeded))
  {
    AnswerIsExact(cfg, w, req, env);
    Timing.OutcomeIsExact(JobOf(cfg, req, contents), w, env.events);
  }

  /** And there is such a run: every request with nothing in its way can be served. */
  lemma EveryCopyCanBeServed(cfg: Config, w: World, req: CopyRequest, env: Env, contents: seq<byte>)
    returns (events: seq<Event>)
    requires BufferFits(cfg) && cfg.size >= 1 && Unobstructed(cfg, w, req, env, contents)
    ensures |events| <= 2 * cfg.max + 4
    ensures HandleCopy(cfg, w, req, env.(events := events)).1 ==
              if |contents| <= cfg.max then Copied(|contents|) else Rejected(CopyFailed(CapExceeded))
  {
    var none: seq<Event> := [];
    events := Timing.UnhinderedCopyEnds(JobOf(cfg, req, contents), w, none);
    assert none + events == events;
    CopyIsAnswered(cfg, w, req, env.(events := events), contents);
  }

  /** A copy is answered with a timeout if and only if its source stalled. */
  lemma StallIsAnswered(cfg: Config, w: World, req: CopyRequest, env: Env, contents: seq<byte>)
    requires BufferFits(cfg) && Unobstructed(cfg, w, req, env, contents)
    ensures HandleCopy(cfg, w, req, env).1 == Rejected(CopyFailed(TimedOut)) <==>
              Timing.Stalls(JobOf(cfg, req, contents), w, env.events)
  {
    AnswerIsExact(cfg, w, req, env);
    Timing.TimeoutIsExact(JobOf(cfg, req, contents), w, env.events);
  }

  // ---------- runs of requests ----------

  datatype Served = Served(req: CopyRequest, env: Env)

  function Serve(cfg: Config, w: World, requests: seq<Served>): World {
    if requests == [] then w
    else
      var last := requests[|requests| - 1];
      HandleCopy(cfg, Serve(cfg, w, requests[..|requests| - 1]), last.req, last.env).0
  }

  ghost predicate StoredIn(w: World, contents: seq<byte>) {
    (exists loc :: loc in w.fs && w.fs[loc] == contents) || (exists key :: key in w.s3 && w.s3[key] == contents)
  }

  // A beginning of something stored.
  ghost predicate PieceOf(w: World, piece: seq<byte>) {
    exists whole :: StoredIn(w, whole) && piece <= whole
  }

  ghost predicate OnlyPieces<K>(w0: World, before: map<K, seq<byte>>, after: map<K, seq<byte>>, max: nat) {
    && before.Keys <= after.Keys
    && forall k :: k in after ==>
         PieceOf(w0, after[k]) && ((k in before && after[k] == before[k]) || |after[k]| <= max)
  }

  lemma OpenReadIsStored(cfg: Config, w: World, storage: StorageType, path: string, stat: Stat, fails: bool)
    requires OpenRead(cfg, w, storage, path, stat, fails).Ok?
    ensures StoredIn(w, OpenRead(cfg, w, storage, path, stat, fails).value)
  {
  }

  lemma PiecesCompose<K>(w0: World, before: map<K, seq<byte>>, middle: map<K, seq<byte>>, after: map<K, seq<byte>>,
                         contents: seq<byte>, max: nat)
    requires OnlyPieces(w0, before, middle, max) && OldOrPiece(middle, after, contents, max) && PieceOf(w0, contents)
    ensures OnlyPieces(w0, before, after, max)
  {
    var whole :| StoredIn(w0, whole) && contents <= whole;
    forall k | k in after
      ensures PieceOf(w0, after[k]) && ((k in before && after[k] == before[k]) || |after[k]| <= max)
    {
      if !(k in middle && after[k] == middle[k]) {
        assert after[k] <= whole;
      }
    }
  }

  lemma StoredIsPiece(w0: World, w: World, contents: seq<byte>, max: nat)
    requires OnlyPieces(w0, w0.fs, w.fs, max) && OnlyPieces(w0, w0.s3, w.s3, max) && StoredIn(w, contents)
    ensures PieceOf(w0, contents)
  {
  }

  /** After any requests, whatever failed in them: no file and no object is lost, each holds a beginning
      of something stored at the start, and each that is not as it was lies within the cap. */
  lemma {:induction false} ServiceOnlyMovesPieces(cfg: Config, w0: World, requests: seq<Served>)
    requires BufferFits(cfg)
    ensures
      var w := Serve(cfg, w0, requests);
      OnlyPieces(w0, w0.fs, w.fs, cfg.max) && OnlyPieces(w0, w0.s3, w.s3, cfg.max)
  {
    if requests == [] {
      assert forall loc :: loc in w0.fs ==> StoredIn(w0, w0.fs[loc]) && w0.fs[loc] <= w0.fs[loc];
      assert forall key :: key in w0.s3 ==> StoredIn(w0, w0.s3[key]) && w0.s3[key] <= w0.s3[key];
    } else {
      var n := |requests| - 1;
      ServiceOnlyMovesPieces(cfg, w0, requests[..n]);
      var w, req, env := Serve(cfg, w0, requests[..n]), requests[n].req, requests[n].env;
      var plan := Plan(cfg, w, req, env);
      if plan.Ok? {
        var contents := PlannedContents(cfg, w, req, env);
        OpenReadIsStored(cfg, w, req.sourceType, req.sourcePath, env.sourceStat, env.openFails);
        StoredIsPiece(w0, w, contents, cfg.max);
        CopyMovesPieces(plan.value, w, contents, env.events);
        var w' := HandleCopy(cfg, w, req, env).0;
        PiecesCompose(w0, w0.fs, w.fs, w'.fs, contents, cfg.max);
        PiecesCompose(w0, w0.s3, w.s3, w'.s3, contents, cfg.max);
      }
    }
  }

  // ---------- a successful copy ----------

  // Of a path that resolves, only the metadata call tells whether it is refused.
  lemma ResolveWithoutLink(cfg: Config, path: string, stat: Stat)
    requires Resolve(cfg.root, cfg.canonical, path, stat).Ok?
    ensures Resolve(cfg.root, cfg.canonical, path, Plainly) == Resolve(cfg.root, cfg.canonical, path, stat)
  {
  }

  ghost predicate Holds(w: World, target: Target, contents: seq<byte>) {
    match target
    case ToFs(loc) => loc in w.fs && w.fs[loc] == contents
    case ToS3(key) => key in w.s3 && w.s3[key] == contents
  }

  lemma TargetReadsBack(cfg: Config, w: World, storage: StorageType, path: string, stat: Stat, contents: seq<byte>)
    requires TargetOf(cfg, storage, path, stat).Ok? && Holds(w, TargetOf(cfg, storage, path, stat).value, contents)
    ensures OpenRead(cfg, w, storage, path, Plainly, false) == Ok(contents)
  {
    if storage.FS? {
      ResolveWithoutLink(cfg, path, stat);
    }
  }

  lemma SourceReadsAgain(cfg: Config, w: World, w': World, storage: StorageType, path: string, stat: Stat, fails: bool)
    requires OpenRead(cfg, w, storage, path, stat, fails).Ok?
    requires if storage.FS? then w'.fs == w.fs else w'.s3 == w.s3
    ensures OpenRead(cfg, w', storage, path, Plainly, false) == OpenRead(cfg, w, storage, path, stat, fails)
  {
    if storage.FS? {
      ResolveWithoutLink(cfg, path, stat);
    }
  }

  lemma DoneHolds(job: Job, w: World, contents: seq<byte>, events: seq<Event>)
    requires job.src == SourceOf(contents) && Transfer.CounterFits(job)
    requires Run(job, Begin(w), events).phase.Done?
    ensures
      var c := Run(job, Begin(w), events);
      && c.phase.total == |contents| <= job.max && Holds(c.world, job.target, contents)
      && if job.target.ToFs? then c.world.s3 == w.s3 else c.world.fs == w.fs
  {
    SuccessIsDelivery(job, w, events);
    RunInv(job, w, events);
    PrefixOfSource(contents, |contents|);
    assert contents[..|contents|] == contents;
  }

  /** After a successful copy the destination reads as the source did, the source still does, and the
      reported count is the size. */
  lemma CopyThenRead(cfg: Config, w: World, req: CopyRequest, env: Env)
    requires BufferFits(cfg) && HandleCopy(cfg, w, req, env).1.Copied?
    ensures
      var (w', reply) := HandleCopy(cfg, w, req, env);
      var contents := OpenRead(cfg, w, req.sourceType, req.sourcePath, Plainly, false);
      && contents.Ok? && |contents.value| == reply.total <= cfg.max
      && OpenRead(cfg, w', req.destinationType, req.destinationPath, Plainly, false) == contents
      && OpenRead(cfg, w', req.sourceType, req.sourcePath, Plainly, false) == contents
  {
    var job := Plan(cfg, w, req, env).value;
    var contents := PlannedContents(cfg, w, req, env);
    var w' := HandleCopy(cfg, w, req, env).0;
    DoneHolds(job, w, contents, env.events);
    SourceReadsAgain(cfg, w, w, req.sourceType, req.sourcePath, env.sourceStat, env.openFails);
    SourceReadsAgain(cfg, w, w', req.sourceType, req.sourcePath, env.sourceStat, env.openFails);
    TargetReadsBack(cfg, w', req.destinationType, req.destinationPath, env.destinationStat, contents);
  }

  // ---------- a copied file in the listing ----------

  // A directory read without fault, of the files right below the root.
  ghost predicate ReadsRoot(dir: seq<FsList.DirStep>, fs: map<seq<string>, seq<byte>>) {
    && FsList.NamesOnce(dir)
    && (forall i :: 0 <= i < |dir| && FsList.IsListed(dir[i]) ==>
          [dir[i].name] in fs && dir[i].meta.value.size == |fs[[dir[i].name]]|)
    && forall name :: [name] in fs ==> Lists(dir, name)
  }

  ghost predicate Lists(dir: seq<FsList.DirStep>, name: string) {
    exists i :: 0 <= i < |dir| && FsList.IsListed(dir[i]) && dir[i].name == name
  }

  // A bucket's objects in key order, with their sizes.
  ghost predicate ReadsBucket(bucket: seq<S3List.S3Object>, s3: map<string, seq<byte>>) {
    && S3List.KeyOrdered(bucket)
    && (forall i :: 0 <= i < |bucket| ==>
          bucket[i].key.value in s3 && bucket[i].size == Some(|s3[bucket[i].key.value]|))
    && forall key :: key in s3 ==> exists i :: 0 <= i < |bucket| && bucket[i].key == Some(key)
  }

  ghost predicate ListedOnce(es: seq<FileEntry>, name: string, size: nat) {
    exists i :: 0 <= i < |es| && es[i].name == name && es[i].size == size
                && forall j :: 0 <= j < |es| && es[j].name == name ==> j == i
  }

  lemma OrderedListsOnce(es: seq<FileEntry>, e: FileEntry)
    requires NameOrder(es) && e in es
    ensures ListedOnce(es, e.name, e.size)
  {
    var i :| 0 <= i < |es| && es[i] == e;
    forall j | 0 <= j < |es| && es[j].name == e.name
      ensures j == i
    {
      Irreflexive(e.name);
    }
  }

  lemma FileIsListedOnce(dir: seq<FsList.DirStep>, fs: map<seq<string>, seq<byte>>, name: string)
    requires ReadsRoot(dir, fs) && [name] in fs
    ensures ListedOnce(SortByName(FsList.FilesOf(dir)), name, |fs[[name]]|)
  {
    FsList.ListingOfDirectory(dir);
    assert Lists(dir, name);
    var i :| 0 <= i < |dir| && FsList.IsListed(dir[i]) && dir[i].name == name;
    FsList.ListedIsFile(dir[i], FsList.EntryOf(dir[i]));
    OrderedListsOnce(SortByName(FsList.FilesOf(dir)), FsList.EntryOf(dir[i]));
  }

  lemma ObjectIsListedOnce(bucket: seq<S3List.S3Object>, s3: map<string, seq<byte>>, bucketPath: string, name: string)
    requires ReadsBucket(bucket, s3) && Key(bucketPath, name) in s3 && name != "" && '/' !in name
    ensures ListedOnce(S3List.EntriesOf(bucket, bucketPath), name, |s3[Key(bucketPath, name)]|)
  {
    S3List.ListingOfBucket(bucket, bucketPath);
    S3List.EntriesComeFromObjects(bucket, bucketPath);
    var i :| 0 <= i < |bucket| && bucket[i].key == Some(Key(bucketPath, name));
    StripIsInverse(bucketPath, bucket[i].key.value, name);
    var e := S3List.EntryOfObject(bucket[i], name);
    assert S3List.ListedAs(bucket[i], bucketPath, e);
    OrderedListsOnce(S3List.EntriesOf(bucket, bucketPath), e);
  }

  // A name without a slash lies right below the root.
  lemma PlainNameLocates(cfg: Config, path: string)
    requires Accepted(path) && '/' !in path
    ensures Locate(cfg, Join(cfg.root, path)) == [path]
  {
    var joined := Join(cfg.root, path);
    JoinOfAccepted(cfg.root, path);
    PlainOfPlainName(path);
    RelativeJoinHasRoot(cfg.root, path);
    BehindBase(Components(cfg.root), [Name(path)]);
    assert Names([Name(path)]) == [path] + Names([Name(path)][1..]);
  }

  lemma PlainOfPlainName(path: string)
    requires Accepted(path) && '/' !in path
    ensures !Absolute(path) && Plain(Split(path, '/')) == [Name(path)]
  {
    AcceptedBySegments(path);
    SplitWithoutSeparator(path, '/');
    assert path in Split(path, '/');
    assert Plain([path]) == PlainSegment(path) + Plain([path][1..]);
  }

  // The listing of a store, given how its directory or bucket reads.
  function ListingOf(cfg: Config, storage: StorageType, dir: seq<FsList.DirStep>,
                     bucket: seq<S3List.S3Object>): seq<FileEntry> {
    match storage
    case FS => SortByName(FsList.FilesOf(dir))
    case S3 => S3List.EntriesOf(bucket, cfg.bucketPath)
  }

  lemma HeldIsListed(cfg: Config, w: World, storage: StorageType, path: string, stat: Stat, contents: seq<byte>,
                     dir: seq<FsList.DirStep>, bucket: seq<S3List.S3Object>)
    requires Accepted(path) && '/' !in path
    requires TargetOf(cfg, storage, path, stat).Ok? && Holds(w, TargetOf(cfg, storage, path, stat).value, contents)
    requires if storage.FS? then ReadsRoot(dir, w.fs) else ReadsBucket(bucket, w.s3)
    ensures ListedOnce(ListingOf(cfg, storage, dir, bucket), path, |contents|)
  {
    match storage
    case FS =>
      PlainNameLocates(cfg, path);
      FileIsListedOnce(dir, w.fs, path);
    case S3 =>
      AcceptedBySegments(path);
      ObjectIsListedOnce(bucket, w.s3, cfg.bucketPath, path);
  }

  /** After a successful copy to a name without a slash, the listing of the destination has that name
      exactly once, with the count the copy reported as its size. */
  lemma CopyThenList(cfg: Config, w: World, req: CopyRequest, env: Env,
                     dir: seq<FsList.DirStep>, bucket: seq<S3List.S3Object>)
    requires BufferFits(cfg) && HandleCopy(cfg, w, req, env).1.Copied?
    requires '/' !in req.destinationPath
    requires
      var w' := HandleCopy(cfg, w, req, env).0;
      if req.destinationType.FS? then ReadsRoot(dir, w'.fs) else ReadsBucket(bucket, w'.s3)
    ensures
      var total := HandleCopy(cfg, w, req, env).1.total;
      ListedOnce(ListingOf(cfg, req.destinationType, dir, bucket), req.destinationPath, total)
  {
    var contents := PlannedContents(cfg, w, req, env);
    var w' := HandleCopy(cfg, w, req, env).0;
    DoneHolds(Plan(cfg, w, req, env).value, w, contents, env.events);
    HeldIsListed(cfg, w', req.destinationType, req.destinationPath, env.destinationStat, contents, dir, bucket);
  }

  // An object nested below the prefix is in no listing.
  lemma NestedIsNeverListed(bucket: seq<S3List.S3Object>, bucketPath: string, e: FileEntry)
    requires e in S3List.EntriesOf(bucket, bucketPath)
    ensures e.name != "" && '/' !in e.name
  {
    S3List.EntriesComeFromObjects(bucket, bucketPath);
  }

  // ---------- the handler on its stores ----------

  /** The request as the program serves it, on the stores themselves. */
  method CopyFile(cfg: Config, stores: Stores, req: CopyRequest, env: Env) returns (reply: Reply)
    modifies stores
    ensures
      var (w, r) := HandleCopy(cfg, World(old(stores.fs), old(stores.s3)), req, env);
      reply == r && World(stores.fs, stores.s3) == w
  {
    if req.sourceType == req.destinationType {
      return Rejected(SameStorageType);
    }
    var source := ValidatePath(req.sourcePath);
    if source.Err? {
      return Rejected(InvalidPath(source.error));
    }
    var destination := ValidatePath(req.destinationPath);
    if destination.Err? {
      return Rejected(InvalidPath(destination.error));
    }
    if !cfg.s3Configured {
      return Rejected(NotConfigured);
    }
    var contents := OpenRead(cfg, World(stores.fs, stores.s3), req.sourceType, req.sourcePath, env.sourceStat,
                             env.openFails);
    if contents.Err? {
      return Rejected(contents.error);
    }
    var target := TargetOf(cfg, req.destinationType, req.destinationPath, env.destinationStat);
    if target.Err? {
      return Rejected(target.error);
    }
    var job := Job(SourceOf(contents.value), target.value, cfg.max, cfg.size, cfg.budget);
    var phase := StreamCopy(job, stores, env.events);
    reply := ReplyOf(phase);
  }
}
