/** The copy as the program runs it, on its own buffer, counter and files, proved to take the steps of
    `Transfer`. */
module Streaming {
  import opened Strings
  import opened Reader
  import opened LimitedReader
  import opened Transfer

  class Stores {
    var fs: map<seq<string>, seq<byte>>
    var s3: map<string, seq<byte>>

    constructor (w: World)
      ensures fs == w.fs && s3 == w.s3
    {
      fs, s3 := w.fs, w.s3;
    }
  }

  class CopyTask {
    const job: Job
    const stores: Stores
    const reader: CappedReader
    const buf: ReadBuf
    var pos: nat
    var phase: Phase
    var isOpen: bool
    var waiting: Option<nat>
    var temp: seq<byte>
    // What left the buffer.
    ghost var gone: seq<byte>

    ghost predicate Valid()
      reads this, buf
    {
      && buf.Valid() && pos <= buf.filled
      && reader.inner.src == job.src && reader.max == job.max && buf.data.Length == job.size
    }

    // The state of `Transfer` these objects stand for.
    ghost function State(): Copy
      reads this, stores, reader.inner, reader.counter, buf, buf.data
      requires Valid()
    {
      Copy(phase, isOpen, Limited(reader.inner.pulled, reader.counter.value, gone + buf.Filled()), waiting,
           |gone|, |gone| + pos, temp, World(stores.fs, stores.s3))
    }

    constructor (job: Job, stores: Stores)
      ensures Valid() && this.job == job && this.stores == stores
      ensures fresh(reader.inner) && fresh(reader.counter) && fresh(buf) && fresh(buf.data)
      ensures State() == Begin(World(stores.fs, stores.s3))
    {
      this.job := job;
      this.stores := stores;
      var inner := new SourceReader(job.src);
      reader := new CappedReader(inner, job.max);
      buf := new ReadBuf(job.size);
      pos, phase, isOpen, waiting, temp := 0, Opening, false, None, [];
      gone := [];
    }

    method HandleOpen(ok: bool)
      requires Valid()
      modifies this, stores
      ensures Valid() && State() == OnOpen(job, old(State()), ok)
    {
      if phase.Opening? {
        if !ok {
          phase := Failed(OpenFailed);
        } else {
          phase, isOpen := Pumping, true;
          match job.target
          case ToFs(loc) => stores.fs := stores.fs[loc := []];
          case ToS3(_) => temp := [];
        }
      }
    }

    method HandlePoll(now: nat, ready: Inner)
      requires Valid()
      modifies this, reader.inner, reader.counter, buf`filled, buf.data
      ensures Valid() && State() == OnPoll(job, old(State()), now, ready)
    {
      if !phase.Pumping? || buf.filled >= buf.data.Length {
        return;
      }
      var since := if waiting.Some? then waiting.value else now;
      var timed := if ready.Pending? && now >= since + job.budget then Fault else ready;
      var outcome := ReadInto(timed);
      TakeNote(since, ready.Pending?, outcome);
    }

    method ReadInto(ready: Inner) returns (outcome: Outcome)
      requires Valid()
      modifies reader.inner, reader.counter, buf`filled, buf.data
      ensures Valid() && unchanged(this) && unchanged(stores)
      ensures
        var (r, o) := Poll(job.src, job.max, old(State()).reader, ready, Space(job, old(State())));
        outcome == o && State().reader == r
    {
      PollAppends(job.src, job.max, reader.inner.pulled, reader.counter.value, gone, buf.Filled(), ready,
                  buf.data.Length - buf.filled);
      outcome := reader.PollRead(ready, buf);
    }

    method TakeNote(since: nat, pending: bool, outcome: Outcome)
      requires Valid()
      modifies this`phase, this`waiting
      ensures Valid() && State() == Settle(old(State()), since, pending, outcome)
    {
      if outcome.NotReady? {
        waiting := Some(since);
        return;
      }
      waiting := None;
      if outcome.Filled? {
        if outcome.n == 0 {
          phase := Draining;
        }
      } else if outcome.CapError? {
        phase := Failed(CapExceeded);
      } else {
        phase := Failed(if pending then TimedOut else SourceFailed);
      }
    }

    method HandleWrite(n: nat)
      requires Valid()
      modifies this, stores, buf`filled
      ensures Valid() && State() == OnWrite(job, old(State()), n)
    {
      if !(phase.Pumping? || phase.Draining?) || pos >= buf.filled {
        return;
      }
      var left := buf.filled - pos;
      var k := if n == 0 then 1 else if n < left then n else left;
      WriteSome(k);
    }

    method WriteSome(k: nat)
      requires Valid() && pos + k <= buf.filled
      modifies this`temp, this`pos, this`gone, stores, buf`filled
      ensures Valid() && State() == WriteChunk(job, old(State()), k)
    {
      var chunk := buf.data[pos..pos + k];
      BufferedChunk(gone, buf.data[..], buf.filled, pos, k);
      AppendChunk(chunk);
      AdvanceBy(k);
    }

    method AppendChunk(chunk: seq<byte>)
      requires Valid()
      modifies this`temp, stores
      ensures Valid() && State() == Append(job, old(State()), chunk)
    {
      match job.target
      case ToFs(loc) =>
        var before := if loc in stores.fs then stores.fs[loc] else [];
        stores.fs := stores.fs[loc := before + chunk];
      case ToS3(_) =>
        temp := temp + chunk;
    }

    method AdvanceBy(k: nat)
      requires Valid() && pos + k <= buf.filled
      modifies this`pos, this`gone, buf`filled
      ensures Valid() && State() == Advance(old(State()), k)
    {
      pos := pos + k;
      if pos == buf.filled {
        gone := gone + buf.Filled();
        buf.SetFilled(0);
        pos := 0;
        assert gone + buf.Filled() == gone;
      }
    }

    method HandleFlush(ok: bool)
      requires Valid()
      modifies this
      ensures Valid() && State() == OnFlush(job, old(State()), ok)
    {
      if phase.Draining? && pos == buf.filled {
        if !ok {
          phase := Failed(WriteFailed);
        } else if job.target.ToFs? {
          phase := Done(reader.counter.value);
        } else {
          phase := Uploading;
        }
      }
    }

    method HandlePut(ok: bool, applied: bool)
      requires Valid()
      modifies this, stores
      ensures Valid() && State() == OnPut(job, old(State()), ok, applied)
    {
      if phase.Uploading? && job.target.ToS3? {
        if ok || applied {
          stores.s3 := stores.s3[job.target.key := temp];
        }
        phase := if ok then Done(reader.counter.value) else Failed(UploadFailed);
      }
    }

    method HandleWriteFault()
      requires Valid()
      modifies this
      ensures Valid() && State() == OnWriteFault(old(State()))
    {
      if phase.Pumping? || phase.Draining? {
        phase := Failed(WriteFailed);
      }
    }

    method HandleCancel(applied: bool)
      requires Valid()
      modifies this, stores
      ensures Valid() && State() == OnCancel(job, old(State()), applied)
    {
      if !Ended(phase) {
        if phase.Uploading? && job.target.ToS3? && applied {
          stores.s3 := stores.s3[job.target.key := temp];
        }
        phase := Cancelled;
      }
    }

    method Handle(e: Event)
      requires Valid()
      modifies this, stores, reader.inner, reader.counter, buf`filled, buf.data
      ensures Valid() && State() == Step(job, old(State()), e)
    {
      match e
      case Open(ok) => HandleOpen(ok);
      case PollSource(now, inner) => HandlePoll(now, inner);
      case Write(n) => HandleWrite(n);
      case WriteFault => HandleWriteFault();
      case Flush(ok) => HandleFlush(ok);
      case Put(ok, applied) => HandlePut(ok, applied);
      case Cancel(applied) => HandleCancel(applied);
    }
  }

  // What the reader appends does not depend on what was there before.
  lemma PollAppends(src: Source, max: nat, pulled: nat, counter: nat, gone: seq<byte>, filled: seq<byte>,
                    ready: Inner, space: nat)
    ensures
      var (r, outcome) := Poll(src, max, Limited(pulled, counter, filled), ready, space);
      Poll(src, max, Limited(pulled, counter, gone + filled), ready, space)
      == (Limited(r.pulled, r.counter, gone + r.exposed), outcome)
  {
    if ready.Ready? {
      Associative(gone, filled, Slice(src, pulled, Chunk(src, pulled, ready.n, space)));
    }
  }

  lemma BufferedChunk(gone: seq<byte>, data: seq<byte>, filled: nat, pos: nat, k: nat)
    requires pos + k <= filled <= |data|
    ensures data[pos..pos + k] == (gone + data[..filled])[|gone| + pos..|gone| + (pos + k)]
  {
  }

  /** A whole copy under any schedule of events: it ends as `Run` says and leaves the stores as `Run` says. */
  method StreamCopy(job: Job, stores: Stores, events: seq<Event>) returns (phase: Phase)
    modifies stores
    ensures
      var c := Run(job, Begin(World(old(stores.fs), old(stores.s3))), events);
      phase == c.phase && World(stores.fs, stores.s3) == c.world
  {
    var task := new CopyTask(job, stores);
    ghost var begin := task.State();
    var i := 0;
    while i < |events|
      invariant i <= |events| && task.Valid() && task.job == job && task.stores == stores
      invariant fresh(task) && fresh(task.reader.inner) && fresh(task.reader.counter)
      invariant fresh(task.buf) && fresh(task.buf.data)
      invariant task.State() == Run(job, begin, events[..i])
    {
      task.Handle(events[i]);
      assert events[..i + 1][..i] == events[..i];
      i := i + 1;
    }
    assert events[..i] == events;
    phase := task.phase;
  }
}
