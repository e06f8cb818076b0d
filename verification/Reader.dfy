/** The size cap on a copy: a reader that counts what it passes on and refuses to pass the cap. */
module Reader {
  import opened Strings

  newtype byte = x: int | 0 <= x < 256

  const U64_LIMIT: nat := 0x1_0000_0000_0000_0000

  // What a copy reads from. `length` is absent for a source that never ends.
  datatype Source = Source(at: nat -> byte, length: Option<nat>)

  function Slice(src: Source, from: nat, n: nat): (s: seq<byte>)
    ensures |s| == n && forall i :: 0 <= i < n ==> s[i] == src.at(from + i)
  {
    seq(n, i requires 0 <= i => src.at(from + i))
  }

  // The first `n` bytes of the source.
  function Prefix(src: Source, n: nat): seq<byte> {
    Slice(src, 0, n)
  }

  predicate Fits(src: Source, max: nat) {
    src.length.Some? && src.length.value <= max
  }

  // ---------- one poll ----------

  // What the wrapped reader does when polled: nothing yet, up to `n` bytes, or an error. Ready with no
  // byte is the end of the source.
  datatype Inner = Pending | Ready(n: nat) | Fault

  datatype Outcome = NotReady | Filled(n: nat) | CapError | SourceError

  // `pulled` bytes left the source, `counter` is the shared 64-bit count, `exposed` reached the consumer.
  datatype Limited = Limited(pulled: nat, counter: nat, exposed: seq<byte>)

  const START := Limited(0, 0, [])

  // How many bytes a ready source puts into `space`.
  function Chunk(src: Source, pulled: nat, n: nat, space: nat): (k: nat)
    ensures k <= space
    ensures src.length.Some? && pulled <= src.length.value ==> pulled + k <= src.length.value
  {
    var wanted := if n == 0 then 1 else n;
    var room := if wanted < space then wanted else space;
    if src.length.None? then room
    else
      var left := if pulled < src.length.value then src.length.value - pulled else 0;
      if left < room then left else room
  }

  // A source may hand out any number of bytes that it has and that there is room for.
  lemma AnyChunkComes(src: Source, pulled: nat, space: nat, k: nat)
    requires 1 <= k <= space && (src.length.Some? ==> pulled + k <= src.length.value)
    ensures Chunk(src, pulled, k, space) == k
  {
  }

  // The counter wraps like the atomic it is.
  function Poll(src: Source, max: nat, r: Limited, inner: Inner, space: nat): (Limited, Outcome) {
    if r.counter > max then (r, CapError)
    else
      match inner
      case Pending => (r, NotReady)
      case Fault => (r, SourceError)
      case Ready(n) =>
        var k := Chunk(src, r.pulled, n, space);
        var total := (r.counter + k) % U64_LIMIT;
        if total > max then (Limited(r.pulled + k, total, r.exposed), CapError)
        else (Limited(r.pulled + k, total, r.exposed + Slice(src, r.pulled, k)), Filled(k))
  }

  // ---------- runs of polls ----------

  datatype PollStep = PollStep(inner: Inner, space: nat)

  function Polls(src: Source, max: nat, r: Limited, steps: seq<PollStep>): Limited {
    if steps == [] then r
    else
      var last := steps[|steps| - 1];
      Poll(src, max, Polls(src, max, r, steps[..|steps| - 1]), last.inner, last.space).0
  }

  ghost predicate SpacesWithin(steps: seq<PollStep>, size: nat) {
    forall i :: 0 <= i < |steps| ==> steps[i].space <= size
  }

  /** What every run keeps. Until the first overrun the counter is what the consumer has; whatever
      happens, the consumer has a prefix of the source, no longer than the cap. */
  ghost predicate Capped(src: Source, max: nat, r: Limited) {
    && r.exposed == Prefix(src, |r.exposed|) && |r.exposed| <= max
    && r.counter == r.pulled < U64_LIMIT
    && (r.counter <= max ==> r.counter == |r.exposed|)
    && (src.length.Some? ==> r.pulled <= src.length.value)
  }

  lemma PollKeepsCapped(src: Source, max: nat, r: Limited, inner: Inner, space: nat)
    requires Capped(src, max, r) && max + space < U64_LIMIT
    ensures Capped(src, max, Poll(src, max, r, inner, space).0)
    ensures r.exposed <= Poll(src, max, r, inner, space).0.exposed
  {
    var (r', outcome) := Poll(src, max, r, inner, space);
    if outcome.Filled? {
      assert r'.exposed == Prefix(src, |r'.exposed|);
    }
  }

  /** What the outcome of a poll tells of the reader before and after it. */
  ghost predicate Gave(src: Source, max: nat, before: Limited, after: Limited, outcome: Outcome, space: nat) {
    && Capped(src, max, after) && before.exposed <= after.exposed
    && (outcome.NotReady? || outcome.SourceError? ==> after == before)
    && (outcome.CapError? ==> after.exposed == before.exposed && (before.counter <= max ==> !Fits(src, max)))
    && (outcome.Filled? ==>
          && after.counter <= max
          && |after.exposed| == |before.exposed| + outcome.n && outcome.n <= space
          && (outcome.n == 0 ==> after == before && src.length == Some(|before.exposed|)))
  }

  lemma PollGave(src: Source, max: nat, r: Limited, inner: Inner, space: nat)
    requires Capped(src, max, r) && max + space < U64_LIMIT && space > 0
    ensures
      var (r', outcome) := Poll(src, max, r, inner, space);
      Gave(src, max, r, r', outcome, space)
  {
    PollKeepsCapped(src, max, r, inner, space);
    var (r', outcome) := Poll(src, max, r, inner, space);
    if outcome == Filled(0) {
      assert r'.exposed == r.exposed;
    }
  }

  lemma {:induction false} RunIsCapped(src: Source, max: nat, size: nat, steps: seq<PollStep>)
    requires max + size < U64_LIMIT && SpacesWithin(steps, size)
    ensures Capped(src, max, Polls(src, max, START, steps))
  {
    if steps != [] {
      var n := |steps| - 1;
      RunIsCapped(src, max, size, steps[..n]);
      PollKeepsCapped(src, max, Polls(src, max, START, steps[..n]), steps[n].inner, steps[n].space);
    } else {
      assert START.exposed == Prefix(src, 0);
    }
  }

  /** After an overrun every poll fails, and the wrapped reader is not polled again. */
  lemma {:induction false} OverrunIsFinal(src: Source, max: nat, r: Limited, steps: seq<PollStep>)
    requires r.counter > max
    ensures Polls(src, max, r, steps) == r
    ensures forall inner, space :: Poll(src, max, Polls(src, max, r, steps), inner, space) == (r, CapError)
  {
    if steps != [] {
      OverrunIsFinal(src, max, r, steps[..|steps| - 1]);
    }
  }

  function OneByteAtATime(n: nat): (s: seq<PollStep>)
    ensures |s| == n && forall i :: 0 <= i < n ==> s[i] == PollStep(Ready(1), 1)
  {
    seq(n, _ => PollStep(Ready(1), 1))
  }

  lemma {:induction false} OneByteAtATimeFills(src: Source, max: nat, n: nat)
    requires src.length.None? && n <= max < U64_LIMIT
    ensures
      var r := Polls(src, max, START, OneByteAtATime(n));
      r.pulled == r.counter == |r.exposed| == n
  {
    if n > 0 {
      OneByteAtATimeFills(src, max, n - 1);
      assert OneByteAtATime(n)[..n - 1] == OneByteAtATime(n - 1);
      OneByteMore(src, max, Polls(src, max, START, OneByteAtATime(n - 1)));
    }
  }

  lemma OneByteMore(src: Source, max: nat, r: Limited)
    requires src.length.None? && r.pulled == r.counter == |r.exposed| < max < U64_LIMIT
    ensures
      var r' := Poll(src, max, r, Ready(1), 1).0;
      r'.pulled == r'.counter == |r'.exposed| == |r.exposed| + 1
  {
  }

  /** The cap holds for buffers of `size` bytes if and only if cap and buffer together stay below the
      range of the counter. Beyond that, a counter at the cap wraps around and lets a buffer through. */
  lemma CapHoldsExactly(src: Source, max: nat, size: nat)
    requires src.length.None? && max < U64_LIMIT && 1 <= size < U64_LIMIT
    ensures (forall steps :: SpacesWithin(steps, size) ==> |Polls(src, max, START, steps).exposed| <= max)
            <==> max + size < U64_LIMIT
  {
    if max + size < U64_LIMIT {
      forall steps | SpacesWithin(steps, size)
        ensures |Polls(src, max, START, steps).exposed| <= max
      {
        RunIsCapped(src, max, size, steps);
      }
    } else {
      var steps := OverrunSteps(src, max, size);
    }
  }

  lemma OverrunSteps(src: Source, max: nat, size: nat) returns (steps: seq<PollStep>)
    requires src.length.None? && max < U64_LIMIT && 1 <= size < U64_LIMIT <= max + size
    ensures SpacesWithin(steps, size) && |Polls(src, max, START, steps).exposed| == max + size
  {
    var slow, last := OneByteAtATime(max), PollStep(Ready(size), size);
    steps := slow + [last];
    OneByteAtATimeFills(src, max, max);
    assert steps[..|steps| - 1] == slow && steps[|steps| - 1] == last;
    WrappedPoll(src, max, size, Polls(src, max, START, slow));
  }

  lemma WrappedPoll(src: Source, max: nat, size: nat, r: Limited)
    requires src.length.None? && max < U64_LIMIT && 1 <= size < U64_LIMIT <= max + size
    requires r.counter == |r.exposed| == max
    ensures |Poll(src, max, r, Ready(size), size).0.exposed| == max + size
  {
    WrappedTotal(max, size);
  }

  lemma WrappedTotal(max: nat, size: nat)
    requires max < U64_LIMIT && size < U64_LIMIT <= max + size
    ensures (max + size) % U64_LIMIT < max
  {
    assert max + size == U64_LIMIT + (max + size - U64_LIMIT);
  }
}
