/** The reader as the program keeps it: a buffer with a movable filled mark, a counter shared with the
    copy, and the wrapped reader that advances through the source. */
module LimitedReader {
  import opened Strings
  import opened Reader

  class ReadBuf {
    const data: array<byte>
    var filled: nat

    ghost predicate Valid()
      reads this
    {
      filled <= data.Length
    }

    ghost function Filled(): seq<byte>
      reads this, data
      requires Valid()
    {
      data[..filled]
    }

    constructor (size: nat)
      ensures Valid() && fresh(data) && data.Length == size && Filled() == []
    {
      data := new byte[size](_ => 0);
      filled := 0;
    }

    method SetFilled(n: nat)
      requires Valid() && n <= data.Length
      modifies this`filled
      ensures Valid() && filled == n
    {
      filled := n;
    }
  }

  class SharedCounter {
    var value: nat

    constructor ()
      ensures value == 0
    {
      value := 0;
    }

    method FetchAdd(n: nat) returns (before: nat)
      modifies this
      ensures before == old(value) && value == (old(value) + n) % U64_LIMIT
    {
      before := value;
      value := (value + n) % U64_LIMIT;
    }
  }

  // The wrapped reader, at its position in the source.
  class SourceReader {
    const src: Source
    var pulled: nat

    constructor (src: Source)
      ensures this.src == src && pulled == 0
    {
      this.src := src;
      pulled := 0;
    }

    // A ready poll puts some bytes behind the filled mark and moves the mark.
    method PollReady(n: nat, buf: ReadBuf)
      requires buf.Valid()
      modifies this`pulled, buf`filled, buf.data
      ensures buf.Valid()
      ensures
        var k := Chunk(src, old(pulled), n, buf.data.Length - old(buf.filled));
        pulled == old(pulled) + k && buf.Filled() == old(buf.Filled()) + Slice(src, old(pulled), k)
    {
      var k := Chunk(src, pulled, n, buf.data.Length - buf.filled);
      var start := buf.filled;
      var i := 0;
      while i < k
        invariant i <= k
        invariant buf.data[..start + i] == old(buf.Filled()) + Slice(src, old(pulled), i)
        modifies buf.data
      {
        buf.data[start + i] := src.at(pulled + i);
        i := i + 1;
      }
      buf.filled := start + k;
      pulled := pulled + k;
    }
  }

  class CappedReader {
    const inner: SourceReader
    const max: nat
    const counter: SharedCounter

    constructor (inner: SourceReader, max: nat)
      ensures this.inner == inner && this.max == max
      ensures fresh(counter) && counter.value == 0
    {
      this.inner := inner;
      this.max := max;
      counter := new SharedCounter();
    }

    /** One poll does to the buffer, the counter and the source what `Reader.Poll` says. On an overrun
        the filled mark goes back to where it was. */
    method PollRead(ready: Inner, buf: ReadBuf) returns (outcome: Outcome)
      requires buf.Valid()
      modifies inner`pulled, counter, buf`filled, buf.data
      ensures buf.Valid() && buf.filled >= old(buf.filled)
      ensures
        var r := Limited(old(inner.pulled), old(counter.value), old(buf.Filled()));
        (Limited(inner.pulled, counter.value, buf.Filled()), outcome)
        == Poll(inner.src, max, r, ready, buf.data.Length - old(buf.filled))
    {
      if counter.value > max {
        return CapError;
      }
      var before := buf.filled;
      match ready
      case Pending =>
        outcome := NotReady;
      case Fault =>
        outcome := SourceError;
      case Ready(n) =>
        inner.PollReady(n, buf);
        var added := buf.filled - before;
        var atFirst := counter.FetchAdd(added);
        var newTotal := (atFirst + added) % U64_LIMIT;
        if newTotal > max {
          buf.SetFilled(before);
          assert buf.Filled() == old(buf.Filled());
          return CapError;
        }
        outcome := Filled(added);
    }
  }
}
