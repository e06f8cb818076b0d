/** Trace context: the `traceparent` header read and written as section 3.2 of the W3C Trace Context
    recommendation lays it out, and the generator behind fresh identifiers. */
module Trace {
  import opened Strings

  // ---------- the header ----------

  predicate IsHexDigit(c: char) {
    '0' <= c <= '9' || 'a' <= c <= 'f' || 'A' <= c <= 'F'
  }

  predicate IsLowerHex(c: char) {
    '0' <= c <= '9' || 'a' <= c <= 'f'
  }

  function LowerChar(c: char): char {
    if 'A' <= c <= 'Z' then c - 'A' + 'a' else c
  }

  function Lower(s: string): (r: string)
    ensures |r| == |s| && forall i :: 0 <= i < |s| ==> r[i] == LowerChar(s[i])
  {
    seq(|s|, i requires 0 <= i < |s| => LowerChar(s[i]))
  }

  // What reads as text in a header field: visible ASCII, spaces and tabs.
  predicate IsVisible(c: char) {
    ' ' <= c <= '~' || c == '\t'
  }

  // A header that the service takes its trace id from.
  predicate Usable(header: string) {
    var parts := Split(header, '-');
    AllChars(header, IsVisible) && |parts| == 4 && |parts[1]| == 32 && AllChars(parts[1], IsHexDigit)
  }

  /** The trace id of a request: from its header if that is usable, else a fresh one. */
  function ExtractOrGenerate(header: Option<string>, minted: string): string {
    if header.Some? && Usable(header.value) then Lower(Split(header.value, '-')[1]) else minted
  }

  function TraceParent(traceId: string, spanId: string): string {
    "00-" + traceId + "-" + spanId + "-01"
  }

  predicate IsTraceId(s: string) {
    |s| == 32 && AllChars(s, IsLowerHex)
  }

  predicate IsSpanId(s: string) {
    |s| == 16 && AllChars(s, IsLowerHex)
  }

  lemma {:induction false} LowerOfLower(s: string)
    requires AllChars(s, IsLowerHex)
    ensures Lower(s) == s
  {
    assert forall i :: 0 <= i < |s| ==> s[i] in s && IsLowerHex(s[i]);
  }

  lemma PartsOfTraceParent(traceId: string, spanId: string)
    requires '-' !in traceId && '-' !in spanId
    ensures Split(TraceParent(traceId, spanId), '-') == ["00", traceId, spanId, "01"]
  {
    FourParts("00", traceId, spanId, "01");
    assert TraceParent(traceId, spanId) == "00" + ['-'] + (traceId + ['-'] + (spanId + ['-'] + "01"));
  }

  lemma FourParts(a: string, b: string, c: string, d: string)
    requires '-' !in a && '-' !in b && '-' !in c && '-' !in d
    ensures Split(a + ['-'] + (b + ['-'] + (c + ['-'] + d)), '-') == [a, b, c, d]
  {
    SplitAtSeparator(a, '-', b + ['-'] + (c + ['-'] + d));
    SplitAtSeparator(b, '-', c + ['-'] + d);
    SplitAtSeparator(c, '-', d);
    SplitWithoutSeparator(a, '-');
    SplitWithoutSeparator(b, '-');
    SplitWithoutSeparator(c, '-');
    SplitWithoutSeparator(d, '-');
  }

  /** Whatever a request carries, its trace id is 32 lowercase hexadecimal digits. */
  lemma ExtractYieldsTraceId(header: Option<string>, minted: string)
    requires IsTraceId(minted)
    ensures IsTraceId(ExtractOrGenerate(header, minted))
  {
    if header.Some? && Usable(header.value) {
      var id := Split(header.value, '-')[1];
      assert forall i :: 0 <= i < |id| ==> id[i] in id && IsHexDigit(id[i]);
      assert forall c :: c in Lower(id) ==> IsLowerHex(c);
    }
  }

  /** Reading an emitted header gives back the trace id in it. */
  lemma EmitThenExtract(traceId: string, spanId: string, minted: string)
    requires IsTraceId(traceId) && IsSpanId(spanId)
    ensures ExtractOrGenerate(Some(TraceParent(traceId, spanId)), minted) == traceId
  {
    PartsOfTraceParent(traceId, spanId);
    TraceParentIsVisible(traceId, spanId);
    LowerOfLower(traceId);
  }

  lemma TraceParentIsVisible(traceId: string, spanId: string)
    requires AllChars(traceId, IsLowerHex) && AllChars(spanId, IsLowerHex)
    ensures AllChars(TraceParent(traceId, spanId), IsVisible)
  {
    forall c | c in TraceParent(traceId, spanId)
      ensures IsVisible(c)
    {
      assert c in "00-" || c in traceId || c == '-' || c in spanId || c in "-01";
    }
  }

  /** Which headers give an id, and which: four parts between dashes, the second of 32 hexadecimal digits,
      and visible ASCII throughout. The id is the second part with small letters. */
  lemma ExtractIsExact(header: string, a: string, b: string, c: string, d: string, minted: string)
    requires '-' !in a && '-' !in b && '-' !in c && '-' !in d
    requires header == a + ['-'] + (b + ['-'] + (c + ['-'] + d))
    ensures
      var id := ExtractOrGenerate(Some(header), minted);
      if && (forall i :: 0 <= i < |header| ==> 32 <= header[i] as int <= 126 || header[i] as int == 9)
         && |b| == 32
         && (forall i :: 0 <= i < |b| ==>
               var n := b[i] as int; 48 <= n <= 57 || 65 <= n <= 70 || 97 <= n <= 102)
      then |id| == 32 && forall i :: 0 <= i < 32 ==>
             var n := b[i] as int; id[i] as int == if 65 <= n <= 70 then n + 32 else n
      else id == minted
  {
    FourParts(a, b, c, d);
    VisibleByCode(header);
    HexByCode(b);
    if AllChars(b, IsHexDigit) {
      LowerByCode(b);
    }
  }

  lemma VisibleByCode(s: string)
    ensures AllChars(s, IsVisible) <==> forall i :: 0 <= i < |s| ==> 32 <= s[i] as int <= 126 || s[i] as int == 9
  {
    assert forall i :: 0 <= i < |s| ==> s[i] in s;
    forall c | c in s
      ensures IsVisible(c) <==> 32 <= c as int <= 126 || c as int == 9
    {
    }
  }

  lemma HexByCode(s: string)
    ensures AllChars(s, IsHexDigit) <==>
              forall i :: 0 <= i < |s| ==>
                var n := s[i] as int; 48 <= n <= 57 || 65 <= n <= 70 || 97 <= n <= 102
  {
    assert forall i :: 0 <= i < |s| ==> s[i] in s;
    forall c | c in s
      ensures IsHexDigit(c) <==> var n := c as int; 48 <= n <= 57 || 65 <= n <= 70 || 97 <= n <= 102
    {
    }
  }

  lemma LowerByCode(s: string)
    requires AllChars(s, IsHexDigit)
    ensures forall i :: 0 <= i < |s| ==>
              var n := s[i] as int; Lower(s)[i] as int == if 65 <= n <= 70 then n + 32 else n
  {
    assert forall i :: 0 <= i < |s| ==> s[i] in s;
  }

  /** Without a header, or with one that has not three dashes, the id is a fresh one. */
  lemma OtherHeadersGiveNone(header: Option<string>, minted: string)
    requires header.Some? ==> multiset(header.value)['-'] != 3
    ensures ExtractOrGenerate(header, minted) == minted
  {
    if header.Some? {
      PartsAreCounted(header.value);
    }
  }

  lemma {:induction false} PartsAreCounted(s: string)
    ensures |Split(s, '-')| == multiset(s)['-'] + 1
  {
    if s != [] {
      PartsAreCounted(s[1..]);
      assert s == [s[0]] + s[1..];
    }
  }

  // One service of a chain: the span id it draws, and the trace id it would fall back to.
  datatype Hop = Hop(spanId: string, minted: string)

  // The `x-trace-id` of every service when each passes on the header the one before emitted.
  function TraceIds(header: Option<string>, hops: seq<Hop>): seq<string>
    decreases |hops|
  {
    if hops == [] then []
    else
      var id := ExtractOrGenerate(header, hops[0].minted);
      [id] + TraceIds(Some(TraceParent(id, hops[0].spanId)), hops[1..])
  }

  /** Along a chain of services every one reports the trace id of the first. */
  lemma {:induction false} HopsShareTraceId(header: Option<string>, hops: seq<Hop>)
    requires forall i :: 0 <= i < |hops| ==> IsSpanId(hops[i].spanId) && IsTraceId(hops[i].minted)
    ensures |TraceIds(header, hops)| == |hops|
    ensures forall i :: 0 <= i < |hops| ==> TraceIds(header, hops)[i] == ExtractOrGenerate(header, hops[0].minted)
    decreases |hops|
  {
    if |hops| > 0 {
      var id := ExtractOrGenerate(header, hops[0].minted);
      ExtractYieldsTraceId(header, hops[0].minted);
      HopsShareTraceId(Some(TraceParent(id, hops[0].spanId)), hops[1..]);
      if |hops| > 1 {
        EmitThenExtract(id, hops[0].spanId, hops[1].minted);
      }
    }
  }

  // ---------- the generator ----------

  // Machine words by their bits, the lowest first.
  type Word = s: seq<bool> | |s| == 64 witness seq(64, _ => false)
  datatype Octet = Octet(b0: bool, b1: bool, b2: bool, b3: bool, b4: bool, b5: bool, b6: bool, b7: bool)

  const ZERO: Word := seq(64, _ => false)
  const ZERO_OCTET := Octet(false, false, false, false, false, false, false, false)

  // `s ^ (s << k)` and `s ^ (s >> k)`.
  function XorLeft(s: Word, k: nat): Word {
    seq(64, i requires 0 <= i < 64 => s[i] != (if i >= k then s[i - k] else false))
  }

  function XorRight(s: Word, k: nat): Word {
    seq(64, i requires 0 <= i < 64 => s[i] != (if i + k < 64 then s[i + k] else false))
  }

  function Xorshift(s: Word): Word {
    XorLeft(XorRight(XorLeft(s, 13), 7), 17)
  }

  // Bit `i` of a word; none outside of it.
  function Bit(s: Word, i: int): bool {
    0 <= i < 64 && s[i]
  }

  function Odd(a: bool, b: bool, c: bool, d: bool): bool {
    (a != b) != (c != d)
  }

  /** The shifts by 13, 7 and 17 taken together: which bits of a state make up each bit of the next. */
  lemma XorshiftTaps(s: Word, i: nat)
    requires i < 64
    ensures Xorshift(s)[i] == (Odd(Bit(s, i), Bit(s, i - 13), Bit(s, i + 7), i < 57 && Bit(s, i - 6))
                               != (i >= 17 && Odd(Bit(s, i - 17), Bit(s, i - 30), Bit(s, i - 10), Bit(s, i - 23))))
  {
    var a := XorLeft(s, 13);
    var b := XorRight(a, 7);
    assert forall j :: 0 <= j < 64 ==> a[j] == (Bit(s, j) != Bit(s, j - 13));
    assert b[i] == (a[i] != if i + 7 < 64 then a[i + 7] else false);
    if i >= 17 {
      assert b[i - 17] == (a[i - 17] != a[i - 10]);
    }
    assert Xorshift(s)[i] == (b[i] != if i >= 17 then b[i - 17] else false);
  }

  function StateAfter(seed: Word, draws: nat): Word {
    if draws == 0 then seed else Xorshift(StateAfter(seed, draws - 1))
  }

  function LowByte(s: Word): Octet {
    Octet(s[0], s[1], s[2], s[3], s[4], s[5], s[6], s[7])
  }

  function Tabulate<T>(g: nat -> T, n: nat): (s: seq<T>)
    ensures |s| == n && forall i :: 0 <= i < n ==> s[i] == g(i)
  {
    seq(n, i requires 0 <= i => g(i))
  }

  lemma TabulateGrows<T>(g: nat -> T, n: nat, last: T)
    requires last == g(n)
    ensures Tabulate(g, n + 1) == Tabulate(g, n) + [last]
  {
  }

  function States(seed: Word): nat -> Word {
    (i: nat) => StateAfter(seed, i)
  }

  // The low byte of each of the states after the first.
  function LowBytes(states: nat -> Word): nat -> Octet {
    (i: nat) => LowByte(states(i + 1))
  }

  function Draw(seed: Word, n: nat): (bytes: seq<Octet>)
    ensures |bytes| == n
  {
    Tabulate(LowBytes(States(seed)), n)
  }

  method RandomBytes(seed: Word, n: nat) returns (out: array<Octet>)
    ensures fresh(out) && out[..] == Draw(seed, n)
  {
    var state := seed;
    out := new Octet[n](_ => ZERO_OCTET);
    for i := 0 to n
      invariant state == StateAfter(seed, i)
      invariant out[..i] == Draw(seed, i)
    {
      var byte;
      state, byte := NextByte(state, seed, i);
      Put(out, i, byte);
    }
    assert out[..] == out[..n];
  }

  method Put(out: array<Octet>, i: nat, byte: Octet)
    requires i < out.Length
    modifies out
    ensures out[..i + 1] == old(out[..i]) + [byte]
  {
    out[i] := byte;
  }

  method NextByte(s: Word, ghost seed: Word, ghost i: nat) returns (state: Word, byte: Octet)
    requires s == StateAfter(seed, i)
    ensures state == StateAfter(seed, i + 1) && Draw(seed, i + 1) == Draw(seed, i) + [byte]
  {
    state := NextState(s, seed, i);
    byte := LowByte(state);
    StateAt(seed, i + 1);
    LowBytesGrow(States(seed), i, state, byte);
  }

  lemma StateAt(seed: Word, i: nat)
    ensures States(seed)(i) == StateAfter(seed, i)
  {
  }

  lemma DrawAt(seed: Word, n: nat, i: nat)
    requires i < n
    ensures Draw(seed, n)[i] == LowByte(StateAfter(seed, i + 1))
  {
    StateAt(seed, i + 1);
    LowBytesAt(States(seed), n, i, StateAfter(seed, i + 1));
  }

  lemma LowBytesAt(states: nat -> Word, n: nat, i: nat, state: Word)
    requires i < n && state == states(i + 1)
    ensures Tabulate(LowBytes(states), n)[i] == LowByte(state)
  {
  }

  lemma LowBytesGrow(states: nat -> Word, i: nat, state: Word, byte: Octet)
    requires state == states(i + 1) && byte == LowByte(state)
    ensures Tabulate(LowBytes(states), i + 1) == Tabulate(LowBytes(states), i) + [byte]
  {
    TabulateGrows(LowBytes(states), i, byte);
  }

  method NextState(s: Word, ghost seed: Word, ghost i: nat) returns (state: Word)
    requires s == StateAfter(seed, i)
    ensures state == StateAfter(seed, i + 1)
  {
    state := s;
    state := XorLeft(state, 13);
    state := XorRight(state, 7);
    state := XorLeft(state, 17);
  }

  // ---------- what the bytes tell of the seed ----------

  // The lowest `n` bits are the same.
  ghost predicate Agree(s: Word, t: Word, n: nat) {
    forall i :: 0 <= i < n && i < 64 ==> s[i] == t[i]
  }

  lemma {:induction false} LeftAgrees(s: Word, t: Word, k: nat, n: nat)
    requires k >= 1 && Agree(XorLeft(s, k), XorLeft(t, k), n)
    ensures Agree(s, t, n)
  {
    if n > 0 {
      LeftAgrees(s, t, k, n - 1);
      if n <= 64 {
        assert XorLeft(s, k)[n - 1] == XorLeft(t, k)[n - 1];
      }
    }
  }

  // A right shift by seven, the lowest byte known, tells seven bits more.
  lemma {:induction false} RightAgrees(s: Word, t: Word, n: nat)
    requires Agree(s, t, 8) && Agree(XorRight(s, 7), XorRight(t, 7), n)
    ensures Agree(s, t, n + 7)
  {
    if n > 0 {
      RightAgrees(s, t, n - 1);
      if n + 6 < 64 {
        assert XorRight(s, 7)[n - 1] == XorRight(t, 7)[n - 1];
      }
    }
  }

  lemma XorshiftAgrees(s: Word, t: Word, n: nat)
    requires Agree(s, t, 8) && Agree(Xorshift(s), Xorshift(t), n)
    ensures Agree(s, t, n + 7)
  {
    var a, b := XorLeft(s, 13), XorLeft(t, 13);
    LeftAgrees(XorRight(a, 7), XorRight(b, 7), 17, n);
    RightAgrees(a, b, n);
    LeftAgrees(s, t, 13, n + 7);
  }

  // Draw `i` of two seeds is the same.
  ghost predicate SameDraw(s: Word, t: Word, i: nat) {
    LowByte(StateAfter(s, i)) == LowByte(StateAfter(t, i))
  }

  lemma SameDraws(s: Word, t: Word, n: nat)
    requires Draw(s, n) == Draw(t, n)
    ensures forall i: nat :: 1 <= i <= n ==> SameDraw(s, t, i)
  {
    forall i: nat | 1 <= i <= n
      ensures SameDraw(s, t, i)
    {
      DrawAt(s, n, i - 1);
      DrawAt(t, n, i - 1);
    }
  }

  lemma SameDrawAgrees(s: Word, t: Word, i: nat)
    requires SameDraw(s, t, i)
    ensures Agree(StateAfter(s, i), StateAfter(t, i), 8)
  {
    LowBytesAgree(StateAfter(s, i), StateAfter(t, i));
  }

  lemma LowBytesAgree(s: Word, t: Word)
    requires LowByte(s) == LowByte(t)
    ensures Agree(s, t, 8)
  {
  }

  lemma FirstState(s: Word)
    ensures StateAfter(s, 1) == Xorshift(s)
  {
    assert StateAfter(s, 0) == s;
  }

  lemma AgreeEverywhere(s: Word, t: Word)
    requires Agree(s, t, 64)
    ensures s == t
  {
  }

  // Each byte tells seven bits more of the first state.
  lemma {:induction false} BytesTellBits(s: Word, t: Word, from: nat, more: nat)
    requires forall i: nat :: from <= i <= from + more ==> SameDraw(s, t, i)
    ensures Agree(StateAfter(s, from), StateAfter(t, from), 8 + 7 * more)
    decreases more
  {
    var x, y := StateAfter(s, from), StateAfter(t, from);
    SameDrawAgrees(s, t, from);
    if more > 0 {
      BytesTellBits(s, t, from + 1, more - 1);
      XorshiftAgrees(x, y, 8 + 7 * (more - 1));
    }
  }

  lemma {:induction false} RightIsInjective(s: Word, t: Word, k: nat, n: nat)
    requires k >= 1 && n <= 64 && XorRight(s, k) == XorRight(t, k)
    ensures forall i :: n <= i < 64 ==> s[i] == t[i]
    decreases 64 - n
  {
    if n < 64 {
      RightIsInjective(s, t, k, n + 1);
      assert XorRight(s, k)[n] == XorRight(t, k)[n];
    }
  }

  lemma XorshiftIsInjective(s: Word, t: Word)
    requires Xorshift(s) == Xorshift(t)
    ensures s == t
  {
    var a, b := XorLeft(s, 13), XorLeft(t, 13);
    LeftAgrees(XorRight(a, 7), XorRight(b, 7), 17, 64);
    assert XorRight(a, 7) == XorRight(b, 7);
    RightIsInjective(a, b, 7, 0);
    assert a == b;
    LeftAgrees(s, t, 13, 64);
  }

  /** Nine bytes or more give away the seed: two seeds never yield the same trace id of sixteen. */
  lemma DrawIsInjective(s: Word, t: Word, n: nat)
    requires n >= 9 && Draw(s, n) == Draw(t, n)
    ensures s == t
  {
    SameDraws(s, t, n);
    BytesTellBits(s, t, 1, 8);
    AgreeEverywhere(StateAfter(s, 1), StateAfter(t, 1));
    FirstState(s);
    FirstState(t);
    XorshiftIsInjective(s, t);
  }

  // The lowest `n` bits are zero.
  predicate LowZero(s: Word, n: nat) {
    forall i :: 0 <= i < n && i < 64 ==> !s[i]
  }

  // A right shift by seven draws seven bits down, and the left shifts draw none.
  lemma LowZeroShrinks(s: Word, n: nat)
    requires LowZero(s, n + 7)
    ensures LowZero(Xorshift(s), n)
  {
    var a := XorLeft(s, 13);
    assert LowZero(a, n + 7);
    assert LowZero(XorRight(a, 7), n);
  }

  // With all 64 bits zero the state never leaves zero; with fewer, each draw costs seven.
  lemma {:induction false} LowZeroStays(s: Word, n: nat, i: nat)
    requires LowZero(Xorshift(s), n + 7 * i)
    ensures LowZero(StateAfter(s, i + 1), n)
    decreases i
  {
    if i == 0 {
      FirstState(s);
    } else {
      LowZeroStays(s, n + 7, i - 1);
      LowZeroShrinks(StateAfter(s, i), n);
    }
  }

  lemma ZeroWord(s: Word)
    ensures LowZero(s, 64) <==> s == ZERO
  {
  }

  ghost predicate AllZero(bytes: seq<Octet>) {
    forall i :: 0 <= i < |bytes| ==> bytes[i] == ZERO_OCTET
  }

  lemma ZeroStays(n: nat)
    ensures LowZero(StateAfter(ZERO, n), 64)
  {
    if n == 0 {
      assert StateAfter(ZERO, 0) == ZERO;
    } else {
      ZeroStays(n - 1);
      assert LowZero(StateAfter(ZERO, n - 1), 64 + 7);
      LowZeroShrinks(StateAfter(ZERO, n - 1), 64);
    }
  }

  /** When the generator yields nothing but zeros: `n` bytes are zero exactly when the lowest `7 n + 1` bits
      of the first state behind the seed are, or all of them if there are no more than that. */
  lemma ZeroBytes(seed: Word, n: nat)
    requires n >= 1
    ensures AllZero(Draw(seed, n)) <==> LowZero(Xorshift(seed), 7 * n + 1)
  {
    if LowZero(Xorshift(seed), 7 * n + 1) {
      LowZeroYieldsZeros(seed, n);
    }
    if AllZero(Draw(seed, n)) {
      ZerosTellLowZero(seed, n);
    }
  }

  lemma LowZeroYieldsZeros(seed: Word, n: nat)
    requires LowZero(Xorshift(seed), 7 * n + 1)
    ensures AllZero(Draw(seed, n))
  {
    forall i | 0 <= i < n
      ensures Draw(seed, n)[i] == ZERO_OCTET
    {
      DrawAt(seed, n, i);
      LowZeroStays(seed, 8, i);
    }
  }

  lemma ZerosTellLowZero(seed: Word, n: nat)
    requires n >= 1 && AllZero(Draw(seed, n))
    ensures LowZero(Xorshift(seed), 7 * n + 1)
  {
    ZeroDraws(n);
    assert Draw(seed, n) == Draw(ZERO, n);
    SameDraws(seed, ZERO, n);
    BytesTellBits(seed, ZERO, 1, n - 1);
    ZeroStays(1);
    FirstState(seed);
    AgreeWithZero(Xorshift(seed), StateAfter(ZERO, 1), 7 * n + 1);
  }

  lemma ZeroDraws(n: nat)
    ensures AllZero(Draw(ZERO, n))
  {
    ZeroStays(1);
    FirstState(ZERO);
    LowZeroYieldsZeros(ZERO, n);
  }

  lemma AgreeWithZero(s: Word, zero: Word, n: nat)
    requires LowZero(zero, 64) && Agree(s, zero, n)
    ensures LowZero(s, n)
  {
  }

  /** The generator yields a trace id of zeros alone, which the recommendation forbids, from the seed
      zero and from no other. */
  lemma ZeroTraceId(seed: Word, n: nat)
    requires n >= 9
    ensures AllZero(Draw(seed, n)) <==> seed == ZERO
  {
    ZeroBytes(seed, n);
    ZeroWord(Xorshift(seed));
    ZeroStays(1);
    ZeroWord(StateAfter(ZERO, 1));
    FirstState(ZERO);
    if Xorshift(seed) == ZERO {
      XorshiftIsInjective(seed, ZERO);
    }
  }

  /** A span id of zeros alone, forbidden as well, comes from other seeds too. */
  lemma ZeroSpanId() returns (seed: Word)
    ensures seed != ZERO && AllZero(Draw(seed, 8))
  {
    var first: Word := seq(64, i => i == 63);
    seed := Unxorshift(first);
    SuccessorOfUnxorshift(first);
    ZeroBytes(seed, 8);
    ZeroTraceId(seed, 9);
    ZeroBytes(seed, 9);
    assert first[63];
  }

  /** Nine bytes, and no fewer, determine their seed. */
  lemma NineBytesDetermine(n: nat)
    ensures (forall s, t :: Draw(s, n) == Draw(t, n) ==> s == t) <==> n >= 9
  {
    if n >= 9 {
      forall s, t | Draw(s, n) == Draw(t, n)
        ensures s == t
      {
        DrawIsInjective(s, t, n);
      }
    } else {
      var seed := ZeroSpanId();
      AllZeroShorter(seed, 8, n);
      ZeroDraws(n);
      assert Draw(seed, n) == Draw(ZERO, n);
    }
  }

  lemma AllZeroShorter(seed: Word, n: nat, m: nat)
    requires m <= n && AllZero(Draw(seed, n))
    ensures AllZero(Draw(seed, m))
  {
    forall i | 0 <= i < m
      ensures Draw(seed, m)[i] == ZERO_OCTET
    {
      DrawAt(seed, m, i);
      DrawAt(seed, n, i);
    }
  }

  /** The lowest bit of every byte but the first follows from the byte before, so a span id of eight
      bytes carries seven bits less than its length. */
  lemma LowBitIsForetold(seed: Word, n: nat, i: nat)
    requires i + 1 < n
    ensures Draw(seed, n)[i + 1].b0 == (Draw(seed, n)[i].b0 != Draw(seed, n)[i].b7)
  {
    var s := StateAfter(seed, i + 1);
    var a := XorLeft(s, 13);
    var b := XorRight(a, 7);
    assert a[0] == s[0] && a[7] == s[7];
    assert b[0] == (a[0] != a[7]);
    assert StateAfter(seed, i + 2) == XorLeft(b, 17);
    DrawAt(seed, n, i);
    DrawAt(seed, n, i + 1);
  }

  // ---------- the step is a permutation ----------

  function UnleftBit(s: Word, k: nat, i: nat): bool
    requires k >= 1 && i < 64
  {
    s[i] != (if i >= k then UnleftBit(s, k, i - k) else false)
  }

  function UnrightBit(s: Word, k: nat, i: nat): bool
    requires k >= 1 && i < 64
    decreases 64 - i
  {
    s[i] != (if i + k < 64 then UnrightBit(s, k, i + k) else false)
  }

  function Unleft(s: Word, k: nat): Word
    requires k >= 1
  {
    seq(64, i requires 0 <= i < 64 => UnleftBit(s, k, i))
  }

  function Unright(s: Word, k: nat): Word
    requires k >= 1
  {
    seq(64, i requires 0 <= i < 64 => UnrightBit(s, k, i))
  }

  function Unxorshift(s: Word): Word {
    Unleft(Unright(Unleft(s, 17), 7), 13)
  }

  /** One step of the generator permutes the 64-bit states: no two states share a successor, and every
      state is one. */
  lemma XorshiftIsBijective(s: Word)
    ensures Xorshift(Unxorshift(s)) == s && Unxorshift(Xorshift(s)) == s
  {
    SuccessorOfUnxorshift(s);
    SuccessorOfUnxorshift(Xorshift(s));
    XorshiftIsInjective(Unxorshift(Xorshift(s)), s);
  }

  lemma SuccessorOfUnxorshift(s: Word)
    ensures Xorshift(Unxorshift(s)) == s
  {
    var c := Unleft(s, 17);
    var b := Unright(c, 7);
    assert XorLeft(Unleft(b, 13), 13) == b;
    assert XorRight(b, 7) == c;
    assert XorLeft(c, 17) == s;
  }

  // ---------- hexadecimal ----------

  const DIGITS: string := "0123456789abcdef"

  function Nibble(b0: bool, b1: bool, b2: bool, b3: bool): (n: nat)
    ensures n < 16
  {
    (if b0 then 1 else 0) + (if b1 then 2 else 0) + (if b2 then 4 else 0) + if b3 then 8 else 0
  }

  function HexByte(b: Octet): string {
    [DIGITS[Nibble(b.b4, b.b5, b.b6, b.b7)], DIGITS[Nibble(b.b0, b.b1, b.b2, b.b3)]]
  }

  function Hex(bytes: seq<Octet>): string {
    if bytes == [] then "" else Hex(bytes[..|bytes| - 1]) + HexByte(bytes[|bytes| - 1])
  }

  lemma {:induction false} HexShape(bytes: seq<Octet>)
    ensures |Hex(bytes)| == 2 * |bytes| && AllChars(Hex(bytes), IsLowerHex)
  {
    if bytes != [] {
      HexShape(bytes[..|bytes| - 1]);
      HexByteShape(bytes[|bytes| - 1]);
    }
  }

  lemma HexByteShape(b: Octet)
    ensures AllChars(HexByte(b), IsLowerHex)
  {
    assert forall i :: 0 <= i < 16 ==> IsLowerHex(DIGITS[i]);
  }

  lemma HexByteIsInjective(a: Octet, b: Octet)
    requires HexByte(a) == HexByte(b)
    ensures a == b
  {
    assert HexByte(a)[0] == HexByte(b)[0] && HexByte(a)[1] == HexByte(b)[1];
    DigitsDiffer(Nibble(a.b4, a.b5, a.b6, a.b7), Nibble(b.b4, b.b5, b.b6, b.b7));
    DigitsDiffer(Nibble(a.b0, a.b1, a.b2, a.b3), Nibble(b.b0, b.b1, b.b2, b.b3));
  }

  lemma DigitsDiffer(m: nat, n: nat)
    requires m < 16 && n < 16 && DIGITS[m] == DIGITS[n]
    ensures m == n
  {
  }

  // A hexadecimal digit read back.
  function DigitValue(c: char): nat {
    var n := c as int;
    if 48 <= n <= 57 then n - 48 else if 97 <= n <= 102 then n - 87 else 16
  }

  function ByteValue(b: Octet): nat {
    (if b.b0 then 1 else 0) + (if b.b1 then 2 else 0) + (if b.b2 then 4 else 0) + (if b.b3 then 8 else 0)
    + (if b.b4 then 16 else 0) + (if b.b5 then 32 else 0) + (if b.b6 then 64 else 0) + if b.b7 then 128 else 0
  }

  lemma DigitReadsBack(n: nat)
    requires n < 16
    ensures DigitValue(DIGITS[n]) == n
  {
  }

  lemma HexByteReadsBack(b: Octet)
    ensures 16 * DigitValue(HexByte(b)[0]) + DigitValue(HexByte(b)[1]) == ByteValue(b)
    ensures DigitValue(HexByte(b)[0]) < 16 && DigitValue(HexByte(b)[1]) < 16
  {
    DigitReadsBack(Nibble(b.b4, b.b5, b.b6, b.b7));
    DigitReadsBack(Nibble(b.b0, b.b1, b.b2, b.b3));
  }

  /** What is drawn: state after state, and of each the lowest eight bits, the lowest of them for one. */
  lemma DrawIsExact(seed: Word, n: nat, i: nat)
    requires i < n
    ensures StateAfter(seed, 0) == seed && StateAfter(seed, i + 1) == Xorshift(StateAfter(seed, i))
    ensures
      var s := StateAfter(seed, i + 1);
      ByteValue(Draw(seed, n)[i]) ==
        (if s[0] then 1 else 0) + (if s[1] then 2 else 0) + (if s[2] then 4 else 0) + (if s[3] then 8 else 0)
        + (if s[4] then 16 else 0) + (if s[5] then 32 else 0) + (if s[6] then 64 else 0) + if s[7] then 128 else 0
  {
    DrawAt(seed, n, i);
    LowByteValue(StateAfter(seed, i + 1));
  }

  lemma LowByteValue(s: Word)
    ensures ByteValue(LowByte(s)) ==
              (if s[0] then 1 else 0) + (if s[1] then 2 else 0) + (if s[2] then 4 else 0) + (if s[3] then 8 else 0)
              + (if s[4] then 16 else 0) + (if s[5] then 32 else 0) + (if s[6] then 64 else 0) + if s[7] then 128 else 0
  {
  }

  /** Every byte is written as two digits, the greater first, which read back in base 16 to its value. */
  lemma {:induction false} HexReadsBack(bytes: seq<Octet>, i: nat)
    requires i < |bytes|
    ensures |Hex(bytes)| == 2 * |bytes|
    ensures 16 * DigitValue(Hex(bytes)[2 * i]) + DigitValue(Hex(bytes)[2 * i + 1]) == ByteValue(bytes[i])
    ensures DigitValue(Hex(bytes)[2 * i]) < 16 && DigitValue(Hex(bytes)[2 * i + 1]) < 16
  {
    var n := |bytes| - 1;
    HexShape(bytes);
    HexShape(bytes[..n]);
    if i < n {
      HexReadsBack(bytes[..n], i);
      assert bytes[..n][i] == bytes[i];
    } else {
      HexByteReadsBack(bytes[n]);
      assert Hex(bytes)[2 * n..] == HexByte(bytes[n]);
      assert Hex(bytes)[2 * n] == HexByte(bytes[n])[0] && Hex(bytes)[2 * n + 1] == HexByte(bytes[n])[1];
    }
  }

  /** Different bytes are written differently. */
  lemma {:induction false} HexIsInjective(a: seq<Octet>, b: seq<Octet>)
    requires Hex(a) == Hex(b)
    ensures a == b
  {
    HexShape(a);
    HexShape(b);
    if a != [] {
      var n := |a| - 1;
      var x, y := Hex(a[..n]), Hex(b[..n]);
      HexShape(a[..n]);
      HexShape(b[..n]);
      assert x == Hex(a)[..2 * n] == Hex(b)[..2 * n] == y;
      assert HexByte(a[n]) == Hex(a)[2 * n..] == Hex(b)[2 * n..] == HexByte(b[n]);
      HexIsInjective(a[..n], b[..n]);
      HexByteIsInjective(a[n], b[n]);
      assert a == a[..n] + [a[n]] && b == b[..n] + [b[n]];
    }
  }

  // A fresh trace id, and a span id.
  function TraceIdOf(seed: Word): string {
    Hex(Draw(seed, 16))
  }

  function SpanIdOf(seed: Word): string {
    Hex(Draw(seed, 8))
  }

  /** Fresh identifiers have the form the header wants, and different seeds make different trace ids. */
  lemma FreshIds(s: Word, t: Word)
    ensures IsTraceId(TraceIdOf(s)) && IsSpanId(SpanIdOf(s))
    ensures TraceIdOf(s) == TraceIdOf(t) <==> s == t
  {
    HexShape(Draw(s, 16));
    HexShape(Draw(s, 8));
    if TraceIdOf(s) == TraceIdOf(t) {
      HexIsInjective(Draw(s, 16), Draw(t, 16));
      DrawIsInjective(s, t, 16);
    }
  }
}
