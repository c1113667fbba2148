/** The streaming reader (`BootBuffer.readSync`, BootBuffer.ts lines 209-336) as an explicit
    state machine. One `ReadState` of the source, the record being assembled, becomes a
    `Phase`; the 4096-byte scratch buffer that holds an unfinished field across a chunk
    boundary becomes the `carry` of a `DecoderState`; and the generator's body for one
    chunk becomes the pure function `Feed`, which returns the entries it yields.

    This reader keeps four rules: the carry holds exactly the unread rest of its input,
    at most 4096 bytes, and a field that needs more is an error; a key is not marked read
    until all of it is copied; the value cursor advances by the bytes actually copied; and
    a stream that ends inside a record is reported as truncated. Where `readSync` as
    written breaks these rules (the carry-over arithmetic, the key flag after a carry-over,
    the value cursor, a final empty value, a silent truncated stream), module
    DecoderAsWritten models the code literally and shows the difference. */
module Decoder {
  import opened Binary
  import opened Wrappers
  import opened Values
  import Varint

  /** `kTmpBufferSize`: the capacity of the carry-over scratch buffer. */
  const TmpBufferSize := 4096

  /** A decoded record: its wire tag, its key bytes and its parsed value. */
  datatype Entry = Entry(tag: nat, key: Bytes, value: Value)

  /** Which field of the current record is awaited. The source tracks this with
      `lastType == -1`, `lastKeyLengthRead`, `lastValueLengthRead` and `lastKeyRead`. */
  datatype Phase =
    | AwaitType
    | AwaitKeyLength(tag: nat)
    | AwaitValueLength(tag: nat, keyLength: nat)
    | AwaitKey(tag: nat, keyLength: nat, valueLength: nat)
    | AwaitValue(tag: nat, key: Bytes, valueLength: nat, filled: Bytes)

  /** The reader between two chunks: the record in progress and the carried-over bytes
      that the next chunk continues. */
  datatype DecoderState = DecoderState(phase: Phase, carry: Bytes)

  const Initial := DecoderState(AwaitType, [])

  /** The ways reading stops early: an unfinished field longer than the scratch buffer
      (the source's failed `assert`), a value too short for its tag's reader, and a
      stream that ends inside a record. */
  datatype DecodeError = CarryOverflow(size: nat) | BadValue(cause: ParseError) | Truncated

  datatype Outcome = Suspended(state: DecoderState) | Failed(error: DecodeError)

  /** The entries yielded so far, and how the reader stands after them. */
  datatype Progress = Progress(entries: seq<Entry>, outcome: Outcome)

  predicate Overflowed(p: Progress) {
    p.outcome.Failed? && p.outcome.error.CarryOverflow?
  }

  /** A state the reader can wait in for the next chunk: the carry is within the scratch
      capacity and is exactly an unfinished field, and a partly filled value carries
      nothing because its bytes are already in `filled`. */
  predicate Waiting(s: DecoderState) {
    && |s.carry| <= TmpBufferSize
    && match s.phase
       case AwaitType | AwaitKeyLength(_) | AwaitValueLength(_, _) => Varint.Decode(s.carry).Incomplete?
       case AwaitKey(_, keyLength, _) => |s.carry| < keyLength
       case AwaitValue(_, _, valueLength, filled) => s.carry == [] && |filled| < valueLength
  }

  predicate AwaitsVarint(phase: Phase) {
    phase.AwaitType? || phase.AwaitKeyLength? || phase.AwaitValueLength?
  }

  /** The phase after the awaited varint has been read as `n`: the tag, then the key
      length, then the value length. */
  function AfterVarint(phase: Phase, n: nat): Phase
    requires AwaitsVarint(phase)
  {
    match phase
    case AwaitType => AwaitKeyLength(n)
    case AwaitKeyLength(tag) => AwaitValueLength(tag, n)
    case AwaitValueLength(tag, keyLength) => AwaitKey(tag, keyLength, n)
  }

  /** Phases that advance without consuming input rank below the phases they leave. */
  function Rank(phase: Phase): nat {
    match phase
    case AwaitType => 0
    case AwaitValue(_, _, _, _) => 1
    case AwaitKey(_, _, _) => 2
    case _ => 3
  }

  /** The source's `fallback`, as intended: keep the unread rest of the chunk for the next
      one, provided it fits in the scratch buffer. */
  function Suspend(phase: Phase, rest: Bytes): Progress {
    if |rest| > TmpBufferSize then Progress([], Failed(CarryOverflow(|rest|)))
    else Progress([], Suspended(DecoderState(phase, rest)))
  }

  function Prepend(e: Entry, p: Progress): Progress {
    Progress([e] + p.entries, p.outcome)
  }

  function Append(es: seq<Entry>, p: Progress): Progress {
    Progress(es + p.entries, p.outcome)
  }

  /** The `while (bufUsedSpace < buf.length)` loop of one chunk, from `phase`, on the bytes
      `rest` not yet consumed. */
  function Run(phase: Phase, rest: Bytes): Progress
    decreases |rest|, Rank(phase)
  {
    if AwaitsVarint(phase) then
      match Varint.Decode(rest)
      case Incomplete => Suspend(phase, rest)
      case Complete(n, size) => Run(AfterVarint(phase, n), rest[size..])
    else
    match phase
    case AwaitKey(tag, keyLength, valueLength) =>
      if |rest| < keyLength then Suspend(phase, rest)
      else Run(AwaitValue(tag, rest[..keyLength], valueLength, []), rest[keyLength..])
    case AwaitValue(tag, key, valueLength, filled) =>
      if |filled| >= valueLength then
        match ParseValue(filled, tag)
        case Failure(cause) => Progress([], Failed(BadValue(cause)))
        case Success(value) => Prepend(Entry(tag, key, value), Run(AwaitType, rest))
      else if |rest| == 0 then Progress([], Suspended(DecoderState(phase, [])))
      else
        var n := Min(valueLength - |filled|, |rest|);
        Run(AwaitValue(tag, key, valueLength, filled + rest[..n]), rest[n..])
  }

  /** Where a run stops for want of input, it waits in a proper state and carries only
      the unread tail of its input, at most the scratch buffer's capacity; where it fails
      on the carry, the unfinished field was longer than that capacity. */
  lemma {:induction false} RunStops(phase: Phase, rest: Bytes)
    ensures var p := Run(phase, rest);
      && (p.outcome.Suspended? ==> Waiting(p.outcome.state) && IsSuffix(p.outcome.state.carry, rest))
      && (Overflowed(p) ==> p.outcome.error.size > TmpBufferSize)
    decreases |rest|, Rank(phase)
  {
    if AwaitsVarint(phase) {
      match Varint.Decode(rest)
      case Incomplete =>
        assert rest[|rest| - |rest|..] == rest;
      case Complete(n, size) =>
        RunStops(AfterVarint(phase, n), rest[size..]);
        DropKeepsSuffix(rest, size);
    } else {
      match phase
      case AwaitKey(tag, keyLength, valueLength) =>
        if |rest| < keyLength {
          assert rest[|rest| - |rest|..] == rest;
        } else {
          RunStops(AwaitValue(tag, rest[..keyLength], valueLength, []), rest[keyLength..]);
          DropKeepsSuffix(rest, keyLength);
        }
      case AwaitValue(tag, key, valueLength, filled) =>
        if |filled| >= valueLength {
          if ParseValue(filled, tag).Success? {
            RunStops(AwaitType, rest);
          }
        } else if |rest| > 0 {
          var n := Min(valueLength - |filled|, |rest|);
          RunStops(AwaitValue(tag, key, valueLength, filled + rest[..n]), rest[n..]);
          DropKeepsSuffix(rest, n);
        }
    }
  }

  /** `c` is the last `|c|` bytes of `s`. */
  predicate IsSuffix(c: Bytes, s: Bytes) {
    |c| <= |s| && c == s[|s| - |c|..]
  }

  lemma DropKeepsSuffix(s: Bytes, k: nat)
    requires k <= |s|
    ensures forall c :: IsSuffix(c, s[k..]) ==> IsSuffix(c, s)
  {
    forall c | IsSuffix(c, s[k..])
      ensures IsSuffix(c, s)
    {
      assert s[k..][|s[k..]| - |c|..] == s[|s| - |c|..];
    }
  }

  /** One turn of the `for (const buf0 of source)` loop: the carried bytes are prepended
      to the chunk, and the carry is cleared and refilled only with what is still unread. */
  function Feed(s: DecoderState, chunk: Bytes): (p: Progress)
    ensures p.outcome.Suspended? ==>
      && Waiting(p.outcome.state)
      && |p.outcome.state.carry| <= TmpBufferSize
      && IsSuffix(p.outcome.state.carry, s.carry + chunk)
    ensures Overflowed(p) ==> p.outcome.error.size > TmpBufferSize
  {
    RunStops(s.phase, s.carry + chunk);
    Run(s.phase, s.carry + chunk)
  }

  /** Feed `y` to the reader where progress `p` left it. */
  function Continue(p: Progress, y: Bytes): Progress {
    match p.outcome
    case Failed(_) => p
    case Suspended(s) => Append(p.entries, Feed(s, y))
  }

  /** The chunks, fed one after another, stopping at the first failure. */
  function FeedAll(s: DecoderState, chunks: seq<Bytes>): Progress
    decreases |chunks|
  {
    if |chunks| == 0 then Progress([], Suspended(s))
    else
      var p := Feed(s, chunks[0]);
      match p.outcome
      case Failed(_) => p
      case Suspended(s') => Append(p.entries, FeedAll(s', chunks[1..]))
  }

  function Flatten(chunks: seq<Bytes>): Bytes
    decreases |chunks|
  {
    if |chunks| == 0 then [] else chunks[0] + Flatten(chunks[1..])
  }

  /** Everything a consumer of `readSync(source)` sees: the entries in order, then the
      error that ended the stream, if any. */
  datatype Decoded = Decoded(entries: seq<Entry>, error: Option<DecodeError>)

  /** `readSync` over a source of chunks. A stream that ends inside a record reports
      `Truncated`. */
  function ReadSync(chunks: seq<Bytes>): Decoded
  {
    var p := FeedAll(Initial, chunks);
    match p.outcome
    case Failed(e) => Decoded(p.entries, Some(e))
    case Suspended(s) => Decoded(p.entries, if s == Initial then None else Some(Truncated))
  }

  /** An empty chunk changes nothing in a waiting reader. */
  lemma WaitingIsStable(s: DecoderState)
    requires Waiting(s)
    ensures Feed(s, []) == Progress([], Suspended(s))
  {
    assert s.carry + [] == s.carry;
    match s.phase
    case AwaitValue(tag, key, valueLength, filled) =>
    case AwaitKey(tag, keyLength, valueLength) =>
    case _ =>
  }

  /** The heart of chunk-invariance: running on `x + y` is running on `x`, then feeding
      `y` to wherever that left the reader; unless `x` alone overflowed the carry. */
  lemma {:induction false} RunAppend(phase: Phase, x: Bytes, y: Bytes)
    requires !Overflowed(Run(phase, x))
    ensures Run(phase, x + y) == Continue(Run(phase, x), y)
    decreases |x|, Rank(phase), 1
  {
    match phase
    case AwaitType | AwaitKeyLength(_) | AwaitValueLength(_, _) =>
      RunAppendVarint(phase, x, y);
    case AwaitKey(tag, keyLength, valueLength) =>
      RunAppendKey(phase, x, y);
    case AwaitValue(tag, key, valueLength, filled) =>
      if |filled| >= valueLength {
        RunAppendYield(phase, x, y);
      } else {
        RunAppendFill(phase, x, y);
      }
  }

  /** RunAppend for a key. */
  lemma {:induction false} RunAppendKey(phase: Phase, x: Bytes, y: Bytes)
    requires phase.AwaitKey?
    requires !Overflowed(Run(phase, x))
    ensures Run(phase, x + y) == Continue(Run(phase, x), y)
    decreases |x|, Rank(phase), 0
  {
    var keyLength := phase.keyLength;
    if |x| >= keyLength {
      assert (x + y)[..keyLength] == x[..keyLength];
      assert (x + y)[keyLength..] == x[keyLength..] + y;
      RunAppend(AwaitValue(phase.tag, x[..keyLength], phase.valueLength, []), x[keyLength..], y);
    } else {
      assert Run(phase, x) == Progress([], Suspended(DecoderState(phase, x)));
    }
  }

  /** RunAppend for a complete value, which is parsed before anything is read. */
  lemma {:induction false} RunAppendYield(phase: Phase, x: Bytes, y: Bytes)
    requires phase.AwaitValue? && |phase.filled| >= phase.valueLength
    requires !Overflowed(Run(phase, x))
    ensures Run(phase, x + y) == Continue(Run(phase, x), y)
    decreases |x|, Rank(phase), 0
  {
    match ParseValue(phase.filled, phase.tag)
    case Failure(_) =>
    case Success(value) =>
      RunAppend(AwaitType, x, y);
      AppendAssociates([Entry(phase.tag, phase.key, value)], Run(AwaitType, x), y);
  }

  /** RunAppend for a value still being filled. */
  lemma {:induction false} RunAppendFill(phase: Phase, x: Bytes, y: Bytes)
    requires phase.AwaitValue? && |phase.filled| < phase.valueLength
    requires !Overflowed(Run(phase, x))
    ensures Run(phase, x + y) == Continue(Run(phase, x), y)
    decreases |x|, Rank(phase), 0
  {
    var AwaitValue(tag, key, valueLength, filled) := phase;
    if |x| == 0 {
      assert x + y == y;
      assert Continue(Run(phase, x), y) == Append([], Run(phase, y));
    } else {
      var n := Min(valueLength - |filled|, |x|);
      if n < |x| || n == valueLength - |filled| {
        assert (x + y)[..n] == x[..n];
        assert (x + y)[n..] == x[n..] + y;
        RunAppend(AwaitValue(tag, key, valueLength, filled + x[..n]), x[n..], y);
      } else {
        // x ends inside the value: the chunked reader waits with the value partly filled
        assert n == |x| && x[..n] == x && x[n..] == [];
        var phase' := AwaitValue(tag, key, valueLength, filled + x);
        assert Run(phase, x) == Run(phase', []);
        assert Run(phase', []) == Progress([], Suspended(DecoderState(phase', [])));
        assert [] + y == y;
        FillSplit(tag, key, valueLength, filled, x, y);
      }
    }
  }

  /** RunAppend for the three phases that read a varint. */
  lemma {:induction false} RunAppendVarint(phase: Phase, x: Bytes, y: Bytes)
    requires AwaitsVarint(phase)
    requires !Overflowed(Run(phase, x))
    ensures Run(phase, x + y) == Continue(Run(phase, x), y)
    decreases |x|, Rank(phase), 0
  {
    match Varint.Decode(x)
    case Incomplete =>
      assert Run(phase, x) == Progress([], Suspended(DecoderState(phase, x)));
    case Complete(n, size) =>
      Varint.DecodeExtend(x, y);
      assert (x + y)[size..] == x[size..] + y;
      var next := AfterVarint(phase, n);
      assert Run(phase, x) == Run(next, x[size..]);
      assert Run(phase, x + y) == Run(next, x[size..] + y);
      RunAppend(next, x[size..], y);
  }

  /** Filling a value from `x` and then from `y` is filling it from `x + y`, when `x`
      alone does not complete it. */
  lemma {:induction false} FillSplit(tag: nat, key: Bytes, valueLength: nat, filled: Bytes, x: Bytes, y: Bytes)
    requires 0 < |x| < valueLength - |filled|
    ensures Run(AwaitValue(tag, key, valueLength, filled), x + y)
         == Run(AwaitValue(tag, key, valueLength, filled + x), y)
  {
    var xy := x + y;
    var n := Min(valueLength - |filled|, |xy|);
    FillStep(tag, key, valueLength, filled, xy, n);
    var first := AwaitValue(tag, key, valueLength, filled + xy[..n]);
    if |y| > 0 {
      var m := Min(valueLength - |filled| - |x|, |y|);
      FillStep(tag, key, valueLength, filled + x, y, m);
      assert n == |x| + m;
      SplitSlices(filled, x, y, m);
      assert first == AwaitValue(tag, key, valueLength, (filled + x) + y[..m]);
    } else {
      assert xy[..n] == x && xy[n..] == y;
    }
  }

  lemma {:induction false} SplitSlices(filled: Bytes, x: Bytes, y: Bytes, m: nat)
    requires m <= |y|
    ensures filled + (x + y)[..|x| + m] == (filled + x) + y[..m]
    ensures (x + y)[|x| + m..] == y[m..]
  {
    assert (x + y)[..|x| + m] == x + y[..m];
  }

  /** One step of filling a value. */
  lemma {:induction false} FillStep(tag: nat, key: Bytes, valueLength: nat, filled: Bytes, rest: Bytes, n: nat)
    requires |filled| < valueLength && |rest| > 0
    requires n == Min(valueLength - |filled|, |rest|)
    ensures Run(AwaitValue(tag, key, valueLength, filled), rest)
         == Run(AwaitValue(tag, key, valueLength, filled + rest[..n]), rest[n..])
  {
  }


  lemma AppendAssociates(es: seq<Entry>, p: Progress, y: Bytes)
    ensures Continue(Append(es, p), y) == Append(es, Continue(p, y))
  {
    match p.outcome
    case Failed(_) =>
    case Suspended(s) =>
      assert es + (p.entries + Feed(s, y).entries) == (es + p.entries) + Feed(s, y).entries;
  }

  /** Chunk boundaries do not matter, one boundary at a time: feeding `a + b` is feeding
      `a`, then `b`; unless `a` alone overflowed the carry. */
  lemma FeedAppend(s: DecoderState, a: Bytes, b: Bytes)
    requires !Overflowed(Feed(s, a))
    ensures Feed(s, a + b) == Continue(Feed(s, a), b)
  {
    assert s.carry + (a + b) == (s.carry + a) + b;
    RunAppend(s.phase, s.carry + a, b);
  }

  /** Chunk-invariance: feeding any sequence of chunks gives what feeding their
      concatenation as one chunk gives, entries and final state alike, provided no chunk
      left more unfinished bytes than the scratch buffer holds. */
  lemma {:induction false} FeedAllFlatten(s: DecoderState, chunks: seq<Bytes>)
    requires |chunks| >= 1
    requires !Overflowed(FeedAll(s, chunks))
    ensures FeedAll(s, chunks) == Feed(s, Flatten(chunks))
    decreases |chunks|
  {
    var p := Feed(s, chunks[0]);
    if |chunks| == 1 {
      assert Flatten(chunks) == chunks[0] + [];
      assert chunks[0] + [] == chunks[0];
      if p.outcome.Suspended? {
        assert p.entries + [] == p.entries;
      }
    } else {
      assert Flatten(chunks) == chunks[0] + Flatten(chunks[1..]);
      FeedAppend(s, chunks[0], Flatten(chunks[1..]));
      match p.outcome
      case Failed(_) =>
      case Suspended(s') =>
        FeedAllFlatten(s', chunks[1..]);
    }
  }

  /** Feeding chunks overflows the carry only where feeding some prefix of their
      concatenation as one chunk does. */
  lemma {:induction false} FeedAllNoOverflow(s: DecoderState, chunks: seq<Bytes>)
    requires forall j :: 0 <= j <= |Flatten(chunks)| ==> !Overflowed(Feed(s, Flatten(chunks)[..j]))
    ensures !Overflowed(FeedAll(s, chunks))
    decreases |chunks|
  {
    if |chunks| > 0 {
      var whole := Flatten(chunks);
      var rest := Flatten(chunks[1..]);
      assert whole == chunks[0] + rest;
      assert whole[..|chunks[0]|] == chunks[0];
      var p := Feed(s, chunks[0]);
      match p.outcome
      case Failed(_) =>
      case Suspended(s') =>
        forall j | 0 <= j <= |rest|
          ensures !Overflowed(Feed(s', rest[..j]))
        {
          assert whole[..|chunks[0]| + j] == chunks[0] + rest[..j];
          FeedAppend(s, chunks[0], rest[..j]);
        }
        FeedAllNoOverflow(s', chunks[1..]);
    }
  }

  /** `readSync` of a chunked source equals `readSync` of the whole buffer at once. */
  lemma ReadSyncChunkInvariant(chunks: seq<Bytes>)
    requires ReadSync(chunks).error.None? || !ReadSync(chunks).error.value.CarryOverflow?
    ensures ReadSync(chunks) == ReadSync([Flatten(chunks)])
  {
    var whole := [Flatten(chunks)];
    if |chunks| == 0 {
      assert Run(AwaitType, []) == Progress([], Suspended(Initial));
      assert FeedAll(Initial, whole) == Append([], FeedAll(Initial, []));
    } else {
      FeedAllFlatten(Initial, chunks);
      FeedAllFlatten(Initial, whole);
      assert Flatten(whole) == Flatten(chunks) + [];
      assert Flatten(chunks) + [] == Flatten(chunks);
    }
  }
}
