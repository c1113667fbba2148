/** `BootBuffer.readSync` as it is written (BootBuffer.ts lines 209-336), field for field:
    the `ReadState` flags, the 4096-byte `tmpBuf` with its used count, the `bufUsedSpace`
    cursor that can run past the end of the chunk, and Node's `Buffer.fill`, which repeats
    its source to the end of the target. The lemmas at the end put it side by side with
    the intended reader of module Decoder, on inputs where the two differ and on the
    whole buffers where they agree.

    `Buffer.allocUnsafe` returns memory with unspecified contents; it is modelled as zeros. */
module DecoderAsWritten {
  import opened Binary
  import opened Wrappers
  import opened Values
  import opened Decoder
  import Varint
  import Encoder
  import RoundTrip

  /** `lastType`: a wire tag, or -1 while the tag of the next record is awaited. */
  type TypeSlot = t: int | t >= -1

  /** The source's `ReadState`. */
  datatype ReadState = ReadState(
    lastType: TypeSlot,
    lastKeyLengthRead: bool,
    lastValueLengthRead: bool,
    lastKeyRead: bool,
    lastValueRead: bool,
    lastKeyLength: nat,
    lastValueLength: nat,
    lastKeyBuf: Bytes,
    lastKeyBufUsedSpace: nat,
    lastValueBuf: Bytes,
    lastValueBufUsedSpace: nat)

  /** `new ReadState()`. */
  const Fresh := ReadState(-1, false, false, false, false, 0, 0, [], 0, [], 0)

  /** `tmpBuf` and `tmpBufUsedSpace`. */
  datatype Scratch = Scratch(tmpBuf: Bytes, tmpBufUsedSpace: nat)

  /** `Buffer.allocUnsafe(n)`. */
  function Zeros(n: nat): (r: Bytes)
    ensures |r| == n
  {
    seq(n, _ => 0)
  }

  const InitialScratch := Scratch(Zeros(TmpBufferSize), 0)

  /** `target.fill(value, offset)` for a nonempty Buffer `value` (Node throws on an empty
      one; every call below passes unread bytes of the chunk): from `offset` to the end,
      `value` repeated as often as it takes; an offset past the end does nothing. */
  function Fill(target: Bytes, value: Bytes, offset: nat): (r: Bytes)
    requires |value| > 0
    ensures |r| == |target|
    ensures forall i :: 0 <= i < |target| && i < offset ==> r[i] == target[i]
    ensures forall i :: offset <= i < |target| ==> r[i] == value[(i - offset) % |value|]
  {
    if offset >= |target| then target
    else
      target[..offset]
      + seq(|target| - offset, i requires 0 <= i < |target| - offset => value[i % |value|])
  }

  /** The effect of one turn of the `while` loop. */
  datatype Turn =
    | Moved(yielded: Option<Entry>, bufUsedSpace: int, lastEntry: ReadState, scratch: Scratch)
    | Threw(error: DecodeError)

  /** The nested `fallback()`: copy the unread rest of the chunk into `tmpBuf`, move the
      cursor and the scratch count by the amounts the source computes, and check the
      `assert`. */
  function Fallback(currentBuf: Bytes, bufUsedSpace: int, e: ReadState, tmp: Scratch): (t: Turn)
    requires |currentBuf| > 0
    ensures t.Moved? ==> t.scratch.tmpBufUsedSpace <= TmpBufferSize && t.yielded.None?
  {
    var tmpBufFreeSpace := TmpBufferSize - tmp.tmpBufUsedSpace;
    var tmpBuf := Fill(tmp.tmpBuf, currentBuf, tmp.tmpBufUsedSpace);
    var used := bufUsedSpace + (TmpBufferSize - tmp.tmpBufUsedSpace);
    var tmpUsed := tmp.tmpBufUsedSpace + Max(|currentBuf|, tmpBufFreeSpace);
    if TmpBufferSize - tmpUsed >= 0 then Moved(None, used, e, Scratch(tmpBuf, tmpUsed))
    else Threw(CarryOverflow(tmpUsed))
  }

  /** `yield { type, key, value: parseValue(...) }`, then `lastEntry = new ReadState()`. */
  function Yield(e: ReadState, valueBuf: Bytes, bufUsedSpace: int, tmp: Scratch): Turn
    requires e.lastType >= 0
  {
    match ParseValue(valueBuf, e.lastType)
    case Failure(cause) => Threw(BadValue(cause))
    case Success(value) => Moved(Some(Entry(e.lastType, e.lastKeyBuf, value)), bufUsedSpace, Fresh, tmp)
  }

  /** One turn of the loop body, on the unread bytes `buf[bufUsedSpace..]`. */
  function LoopBody(buf: Bytes, bufUsedSpace: nat, e: ReadState, tmp: Scratch): Turn
    requires bufUsedSpace < |buf|
  {
    var currentBuf := buf[bufUsedSpace..];
    if e.lastType == -1 then
      match Varint.Decode(currentBuf)
      case Complete(n, size) => Moved(None, bufUsedSpace + size, e.(lastType := n), tmp)
      case Incomplete => Fallback(currentBuf, bufUsedSpace, e, tmp)
    else if !e.lastKeyLengthRead then
      match Varint.Decode(currentBuf)
      case Complete(n, size) =>
        var e' := e.(lastKeyLength := n, lastKeyLengthRead := true,
                     lastKeyBuf := Zeros(n), lastKeyBufUsedSpace := 0);
        Moved(None, bufUsedSpace + size, e', tmp)
      case Incomplete => Fallback(currentBuf, bufUsedSpace, e, tmp)
    else if !e.lastValueLengthRead then
      match Varint.Decode(currentBuf)
      case Complete(n, size) =>
        var e' := e.(lastValueLength := n, lastValueLengthRead := true,
                     lastValueBuf := Zeros(n), lastValueBufUsedSpace := 0);
        Moved(None, bufUsedSpace + size, e', tmp)
      case Incomplete => Fallback(currentBuf, bufUsedSpace, e, tmp)
    else if !e.lastKeyRead && e.lastKeyLength == 0 then
      Moved(None, bufUsedSpace, e.(lastKeyRead := true), tmp)
    else if !e.lastKeyRead && e.lastKeyBufUsedSpace < e.lastKeyLength then
      if |currentBuf| >= e.lastKeyLength then
        var e' := e.(lastKeyBuf := Fill(e.lastKeyBuf, currentBuf, 0),
                     lastKeyBufUsedSpace := e.lastKeyLength, lastKeyRead := true);
        Moved(None, bufUsedSpace + e.lastKeyLength, e', tmp)
      else
        match Fallback(currentBuf, bufUsedSpace, e, tmp)
        case Threw(error) => Threw(error)
        case Moved(_, used, _, tmp') => Moved(None, used, e.(lastKeyRead := true), tmp')
    else if e.lastValueRead then
      Moved(None, bufUsedSpace, e, tmp)
    else if e.lastValueLength == 0 then
      Yield(e, e.lastValueBuf, bufUsedSpace, tmp)
    else if e.lastValueBufUsedSpace < e.lastValueLength then
      var lastValueBufFreeSpace := |e.lastValueBuf| - e.lastValueBufUsedSpace;
      var valueBuf := Fill(e.lastValueBuf, buf[bufUsedSpace..], e.lastValueBufUsedSpace);
      var used := bufUsedSpace + lastValueBufFreeSpace;
      var valueUsed := e.lastValueBufUsedSpace + |buf|;
      if valueUsed >= |valueBuf| then Yield(e, valueBuf, used, tmp)
      else Moved(None, used, e.(lastValueBuf := valueBuf, lastValueBufUsedSpace := valueUsed), tmp)
    else
      Moved(None, bufUsedSpace, e, tmp)
  }

  /** How many turns at most can follow without consuming input: a zero-length key is
      marked read, then a zero-length value is yielded, then a tag must be read. */
  function Rank(e: ReadState): nat {
    if e.lastType == -1 then 0
    else if !e.lastKeyLengthRead || !e.lastValueLengthRead then 3
    else if !e.lastKeyRead then 2
    else 1
  }

  /** Where the reader is when the loop of a chunk ends: waiting for the next chunk, thrown,
      or turning forever in place (in states that `new ReadState()` never leads to). */
  datatype LoopEnd = Between(lastEntry: ReadState, scratch: Scratch) | Thrown(error: DecodeError) | Spinning

  datatype Pass = Pass(entries: seq<Entry>, end: LoopEnd)

  /** `while (bufUsedSpace < buf.length) { ... }`. */
  function Loop(buf: Bytes, bufUsedSpace: nat, e: ReadState, tmp: Scratch): Pass
    decreases if bufUsedSpace < |buf| then |buf| - bufUsedSpace else 0, Rank(e)
  {
    if bufUsedSpace >= |buf| then Pass([], Between(e, tmp))
    else
      match LoopBody(buf, bufUsedSpace, e, tmp)
      case Threw(error) => Pass([], Thrown(error))
      case Moved(yielded, used, e', tmp') =>
        if used > bufUsedSpace || (used == bufUsedSpace && Rank(e') < Rank(e)) then
          var rest := Loop(buf, used, e', tmp');
          match yielded
          case Some(entry) => Pass([entry] + rest.entries, rest.end)
          case None => rest
        else Pass(if yielded.Some? then [yielded.value] else [], Spinning)
  }

  /** One turn of `for (const buf0 of source2)`: prepend the scratch bytes, if any, and run
      the loop from the start of the combined buffer. */
  function Chunk(e: ReadState, tmp: Scratch, buf0: Bytes): Pass {
    if tmp.tmpBufUsedSpace > 0 then
      var buf := tmp.tmpBuf[..Min(tmp.tmpBufUsedSpace, |tmp.tmpBuf|)] + buf0;
      Loop(buf, 0, e, Scratch(tmp.tmpBuf, 0))
    else Loop(buf0, 0, e, tmp)
  }

  function ChunksFrom(e: ReadState, tmp: Scratch, chunks: seq<Bytes>): Pass
    decreases |chunks|
  {
    if |chunks| == 0 then Pass([], Between(e, tmp))
    else
      var p := Chunk(e, tmp, chunks[0]);
      match p.end
      case Between(e', tmp') =>
        var rest := ChunksFrom(e', tmp', chunks[1..]);
        Pass(p.entries + rest.entries, rest.end)
      case _ => p
  }

  /** `readSync(source)`: when the source runs out the generator returns, whatever state the
      record in progress is in. */
  function ReadSyncAsWritten(chunks: seq<Bytes>): Pass {
    ChunksFrom(Fresh, InitialScratch, chunks)
  }

  /** A source of one chunk is one pass of the loop over it. */
  lemma OneChunk(c: Bytes)
    ensures ReadSyncAsWritten([c]) == Loop(c, 0, Fresh, InitialScratch)
  {
    var p := Loop(c, 0, Fresh, InitialScratch);
    assert Chunk(Fresh, InitialScratch, c) == p;
    assert [c][0] == c && [c][1..] == [];
    if p.end.Between? {
      assert ChunksFrom(p.end.lastEntry, p.end.scratch, []) == Pass([], p.end);
      assert p.entries + [] == p.entries;
    }
  }

  /** A source of two chunks, the first of which leaves the reader waiting. */
  lemma TwoChunks(c: Bytes, d: Bytes)
    requires Loop(c, 0, Fresh, InitialScratch).end.Between?
    ensures var p := Loop(c, 0, Fresh, InitialScratch);
      ReadSyncAsWritten([c, d]).entries
      == p.entries + Chunk(p.end.lastEntry, p.end.scratch, d).entries
  {
    var p := Loop(c, 0, Fresh, InitialScratch);
    var q := Chunk(p.end.lastEntry, p.end.scratch, d);
    assert Chunk(Fresh, InitialScratch, c) == p;
    assert [c, d][0] == c && [c, d][1..] == [d];
    assert [d][0] == d && [d][1..] == [];
    if q.end.Between? {
      assert ChunksFrom(q.end.lastEntry, q.end.scratch, []) == Pass([], q.end);
      assert q.entries + [] == q.entries;
    }
    assert ChunksFrom(p.end.lastEntry, p.end.scratch, [d]).entries == q.entries;
  }

  /** Finding: an unfinished field shorter than the scratch buffer is carried over as a
      full 4096 bytes, the field repeated to fill them, instead of the field alone. */
  lemma CarryAsWritten(c: Bytes)
    requires 0 < |c| < TmpBufferSize && Varint.Decode(c).Incomplete?
    ensures var p := ReadSyncAsWritten([c]);
      && p.entries == [] && p.end.Between?
      && p.end.scratch.tmpBufUsedSpace == TmpBufferSize
      && |p.end.scratch.tmpBuf| == TmpBufferSize
      && p.end.scratch.tmpBuf[|c|] == c[0]
    ensures Feed(Initial, c) == Progress([], Suspended(DecoderState(AwaitType, c)))
  {
    OneChunk(c);
    assert c[0..] == c;
    assert Initial.carry + c == c;
    var tmp := Scratch(Fill(Zeros(TmpBufferSize), c, 0), TmpBufferSize);
    assert LoopBody(c, 0, Fresh, InitialScratch) == Moved(None, TmpBufferSize, Fresh, tmp);
    assert tmp.tmpBuf[|c|] == c[|c| % |c|];
  }

  /** Finding: a key split across chunks is marked read although none of its bytes were
      copied (KeyCarryAsWritten shows what the next chunk then yields); the intended reader
      waits for the key. */
  lemma KeyFlagAsWritten()
    ensures var p := ReadSyncAsWritten([[1, 2, 1, 0x61]]);
      && p.entries == [] && p.end.Between?
      && p.end.lastEntry.lastKeyRead && p.end.lastEntry.lastKeyBufUsedSpace == 0
  {
    OneChunk([1, 2, 1, 0x61]);
    var e3 := KeyFlagLengths();
    KeyFlagFallback(e3);
  }

  /** The three varints of [1, 2, 1, 0x61] as the loop reads them. */
  lemma KeyFlagLengths() returns (e3: ReadState)
    ensures !e3.lastKeyRead && e3.lastKeyBufUsedSpace == 0 && e3.lastKeyLength == 2
    ensures e3.lastType == 1 && e3.lastKeyLengthRead && e3.lastValueLengthRead
    ensures !e3.lastValueRead && e3.lastValueLength == 1 && e3.lastValueBufUsedSpace == 0
    ensures e3.lastValueBuf == Zeros(1) && e3.lastKeyBuf == Zeros(2)
    ensures Loop([1, 2, 1, 0x61], 0, Fresh, InitialScratch) == Loop([1, 2, 1, 0x61], 3, e3, InitialScratch)
  {
    var c: Bytes := [1, 2, 1, 0x61];
    var e1 := Fresh.(lastType := 1);
    var e2 := e1.(lastKeyLength := 2, lastKeyLengthRead := true, lastKeyBuf := Zeros(2), lastKeyBufUsedSpace := 0);
    e3 := e2.(lastValueLength := 1, lastValueLengthRead := true, lastValueBuf := Zeros(1), lastValueBufUsedSpace := 0);
    assert c[0..] == c;
    assert Varint.Decode(c) == Varint.Complete(1, 1);
    assert LoopBody(c, 0, Fresh, InitialScratch) == Moved(None, 1, e1, InitialScratch);
    assert c[1..] == [2, 1, 0x61];
    assert Varint.Decode(c[1..]) == Varint.Complete(2, 1);
    assert LoopBody(c, 1, e1, InitialScratch) == Moved(None, 2, e2, InitialScratch);
    assert c[2..] == [1, 0x61];
    assert Varint.Decode(c[2..]) == Varint.Complete(1, 1);
    assert LoopBody(c, 2, e2, InitialScratch) == Moved(None, 3, e3, InitialScratch);
  }

  /** The one key byte present goes to the scratch buffer, and the key is marked read. */
  lemma KeyFlagFallback(e3: ReadState)
    requires !e3.lastKeyRead && e3.lastKeyBufUsedSpace == 0 && e3.lastKeyLength == 2
    requires e3.lastType == 1 && e3.lastKeyLengthRead && e3.lastValueLengthRead
    ensures var p := Loop([1, 2, 1, 0x61], 3, e3, InitialScratch);
      && p.entries == [] && p.end.Between?
      && p.end.lastEntry == e3.(lastKeyRead := true)
      && p.end.scratch == Scratch(Fill(Zeros(TmpBufferSize), [0x61], 0), TmpBufferSize)
  {
    var c: Bytes := [1, 2, 1, 0x61];
    var tmp := Scratch(Fill(Zeros(TmpBufferSize), [0x61], 0), TmpBufferSize);
    assert c[3..] == [0x61];
    assert LoopBody(c, 3, e3, InitialScratch) == Moved(None, 3 + TmpBufferSize, e3.(lastKeyRead := true), tmp);
  }


  /** Finding: when the buffer holding its start is at least as long as the value, a value
      split across chunks is completed from that buffer alone, its count having grown by
      the whole buffer and its bytes filled by repeating the bytes at hand (a shorter buffer
      is LongValueAsWritten); the intended reader joins the value's two halves. */
  lemma ValueCursorAsWritten()
    ensures ReadSyncAsWritten([[0, 0, 4, 0xAA], [0xBB, 0xCC, 0xDD]]).entries
         == [Entry(0, [], BufferValue([0xAA, 0xAA, 0xAA, 0xAA]))]
  {
    var c: Bytes := [0, 0, 4, 0xAA];
    var d: Bytes := [0xBB, 0xCC, 0xDD];
    var e1 := Fresh.(lastType := 0);
    var e2 := e1.(lastKeyLength := 0, lastKeyLengthRead := true, lastKeyBuf := Zeros(0), lastKeyBufUsedSpace := 0);
    var e3 := e2.(lastValueLength := 4, lastValueLengthRead := true, lastValueBuf := Zeros(4), lastValueBufUsedSpace := 0);
    var e4 := e3.(lastKeyRead := true);
    var filled := Fill(Zeros(4), c[3..], 0);
    assert c[0..] == c;
    assert Varint.Decode(c) == Varint.Complete(0, 1);
    assert LoopBody(c, 0, Fresh, InitialScratch) == Moved(None, 1, e1, InitialScratch);
    assert c[1..] == [0, 4, 0xAA];
    assert Varint.Decode(c[1..]) == Varint.Complete(0, 1);
    assert LoopBody(c, 1, e1, InitialScratch) == Moved(None, 2, e2, InitialScratch);
    assert c[2..] == [4, 0xAA];
    assert Varint.Decode(c[2..]) == Varint.Complete(4, 1);
    assert LoopBody(c, 2, e2, InitialScratch) == Moved(None, 3, e3, InitialScratch);
    assert LoopBody(c, 3, e3, InitialScratch) == Moved(None, 3, e4, InitialScratch);
    assert c[3..] == [0xAA];
    assert filled == [0xAA, 0xAA, 0xAA, 0xAA];
    var entry := Entry(0, [], BufferValue(filled));
    assert Zeros(0) == [];
    assert LoopBody(c, 3, e4, InitialScratch) == Moved(Some(entry), 7, Fresh, InitialScratch);
    assert Loop(c, 3, e4, InitialScratch) == Pass([entry], Between(Fresh, InitialScratch));
    assert Loop(c, 0, Fresh, InitialScratch) == Pass([entry], Between(Fresh, InitialScratch));
    TwoChunks(c, d);
    assert d[0..] == d;
    var tmp := Scratch(Fill(Zeros(TmpBufferSize), d, 0), TmpBufferSize);
    assert LoopBody(d, 0, Fresh, InitialScratch) == Moved(None, TmpBufferSize, Fresh, tmp);
    assert Chunk(Fresh, InitialScratch, d).entries == [];
  }

  /** Finding: when the buffer is at least as long as the value, a record cut off inside
      its value is yielded with made-up bytes instead of being reported as truncated. */
  lemma ShortValueAsWritten()
    ensures ReadSyncAsWritten([[0, 0, 4, 0xAA, 0xBB]])
         == Pass([Entry(0, [], BufferValue([0xAA, 0xBB, 0xAA, 0xBB]))], Between(Fresh, InitialScratch))
  {
    var c: Bytes := [0, 0, 4, 0xAA, 0xBB];
    OneChunk(c);
    var e1 := Fresh.(lastType := 0);
    var e2 := e1.(lastKeyLength := 0, lastKeyLengthRead := true, lastKeyBuf := Zeros(0), lastKeyBufUsedSpace := 0);
    var e3 := e2.(lastValueLength := 4, lastValueLengthRead := true, lastValueBuf := Zeros(4), lastValueBufUsedSpace := 0);
    var e4 := e3.(lastKeyRead := true);
    var filled := Fill(Zeros(4), c[3..], 0);
    assert c[0..] == c;
    assert Varint.Decode(c) == Varint.Complete(0, 1);
    assert LoopBody(c, 0, Fresh, InitialScratch) == Moved(None, 1, e1, InitialScratch);
    assert c[1..] == [0, 4, 0xAA, 0xBB];
    assert Varint.Decode(c[1..]) == Varint.Complete(0, 1);
    assert LoopBody(c, 1, e1, InitialScratch) == Moved(None, 2, e2, InitialScratch);
    assert c[2..] == [4, 0xAA, 0xBB];
    assert Varint.Decode(c[2..]) == Varint.Complete(4, 1);
    assert LoopBody(c, 2, e2, InitialScratch) == Moved(None, 3, e3, InitialScratch);
    assert LoopBody(c, 3, e3, InitialScratch) == Moved(None, 3, e4, InitialScratch);
    assert c[3..] == [0xAA, 0xBB];
    assert filled == [0xAA, 0xBB, 0xAA, 0xBB];
    var entry := Entry(0, [], BufferValue(filled));
    assert Zeros(0) == [];
    assert LoopBody(c, 3, e4, InitialScratch) == Moved(Some(entry), 7, Fresh, InitialScratch);
    assert Loop(c, 3, e4, InitialScratch) == Pass([entry], Between(Fresh, InitialScratch));
  }

  /** Finding, continued: the next chunk never reaches the key. It is read after the
      4096 carried bytes, which the fallback filled with the one key byte it saw; the
      value is read from the head of that carry, and the key keeps its unwritten bytes. */
  lemma KeyCarryAsWritten()
    ensures var p := ReadSyncAsWritten([[1, 2, 1, 0x61], [0x62, 0x63]]);
      |p.entries| > 0 && p.entries[0] == Entry(1, Zeros(2), StringValue([0x61]))
  {
    var c: Bytes := [1, 2, 1, 0x61];
    var d: Bytes := [0x62, 0x63];
    var e3 := KeyFlagLengths();
    KeyFlagFallback(e3);
    var carried := Scratch(Fill(Zeros(TmpBufferSize), [0x61], 0), TmpBufferSize);
    TwoChunks(c, d);
    KeyCarryNext(e3.(lastKeyRead := true), carried, d);
  }

  /** The first turn over the carry followed by the next chunk reads the value. */
  lemma KeyCarryNext(e: ReadState, carried: Scratch, d: Bytes)
    requires e.lastType == 1 && e.lastKeyLengthRead && e.lastValueLengthRead && e.lastKeyRead
    requires !e.lastValueRead && e.lastValueLength == 1 && e.lastValueBufUsedSpace == 0
    requires e.lastValueBuf == Zeros(1) && e.lastKeyBuf == Zeros(2)
    requires carried == Scratch(Fill(Zeros(TmpBufferSize), [0x61], 0), TmpBufferSize)
    ensures var p := Chunk(e, carried, d);
      |p.entries| > 0 && p.entries[0] == Entry(1, Zeros(2), StringValue([0x61]))
  {
    var buf := carried.tmpBuf[..TmpBufferSize] + d;
    var s0 := Scratch(carried.tmpBuf, 0);
    assert buf[0] == 0x61;
    assert buf[0..] == buf;
    var valueBuf := Fill(Zeros(1), buf, 0);
    assert valueBuf == [0x61];
    var entry := Entry(1, Zeros(2), StringValue([0x61]));
    assert LoopBody(buf, 0, e, s0) == Moved(Some(entry), 1, Fresh, s0);
    assert Loop(buf, 0, e, s0).entries == [entry] + Loop(buf, 1, Fresh, s0).entries;
  }

  /** Finding: a value longer than the buffer that holds its start is neither completed nor
      padded. Its used count grows by the whole buffer (4) though one byte of it was
      there, and the stream ends with nothing yielded. */
  lemma LongValueAsWritten()
    ensures var p := ReadSyncAsWritten([[0, 0, 10, 0xAA]]);
      && p.entries == [] && p.end.Between?
      && p.end.lastEntry.lastValueLength == 10 && p.end.lastEntry.lastValueBufUsedSpace == 4
      && !p.end.lastEntry.lastValueRead
  {
    var c: Bytes := [0, 0, 10, 0xAA];
    OneChunk(c);
    var e1 := Fresh.(lastType := 0);
    var e2 := e1.(lastKeyLength := 0, lastKeyLengthRead := true, lastKeyBuf := Zeros(0), lastKeyBufUsedSpace := 0);
    var e3 := e2.(lastValueLength := 10, lastValueLengthRead := true, lastValueBuf := Zeros(10), lastValueBufUsedSpace := 0);
    var e4 := e3.(lastKeyRead := true);
    var e5 := e4.(lastValueBuf := Fill(Zeros(10), c[3..], 0), lastValueBufUsedSpace := 4);
    assert c[0..] == c;
    assert Varint.Decode(c) == Varint.Complete(0, 1);
    assert LoopBody(c, 0, Fresh, InitialScratch) == Moved(None, 1, e1, InitialScratch);
    assert c[1..] == [0, 10, 0xAA];
    assert Varint.Decode(c[1..]) == Varint.Complete(0, 1);
    assert LoopBody(c, 1, e1, InitialScratch) == Moved(None, 2, e2, InitialScratch);
    assert c[2..] == [10, 0xAA];
    assert Varint.Decode(c[2..]) == Varint.Complete(10, 1);
    assert LoopBody(c, 2, e2, InitialScratch) == Moved(None, 3, e3, InitialScratch);
    assert LoopBody(c, 3, e3, InitialScratch) == Moved(None, 3, e4, InitialScratch);
    assert LoopBody(c, 3, e4, InitialScratch) == Moved(None, 13, e5, InitialScratch);
    assert Loop(c, 3, e4, InitialScratch) == Pass([], Between(e5, InitialScratch));
  }

  /** Finding: a record with an empty value at the very end of the stream is never
      yielded. */
  lemma EmptyLastValueAsWritten()
    ensures ReadSyncAsWritten([[0, 0, 0]]).entries == []
  {
    var c: Bytes := [0, 0, 0];
    OneChunk(c);
    var e1 := Fresh.(lastType := 0);
    var e2 := e1.(lastKeyLength := 0, lastKeyLengthRead := true, lastKeyBuf := Zeros(0), lastKeyBufUsedSpace := 0);
    var e3 := e2.(lastValueLength := 0, lastValueLengthRead := true, lastValueBuf := Zeros(0), lastValueBufUsedSpace := 0);
    assert c[0..] == c;
    assert Varint.Decode(c) == Varint.Complete(0, 1);
    assert LoopBody(c, 0, Fresh, InitialScratch) == Moved(None, 1, e1, InitialScratch);
    assert c[1..] == [0, 0];
    assert Varint.Decode(c[1..]) == Varint.Complete(0, 1);
    assert LoopBody(c, 1, e1, InitialScratch) == Moved(None, 2, e2, InitialScratch);
    assert c[2..] == [0];
    assert Varint.Decode(c[2..]) == Varint.Complete(0, 1);
    assert LoopBody(c, 2, e2, InitialScratch) == Moved(None, 3, e3, InitialScratch);
    assert Loop(c, 3, e3, InitialScratch) == Pass([], Between(e3, InitialScratch));
  }

  /** Finding: a stream that stops inside a record ends without an error. */
  lemma TruncationAsWritten()
    ensures var p := ReadSyncAsWritten([[1]]);
      p.entries == [] && p.end.Between? && p.end.lastEntry != Fresh
  {
    var c: Bytes := [1];
    OneChunk(c);
    var e1 := Fresh.(lastType := 1);
    assert c[0..] == c;
    assert Varint.Decode(c) == Varint.Complete(1, 1);
    assert LoopBody(c, 0, Fresh, InitialScratch) == Moved(None, 1, e1, InitialScratch);
    assert Loop(c, 1, e1, InitialScratch) == Pass([], Between(e1, InitialScratch));
  }

  /** The intended reader on the chunks of one small record: its entry, and a clean end. */
  lemma WholeRecordIntended(r: Encoder.Record, chunks: seq<Bytes>)
    requires r.tag < 0x80 && |r.key| < 0x80 && |r.payload| < 0x80
    requires RoundTrip.Readable(r)
    requires Flatten(chunks) == [r.tag, |r.key|, |r.payload|] + r.key + r.payload
    ensures ReadSync(chunks) == Decoded([RoundTrip.EntryOf(r)], None)
  {
    var rs := [r];
    assert Encoder.EncodeRecords(rs) == Encoder.EncodeRecord(r) + Encoder.EncodeRecords([]);
    assert Encoder.EncodeRecords(rs) == Flatten(chunks);
    assert RoundTrip.FitsScratch(r);
    RoundTrip.ReadChunked(rs, chunks);
  }

  /** The intended reader on the first `j` bytes of one small record: a truncation. */
  lemma CutRecordIntended(r: Encoder.Record, j: nat)
    requires r.tag < 0x80 && |r.key| < 0x80 && |r.payload| < 0x80
    requires 0 < j < 3 + |r.key| + |r.payload|
    ensures ReadSync([([r.tag, |r.key|, |r.payload|] + r.key + r.payload)[..j]]) == Decoded([], Some(Truncated))
  {
    assert RoundTrip.FitsScratch(r);
    assert Encoder.EncodeRecords([]) + Encoder.EncodeRecord(r)[..j]
        == ([r.tag, |r.key|, |r.payload|] + r.key + r.payload)[..j];
    RoundTrip.ReadTruncated([], r, j);
  }

  /** The intended reader joins a key split across chunks (compare KeyFlagAsWritten). */
  lemma SplitKeyIntended()
    ensures ReadSync([[1, 2, 1, 0x61], [0x62, 0x63]]) == Decoded([Entry(1, [0x61, 0x62], StringValue([0x63]))], None)
  {
    var r := Encoder.Record(1, [0x61, 0x62], [0x63]);
    var chunks: seq<Bytes> := [[1, 2, 1, 0x61], [0x62, 0x63]];
    assert Flatten(chunks) == [1, 2, 1, 0x61, 0x62, 0x63] by {
      assert chunks[1..][1..] == [];
    }
    assert [r.tag, |r.key|, |r.payload|] + r.key + r.payload == [1, 2, 1, 0x61, 0x62, 0x63];
    WholeRecordIntended(r, chunks);
  }

  /** The intended reader joins a value split across chunks (compare ValueCursorAsWritten). */
  lemma SplitValueIntended()
    ensures ReadSync([[0, 0, 4, 0xAA], [0xBB, 0xCC, 0xDD]])
         == Decoded([Entry(0, [], BufferValue([0xAA, 0xBB, 0xCC, 0xDD]))], None)
  {
    var r := Encoder.Record(0, [], [0xAA, 0xBB, 0xCC, 0xDD]);
    var chunks: seq<Bytes> := [[0, 0, 4, 0xAA], [0xBB, 0xCC, 0xDD]];
    assert Flatten(chunks) == [0, 0, 4, 0xAA, 0xBB, 0xCC, 0xDD] by {
      assert chunks[1..][1..] == [];
    }
    assert [r.tag, |r.key|, |r.payload|] + r.key + r.payload == [0, 0, 4, 0xAA, 0xBB, 0xCC, 0xDD];
    WholeRecordIntended(r, chunks);
  }

  /** The intended reader reports a record cut off inside its value (compare
      ShortValueAsWritten). */
  lemma ShortValueIntended()
    ensures ReadSync([[0, 0, 4, 0xAA, 0xBB]]) == Decoded([], Some(Truncated))
  {
    var r := Encoder.Record(0, [], [0xAA, 0xBB, 0xCC, 0xDD]);
    assert ([r.tag, |r.key|, |r.payload|] + r.key + r.payload)[..5] == [0, 0, 4, 0xAA, 0xBB];
    CutRecordIntended(r, 5);
  }

  /** The intended reader yields a final record with an empty value (compare
      EmptyLastValueAsWritten). */
  lemma EmptyLastValueIntended()
    ensures ReadSync([[0, 0, 0]]) == Decoded([Entry(0, [], BufferValue([]))], None)
  {
    var r := Encoder.Record(0, [], []);
    var chunks: seq<Bytes> := [[0, 0, 0]];
    assert Flatten(chunks) == [0, 0, 0] by {
      assert chunks[1..] == [];
    }
    assert [r.tag, |r.key|, |r.payload|] + r.key + r.payload == [0, 0, 0];
    WholeRecordIntended(r, chunks);
  }

  /** The intended reader reports a stream that stops inside a record (compare
      TruncationAsWritten). */
  lemma TruncationIntended()
    ensures ReadSync([[1]]) == Decoded([], Some(Truncated))
  {
    var r := Encoder.Record(1, [], []);
    assert ([r.tag, |r.key|, |r.payload|] + r.key + r.payload)[..1] == [1];
    CutRecordIntended(r, 1);
  }

  /** `buf` holds the bytes `s` at position `p`. */
  predicate At(buf: Bytes, p: nat, s: Bytes) {
    p + |s| <= |buf| && buf[p..p + |s|] == s
  }

  lemma {:induction false} AtSplit(buf: Bytes, p: nat, a: Bytes, b: Bytes)
    requires At(buf, p, a + b)
    ensures At(buf, p, a) && At(buf, p + |a|, b)
  {
    assert buf[p..p + |a|] == (a + b)[..|a|];
    assert buf[p + |a|..p + |a| + |b|] == (a + b)[|a|..];
  }

  /** A whole varint under the cursor is decoded in one turn. */
  lemma {:induction false} ReadsVarint(buf: Bytes, p: nat, n: nat)
    requires At(buf, p, Varint.Encode(n))
    ensures p < |buf| && Varint.Decode(buf[p..]) == Varint.Complete(n, |Varint.Encode(n)|)
  {
    var q := p + |Varint.Encode(n)|;
    assert buf[p..] == Varint.Encode(n) + buf[q..];
    Varint.DecodeEncode(n, buf[q..]);
  }

  /** The state after a record's tag is read. */
  function Typed(tag: nat): ReadState {
    Fresh.(lastType := tag)
  }

  /** The state after a record's tag and key length are read, the key buffer allocated. */
  function KeyLengthKnown(tag: nat, keyLength: nat): ReadState {
    Typed(tag).(lastKeyLength := keyLength, lastKeyLengthRead := true, lastKeyBuf := Zeros(keyLength), lastKeyBufUsedSpace := 0)
  }

  /** The state after the three varints of a record: its tag and lengths read, its key
      and value buffers allocated, nothing of either copied yet. */
  function HeaderState(tag: nat, keyLength: nat, valueLength: nat): ReadState {
    KeyLengthKnown(tag, keyLength)
      .(lastValueLength := valueLength, lastValueLengthRead := true, lastValueBuf := Zeros(valueLength), lastValueBufUsedSpace := 0)
  }

  /** A turn that moves the cursor forward without yielding leaves the outcome of the
      loop to the rest of the buffer. */
  lemma {:induction false} Advance(buf: Bytes, p: nat, e: ReadState, tmp: Scratch, q: nat, e': ReadState)
    requires p < q && p < |buf| && LoopBody(buf, p, e, tmp) == Moved(None, q, e', tmp)
    ensures Loop(buf, p, e, tmp) == Loop(buf, q, e', tmp)
  {
  }

  /** The loop reads a whole tag and moves past it. */
  lemma {:induction false} TypeStep(buf: Bytes, p: nat, tag: nat, tmp: Scratch, q: nat)
    requires At(buf, p, Varint.Encode(tag)) && q == p + |Varint.Encode(tag)|
    ensures Loop(buf, p, Fresh, tmp) == Loop(buf, q, Typed(tag), tmp)
  {
    ReadsVarint(buf, p, tag);
    assert LoopBody(buf, p, Fresh, tmp) == Moved(None, q, Typed(tag), tmp);
    Advance(buf, p, Fresh, tmp, q, Typed(tag));
  }

  /** The loop reads a whole key length and allocates the key buffer. */
  lemma {:induction false} KeyLengthStep(buf: Bytes, p: nat, tag: nat, keyLength: nat, tmp: Scratch, q: nat)
    requires At(buf, p, Varint.Encode(keyLength)) && q == p + |Varint.Encode(keyLength)|
    ensures Loop(buf, p, Typed(tag), tmp) == Loop(buf, q, KeyLengthKnown(tag, keyLength), tmp)
  {
    ReadsVarint(buf, p, keyLength);
    assert LoopBody(buf, p, Typed(tag), tmp) == Moved(None, q, KeyLengthKnown(tag, keyLength), tmp);
    Advance(buf, p, Typed(tag), tmp, q, KeyLengthKnown(tag, keyLength));
  }

  /** The loop reads a whole value length and allocates the value buffer. */
  lemma {:induction false} ValueLengthStep(buf: Bytes, p: nat, tag: nat, keyLength: nat, valueLength: nat, tmp: Scratch, q: nat)
    requires At(buf, p, Varint.Encode(valueLength)) && q == p + |Varint.Encode(valueLength)|
    ensures Loop(buf, p, KeyLengthKnown(tag, keyLength), tmp) == Loop(buf, q, HeaderState(tag, keyLength, valueLength), tmp)
  {
    ReadsVarint(buf, p, valueLength);
    assert LoopBody(buf, p, KeyLengthKnown(tag, keyLength), tmp) == Moved(None, q, HeaderState(tag, keyLength, valueLength), tmp);
    Advance(buf, p, KeyLengthKnown(tag, keyLength), tmp, q, HeaderState(tag, keyLength, valueLength));
  }

  /** The fill of an allocated buffer from a chunk at least as long copies its head. */
  lemma {:induction false} FillHead(target: Bytes, chunk: Bytes)
    requires 0 < |target| <= |chunk|
    ensures Fill(target, chunk, 0) == chunk[..|target|]
  {
    var r := Fill(target, chunk, 0);
    forall i | 0 <= i < |target|
      ensures r[i] == chunk[i]
    {
      assert (i - 0) % |chunk| == i;
    }
  }

  /** The state once the whole key `key` is copied into the key buffer. */
  function KeyRead(tag: nat, key: Bytes, valueLength: nat): ReadState {
    HeaderState(tag, |key|, valueLength).(lastKeyBuf := key, lastKeyBufUsedSpace := |key|, lastKeyRead := true)
  }

  /** A key present in full under the cursor is copied in one turn; an empty key is
      marked read without moving the cursor. */
  lemma {:induction false} KeyStep(buf: Bytes, p: nat, tag: nat, key: Bytes, valueLength: nat, tmp: Scratch, q: nat)
    requires At(buf, p, key) && q == p + |key| && p < |buf|
    ensures Loop(buf, p, HeaderState(tag, |key|, valueLength), tmp) == Loop(buf, q, KeyRead(tag, key, valueLength), tmp)
  {
    var e := HeaderState(tag, |key|, valueLength);
    if |key| > 0 {
      FillHead(e.lastKeyBuf, buf[p..]);
      assert buf[p..][..|key|] == key;
      assert LoopBody(buf, p, e, tmp) == Moved(None, q, KeyRead(tag, key, valueLength), tmp);
      Advance(buf, p, e, tmp, q, KeyRead(tag, key, valueLength));
    } else {
      assert e.lastKeyBuf == key;
    }
  }

  /** A value present in full under the cursor, after the key, is copied and its entry
      yielded, and the loop goes on from a fresh state after it. */
  lemma {:induction false} ValueStep(buf: Bytes, p: nat, tag: nat, key: Bytes, payload: Bytes, tmp: Scratch, q: nat)
    requires At(buf, p, payload) && q == p + |payload| && p < |buf|
    requires ParseValue(payload, tag).Success?
    ensures Loop(buf, p, KeyRead(tag, key, |payload|), tmp)
         == Pass([Entry(tag, key, ParseValue(payload, tag).value)] + Loop(buf, q, Fresh, tmp).entries,
                 Loop(buf, q, Fresh, tmp).end)
  {
    var e := KeyRead(tag, key, |payload|);
    if |payload| > 0 {
      FillHead(e.lastValueBuf, buf[p..]);
      assert buf[p..][..|payload|] == payload;
    } else {
      assert e.lastValueBuf == payload;
    }
  }

  /** The three varints of a record under the cursor are read in three turns, ending at
      `q`, just past them. */
  lemma {:induction false} HeaderSteps(buf: Bytes, p: nat, tag: nat, keyLength: nat, valueLength: nat, tmp: Scratch, q: nat)
    requires At(buf, p, Varint.Encode(tag) + Varint.Encode(keyLength) + Varint.Encode(valueLength))
    requires q == p + |Varint.Encode(tag)| + |Varint.Encode(keyLength)| + |Varint.Encode(valueLength)|
    ensures Loop(buf, p, Fresh, tmp) == Loop(buf, q, HeaderState(tag, keyLength, valueLength), tmp)
  {
    var t, k, v := Varint.Encode(tag), Varint.Encode(keyLength), Varint.Encode(valueLength);
    AtSplit(buf, p, t + k, v);
    AtSplit(buf, p, t, k);
    HeaderChain(buf, p, p + |t|, p + |t| + |k|, q, tag, keyLength, valueLength, tmp);
  }

  lemma {:induction false} HeaderChain(buf: Bytes, p: nat, p1: nat, p2: nat, q: nat, tag: nat, keyLength: nat, valueLength: nat, tmp: Scratch)
    requires At(buf, p, Varint.Encode(tag)) && p1 == p + |Varint.Encode(tag)|
    requires At(buf, p1, Varint.Encode(keyLength)) && p2 == p1 + |Varint.Encode(keyLength)|
    requires At(buf, p2, Varint.Encode(valueLength)) && q == p2 + |Varint.Encode(valueLength)|
    ensures Loop(buf, p, Fresh, tmp) == Loop(buf, q, HeaderState(tag, keyLength, valueLength), tmp)
  {
    TypeStep(buf, p, tag, tmp, p1);
    KeyLengthStep(buf, p1, tag, keyLength, tmp, p2);
    ValueLengthStep(buf, p2, tag, keyLength, valueLength, tmp, q);
  }

  /** The key and value of a record under the cursor, after its header, are copied and its
      entry is yielded; the loop goes on at `q`, just past them, from a fresh state. */
  lemma {:induction false} BodySteps(buf: Bytes, p: nat, tag: nat, key: Bytes, payload: Bytes, tmp: Scratch, q: nat)
    requires At(buf, p, key + payload) && ParseValue(payload, tag).Success?
    requires |payload| > 0 || p + |key| < |buf|
    requires q == p + |key| + |payload|
    ensures Loop(buf, p, HeaderState(tag, |key|, |payload|), tmp)
         == Pass([Entry(tag, key, ParseValue(payload, tag).value)] + Loop(buf, q, Fresh, tmp).entries,
                 Loop(buf, q, Fresh, tmp).end)
  {
    AtSplit(buf, p, key, payload);
    BodyChain(buf, p, p + |key|, q, tag, key, payload, tmp);
  }

  lemma {:induction false} BodyChain(buf: Bytes, p: nat, p1: nat, q: nat, tag: nat, key: Bytes, payload: Bytes, tmp: Scratch)
    requires At(buf, p, key) && p1 == p + |key| && At(buf, p1, payload) && q == p1 + |payload|
    requires p1 < |buf| && ParseValue(payload, tag).Success?
    ensures Loop(buf, p, HeaderState(tag, |key|, |payload|), tmp)
         == Pass([Entry(tag, key, ParseValue(payload, tag).value)] + Loop(buf, q, Fresh, tmp).entries,
                 Loop(buf, q, Fresh, tmp).end)
  {
    KeyStep(buf, p, tag, key, |payload|, tmp, p1);
    ValueStep(buf, p1, tag, key, payload, tmp, q);
  }

  /** A whole record under the cursor, followed by at least one more byte when its value
      is empty, is read in full and its entry yielded. */
  lemma {:induction false} RecordStep(buf: Bytes, p: nat, r: Encoder.Record, tmp: Scratch, q: nat)
    requires At(buf, p, Encoder.EncodeRecord(r)) && RoundTrip.Readable(r)
    requires q == p + |Encoder.EncodeRecord(r)|
    requires |r.payload| > 0 || q < |buf|
    ensures Loop(buf, p, Fresh, tmp)
         == Pass([RoundTrip.EntryOf(r)] + Loop(buf, q, Fresh, tmp).entries, Loop(buf, q, Fresh, tmp).end)
  {
    var h := Varint.Encode(r.tag) + Varint.Encode(|r.key|) + Varint.Encode(|r.payload|);
    assert Encoder.EncodeRecord(r) == h + (r.key + r.payload);
    AtSplit(buf, p, h, r.key + r.payload);
    RecordChain(buf, p, p + |h|, q, r, tmp);
  }

  lemma {:induction false} RecordChain(buf: Bytes, p: nat, mid: nat, q: nat, r: Encoder.Record, tmp: Scratch)
    requires At(buf, p, Varint.Encode(r.tag) + Varint.Encode(|r.key|) + Varint.Encode(|r.payload|))
    requires mid == p + |Varint.Encode(r.tag)| + |Varint.Encode(|r.key|)| + |Varint.Encode(|r.payload|)|
    requires At(buf, mid, r.key + r.payload) && RoundTrip.Readable(r)
    requires q == mid + |r.key| + |r.payload|
    requires |r.payload| > 0 || q < |buf|
    ensures Loop(buf, p, Fresh, tmp)
         == Pass([RoundTrip.EntryOf(r)] + Loop(buf, q, Fresh, tmp).entries, Loop(buf, q, Fresh, tmp).end)
  {
    HeaderSteps(buf, p, r.tag, |r.key|, |r.payload|, tmp, mid);
    BodySteps(buf, mid, r.tag, r.key, r.payload, tmp, q);
  }

  /** Records whose last value is not empty: the condition under which the code as
      written reads a whole buffer as intended. */
  predicate EndsNonEmpty(rs: seq<Encoder.Record>) {
    |rs| == 0 || |rs[|rs| - 1].payload| > 0
  }

  /** The first record of an encoding under the cursor, and the rest after it. */
  lemma {:induction false} FirstRecord(buf: Bytes, p: nat, rs: seq<Encoder.Record>)
    requires p <= |buf| && buf[p..] == Encoder.EncodeRecords(rs) && |rs| > 0
    requires RoundTrip.AllReadable(rs) && EndsNonEmpty(rs)
    ensures At(buf, p, Encoder.EncodeRecord(rs[0])) && RoundTrip.Readable(rs[0])
    ensures var q := p + |Encoder.EncodeRecord(rs[0])|;
      && q <= |buf| && buf[q..] == Encoder.EncodeRecords(rs[1..])
      && (|rs[0].payload| > 0 || q < |buf|)
    ensures RoundTrip.AllReadable(rs[1..]) && EndsNonEmpty(rs[1..])
  {
    var e := Encoder.EncodeRecord(rs[0]);
    var q := p + |e|;
    assert buf[p..] == e + Encoder.EncodeRecords(rs[1..]);
    assert buf[p..p + |e|] == buf[p..][..|e|];
    assert buf[q..] == buf[p..][|e|..];
    assert RoundTrip.Readable(rs[0]);
    forall i | 0 <= i < |rs| - 1
      ensures RoundTrip.Readable(rs[1..][i])
    {
      assert rs[1..][i] == rs[i + 1];
    }
    if |rs| > 1 {
      assert rs[1..][|rs| - 2] == rs[|rs| - 1];
      assert Encoder.EncodeRecords(rs[1..]) == Encoder.EncodeRecord(rs[1]) + Encoder.EncodeRecords(rs[2..]);
    }
  }

  lemma {:induction false} LoopRecords(buf: Bytes, p: nat, rs: seq<Encoder.Record>, tmp: Scratch)
    requires p <= |buf| && buf[p..] == Encoder.EncodeRecords(rs)
    requires RoundTrip.AllReadable(rs) && EndsNonEmpty(rs)
    ensures Loop(buf, p, Fresh, tmp) == Pass(RoundTrip.EntriesOf(rs), Between(Fresh, tmp))
    decreases |rs|
  {
    if |rs| > 0 {
      var q := p + |Encoder.EncodeRecord(rs[0])|;
      FirstRecord(buf, p, rs);
      RecordStep(buf, p, rs[0], tmp, q);
      LoopRecords(buf, q, rs[1..], tmp);
      assert RoundTrip.EntriesOf(rs) == [RoundTrip.EntryOf(rs[0])] + RoundTrip.EntriesOf(rs[1..]);
    }
  }

  /** Where the code as written agrees with the intended reader: the whole encoding of
      records in one chunk, the last of them with a nonempty value, yields every record's
      entry in order and leaves a fresh state, as the intended reader does. */
  lemma WholeBufferAsWritten(rs: seq<Encoder.Record>)
    requires RoundTrip.AllReadable(rs) && EndsNonEmpty(rs)
    ensures ReadSyncAsWritten([Encoder.EncodeRecords(rs)])
         == Pass(RoundTrip.EntriesOf(rs), Between(Fresh, InitialScratch))
    ensures ReadSync([Encoder.EncodeRecords(rs)])
         == Decoded(ReadSyncAsWritten([Encoder.EncodeRecords(rs)]).entries, None)
  {
    var b := Encoder.EncodeRecords(rs);
    OneChunk(b);
    assert b[0..] == b;
    LoopRecords(b, 0, rs, InitialScratch);
    RoundTrip.ReadWhole(rs);
  }

  /** The buffer of a successful session whose last record has a nonempty value, read in
      one piece by the code as written, yields each defined value under its key and tag,
      in the order written, and leaves a fresh state. */
  lemma WriteThenReadAsWritten(kvs: seq<(Bytes, Encoder.Input)>)
    requires RoundTrip.AddAll(Encoder.Empty, kvs).Success?
    requires RoundTrip.AllAccepted(kvs) && EndsNonEmpty(RoundTrip.RecordsOf(kvs))
    ensures ReadSyncAsWritten([RoundTrip.AddAll(Encoder.Empty, kvs).value.buffer])
         == Pass(RoundTrip.Written(kvs), Between(Fresh, InitialScratch))
  {
    var rs := RoundTrip.RecordsOf(kvs);
    RoundTrip.AddAllWrites(Encoder.Empty, kvs);
    RoundTrip.RecordsOfEntries(kvs);
    assert Encoder.Empty.buffer + Encoder.EncodeRecords(rs) == Encoder.EncodeRecords(rs);
    WholeBufferAsWritten(rs);
  }
}
