/** What the writer and the reader promise each other: the records `add` lays out come back
    from `readSync` in order, with their keys and values, however the stream is cut into
    chunks, as long as every field of a record fits the reader's 4096-byte scratch buffer.
    The test file src/tests/BootBuffer.test.ts exercises this for one buffer. */
module RoundTrip {
  import opened Binary
  import opened Wrappers
  import opened Values
  import opened Encoder
  import opened Decoder
  import Varint

  /** A record whose value bytes its tag's reader accepts. */
  predicate Readable(r: Record) {
    ParseValue(r.payload, r.tag).Success?
  }

  /** The entry the reader is meant to yield for a record. */
  function EntryOf(r: Record): Entry
    requires Readable(r)
  {
    Entry(r.tag, r.key, ParseValue(r.payload, r.tag).value)
  }

  predicate AllReadable(rs: seq<Record>) {
    forall i :: 0 <= i < |rs| ==> Readable(rs[i])
  }

  function EntriesOf(rs: seq<Record>): (es: seq<Entry>)
    requires AllReadable(rs)
    ensures |es| == |rs|
    ensures forall i :: 0 <= i < |rs| ==> es[i] == EntryOf(rs[i])
  {
    if |rs| == 0 then [] else [EntryOf(rs[0])] + EntriesOf(rs[1..])
  }

  /** Reading a varint that was written whole moves on to the next field. */
  lemma RunVarintStep(phase: Phase, n: nat, tail: Bytes)
    requires AwaitsVarint(phase)
    ensures Run(phase, Varint.Encode(n) + tail) == Run(AfterVarint(phase, n), tail)
  {
    var s := Varint.Encode(n) + tail;
    Varint.DecodeEncode(n, tail);
    assert s[|Varint.Encode(n)|..] == tail;
  }

  /** Reading a key that is there whole moves on to its value. */
  lemma RunKeyStep(tag: nat, key: Bytes, valueLength: nat, tail: Bytes)
    ensures Run(AwaitKey(tag, |key|, valueLength), key + tail)
         == Run(AwaitValue(tag, key, valueLength, []), tail)
  {
    var s := key + tail;
    assert s[..|key|] == key && s[|key|..] == tail;
  }

  /** A value whose bytes are there whole is filled in one step. */
  lemma RunValueStep(tag: nat, key: Bytes, value: Bytes, rest: Bytes)
    ensures Run(AwaitValue(tag, key, |value|, []), value + rest)
         == Run(AwaitValue(tag, key, |value|, value), rest)
  {
    if |value| > 0 {
      var s := value + rest;
      FillStep(tag, key, |value|, [], s, |value|);
      assert s[..|value|] == value && s[|value|..] == rest;
      assert [] + value == value;
    } else {
      assert value + rest == rest;
    }
  }

  /** A complete value is parsed and yielded, and reading starts over. */
  lemma RunYieldStep(r: Record, rest: Bytes)
    requires Readable(r)
    ensures Run(AwaitValue(r.tag, r.key, |r.payload|, r.payload), rest)
         == Prepend(EntryOf(r), Run(AwaitType, rest))
  {
  }

  /** One record, followed by anything, is read as its entry followed by what the rest
      gives. */
  lemma DecodeRecord(r: Record, rest: Bytes)
    requires Readable(r)
    ensures Run(AwaitType, EncodeRecord(r) + rest) == Prepend(EntryOf(r), Run(AwaitType, rest))
  {
    var t, k, v := Varint.Encode(r.tag), Varint.Encode(|r.key|), Varint.Encode(|r.payload|);
    var afterKey := r.payload + rest;
    var s3 := r.key + afterKey;
    var s2 := v + s3;
    var s1 := k + s2;
    assert EncodeRecord(r) + rest == t + s1;
    RunVarintStep(AwaitType, r.tag, s1);
    RunVarintStep(AwaitKeyLength(r.tag), |r.key|, s2);
    RunVarintStep(AwaitValueLength(r.tag, |r.key|), |r.payload|, s3);
    RunKeyStep(r.tag, r.key, |r.payload|, afterKey);
    RunValueStep(r.tag, r.key, r.payload, rest);
    RunYieldStep(r, rest);
  }

  /** Records written one after another, followed by anything, are read as their entries
      in order, followed by what the rest gives. */
  lemma {:induction false} DecodeRecords(rs: seq<Record>, rest: Bytes)
    requires AllReadable(rs)
    ensures Run(AwaitType, EncodeRecords(rs) + rest) == Append(EntriesOf(rs), Run(AwaitType, rest))
    decreases |rs|
  {
    if |rs| == 0 {
      assert EncodeRecords(rs) + rest == rest;
    } else {
      var tail := EncodeRecords(rs[1..]) + rest;
      assert EncodeRecords(rs) + rest == EncodeRecord(rs[0]) + tail;
      assert AllReadable(rs[1..]) by {
        forall i | 0 <= i < |rs[1..]| ensures Readable(rs[1..][i]) {
          assert rs[1..][i] == rs[i + 1];
        }
      }
      DecodeRecord(rs[0], tail);
      DecodeRecords(rs[1..], rest);
      var q := Run(AwaitType, rest);
      assert EntriesOf(rs) == [EntryOf(rs[0])] + EntriesOf(rs[1..]);
      PrependAppend(EntryOf(rs[0]), EntriesOf(rs[1..]), q);
    }
  }

  lemma PrependAppend(e: Entry, es: seq<Entry>, q: Progress)
    ensures Prepend(e, Append(es, q)) == Append([e] + es, q)
  {
    assert [e] + (es + q.entries) == ([e] + es) + q.entries;
  }

  /** `readSync` of the whole encoding as one buffer yields every record's entry, in order,
      and ends cleanly. */
  lemma ReadWhole(rs: seq<Record>)
    requires AllReadable(rs)
    ensures ReadSync([EncodeRecords(rs)]) == Decoded(EntriesOf(rs), None)
  {
    var b := EncodeRecords(rs);
    DecodeRecords(rs, []);
    assert b + [] == b;
    assert Initial.carry + b == b;
    var p := Feed(Initial, b);
    assert p == Progress(EntriesOf(rs) + [], Suspended(Initial));
    assert FeedAll(Initial, [b]) == Append(p.entries, FeedAll(Initial, []));
    assert EntriesOf(rs) + [] + [] == EntriesOf(rs);
  }

  /** Every field of the record fits the scratch buffer that holds an unfinished field
      between chunks: the key and each varint are at most 4096 bytes long. */
  predicate FitsScratch(r: Record) {
    && |Varint.Encode(r.tag)| <= TmpBufferSize
    && |r.key| <= TmpBufferSize
    && |Varint.Encode(|r.payload|)| <= TmpBufferSize
  }

  predicate AllFit(rs: seq<Record>) {
    forall i :: 0 <= i < |rs| ==> FitsScratch(rs[i])
  }

  /** The bytes of a record after its tag, after its key length and after its value
      length. */
  function AfterTag(r: Record): Bytes {
    Varint.Encode(|r.key|) + AfterKeyLength(r)
  }

  function AfterKeyLength(r: Record): Bytes {
    Varint.Encode(|r.payload|) + AfterValueLength(r)
  }

  function AfterValueLength(r: Record): Bytes {
    r.key + r.payload
  }

  /** The reader has yielded nothing and waits in the middle of a record. */
  predicate Pending(p: Progress) {
    p.entries == [] && p.outcome.Suspended? && p.outcome.state != Initial
  }

  lemma PrefixOfConcat(a: Bytes, b: Bytes, j: nat)
    requires |a| <= j <= |a| + |b|
    ensures (a + b)[..j] == a + b[..j - |a|]
  {
  }

  /** Part of a varint: the reader waits with it as its carry. */
  lemma PartialVarint(phase: Phase, n: nat, j: nat)
    requires AwaitsVarint(phase)
    requires j < |Varint.Encode(n)| && j <= TmpBufferSize
    ensures Run(phase, Varint.Encode(n)[..j])
         == Progress([], Suspended(DecoderState(phase, Varint.Encode(n)[..j])))
  {
    Varint.DecodeEncode(n, []);
  }

  lemma PrefixInValue(r: Record, j: nat)
    requires FitsScratch(r) && j < |AfterValueLength(r)|
    ensures Pending(Run(AwaitKey(r.tag, |r.key|, |r.payload|), AfterValueLength(r)[..j]))
  {
    var x := AfterValueLength(r)[..j];
    if j >= |r.key| {
      var m := j - |r.key|;
      PrefixOfConcat(r.key, r.payload, j);
      RunKeyStep(r.tag, r.key, |r.payload|, r.payload[..m]);
      if m > 0 {
        FillStep(r.tag, r.key, |r.payload|, [], r.payload[..m], m);
        assert r.payload[..m][m..] == [];
      }
    }
  }

  lemma PrefixAfterKeyLength(r: Record, j: nat)
    requires FitsScratch(r) && j < |AfterKeyLength(r)|
    ensures Pending(Run(AwaitValueLength(r.tag, |r.key|), AfterKeyLength(r)[..j]))
  {
    var v := Varint.Encode(|r.payload|);
    if j < |v| {
      assert AfterKeyLength(r)[..j] == v[..j];
      PartialVarint(AwaitValueLength(r.tag, |r.key|), |r.payload|, j);
    } else {
      PrefixOfConcat(v, AfterValueLength(r), j);
      RunVarintStep(AwaitValueLength(r.tag, |r.key|), |r.payload|, AfterValueLength(r)[..j - |v|]);
      PrefixInValue(r, j - |v|);
    }
  }

  lemma PrefixAfterTag(r: Record, j: nat)
    requires FitsScratch(r) && j < |AfterTag(r)|
    ensures Pending(Run(AwaitKeyLength(r.tag), AfterTag(r)[..j]))
  {
    var k := Varint.Encode(|r.key|);
    if j < |k| {
      PrefixInKeyLength(r, j);
    } else {
      PrefixOfConcat(k, AfterKeyLength(r), j);
      PrefixPastKeyLength(r, AfterKeyLength(r)[..j - |k|]);
    }
  }

  lemma PrefixInKeyLength(r: Record, j: nat)
    requires FitsScratch(r) && j < |Varint.Encode(|r.key|)|
    ensures Pending(Run(AwaitKeyLength(r.tag), AfterTag(r)[..j]))
  {
    var k := Varint.Encode(|r.key|);
    assert AfterTag(r)[..j] == k[..j];
    Varint.EncodeShort(|r.key|);
    PartialVarint(AwaitKeyLength(r.tag), |r.key|, j);
  }

  lemma PrefixPastKeyLength(r: Record, y: Bytes)
    requires FitsScratch(r) && |y| < |AfterKeyLength(r)| && y == AfterKeyLength(r)[..|y|]
    ensures Pending(Run(AwaitKeyLength(r.tag), Varint.Encode(|r.key|) + y))
  {
    RunVarintStep(AwaitKeyLength(r.tag), |r.key|, y);
    PrefixAfterKeyLength(r, |y|);
  }

  /** A reader given a nonempty proper prefix of a record yields nothing and waits for the
      rest of it. */
  lemma RecordPrefix(r: Record, j: nat)
    requires FitsScratch(r) && 0 < j < |EncodeRecord(r)|
    ensures Pending(Run(AwaitType, EncodeRecord(r)[..j]))
  {
    RecordLayout(r);
    PrefixFromTag(r, j);
  }

  lemma PrefixFromTag(r: Record, j: nat)
    requires FitsScratch(r) && 0 < j < |Varint.Encode(r.tag) + AfterTag(r)|
    ensures Pending(Run(AwaitType, (Varint.Encode(r.tag) + AfterTag(r))[..j]))
  {
    var t := Varint.Encode(r.tag);
    if j < |t| {
      PrefixInTag(r, j);
    } else {
      PrefixOfConcat(t, AfterTag(r), j);
      PrefixPastTag(r, AfterTag(r)[..j - |t|]);
    }
  }

  lemma PrefixInTag(r: Record, j: nat)
    requires FitsScratch(r) && 0 < j < |Varint.Encode(r.tag)|
    ensures Pending(Run(AwaitType, (Varint.Encode(r.tag) + AfterTag(r))[..j]))
  {
    var t := Varint.Encode(r.tag);
    assert (t + AfterTag(r))[..j] == t[..j];
    PartialVarint(AwaitType, r.tag, j);
    assert t[..j] != [];
  }

  lemma PrefixPastTag(r: Record, y: Bytes)
    requires FitsScratch(r) && |y| < |AfterTag(r)| && y == AfterTag(r)[..|y|]
    ensures Pending(Run(AwaitType, Varint.Encode(r.tag) + y))
  {
    RunVarintStep(AwaitType, r.tag, y);
    PrefixAfterTag(r, |y|);
  }

  lemma RecordLayout(r: Record)
    ensures EncodeRecord(r) == Varint.Encode(r.tag) + AfterTag(r)
  {
    var t, k, v := Varint.Encode(r.tag), Varint.Encode(|r.key|), Varint.Encode(|r.payload|);
    calc {
      EncodeRecord(r);
      t + k + v + r.key + r.payload;
      t + (k + (v + (r.key + r.payload)));
    }
  }

  /** No prefix of a stream of records that fit the scratch buffer makes the reader fail. */
  lemma {:induction false} RecordsPrefix(rs: seq<Record>, j: nat)
    requires AllReadable(rs) && AllFit(rs) && j <= |EncodeRecords(rs)|
    ensures Run(AwaitType, EncodeRecords(rs)[..j]).outcome.Suspended?
    decreases |rs|
  {
    if j > 0 {
      var e, tail := EncodeRecord(rs[0]), EncodeRecords(rs[1..]);
      assert EncodeRecords(rs) == e + tail;
      if j < |e| {
        assert EncodeRecords(rs)[..j] == e[..j];
        RecordPrefix(rs[0], j);
      } else {
        PrefixOfConcat(e, tail, j);
        DecodeRecord(rs[0], tail[..j - |e|]);
        RecordsPrefix(rs[1..], j - |e|);
      }
    }
  }

  /** Chunk-invariance of the round trip: however the encoding of records is cut into
      chunks, `readSync` yields every record's entry in order and ends cleanly, provided
      each record's fields fit the scratch buffer. */
  lemma ReadChunked(rs: seq<Record>, chunks: seq<Bytes>)
    requires AllReadable(rs) && AllFit(rs)
    requires Flatten(chunks) == EncodeRecords(rs)
    ensures ReadSync(chunks) == Decoded(EntriesOf(rs), None)
  {
    var b := EncodeRecords(rs);
    forall j | 0 <= j <= |b|
      ensures !Overflowed(Feed(Initial, b[..j]))
    {
      assert Initial.carry + b[..j] == b[..j];
      RecordsPrefix(rs, j);
    }
    FeedAllNoOverflow(Initial, chunks);
    ReadSyncChunkInvariant(chunks);
    ReadWhole(rs);
  }

  /** An empty key and an empty value are read as such: the record still yields its entry,
      with the empty key and the value its tag makes of no bytes. */
  lemma EmptyKeyAndValue(tag: nat)
    requires MinLength(tag) == 0
    ensures ReadSync([EncodeRecord(Record(tag, [], []))])
         == Decoded([Entry(tag, [], ParseValue([], tag).value)], None)
  {
    var r := Record(tag, [], []);
    var rs := [r];
    assert rs[0] == r && rs[1..] == [];
    assert EncodeRecords(rs) == EncodeRecord(r) + EncodeRecords([]);
    assert EncodeRecords(rs) == EncodeRecord(r);
    assert Readable(r);
    assert AllReadable(rs);
    ReadWhole(rs);
    assert EntriesOf(rs)[0] == EntryOf(r);
    assert EntriesOf(rs) == [EntryOf(r)];
  }

  /** A stream that stops inside a record yields the records before it and then reports
      the truncation. */
  lemma ReadTruncated(rs: seq<Record>, r: Record, j: nat)
    requires AllReadable(rs) && FitsScratch(r) && 0 < j < |EncodeRecord(r)|
    ensures ReadSync([EncodeRecords(rs) + EncodeRecord(r)[..j]]) == Decoded(EntriesOf(rs), Some(Truncated))
  {
    var x := EncodeRecord(r)[..j];
    var b := EncodeRecords(rs) + x;
    DecodeRecords(rs, x);
    RecordPrefix(r, j);
    assert Initial.carry + b == b;
    var p := Feed(Initial, b);
    assert p.entries == EntriesOf(rs) + [];
    assert FeedAll(Initial, [b]) == Append(p.entries, FeedAll(p.outcome.state, []));
    assert EntriesOf(rs) + [] + [] == EntriesOf(rs);
  }

  /** A writer session: `add` for each key and value in turn. */
  function AddAll(bb: BootBuffer, kvs: seq<(Bytes, Input)>): Result<BootBuffer, EncodeError>
    decreases |kvs|
  {
    if |kvs| == 0 then Success(bb)
    else
      var next :- Add(bb, kvs[0].0, kvs[0].1);
      AddAll(next, kvs[1..])
  }

  /** A value `add` does not throw on. */
  predicate Accepted(v: Input) {
    v.Undefined? || !Rejected(v)
  }

  predicate AllAccepted(kvs: seq<(Bytes, Input)>) {
    forall i :: 0 <= i < |kvs| ==> Accepted(kvs[i].1)
  }

  lemma AcceptedCons(kvs: seq<(Bytes, Input)>)
    requires |kvs| > 0
    ensures AllAccepted(kvs) <==> Accepted(kvs[0].1) && AllAccepted(kvs[1..])
  {
    if Accepted(kvs[0].1) && AllAccepted(kvs[1..]) {
      forall i | 0 < i < |kvs| ensures Accepted(kvs[i].1) {
        assert kvs[i] == kvs[1..][i - 1];
      }
    }
    if AllAccepted(kvs) {
      forall i | 0 <= i < |kvs| - 1 ensures Accepted(kvs[1..][i].1) {
        assert kvs[1..][i] == kvs[i + 1];
      }
    }
  }

  /** The records a session writes: one per defined value. */
  function RecordsOf(kvs: seq<(Bytes, Input)>): seq<Record>
    requires AllAccepted(kvs)
    decreases |kvs|
  {
    if |kvs| == 0 then []
    else
      var (key, v) := kvs[0];
      if v.Undefined? then RecordsOf(kvs[1..])
      else [RecordOf(key, EncodeValue(v).value)] + RecordsOf(kvs[1..])
  }

  /** What a reader of the session's buffer should see: the defined values, in order of
      writing, under their keys and tags. */
  function Written(kvs: seq<(Bytes, Input)>): seq<Entry>
    requires AllAccepted(kvs)
    decreases |kvs|
  {
    if |kvs| == 0 then []
    else
      var (key, v) := kvs[0];
      if v.Undefined? then Written(kvs[1..])
      else [Entry(EncodeValue(v).value.valueType.Code(), key, Expected(v))] + Written(kvs[1..])
  }

  lemma EncodeRecordsCons(r: Record, rs: seq<Record>)
    ensures EncodeRecords([r] + rs) == EncodeRecord(r) + EncodeRecords(rs)
  {
    assert ([r] + rs)[1..] == rs;
  }

  /** A session succeeds exactly when no value is rejected, and then it has appended the
      records of its defined values, in order. */
  lemma AddAllWrites(bb: BootBuffer, kvs: seq<(Bytes, Input)>)
    ensures AddAll(bb, kvs).Success? <==> AllAccepted(kvs)
    ensures AddAll(bb, kvs).Success? ==>
      AddAll(bb, kvs).value.buffer == bb.buffer + EncodeRecords(RecordsOf(kvs))
  {
    AddAllAccepts(bb, kvs);
    if AllAccepted(kvs) {
      AddAllBuffer(bb, kvs);
    }
  }

  lemma {:induction false} AddAllAccepts(bb: BootBuffer, kvs: seq<(Bytes, Input)>)
    ensures AddAll(bb, kvs).Success? <==> AllAccepted(kvs)
    decreases |kvs|
  {
    if |kvs| > 0 {
      if !Accepted(kvs[0].1) {
        AddAllRejected(bb, kvs);
      } else {
        AddAllStep(bb, kvs);
        AcceptedCons(kvs);
        AddAllAccepts(BootBuffer(bb.buffer + EncodedBytes(kvs[0].0, kvs[0].1)), kvs[1..]);
      }
    }
  }

  lemma {:induction false} AddAllBuffer(bb: BootBuffer, kvs: seq<(Bytes, Input)>)
    requires AllAccepted(kvs)
    ensures AddAll(bb, kvs) == Success(BootBuffer(bb.buffer + EncodeRecords(RecordsOf(kvs))))
    decreases |kvs|
  {
    if |kvs| == 0 {
      assert bb.buffer + [] == bb.buffer;
    } else {
      var bytes := EncodedBytes(kvs[0].0, kvs[0].1);
      var next := BootBuffer(bb.buffer + bytes);
      assert AllAccepted(kvs[1..]) && AddAll(bb, kvs) == AddAll(next, kvs[1..]) by {
        AcceptedCons(kvs);
        AddAllStep(bb, kvs);
      }
      var later := EncodeRecords(RecordsOf(kvs[1..]));
      assert AddAll(next, kvs[1..]) == Success(BootBuffer(next.buffer + later)) by {
        AddAllBuffer(next, kvs[1..]);
      }
      assert EncodeRecords(RecordsOf(kvs)) == bytes + later by {
        RecordsOfCons(kvs);
      }
      ConcatAssoc(bb.buffer, bytes, later);
    }
  }

  lemma ConcatAssoc(a: Bytes, b: Bytes, c: Bytes)
    ensures (a + b) + c == a + (b + c)
  { }

  /** A session stops at the first value `add` throws on. */
  lemma AddAllRejected(bb: BootBuffer, kvs: seq<(Bytes, Input)>)
    requires |kvs| > 0 && !Accepted(kvs[0].1)
    ensures AddAll(bb, kvs).Failure? && !AllAccepted(kvs)
  {
    assert Add(bb, kvs[0].0, kvs[0].1).Failure?;
  }

  lemma AddAllStep(bb: BootBuffer, kvs: seq<(Bytes, Input)>)
    requires |kvs| > 0 && Accepted(kvs[0].1)
    ensures AddAll(bb, kvs) == AddAll(BootBuffer(bb.buffer + EncodedBytes(kvs[0].0, kvs[0].1)), kvs[1..])
  {
    var bytes := EncodedBytes(kvs[0].0, kvs[0].1);
    assert Add(bb, kvs[0].0, kvs[0].1) == Success(BootBuffer(bb.buffer + bytes));
  }

  /** The bytes `addEntry` writes for an accepted value: none for an undefined one. */
  function EncodedBytes(key: Bytes, v: Input): (r: Bytes)
    requires Accepted(v)
    ensures AddEntry(key, v) == Success(r)
  {
    if v.Undefined? then [] else EncodeRecord(RecordOf(key, EncodeValue(v).value))
  }

  lemma RecordsOfCons(kvs: seq<(Bytes, Input)>)
    requires |kvs| > 0 && AllAccepted(kvs)
    ensures AllAccepted(kvs[1..])
    ensures EncodeRecords(RecordsOf(kvs)) == EncodedBytes(kvs[0].0, kvs[0].1) + EncodeRecords(RecordsOf(kvs[1..]))
  {
    AcceptedCons(kvs);
    var (key, v) := kvs[0];
    if v.Undefined? {
      assert EncodedBytes(key, v) + EncodeRecords(RecordsOf(kvs[1..])) == EncodeRecords(RecordsOf(kvs[1..]));
    } else {
      EncodeRecordsCons(RecordOf(key, EncodeValue(v).value), RecordsOf(kvs[1..]));
    }
  }


  /** The records a session writes are read back as the entries it means. */
  lemma {:induction false} RecordsOfEntries(kvs: seq<(Bytes, Input)>)
    requires AllAccepted(kvs)
    ensures AllReadable(RecordsOf(kvs))
    ensures EntriesOf(RecordsOf(kvs)) == Written(kvs)
    decreases |kvs|
  {
    if |kvs| > 0 {
      AcceptedCons(kvs);
      RecordsOfEntries(kvs[1..]);
      var (key, v) := kvs[0];
      if !v.Undefined? {
        ValueReadsBack(v);
        var rec := RecordOf(key, EncodeValue(v).value);
        var rs := [rec] + RecordsOf(kvs[1..]);
        assert rs[1..] == RecordsOf(kvs[1..]);
      }
    }
  }

  /** The writer's round trip: the buffer of a session that did not throw reads back, in one
      piece, as the defined values in order under their keys. */
  lemma WriteThenRead(kvs: seq<(Bytes, Input)>)
    requires AddAll(Empty, kvs).Success?
    ensures AllAccepted(kvs)
    ensures ReadSync([AddAll(Empty, kvs).value.buffer]) == Decoded(Written(kvs), None)
  {
    AddAllWrites(Empty, kvs);
    RecordsOfEntries(kvs);
    assert Empty.buffer + EncodeRecords(RecordsOf(kvs)) == EncodeRecords(RecordsOf(kvs));
    ReadWhole(RecordsOf(kvs));
  }

  /** The last record of a session is the record of its last value, when that value is
      defined. */
  lemma {:induction false} LastRecord(kvs: seq<(Bytes, Input)>)
    requires |kvs| > 0 && AllAccepted(kvs) && !kvs[|kvs| - 1].1.Undefined?
    ensures var rs := RecordsOf(kvs);
      && |rs| > 0
      && rs[|rs| - 1] == RecordOf(kvs[|kvs| - 1].0, EncodeValue(kvs[|kvs| - 1].1).value)
    decreases |kvs|
  {
    AcceptedCons(kvs);
    var tail := kvs[1..];
    if |kvs| == 1 {
      assert tail == [];
    } else {
      assert tail[|tail| - 1] == kvs[|kvs| - 1];
      LastRecord(tail);
    }
  }

  /** The length of the bytes `add` writes for a value, beyond a fixed-width number. */
  function ValueSize(v: Input): nat {
    match v
    case Buffer(b) => |b|
    case Text(utf8) => |utf8|
    case Structured(Some(text)) => |text|
    case _ => 0
  }

  /** A key and value whose record fits the reader's scratch buffer. */
  predicate SmallEnough(kv: (Bytes, Input)) {
    |kv.0| <= TmpBufferSize && |Varint.Encode(ValueSize(kv.1))| <= TmpBufferSize
  }

  lemma {:induction false} RecordsOfFit(kvs: seq<(Bytes, Input)>)
    requires AllAccepted(kvs)
    requires forall i :: 0 <= i < |kvs| ==> SmallEnough(kvs[i])
    ensures AllFit(RecordsOf(kvs))
    decreases |kvs|
  {
    if |kvs| > 0 {
      assert AllAccepted(kvs[1..]) by {
        AcceptedCons(kvs);
      }
      assert forall i :: 0 <= i < |kvs| - 1 ==> SmallEnough(kvs[1..][i]) by {
        forall i | 0 <= i < |kvs| - 1 ensures SmallEnough(kvs[1..][i]) {
          assert kvs[1..][i] == kvs[i + 1];
        }
      }
      RecordsOfFit(kvs[1..]);
      var (key, v) := kvs[0];
      if !v.Undefined? {
        assert Accepted(v) && SmallEnough(kvs[0]);
        var rec := RecordOfFits(key, v);
        AllFitCons(rec, RecordsOf(kvs[1..]));
      }
    }
  }

  /** The record of one accepted value whose key and length are small enough fits. */
  lemma {:induction false} RecordOfFits(key: Bytes, v: Input) returns (rec: Record)
    requires !v.Undefined? && !Rejected(v) && SmallEnough((key, v))
    ensures rec == RecordOf(key, EncodeValue(v).value)
    ensures FitsScratch(rec)
  {
    PayloadSize(v);
    rec := RecordOf(key, EncodeValue(v).value);
    PayloadFits(key, EncodeValue(v).value, ValueSize(v));
  }

  lemma {:induction false} PayloadFits(key: Bytes, p: Payload, size: nat)
    requires |key| <= TmpBufferSize && |Varint.Encode(size)| <= TmpBufferSize
    requires |p.bytes| <= 8 || |p.bytes| == size
    ensures FitsScratch(RecordOf(key, p))
  {
    OneByteVarint(p.valueType.Code());
    if |p.bytes| <= 8 {
      OneByteVarint(|p.bytes|);
    }
  }

  lemma {:induction false} OneByteVarint(n: nat)
    requires n < 0x80
    ensures |Varint.Encode(n)| == 1
  {
  }

  /** A value's bytes are a fixed-width number of at most eight bytes, or as long as the
      bytes the caller supplied. */
  lemma {:induction false} PayloadSize(v: Input)
    requires !v.Undefined? && !Rejected(v)
    ensures |EncodeValue(v).value.bytes| <= 8 || |EncodeValue(v).value.bytes| == ValueSize(v)
  {
    match v
    case Number(n) =>
    case _ =>
  }

  lemma AllFitCons(r: Record, rs: seq<Record>)
    requires FitsScratch(r) && AllFit(rs)
    ensures AllFit([r] + rs)
  {
    forall i | 0 <= i < |[r] + rs| ensures FitsScratch(([r] + rs)[i]) {
      if i > 0 {
        assert ([r] + rs)[i] == rs[i - 1];
      }
    }
  }

  /** The writer's round trip over any chunking of its buffer: when every key is at most
      4096 bytes, the reader yields the defined values in order under their keys. */
  lemma WriteThenReadChunked(kvs: seq<(Bytes, Input)>, chunks: seq<Bytes>)
    requires AddAll(Empty, kvs).Success?
    requires forall i :: 0 <= i < |kvs| ==> SmallEnough(kvs[i])
    requires Flatten(chunks) == AddAll(Empty, kvs).value.buffer
    ensures AllAccepted(kvs)
    ensures ReadSync(chunks) == Decoded(Written(kvs), None)
  {
    AddAllWrites(Empty, kvs);
    RecordsOfEntries(kvs);
    RecordsOfFit(kvs);
    assert Empty.buffer + EncodeRecords(RecordsOf(kvs)) == EncodeRecords(RecordsOf(kvs));
    ReadChunked(RecordsOf(kvs), chunks);
  }
}
