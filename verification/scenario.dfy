/** The session of src/tests/BootBuffer.test.ts (lines 11-34), without its two fractional
    numbers: the values written, read back and collected into an object by key, where a
    later entry overwrites an earlier one with the same key. */
module Scenario {
  import opened Binary
  import opened Wrappers
  import opened Values
  import opened Encoder
  import opened Decoder
  import opened RoundTrip
  import DecoderAsWritten

  /** The UTF-8 bytes of the strings the test uses. */
  const Foo: Bytes := [0x66, 0x6F, 0x6F]
  const Bar: Bytes := [0x62, 0x61, 0x72]
  const Int8: Bytes := [0x69, 0x6E, 0x74, 0x38]
  const TwentyTwo: Bytes := [0x32, 0x32]
  const Json1: Bytes := [0x6A, 0x73, 0x6F, 0x6E, 0x31]
  /** `JSON.stringify({ foo: 'bar' })`, that is `{"foo":"bar"}`. */
  const FooBarJson: Bytes := [0x7B, 0x22, 0x66, 0x6F, 0x6F, 0x22, 0x3A, 0x22, 0x62, 0x61, 0x72, 0x22, 0x7D]

  /** `result[entry.key] = entry.value` for every entry in turn. */
  function Collect(es: seq<Entry>): map<Bytes, Value>
    decreases |es|
  {
    if |es| == 0 then map[]
    else
      var last := es[|es| - 1];
      Collect(es[..|es| - 1])[last.key := last.value]
  }

  /** The key and value of every `bb.add` of the test, in order. */
  function TestSession(): seq<(Bytes, Input)> {
    [ (Foo, Text(Bar)),
      (Int8, Number(13)),
      ([], Text([])),
      ([], Text([])),
      ([], Text(TwentyTwo)),
      (TwentyTwo, Text([])),
      (Json1, Structured(Some(FooBarJson))) ]
  }

  /** The entries the session is meant to produce, as the reader yields them. */
  function TestEntries(): seq<Entry> {
    [ Entry(1, Foo, StringValue(Bar)),
      Entry(2, Int8, NumberValue(13)),
      Entry(1, [], StringValue([])),
      Entry(1, [], StringValue([])),
      Entry(1, [], StringValue(TwentyTwo)),
      Entry(1, TwentyTwo, StringValue([])),
      Entry(9, Json1, JsonValue(FooBarJson)) ]
  }

  lemma SessionWrites()
    ensures AllAccepted(TestSession())
    ensures Written(TestSession()) == TestEntries()
  {
    SessionWritesOf(TestSession(), TestEntries());
  }

  lemma SessionWritesOf(kvs: seq<(Bytes, Input)>, es: seq<Entry>)
    requires kvs == TestSession() && es == TestEntries()
    ensures AllAccepted(kvs) && Written(kvs) == es
  {
    SessionFromTwo(kvs, es);
    assert Written(kvs[1..]) == es[1..] by {
      WrittenFrom(kvs, es, 1);
    }
    assert Written(kvs[0..]) == es[0..] by {
      WrittenFrom(kvs, es, 0);
    }
    assert kvs[0..] == kvs && es[0..] == es;
  }

  lemma SessionFromTwo(kvs: seq<(Bytes, Input)>, es: seq<Entry>)
    requires kvs == TestSession() && es == TestEntries()
    ensures AllAccepted(kvs) && Written(kvs[2..]) == es[2..]
  {
    SessionFromFour(kvs, es);
    assert Written(kvs[3..]) == es[3..] by {
      WrittenFrom(kvs, es, 3);
    }
    assert Written(kvs[2..]) == es[2..] by {
      WrittenFrom(kvs, es, 2);
    }
  }

  lemma SessionFromFour(kvs: seq<(Bytes, Input)>, es: seq<Entry>)
    requires kvs == TestSession() && es == TestEntries()
    ensures AllAccepted(kvs) && Written(kvs[4..]) == es[4..]
  {
    assert AllAccepted(kvs);
    assert Written(kvs[6..]) == es[6..] by {
      assert |kvs[7..]| == 0;
      WrittenFrom(kvs, es, 6);
    }
    assert Written(kvs[5..]) == es[5..] by {
      WrittenFrom(kvs, es, 5);
    }
    assert Written(kvs[4..]) == es[4..] by {
      WrittenFrom(kvs, es, 4);
    }
  }

  /** One step of the session: a defined value written at position i is read back as the
      entry expected there. */
  lemma WrittenFrom(kvs: seq<(Bytes, Input)>, es: seq<Entry>, i: nat)
    requires AllAccepted(kvs) && |kvs| == |es| && i < |kvs|
    requires !kvs[i].1.Undefined?
    requires es[i] == Entry(EncodeValue(kvs[i].1).value.valueType.Code(), kvs[i].0, Expected(kvs[i].1))
    requires Written(kvs[i + 1..]) == es[i + 1..]
    ensures Written(kvs[i..]) == es[i..]
  {
    assert kvs[i..][0] == kvs[i];
    assert kvs[i..][1..] == kvs[i + 1..];
    assert es[i..] == [es[i]] + es[i + 1..];
  }

  lemma CollectTestEntries()
    ensures var m := Collect(TestEntries());
      && Foo in m && m[Foo] == StringValue(Bar)
      && Int8 in m && m[Int8] == NumberValue(13)
      && TwentyTwo in m && m[TwentyTwo] == StringValue([])
      && [] in m && m[[]] == StringValue(TwentyTwo)
      && Json1 in m && m[Json1] == JsonValue(FooBarJson)
  {
    var es := TestEntries();
    var m1 := Collect(es[..1]);
    assert es[..1][..0] == [];
    var m2 := Collect(es[..2]);
    assert es[..2][..1] == es[..1];
    var m3 := Collect(es[..3]);
    assert es[..3][..2] == es[..2];
    var m4 := Collect(es[..4]);
    assert es[..4][..3] == es[..3];
    var m5 := Collect(es[..5]);
    assert es[..5][..4] == es[..4];
    var m6 := Collect(es[..6]);
    assert es[..6][..5] == es[..5];
    assert es[..7] == es;
    assert es[..7][..6] == es[..6];
  }

  /** The expectations of the test: the session writes without throwing, its buffer reads
      back to the end, and the collected object has the values the test expects. */
  lemma TestFile()
    ensures AddAll(Empty, TestSession()).Success?
    ensures var r := ReadSync([AddAll(Empty, TestSession()).value.buffer]);
      var m := Collect(r.entries);
      && r.error == None
      && Foo in m && m[Foo] == StringValue(Bar)
      && Int8 in m && m[Int8] == NumberValue(13)
      && TwentyTwo in m && m[TwentyTwo] == StringValue([])
      && [] in m && m[[]] == StringValue(TwentyTwo)
      && Json1 in m && m[Json1] == JsonValue(FooBarJson)
  {
    SessionWrites();
    AddAllWrites(Empty, TestSession());
    WriteThenRead(TestSession());
    CollectTestEntries();
  }

  /** The same expectations hold of the code as written: its last record has a nonempty
      value, so the literal loop reads the buffer to its end and yields the same entries. */
  lemma TestFileAsWritten()
    ensures AddAll(Empty, TestSession()).Success?
    ensures var p := DecoderAsWritten.ReadSyncAsWritten([AddAll(Empty, TestSession()).value.buffer]);
      var m := Collect(p.entries);
      && p.end == DecoderAsWritten.Between(DecoderAsWritten.Fresh, DecoderAsWritten.InitialScratch)
      && Foo in m && m[Foo] == StringValue(Bar)
      && Int8 in m && m[Int8] == NumberValue(13)
      && TwentyTwo in m && m[TwentyTwo] == StringValue([])
      && [] in m && m[[]] == StringValue(TwentyTwo)
      && Json1 in m && m[Json1] == JsonValue(FooBarJson)
  {
    TestFile();
    LastValueNonEmpty();
    DecoderAsWritten.WriteThenReadAsWritten(TestSession());
    WriteThenRead(TestSession());
  }

  /** The session's last value, the JSON text of `{ foo: 'bar' }`, is written last. */
  lemma LastValueNonEmpty()
    ensures AllAccepted(TestSession())
    ensures DecoderAsWritten.EndsNonEmpty(RecordsOf(TestSession()))
  {
    var kvs := TestSession();
    SessionWrites();
    assert kvs[|kvs| - 1] == (Json1, Structured(Some(FooBarJson)));
    assert EncodeValue(Structured(Some(FooBarJson))) == Success(Payload(JsonType, FooBarJson));
    LastRecord(kvs);
  }
}
