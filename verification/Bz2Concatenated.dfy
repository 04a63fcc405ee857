/** bz2/bz2_filter.c: the bzip2.decompress filter with the "concatenated" option, on an
    input of several streams. */
module Bz2Concatenated {
  import opened Bz2Codec
  import opened Bz2Decompress
  import opened Options

  /** The decoding of one stream after the other. */
  function DecodeStreams(f: Format, x: seq<Byte>): seq<Byte>
    decreases |x|
  {
    var s := Stream(f, x);
    if s == [] || !f.ends(s) then f.decode(s) else f.decode(s) + DecodeStreams(f, x[|s|..])
  }

  lemma {:induction false} FirstStream(f: Format, s: seq<Byte>, y: seq<Byte>)
    requires s != [] && f.ends(s) && Open(f, s)
    ensures DecodeStreams(f, s + y) == f.decode(s) + DecodeStreams(f, y)
  {
    StreamOfEnded(f, s, s + y, 0);
    assert (s + y)[|s|..] == y;
  }

  lemma {:induction false} LastStream(f: Format, x: seq<Byte>)
    requires Open(f, x) && f.decode([]) == []
    ensures DecodeStreams(f, x) == f.decode(x)
  {
    StreamOfOpen(f, x, 0);
    if x != [] && f.ends(x) {
      assert x[|x|..] == [];
      StreamOfOpen(f, [], 0);
    }
  }

  /** The streams in `done` decode to `out`, whatever follows them. */
  ghost predicate Read(f: Format, done: seq<Byte>, out: seq<Byte>) {
    forall y :: ReadBefore(f, done, out, y)
  }

  ghost predicate ReadBefore(f: Format, done: seq<Byte>, out: seq<Byte>, y: seq<Byte>) {
    DecodeStreams(f, done + y) == out + DecodeStreams(f, y)
  }

  lemma {:induction false} ReadNothing(f: Format)
    ensures Read(f, [], [])
  {
    forall y
      ensures ReadBefore(f, [], [], y)
    {
      assert [] + y == y && [] + DecodeStreams(f, y) == DecodeStreams(f, y);
    }
  }

  lemma {:induction false} ReadOneMore(f: Format, done: seq<Byte>, out: seq<Byte>, s: seq<Byte>)
    requires Read(f, done, out) && s != [] && f.ends(s) && Open(f, s)
    ensures Read(f, done + s, out + f.decode(s))
  {
    forall y
      ensures ReadBefore(f, done + s, out + f.decode(s), y)
    {
      assert ReadBefore(f, done, out, s + y);
      FirstStream(f, s, y);
      assert done + s + y == done + (s + y);
      assert out + f.decode(s) + DecodeStreams(f, y) == out + (f.decode(s) + DecodeStreams(f, y));
    }
  }

  /** Of the input `x` the streams in `done` are read, and the rest was fed to the
      decoder at work. */
  ghost predicate InSequence(f: Format, st: State, x: seq<Byte>, done: seq<Byte>, out: seq<Byte>) {
    var s := st.session;
    && st.status != Finished && Read(f, done, out)
    && (st.status == Uninitialized ==> x == done && st.output == out)
    && (st.status == Running ==>
          x == done + s.fed && st.output == out + s.emitted && Open(f, s.fed) && s.emitted <= f.decode(s.fed))
  }

  /** The library never ends a stream with nothing to put out. */
  ghost predicate EndsWithOutput(lib: Decoder) {
    forall s: Session, input: seq<Byte> :: EndsAt(lib, s, input)
  }

  ghost predicate EndsAt(lib: Decoder, s: Session, input: seq<Byte>) {
    input != [] && lib.reply(s, input, BUFFER).0.status == StreamEnd ==> lib.reply(s, input, BUFFER).0.out != []
  }

  lemma {:induction false} StartInSequence(f: Format, lib: Decoder, st: State, x: seq<Byte>, done: seq<Byte>,
                                           out: seq<Byte>)
    requires Contract(f, lib) && InSequence(f, st, x, done, out) && Started(lib, st).status != Uninitialized
    ensures InSequence(f, Started(lib, st), x, done, out)
  {
    assert Starts(lib, st.session);
    if st.status == Uninitialized {
      assert done + [] == done && out + [] == out;
    }
  }

  /** The input and the output up to the end of the last complete stream. */
  lemma {:induction false} FedInSequence(f: Format, lib: Decoder, st: State, x: seq<Byte>, chunk: seq<Byte>,
                                         done: seq<Byte>, out: seq<Byte>)
    returns (done': seq<Byte>, out': seq<Byte>)
    requires Contract(f, lib) && EndsWithOutput(lib) && chunk != []
    requires InSequence(f, st, x, done, out) && st.status == Running
    requires lib.reply(st.session, chunk, BUFFER).0.status != Error
    ensures var (a, t) := lib.reply(st.session, chunk, BUFFER);
            && a.taken <= |chunk| && (a.status == StreamEnd ==> a.out != [])
            && InSequence(f, Fed(true, st, a, t), x + chunk[..a.taken], done', out')
  {
    var (a, t) := lib.reply(st.session, chunk, BUFFER);
    assert Keeps(f, lib, st.session, chunk, BUFFER) && EndsAt(lib, st.session, chunk);
    assert done + st.session.fed + chunk[..a.taken] == done + t.fed;
    assert out + st.session.emitted + a.out == out + t.emitted;
    done', out' := done, out;
    if a.status == StreamEnd {
      done', out' := done + t.fed, out + t.emitted;
      assert t.fed != [];
      ReadOneMore(f, done, out, t.fed);
    }
  }

  lemma {:induction false} FeedInSequence(f: Format, lib: Decoder, st: State, bucket: seq<Byte>, bin: nat,
                                          seen: seq<Byte>, done: seq<Byte>, out: seq<Byte>)
    returns (done': seq<Byte>, out': seq<Byte>)
    requires Contract(f, lib) && EndsWithOutput(lib) && bin <= |bucket|
    requires InSequence(f, st, seen + bucket[..bin], done, out)
    ensures var (outcome, t) := Feed(f, lib, true, st, bucket, bin);
            && outcome != Stopped && (outcome == Refused ==> t.session.last == Error)
            && (outcome == Through ==> InSequence(f, t, seen + bucket, done', out'))
    decreases |bucket| - bin, Pending(f, st)
  {
    done', out' := done, out;
    if bin == |bucket| {
      assert bucket[..bin] == bucket;
    } else {
      var ready, chunk := Started(lib, st), Chunk(bucket, bin);
      assert Starts(lib, st.session) && Keeps(f, lib, ready.session, chunk, BUFFER);
      if ready.status != Uninitialized {
        StartInSequence(f, lib, st, seen + bucket[..bin], done, out);
        var (a, t) := lib.reply(ready.session, chunk, BUFFER);
        if a.status != Error {
          done', out' := FedInSequence(f, lib, ready, seen + bucket[..bin], chunk, done, out);
          Measure(f, lib, true, st, chunk);
          SeenSoFar(seen, bucket, bin, a.taken);
          done', out' := FeedInSequence(f, lib, Fed(true, ready, a, t), bucket, bin + a.taken, seen, done', out');
        }
      }
    }
  }

  lemma {:induction false} FeedAllInSequence(f: Format, lib: Decoder, st: State, buckets: seq<seq<Byte>>, i: nat,
                                             seen: seq<Byte>, done: seq<Byte>, out: seq<Byte>)
    returns (done': seq<Byte>, out': seq<Byte>)
    requires Contract(f, lib) && EndsWithOutput(lib) && i <= |buckets| && InSequence(f, st, seen, done, out)
    ensures var (outcome, t) := FeedAll(f, lib, true, st, buckets, i);
            && outcome != Stopped && (outcome == Refused ==> t.session.last == Error)
            && (outcome == Through ==> InSequence(f, t, seen + Flatten(buckets[i..]), done', out'))
    decreases |buckets| - i
  {
    done', out' := done, out;
    if i == |buckets| {
      assert seen + Flatten(buckets[i..]) == seen;
    } else {
      var (outcome, t) := Feed(f, lib, true, st, buckets[i], 0);
      assert seen + buckets[i][..0] == seen;
      done', out' := FeedInSequence(f, lib, st, buckets[i], 0, seen, done, out);
      FlattenRest(seen, buckets, i);
      if outcome == Through {
        done', out' := FeedAllInSequence(f, lib, t, buckets, i + 1, seen + buckets[i], done', out');
      }
    }
  }

  lemma {:induction false} DrainingInSequence(f: Format, lib: Decoder, st: State, x: seq<Byte>, done: seq<Byte>,
                                              out: seq<Byte>)
    requires Contract(f, lib) && InSequence(f, st, x, done, out) && st.status == Running
    ensures var t := Draining(f, lib, st);
            t.session.last != Error ==>
                InSequence(f, t, x, done, out) && t.status == Running && t.session.emitted == f.decode(t.session.fed)
    decreases |f.decode(st.session.fed)| - |st.session.emitted|
  {
    var (a, t) := lib.reply(st.session, [], BUFFER);
    assert Keeps(f, lib, st.session, [], BUFFER) && st.session.fed + [] == st.session.fed;
    assert out + st.session.emitted + a.out == out + t.emitted;
    if a.status == Ok && a.out != [] {
      DrainingInSequence(f, lib, st.(session := t, output := st.output + a.out), x, done, out);
    }
  }

  /** Everything out: the output is the decoding of the streams of the input. */
  lemma {:induction false} AllStreams(f: Format, st: State, x: seq<Byte>, done: seq<Byte>, out: seq<Byte>)
    requires InSequence(f, st, x, done, out) && f.decode([]) == []
    requires st.status == Running ==> st.session.emitted == f.decode(st.session.fed)
    ensures st.output == DecodeStreams(f, x)
  {
    var y := if st.status == Running then st.session.fed else [];
    assert ReadBefore(f, done, out, y) && done + [] == done && out + [] == out;
    LastStream(f, y);
  }

  lemma {:induction false} CalledInSequence(f: Format, lib: Decoder, st: State, buckets: seq<seq<Byte>>, close: bool,
                                            seen: seq<Byte>, done: seq<Byte>, out: seq<Byte>)
    returns (done': seq<Byte>, out': seq<Byte>)
    requires Contract(f, lib) && EndsWithOutput(lib) && InSequence(f, st, seen, done, out)
    ensures var t := Called(f, lib, true, st, buckets, close);
            t.session.last != Error ==>
              && InSequence(f, t, seen + Flatten(buckets), done', out')
              && (close ==> t.output == DecodeStreams(f, seen + Flatten(buckets)))
  {
    var (outcome, t) := FeedAll(f, lib, true, st, buckets, 0);
    assert buckets[0..] == buckets;
    done', out' := FeedAllInSequence(f, lib, st, buckets, 0, seen, done, out);
    if outcome == Through && close {
      if t.status == Running {
        DrainingInSequence(f, lib, t, seen + Flatten(buckets), done', out');
      }
      var u := Called(f, lib, true, st, buckets, close);
      if u.session.last != Error {
        AllStreams(f, u, seen + Flatten(buckets), done', out');
      }
    }
  }

  /** A whole use of the filter with "concatenated". With a library that ends no stream in
      silence, and unless it reports an error, the output is the decoding of all streams of
      the input, however the input is cut. */
  method UseConcatenated(format: Format, library: Decoder, calls: seq<seq<seq<Byte>>>)
    returns (output: seq<Byte>, failed: bool)
    requires Contract(format, library) && calls != []
    ensures failed <==> CalledAll(format, library, true, INITIAL, calls, 0).session.last == Error
    ensures !failed && EndsWithOutput(library) ==> output == DecodeStreams(format, Flatten(Joined(calls)))
  {
    var filter := new Filter(format, library, true);
    output, failed := [], false;
    ghost var done, decoded := [], [];
    ReadNothing(format);
    var i := 0;
    while i < |calls| && !failed
      invariant i <= |calls|
      invariant filter.format == format && filter.library == library && filter.expectConcatenated
      invariant fresh(filter) && fresh(filter.strm) && fresh(filter.strm.inbuf) && fresh(filter.strm.outbuf)
      invariant CalledAll(format, library, true, filter.Now(), calls, i)
                == CalledAll(format, library, true, INITIAL, calls, 0)
      invariant failed <==> filter.session.last == Error
      invariant !failed ==> filter.Valid() && filter.output == output
      invariant !failed && EndsWithOutput(library) ==>
                  InSequence(format, filter.Now(), Flatten(Joined(calls[..i])), done, decoded)
      invariant !failed && EndsWithOutput(library) && i == |calls| ==>
                  output == DecodeStreams(format, Flatten(Joined(calls[..i])))
    {
      if EndsWithOutput(library) {
        done, decoded := CalledInSequence(format, library, filter.Now(), calls[i], i == |calls| - 1,
                                          Flatten(Joined(calls[..i])), done, decoded);
      }
      var out, exit, consumed := filter.Decompress(calls[i], i == |calls| - 1);
      JoinedNext(calls, i);
      output, failed := output + Flatten(out), filter.session.last == Error;
      i := i + 1;
    }
    assert i == |calls| ==> calls[..i] == calls;
  }

  // ---- the end of a stream without output

  /** A format in which the byte 1 already says 7, and the byte 0 ends the stream. */
  function OneForSeven(): Format {
    Format(x => if x != [] && x[0] == 1 then [7] else [], x => x == [1, 0])
  }

  /** A library that takes one byte at a time and puts out what it says at once. */
  function PromptDecoder(): Decoder {
    Decoder(s => (true, FRESH),
            (s: Session, input: seq<Byte>, room: nat) =>
              if s.fed == [] && s.emitted == [] && input != [] && input[0] == 1 && room > 0 then
                (Answer(1, [7], Ok), Session([1], [7], s.calls + 1, Ok))
              else if s.fed == [1] && s.emitted == [7] && input != [] && input[0] == 0 then
                (Answer(1, [], StreamEnd), Session([1, 0], [7], s.calls + 1, StreamEnd))
              else
                (Answer(0, [], Error), s.(calls := s.calls + 1, last := Error)))
  }

  lemma OpenUpToEnd()
    ensures Open(OneForSeven(), [1]) && Open(OneForSeven(), [1, 0])
  {
    assert [1, 0][..0] == [] && [1, 0][..1] == [1] && |[1]| != |[1, 0]|;
  }

  lemma {:induction false} PromptKeepsContract()
    ensures Contract(OneForSeven(), PromptDecoder())
  {
    OpenUpToEnd();
    forall s: Session, input: seq<Byte>, room: nat
      ensures Keeps(OneForSeven(), PromptDecoder(), s, input, room)
    {
      assert s.fed + input[..0] == s.fed && s.emitted + [] == s.emitted;
      if input != [] {
        assert input[..1] == [input[0]] && [] + [input[0]] == [input[0]] && [1] + [input[0]] == [1, input[0]];
        assert [] + [7] == [7];
      }
    }
  }

  lemma {:induction false} TwoStreams()
    ensures DecodeStreams(OneForSeven(), [1, 0, 1, 0]) == [7, 7]
  {
    var f := OneForSeven();
    OpenUpToEnd();
    assert [1, 0, 1, 0] == [1, 0] + [1, 0] && [7, 7] == [7] + [7];
    FirstStream(f, [1, 0], [1, 0]);
    LastStream(f, [1, 0]);
  }

  /** A bucket is read up to the end of its first stream, which comes in silence. */
  lemma {:induction false} ReadsOneStream(st: State, bucket: seq<Byte>)
    requires Contract(OneForSeven(), PromptDecoder()) && st.status == Uninitialized
    requires |bucket| >= 2 && bucket[0] == 1 && bucket[1] == 0
    ensures Feed(OneForSeven(), PromptDecoder(), true, st, bucket, 0)
            == (Stopped, State(Uninitialized, Session([1, 0], [7], 2, StreamEnd), st.output + [7]))
  {
    var f, lib := OneForSeven(), PromptDecoder();
    var ready, fed := State(Running, FRESH, st.output), State(Running, Session([1], [7], 1, Ok), st.output + [7]);
    var ended := State(Uninitialized, Session([1, 0], [7], 2, StreamEnd), st.output + [7]);
    assert Started(lib, st) == ready && Started(lib, fed) == fed;
    assert Chunk(bucket, 0)[0] == 1 && Chunk(bucket, 1)[0] == 0;
    assert lib.reply(FRESH, Chunk(bucket, 0), BUFFER) == (Answer(1, [7], Ok), fed.session);
    assert lib.reply(fed.session, Chunk(bucket, 1), BUFFER) == (Answer(1, [], StreamEnd), ended.session);
    assert Fed(true, ready, Answer(1, [7], Ok), fed.session) == fed;
    assert fed.output + [] == fed.output;
    assert Fed(true, fed, Answer(1, [], StreamEnd), ended.session) == ended;
    assert Feed(f, lib, true, fed, bucket, 1) == (Stopped, ended);
    assert Feed(f, lib, true, st, bucket, 0) == Feed(f, lib, true, fed, bucket, 1);
  }

  lemma {:induction false} CallReadsOneStream(st: State, bucket: seq<Byte>, close: bool)
    requires Contract(OneForSeven(), PromptDecoder()) && st.status == Uninitialized
    requires |bucket| >= 2 && bucket[0] == 1 && bucket[1] == 0
    ensures FeedAll(OneForSeven(), PromptDecoder(), true, st, [bucket], 0).0 == Stopped
    ensures Called(OneForSeven(), PromptDecoder(), true, st, [bucket], close)
            == State(Uninitialized, Session([1, 0], [7], 2, StreamEnd), st.output + [7])
  {
    ReadsOneStream(st, bucket);
  }

  method InOneBucket() returns (output: seq<Byte>)
    ensures output == [7]
  {
    var f, lib := OneForSeven(), PromptDecoder();
    PromptKeepsContract();
    CallReadsOneStream(INITIAL, [1, 0, 1, 0], true);
    var filter := new Filter(f, lib, true);
    var out, exit, consumed := filter.Decompress([[1, 0, 1, 0]], true);
    output := Flatten(out);
    assert [] + output == output;
  }

  method InTwoCalls() returns (output: seq<Byte>)
    ensures output == [7, 7]
  {
    var f, lib := OneForSeven(), PromptDecoder();
    PromptKeepsContract();
    CallReadsOneStream(INITIAL, [1, 0], false);
    var filter := new Filter(f, lib, true);
    var out, exit, consumed := filter.Decompress([[1, 0]], false);
    output := Flatten(out);
    assert [] + output == output == filter.output == [7];
    CallReadsOneStream(filter.Now(), [1, 0], true);
    out, exit, consumed := filter.Decompress([[1, 0]], true);
    output := output + Flatten(out);
  }

  /** Without that condition the cut decides. With that library the streams of one input
      come out when each has a call of its own; in one bucket the second is lost, because
      the filter returns early at the silent end of the first. */
  method SilentEndLosesStream() returns (oneBucket: seq<Byte>, twoCalls: seq<Byte>)
    ensures twoCalls == DecodeStreams(OneForSeven(), [1, 0] + [1, 0]) == [7, 7]
    ensures oneBucket == [7]
  {
    oneBucket := InOneBucket();
    twoCalls := InTwoCalls();
    TwoStreams();
    assert [1 as Byte, 0] + [1, 0] == [1, 0, 1, 0];
  }

  // ---- the end of a stream with its output

  /** A library that takes one byte at a time and puts out nothing before the end. */
  function PatientDecoder(): Decoder {
    Decoder(s => (true, FRESH),
            (s: Session, input: seq<Byte>, room: nat) =>
              if s.fed == [] && s.emitted == [] && input != [] && input[0] == 1 then
                (Answer(1, [], Ok), Session([1], [], s.calls + 1, Ok))
              else if s.fed == [1] && s.emitted == [] && input != [] && input[0] == 0 && room > 0 then
                (Answer(1, [7], StreamEnd), Session([1, 0], [7], s.calls + 1, StreamEnd))
              else
                (Answer(0, [], Error), s.(calls := s.calls + 1, last := Error)))
  }

  lemma {:induction false} PatientKeepsContract()
    ensures Contract(OneForSeven(), PatientDecoder())
  {
    OpenUpToEnd();
    forall s: Session, input: seq<Byte>, room: nat
      ensures Keeps(OneForSeven(), PatientDecoder(), s, input, room)
    {
      assert s.fed + input[..0] == s.fed && s.emitted + [] == s.emitted;
      if input != [] {
        assert input[..1] == [input[0]] && [] + [input[0]] == [input[0]] && [1] + [input[0]] == [1, input[0]];
        assert [] + [7] == [7];
      }
    }
  }

  lemma PatientEndsWithOutput()
    ensures EndsWithOutput(PatientDecoder())
  {
    forall s: Session, input: seq<Byte>
      ensures EndsAt(PatientDecoder(), s, input)
    {
    }
  }

  /** The second stream is read behind the first. */
  lemma {:induction false} ReadsNextStream(st: State, bucket: seq<Byte>, bin: nat)
    requires Contract(OneForSeven(), PatientDecoder()) && st.status == Uninitialized
    requires bin + 2 <= |bucket| && bucket[bin] == 1 && bucket[bin + 1] == 0
    ensures Feed(OneForSeven(), PatientDecoder(), true, st, bucket, bin)
            == Feed(OneForSeven(), PatientDecoder(), true,
                    State(Uninitialized, Session([1, 0], [7], 2, StreamEnd), st.output + [7]), bucket, bin + 2)
  {
    var f, lib := OneForSeven(), PatientDecoder();
    var ready, fed := State(Running, FRESH, st.output), State(Running, Session([1], [], 1, Ok), st.output);
    var ended := State(Uninitialized, Session([1, 0], [7], 2, StreamEnd), st.output + [7]);
    assert Started(lib, st) == ready && Started(lib, fed) == fed;
    assert Chunk(bucket, bin)[0] == 1 && Chunk(bucket, bin + 1)[0] == 0;
    assert lib.reply(FRESH, Chunk(bucket, bin), BUFFER) == (Answer(1, [], Ok), fed.session);
    assert lib.reply(fed.session, Chunk(bucket, bin + 1), BUFFER) == (Answer(1, [7], StreamEnd), ended.session);
    assert ready.output + [] == ready.output;
    assert Fed(true, ready, Answer(1, [], Ok), fed.session) == fed;
    assert Fed(true, fed, Answer(1, [7], StreamEnd), ended.session) == ended;
    assert Feed(f, lib, true, fed, bucket, bin + 1) == Feed(f, lib, true, ended, bucket, bin + 2);
    assert Feed(f, lib, true, st, bucket, bin) == Feed(f, lib, true, fed, bucket, bin + 1);
  }

  lemma {:induction false} ReadsBoth(bucket: seq<Byte>)
    requires Contract(OneForSeven(), PatientDecoder()) && bucket == [1, 0, 1, 0]
    ensures CalledAll(OneForSeven(), PatientDecoder(), true, INITIAL, [[bucket]], 0).session.last != Error
  {
    var f, lib := OneForSeven(), PatientDecoder();
    var first := State(Uninitialized, Session([1, 0], [7], 2, StreamEnd), [] + [7]);
    var second := State(Uninitialized, Session([1, 0], [7], 2, StreamEnd), [] + [7] + [7]);
    ReadsNextStream(INITIAL, bucket, 0);
    ReadsNextStream(first, bucket, 2);
    assert Feed(f, lib, true, INITIAL, bucket, 0) == (Through, second);
    assert FeedAll(f, lib, true, second, [bucket], 1) == (Through, second);
    assert Called(f, lib, true, INITIAL, [bucket], true) == second;
  }

  /** With that library both streams come out of one bucket. */
  method BothStreamsComeOut() returns (output: seq<Byte>, failed: bool)
    ensures !failed && output == [7, 7]
  {
    var f, lib, bucket := OneForSeven(), PatientDecoder(), [1, 0, 1, 0];
    PatientKeepsContract();
    PatientEndsWithOutput();
    ReadsBoth(bucket);
    TwoStreams();
    output, failed := UseConcatenated(f, lib, [[bucket]]);
    assert Joined([[bucket]]) == Joined([]) + [bucket] && Flatten([bucket]) == Flatten([]) + bucket;
  }
}
