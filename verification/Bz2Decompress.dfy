/** bz2/bz2_filter.c: the bzip2.decompress stream filter. */
module Bz2Decompress {
  import opened Bz2Buffers
  import opened Bz2Codec
  import opened Options

  datatype StreamStatus = Uninitialized | Running | Finished

  // ---- the library in use

  /** What the current decoder was fed and has put out, how often the library was
      called and how the last call ended. */
  datatype Session = Session(fed: seq<Byte>, emitted: seq<Byte>, calls: nat, last: Status)

  const FRESH := Session([], [], 0, Ok)

  /** A library: what BZ2_bzDecompressInit and BZ2_bzDecompress answer, and the session after it. */
  datatype Decoder = Decoder(init: Session -> (bool, Session), reply: (Session, seq<Byte>, nat) -> (Answer, Session))

  /** One call keeps to the contract, and the session keeps account of it. */
  ghost predicate Keeps(f: Format, lib: Decoder, s: Session, input: seq<Byte>, room: nat) {
    var (a, t) := lib.reply(s, input, room);
    && DecodeAllows(f, s.fed, s.emitted, input, room, a)
    && t.fed == s.fed + input[..a.taken] && t.emitted == s.emitted + a.out
    && t.last == a.status
  }

  /** A decoder that starts has seen nothing. */
  ghost predicate Starts(lib: Decoder, s: Session) {
    var (ok, t) := lib.init(s);
    if ok then t.fed == [] && t.emitted == [] && t.last == Ok else t.last == Error
  }

  ghost predicate Contract(f: Format, lib: Decoder) {
    && f.decode([]) == []
    && (forall s: Session :: Starts(lib, s))
    && (forall s: Session, input: seq<Byte>, room: nat :: Keeps(f, lib, s, input, room))
  }

  /** The filter's status, the library behind it, and all output so far. */
  datatype State = State(status: StreamStatus, session: Session, output: seq<Byte>)

  const INITIAL := State(Uninitialized, FRESH, [])

  /** A decoder is started when there is none. */
  function Started(lib: Decoder, st: State): State {
    if st.status != Uninitialized then st
    else
      var (ok, t) := lib.init(st.session);
      st.(status := if ok then Running else Uninitialized, session := t)
  }

  /** The state after one library call with data. */
  function Fed(concatenated: bool, st: State, a: Answer, t: Session): State {
    var status := if a.status != StreamEnd then Running else if concatenated then Uninitialized else Finished;
    State(status, t, st.output + a.out)
  }

  /** Output the decoder still holds for what it was fed. */
  function Pending(f: Format, st: State): int {
    if st.status == Running then |f.decode(st.session.fed)| - |st.session.emitted| else 0
  }

  /** How reading a bucket ends: with a library error, with the early return, or at its end. */
  datatype Outcome = Refused | Stopped | Through

  /** A bucket is read from position `bin` on. */
  ghost function Feed(f: Format, lib: Decoder, concatenated: bool, st: State, bucket: seq<Byte>,
                      bin: nat): (Outcome, State)
    requires Contract(f, lib) && bin <= |bucket|
    decreases |bucket| - bin, Pending(f, st)
  {
    if bin == |bucket| then (Through, st)
    else
      assert Starts(lib, st.session);
      var ready := Started(lib, st);
      if ready.status == Uninitialized then (Refused, ready)
      else if ready.status == Finished then (Through, ready)
      else
        var (a, t) := lib.reply(ready.session, Chunk(bucket, bin), BUFFER);
        assert Keeps(f, lib, ready.session, Chunk(bucket, bin), BUFFER);
        var next := Fed(concatenated, ready, a, t);
        if a.status == Error then (Refused, next)
        else if a.status == StreamEnd && a.out == [] then (Stopped, next)
        else
          Measure(f, lib, concatenated, st, Chunk(bucket, bin));
          Feed(f, lib, concatenated, next, bucket, bin + a.taken)
  }

  /** A call that takes nothing puts out something the decoder held. */
  lemma Measure(f: Format, lib: Decoder, concatenated: bool, st: State, chunk: seq<Byte>)
    requires Contract(f, lib) && chunk != []
    ensures var ready := Started(lib, st);
            var (a, t) := lib.reply(ready.session, chunk, BUFFER);
            ready.status == Running && a.status != Error && a.taken == 0 && (a.status == StreamEnd ==> a.out != []) ==>
              0 <= Pending(f, Fed(concatenated, ready, a, t)) < Pending(f, st)
  {
    var ready := Started(lib, st);
    assert Starts(lib, st.session);
    assert Keeps(f, lib, ready.session, chunk, BUFFER);
    assert ready.session.fed + chunk[..0] == ready.session.fed;
  }

  /** All buckets from the `i`-th on. */
  ghost function FeedAll(f: Format, lib: Decoder, concatenated: bool, st: State, buckets: seq<seq<Byte>>,
                         i: nat): (Outcome, State)
    requires Contract(f, lib) && i <= |buckets|
    decreases |buckets| - i
  {
    if i == |buckets| then (Through, st)
    else
      var (outcome, t) := Feed(f, lib, concatenated, st, buckets[i], 0);
      if outcome != Through then (outcome, t) else FeedAll(f, lib, concatenated, t, buckets, i + 1)
  }

  /** At the close the decoder is asked for more until nothing comes or it does not answer Ok. */
  ghost function Draining(f: Format, lib: Decoder, st: State): State
    requires Contract(f, lib)
    decreases |f.decode(st.session.fed)| - |st.session.emitted|
  {
    var (a, t) := lib.reply(st.session, [], BUFFER);
    assert Keeps(f, lib, st.session, [], BUFFER) && st.session.fed + [] == st.session.fed;
    var next := st.(session := t, output := st.output + a.out);
    if a.status == Ok && a.out != [] then Draining(f, lib, next) else next
  }

  /** One call of the filter. */
  ghost function Called(f: Format, lib: Decoder, concatenated: bool, st: State, buckets: seq<seq<Byte>>,
                        close: bool): State
    requires Contract(f, lib)
  {
    var (outcome, t) := FeedAll(f, lib, concatenated, st, buckets, 0);
    if outcome == Through && t.status == Running && close then Draining(f, lib, t) else t
  }

  /** The calls from the `i`-th on, the last one closing, until there is a library error. */
  ghost function CalledAll(f: Format, lib: Decoder, concatenated: bool, st: State, calls: seq<seq<seq<Byte>>>,
                           i: nat): State
    requires Contract(f, lib) && i <= |calls|
    decreases |calls| - i
  {
    if i == |calls| || st.session.last == Error then st
    else CalledAll(f, lib, concatenated, Called(f, lib, concatenated, st, calls[i], i == |calls| - 1), calls, i + 1)
  }

  // ---- what that amounts to, for a single stream

  /** The input `x` was fed, up to the end of its first stream, and all output is the
      decoder's own. */
  ghost predicate InStep(f: Format, st: State, x: seq<Byte>) {
    var s := st.session;
    && Open(f, s.fed) && s.emitted <= f.decode(s.fed) && st.output == s.emitted
    && (st.status == Uninitialized ==> s.fed == [] && s.emitted == [])
    && (st.status == Finished ==> f.ends(s.fed) && s.emitted == f.decode(s.fed))
    && s.fed <= x && (st.status != Finished ==> s.fed == x)
  }

  lemma StartInStep(f: Format, lib: Decoder, st: State, x: seq<Byte>)
    requires Contract(f, lib) && InStep(f, st, x) && Started(lib, st).status != Uninitialized
    ensures InStep(f, Started(lib, st), x)
  {
    assert Starts(lib, st.session);
  }

  lemma FedInStep(f: Format, lib: Decoder, st: State, x: seq<Byte>, chunk: seq<Byte>)
    requires Contract(f, lib) && InStep(f, st, x) && st.status == Running
    requires lib.reply(st.session, chunk, BUFFER).0.status != Error
    ensures var (a, t) := lib.reply(st.session, chunk, BUFFER);
            a.taken <= |chunk| && InStep(f, Fed(false, st, a, t), x + chunk[..a.taken])
  {
    assert Keeps(f, lib, st.session, chunk, BUFFER);
  }

  lemma SeenSoFar(seen: seq<Byte>, bucket: seq<Byte>, bin: nat, n: nat)
    requires bin < |bucket| && n <= |Chunk(bucket, bin)|
    ensures seen + bucket[..bin] + Chunk(bucket, bin)[..n] == seen + bucket[..bin + n] <= seen + bucket
  {
    assert bucket[..bin] + Chunk(bucket, bin)[..n] == bucket[..bin + n];
    assert seen + (bucket[..bin] + Chunk(bucket, bin)[..n]) == seen + bucket[..bin] + Chunk(bucket, bin)[..n];
  }

  lemma {:induction false} FeedInStep(f: Format, lib: Decoder, st: State, bucket: seq<Byte>, bin: nat, seen: seq<Byte>)
    requires Contract(f, lib) && bin <= |bucket| && InStep(f, st, seen + bucket[..bin])
    ensures var (outcome, t) := Feed(f, lib, false, st, bucket, bin);
            && (outcome != Refused ==> InStep(f, t, seen + bucket))
            && (outcome == Stopped ==> t.status == Finished)
    decreases |bucket| - bin, Pending(f, st)
  {
    if bin == |bucket| {
      assert bucket[..bin] == bucket;
    } else {
      var ready, chunk := Started(lib, st), Chunk(bucket, bin);
      assert seen + bucket[..bin] <= seen + bucket;
      if ready.status != Uninitialized {
        StartInStep(f, lib, st, seen + bucket[..bin]);
        var (a, t) := lib.reply(ready.session, chunk, BUFFER);
        if ready.status == Running && a.status != Error {
          FedInStep(f, lib, ready, seen + bucket[..bin], chunk);
          Measure(f, lib, false, st, chunk);
          SeenSoFar(seen, bucket, bin, a.taken);
          if a.status == Ok || a.out != [] {
            FeedInStep(f, lib, Fed(false, ready, a, t), bucket, bin + a.taken, seen);
          }
        }
      }
    }
  }

  lemma {:induction false} FeedAllInStep(f: Format, lib: Decoder, st: State, buckets: seq<seq<Byte>>, i: nat,
                                         seen: seq<Byte>)
    requires Contract(f, lib) && i <= |buckets| && InStep(f, st, seen)
    ensures var (outcome, t) := FeedAll(f, lib, false, st, buckets, i);
            && (outcome != Refused ==> InStep(f, t, seen + Flatten(buckets[i..])))
            && (outcome == Stopped ==> t.status == Finished)
    decreases |buckets| - i
  {
    if i == |buckets| {
      assert seen + Flatten(buckets[i..]) == seen;
    } else {
      var (outcome, t) := Feed(f, lib, false, st, buckets[i], 0);
      assert seen + buckets[i][..0] == seen;
      FeedInStep(f, lib, st, buckets[i], 0, seen);
      FlattenRest(seen, buckets, i);
      if outcome == Through {
        FeedAllInStep(f, lib, t, buckets, i + 1, seen + buckets[i]);
      } else {
        assert seen + buckets[i] <= seen + Flatten(buckets[i..]);
      }
    }
  }

  lemma {:induction false} DrainingInStep(f: Format, lib: Decoder, st: State, x: seq<Byte>)
    requires Contract(f, lib) && InStep(f, st, x) && st.status == Running
    ensures var t := Draining(f, lib, st);
            t.session.last != Error ==>
                InStep(f, t, x) && t.status == Running && t.session.emitted == f.decode(t.session.fed)
    decreases |f.decode(st.session.fed)| - |st.session.emitted|
  {
    var (a, t) := lib.reply(st.session, [], BUFFER);
    assert Keeps(f, lib, st.session, [], BUFFER) && st.session.fed + [] == st.session.fed;
    if a.status == Ok && a.out != [] {
      DrainingInStep(f, lib, st.(session := t, output := st.output + a.out), x);
    }
  }

  /** Everything out: the output is the decoding of the first stream of the input. */
  lemma {:induction false} Whole(f: Format, st: State, x: seq<Byte>)
    requires InStep(f, st, x) && f.decode([]) == []
    requires st.status == Running ==> st.session.emitted == f.decode(st.session.fed)
    ensures st.output == f.decode(Stream(f, x))
  {
    if st.status == Finished {
      StreamOfEnded(f, st.session.fed, x, 0);
    } else {
      StreamOfOpen(f, x, 0);
    }
  }

  // ---- libraries that do not fail on an input

  /** No error on a part of `x` in step with what was fed before. */
  ghost predicate AcceptsPart(f: Format, lib: Decoder, x: seq<Byte>, s: Session, input: seq<Byte>) {
    Open(f, s.fed) && s.emitted <= f.decode(s.fed) && s.fed + input <= x ==>
      lib.reply(s, input, BUFFER).0.status != Error
  }

  ghost predicate StartsAlways(lib: Decoder, s: Session) {
    lib.init(s).0
  }

  ghost predicate Accepts(f: Format, lib: Decoder, x: seq<Byte>) {
    && (forall s :: StartsAlways(lib, s))
    && (forall s, input :: AcceptsPart(f, lib, x, s, input))
  }

  lemma {:induction false} FeedAccepted(f: Format, lib: Decoder, st: State, bucket: seq<Byte>, bin: nat,
                                        seen: seq<Byte>, x: seq<Byte>)
    requires Contract(f, lib) && Accepts(f, lib, x) && seen + bucket <= x
    requires bin <= |bucket| && InStep(f, st, seen + bucket[..bin]) && st.session.last != Error
    ensures var (outcome, t) := Feed(f, lib, false, st, bucket, bin);
            outcome != Refused && t.session.last != Error
    decreases |bucket| - bin, Pending(f, st)
  {
    if bin < |bucket| {
      var ready, chunk := Started(lib, st), Chunk(bucket, bin);
      assert StartsAlways(lib, st.session) && Starts(lib, st.session);
      StartInStep(f, lib, st, seen + bucket[..bin]);
      if ready.status == Running {
        SeenSoFar(seen, bucket, bin, |chunk|);
        assert chunk[..|chunk|] == chunk && AcceptsPart(f, lib, x, ready.session, chunk);
        assert Keeps(f, lib, ready.session, chunk, BUFFER);
        FedInStep(f, lib, ready, seen + bucket[..bin], chunk);
        Measure(f, lib, false, st, chunk);
        var (a, t) := lib.reply(ready.session, chunk, BUFFER);
        SeenSoFar(seen, bucket, bin, a.taken);
        if a.status == Ok || a.out != [] {
          FeedAccepted(f, lib, Fed(false, ready, a, t), bucket, bin + a.taken, seen, x);
        }
      }
    }
  }

  lemma {:induction false} FeedAllAccepted(f: Format, lib: Decoder, st: State, buckets: seq<seq<Byte>>, i: nat,
                                           seen: seq<Byte>, x: seq<Byte>)
    requires Contract(f, lib) && Accepts(f, lib, x) && i <= |buckets|
    requires seen + Flatten(buckets[i..]) <= x && InStep(f, st, seen) && st.session.last != Error
    ensures var (outcome, t) := FeedAll(f, lib, false, st, buckets, i);
            outcome != Refused && t.session.last != Error
    decreases |buckets| - i
  {
    if i < |buckets| {
      var (outcome, t) := Feed(f, lib, false, st, buckets[i], 0);
      assert seen + buckets[i][..0] == seen;
      FlattenRest(seen, buckets, i);
      assert seen + buckets[i] <= seen + buckets[i] + Flatten(buckets[i + 1..]);
      FeedInStep(f, lib, st, buckets[i], 0, seen);
      FeedAccepted(f, lib, st, buckets[i], 0, seen, x);
      if outcome == Through {
        FeedAllAccepted(f, lib, t, buckets, i + 1, seen + buckets[i], x);
      }
    }
  }

  lemma {:induction false} DrainingAccepted(f: Format, lib: Decoder, st: State, x: seq<Byte>)
    requires Contract(f, lib) && Accepts(f, lib, x)
    requires Open(f, st.session.fed) && st.session.emitted <= f.decode(st.session.fed) && st.session.fed <= x
    ensures Draining(f, lib, st).session.last != Error
    decreases |f.decode(st.session.fed)| - |st.session.emitted|
  {
    var (a, t) := lib.reply(st.session, [], BUFFER);
    assert Keeps(f, lib, st.session, [], BUFFER) && st.session.fed + [] == st.session.fed;
    assert AcceptsPart(f, lib, x, st.session, []);
    if a.status == Ok && a.out != [] {
      DrainingAccepted(f, lib, st.(session := t, output := st.output + a.out), x);
    }
  }

  /** A library that accepts the input reports no error, however the input is cut. */
  lemma {:induction false} CallsAccepted(f: Format, lib: Decoder, st: State, calls: seq<seq<seq<Byte>>>, i: nat,
                                         x: seq<Byte>)
    requires Contract(f, lib) && Accepts(f, lib, x) && x == Flatten(Joined(calls)) && i <= |calls|
    requires InStep(f, st, Flatten(Joined(calls[..i]))) && st.session.last != Error
    ensures CalledAll(f, lib, false, st, calls, i).session.last != Error
    decreases |calls| - i
  {
    if i < |calls| {
      var seen, buckets := Flatten(Joined(calls[..i])), calls[i];
      var (outcome, t) := FeedAll(f, lib, false, st, buckets, 0);
      JoinedNext(calls, i);
      JoinedPrefix(calls, i + 1);
      assert buckets[0..] == buckets;
      FeedAllInStep(f, lib, st, buckets, 0, seen);
      FeedAllAccepted(f, lib, st, buckets, 0, seen, x);
      if i == |calls| - 1 {
        if outcome == Through && t.status == Running {
          DrainingAccepted(f, lib, t, x);
        }
      } else {
        CallsAccepted(f, lib, t, calls, i + 1, x);
      }
    }
  }

  // ---- the filter

  /** How a pass over the inner loop ends. */
  datatype PassOutcome = More | AlreadyFinished | EndedSilently | LibraryError

  class Filter {
    const format: Format
    const library: Decoder
    const expectConcatenated: bool

    // bz_stream: the two buffers, and the library behind it
    const strm: Buffers
    var session: Session

    var status: StreamStatus

    // all input and all output so far
    ghost var received: seq<Byte>
    ghost var output: seq<Byte>

    ghost function Now(): State
      reads this
    {
      State(status, session, output)
    }

    /** Between library calls both buffers are empty. */
    ghost predicate BuffersEmpty()
      reads strm
    {
      strm.Empty() && Contract(format, library)
    }

    ghost predicate Valid()
      reads this, strm
    {
      BuffersEmpty() && session.last != Error && (!expectConcatenated ==> InStep(format, Now(), received))
    }

    /** `php_bz2_filter_create` for "bzip2.decompress". */
    constructor (format: Format, library: Decoder, concatenated: bool)
      requires Contract(format, library)
      ensures Valid() && received == [] && Now() == INITIAL
      ensures this.format == format && this.library == library && expectConcatenated == concatenated
      ensures fresh(strm) && fresh(strm.inbuf) && fresh(strm.outbuf)
    {
      this.format, this.library := format, library;
      expectConcatenated := concatenated;
      strm := new Buffers();
      status, session := Uninitialized, FRESH;
      received, output := [], [];
    }

    /** BZ2_bzDecompress on the stream structure. */
    method BzDecompress() returns (answer: Answer)
      requires strm.nextIn + strm.availIn <= strm.inbuf.Length && strm.nextOut + strm.availOut <= strm.outbuf.Length
      requires strm.inbuf != strm.outbuf && Contract(format, library)
      modifies strm`nextIn, strm`availIn, strm`nextOut, strm`availOut, this`session, this`output, strm.outbuf
      ensures (answer, session)
              == library.reply(old(session), old(Input()), old(strm.availOut))
      ensures answer.taken <= old(strm.availIn) && |answer.out| <= old(strm.availOut)
      ensures strm.nextIn == old(strm.nextIn) + answer.taken && strm.availIn == old(strm.availIn) - answer.taken
      ensures strm.nextOut == old(strm.nextOut) + |answer.out| && strm.availOut == old(strm.availOut) - |answer.out|
      ensures strm.outbuf[old(strm.nextOut)..strm.nextOut] == answer.out && output == old(output) + answer.out
    {
      var input := Input();
      var (a, next) := library.reply(session, input, strm.availOut);
      assert Keeps(format, library, session, input, strm.availOut);
      answer := a;
      strm.Exchange(answer);
      session, output := next, output + answer.out;
    }

    /** What waits in the input buffer. */
    function Input(): seq<Byte>
      requires strm.nextIn + strm.availIn <= strm.inbuf.Length
      reads strm, strm.inbuf
    {
      strm.inbuf[strm.nextIn..strm.nextIn + strm.availIn]
    }

    /** Lines 96-105: a decoder is started when there is none. */
    method Start() returns (ok: bool)
      requires BuffersEmpty()
      modifies this`session, this`status
      ensures Now() == Started(library, old(Now())) && (ok <==> status != Uninitialized)
      ensures !ok ==> session.last == Error
    {
      ok := true;
      if status == Uninitialized {
        assert Starts(library, session);
        var (started, next) := library.init(session);
        session := next;
        if !started {
          return false;
        }
        status := Running;
      }
    }

    /** Lines 116-146: hand one chunk to the library and take what it puts out. */
    method HandOver(chunk: seq<Byte>) returns (answer: Answer)
      requires BuffersEmpty() && status == Running && 0 < |chunk| <= BUFFER
      modifies strm`nextIn, strm`availIn, strm`nextOut, strm`availOut, this`session, this`status, this`output
      modifies strm.inbuf, strm.outbuf
      ensures var (a, t) := library.reply(old(session), chunk, BUFFER);
              answer == a && Now() == Fed(expectConcatenated, old(Now()), a, t) && answer.taken <= |chunk|
      ensures answer.status != Error ==> BuffersEmpty()
      ensures session.last == answer.status
    {
      strm.Load(chunk);
      assert Keeps(format, library, session, chunk, strm.availOut);
      answer := BzDecompress();
      if answer.status == StreamEnd {
        status := if expectConcatenated then Uninitialized else Finished;
      } else if answer.status == Error {
        return;
      }
      strm.Rewind();
      var piece := strm.TakeOutput();
      assert piece == answer.out;
    }

    /** Lines 96-151: one pass over the inner loop, at position `bin` of a bucket. */
    method Pass(bucket: seq<Byte>, bin: nat) returns (taken: nat, piece: seq<Byte>, outcome: PassOutcome)
      requires BuffersEmpty() && bin < |bucket|
      modifies strm`nextIn, strm`availIn, strm`nextOut, strm`availOut, this`session, this`status, this`output
      modifies strm.inbuf, strm.outbuf
      ensures var goal := Feed(format, library, expectConcatenated, old(Now()), bucket, bin);
              match outcome
              case LibraryError => goal == (Refused, Now()) && session.last == Error
              case AlreadyFinished => goal == (Through, Now()) && Now() == old(Now()) && piece == []
              case EndedSilently => goal == (Stopped, Now()) && session.last == StreamEnd && piece == []
              case More =>
                && bin + taken <= |bucket| && session.last != Error
                && goal == Feed(format, library, expectConcatenated, Now(), bucket, bin + taken)
                && (taken == 0 ==> 0 <= Pending(format, Now()) < Pending(format, old(Now())))
      ensures outcome != LibraryError ==> BuffersEmpty() && output == old(output) + piece
      ensures outcome == AlreadyFinished <==> old(status) == Finished
    {
      taken, piece, outcome := 0, [], More;
      var ok := Start();
      if !ok {
        return 0, [], LibraryError;
      }
      if status != Running {
        return 0, [], AlreadyFinished;
      }
      var desired := |bucket| - bin;
      if desired > strm.inbufLen {
        desired := strm.inbufLen;
      }
      Measure(format, library, expectConcatenated, old(Now()), Chunk(bucket, bin));
      assert bucket[bin..bin + desired] == Chunk(bucket, bin);
      var answer := HandOver(bucket[bin..bin + desired]);
      if answer.status == Error {
        return 0, [], LibraryError;
      }
      taken, piece := answer.taken, answer.out;
      if answer.status == StreamEnd && answer.out == [] {
        outcome := EndedSilently;
      }
    }

    /** What is counted as consumed is what came in, and more when the stream ended inside
        of it: then the bucket is counted a second time, up to all of it (line 108). */
    ghost predicate CountsBucket(consumed: nat, length: nat, before: StreamStatus)
      reads this
    {
      consumed >= length && (status != Finished || before == Finished ==> consumed == length)
    }

    /** Lines 92-155: one input bucket. */
    method FilterBucket(bucket: seq<Byte>)
      returns (pieces: seq<seq<Byte>>, consumed: nat, outcome: Outcome)
      requires BuffersEmpty() && session.last != Error
      modifies strm`nextIn, strm`availIn, strm`nextOut, strm`availOut, this`session, this`status, this`output
      modifies strm.inbuf, strm.outbuf
      ensures (outcome, Now()) == Feed(format, library, expectConcatenated, old(Now()), bucket, 0)
      ensures outcome == Refused <==> session.last == Error
      ensures outcome == Stopped ==> session.last == StreamEnd
      ensures outcome != Refused ==> BuffersEmpty() && PutOut(old(output), output, pieces)
      ensures outcome == Through ==> CountsBucket(consumed, |bucket|, old(status))
      ensures old(status) == Finished ==> status == Finished
    {
      pieces, consumed := [], 0;
      var bin := 0;
      while bin < |bucket|
        invariant bin <= |bucket| && BuffersEmpty() && session.last != Error && consumed == bin
        invariant old(status) == Finished ==> status == Finished && bin == 0
        invariant Feed(format, library, expectConcatenated, Now(), bucket, bin)
                  == Feed(format, library, expectConcatenated, old(Now()), bucket, 0)
        invariant PutOut(old(output), output, pieces)
        decreases |bucket| - bin, Pending(format, Now())
      {
        ghost var before := output;
        var taken, piece, end := Pass(bucket, bin);
        assert piece == [] ==> before + piece == before;
        if end == LibraryError {
          return pieces, consumed, Refused;
        }
        if end == AlreadyFinished {
          return pieces, consumed + |bucket|, Through;
        }
        consumed := consumed + taken;
        bin := bin + taken;
        if end == EndedSilently {
          return pieces, consumed, Stopped;
        }
        BucketAppended(old(output), before, pieces, piece);
        pieces := AppendBucket(pieces, piece);
      }
      outcome := Through;
    }

    /** Lines 91-155: all input buckets; those behind an early return stay unread. */
    method FilterBuckets(bucketsIn: seq<seq<Byte>>)
      returns (bucketsOut: seq<seq<Byte>>, consumed: nat, outcome: Outcome)
      requires BuffersEmpty() && session.last != Error
      modifies strm`nextIn, strm`availIn, strm`nextOut, strm`availOut, this`session, this`status, this`output
      modifies strm.inbuf, strm.outbuf
      ensures (outcome, Now()) == FeedAll(format, library, expectConcatenated, old(Now()), bucketsIn, 0)
      ensures outcome == Refused <==> session.last == Error
      ensures outcome == Stopped ==> session.last == StreamEnd
      ensures outcome != Refused ==> BuffersEmpty() && PutOut(old(output), output, bucketsOut)
      ensures outcome == Through ==> CountsBucket(consumed, |Flatten(bucketsIn)|, old(status))
    {
      bucketsOut, consumed, outcome := [], 0, Through;
      var i := 0;
      while i < |bucketsIn|
        invariant i <= |bucketsIn| && BuffersEmpty() && session.last != Error && outcome == Through
        invariant CountsBucket(consumed, |Flatten(bucketsIn[..i])|, old(status))
        invariant old(status) == Finished ==> status == Finished
        invariant FeedAll(format, library, expectConcatenated, Now(), bucketsIn, i)
                  == FeedAll(format, library, expectConcatenated, old(Now()), bucketsIn, 0)
        invariant PutOut(old(output), output, bucketsOut)
      {
        FlattenNext(bucketsIn, i);
        ghost var before := output;
        var pieces, count;
        pieces, count, outcome := FilterBucket(bucketsIn[i]);
        if outcome != Refused {
          BucketsAppended(old(output), before, bucketsOut, output, pieces);
        }
        bucketsOut, consumed := bucketsOut + pieces, consumed + count;
        if outcome != Through {
          return;
        }
        i := i + 1;
      }
      assert bucketsIn[..i] == bucketsIn;
    }

    /** Lines 161-172: the library is asked once, and its output taken. */
    method DrainStep() returns (piece: seq<Byte>)
      requires BuffersEmpty()
      modifies strm`nextIn, strm`availIn, strm`nextOut, strm`availOut, this`session, this`output, strm.outbuf
      ensures BuffersEmpty() && output == old(output) + piece
      ensures Draining(format, library, old(Now()))
              == if session.last == Ok && piece != [] then Draining(format, library, Now()) else Now()
      ensures session.last == Ok && piece != [] ==>
                && |format.decode(session.fed)| - |session.emitted|
                   < |format.decode(old(session).fed)| - |old(session).emitted|
                && |format.decode(session.fed)| - |session.emitted| >= 0
    {
      assert Input() == [];
      assert Keeps(format, library, session, [], BUFFER) && session.fed + [] == session.fed;
      var answer := BzDecompress();
      piece := strm.TakeOutput();
      assert piece == answer.out;
    }

    /** Lines 157-174: at the close, what the decoder still holds is put out. A library
        error ends the loop and is dropped. */
    method Drain() returns (pieces: seq<seq<Byte>>)
      requires BuffersEmpty()
      modifies strm`nextIn, strm`availIn, strm`nextOut, strm`availOut, this`session, this`output, strm.outbuf
      ensures BuffersEmpty() && Now() == Draining(format, library, old(Now()))
      ensures PutOut(old(output), output, pieces)
    {
      pieces := [];
      var more := true;
      while more
        invariant BuffersEmpty()
        invariant Draining(format, library, old(Now())) == if more then Draining(format, library, Now()) else Now()
        invariant PutOut(old(output), output, pieces)
        decreases more, |format.decode(session.fed)| - |session.emitted|
      {
        ghost var before := output;
        var piece := DrainStep();
        more := session.last == Ok && piece != [];
        BucketAppended(old(output), before, pieces, piece);
        pieces := AppendBucket(pieces, piece);
      }
    }

    /** `php_bz2_decompress_filter`. A call fails if and only if the library refuses a
        start or data; an error at the close is dropped. All that the library puts out
        is passed on, whatever the mode. For a single stream, after a close and without
        a library error, that is the decoding of the input's first stream. */
    method Decompress(bucketsIn: seq<seq<Byte>>, flushClose: bool)
      returns (bucketsOut: seq<seq<Byte>>, exitStatus: ExitStatus, bytesConsumed: Option<nat>)
      requires Valid()
      modifies strm`nextIn, strm`availIn, strm`nextOut, strm`availOut, this`session, this`status, this`output
      modifies this`received
      modifies strm.inbuf, strm.outbuf
      ensures var (outcome, t) := FeedAll(format, library, expectConcatenated, old(Now()), bucketsIn, 0);
              exitStatus == ErrFatal <==> outcome == Refused
      ensures Now() == Called(format, library, expectConcatenated, old(Now()), bucketsIn, flushClose)
      ensures exitStatus == ErrFatal ==> session.last == Error
      ensures !flushClose ==> (exitStatus == ErrFatal <==> session.last == Error)
      ensures exitStatus != ErrFatal ==> PutOut(old(output), output, bucketsOut)
      ensures var (outcome, t) := FeedAll(format, library, expectConcatenated, old(Now()), bucketsIn, 0);
              && (exitStatus == PassOn <==> outcome == Stopped || (outcome == Through && bucketsOut != []))
              && (bytesConsumed.Some? <==> outcome == Through)
      ensures bytesConsumed.Some? ==>
                && bytesConsumed.value >= |Flatten(bucketsIn)|
                && (status != Finished || old(status) == Finished ==> bytesConsumed.value == |Flatten(bucketsIn)|)
      ensures session.last != Error ==>
                && Valid()
                && received == old(received) + Flatten(bucketsIn)
                && (!expectConcatenated && flushClose ==> output == format.decode(Stream(format, received)))
    {
      ghost var seen := received;
      received := received + Flatten(bucketsIn);
      assert bucketsIn[0..] == bucketsIn;
      if !expectConcatenated {
        FeedAllInStep(format, library, Now(), bucketsIn, 0, seen);
      }
      var consumed, outcome;
      bucketsOut, consumed, outcome := FilterBuckets(bucketsIn);
      if outcome == Refused {
        return bucketsOut, ErrFatal, None;
      }
      if outcome == Stopped {
        if !expectConcatenated {
          Whole(format, Now(), received);
        }
        return bucketsOut, PassOn, None;
      }
      if status == Running && flushClose {
        if !expectConcatenated {
          DrainingInStep(format, library, Now(), received);
        }
        ghost var before := output;
        var pieces := Drain();
        BucketsAppended(old(output), before, bucketsOut, output, pieces);
        bucketsOut := bucketsOut + pieces;
      }
      if !expectConcatenated && flushClose && session.last != Error {
        Whole(format, Now(), received);
      }
      exitStatus := if bucketsOut == [] then FeedMe else PassOn;
      bytesConsumed := Some(consumed);
    }
  }

  /** A whole use of the filter: the stream layer passes the input in any number of
      calls and buckets and closes with the last call. `failed` if and only if the
      library reports an error; otherwise the output is the decoding of the input's
      first stream. With a library that accepts the input that is so however the
      input is cut. */
  method Use(format: Format, library: Decoder, calls: seq<seq<seq<Byte>>>) returns (output: seq<Byte>, failed: bool)
    requires Contract(format, library) && calls != []
    ensures failed <==> CalledAll(format, library, false, INITIAL, calls, 0).session.last == Error
    ensures !failed ==> output == format.decode(Stream(format, Flatten(Joined(calls))))
    ensures Accepts(format, library, Flatten(Joined(calls))) ==>
              output == format.decode(Stream(format, Flatten(Joined(calls))))
  {
    var filter := new Filter(format, library, false);
    if Accepts(format, library, Flatten(Joined(calls))) {
      assert calls[..0] == [];
      CallsAccepted(format, library, INITIAL, calls, 0, Flatten(Joined(calls)));
    }
    output, failed := [], false;
    var i := 0;
    while i < |calls| && !failed
      invariant i <= |calls|
      invariant filter.format == format && filter.library == library && !filter.expectConcatenated
      invariant fresh(filter) && fresh(filter.strm) && fresh(filter.strm.inbuf) && fresh(filter.strm.outbuf)
      invariant CalledAll(format, library, false, filter.Now(), calls, i)
                == CalledAll(format, library, false, INITIAL, calls, 0)
      invariant failed <==> filter.session.last == Error
      invariant !failed ==>
                  filter.Valid() && filter.output == output && filter.received == Flatten(Joined(calls[..i]))
      invariant !failed && i == |calls| ==> output == format.decode(Stream(format, filter.received))
    {
      var out, exit, consumed := filter.Decompress(calls[i], i == |calls| - 1);
      JoinedNext(calls, i);
      output, failed := output + Flatten(out), filter.session.last == Error;
      i := i + 1;
    }
    assert i == |calls| ==> calls[..i] == calls;
  }

  // ---- an error at the close

  /** A format in which the byte 1 decodes to the byte 9, and no stream ends. */
  function OneToNine(): Format {
    Format(x => if x == [1] then [9] else [], x => false)
  }

  /** A library that takes the byte 1 and then has nothing but errors to offer. */
  function FaultyDecoder(): Decoder {
    Decoder(s => (true, FRESH),
            (s: Session, input: seq<Byte>, room: nat) =>
              if s.fed == [] && s.emitted == [] && input == [1] then
                (Answer(1, [], Ok), Session([1], [], s.calls + 1, Ok))
              else
                (Answer(0, [], Error), s.(calls := s.calls + 1, last := Error)))
  }

  lemma FaultyKeepsContract()
    ensures Contract(OneToNine(), FaultyDecoder())
  {
    forall s: Session, input: seq<Byte>, room: nat
      ensures Keeps(OneToNine(), FaultyDecoder(), s, input, room)
    {
      assert s.fed + input[..0] == s.fed && s.emitted + [] == s.emitted;
      if input == [1] {
        assert input[..1] == [1] && [] + [1] == [1];
      }
    }
  }

  /** An error that the library reports at the close leaves no trace: the call asks
      for more, with no output, where a byte should have come. */
  method ErrorAtCloseIsDropped() returns (out: seq<seq<Byte>>, exit: ExitStatus)
    ensures exit == FeedMe && out == []
    ensures OneToNine().decode(Stream(OneToNine(), [1])) == [9]
  {
    var f, lib := OneToNine(), FaultyDecoder();
    FaultyKeepsContract();
    StreamOfOpen(f, [1], 0);
    var filter := new Filter(f, lib, false);
    assert Flatten([[1]]) == Flatten([]) + [1];
    AcceptsThenFails();
    var consumed;
    out, exit, consumed := filter.Decompress([[1]], true);
    NothingPutOut([], [], out);
  }

  lemma AcceptsThenFails()
    requires Contract(OneToNine(), FaultyDecoder())
    ensures var (outcome, t) := FeedAll(OneToNine(), FaultyDecoder(), false, INITIAL, [[1]], 0);
            && outcome == Through && t.status == Running && t.output == []
            && Draining(OneToNine(), FaultyDecoder(), t).session.last == Error
            && Draining(OneToNine(), FaultyDecoder(), t).output == []
  {
    var f, lib := OneToNine(), FaultyDecoder();
    var ready := State(Running, FRESH, []);
    var fed := State(Running, Session([1], [], 1, Ok), []);
    assert Chunk([1], 0) == [1];
    assert Started(lib, INITIAL) == ready;
    assert lib.reply(FRESH, [1], BUFFER) == (Answer(1, [], Ok), fed.session);
    assert Fed(false, ready, Answer(1, [], Ok), fed.session) == fed;
    assert Feed(f, lib, false, fed, [1], 1) == (Through, fed);
    assert Feed(f, lib, false, INITIAL, [1], 0) == (Through, fed);
    assert FeedAll(f, lib, false, fed, [[1]], 1) == (Through, fed);
  }
}
