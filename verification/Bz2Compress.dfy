/** bz2/bz2_filter.c: the bzip2.compress stream filter. */
module Bz2Compress {
  import opened Bz2Buffers
  import opened Bz2Codec
  import Bz2Decompress

  /** PSFS_FLAG_NORMAL, PSFS_FLAG_FLUSH_INC, PSFS_FLAG_FLUSH_CLOSE. */
  datatype FlushFlag = Normal | FlushInc | FlushClose

  function ActionOf(flag: FlushFlag): Action {
    match flag
    case FlushClose => Finish
    case FlushInc => Flush
    case Normal => Run
  }

  // ---- the library in use

  /** What an encoder took and put out, how much it holds, how often it was called
      and how the last call ended. */
  datatype Session = Session(received: seq<Byte>, emitted: seq<Byte>, backlog: nat, calls: nat, last: Status)

  const FRESH := Session([], [], 0, 0, Ok)

  /** A library: what a call of BZ2_bzCompress answers, and the session after it. */
  type Encoder = (Session, seq<Byte>, nat, Action) -> (Answer, Session)

  /** One call keeps to the contract, and the session keeps account of it. */
  ghost predicate Keeps(f: Format, lib: Encoder, s: Session, input: seq<Byte>, room: nat, action: Action) {
    var (a, t) := lib(s, input, room, action);
    && EncodeAllows(f, s.received, s.emitted, s.backlog, input, room, action, a, t.backlog)
    && t.received == s.received + input[..a.taken] && t.emitted == s.emitted + a.out
    && t.last == a.status
  }

  ghost predicate Contract(f: Format, lib: Encoder) {
    forall s: Session, input: seq<Byte>, room: nat, action: Action :: Keeps(f, lib, s, input, room, action)
  }

  ghost predicate FlushesAt(f: Format, lib: Encoder, s: Session, input: seq<Byte>, room: nat) {
    var (a, t) := lib(s, input, room, Flush);
    a.status == Ok && a.taken == |input| && |a.out| < room ==> f.decode(t.emitted) == t.received
  }

  /** A flush that takes all its input and leaves room in the output holds nothing back. */
  ghost predicate Flushes(f: Format, lib: Encoder) {
    forall s: Session, input: seq<Byte>, room: nat :: FlushesAt(f, lib, s, input, room)
  }

  /** The last bucket that was put out did not need the whole output buffer. */
  predicate LeavesRoom(buckets: seq<seq<Byte>>) {
    buckets != [] ==> |buckets[|buckets| - 1]| < BUFFER
  }

  /** A bucket is handed over in chunks, from position `bin` on, until all is taken or
      the library does not answer Ok. */
  ghost function HandOver(f: Format, lib: Encoder, s: Session, bucket: seq<Byte>, bin: nat, action: Action): Session
    requires Contract(f, lib) && bin <= |bucket|
    decreases |bucket| - bin, s.backlog
  {
    if bin == |bucket| then s
    else
      var (a, t) := lib(s, Chunk(bucket, bin), BUFFER, action);
      assert Keeps(f, lib, s, Chunk(bucket, bin), BUFFER, action);
      if a.status != Ok then t else HandOver(f, lib, t, bucket, bin + a.taken, action)
  }

  /** All buckets from the `i`-th on. */
  ghost function HandOverAll(f: Format, lib: Encoder, s: Session, buckets: seq<seq<Byte>>, i: nat,
                             action: Action): Session
    requires Contract(f, lib) && i <= |buckets|
    decreases |buckets| - i
  {
    if i == |buckets| || s.last != Ok then s
    else HandOverAll(f, lib, HandOver(f, lib, s, buckets[i], 0, action), buckets, i + 1, action)
  }

  /** The library is asked to finish until it does not answer Ok. */
  ghost function Finishing(f: Format, lib: Encoder, s: Session): Session
    requires Contract(f, lib)
    decreases s.backlog
  {
    var (a, t) := lib(s, [], BUFFER, Finish);
    assert Keeps(f, lib, s, [], BUFFER, Finish);
    if a.status == Ok then Finishing(f, lib, t) else t
  }

  lemma JoinTaken(before: seq<Byte>, bucket: seq<Byte>, bin: nat, n: nat)
    requires bin < |bucket| && n <= |Chunk(bucket, bin)|
    ensures before + Chunk(bucket, bin)[..n] + bucket[bin + n..] == before + bucket[bin..]
  {
    assert Chunk(bucket, bin)[..n] + bucket[bin + n..] == bucket[bin..];
    assert before + (Chunk(bucket, bin)[..n] + bucket[bin + n..])
        == before + Chunk(bucket, bin)[..n] + bucket[bin + n..];
  }

  /** Data that is not refused is taken, each byte once and in order. It is refused
      with an error, or when asked to finish with the end of the stream. */
  lemma {:induction false} HandOverTakes(f: Format, lib: Encoder, s: Session, bucket: seq<Byte>, bin: nat,
                                         action: Action)
    requires Contract(f, lib) && s.last == Ok && bin <= |bucket|
    ensures var t := HandOver(f, lib, s, bucket, bin, action);
            && (t.last == Ok ==> t.received == s.received + bucket[bin..])
            && (t.last != Ok ==> bin < |bucket| && (t.last == Error || action == Finish))
    decreases |bucket| - bin, s.backlog
  {
    if bin < |bucket| {
      var (a, t) := lib(s, Chunk(bucket, bin), BUFFER, action);
      assert Keeps(f, lib, s, Chunk(bucket, bin), BUFFER, action);
      if a.status == Ok {
        HandOverTakes(f, lib, t, bucket, bin + a.taken, action);
        JoinTaken(s.received, bucket, bin, a.taken);
      }
    } else {
      assert s.received + bucket[bin..] == s.received;
    }
  }

  lemma {:induction false} HandOverAllTakes(f: Format, lib: Encoder, s: Session, buckets: seq<seq<Byte>>, i: nat,
                                            action: Action)
    requires Contract(f, lib) && s.last == Ok && i <= |buckets|
    ensures var t := HandOverAll(f, lib, s, buckets, i, action);
            && (t.last == Ok ==> t.received == s.received + Flatten(buckets[i..]))
            && (t.last != Ok ==> Flatten(buckets[i..]) != [] && (t.last == Error || action == Finish))
    decreases |buckets| - i
  {
    if i < |buckets| {
      var t := HandOver(f, lib, s, buckets[i], 0, action);
      HandOverTakes(f, lib, s, buckets[i], 0, action);
      FlattenRest(s.received, buckets, i);
      if t.last == Ok {
        HandOverAllTakes(f, lib, t, buckets, i + 1, action);
      }
    } else {
      assert s.received + Flatten(buckets[i..]) == s.received;
    }
  }

  /** Finishing ends with an error, or with one complete stream of all that was received. */
  lemma {:induction false} FinishingEnds(f: Format, lib: Encoder, s: Session)
    requires Contract(f, lib)
    ensures var t := Finishing(f, lib, s);
            && t.received == s.received && t.last != Ok
            && (t.last == StreamEnd ==>
                  f.ends(t.emitted) && Open(f, t.emitted) && f.decode(t.emitted) == t.received)
    decreases s.backlog
  {
    var (a, t) := lib(s, [], BUFFER, Finish);
    assert Keeps(f, lib, s, [], BUFFER, Finish);
    if a.status == Ok {
      FinishingEnds(f, lib, t);
    }
  }

  type Call = (seq<seq<Byte>>, bool)

  /** The calls with data from the `i`-th on and a closing call without, until there is
      a library error. */
  ghost function CalledAll(f: Format, lib: Encoder, s: Session, calls: seq<Call>, i: nat): Session
    requires Contract(f, lib) && i <= |calls|
    decreases |calls| - i
  {
    if s.last != Ok then s
    else if i == |calls| then Finishing(f, lib, s)
    else CalledAll(f, lib, HandOverAll(f, lib, s, calls[i].0, 0, ActionOf(FlagOf(calls[i]))), calls, i + 1)
  }

  function FlagOf(call: Call): FlushFlag {
    if call.1 then FlushInc else Normal
  }

  function Data(calls: seq<Call>): seq<seq<seq<Byte>>> {
    seq(|calls|, i requires 0 <= i < |calls| => calls[i].0)
  }

  // ---- libraries that do not fail on an input

  /** What holds of the sessions of such a library, before and while it finishes. */
  datatype Invariant = Invariant(running: Session -> bool, closing: Session -> bool)

  ghost predicate AcceptsPart(lib: Encoder, inv: Invariant, x: seq<Byte>, s: Session, input: seq<Byte>,
                              action: Action) {
    inv.running(s) && input != [] && action != Finish && s.received + input <= x ==>
      var (a, t) := lib(s, input, BUFFER, action);
      a.status != Error && inv.running(t)
  }

  ghost predicate AcceptsFinish(lib: Encoder, inv: Invariant, s: Session) {
    inv.running(s) || inv.closing(s) ==>
      var (a, t) := lib(s, [], BUFFER, Finish);
      a.status != Error && (a.status == Ok ==> inv.closing(t))
  }

  /** No error on parts of `x`, nor when asked to finish. */
  ghost predicate Accepts(lib: Encoder, inv: Invariant, x: seq<Byte>) {
    && inv.running(FRESH)
    && (forall s, input, action :: AcceptsPart(lib, inv, x, s, input, action))
    && (forall s :: AcceptsFinish(lib, inv, s))
  }

  lemma {:induction false} HandOverAccepted(f: Format, lib: Encoder, inv: Invariant, s: Session, bucket: seq<Byte>,
                                            bin: nat, action: Action, x: seq<Byte>)
    requires Contract(f, lib) && Accepts(lib, inv, x) && action != Finish
    requires bin <= |bucket| && s.received + bucket[bin..] <= x && s.last == Ok && inv.running(s)
    ensures var t := HandOver(f, lib, s, bucket, bin, action);
            t.last == Ok && inv.running(t)
    decreases |bucket| - bin, s.backlog
  {
    if bin < |bucket| {
      var chunk := Chunk(bucket, bin);
      var (a, t) := lib(s, chunk, BUFFER, action);
      JoinTaken(s.received, bucket, bin, |chunk|);
      assert chunk[..|chunk|] == chunk && s.received + chunk <= s.received + chunk + bucket[bin + |chunk|..];
      assert AcceptsPart(lib, inv, x, s, chunk, action) && Keeps(f, lib, s, chunk, BUFFER, action);
      JoinTaken(s.received, bucket, bin, a.taken);
      HandOverAccepted(f, lib, inv, t, bucket, bin + a.taken, action, x);
    }
  }

  lemma {:induction false} HandOverAllAccepted(f: Format, lib: Encoder, inv: Invariant, s: Session,
                                               buckets: seq<seq<Byte>>, i: nat, action: Action, x: seq<Byte>)
    requires Contract(f, lib) && Accepts(lib, inv, x) && action != Finish
    requires i <= |buckets| && s.received + Flatten(buckets[i..]) <= x && s.last == Ok && inv.running(s)
    ensures var t := HandOverAll(f, lib, s, buckets, i, action);
            t.last == Ok && inv.running(t)
    decreases |buckets| - i
  {
    if i < |buckets| {
      var t := HandOver(f, lib, s, buckets[i], 0, action);
      FlattenRest(s.received, buckets, i);
      assert buckets[i][0..] == buckets[i];
      assert s.received + buckets[i] <= s.received + buckets[i] + Flatten(buckets[i + 1..]);
      HandOverAccepted(f, lib, inv, s, buckets[i], 0, action, x);
      HandOverTakes(f, lib, s, buckets[i], 0, action);
      HandOverAllAccepted(f, lib, inv, t, buckets, i + 1, action, x);
    }
  }

  lemma {:induction false} FinishingAccepted(f: Format, lib: Encoder, inv: Invariant, s: Session, x: seq<Byte>)
    requires Contract(f, lib) && Accepts(lib, inv, x) && (inv.running(s) || inv.closing(s))
    ensures Finishing(f, lib, s).last != Error
    decreases s.backlog
  {
    var (a, t) := lib(s, [], BUFFER, Finish);
    assert AcceptsFinish(lib, inv, s) && Keeps(f, lib, s, [], BUFFER, Finish);
    if a.status == Ok {
      FinishingAccepted(f, lib, inv, t, x);
    }
  }

  /** A library that accepts the data reports no error, however the data is cut. */
  lemma {:induction false} CallsAccepted(f: Format, lib: Encoder, inv: Invariant, s: Session, calls: seq<Call>, i: nat,
                                         x: seq<Byte>)
    requires Contract(f, lib) && Accepts(lib, inv, x) && x == Flatten(Joined(Data(calls))) && i <= |calls|
    requires s.received == Flatten(Joined(Data(calls)[..i])) && s.last == Ok && inv.running(s)
    ensures CalledAll(f, lib, s, calls, i).last != Error
    decreases |calls| - i
  {
    if i < |calls| {
      var buckets, action := calls[i].0, ActionOf(FlagOf(calls[i]));
      JoinedNext(Data(calls), i);
      JoinedPrefix(Data(calls), i + 1);
      assert buckets[0..] == buckets;
      HandOverAllAccepted(f, lib, inv, s, buckets, 0, action, x);
      HandOverAllTakes(f, lib, s, buckets, 0, action);
      CallsAccepted(f, lib, inv, HandOverAll(f, lib, s, buckets, 0, action), calls, i + 1, x);
    } else {
      FinishingAccepted(f, lib, inv, s, x);
    }
  }

  // ---- the filter

  class Filter {
    const format: Format
    const library: Encoder

    // bz_stream: the two buffers, and the library behind it
    const strm: Buffers
    var session: Session

    /** Between library calls both buffers are empty. */
    ghost predicate BuffersEmpty()
      reads strm
    {
      strm.Empty() && Contract(format, library)
    }

    ghost predicate Valid()
      reads this, strm
    {
      BuffersEmpty() && session.last == Ok
    }

    /** `php_bz2_filter_create` for "bzip2.compress". */
    constructor (format: Format, library: Encoder)
      requires Contract(format, library)
      ensures Valid() && session == FRESH
      ensures this.format == format && this.library == library
      ensures fresh(strm) && fresh(strm.inbuf) && fresh(strm.outbuf)
    {
      this.format, this.library := format, library;
      strm := new Buffers();
      session := FRESH;
    }

    /** BZ2_bzCompress on the stream structure. */
    method BzCompress(action: Action) returns (answer: Answer)
      requires strm.nextIn + strm.availIn <= strm.inbuf.Length && strm.nextOut + strm.availOut <= strm.outbuf.Length
      requires strm.inbuf != strm.outbuf && Contract(format, library)
      modifies strm`nextIn, strm`availIn, strm`nextOut, strm`availOut, this`session, strm.outbuf
      ensures (answer, session)
              == library(old(session), old(Input()), old(strm.availOut), action)
      ensures answer.taken <= old(strm.availIn) && |answer.out| <= old(strm.availOut)
      ensures strm.nextIn == old(strm.nextIn) + answer.taken && strm.availIn == old(strm.availIn) - answer.taken
      ensures strm.nextOut == old(strm.nextOut) + |answer.out| && strm.availOut == old(strm.availOut) - |answer.out|
      ensures strm.outbuf[old(strm.nextOut)..strm.nextOut] == answer.out
    {
      var input := Input();
      var (a, next) := library(session, input, strm.availOut, action);
      assert Keeps(format, library, session, input, strm.availOut, action);
      answer := a;
      strm.Exchange(answer);
      session := next;
    }

    /** What waits in the input buffer. */
    function Input(): seq<Byte>
      requires strm.nextIn + strm.availIn <= strm.inbuf.Length
      reads strm, strm.inbuf
    {
      strm.inbuf[strm.nextIn..strm.nextIn + strm.availIn]
    }

    /** Lines 233-261: one pass over the inner loop, at position `bin` of a bucket. */
    method Pass(bucket: seq<Byte>, bin: nat, action: Action) returns (taken: nat, piece: seq<Byte>, fatal: bool)
      requires Valid() && bin < |bucket|
      modifies strm`nextIn, strm`availIn, strm`nextOut, strm`availOut, this`session, strm.inbuf, strm.outbuf
      ensures var (a, t) := library(old(session), Chunk(bucket, bin), BUFFER, action);
              && session == t && (fatal <==> a.status != Ok) && (fatal <==> session.last != Ok)
              && (!fatal ==> Valid() && taken == a.taken <= |Chunk(bucket, bin)| && piece == a.out)
    {
      var desired := |bucket| - bin;
      if desired > strm.inbufLen {
        desired := strm.inbufLen;
      }
      var chunk := bucket[bin..bin + desired];
      assert chunk == Chunk(bucket, bin);
      strm.Load(chunk);
      assert Keeps(format, library, session, chunk, strm.availOut, action);
      var answer := BzCompress(action);
      if answer.status != Ok {
        return 0, [], true;
      }
      taken, fatal := desired - strm.availIn, false;
      strm.Rewind();
      piece := strm.TakeOutput();
    }

    /** The same, as a step of handing the bucket over. */
    method Step(bucket: seq<Byte>, bin: nat, action: Action) returns (taken: nat, piece: seq<Byte>, fatal: bool)
      requires Valid() && bin < |bucket|
      modifies strm`nextIn, strm`availIn, strm`nextOut, strm`availOut, this`session, strm.inbuf, strm.outbuf
      ensures fatal <==> session.last != Ok
      ensures fatal ==> session == HandOver(format, library, old(session), bucket, bin, action)
      ensures !fatal ==>
                && Valid() && bin + taken <= |bucket|
                && HandOver(format, library, session, bucket, bin + taken, action)
                   == HandOver(format, library, old(session), bucket, bin, action)
                && session.emitted == old(session).emitted + piece
                && (taken == 0 ==> session.backlog < old(session).backlog)
                && (action == Flush && bin + taken == |bucket| && |piece| < BUFFER ==> NothingHeldBack())
    {
      assert Keeps(format, library, session, Chunk(bucket, bin), BUFFER, action);
      assert Flushes(format, library) ==> FlushesAt(format, library, session, Chunk(bucket, bin), BUFFER);
      taken, piece, fatal := Pass(bucket, bin, action);
    }

    /** Lines 227-264: one input bucket. */
    method FilterBucket(bucket: seq<Byte>, action: Action)
      returns (pieces: seq<seq<Byte>>, consumed: nat, fatal: bool)
      requires Valid()
      modifies strm`nextIn, strm`availIn, strm`nextOut, strm`availOut, this`session, strm.inbuf, strm.outbuf
      ensures session == HandOver(format, library, old(session), bucket, 0, action)
      ensures fatal <==> session.last != Ok
      ensures !fatal ==> Valid() && PutOut(old(session).emitted, session.emitted, pieces) && consumed == |bucket|
      ensures !fatal && action == Flush && bucket != [] && LeavesRoom(pieces) ==> NothingHeldBack()
      ensures bucket == [] ==> session == old(session) && pieces == []
    {
      pieces, consumed, fatal := [], 0, false;
      var bin := 0;
      while bin < |bucket|
        invariant bin <= |bucket| && Valid() && consumed == bin
        invariant HandOver(format, library, session, bucket, bin, action)
                  == HandOver(format, library, old(session), bucket, 0, action)
        invariant PutOut(old(session).emitted, session.emitted, pieces)
        invariant action == Flush && 0 < bin == |bucket| && LeavesRoom(pieces) ==> NothingHeldBack()
        invariant bucket == [] ==> session == old(session) && pieces == []
        decreases |bucket| - bin, session.backlog
      {
        ghost var before := session.emitted;
        var taken, piece;
        taken, piece, fatal := Step(bucket, bin, action);
        if fatal {
          return;
        }
        consumed := consumed + taken;
        bin := bin + taken;
        BucketAppended(old(session).emitted, before, pieces, piece);
        pieces := AppendBucket(pieces, piece);
      }
    }

    /** Lines 225-265: all input buckets. */
    method FilterBuckets(bucketsIn: seq<seq<Byte>>, action: Action)
      returns (bucketsOut: seq<seq<Byte>>, consumed: nat, fatal: bool)
      requires Valid()
      modifies strm`nextIn, strm`availIn, strm`nextOut, strm`availOut, this`session, strm.inbuf, strm.outbuf
      ensures session == HandOverAll(format, library, old(session), bucketsIn, 0, action)
      ensures fatal <==> session.last != Ok
      ensures !fatal ==>
                Valid() && PutOut(old(session).emitted, session.emitted, bucketsOut) && consumed == |Flatten(bucketsIn)|
      ensures !fatal && action == Flush && Flatten(bucketsIn) != [] && LeavesRoom(bucketsOut) ==> NothingHeldBack()
    {
      bucketsOut, consumed, fatal := [], 0, false;
      var i := 0;
      while i < |bucketsIn|
        invariant i <= |bucketsIn| && Valid() && consumed == |Flatten(bucketsIn[..i])|
        invariant HandOverAll(format, library, session, bucketsIn, i, action)
                  == HandOverAll(format, library, old(session), bucketsIn, 0, action)
        invariant PutOut(old(session).emitted, session.emitted, bucketsOut)
        invariant action == Flush && Flatten(bucketsIn[..i]) != [] && LeavesRoom(bucketsOut) ==> NothingHeldBack()
      {
        FlattenNext(bucketsIn, i);
        ghost var before := session.emitted;
        var pieces, count;
        pieces, count, fatal := FilterBucket(bucketsIn[i], action);
        if !fatal {
          BucketsAppended(old(session).emitted, before, bucketsOut, session.emitted, pieces);
        }
        bucketsOut, consumed, i := bucketsOut + pieces, consumed + count, i + 1;
        if fatal {
          return;
        }
      }
      assert bucketsIn[..i] == bucketsIn;
    }

    /** Lines 270-279: the library is asked once, and its output taken. */
    method FinishStep() returns (piece: seq<Byte>)
      requires BuffersEmpty()
      modifies strm`nextIn, strm`availIn, strm`nextOut, strm`availOut, this`session, strm.outbuf
      ensures BuffersEmpty() && session.emitted == old(session).emitted + piece
      ensures Finishing(format, library, old(session))
              == if session.last == Ok then Finishing(format, library, session) else session
      ensures session.last == Ok ==> session.backlog < old(session).backlog
    {
      assert Input() == [];
      assert Keeps(format, library, session, [], BUFFER, Finish);
      var answer := BzCompress(Finish);
      piece := strm.TakeOutput();
      assert piece == answer.out;
    }

    /** Lines 266-281: at the close, the stream is finished and put out. A library
        error ends the loop and is dropped. */
    method Drain() returns (pieces: seq<seq<Byte>>)
      requires Valid()
      modifies strm`nextIn, strm`availIn, strm`nextOut, strm`availOut, this`session, strm.outbuf
      ensures BuffersEmpty() && session == Finishing(format, library, old(session))
      ensures PutOut(old(session).emitted, session.emitted, pieces)
    {
      pieces := [];
      while session.last == Ok
        invariant BuffersEmpty()
        invariant Finishing(format, library, old(session))
                  == if session.last == Ok then Finishing(format, library, session) else session
        invariant PutOut(old(session).emitted, session.emitted, pieces)
        decreases session.last == Ok, session.backlog
      {
        ghost var before := session.emitted;
        var piece := FinishStep();
        BucketAppended(old(session).emitted, before, pieces, piece);
        pieces := AppendBucket(pieces, piece);
      }
    }

    /** `php_bz2_compress_filter`. A call fails if and only if the library answers other
        than Ok while data is handed over: with an error, or, on a call that also closes,
        with the end of the stream. A call that does not fail hands every byte to the
        library once and in order and passes on all that comes back; after a close that is
        one complete stream, unless the library reports an error then, which is dropped. After
        an incremental flush that brought data and did not fill its last bucket nothing that
        was received is held back, if the library flushes. */
    method Compress(bucketsIn: seq<seq<Byte>>, flag: FlushFlag)
      returns (bucketsOut: seq<seq<Byte>>, exitStatus: ExitStatus, bytesConsumed: nat)
      requires Valid()
      modifies strm`nextIn, strm`availIn, strm`nextOut, strm`availOut, this`session, strm.inbuf, strm.outbuf
      ensures var t := HandOverAll(format, library, old(session), bucketsIn, 0, ActionOf(flag));
              && (exitStatus == ErrFatal <==> t.last != Ok)
              && session == if t.last == Ok && flag == FlushClose then Finishing(format, library, t) else t
      ensures exitStatus == ErrFatal ==>
                Flatten(bucketsIn) != [] && (session.last == Error || (session.last == StreamEnd && flag == FlushClose))
      ensures flag != FlushClose ==> (exitStatus == ErrFatal <==> session.last == Error)
      ensures exitStatus != ErrFatal ==>
                && BuffersEmpty()
                && session.received == old(session).received + Flatten(bucketsIn)
                && PutOut(old(session).emitted, session.emitted, bucketsOut)
                && bytesConsumed == |Flatten(bucketsIn)|
                && (exitStatus == FeedMe <==> bucketsOut == [])
                && (flag != FlushClose ==> Valid())
                && (flag == FlushClose && session.last != Error ==> Complete())
                && (flag == FlushInc && Flatten(bucketsIn) != [] && LeavesRoom(bucketsOut) ==> NothingHeldBack())
    {
      HandOverAllTakes(format, library, session, bucketsIn, 0, ActionOf(flag));
      assert bucketsIn[0..] == bucketsIn;
      var fatal;
      bucketsOut, bytesConsumed, fatal := FilterBuckets(bucketsIn, ActionOf(flag));
      if fatal {
        return bucketsOut, ErrFatal, bytesConsumed;
      }
      if flag == FlushClose {
        ghost var before := session.emitted;
        FinishingEnds(format, library, session);
        var pieces := Drain();
        BucketsAppended(old(session).emitted, before, bucketsOut, session.emitted, pieces);
        bucketsOut := bucketsOut + pieces;
      }
      exitStatus := if bucketsOut == [] then FeedMe else PassOn;
    }

    /** With a library that flushes, what was put out decodes to all that was received. */
    ghost predicate NothingHeldBack()
      reads this
    {
      Flushes(format, library) ==> format.decode(session.emitted) == session.received
    }

    /** What was put out is one complete stream that decodes to what was received. */
    ghost predicate Complete()
      reads this
    {
      && format.ends(session.emitted) && Open(format, session.emitted)
      && format.decode(session.emitted) == session.received
    }
  }

  /** A whole use of the filter: any number of calls with data, closed by a call
      without. `failed` if and only if the library reports an error; otherwise the
      output is one complete stream that decodes to the input. With a library that
      accepts the data that is so however the data is cut. */
  method Use(format: Format, library: Encoder, calls: seq<Call>, ghost inv: Invariant)
    returns (output: seq<Byte>, failed: bool)
    requires Contract(format, library)
    ensures failed <==> CalledAll(format, library, FRESH, calls, 0).last == Error
    ensures !failed ==> StreamFor(format, Flatten(Joined(Data(calls))), output)
    ensures Accepts(library, inv, Flatten(Joined(Data(calls)))) ==>
              StreamFor(format, Flatten(Joined(Data(calls))), output)
  {
    var filter := new Filter(format, library);
    assert Data(calls)[..0] == [];
    if Accepts(library, inv, Flatten(Joined(Data(calls)))) {
      CallsAccepted(format, library, inv, FRESH, calls, 0, Flatten(Joined(Data(calls))));
    }
    output := [];
    var i := 0;
    var exit, out, consumed;
    while i < |calls|
      invariant i <= |calls|
      invariant filter.format == format && filter.library == library && filter.Valid()
      invariant fresh(filter) && fresh(filter.strm) && fresh(filter.strm.inbuf) && fresh(filter.strm.outbuf)
      invariant CalledAll(format, library, filter.session, calls, i) == CalledAll(format, library, FRESH, calls, 0)
      invariant filter.session.emitted == output && filter.session.received == Flatten(Joined(Data(calls)[..i]))
    {
      out, exit, consumed := filter.Compress(calls[i].0, FlagOf(calls[i]));
      if exit == ErrFatal {
        return output, true;
      }
      JoinedNext(Data(calls), i);
      output := output + Flatten(out);
      i := i + 1;
    }
    assert Data(calls)[..i] == Data(calls);
    out, exit, consumed := filter.Compress([], FlushClose);
    assert filter.session.received == Flatten(Joined(Data(calls))) + [];
    output, failed := output + Flatten(out), filter.session.last == Error;
  }

  /** `x` is one complete stream, of `data`. */
  predicate StreamFor(f: Format, data: seq<Byte>, x: seq<Byte>) {
    f.ends(x) && Open(f, x) && f.decode(x) == data
  }

  ghost predicate Cuts(cut: seq<Byte> -> seq<seq<seq<Byte>>>) {
    forall x: seq<Byte> :: cut(x) != [] && Flatten(Joined(cut(x))) == x
  }

  /** The decoder accepts every complete stream. */
  ghost predicate AcceptsStreams(f: Format, decoder: Bz2Decompress.Decoder) {
    forall x: seq<Byte> :: f.ends(x) && Open(f, x) ==> Bz2Decompress.Accepts(f, decoder, x)
  }

  /** Compressing and decompressing through the two filters gives the data back, for
      any cut of the data and any cut of the compressed bytes, unless a library reports
      an error; and always with libraries that accept data and streams. */
  method RoundTrip(format: Format, encoder: Encoder, decoder: Bz2Decompress.Decoder, calls: seq<Call>,
                   cut: seq<Byte> -> seq<seq<seq<Byte>>>, ghost inv: Invariant)
    returns (compressed: seq<Byte>, result: seq<Byte>, failed: bool)
    requires Contract(format, encoder) && Bz2Decompress.Contract(format, decoder) && Cuts(cut)
    ensures failed <==>
              || CalledAll(format, encoder, FRESH, calls, 0).last == Error
              || var t := Bz2Decompress.CalledAll(format, decoder, false, Bz2Decompress.INITIAL, cut(compressed), 0);
                 t.session.last == Error
    ensures !failed ==> result == Flatten(Joined(Data(calls)))
    ensures Accepts(encoder, inv, Flatten(Joined(Data(calls)))) && AcceptsStreams(format, decoder) ==>
              result == Flatten(Joined(Data(calls)))
  {
    var compressFailed, decompressFailed;
    compressed, compressFailed := Use(format, encoder, calls, inv);
    assert Flatten(Joined(cut(compressed))) == compressed;
    result, decompressFailed := Bz2Decompress.Use(format, decoder, cut(compressed));
    failed := compressFailed || decompressFailed;
    if StreamFor(format, Flatten(Joined(Data(calls))), compressed) {
      StreamOfEnded(format, compressed, compressed, 0);
    }
  }

  // ---- closing calls that bring data, and errors at the close

  /** A format whose only stream is the byte 0, for the byte 7. */
  function ZeroForSeven(): Format {
    Format(x => if x == [0] then [7] else [], x => x == [0])
  }

  /** A library that takes the byte 7, and finishes as soon as it is asked to. */
  function EagerEncoder(): Encoder {
    (s: Session, input: seq<Byte>, room: nat, action: Action) =>
      if action == Finish && s.received + input == [7] && s.emitted == [] && room > 0 then
        (Answer(|input|, [0], StreamEnd), Session([7], [0], 0, s.calls + 1, StreamEnd))
      else if action != Finish && s.received == [] && input == [7] then
        (Answer(1, [], Ok), Session([7], s.emitted, s.backlog, s.calls + 1, Ok))
      else
        (Answer(0, [], Error), s.(calls := s.calls + 1, last := Error))
  }

  lemma EagerKeepsContract()
    ensures Contract(ZeroForSeven(), EagerEncoder())
  {
    forall s: Session, input: seq<Byte>, room: nat, action: Action
      ensures Keeps(ZeroForSeven(), EagerEncoder(), s, input, room, action)
    {
      assert s.received + input[..0] == s.received && s.emitted + [] == s.emitted && input[..|input|] == input;
      if input == [7] {
        assert input[..1] == [7] && [] + [7] == [7];
      }
    }
  }

  /** With that library one call that brings the byte and closes is refused, by the
      end of the stream. */
  lemma ClosingWithDataIsRefused()
    requires Contract(ZeroForSeven(), EagerEncoder())
    ensures EncodeAllows(ZeroForSeven(), [], [], 0, [7], BUFFER, Finish, Answer(1, [0], StreamEnd), 0)
    ensures HandOverAll(ZeroForSeven(), EagerEncoder(), FRESH, [[7]], 0, Finish).last == StreamEnd
  {
    var f, lib := ZeroForSeven(), EagerEncoder();
    assert Chunk([7], 0) == [7] && [] + [7] == [7];
    assert lib(FRESH, [7], BUFFER, Finish) == (Answer(1, [0], StreamEnd), Session([7], [0], 0, 1, StreamEnd));
    assert Keeps(f, lib, FRESH, [7], BUFFER, Finish);
    assert HandOver(f, lib, FRESH, [7], 0, Finish) == Session([7], [0], 0, 1, StreamEnd);
  }

  /** The byte in one call, and the close in the next, succeed. */
  lemma DataThenCloseSucceeds()
    requires Contract(ZeroForSeven(), EagerEncoder())
    ensures var t := HandOverAll(ZeroForSeven(), EagerEncoder(), FRESH, [[7]], 0, Run);
            && t == Session([7], [], 0, 1, Ok)
            && Finishing(ZeroForSeven(), EagerEncoder(), t) == Session([7], [0], 0, 2, StreamEnd)
  {
    var f, lib, t := ZeroForSeven(), EagerEncoder(), Session([7], [], 0, 1, Ok);
    assert Chunk([7], 0) == [7] && [7] + [] == [7];
    assert lib(FRESH, [7], BUFFER, Run) == (Answer(1, [], Ok), t);
    assert HandOver(f, lib, t, [7], 1, Run) == t;
    assert HandOver(f, lib, FRESH, [7], 0, Run) == t;
    assert HandOverAll(f, lib, t, [[7]], 1, Run) == t;
    assert lib(t, [], BUFFER, Finish) == (Answer(0, [0], StreamEnd), Session([7], [0], 0, 2, StreamEnd));
  }

  method InOneCall() returns (exit: ExitStatus)
    ensures exit == ErrFatal
  {
    var f, lib := ZeroForSeven(), EagerEncoder();
    EagerKeepsContract();
    ClosingWithDataIsRefused();
    var filter := new Filter(f, lib);
    var out, consumed;
    out, exit, consumed := filter.Compress([[7]], FlushClose);
  }

  method InTwoCalls() returns (exit: ExitStatus, output: seq<Byte>)
    ensures exit == PassOn && output == [0]
  {
    var f, lib := ZeroForSeven(), EagerEncoder();
    EagerKeepsContract();
    DataThenCloseSucceeds();
    var filter := new Filter(f, lib);
    var out, first, consumed := filter.Compress([[7]], Normal);
    out, exit, consumed := filter.Compress([], FlushClose);
    NothingPutOut([], [0], out);
    output := Flatten(out);
  }

  /** So the cut decides whether the same data can be compressed: what fails in one
      closing call gives a complete stream in two calls. */
  method CutDecides() returns (oneCall: ExitStatus, twoCalls: ExitStatus, output: seq<Byte>)
    ensures oneCall == ErrFatal && twoCalls == PassOn
    ensures ZeroForSeven().ends(output) && ZeroForSeven().decode(output) == [7]
  {
    oneCall := InOneCall();
    twoCalls, output := InTwoCalls();
  }

  /** A format in which the byte 1 already says 7, and the byte 0 ends the stream. */
  function OneForSeven(): Format {
    Format(x => if x != [] && x[0] == 1 then [7] else [], x => x == [1, 0])
  }

  /** A library that takes the byte 7, and puts it out only when asked to flush. */
  function HoldingEncoder(): Encoder {
    (s: Session, input: seq<Byte>, room: nat, action: Action) =>
      if s.received == [] && s.emitted == [] && input == [7] && room > 1 && action != Finish then
        var out := if action == Flush then [1] else [];
        (Answer(1, out, Ok), Session([7], out, s.backlog, s.calls + 1, Ok))
      else
        (Answer(0, [], Error), s.(calls := s.calls + 1, last := Error))
  }

  lemma HoldingKeepsContract()
    ensures Contract(OneForSeven(), HoldingEncoder()) && Flushes(OneForSeven(), HoldingEncoder())
  {
    var f, lib := OneForSeven(), HoldingEncoder();
    forall s: Session, input: seq<Byte>, room: nat, action: Action
      ensures Keeps(f, lib, s, input, room, action) && FlushesAt(f, lib, s, input, room)
    {
      assert s.received + input[..0] == s.received && s.emitted + [] == s.emitted;
      if s.received == [] && s.emitted == [] && input == [7] {
        assert input[..1] == [7] && [] + [7] == [7] && [] + [1] == [1];
      }
    }
  }

  lemma HeldOrPutOut(action: Action, out: seq<Byte>)
    requires Contract(OneForSeven(), HoldingEncoder()) && action != Finish
    requires out == if action == Flush then [1] else []
    ensures HandOverAll(OneForSeven(), HoldingEncoder(), FRESH, [[7]], 0, action) == Session([7], out, 0, 1, Ok)
  {
    var f, lib, t := OneForSeven(), HoldingEncoder(), Session([7], out, 0, 1, Ok);
    assert Chunk([7], 0) == [7];
    assert lib(FRESH, [7], BUFFER, action) == (Answer(1, out, Ok), t);
    assert HandOver(f, lib, t, [7], 1, action) == t;
    assert HandOver(f, lib, FRESH, [7], 0, action) == t;
    assert HandOverAll(f, lib, t, [[7]], 1, action) == t;
  }

  method WithoutFlush() returns (exit: ExitStatus, out: seq<seq<Byte>>)
    ensures exit == FeedMe && out == []
  {
    var f, lib := OneForSeven(), HoldingEncoder();
    HoldingKeepsContract();
    HeldOrPutOut(Run, []);
    var filter := new Filter(f, lib);
    var consumed;
    out, exit, consumed := filter.Compress([[7]], Normal);
    NothingPutOut([], [], out);
  }

  method WithFlush() returns (exit: ExitStatus, output: seq<Byte>)
    ensures exit == PassOn && output == [1]
  {
    var f, lib := OneForSeven(), HoldingEncoder();
    HoldingKeepsContract();
    HeldOrPutOut(Flush, [1]);
    var filter := new Filter(f, lib);
    var out, consumed;
    out, exit, consumed := filter.Compress([[7]], FlushInc);
    NothingPutOut([], [1], out);
    output := Flatten(out);
  }

  /** What an incremental flush changes: with that library the same call asks for more
      without it, and passes on the byte with it. */
  method FlushDecides() returns (without: ExitStatus, nothing: seq<seq<Byte>>, with: ExitStatus, output: seq<Byte>)
    ensures without == FeedMe && nothing == []
    ensures with == PassOn && OneForSeven().decode(output) == [7]
  {
    without, nothing := WithoutFlush();
    with, output := WithFlush();
  }

  /** A library that takes the byte 7 and then has nothing but errors to offer. */
  function FaultyEncoder(): Encoder {
    (s: Session, input: seq<Byte>, room: nat, action: Action) =>
      if s.received == [] && input == [7] && action != Finish then
        (Answer(1, [], Ok), Session([7], s.emitted, s.backlog, s.calls + 1, Ok))
      else
        (Answer(0, [], Error), s.(calls := s.calls + 1, last := Error))
  }

  lemma FaultyKeepsContract()
    ensures Contract(ZeroForSeven(), FaultyEncoder())
  {
    forall s: Session, input: seq<Byte>, room: nat, action: Action
      ensures Keeps(ZeroForSeven(), FaultyEncoder(), s, input, room, action)
    {
      assert s.received + input[..0] == s.received && s.emitted + [] == s.emitted;
      if input == [7] {
        assert input[..1] == [7] && [] + [7] == [7];
      }
    }
  }

  lemma FailsToFinish()
    requires Contract(ZeroForSeven(), FaultyEncoder())
    ensures var t := HandOverAll(ZeroForSeven(), FaultyEncoder(), FRESH, [[7]], 0, Run);
            && t.last == Ok && Finishing(ZeroForSeven(), FaultyEncoder(), t) == t.(calls := t.calls + 1, last := Error)
  {
    var f, lib, t := ZeroForSeven(), FaultyEncoder(), Session([7], [], 0, 1, Ok);
    assert Chunk([7], 0) == [7];
    assert lib(FRESH, [7], BUFFER, Run) == (Answer(1, [], Ok), t);
    assert HandOver(f, lib, t, [7], 1, Run) == t;
    assert HandOver(f, lib, FRESH, [7], 0, Run) == t;
    assert HandOverAll(f, lib, t, [[7]], 1, Run) == t;
  }

  /** An error that the library reports at the close leaves no trace: the call asks
      for more, and the stream is never put out. */
  method ErrorAtCloseIsDropped() returns (out: seq<seq<Byte>>, exit: ExitStatus, failed: bool)
    ensures failed && exit == FeedMe && out == []
  {
    var f, lib := ZeroForSeven(), FaultyEncoder();
    FaultyKeepsContract();
    FailsToFinish();
    var filter := new Filter(f, lib);
    var consumed;
    out, exit, consumed := filter.Compress([[7]], Normal);
    out, exit, consumed := filter.Compress([], FlushClose);
    failed := filter.session.last == Error;
    NothingPutOut([], [], out);
  }
}
