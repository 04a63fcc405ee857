/** What the filters of bz2/bz2_filter.c rely on in the bzip2 library. The
    library itself is not modelled: it is any function of what it has seen, and of
    the number of the call, whose answers keep to the contract. An error is always
    allowed. */
module Bz2Codec {
  type Byte = b: int | 0 <= b < 256

  /** PSFS_ERR_FATAL, PSFS_FEED_ME, PSFS_PASS_ON. */
  datatype ExitStatus = ErrFatal | FeedMe | PassOn

  /** A compressed format: what a prefix of a stream decodes to, and which byte
      sequences are complete streams. */
  datatype Format = Format(decode: seq<Byte> -> seq<Byte>, ends: seq<Byte> -> bool)

  /** Size of the two buffers of a filter. */
  const BUFFER := 2048

  /** What goes into the input buffer at position `bin` of a bucket. */
  function Chunk(bucket: seq<Byte>, bin: nat): (c: seq<Byte>)
    requires bin < |bucket|
    ensures 0 < |c| <= BUFFER && bin + |c| <= |bucket|
  {
    bucket[bin..if |bucket| - bin > BUFFER then bin + BUFFER else |bucket|]
  }

  datatype Status = Ok | StreamEnd | Error

  /** One library call: how much input it took, what it put out, how it ended. */
  datatype Answer = Answer(taken: nat, out: seq<Byte>, status: Status)

  /** No complete stream lies strictly inside `x`. */
  predicate Open(f: Format, x: seq<Byte>) {
    forall k :: 0 <= k < |x| ==> !f.ends(x[..k])
  }

  /** The contract of BZ2_bzDecompress, for a decoder that was fed `fed` and has
      put out `emitted`: never past the end of the stream, output in step with
      the input, progress whenever that is possible, and a stream end only when
      everything is out. */
  predicate DecodeAllows(f: Format, fed: seq<Byte>, emitted: seq<Byte>, input: seq<Byte>, room: nat, a: Answer) {
    && 0 <= a.taken <= |input| && |a.out| <= room
    && (a.status != Error ==>
          var fed', emitted' := fed + input[..a.taken], emitted + a.out;
          && Open(f, fed')
          && emitted' <= f.decode(fed')
          && (a.status == Ok ==> a.taken > 0 || a.out != [] || (input == [] && emitted' == f.decode(fed')))
          && (a.status == StreamEnd ==> f.ends(fed') && emitted' == f.decode(fed')))
  }

  datatype Action = Run | Flush | Finish

  /** The contract of BZ2_bzCompress, for an encoder that took `received` and has
      put out `emitted`. `backlog` bounds the calls it can answer without taking
      input; what is put out when it ends is one complete stream that
      decodes to what was received. */
  predicate EncodeAllows(f: Format, received: seq<Byte>, emitted: seq<Byte>, backlog: nat,
                         input: seq<Byte>, room: nat, action: Action, a: Answer, backlog': nat) {
    && 0 <= a.taken <= |input| && |a.out| <= room
    && (a.status == Ok ==> a.taken > 0 || backlog' < backlog)
    && (a.status == StreamEnd ==>
          && action == Finish
          && f.ends(emitted + a.out) && Open(f, emitted + a.out)
          && f.decode(emitted + a.out) == received + input[..a.taken])
  }

  /** The part of an input that belongs to its first stream. */
  function Stream(f: Format, x: seq<Byte>, k: nat := 0): (s: seq<Byte>)
    requires k <= |x|
    ensures s <= x
    decreases |x| - k
  {
    if k == |x| || f.ends(x[..k]) then x[..k] else Stream(f, x, k + 1)
  }

  lemma {:induction false} StreamOfOpen(f: Format, x: seq<Byte>, k: nat)
    requires k <= |x| && Open(f, x)
    ensures Stream(f, x, k) == x
    decreases |x| - k
  {
    if k < |x| {
      StreamOfOpen(f, x, k + 1);
    } else {
      assert x[..k] == x;
    }
  }

  /** Once a stream is complete, whatever follows it does not matter. */
  lemma {:induction false} StreamOfEnded(f: Format, s: seq<Byte>, x: seq<Byte>, k: nat)
    requires s <= x && Open(f, s) && f.ends(s) && k <= |s|
    ensures Stream(f, x, k) == s
    decreases |s| - k
  {
    if k < |s| {
      assert x[..k] == s[..k];
      StreamOfEnded(f, s, x, k + 1);
    } else {
      assert x[..k] == s;
    }
  }

  /** The stream of an input is its shortest complete prefix, or all of it. */
  lemma {:induction false} StreamIsFirst(f: Format, x: seq<Byte>, k: nat)
    requires k <= |x| && (forall i :: 0 <= i < k ==> !f.ends(x[..i]))
    ensures var s := Stream(f, x, k);
            && Open(f, s)
            && (f.ends(s) || s == x)
    decreases |x| - k
  {
    if k < |x| && !f.ends(x[..k]) {
      StreamIsFirst(f, x, k + 1);
    } else {
      assert forall i :: 0 <= i < k ==> x[..k][..i] == x[..i];
      assert x[..|x|] == x;
    }
  }

  /** The bytes of a list of buckets. */
  function Flatten(buckets: seq<seq<Byte>>): seq<Byte> {
    if buckets == [] then [] else Flatten(buckets[..|buckets| - 1]) + buckets[|buckets| - 1]
  }

  lemma {:induction false} FlattenSnoc(buckets: seq<seq<Byte>>, b: seq<Byte>)
    ensures Flatten(buckets + [b]) == Flatten(buckets) + b
  {
    assert (buckets + [b])[..|buckets|] == buckets;
  }

  /** php_stream_bucket_append, when there is anything to append. */
  function AppendBucket(buckets: seq<seq<Byte>>, b: seq<Byte>): seq<seq<Byte>> {
    if b == [] then buckets else buckets + [b]
  }

  /** No bytes, no buckets. */
  lemma NothingPutOut(before: seq<Byte>, now: seq<Byte>, buckets: seq<seq<Byte>>)
    requires PutOut(before, now, buckets)
    ensures now == before <==> buckets == []
  {
    assert before + Flatten(buckets) == before ==> |Flatten(buckets)| == 0;
    if buckets != [] {
      assert buckets[|buckets| - 1] in buckets;
    }
  }

  /** The buckets hold what was put out since `before`, and none of them is empty. */
  predicate PutOut(before: seq<Byte>, now: seq<Byte>, buckets: seq<seq<Byte>>) {
    now == before + Flatten(buckets) && [] !in buckets
  }

  lemma BucketAppended(before: seq<Byte>, now: seq<Byte>, buckets: seq<seq<Byte>>, b: seq<Byte>)
    requires PutOut(before, now, buckets)
    ensures PutOut(before, now + b, AppendBucket(buckets, b))
  {
    if b == [] {
      assert now + b == now;
    } else {
      FlattenSnoc(buckets, b);
      assert before + (Flatten(buckets) + b) == before + Flatten(buckets) + b;
    }
  }

  lemma BucketsAppended(before: seq<Byte>, now: seq<Byte>, buckets: seq<seq<Byte>>, later: seq<Byte>,
                        more: seq<seq<Byte>>)
    requires PutOut(before, now, buckets) && PutOut(now, later, more)
    ensures PutOut(before, later, buckets + more)
  {
    FlattenConcat(buckets, more);
    assert before + (Flatten(buckets) + Flatten(more)) == before + Flatten(buckets) + Flatten(more);
  }

  lemma FlattenRest(before: seq<Byte>, buckets: seq<seq<Byte>>, i: nat)
    requires i < |buckets|
    ensures Flatten(buckets[i..]) == buckets[i] + Flatten(buckets[i + 1..])
    ensures before + Flatten(buckets[i..]) == before + buckets[i] + Flatten(buckets[i + 1..])
  {
    assert buckets[i..] == [buckets[i]] + buckets[i + 1..] && Flatten([buckets[i]]) == Flatten([]) + buckets[i];
    FlattenConcat([buckets[i]], buckets[i + 1..]);
    assert before + (buckets[i] + Flatten(buckets[i + 1..])) == before + buckets[i] + Flatten(buckets[i + 1..]);
  }

  lemma {:induction false} FlattenConcat(a: seq<seq<Byte>>, b: seq<seq<Byte>>)
    ensures Flatten(a + b) == Flatten(a) + Flatten(b)
  {
    if b == [] {
      assert a + b == a;
    } else {
      var rest, last := b[..|b| - 1], b[|b| - 1];
      FlattenConcat(a, rest);
      assert a + b == (a + rest) + [last];
      FlattenSnoc(a + rest, last);
      assert Flatten(a) + Flatten(rest) + last == Flatten(a) + (Flatten(rest) + last);
    }
  }

  lemma FlattenNext(buckets: seq<seq<Byte>>, i: nat)
    requires i < |buckets|
    ensures Flatten(buckets[..i + 1]) == Flatten(buckets[..i]) + buckets[i]
  {
    assert buckets[..i + 1] == buckets[..i] + [buckets[i]];
    FlattenSnoc(buckets[..i], buckets[i]);
  }

  /** All buckets of all calls. */
  function Joined(calls: seq<seq<seq<Byte>>>): seq<seq<Byte>> {
    if calls == [] then [] else Joined(calls[..|calls| - 1]) + calls[|calls| - 1]
  }

  lemma JoinedNext(calls: seq<seq<seq<Byte>>>, i: nat)
    requires i < |calls|
    ensures Flatten(Joined(calls[..i + 1])) == Flatten(Joined(calls[..i])) + Flatten(calls[i])
  {
    assert calls[..i + 1][..i] == calls[..i];
    FlattenConcat(Joined(calls[..i]), calls[i]);
  }

  /** What came with the first calls is the beginning of all. */
  lemma {:induction false} JoinedPrefix(calls: seq<seq<seq<Byte>>>, i: nat)
    requires i <= |calls|
    ensures Flatten(Joined(calls[..i])) <= Flatten(Joined(calls))
    decreases |calls| - i
  {
    if i == |calls| {
      assert calls[..i] == calls;
    } else {
      JoinedNext(calls, i);
      JoinedPrefix(calls, i + 1);
    }
  }
}
