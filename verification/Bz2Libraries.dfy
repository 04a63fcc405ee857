/** For every format that can be written and read bit by bit there are libraries that
    keep to the contract of Bz2Codec and never report an error on data and on streams. */
module Bz2Libraries {
  import opened Bz2Codec
  import C = Bz2Compress
  import D = Bz2Decompress

  /** The first `room` of the bytes. */
  function Fitting(x: seq<Byte>, room: nat): seq<Byte> {
    if |x| <= room then x else x[..room]
  }

  // ---- reading

  /** One more byte of a stream decodes to at least as much. */
  ghost predicate GradualAt(f: Format, x: seq<Byte>, b: Byte) {
    Open(f, x) && !f.ends(x) ==> f.decode(x) <= f.decode(x + [b])
  }

  ghost predicate Gradual(f: Format) {
    f.decode([]) == [] && forall x, b :: GradualAt(f, x, b)
  }

  /** Puts out what is left of `fed`; the stream ends when it is complete and all is out. */
  function Rest(f: Format, taken: nat, fed: seq<Byte>, emitted: seq<Byte>, room: nat): Answer {
    var left := if |emitted| <= |f.decode(fed)| then f.decode(fed)[|emitted|..] else [];
    Answer(taken, Fitting(left, room), if f.ends(fed) && |left| <= room then StreamEnd else Ok)
  }

  /** Takes one byte at a time, and none behind the end of the stream. */
  function SteppingAnswer(f: Format, s: D.Session, input: seq<Byte>, room: nat): Answer {
    if input == [] || f.ends(s.fed) then Rest(f, 0, s.fed, s.emitted, room)
    else Rest(f, 1, s.fed + [input[0]], s.emitted, room)
  }

  function SteppingReply(f: Format, s: D.Session, input: seq<Byte>, room: nat): (Answer, D.Session) {
    var a := SteppingAnswer(f, s, input, room);
    if DecodeAllows(f, s.fed, s.emitted, input, room, a) then
      (a, D.Session(s.fed + input[..a.taken], s.emitted + a.out, s.calls + 1, a.status))
    else
      (Answer(0, [], Error), s.(calls := s.calls + 1, last := Error))
  }

  function SteppingDecoder(f: Format): D.Decoder {
    D.Decoder((s: D.Session) => (true, D.FRESH),
              (s: D.Session, input: seq<Byte>, room: nat) => SteppingReply(f, s, input, room))
  }

  lemma SteppingKeepsContract(f: Format)
    requires f.decode([]) == []
    ensures D.Contract(f, SteppingDecoder(f))
  {
    forall s: D.Session, input: seq<Byte>, room: nat
      ensures D.Keeps(f, SteppingDecoder(f), s, input, room)
    {
      assert s.fed + input[..0] == s.fed && s.emitted + [] == s.emitted;
    }
  }

  /** What is left is allowed, in step with what was fed. */
  lemma RestIsAllowed(f: Format, s: D.Session, input: seq<Byte>, taken: nat, room: nat)
    requires taken <= |input| && room > 0
    requires Open(f, s.fed + input[..taken]) && s.emitted <= f.decode(s.fed + input[..taken])
    requires taken > 0 || input == [] || f.ends(s.fed)
    ensures var a := Rest(f, taken, s.fed + input[..taken], s.emitted, room);
            a.status != Error && DecodeAllows(f, s.fed, s.emitted, input, room, a)
  {
    var fed := s.fed + input[..taken];
    var left := f.decode(fed)[|s.emitted|..];
    assert f.decode(fed) == s.emitted + left;
    assert Fitting(left, room) <= left && s.emitted + Fitting(left, room) <= s.emitted + left;
    assert taken == 0 ==> fed == s.fed;
  }

  lemma OpenGoesOn(f: Format, x: seq<Byte>, b: Byte)
    requires Open(f, x) && !f.ends(x)
    ensures Open(f, x + [b])
  {
    forall k | 0 <= k < |x + [b]|
      ensures !f.ends((x + [b])[..k])
    {
      if k < |x| {
        assert (x + [b])[..k] == x[..k];
      } else {
        assert (x + [b])[..k] == x;
      }
    }
  }

  /** No error on any input. */
  lemma SteppingAccepts(f: Format, x: seq<Byte>)
    requires Gradual(f)
    ensures D.Accepts(f, SteppingDecoder(f), x)
  {
    forall s: D.Session, input: seq<Byte>
      ensures D.AcceptsPart(f, SteppingDecoder(f), x, s, input)
    {
      if Open(f, s.fed) && s.emitted <= f.decode(s.fed) {
        if input == [] || f.ends(s.fed) {
          assert s.fed + input[..0] == s.fed;
          RestIsAllowed(f, s, input, 0, BUFFER);
        } else {
          assert input[..1] == [input[0]] && GradualAt(f, s.fed, input[0]);
          OpenGoesOn(f, s.fed, input[0]);
          RestIsAllowed(f, s, input, 1, BUFFER);
        }
      }
    }
    forall s: D.Session
      ensures D.StartsAlways(SteppingDecoder(f), s)
    {
    }
  }

  // ---- writing

  /** `encode` writes one complete stream for any data. */
  ghost predicate Encodes(f: Format, encode: seq<Byte> -> seq<Byte>) {
    |encode([])| <= BUFFER && forall data :: C.StreamFor(f, data, encode(data))
  }

  /** Takes all data and puts nothing out before it is asked to finish. */
  function BufferingAnswer(encode: seq<Byte> -> seq<Byte>, s: C.Session, input: seq<Byte>, room: nat,
                           action: Action): (Answer, nat) {
    if action != Finish || input != [] then (Answer(|input|, [], Ok), |encode(s.received + input)|)
    else
      var left := if |s.emitted| <= |encode(s.received)| then encode(s.received)[|s.emitted|..] else [];
      if |left| <= room then (Answer(0, left, StreamEnd), 0)
      else (Answer(0, left[..room], Ok), if s.backlog > 0 then s.backlog - 1 else 0)
  }

  function BufferingReply(f: Format, encode: seq<Byte> -> seq<Byte>, s: C.Session, input: seq<Byte>, room: nat,
                          action: Action): (Answer, C.Session) {
    var (a, held) := BufferingAnswer(encode, s, input, room, action);
    if EncodeAllows(f, s.received, s.emitted, s.backlog, input, room, action, a, held) then
      (a, C.Session(s.received + input[..a.taken], s.emitted + a.out, held, s.calls + 1, a.status))
    else
      (Answer(0, [], Error), s.(calls := s.calls + 1, last := Error))
  }

  function BufferingEncoder(f: Format, encode: seq<Byte> -> seq<Byte>): C.Encoder {
    (s: C.Session, input: seq<Byte>, room: nat, action: Action) => BufferingReply(f, encode, s, input, room, action)
  }

  lemma BufferingKeepsContract(f: Format, encode: seq<Byte> -> seq<Byte>)
    ensures C.Contract(f, BufferingEncoder(f, encode))
  {
    forall s: C.Session, input: seq<Byte>, room: nat, action: Action
      ensures C.Keeps(f, BufferingEncoder(f, encode), s, input, room, action)
    {
      assert s.received + input[..0] == s.received && s.emitted + [] == s.emitted;
    }
  }

  /** The backlog covers what is left of the stream beyond one buffer. */
  predicate Covered(encode: seq<Byte> -> seq<Byte>, s: C.Session) {
    s.emitted <= encode(s.received) && |encode(s.received)| <= |s.emitted| + s.backlog + BUFFER
  }

  function BufferingInvariant(encode: seq<Byte> -> seq<Byte>): C.Invariant {
    C.Invariant((s: C.Session) => s.emitted == [] && Covered(encode, s), (s: C.Session) => Covered(encode, s))
  }

  lemma BufferingFinishes(f: Format, encode: seq<Byte> -> seq<Byte>, s: C.Session)
    requires Encodes(f, encode) && Covered(encode, s)
    ensures var (a, t) := BufferingReply(f, encode, s, [], BUFFER, Finish);
            a.status != Error && (a.status == Ok ==> Covered(encode, t))
  {
    var stream := encode(s.received);
    var left := stream[|s.emitted|..];
    assert stream == s.emitted + left && s.received + [] == s.received && C.StreamFor(f, s.received, stream);
    if |left| > BUFFER {
      assert s.emitted + left[..BUFFER] <= stream;
    }
  }

  /** No error on any data, nor when asked to finish. */
  lemma BufferingAccepts(f: Format, encode: seq<Byte> -> seq<Byte>, x: seq<Byte>)
    requires Encodes(f, encode)
    ensures C.Accepts(BufferingEncoder(f, encode), BufferingInvariant(encode), x)
  {
    var lib, inv := BufferingEncoder(f, encode), BufferingInvariant(encode);
    forall s: C.Session, input: seq<Byte>, action: Action
      ensures C.AcceptsPart(lib, inv, x, s, input, action)
    {
      assert input[..|input|] == input;
    }
    forall s: C.Session
      ensures C.AcceptsFinish(lib, inv, s)
    {
      if Covered(encode, s) {
        BufferingFinishes(f, encode, s);
      }
    }
  }

  // ---- a format that can be written and read so

  /** Each byte behind a 1, and a 0 at the end. */
  function Escaped(data: seq<Byte>): seq<Byte> {
    if data == [] then [0] else [1, data[0]] + Escaped(data[1..])
  }

  function Unescaped(x: seq<Byte>): seq<Byte> {
    if |x| >= 2 && x[0] == 1 then [x[1]] + Unescaped(x[2..]) else []
  }

  predicate Closed(x: seq<Byte>) {
    x == [0] || (|x| >= 2 && x[0] == 1 && Closed(x[2..]))
  }

  function Escapes(): Format {
    Format(x => Unescaped(x), x => Closed(x))
  }

  lemma {:induction false} UnescapedGrows(x: seq<Byte>, b: Byte)
    ensures Unescaped(x) <= Unescaped(x + [b])
  {
    if |x| >= 2 && x[0] == 1 {
      assert (x + [b])[2..] == x[2..] + [b];
      UnescapedGrows(x[2..], b);
    }
  }

  lemma {:induction false} EscapedIsStream(data: seq<Byte>)
    ensures Closed(Escaped(data)) && Unescaped(Escaped(data)) == data
    ensures forall k :: 0 <= k < |Escaped(data)| ==> !Closed(Escaped(data)[..k])
  {
    var x := Escaped(data);
    if data != [] {
      var rest := Escaped(data[1..]);
      EscapedIsStream(data[1..]);
      assert x[2..] == rest;
      forall k | 0 <= k < |x|
        ensures !Closed(x[..k])
      {
        if k >= 2 {
          assert x[..k][2..] == rest[..k - 2] && |x[..k]| == k;
        } else if k == 1 {
          assert x[..k] == [1] && [1][0] != [0][0];
        }
      }
    }
  }

  lemma EscapesWork()
    ensures Gradual(Escapes()) && Encodes(Escapes(), x => Escaped(x))
  {
    forall x: seq<Byte>, b: Byte
      ensures GradualAt(Escapes(), x, b)
    {
      UnescapedGrows(x, b);
    }
    forall data: seq<Byte>
      ensures C.StreamFor(Escapes(), data, Escaped(data))
    {
      var f, x := Escapes(), Escaped(data);
      EscapedIsStream(data);
      forall k | 0 <= k < |x|
        ensures !f.ends(x[..k])
      {
        assert f.ends(x[..k]) == Closed(x[..k]);
      }
      assert f.decode(x) == Unescaped(x);
    }
    assert Escaped([]) == [0];
  }

  // ---- the round trip

  /** With these libraries compressing and decompressing gives the data back, for any
      cut of the data and of the compressed bytes. */
  method RoundTripSucceeds(f: Format, encode: seq<Byte> -> seq<Byte>, calls: seq<C.Call>,
                           cut: seq<Byte> -> seq<seq<seq<Byte>>>)
    returns (result: seq<Byte>)
    requires Gradual(f) && Encodes(f, encode) && C.Cuts(cut)
    ensures result == Flatten(Joined(C.Data(calls)))
  {
    var encoder, decoder := BufferingEncoder(f, encode), SteppingDecoder(f);
    BufferingKeepsContract(f, encode);
    SteppingKeepsContract(f);
    BufferingAccepts(f, encode, Flatten(Joined(C.Data(calls))));
    forall x: seq<Byte>
      ensures D.Accepts(f, decoder, x)
    {
      SteppingAccepts(f, x);
    }
    var compressed, failed;
    compressed, result, failed := C.RoundTrip(f, encoder, decoder, calls, cut, BufferingInvariant(encode));
  }
}
