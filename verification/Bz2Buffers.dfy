/** The buffers between a filter of bz2/bz2_filter.c and the bzip2 library: the part of
    `php_bz2_filter_data` and of its `bz_stream` that both filters use alike. */
module Bz2Buffers {
  import opened Bz2Codec

  class Buffers {
    const inbufLen: nat
    const outbufLen: nat

    // bz_stream: positions in the two buffers
    const inbuf: array<Byte>
    const outbuf: array<Byte>
    var nextIn: nat
    var availIn: nat
    var nextOut: nat
    var availOut: nat

    /** Between library calls both buffers are empty. */
    ghost predicate Empty()
      reads this
    {
      && inbuf.Length == inbufLen == BUFFER && outbuf.Length == outbufLen == BUFFER
      && nextIn == 0 && availIn == 0 && nextOut == 0 && availOut == outbufLen
      && inbuf != outbuf
    }

    constructor ()
      ensures Empty() && fresh(inbuf) && fresh(outbuf)
    {
      inbufLen, outbufLen := 2048, 2048;
      inbuf, outbuf := new Byte[2048], new Byte[2048];
      nextIn, availIn, nextOut, availOut := 0, 0, 0, 2048;
    }

    /** `memcpy` to the input buffer. */
    method Load(chunk: seq<Byte>)
      requires Empty() && |chunk| <= BUFFER
      modifies this`availIn, inbuf
      ensures availIn == |chunk| && inbuf[nextIn..nextIn + availIn] == chunk
    {
      forall i | 0 <= i < |chunk| {
        inbuf[nextIn + i] := chunk[i];
      }
      availIn := |chunk|;
    }

    /** What a library call takes from the one and writes to the other. */
    method Exchange(answer: Answer)
      requires answer.taken <= availIn && nextOut + |answer.out| <= outbuf.Length && |answer.out| <= availOut
      modifies this`nextIn, this`availIn, this`nextOut, this`availOut, outbuf
      ensures nextIn == old(nextIn) + answer.taken && availIn == old(availIn) - answer.taken
      ensures nextOut == old(nextOut) + |answer.out| && availOut == old(availOut) - |answer.out|
      ensures outbuf[old(nextOut)..nextOut] == answer.out
    {
      forall i | 0 <= i < |answer.out| {
        outbuf[nextOut + i] := answer.out[i];
      }
      nextIn, availIn := nextIn + answer.taken, availIn - answer.taken;
      nextOut, availOut := nextOut + |answer.out|, availOut - |answer.out|;
    }

    /** Lines 134-135 and 247-248: what was not taken will be handed over again. */
    method Rewind()
      modifies this`nextIn, this`availIn
      ensures nextIn == 0 && availIn == 0
    {
      nextIn, availIn := 0, 0;
    }

    /** Lines 139-145, 162-168, 252-261 and 271-279: what lies in the output buffer is
        copied out, and the buffer is empty again. */
    method TakeOutput() returns (piece: seq<Byte>)
      requires outbuf.Length == outbufLen && availOut <= outbufLen && nextOut == outbufLen - availOut
      modifies this`nextOut, this`availOut
      ensures nextOut == 0 && availOut == outbufLen
      ensures piece == old(outbuf[..nextOut])
    {
      piece := [];
      if availOut < outbufLen {
        piece := outbuf[..outbufLen - availOut];
        availOut, nextOut := outbufLen, 0;
      }
    }
  }
}
