/** The cdb file format as dba/libcdb/cdb_make.c writes it and dba/dba_cdb.c and
    dba/libcdb/cdb.c read it: a header of 256 table pointers, the records, and
    256 hash tables. */
module CdbFormat {
  type Byte = b: int | 0 <= b < 256

  const WORD := 0x1_0000_0000
  const HEADER := 2048

  type Uint32 = u: int | 0 <= u < WORD

  datatype Record = Record(key: seq<Byte>, data: seq<Byte>)

  /** `uint32_pack`: least significant byte first. */
  function Pack(u: Uint32): (s: seq<Byte>)
    ensures |s| == 4
  {
    [u % 256, u / 0x100 % 256, u / 0x1_0000 % 256, u / 0x100_0000]
  }

  /** `uint32_unpack`. */
  function Unpack(s: seq<Byte>): Uint32
    requires |s| == 4
  {
    var a: int, b: int, c: int, d: int := s[0], s[1], s[2], s[3];
    a + b * 0x100 + c * 0x1_0000 + d * 0x100_0000
  }

  lemma UnpackPack(u: Uint32)
    ensures Unpack(Pack(u)) == u
  {
    var a, b, c := u / 0x100, u / 0x1_0000, u / 0x100_0000;
    assert b == a / 0x100 && c == b / 0x100;
  }

  /** Exclusive or of two bytes. */
  function Xor(a: nat, b: nat): (x: nat)
    requires a < 256 && b < 256
    ensures x < 256
  {
    XorBits(a, b, 8)
  }

  function XorBits(a: nat, b: nat, bits: nat): (x: nat)
    ensures x < Power2(bits)
  {
    if bits == 0 then 0 else (a + b) % 2 + 2 * XorBits(a / 2, b / 2, bits - 1)
  }

  function Power2(n: nat): nat {
    if n == 0 then 1 else 2 * Power2(n - 1)
  }

  /** `cdb_hash`: h = (h + (h << 5)) ^ c in 32 bits; the byte only meets the lowest eight. */
  function Hash(key: seq<Byte>): Uint32 {
    HashFrom(5381, key)
  }

  function HashFrom(h: Uint32, key: seq<Byte>): Uint32
    decreases |key|
  {
    if key == [] then h else HashFrom(HashStep(33 * h % WORD, key[0]), key[1..])
  }

  /** The exclusive or with one byte. */
  function HashStep(g: Uint32, c: Byte): Uint32 {
    var low, high := g % 256, g / 256;
    HighPart(high, low, g);
    high * 256 + Xor(low, c)
  }

  lemma HighPart(high: nat, low: nat, g: Uint32)
    requires high == g / 256 && low == g % 256
    ensures high <= 0xff_ffff && low < 256
  {
  }

  /** A record as written: key length, data length, key, data. */
  function RecordBytes(r: Record): seq<Byte>
    requires |r.key| < WORD && |r.data| < WORD
  {
    Pack(|r.key|) + Pack(|r.data|) + r.key + r.data
  }

  /** Where the `i`-th record starts: 2048 plus the sizes of those before it. */
  function Offset(rs: seq<Record>, i: nat): nat
    requires i <= |rs|
  {
    if i == 0 then HEADER else Offset(rs, i - 1) + 8 + |rs[i - 1].key| + |rs[i - 1].data|
  }

  /** Where the records end. */
  function End(rs: seq<Record>): nat {
    Offset(rs, |rs|)
  }

  lemma {:induction false} OffsetMonotone(rs: seq<Record>, i: nat, j: nat)
    requires i <= j <= |rs|
    ensures HEADER + 8 * i <= Offset(rs, i) && Offset(rs, i) + 8 * (j - i) <= Offset(rs, j)
    decreases j
  {
    if i < j {
      OffsetMonotone(rs, i, j - 1);
    } else if j > 0 {
      OffsetMonotone(rs, j - 1, j - 1);
    }
  }

  lemma {:induction false} OffsetPrefix(rs: seq<Record>, more: seq<Record>, i: nat)
    requires i <= |rs|
    ensures Offset(rs + more, i) == Offset(rs, i)
  {
    if i > 0 {
      OffsetPrefix(rs, more, i - 1);
    }
  }

  /** The bytes `s` stand at position `at` of the file. */
  predicate StandsAt(file: seq<Byte>, at: nat, s: seq<Byte>) {
    at + |s| <= |file| && file[at..at + |s|] == s
  }

  /** The file holds the records, in order, and its first word says where they end. */
  ghost predicate Holds(file: seq<Byte>, rs: seq<Record>) {
    && End(rs) < WORD
    && StandsAt(file, 0, Pack(End(rs)))
    && forall i :: 0 <= i < |rs| ==> RecordAt(file, rs, i)
  }

  predicate RecordAt(file: seq<Byte>, rs: seq<Record>, i: nat)
    requires i < |rs|
  {
    && |rs[i].key| < WORD && |rs[i].data| < WORD
    && StandsAt(file, Offset(rs, i), RecordBytes(rs[i]))
  }

  lemma SliceJoin(s: seq<Byte>, a: nat, b: nat, c: nat)
    requires a <= b <= c <= |s|
    ensures s[a..c] == s[a..b] + s[b..c]
  {
  }

  /** Part of what stands at a position. */
  lemma Part(file: seq<Byte>, at: nat, s: seq<Byte>, i: nat, j: nat)
    requires StandsAt(file, at, s) && i <= j <= |s|
    ensures file[at + i..at + j] == s[i..j]
  {
    forall k | 0 <= k < j - i
      ensures file[at + i..at + j][k] == s[i..j][k]
    {
      assert s[i + k] == file[at..at + |s|][i + k];
    }
  }

  /** What a reader that unpacks the words finds at a record. */
  lemma BytesParts(r: Record)
    requires |r.key| < WORD && |r.data| < WORD
    ensures var bytes, k, d := RecordBytes(r), |r.key|, |r.data|;
            && |bytes| == 8 + k + d
            && bytes[0..4] == Pack(k) && bytes[4..8] == Pack(d)
            && bytes[8..8 + k] == r.key && bytes[8 + k..8 + k + d] == r.data
  {
    Joined(Pack(|r.key|), Pack(|r.data|), r.key, r.data);
  }

  lemma Joined(a: seq<Byte>, b: seq<Byte>, c: seq<Byte>, d: seq<Byte>)
    ensures var s, i, j, k := a + b + c + d, |a|, |a| + |b|, |a| + |b| + |c|;
            s[0..i] == a && s[i..j] == b && s[j..k] == c && s[k..k + |d|] == d
  {
  }

  lemma RecordParts(file: seq<Byte>, rs: seq<Record>, i: nat)
    requires i < |rs| && RecordAt(file, rs, i)
    ensures var at, k, d := Offset(rs, i), |rs[i].key|, |rs[i].data|;
            && Offset(rs, i + 1) == at + 8 + k + d <= |file|
            && Unpack(file[at..at + 4]) == k && Unpack(file[at + 4..at + 8]) == d
            && file[at + 8..at + 8 + k] == rs[i].key && file[at + 8 + k..at + 8 + k + d] == rs[i].data
  {
    var at, k, d := Offset(rs, i), |rs[i].key|, |rs[i].data|;
    RecordPartsAt(file, at, rs[i]);
  }

  lemma RecordPartsAt(file: seq<Byte>, at: nat, r: Record)
    requires |r.key| < WORD && |r.data| < WORD && StandsAt(file, at, RecordBytes(r))
    ensures var k, d := |r.key|, |r.data|;
            && at + 8 + k + d <= |file|
            && Unpack(file[at..at + 4]) == k && Unpack(file[at + 4..at + 8]) == d
            && file[at + 8..at + 8 + k] == r.key && file[at + 8 + k..at + 8 + k + d] == r.data
  {
    var k, d, bytes := |r.key|, |r.data|, RecordBytes(r);
    BytesParts(r);
    Part(file, at, bytes, 0, 4);
    Part(file, at, bytes, 4, 8);
    Part(file, at, bytes, 8, 8 + k);
    Part(file, at, bytes, 8 + k, 8 + k + d);
    UnpackPack(k);
    UnpackPack(d);
  }

  /** The first word of the header. */
  lemma HeaderWord(file: seq<Byte>, rs: seq<Record>)
    requires Holds(file, rs)
    ensures |file| >= 4 && Unpack(file[..4]) == End(rs) && HEADER <= End(rs)
  {
    UnpackPack(End(rs));
    OffsetMonotone(rs, 0, |rs|);
  }

  // ---- hash tables

  datatype Slot = Slot(h: Uint32, p: Uint32)

  const EMPTY := Slot(0, 0)

  function SlotBytes(s: Slot): seq<Byte> {
    Pack(s.h) + Pack(s.p)
  }

  /** The `d`-th slot probed from `start` in a table of `len` slots. */
  function Probe(start: nat, d: nat, len: nat): (s: nat)
    requires start < len && d < len
    ensures s < len
  {
    if start + d < len then start + d else start + d - len
  }

  function Bucket(h: Uint32): nat {
    h % 256
  }

  /** Where the search for a hash value starts. */
  function StartOf(h: Uint32, len: nat): (s: nat)
    requires len > 0
    ensures s < len
  {
    h / 256 % len
  }
}
