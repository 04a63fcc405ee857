/** A complete cdb file in bytes, as any program that knows the format reads it. */
module CdbLayout {
  import opened CdbFormat
  import opened CdbIndex
  import opened CdbHash
  import opened Options
  import Cdb

  /** The word at a position, least significant byte first. */
  function WordAt(file: seq<Byte>, at: nat): Uint32
    requires at + 4 <= |file|
  {
    var a: int, b: int, c: int, d: int := file[at], file[at + 1], file[at + 2], file[at + 3];
    a + 0x100 * b + 0x1_0000 * c + 0x100_0000 * d
  }

  lemma PackedWord(u: Uint32)
    ensures WordAt(Pack(u), 0) == u
  {
    UnpackPack(u);
  }

  lemma UnpackedWord(file: seq<Byte>, at: nat)
    requires at + 4 <= |file|
    ensures Unpack(file[at..at + 4]) == WordAt(file, at)
  {
  }

  lemma KnownBytes()
    ensures Pack(0x0403_0201) == [1, 2, 3, 4] && Unpack([1, 2, 3, 4]) == 0x0403_0201
  {
  }

  /** A record in the file: key length, data length, key, data. */
  predicate RecordStands(file: seq<Byte>, at: nat, r: Record) {
    && at + 8 + |r.key| + |r.data| <= |file|
    && WordAt(file, at) == |r.key| && WordAt(file, at + 4) == |r.data|
    && file[at + 8..at + 8 + |r.key|] == r.key
    && file[at + 8 + |r.key|..at + 8 + |r.key| + |r.data|] == r.data
  }

  /** The place of the `d`-th slot on the way of a hash value through a table: from the
      place that its upper digits name to the end of the table, then from its beginning. */
  function SlotPlace(at: nat, len: nat, h: nat, d: nat): (p: nat)
    requires d < len
    ensures at <= p && p + 8 <= at + 8 * len
  {
    var start := h / 256 % len;
    at + 8 * (if start + d < len then start + d else start + d - len)
  }

  /** Following the table pointer of its hash value, a program meets the record at `at`
      before any free slot. */
  ghost predicate Reachable(file: seq<Byte>, key: seq<Byte>, at: nat) {
    |file| >= HEADER &&
    var h := HashLoop(5381, key);
    var table, len := WordAt(file, h % 256 * 8), WordAt(file, h % 256 * 8 + 4);
    table + 8 * len <= |file| &&
    exists d: nat :: d < len && ReachedAt(file, table, len, h, at, d)
  }

  predicate ReachedAt(file: seq<Byte>, table: nat, len: nat, h: nat, at: nat, d: nat)
    requires table + 8 * len <= |file| && d < len
  {
    && TakenAt(file, table, len, h, d)
    && WordAt(file, SlotPlace(table, len, h, d)) == h && WordAt(file, SlotPlace(table, len, h, d) + 4) == at
    && forall e: nat :: e < d ==> TakenAt(file, table, len, h, e)
  }

  predicate TakenAt(file: seq<Byte>, table: nat, len: nat, h: nat, d: nat)
    requires table + 8 * len <= |file| && d < len
  {
    WordAt(file, SlotPlace(table, len, h, d) + 4) != 0
  }

  /** Each record stands where the sizes of those before it put it, and can be reached. */
  lemma RecordInBytes(file: seq<Byte>, rs: seq<Record>, ix: Index, i: nat)
    requires Hashed(file, rs, ix) && i < |rs|
    ensures RecordStands(file, Offset(rs, i), rs[i])
    ensures Offset(rs, 0) == 2048 && Offset(rs, i + 1) == Offset(rs, i) + 8 + |rs[i].key| + |rs[i].data|
    ensures WordAt(file, 0) == Offset(rs, |rs|)
  {
    assert RecordAt(file, rs, i);
    RecordParts(file, rs, i);
    UnpackedWord(file, Offset(rs, i));
    UnpackedWord(file, Offset(rs, i) + 4);
    HeaderWord(file, rs);
    UnpackedWord(file, 0);
  }

  lemma TableInBytes(file: seq<Byte>, ix: Index, b: nat)
    requires |ix.tables| == |ix.at| == 256 && b < 256 && TableStands(file, ix, b)
    ensures 8 * b + 8 <= |file|
    ensures WordAt(file, 8 * b) == ix.at[b] && WordAt(file, 8 * b + 4) == |ix.tables[b]|
  {
    WordPair(file, 8 * b, ix.at[b], |ix.tables[b]|);
    UnpackedWord(file, 8 * b);
    UnpackedWord(file, 8 * b + 4);
  }

  lemma SlotInBytes(file: seq<Byte>, at: nat, t: seq<Slot>, s: nat)
    requires SlotsStandAt(file, at, t) && s < |t|
    ensures at + 8 * s + 8 <= |file|
    ensures WordAt(file, at + 8 * s) == t[s].h && WordAt(file, at + 8 * s + 4) == t[s].p
  {
    assert StandsAt(file, at + 8 * s, SlotBytes(t[s]));
    WordPair(file, at + 8 * s, t[s].h, t[s].p);
    UnpackedWord(file, at + 8 * s);
    UnpackedWord(file, at + 8 * s + 4);
  }

  /** What a slot on the way holds. */
  lemma ProbeInBytes(file: seq<Byte>, at: nat, t: seq<Slot>, h: Uint32, d: nat)
    requires SlotsStandAt(file, at, t) && d < |t|
    ensures var place, slot := SlotPlace(at, |t|, h, d), t[Probe(StartOf(h, |t|), d, |t|)];
            place + 8 <= |file| && WordAt(file, place) == slot.h && WordAt(file, place + 4) == slot.p
  {
    SlotInBytes(file, at, t, Probe(StartOf(h, |t|), d, |t|));
  }

  lemma {:induction false} PlacedInBytes(file: seq<Byte>, at: nat, t: seq<Slot>, rs: seq<Record>, i: nat,
                                         dist: map<nat, nat>)
    requires SlotsStandAt(file, at, t) && i < |rs| && Placed(t, rs, i, dist)
    ensures ReachedAt(file, at, |t|, Hash(rs[i].key), Offset(rs, i), dist[i])
  {
    var h := Hash(rs[i].key);
    OffsetMonotone(rs, 0, i);
    ProbeInBytes(file, at, t, h, dist[i]);
    forall e: nat | e < dist[i]
      ensures TakenAt(file, at, |t|, h, e)
    {
      ProbeInBytes(file, at, t, h, e);
    }
  }

  lemma {:induction false} PlacedInTable(file: seq<Byte>, rs: seq<Record>, ix: Index, i: nat, b: nat)
    requires Hashed(file, rs, ix) && i < |rs| && b == Bucket(Hash(rs[i].key))
    ensures TableStands(file, ix, b) && Placed(ix.tables[b], rs, i, ix.dist)
    ensures |file| >= HEADER
  {
    OffsetMonotone(rs, 0, |rs|);
    TableInBytes(file, ix, 255);
    assert InBucket(rs, i, b) && TableHolds(ix.tables[b], b, rs, |rs|, ix.dist);
  }

  lemma {:induction false} ReachableInTable(file: seq<Byte>, rs: seq<Record>, ix: Index, i: nat, h: Uint32, b: nat)
    requires |file| >= HEADER && |ix.tables| == |ix.at| == 256 && i < |rs|
    requires h == Hash(rs[i].key) == HashLoop(5381, rs[i].key) && b == h % 256
    requires TableStands(file, ix, b) && Placed(ix.tables[b], rs, i, ix.dist)
    ensures Reachable(file, rs[i].key, Offset(rs, i))
  {
    TableInBytes(file, ix, b);
    PlacedInBytes(file, ix.at[b], ix.tables[b], rs, i, ix.dist);
    ReachableBy(file, rs[i].key, Offset(rs, i), h, ix.at[b], |ix.tables[b]|, ix.dist[i]);
  }

  lemma {:induction false} ReachableBy(file: seq<Byte>, key: seq<Byte>, at: nat, h: nat, table: nat, len: nat, d: nat)
    requires |file| >= HEADER && h == HashLoop(5381, key)
    requires table == WordAt(file, h % 256 * 8) && len == WordAt(file, h % 256 * 8 + 4)
    requires table + 8 * len <= |file| && d < len && ReachedAt(file, table, len, h, at, d)
    ensures Reachable(file, key, at)
  {
  }

  /** Another program that computes the hash and follows the table of its lowest byte
      meets every record of a complete file, by words it finds in the file. */
  lemma {:induction false} ReachableInBytes(file: seq<Byte>, rs: seq<Record>, ix: Index, i: nat)
    requires Hashed(file, rs, ix) && i < |rs|
    ensures Reachable(file, rs[i].key, Offset(rs, i))
  {
    var h := Hash(rs[i].key);
    var b := h % 256;
    HashIsLoop(rs[i].key);
    PlacedInTable(file, rs, ix, i, b);
    ReachableInTable(file, rs, ix, i, h, b);
  }

  /** One step of a traversal on any file, well-formed or not: it moves on by the two
      lengths where it can read them, in 32 bits, and yields a key that is there in full. */
  lemma StepInBytes(file: seq<Byte>, eod: Uint32, pos: Uint32)
    ensures var (key, c) := Cdb.Next(file, Cdb.Cursor(eod, pos));
            if pos < eod && pos < 0x8000_0000 && pos + 8 <= |file| then
              var klen, dlen := WordAt(file, pos), WordAt(file, pos + 4);
              && c == Cdb.Cursor(eod, (pos + 8 + klen + dlen) % WORD)
              && key == if pos + 8 + klen <= |file| then Some(file[pos + 8..pos + 8 + klen]) else None
            else key == None && c == Cdb.Cursor(eod, pos)
  {
    if pos + 8 <= |file| {
      UnpackedWord(file, pos);
      UnpackedWord(file, pos + 4);
    }
  }

  /** The first step on any file: from the end of the header, with the end of the data
      from the first word; where there is no record the old position stays. */
  lemma FirstInBytes(file: seq<Byte>, pos: Uint32)
    ensures |file| < 4 ==> Cdb.First(file, pos) == (None, Cdb.Cursor(0xffff_ffff, pos))
    ensures |file| >= 4 ==>
              Cdb.First(file, pos)
              == if WordAt(file, 0) > 2048 && |file| >= 2056 then Cdb.Next(file, Cdb.Cursor(WordAt(file, 0), 2048))
                 else (None, Cdb.Cursor(WordAt(file, 0), pos))
  {
    if |file| >= 4 {
      UnpackedWord(file, 0);
      assert file[..4] == file[0..4];
    }
  }

  /** Where the search for a key begins. */
  lemma {:induction false} HeaderOf(key: seq<Byte>)
    ensures Cdb.Pointer(Hash(key)) == HashLoop(5381, key) % 256 * 8
  {
    Cdb.PointerOfBucket(Hash(key));
    HashIsLoop(key);
  }

  /** For the key "1" that is the pointer 148. */
  lemma HeaderOfOne(key: seq<Byte>)
    requires |key| == 1 && key[0] == 0x31
    ensures Cdb.Pointer(Hash(key)) == 148 * 8
  {
    HashOfOneByte(key);
    PointerOfOne(Hash(key));
  }

  lemma PointerOfOne(h: Uint32)
    requires h == 177556
    ensures Cdb.Pointer(h) == 148 * 8
  {
  }
}
