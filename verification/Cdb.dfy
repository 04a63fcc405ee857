/** dba/dba_cdb.c: traversing and searching a constant database, with the search
    of dba/libcdb/cdb.c. */
module Cdb {
  import opened CdbFormat
  import opened CdbIndex
  import opened Options

  /** The `int` in which `cdb_file_lseek` returns a file position. */
  function AsInt(n: nat): int {
    var low := n % WORD;
    if low < 0x8000_0000 then low else low - WORD
  }

  /** Last position that `int` can report. */
  const SEEK_MAX := 0x7fff_ffff

  datatype FindResult = Found | NotFound | ReadError

  /** The state of a traversal. */
  datatype Cursor = Cursor(eod: Uint32, pos: Uint32)

  /** A position CSEEK accepts with eight bytes to read behind it. */
  predicate Readable(file: seq<Byte>, c: Cursor) {
    c.pos < c.eod && c.pos <= SEEK_MAX && c.pos + 8 <= |file|
  }

  /** One step of a traversal: the key at the cursor, and the cursor behind its record. */
  function Next(file: seq<Byte>, c: Cursor): (Option<seq<Byte>>, Cursor) {
    if !Readable(file, c) then (None, c)
    else
      var klen, dlen := Unpack(file[c.pos..c.pos + 4]), Unpack(file[c.pos + 4..c.pos + 8]);
      (if c.pos + 8 + klen <= |file| then Some(file[c.pos + 8..c.pos + 8 + klen]) else None,
       c.(pos := (c.pos + 8 + klen + dlen) % WORD))
  }

  /** The first step. Where it fails the position stays what it was. */
  function First(file: seq<Byte>, pos: Uint32): (Option<seq<Byte>>, Cursor) {
    if |file| < 4 then (None, Cursor(WORD - 1, pos))
    else
      var c := Cursor(Unpack(file[..4]), HEADER);
      if Readable(file, c) then Next(file, c) else (None, c.(pos := pos))
  }

  /** Having passed the first `i` records. */
  function Passed(rs: seq<Record>, i: nat): Cursor
    requires i <= |rs| && End(rs) < WORD && Offset(rs, i) < WORD
  {
    Cursor(End(rs), Offset(rs, i))
  }

  lemma NextReads(file: seq<Byte>, c: Cursor, k: Uint32, d: Uint32)
    requires c.pos < c.eod && c.pos <= SEEK_MAX && c.pos + 8 + k + d <= |file| && c.pos + 8 + k + d < WORD
    requires Unpack(file[c.pos..c.pos + 4]) == k && Unpack(file[c.pos + 4..c.pos + 8]) == d
    ensures Next(file, c) == (Some(file[c.pos + 8..c.pos + 8 + k]), Cursor(c.eod, c.pos + 8 + k + d))
  {
  }

  lemma NextAtRecord(file: seq<Byte>, rs: seq<Record>, i: nat)
    requires i < |rs| && RecordAt(file, rs, i)
    requires Offset(rs, i) < End(rs) < WORD && Offset(rs, i) <= SEEK_MAX && Offset(rs, i + 1) <= End(rs)
    ensures Next(file, Passed(rs, i)) == (Some(rs[i].key), Passed(rs, i + 1))
  {
    var c, k, d := Passed(rs, i), |rs[i].key|, |rs[i].data|;
    RecordParts(file, rs, i);
    NextReads(file, c, k, d);
  }

  /** Steps visit the records in file order. A step yields a key exactly if there is
      a next record and its offset can be reported; otherwise there is nothing, and
      no movement. */
  lemma NextVisits(file: seq<Byte>, rs: seq<Record>, i: nat)
    requires Holds(file, rs) && i <= |rs|
    ensures Offset(rs, i) <= End(rs) < WORD
    ensures i < |rs| ==> Offset(rs, i + 1) <= End(rs)
    ensures Next(file, Passed(rs, i))
            == if i < |rs| && Offset(rs, i) <= SEEK_MAX then (Some(rs[i].key), Passed(rs, i + 1))
               else (None, Passed(rs, i))
  {
    OffsetMonotone(rs, i, |rs|);
    if i < |rs| {
      OffsetMonotone(rs, i + 1, |rs|);
      if Offset(rs, i) <= SEEK_MAX {
        NextAtRecord(file, rs, i);
      }
    }
  }

  lemma {:induction false} FirstVisits(file: seq<Byte>, rs: seq<Record>, pos: Uint32)
    requires Holds(file, rs)
    ensures End(rs) < WORD
    ensures rs != [] ==> Offset(rs, 1) <= End(rs) && First(file, pos) == (Some(rs[0].key), Passed(rs, 1))
    ensures rs == [] ==> First(file, pos) == (None, Cursor(HEADER, pos))
  {
    HeaderWord(file, rs);
    NextVisits(file, rs, 0);
    if rs != [] {
      NextVisits(file, rs, 1);
      RecordParts(file, rs, 0);
      OffsetMonotone(rs, 0, |rs|);
    }
  }

  /** Where a traversal of an empty database stands: firstkey has found nothing and left
      the position what it was, at first zero. */
  predicate Idle(c: Cursor) {
    c.eod == HEADER && (c.pos == 0 || c.pos >= HEADER)
  }

  /** From position zero the next step takes the header for a record with a key of 2048
      bytes: it yields those bytes exactly if the file has so many. */
  lemma HeaderAsRecord(file: seq<Byte>)
    requires Holds(file, []) && |file| >= 8
    ensures Next(file, Cursor(HEADER, 0)).0 == if |file| >= HEADER + 8 then Some(file[8..HEADER + 8]) else None
  {
    HeaderWord(file, []);
    assert file[0..4] == file[..4];
  }

  /** The database that the writer leaves when nothing was added is too short for that:
      no step ever yields anything. */
  lemma IdleStays(file: seq<Byte>, ix: Index, c: Cursor)
    requires Hashed(file, [], ix) && |file| < HEADER + 8 && Idle(c)
    ensures Next(file, c).0 == None && Idle(Next(file, c).1)
  {
    if c.pos == 0 {
      assert TableStands(file, ix, 0);
      PointerStands(file, ix, 0);
      HeaderWord(file, []);
      assert file[0..4] == file[..4];
    }
  }

  /** How many records a traversal comes to: those up to the first one whose
      offset cannot be reported. */
  function Reached(rs: seq<Record>, i: nat := 0): (n: nat)
    requires i <= |rs|
    ensures i <= n <= |rs|
    ensures forall k :: i <= k < n ==> Offset(rs, k) <= SEEK_MAX
    ensures n < |rs| ==> Offset(rs, n) > SEEK_MAX
    decreases |rs| - i
  {
    if i == |rs| || Offset(rs, i) > SEEK_MAX then i else Reached(rs, i + 1)
  }

  /** It comes to all of them if and only if the last one starts within two gigabytes. */
  lemma {:induction false} ReachesAll(rs: seq<Record>)
    ensures Reached(rs) == |rs| <==> rs == [] || Offset(rs, |rs| - 1) <= SEEK_MAX
  {
    var n, last := Reached(rs), |rs| - 1;
    if n < |rs| {
      OffsetMonotone(rs, n, last);
      assert Offset(rs, last) > SEEK_MAX;
    } else if rs != [] {
      assert Offset(rs, last) <= SEEK_MAX;
    }
  }

  // ---- the search of dba/libcdb/cdb.c

  /** The fields of `struct cdb` that a search keeps. */
  datatype Search = Search(loop: Uint32, khash: Uint32, kpos: Uint32, hpos: Uint32, hslots: Uint32)

  /** Position of the table pointer for a hash value. */
  function Pointer(h: Uint32): nat {
    h * 8 % 2048
  }

  function Fresh(key: seq<Byte>, hpos: Uint32, hslots: Uint32): Search
    requires hslots != 0
  {
    Search(0, Hash(key), (hpos + Hash(key) / 256 % hslots * 8 % WORD) % WORD, hpos, hslots)
  }

  function SlotAt(file: seq<Byte>, at: nat): Slot
    requires at + 8 <= |file|
  {
    Slot(Unpack(file[at..at + 4]), Unpack(file[at + 4..at + 8]))
  }

  /** One slot on, round the end of the table. */
  function Advanced(s: Search): Search
    requires s.loop < s.hslots
  {
    var kpos := (s.kpos + 8) % WORD;
    s.(loop := s.loop + 1, kpos := if kpos == (s.hpos + s.hslots * 8 % WORD) % WORD then s.hpos else kpos)
  }

  /** The search stands at its `loop`-th probe of table `t` for `key`. */
  predicate Probing(s: Search, at: nat, t: seq<Slot>, key: seq<Byte>) {
    && s.khash == Hash(key) && s.hpos == at && s.hslots == |t| > 0 && s.loop <= |t|
    && var start := StartOf(Hash(key), |t|);
       s.kpos == at + 8 * (if s.loop < |t| then Probe(start, s.loop, |t|) else start)
  }

  lemma FreshProbes(key: seq<Byte>, at: Uint32, t: seq<Slot>)
    requires 0 < |t| < WORD && at + 8 * |t| < WORD
    ensures Probing(Fresh(key, at, |t|), at, t, key)
  {
  }

  lemma StepPosition(at: nat, start: nat, d: nat, len: nat)
    requires start < len && d < len && at + 8 * len < WORD
    ensures var next := (at + 8 * Probe(start, d, len) + 8) % WORD;
            (if next == (at + len * 8 % WORD) % WORD then at else next)
            == at + 8 * (if d + 1 < len then Probe(start, d + 1, len) else start)
  {
  }

  lemma AdvancedProbes(s: Search, at: nat, t: seq<Slot>, key: seq<Byte>)
    requires Probing(s, at, t, key) && s.loop < s.hslots && at + 8 * |t| < WORD
    ensures Probing(Advanced(s), at, t, key)
  {
    StepPosition(at, StartOf(Hash(key), |t|), s.loop, |t|);
  }

  lemma SlotStands(file: seq<Byte>, at: nat, t: seq<Slot>, i: nat)
    requires SlotsStandAt(file, at, t) && i < |t|
    ensures at + 8 * i + 8 <= |file| && SlotAt(file, at + 8 * i) == t[i]
  {
    assert StandsAt(file, at + 8 * i, SlotBytes(t[i]));
    WordPair(file, at + 8 * i, t[i].h, t[i].p);
  }

  lemma PointerOfBucket(h: Uint32)
    ensures Pointer(h) == 8 * Bucket(h) && Bucket(h) < 256
  {
    var q, r := h / 256, h % 256;
    assert h * 8 == 2048 * q + 8 * r;
  }

  lemma PointerStands(file: seq<Byte>, ix: Index, b: nat)
    requires |ix.tables| == |ix.at| == 256 && b < 256 && TableStands(file, ix, b)
    ensures 8 * b + 8 <= |file| && SlotAt(file, 8 * b) == Slot(ix.at[b], |ix.tables[b]|)
  {
    WordPair(file, 8 * b, ix.at[b], |ix.tables[b]|);
  }

  /** A record as `Candidate` meets it. */
  predicate Meets(file: seq<Byte>, p: nat, r: Record) {
    && p + 8 + |r.key| <= |file|
    && Unpack(file[p..p + 4]) == |r.key| && Unpack(file[p + 4..p + 8]) == |r.data|
    && file[p + 8..p + 8 + |r.key|] == r.key
  }

  lemma {:induction false} RecordMeets(file: seq<Byte>, rs: seq<Record>, i: nat)
    requires Holds(file, rs) && i < |rs|
    ensures Meets(file, Offset(rs, i), rs[i])
  {
    RecordParts(file, rs, i);
  }

  /** The table of a bucket, in the file and in what it holds. */
  ghost predicate Table(file: seq<Byte>, at: nat, t: seq<Slot>, b: nat, rs: seq<Record>, dist: map<nat, nat>) {
    && |file| < WORD
    && SlotsStandAt(file, at, t)
    && TableHolds(t, b, rs, |rs|, dist)
  }

  /** What a slot says about the rest of a search that has dealt with `from`
      records: it ends, or this is the next record `i` with the key, or neither. */
  ghost predicate Decides(slot: Slot, rs: seq<Record>, dist: map<nat, nat>, key: seq<Byte>, from: nat, d: nat, i: nat)
    requires from <= |rs|
  {
    if slot.p == 0 then NextMatch(rs, key, from) == |rs|
    else if slot.h != Hash(key) then Split(rs, dist, key, from, d + 1)
    else
      && i < |rs| && slot.p == Offset(rs, i)
      && if rs[i].key == key then NextMatch(rs, key, from) == i && Split(rs, dist, key, i + 1, d + 1)
         else Split(rs, dist, key, from, d + 1)
  }

  lemma SlotDecides(t: seq<Slot>, b: nat, rs: seq<Record>, dist: map<nat, nat>, key: seq<Byte>, from: nat, d: nat)
    returns (i: nat)
    requires TableHolds(t, b, rs, |rs|, dist) && b == Bucket(Hash(key)) && d < |t|
    requires Split(rs, dist, key, from, d)
    ensures Decides(t[Probe(StartOf(Hash(key), |t|), d, |t|)], rs, dist, key, from, d, i)
  {
    var slot := t[Probe(StartOf(Hash(key), |t|), d, |t|)];
    i := 0;
    if slot.p == 0 {
      StopAtFree(t, b, rs, dist, key, from, d);
    } else if slot.h != Hash(key) {
      PassForeign(t, b, rs, dist, key, from, d);
    } else {
      i := TakenSlotNames(t, b, rs, dist, key, d);
      if rs[i].key == key {
        Hit(t, b, rs, dist, key, from, d, i);
      } else {
        PassOtherKey(t, b, rs, dist, key, from, d, i);
      }
    }
  }

  /** The search stands where it should and has dealt with the first `from` records. */
  ghost predicate OnTrack(s: Search, at: nat, t: seq<Slot>, key: seq<Byte>, rs: seq<Record>, dist: map<nat, nat>,
                          from: nat) {
    Probing(s, at, t, key) && Split(rs, dist, key, from, s.loop)
  }

  /** What one probe decides; and the search stays on the table. */
  lemma ProbeDecides(file: seq<Byte>, at: nat, t: seq<Slot>, b: nat, rs: seq<Record>, dist: map<nat, nat>,
                     key: seq<Byte>, from: nat, s: Search)
    returns (i: nat)
    requires Table(file, at, t, b, rs, dist) && b == Bucket(Hash(key))
    requires OnTrack(s, at, t, key, rs, dist, from) && s.loop < s.hslots
    ensures s.kpos + 8 <= |file|
    ensures var slot := SlotAt(file, s.kpos);
            if slot.p == 0 then NextMatch(rs, key, from) == |rs|
            else if slot.h != Hash(key) then OnTrack(Advanced(s), at, t, key, rs, dist, from)
            else
              && i < |rs| && slot.p == Offset(rs, i)
              && if rs[i].key == key then
                   NextMatch(rs, key, from) == i && OnTrack(Advanced(s), at, t, key, rs, dist, i + 1)
                 else OnTrack(Advanced(s), at, t, key, rs, dist, from)
  {
    SlotStands(file, at, t, Probe(StartOf(Hash(key), |t|), s.loop, |t|));
    AdvancedProbes(s, at, t, key);
    i := SlotDecides(t, b, rs, dist, key, from, s.loop);
  }

  /** The table for a key in a complete file. */
  lemma TableOf(file: seq<Byte>, rs: seq<Record>, ix: Index, b: nat)
    requires Hashed(file, rs, ix) && b < 256
    ensures Holds(file, rs) && Table(file, ix.at[b], ix.tables[b], b, rs, ix.dist) && TableStands(file, ix, b)
  {
    assert TableStands(file, ix, b) && TableHolds(ix.tables[b], b, rs, |rs|, ix.dist);
  }

  /** A fresh search finds its table, and has everything before it; or there is
      nothing to find. */
  lemma {:induction false} SearchBegins(file: seq<Byte>, rs: seq<Record>, ix: Index, key: seq<Byte>)
    requires Hashed(file, rs, ix)
    ensures var b := Bucket(Hash(key));
            var t := ix.tables[b];
            && Pointer(Hash(key)) + 8 <= |file| && ix.at[b] < WORD && |t| < WORD
            && SlotAt(file, Pointer(Hash(key))) == Slot(ix.at[b], |t|)
            && (|t| == 0 ==> NextMatch(rs, key, 0) == |rs|)
            && (|t| > 0 ==> OnTrack(Fresh(key, ix.at[b], |t|), ix.at[b], t, key, rs, ix.dist, 0))
  {
    var b := Bucket(Hash(key));
    PointerOfBucket(Hash(key));
    TableOf(file, rs, ix, b);
    PointerStands(file, ix, b);
    SplitAtStart(ix.tables[b], b, rs, ix.dist, key);
    if |ix.tables[b]| > 0 {
      FreshProbes(key, ix.at[b], ix.tables[b]);
    }
  }

  /** A search that has found its table and dealt with the first `from` records. */
  ghost predicate Searching(s: Search, ix: Index, key: seq<Byte>, rs: seq<Record>, from: nat)
    requires |ix.tables| == |ix.at| == 256
  {
    var b := Bucket(Hash(key));
    s.loop > 0 && OnTrack(s, ix.at[b], ix.tables[b], key, rs, ix.dist, from)
  }

  lemma {:induction false} DataStands(file: seq<Byte>, rs: seq<Record>, i: nat)
    requires Holds(file, rs) && i < |rs|
    ensures var p := Offset(rs, i) + 8 + |rs[i].key|;
            p + |rs[i].data| <= |file| && file[p..p + |rs[i].data|] == rs[i].data
  {
    RecordParts(file, rs, i);
  }

  /** A call made while a traversal is under way, and what it should return. */
  datatype Call = FetchCall(key: seq<Byte>, skip: nat) | ExistsCall(key: seq<Byte>)

  datatype Reply = Fetched(data: Option<seq<Byte>>) | Existing(found: bool)

  function ReplyTo(rs: seq<Record>, c: Call): Reply {
    match c
    case FetchCall(key, skip) => Fetched(if skip < |Values(rs, key)| then Some(Values(rs, key)[skip]) else None)
    case ExistsCall(key) => Existing(exists r :: r in rs && r.key == key)
  }

  predicate Served(rs: seq<Record>, calls: seq<Call>, replies: seq<Reply>) {
    |replies| == |calls| && forall i :: 0 <= i < |calls| ==> replies[i] == ReplyTo(rs, calls[i])
  }

  /** Keys are as long as the program can pass. */
  predicate Callable(calls: seq<Call>) {
    forall i :: 0 <= i < |calls| ==> |calls[i].key| < WORD
  }

  /** What the `k`-th step of a traversal yields. */
  function KeyOf(rs: seq<Record>, k: nat): Option<seq<Byte>> {
    if k < Reached(rs) then Some(rs[k].key) else None
  }

  class Reader {
    const file: seq<Byte>
    const make: bool     // opened for writing only
    var position: nat    // of the shared stream
    var eod: Uint32
    var pos: Uint32      // of the traversal

    // struct cdb: the search
    var loop: Uint32
    var khash: Uint32
    var kpos: Uint32
    var hpos: Uint32
    var hslots: Uint32
    var dpos: Uint32
    var dlen: Uint32

    constructor (file: seq<Byte>, make: bool)
      ensures this.file == file && this.make == make && pos == 0
    {
      this.file, this.make := file, make;
      position, eod, pos := 0, 0, 0;
      loop, khash, kpos, hpos, hslots, dpos, dlen := 0, 0, 0, 0, 0, 0, 0;
    }

    function Here(): Cursor
      reads this`eod, this`pos
    {
      Cursor(eod, pos)
    }

    /** `php_stream_read`: as many bytes as the file still has, up to `n`. */
    method Read(n: nat) returns (buf: seq<Byte>)
      modifies this`position
      ensures position == old(position) + |buf|
      ensures buf == if old(position) + n <= |file| then file[old(position)..old(position) + n]
                     else if old(position) <= |file| then file[old(position)..] else []
    {
      if position + n <= |file| {
        buf := file[position..position + n];
      } else if position <= |file| {
        buf := file[position..];
      } else {
        buf := [];
      }
      position := position + |buf|;
    }

    /** The macro CSEEK: refuses positions past the data, and those the `int` cannot report. */
    method Seek(n: Uint32) returns (ok: bool)
      modifies this`position
      ensures ok <==> n < eod && n <= SEEK_MAX
      ensures ok ==> position == n
    {
      if n >= eod {
        return false;
      }
      position := n;
      ok := AsInt(position) == n;
    }

    /** Lines 265-278 and 299-310: the two lengths, then the key. */
    method ReadKey() returns (ok: bool, key: Option<seq<Byte>>, klen: Uint32, dlen: Uint32)
      modifies this`position
      ensures var p := old(position);
              && (ok <==> p + 8 <= |file|)
              && (ok ==> klen == Unpack(file[p..p + 4]) && dlen == Unpack(file[p + 4..p + 8]))
              && (ok ==> key == if p + 8 + klen <= |file| then Some(file[p + 8..p + 8 + klen]) else None)
    {
      klen, dlen, key := 0, 0, None;
      var buf := Read(8);
      ok := |buf| == 8;
      if ok {
        ghost var p := old(position);
        assert buf[..4] == file[p..p + 4] && buf[4..] == file[p + 4..p + 8];
        klen, dlen := Unpack(buf[..4]), Unpack(buf[4..]);
        var k := Read(klen);
        key := if |k| < klen then None else Some(k);
      }
    }

    /** `dba_firstkey_cdb`. */
    method FirstKey() returns (key: Option<seq<Byte>>)
      modifies this`position, this`eod, this`pos
      ensures (key, Here()) == if make then (None, old(Here())) else First(file, old(pos))
    {
      if make {
        return None;
      }
      eod := WORD - 1;
      var ok := Seek(0);
      if !ok {
        return None;
      }
      var buf := Read(4);
      if |buf| < 4 {
        return None;
      }
      eod := Unpack(buf);
      ok := Seek(2048);
      if !ok {
        return None;
      }
      var klen, dlen;
      ok, key, klen, dlen := ReadKey();
      if !ok {
        return None;
      }
      pos := (2048 + 4 + 4 + klen + dlen) % WORD;
    }

    /** `dba_nextkey_cdb`. */
    method NextKey() returns (key: Option<seq<Byte>>)
      modifies this`position, this`pos
      ensures (key, Here()) == if make then (None, old(Here())) else Next(file, old(Here()))
    {
      if make {
        return None;
      }
      var ok := Seek(pos);
      if !ok {
        return None;
      }
      var klen, dlen;
      ok, key, klen, dlen := ReadKey();
      if !ok {
        return None;
      }
      pos := (pos + 8 + klen + dlen) % WORD;
    }

    // ---- dba/libcdb/cdb.c

    /** `cdb_read`: all `n` bytes from `at`, or failure. */
    method ReadAt(n: nat, at: Uint32) returns (ok: bool, buf: seq<Byte>)
      modifies this`position
      ensures n > 0 ==> (ok <==> at + n <= |file|)
      ensures ok && n > 0 ==> buf == file[at..at + n]
      ensures n == 0 ==> ok && buf == []
    {
      position := at;
      buf := [];
      while |buf| < n
        invariant |buf| <= n
        invariant |buf| > 0 ==> at + |buf| <= |file| && buf == file[at..at + |buf|]
        invariant position == at + |buf|
      {
        var r := Read(n - |buf|);
        if r == [] {
          return false, buf;
        }
        ghost var k := |buf|;
        buf := buf + r;
        assert buf == file[at..at + |buf|];
      }
      ok := true;
    }

    /** `cdb_match`: 1, 0 or -1. */
    method Match(key: seq<Byte>, at: Uint32) returns (r: int)
      modifies this`position
      ensures at + |key| <= |file| < WORD ==> r == if file[at..at + |key|] == key then 1 else 0
    {
      var p, done := at, 0;
      while done < |key|
        invariant done <= |key| && 0 <= p < WORD
        invariant at + |key| <= |file| < WORD ==> p == at + done && file[at..at + done] == key[..done]
      {
        var n := if 32 > |key| - done then |key| - done else 32;
        var ok, buf := ReadAt(n, p);
        if !ok {
          return -1;
        }
        if at + |key| <= |file| < WORD {
          Part(file, at, file[at..at + |key|], done, done + n);
          SliceJoin(file, at, at + done, at + done + n);
        }
        SliceJoin(key, 0, done, done + n);
        if buf != key[done..done + n] {
          return 0;
        }
        p := (p + n) % WORD;
        done := done + n;
      }
      assert key[..done] == key;
      r := 1;
    }

    /** A record candidate: the key length, then the key. On a hit its data is noted. */
    method Candidate(key: seq<Byte>, at: Uint32) returns (r: int)
      modifies this`position, this`dpos, this`dlen
      ensures at + 8 + |key| <= |file| < WORD && Unpack(file[at..at + 4]) == |key|
                && file[at + 8..at + 8 + |key|] == key ==>
                r == 1 && dpos == at + 8 + |key| && dlen == Unpack(file[at + 4..at + 8])
      ensures at + 8 <= |file| < WORD && Unpack(file[at..at + 4]) != |key| ==> r == 0
      ensures at + 8 + |key| <= |file| < WORD && file[at + 8..at + 8 + |key|] != key ==> r == 0
    {
      var ok, buf := ReadAt(8, at);
      if !ok {
        return -1;
      }
      assert buf[..4] == file[at..at + 4] && buf[4..] == file[at + 4..at + 8];
      if Unpack(buf[..4]) != |key| {
        return 0;
      }
      r := Match(key, (at + 8) % WORD);
      if r == 1 {
        dlen := Unpack(buf[4..]);
        dpos := (at + 8 + |key|) % WORD;
      }
    }

    function State(): Search
      reads this`loop, this`khash, this`kpos, this`hpos, this`hslots
    {
      Search(loop, khash, kpos, hpos, hslots)
    }

    /** The beginning of `cdb_findnext`: on a fresh search, look up the table. */
    method BeginSearch(key: seq<Byte>) returns (ok: bool)
      requires loop == 0
      modifies this`position, this`khash, this`kpos, this`hpos, this`hslots
      ensures ok <==> Pointer(Hash(key)) + 8 <= |file|
      ensures ok ==> hslots == Unpack(file[Pointer(Hash(key)) + 4..Pointer(Hash(key)) + 8])
      ensures ok && hslots != 0 ==>
                State() == Fresh(key, Unpack(file[Pointer(Hash(key))..Pointer(Hash(key)) + 4]), hslots)
    {
      var u: Uint32 := Hash(key);
      var buf;
      ok, buf := ReadAt(8, u * 8 % 2048);
      if ok {
        assert buf[..4] == file[Pointer(Hash(key))..Pointer(Hash(key)) + 4]
            && buf[4..] == file[Pointer(Hash(key)) + 4..Pointer(Hash(key)) + 8];
        hslots := Unpack(buf[4..]);
        if hslots != 0 {
          hpos := Unpack(buf[..4]);
          khash := u;
          u := u / 256;
          u := u % hslots;
          kpos := (hpos + u * 8 % WORD) % WORD;
        }
      }
    }

    /** Reads the slot under `kpos` and moves on, round the end of the table. */
    method NextSlot() returns (ok: bool, slot: Slot)
      requires loop < hslots
      modifies this`position, this`loop, this`kpos
      ensures ok <==> old(kpos) + 8 <= |file|
      ensures ok ==> slot == SlotAt(file, old(kpos))
      ensures State() == if ok && slot.p != 0 then Advanced(old(State())) else old(State())
    {
      slot := EMPTY;
      var buf;
      ok, buf := ReadAt(8, kpos);
      if ok {
        assert buf[..4] == file[kpos..kpos + 4] && buf[4..] == file[kpos + 4..kpos + 8];
        slot := Slot(Unpack(buf[..4]), Unpack(buf[4..]));
        if slot.p != 0 {
          loop := loop + 1;
          kpos := (kpos + 8) % WORD;
          if kpos == (hpos + hslots * 8 % WORD) % WORD {
            kpos := hpos;
          }
        }
      }
    }

    /** One pass of the loop of `cdb_findnext`; `more` if the search goes on. */
    method SearchStep(key: seq<Byte>, ghost i: nat, ghost rs: seq<Record>) returns (more: bool, r: FindResult)
      requires |key| < WORD && loop < hslots && khash == Hash(key)
      modifies this`position, this`loop, this`kpos, this`dpos, this`dlen
      ensures old(kpos) + 8 <= |file| < WORD ==>
                var slot := SlotAt(file, old(kpos));
                if slot.p == 0 then !more && r == NotFound
                else
                  && State() == Advanced(old(State()))
                  && (slot.h != Hash(key) ==> more)
                  && (slot.h == Hash(key) && i < |rs| && Meets(file, slot.p, rs[i]) ==>
                        if rs[i].key == key then
                          !more && r == Found && dpos == slot.p + 8 + |key| && dlen == |rs[i].data|
                        else more)
      ensures more ==> State() == Advanced(old(State()))
    {
      var ok, slot := NextSlot();
      if !ok {
        return false, ReadError;
      }
      if slot.p == 0 {
        return false, NotFound;
      }
      if slot.h == khash {
        var c := Candidate(key, slot.p);
        if c == -1 {
          return false, ReadError;
        }
        if c == 1 {
          return false, Found;
        }
      }
      return true, NotFound;
    }

    /** The loop of `cdb_findnext`. */
    method SearchLoop(key: seq<Byte>, ghost at: nat, ghost t: seq<Slot>, ghost rs: seq<Record>,
                      ghost dist: map<nat, nat>, ghost from: nat)
      returns (r: FindResult)
      requires |key| < WORD && khash == Hash(key)
      modifies this`position, this`loop, this`kpos, this`dpos, this`dlen
      ensures Table(file, at, t, Bucket(Hash(key)), rs, dist) && Holds(file, rs)
                && old(OnTrack(State(), at, t, key, rs, dist, from)) ==>
                var m := NextMatch(rs, key, from);
                if m == |rs| then r == NotFound
                else
                  && r == Found && loop > 0 && OnTrack(State(), at, t, key, rs, dist, m + 1)
                  && dpos == Offset(rs, m) + 8 + |key| && dlen == |rs[m].data|
    {
      ghost var b := Bucket(Hash(key));
      ghost var good := Table(file, at, t, b, rs, dist) && Holds(file, rs)
          && OnTrack(State(), at, t, key, rs, dist, from);
      while loop < hslots
        invariant good ==> OnTrack(State(), at, t, key, rs, dist, from)
        decreases hslots - loop
      {
        ghost var i := 0;
        if good {
          i := ProbeDecides(file, at, t, b, rs, dist, key, from, State());
          if i < |rs| {
            RecordMeets(file, rs, i);
          }
        }
        var more;
        more, r := SearchStep(key, i, rs);
        if !more {
          return;
        }
      }
      if good {
        StopAtEnd(t, b, rs, dist, key, from);
      }
      r := NotFound;
    }

    /** The last search call has found record `m`. */
    ghost predicate HasFound(rs: seq<Record>, ix: Index, key: seq<Byte>, m: nat)
      requires |ix.tables| == |ix.at| == 256
      reads this`loop, this`khash, this`kpos, this`hpos, this`hslots, this`dpos, this`dlen
    {
      && m < |rs| && Searching(State(), ix, key, rs, m + 1)
      && dpos == Offset(rs, m) + 8 + |key| && dlen == |rs[m].data|
    }

    /** What a search call reports: record `m`, or that there is none. */
    ghost predicate Reports(r: FindResult, rs: seq<Record>, ix: Index, key: seq<Byte>, m: nat)
      requires |ix.tables| == |ix.at| == 256
      reads this`loop, this`khash, this`kpos, this`hpos, this`hslots, this`dpos, this`dlen
    {
      if m >= |rs| then r == NotFound else r == Found && HasFound(rs, ix, key, m)
    }

    /** `cdb_findnext`. On a complete file it finds the records with the key one
        after the other, in the order in which they were added; `last` is the one
        found before. */
    method FindNext(key: seq<Byte>, ghost rs: seq<Record>, ghost ix: Index, ghost last: nat) returns (r: FindResult)
      requires |key| < WORD && (loop > 0 ==> khash == Hash(key))
      modifies this`position, this`loop, this`khash, this`kpos, this`hpos, this`hslots, this`dpos, this`dlen
      ensures r == Found ==> khash == Hash(key)
      ensures Hashed(file, rs, ix) && old(loop) == 0 ==> Reports(r, rs, ix, key, NextMatch(rs, key, 0))
      ensures Hashed(file, rs, ix) && last < |rs| && old(HasFound(rs, ix, key, last)) ==>
                Reports(r, rs, ix, key, NextMatch(rs, key, last + 1))
    {
      ghost var b := Bucket(Hash(key));
      ghost var good := Hashed(file, rs, ix);
      ghost var at, t, dist := 0, [], map[];
      if good {
        TableOf(file, rs, ix, b);
        at, t, dist := ix.at[b], ix.tables[b], ix.dist;
      }
      ghost var from := if loop == 0 then 0 else last + 1;
      if loop == 0 {
        if good {
          SearchBegins(file, rs, ix, key);
        }
        var ok := BeginSearch(key);
        if !ok {
          return ReadError;
        }
        if hslots == 0 {
          return NotFound;
        }
      }
      r := SearchLoop(key, at, t, rs, dist, from);
    }

    /** `cdb_find`. */
    method Find(key: seq<Byte>, ghost rs: seq<Record>, ghost ix: Index) returns (r: FindResult)
      requires |key| < WORD
      modifies this`position, this`loop, this`khash, this`kpos, this`hpos, this`hslots, this`dpos, this`dlen
      ensures r == Found ==> khash == Hash(key)
      ensures Hashed(file, rs, ix) ==>
                Reports(r, rs, ix, key, NextMatch(rs, key, 0))
    {
      loop := 0;
      r := FindNext(key, rs, ix, 0);
    }

    /** One pass of the skip loop: from the `k`-th record with the key to the next. */
    method SkipOne(key: seq<Byte>, ghost k: nat, ghost rs: seq<Record>, ghost ix: Index) returns (r: FindResult)
      requires |key| < WORD && khash == Hash(key)
      modifies this`position, this`loop, this`khash, this`kpos, this`hpos, this`hslots, this`dpos, this`dlen
      ensures r == Found ==> khash == Hash(key)
      ensures Hashed(file, rs, ix) && old(Reports(Found, rs, ix, key, NthMatch(rs, key, k))) ==>
                Reports(r, rs, ix, key, NthMatch(rs, key, k + 1))
    {
      ghost var m := NthMatch(rs, key, k);
      assert m < |rs| ==> NthMatch(rs, key, k + 1) == NextMatch(rs, key, m + 1);
      r := FindNext(key, rs, ix, m);
    }

    /** The skip loop of `dba_fetch_cdb`, after the first record with the key was found. */
    method Skip(key: seq<Byte>, skip: nat, ghost rs: seq<Record>, ghost ix: Index) returns (r: FindResult)
      requires |key| < WORD && khash == Hash(key)
      modifies this`position, this`loop, this`khash, this`kpos, this`hpos, this`hslots, this`dpos, this`dlen
      ensures Hashed(file, rs, ix) && old(Reports(Found, rs, ix, key, NthMatch(rs, key, 0))) ==>
                Reports(r, rs, ix, key, NthMatch(rs, key, skip))
    {
      ghost var good := Hashed(file, rs, ix) && Reports(Found, rs, ix, key, NthMatch(rs, key, 0));
      r := Found;
      for k := 0 to skip
        invariant r == Found && khash == Hash(key)
        invariant good ==> Reports(r, rs, ix, key, NthMatch(rs, key, k))
      {
        r := SkipOne(key, k, rs, ix);
        if r != Found {
          if good {
            NoMoreMatches(rs, key, k + 1, skip);
          }
          return;
        }
      }
    }

    /** The data the search has noted: lines 165-174. */
    method ReadData(ghost rs: seq<Record>, ghost m: nat) returns (data: Option<seq<Byte>>)
      modifies this`position
      ensures Holds(file, rs) && m < |rs| && dpos == Offset(rs, m) + 8 + |rs[m].key| && dlen == |rs[m].data| ==>
                data == Some(rs[m].data)
    {
      var ok, buf := ReadAt(dlen, dpos);
      data := if ok then Some(buf) else None;
      if Holds(file, rs) && m < |rs| {
        DataStands(file, rs, m);
      }
    }

    /** `dba_fetch_cdb`: the `skip`-th value of the key, or nothing. */
    method Fetch(key: seq<Byte>, skip: nat, ghost rs: seq<Record>, ghost ix: Index) returns (data: Option<seq<Byte>>)
      requires |key| < WORD
      modifies this`position, this`loop, this`khash, this`kpos, this`hpos, this`hslots, this`dpos, this`dlen
      ensures make ==> data == None
      ensures !make && Hashed(file, rs, ix) ==>
                data == if skip < |Values(rs, key)| then Some(Values(rs, key)[skip]) else None
    {
      if make {
        return None;
      }
      MatchIsValue(rs, key, skip);
      var r := Find(key, rs, ix);
      if r != Found {
        if Hashed(file, rs, ix) {
          NoMoreMatches(rs, key, 0, skip);
        }
        return None;
      }
      r := Skip(key, skip, rs, ix);
      if r != Found {
        return None;
      }
      data := ReadData(rs, NthMatch(rs, key, skip));
    }

    /** `dba_exists_cdb`. */
    method Exists(key: seq<Byte>, ghost rs: seq<Record>, ghost ix: Index) returns (found: bool)
      requires |key| < WORD
      modifies this`position, this`loop, this`khash, this`kpos, this`hpos, this`hslots, this`dpos, this`dlen
      ensures make ==> !found
      ensures !make && Hashed(file, rs, ix) ==> (found <==> exists r :: r in rs && r.key == key)
    {
      if make {
        return false;
      }
      var r := Find(key, rs, ix);
      found := r == Found;
      if Hashed(file, rs, ix) && found {
        assert rs[NextMatch(rs, key, 0)] in rs;
      }
    }

    /** Any fetch and exists calls; the traversal does not see them. */
    method Serve(calls: seq<Call>, ghost rs: seq<Record>, ghost ix: Index) returns (replies: seq<Reply>)
      requires Callable(calls)
      modifies this`position, this`loop, this`khash, this`kpos, this`hpos, this`hslots, this`dpos, this`dlen
      ensures !make && Hashed(file, rs, ix) ==> Served(rs, calls, replies)
    {
      replies := [];
      ghost var good := !make && Hashed(file, rs, ix);
      for i := 0 to |calls|
        invariant |replies| == i
        invariant good ==> forall k :: 0 <= k < i ==> replies[k] == ReplyTo(rs, calls[k])
      {
        var reply := ServeOne(calls[i], rs, ix);
        replies := replies + [reply];
      }
    }

    method ServeOne(c: Call, ghost rs: seq<Record>, ghost ix: Index) returns (reply: Reply)
      requires |c.key| < WORD
      modifies this`position, this`loop, this`khash, this`kpos, this`hpos, this`hslots, this`dpos, this`dlen
      ensures !make && Hashed(file, rs, ix) ==> reply == ReplyTo(rs, c)
    {
      match c
      case FetchCall(key, skip) =>
        var data := Fetch(key, skip, rs, ix);
        reply := Fetched(data);
      case ExistsCall(key) =>
        var found := Exists(key, rs, ix);
        reply := Existing(found);
    }

    /** The traversal has passed the first `i` records. */
    ghost predicate Behind(rs: seq<Record>, i: nat)
      reads this`eod, this`pos
    {
      i <= |rs| && Offset(rs, i) <= End(rs) < WORD && Here() == Passed(rs, i)
    }

    /** A database without records, as the writer leaves it. */
    ghost predicate EmptyFile(rs: seq<Record>, ix: Index) {
      rs == [] && Hashed(file, rs, ix) && |file| < HEADER + 8
    }

    /** Other calls, then the next key. */
    method Round(calls: seq<Call>, ghost rs: seq<Record>, ghost ix: Index, ghost i: nat)
      returns (key: Option<seq<Byte>>, replies: seq<Reply>)
      requires !make && Holds(file, rs) && Callable(calls)
      modifies this
      ensures old(Behind(rs, i)) && i <= Reached(rs) ==>
                key == KeyOf(rs, i) && Behind(rs, if i < Reached(rs) then i + 1 else i)
      ensures EmptyFile(rs, ix) && old(Idle(Here())) ==> key == None && Idle(Here())
      ensures Hashed(file, rs, ix) ==> Served(rs, calls, replies)
    {
      if Behind(rs, i) {
        NextVisits(file, rs, i);
      }
      if EmptyFile(rs, ix) && Idle(Here()) {
        IdleStays(file, ix, Here());
      }
      replies := Serve(calls, rs, ix);
      key := NextKey();
    }

    /** A traversal: the first key, and after each round of other calls the next
        one. It yields the keys of the records in file order, each once, up to the
        first record that starts behind two gigabytes, and then nothing for ever
        (without records, on a file as the writer leaves it, from the beginning);
        and the other calls are answered as if there were no traversal. */
    method Traverse(rounds: seq<seq<Call>>, ghost rs: seq<Record>, ghost ix: Index)
      returns (keys: seq<Option<seq<Byte>>>, replies: seq<seq<Reply>>)
      requires !make && Holds(file, rs)
      requires forall k :: 0 <= k < |rounds| ==> Callable(rounds[k])
      modifies this
      ensures |keys| == |rounds| + 1 && |replies| == |rounds|
      ensures keys[0] == KeyOf(rs, 0)
      ensures rs != [] || (EmptyFile(rs, ix) && (old(pos) == 0 || old(pos) >= HEADER)) ==>
                forall k :: 0 <= k <= |rounds| ==> keys[k] == KeyOf(rs, k)
      ensures Hashed(file, rs, ix) ==> forall k :: 0 <= k < |rounds| ==> Served(rs, rounds[k], replies[k])
    {
      FirstVisits(file, rs, pos);
      ghost var n, empty := Reached(rs), EmptyFile(rs, ix) && (pos == 0 || pos >= HEADER);
      var key := FirstKey();
      keys, replies := [key], [];
      for k := 0 to |rounds|
        invariant |keys| == k + 1 && |replies| == k && keys[0] == KeyOf(rs, 0)
        invariant rs != [] ==> Behind(rs, if k < n then k + 1 else n)
        invariant empty ==> Idle(Here())
        invariant rs != [] || empty ==> forall j :: 0 <= j <= k ==> keys[j] == KeyOf(rs, j)
        invariant Hashed(file, rs, ix) ==> forall j :: 0 <= j < k ==> Served(rs, rounds[j], replies[j])
      {
        var answers;
        key, answers := Round(rounds[k], rs, ix, if k < n then k + 1 else n);
        keys, replies := keys + [key], replies + [answers];
      }
    }
  }
}
