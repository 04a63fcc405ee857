/** dba/libcdb/cdb_make.c: writing a constant database. */
module CdbMake {
  import opened CdbFormat
  import opened CdbIndex
  import opened CdbTables

  /** A file after a write at `p`: a gap before it reads as zeros. */
  function Overwritten(file: seq<Byte>, p: nat, s: seq<Byte>): (new': seq<Byte>)
    ensures |new'| == if s == [] || p + |s| <= |file| then |file| else p + |s|
  {
    if s == [] then file
    else
      var base := if p <= |file| then file else file + seq<Byte>(p - |file|, _ => 0);
      base[..p] + s + if p + |s| <= |base| then base[p + |s|..] else []
  }

  lemma WriteStands(file: seq<Byte>, p: nat, s: seq<Byte>)
    requires s != [] || p <= |file|
    ensures StandsAt(Overwritten(file, p, s), p, s)
  {
  }

  lemma WriteKeeps(file: seq<Byte>, p: nat, s: seq<Byte>, at: nat, x: seq<Byte>)
    requires StandsAt(file, at, x) && (at + |x| <= p || p + |s| <= at)
    ensures StandsAt(Overwritten(file, p, s), at, x)
  {
    var new' := Overwritten(file, p, s);
    forall k | 0 <= k < |x|
      ensures new'[at..at + |x|][k] == x[k]
    {
      assert file[at..at + |x|][k] == x[k];
    }
  }

  /** Two writes at the end of the file, one behind the other. */
  lemma WritesJoin(file: seq<Byte>, p: nat, a: seq<Byte>, b: seq<Byte>)
    requires |file| <= p
    ensures Overwritten(Overwritten(file, p, a), p + |a|, b) == Overwritten(file, p, a + b)
  {
    if a == [] {
      assert a + b == b;
    } else if b == [] {
      assert a + b == a;
    }
  }

  ghost predicate RecordsStand(file: seq<Byte>, rs: seq<Record>) {
    forall i :: 0 <= i < |rs| ==> RecordAt(file, rs, i)
  }

  /** A write behind the records leaves them alone. */
  lemma RecordsStay(file: seq<Byte>, rs: seq<Record>, p: nat, s: seq<Byte>)
    requires RecordsStand(file, rs) && (End(rs) <= p || p + |s| <= HEADER)
    ensures RecordsStand(Overwritten(file, p, s), rs)
  {
    forall i | 0 <= i < |rs|
      ensures RecordAt(Overwritten(file, p, s), rs, i)
    {
      assert RecordAt(file, rs, i);
      OffsetMonotone(rs, 0, i);
      OffsetMonotone(rs, i + 1, |rs|);
      WriteKeeps(file, p, s, Offset(rs, i), RecordBytes(rs[i]));
    }
  }

  /** A record written at the end. */
  lemma RecordAppended(file: seq<Byte>, rs: seq<Record>, r: Record)
    requires RecordsStand(file, rs) && |r.key| < WORD && |r.data| < WORD
    ensures RecordsStand(Overwritten(file, End(rs), RecordBytes(r)), rs + [r])
    ensures End(rs + [r]) == End(rs) + 8 + |r.key| + |r.data|
  {
    var file' := Overwritten(file, End(rs), RecordBytes(r));
    RecordsStay(file, rs, End(rs), RecordBytes(r));
    OffsetPrefix(rs, [r], |rs|);
    forall i | 0 <= i <= |rs|
      ensures RecordAt(file', rs + [r], i)
    {
      OffsetPrefix(rs, [r], i);
      if i == |rs| {
        WriteStands(file, End(rs), RecordBytes(r));
      } else {
        assert RecordAt(file', rs, i);
      }
    }
  }

  lemma EntryAppended(es: seq<Slot>, rs: seq<Record>, r: Record)
    requires EntriesOf(es, rs) && End(rs) < WORD
    ensures EntriesOf(es + [Slot(Hash(r.key), End(rs))], rs + [r])
  {
    forall i | 0 <= i <= |rs|
      ensures EntryOf((es + [Slot(Hash(r.key), End(rs))])[i], rs + [r], i)
    {
      OffsetPrefix(rs, [r], i);
      if i < |rs| {
        assert EntryOf(es[i], rs, i);
      }
    }
  }

  /** The tables written so far, up to `end`, and the header words for them. */
  ghost predicate TablesStand(file: seq<Byte>, final: seq<Byte>, end: nat, ix: Index, rs: seq<Record>, n: nat) {
    && |ix.tables| == |ix.at| == n
    && forall b :: 0 <= b < n ==> TableDone(file, final, end, ix, rs, b)
  }

  ghost predicate TableDone(file: seq<Byte>, final: seq<Byte>, end: nat, ix: Index, rs: seq<Record>, b: nat)
    requires b < |ix.tables| && b < |ix.at|
  {
    && End(rs) <= ix.at[b] < WORD && |ix.tables[b]| < WORD && ix.at[b] + 8 * |ix.tables[b]| <= end
    && (ix.tables[b] != [] ==> StandsAt(file, ix.at[b], TableBytes(ix.tables[b])))
    && StandsAt(final, 8 * b, Pack(ix.at[b]) + Pack(|ix.tables[b]|))
    && TableHolds(ix.tables[b], b, rs, |rs|, ix.dist)
  }

  // ---- cdb_make_finish on its arrays

  /** Lines 150-157: how many entries each bucket has. */
  method CountEntries(es: seq<Slot>) returns (count: array<int>)
    ensures fresh(count) && count.Length == 256
    ensures forall b :: 0 <= b < 256 ==> count[b] == |InOrder(es, b)|
  {
    count := new int[256](_ => 0);
    var i := |es|;
    while i > 0
      invariant 0 <= i <= |es|
      invariant forall b :: 0 <= b < 256 ==> count[b] == |InOrder(es[i..], b)|
    {
      i := i - 1;
      forall b | 0 <= b < 256
        ensures |InOrder(es[i..], b)| == |InOrder(es[i + 1..], b)| + if b == Bucket(es[i].h) then 1 else 0
      {
        FromOneBefore(es, i, b);
      }
      count[Bucket(es[i].h)] := count[Bucket(es[i].h)] + 1;
    }
    assert es[0..] == es;
  }

  /** Lines 159-166: room for the entries and for the largest table. */
  method MemSize(count: array<int>, n: nat) returns (memsize: int)
    requires count.Length == 256 && forall b :: 0 <= b < 256 ==> 0 <= count[b] <= n
    ensures n + 1 <= memsize <= 3 * n + 1
    ensures forall b :: 0 <= b < 256 ==> 2 * count[b] <= memsize - n
  {
    memsize := 1;
    for i := 0 to 256
      invariant 1 <= memsize <= 2 * n + 1
      invariant forall b :: 0 <= b < i ==> 2 * count[b] <= memsize
    {
      var u := count[i] * 2;
      if u > memsize {
        memsize := u;
      }
    }
    memsize := memsize + n;
  }

  /** Lines 180-184: where each bucket ends in the sorted array. */
  method BucketEnds(es: seq<Slot>, count: array<int>) returns (start: array<int>)
    requires count.Length == 256 && forall b :: 0 <= b < 256 ==> count[b] == |InOrder(es, b)|
    ensures fresh(start) && start.Length == 256
    ensures forall b :: 0 <= b < 256 ==> start[b] == Earlier(es, b + 1)
  {
    start := new int[256](_ => 0);
    var u := 0;
    for i := 0 to 256
      invariant u == Earlier(es, i)
      invariant forall b :: 0 <= b < i ==> start[b] == Earlier(es, b + 1)
      invariant forall b :: 0 <= b < 256 ==> count[b] == |InOrder(es, b)|
    {
      u := u + count[i];
      start[i] := u;
    }
  }

  /** The entries of a bucket stand in their part of the array, which ends at `end`. */
  predicate EndsWith(split: seq<Slot>, at: int, end: int, tail: seq<Slot>) {
    0 <= at <= end <= |split| && split[at..end] == tail
  }

  lemma PutInFront(split: seq<Slot>, at: int, end: int, tail: seq<Slot>, e: Slot)
    requires EndsWith(split, at, end, tail) && 0 < at
    ensures EndsWith(split[at - 1 := e], at - 1, end, [e] + tail)
  {
  }

  lemma PutElsewhere(split: seq<Slot>, at: int, end: int, tail: seq<Slot>, place: nat, e: Slot)
    requires EndsWith(split, at, end, tail) && place < |split| && (place < at || end <= place)
    ensures EndsWith(split[place := e], at, end, tail)
  {
  }

  /** The entries from `i` on have been sorted into bucket `b`. */
  ghost predicate Sorted(split: seq<Slot>, es: seq<Slot>, i: nat, b: nat, at: int)
    requires i <= |es|
  {
    Earlier(es, b) <= at && EndsWith(split, at, Earlier(es, b + 1), InOrder(es[i..], b))
  }

  /** One step of the sort: for the entry's own bucket, for another. */
  lemma SortedHere(split: seq<Slot>, es: seq<Slot>, i: nat, at: int)
    requires i < |es| && Sorted(split, es, i + 1, Bucket(es[i].h), at)
    ensures 0 <= at - 1 < |split| && Sorted(split[at - 1 := es[i]], es, i, Bucket(es[i].h), at - 1)
  {
    var b := Bucket(es[i].h);
    FromOneBefore(es, i, b);
    FewerFromHere(es, i, b);
    PutInFront(split, at, Earlier(es, b + 1), InOrder(es[i + 1..], b), es[i]);
  }

  /** The parts of two buckets do not overlap. */
  lemma OtherPart(es: seq<Slot>, b: nat, c: nat, place: nat)
    requires b != c && Earlier(es, c) <= place < Earlier(es, c + 1)
    ensures place < Earlier(es, b) || Earlier(es, b + 1) <= place
  {
    if b < c {
      EarlierMonotone(es, b + 1, c);
    } else {
      EarlierMonotone(es, c + 1, b);
    }
  }

  lemma {:induction false} SortedElsewhere(split: seq<Slot>, es: seq<Slot>, i: nat, b: nat, at: int, place: nat)
    requires i < |es| && b != Bucket(es[i].h) && Sorted(split, es, i + 1, b, at)
    requires place < |split| && Earlier(es, Bucket(es[i].h)) <= place < Earlier(es, Bucket(es[i].h) + 1)
    ensures Sorted(split[place := es[i]], es, i, b, at)
  {
    FromOneBefore(es, i, b);
    assert InOrder(es[i..], b) == InOrder(es[i + 1..], b);
    OtherPart(es, b, Bucket(es[i].h), place);
    PutElsewhere(split, at, Earlier(es, b + 1), InOrder(es[i..], b), place, es[i]);
  }

  /** Bucket `b` of the sorted array. */
  ghost predicate SortedBucket(split: seq<Slot>, es: seq<Slot>, b: nat, at: int) {
    at == Earlier(es, b) && EndsWith(split, at, Earlier(es, b + 1), InOrder(es, b))
  }

  /** Bucket `b` stands at `at` in the sorted array. */
  ghost predicate Arranged(split: seq<Slot>, es: seq<Slot>, b: nat, at: int, count: int) {
    at + count == Earlier(es, b + 1) && |split| == |es| && EndsWith(split, at, at + count, InOrder(es, b))
  }

  lemma {:induction false} SortedIsArranged(split: seq<Slot>, es: seq<Slot>, b: nat, at: int, count: int)
    requires SortedBucket(split, es, b, at) && |split| == |es| && count == |InOrder(es, b)|
    ensures Arranged(split, es, b, at, count)
  {
  }

  /** Lines 186-190: a stable sort by bucket; `start` becomes where each bucket begins. */
  method SortByBucket(es: seq<Slot>, start: array<int>, split: array<Slot>)
    requires start.Length == 256 && split.Length == |es|
    requires forall b :: 0 <= b < 256 ==> start[b] == Earlier(es, b + 1)
    modifies start, split
    ensures forall b :: 0 <= b < 256 ==> SortedBucket(split[..], es, b, start[b])
  {
    EarlierCountsAll(es);
    forall b | 0 <= b < 256
      ensures Sorted(split[..], es, |es|, b, start[b])
    {
      EarlierMonotone(es, b + 1, 256);
    }
    var i := |es|;
    while i > 0
      invariant 0 <= i <= |es|
      invariant forall b :: 0 <= b < 256 ==> Sorted(split[..], es, i, b, start[b])
    {
      i := i - 1;
      SortOne(es, i, start, split);
    }
    forall b | 0 <= b < 256
      ensures SortedBucket(split[..], es, b, start[b])
    {
      assert es[0..] == es;
    }
  }

  /** Line 189. */
  method SortOne(es: seq<Slot>, i: nat, start: array<int>, split: array<Slot>)
    requires start.Length == 256 && i < |es|
    requires forall b :: 0 <= b < 256 ==> Sorted(split[..], es, i + 1, b, start[b])
    modifies start, split
    ensures forall b :: 0 <= b < 256 ==> Sorted(split[..], es, i, b, start[b])
  {
    var c := Bucket(es[i].h);
    ghost var before, ends := split[..], start[..];
    SortedHere(before, es, i, ends[c]);
    start[c] := start[c] - 1;
    split[start[c]] := es[i];
    forall b | 0 <= b < 256
      ensures Sorted(split[..], es, i, b, start[b])
    {
      assert split[..] == before[start[c] := es[i]];
      if b != c {
        SortedElsewhere(before, es, i, b, ends[b], start[c]);
      }
    }
  }

  /** Lines 204-207: the first free slot for a hash value. */
  method FirstFreeSlot(hash: array<Slot>, len: nat, h: Uint32) returns (at: nat, ghost d: nat)
    requires 0 < len <= hash.Length && Taken(hash[..len]) < len
    ensures at < len && hash[at].p == 0
    ensures FirstFree(hash[..len], StartOf(h, len), d) && at == Probe(StartOf(h, len), d, len)
  {
    at := h / 256 % len;
    d := 0;
    while hash[at].p != 0
      invariant d < len && at == Probe(StartOf(h, len), d, len)
      invariant forall e :: 0 <= e < d ==> hash[..len][Probe(StartOf(h, len), e, len)].p != 0
      decreases len - d
    {
      if d + 1 == len {
        ProbesReachAll(hash[..len], StartOf(h, len));
      }
      at := at + 1;
      if at == len {
        at := 0;
      }
      d := d + 1;
    }
  }

  /** How far the entries of a bucket have been inserted: all before record `m`,
      which is the next; what is left stands in `rest`. */
  ghost predicate Filling(t: seq<Slot>, b: nat, es: seq<Slot>, rs: seq<Record>, dist: map<nat, nat>, m: nat,
                          rest: seq<Slot>)
    requires EntriesOf(es, rs)
  {
    && m <= |rs| && TableHolds(t, b, rs, m, dist)
    && (m < |rs| ==> InBucket(rs, m, b))
    && InOrder(es[m..], b) == rest
  }

  lemma FillStart(t: seq<Slot>, b: nat, es: seq<Slot>, rs: seq<Record>, dist: map<nat, nat>)
    returns (m: nat)
    requires EntriesOf(es, rs) && forall s :: 0 <= s < |t| ==> t[s].p == 0
    ensures Filling(t, b, es, rs, dist, m, InOrder(es, b))
  {
    EmptyHolds(t, b, rs, dist);
    m := PassOthers(t, b, rs, 0, dist, es);
    assert es[0..] == es;
  }

  /** The next entry is that of record `m`. */
  lemma {:induction false} FillNext(t: seq<Slot>, b: nat, es: seq<Slot>, rs: seq<Record>, dist: map<nat, nat>,
                                    m: nat, rest: seq<Slot>)
    requires EntriesOf(es, rs) && Filling(t, b, es, rs, dist, m, rest) && rest != []
    ensures m < |rs| && rest[0] == es[m] && EntryOf(es[m], rs, m) && rest[1..] == InOrder(es[m + 1..], b)
    ensures es[m].p != 0
  {
    assert m < |rs| by {
      assert es[|es|..] == [];
    }
    assert EntryOf(es[m], rs, m);
    FromOneBefore(es, m, b);
    OffsetMonotone(rs, 0, m);
  }

  /** Only distances of records in bucket `b` have been added. */
  ghost predicate AddsBucket(dist: map<nat, nat>, more: map<nat, nat>, rs: seq<Record>, b: nat) {
    forall i :: i in dist && !(i < |rs| && InBucket(rs, i, b)) ==> i in more && more[i] == dist[i]
  }

  lemma FillStep(t: seq<Slot>, b: nat, es: seq<Slot>, rs: seq<Record>, dist0: map<nat, nat>, dist: map<nat, nat>,
                 m: nat, rest: seq<Slot>, at: nat, d: nat)
    returns (next: nat, more: map<nat, nat>)
    requires AddsBucket(dist0, dist, rs, b)
    requires EntriesOf(es, rs) && Filling(t, b, es, rs, dist, m, rest) && rest != [] && t != []
    requires FirstFree(t, StartOf(rest[0].h, |t|), d) && at == Probe(StartOf(rest[0].h, |t|), d, |t|)
    ensures Filling(t[at := rest[0]], b, es, rs, more, next, rest[1..])
    ensures AddsBucket(dist0, more, rs, b) && Taken(t[at := rest[0]]) == Taken(t) + 1
  {
    FillNext(t, b, es, rs, dist, m, rest);
    InsertKeeps(t, b, rs, m, dist, d, at, rest[0]);
    TakenOneMore(t, at, rest[0]);
    more := dist[m := d];
    next := PassOthers(t[at := rest[0]], b, rs, m + 1, more, es);
  }

  lemma FillEnd(t: seq<Slot>, b: nat, es: seq<Slot>, rs: seq<Record>, dist: map<nat, nat>, m: nat)
    requires EntriesOf(es, rs) && Filling(t, b, es, rs, dist, m, [])
    ensures TableHolds(t, b, rs, |rs|, dist)
  {
    if m < |rs| {
      assert EntryOf(es[m], rs, m);
      FromOneBefore(es, m, b);
    }
  }

  /** Lines 204-208: one entry goes into the table. */
  method InsertEntry(hash: array<Slot>, len: nat, e: Slot, ghost b: nat, ghost es: seq<Slot>, ghost rs: seq<Record>,
                     ghost dist0: map<nat, nat>, ghost dist: map<nat, nat>, ghost m: nat, ghost rest: seq<Slot>)
    returns (ghost next: nat, ghost more: map<nat, nat>)
    requires EntriesOf(es, rs) && len <= hash.Length && Filling(hash[..len], b, es, rs, dist, m, rest)
    requires rest != [] && rest[0] == e && AddsBucket(dist0, dist, rs, b) && Taken(hash[..len]) < len
    modifies hash
    ensures Filling(hash[..len], b, es, rs, more, next, rest[1..])
    ensures AddsBucket(dist0, more, rs, b) && Taken(hash[..len]) == Taken(old(hash[..len])) + 1
  {
    ghost var before := hash[..len];
    var at, d := FirstFreeSlot(hash, len, e.h);
    next, more := FillStep(before, b, es, rs, dist0, dist, m, rest, at, d);
    hash[at] := e;
    assert hash[..len] == before[at := e];
  }

  /** Lines 199-200. */
  method Clear(hash: array<Slot>, len: nat)
    requires len <= hash.Length
    modifies hash
    ensures Taken(hash[..len]) == 0 && forall s :: 0 <= s < len ==> hash[..len][s].p == 0
  {
    for u := 0 to len
      invariant forall s :: 0 <= s < u ==> hash[s] == EMPTY
    {
      hash[u] := EMPTY;
    }
    TakenNone(hash[..len]);
  }

  /** Lines 199-209: the table of one bucket, from its part of the sorted entries. */
  method FillTable(hash: array<Slot>, part: seq<Slot>, ghost b: nat, ghost es: seq<Slot>, ghost rs: seq<Record>,
                   ghost dist: map<nat, nat>)
    returns (ghost more: map<nat, nat>)
    requires EntriesOf(es, rs) && part == InOrder(es, b) && 2 * |part| <= hash.Length
    modifies hash
    ensures TableHolds(hash[..2 * |part|], b, rs, |rs|, more) && AddsBucket(dist, more, rs, b)
  {
    var len := 2 * |part|;
    Clear(hash, len);
    more := dist;
    ghost var m := FillStart(hash[..len], b, es, rs, more);
    for u := 0 to |part|
      invariant Filling(hash[..len], b, es, rs, more, m, part[u..])
      invariant Taken(hash[..len]) == u && AddsBucket(dist, more, rs, b)
    {
      m, more := InsertEntry(hash, len, part[u], b, es, rs, dist, more, m, part[u..]);
      assert part[u..][1..] == part[u + 1..];
    }
    FillEnd(hash[..len], b, es, rs, more, m);
  }

  /** Lines 196-197: two words of the header buffer. */
  method PackPair(final: array<Byte>, at: nat, u: Uint32, v: Uint32)
    requires at + 8 <= final.Length
    modifies final
    ensures final[..] == Overwritten(old(final[..]), at, Pack(u) + Pack(v))
  {
    WritesOverwrite(final[..], at, Pack(u), Pack(v));
    PackInto(final, at, u);
    PackInto(final, at + 4, v);
  }

  method PackInto(final: array<Byte>, at: nat, u: Uint32)
    requires at + 4 <= final.Length
    modifies final
    ensures final[..] == Overwritten(old(final[..]), at, Pack(u))
  {
    var s := Pack(u);
    final[at], final[at + 1], final[at + 2], final[at + 3] := s[0], s[1], s[2], s[3];
    assert s == [s[0], s[1], s[2], s[3]];
  }

  lemma WritesOverwrite(file: seq<Byte>, p: nat, a: seq<Byte>, b: seq<Byte>)
    requires p + |a| + |b| <= |file|
    ensures Overwritten(Overwritten(file, p, a), p + |a|, b) == Overwritten(file, p, a + b)
  {
    if a == [] {
      assert a + b == b;
    } else if b == [] {
      assert a + b == a;
    } else {
      var mid := Overwritten(file, p, a);
      assert mid[..p + |a|] == file[..p] + a && mid[p + |a| + |b|..] == file[p + |a| + |b|..];
    }
  }

  // ---- the tables in the file

  /** A table written before stays. */
  lemma TableStays(file: seq<Byte>, final: seq<Byte>, end: nat, ix: Index, rs: seq<Record>, b: nat,
                   file': seq<Byte>, s: seq<Byte>, final': seq<Byte>, w: seq<Byte>, more: Index, n: nat)
    requires b < n == |ix.tables| == |ix.at| && TableDone(file, final, end, ix, rs, b)
    requires file' == Overwritten(file, end, s) && final' == Overwritten(final, 8 * n, w)
    requires ix.tables <= more.tables && ix.at <= more.at && AddsBucket(ix.dist, more.dist, rs, n)
    ensures TableDone(file', final', end + |s|, more, rs, b)
  {
    var t := ix.tables[b];
    if t != [] {
      WriteKeeps(file, end, s, ix.at[b], TableBytes(t));
    }
    WriteKeeps(final, 8 * n, w, 8 * b, Pack(ix.at[b]) + Pack(|t|));
    OtherDistances(t, b, rs, ix.dist, more.dist);
  }

  /** The table just written. */
  lemma {:induction false} TableNew(file: seq<Byte>, final: seq<Byte>, end: nat, ix: Index, rs: seq<Record>, n: nat,
                                    file': seq<Byte>, t: seq<Slot>, final': seq<Byte>)
    requires n < |ix.tables| && n < |ix.at| && ix.tables[n] == t && ix.at[n] == end
    requires TableHolds(t, n, rs, |rs|, ix.dist) && End(rs) <= end < WORD && |t| < WORD
    requires file' == Overwritten(file, end, TableBytes(t))
    requires final' == Overwritten(final, 8 * n, Pack(end) + Pack(|t|))
    ensures TableDone(file', final', end + 8 * |t|, ix, rs, n)
  {
    WriteStands(final, 8 * n, Pack(end) + Pack(|t|));
    if t != [] {
      WriteStands(file, end, TableBytes(t));
    }
  }

  /** One more table at the end of the file, and its words in the header. */
  lemma TableAdded(file: seq<Byte>, final: seq<Byte>, end: nat, ix: Index, rs: seq<Record>, n: nat,
                   file': seq<Byte>, t: seq<Slot>, final': seq<Byte>, dist: map<nat, nat>)
    returns (more: Index)
    requires TablesStand(file, final, end, ix, rs, n) && End(rs) <= end < WORD && |t| < WORD
    requires TableHolds(t, n, rs, |rs|, dist) && AddsBucket(ix.dist, dist, rs, n)
    requires file' == Overwritten(file, end, TableBytes(t))
    requires final' == Overwritten(final, 8 * n, Pack(end) + Pack(|t|))
    ensures TablesStand(file', final', end + 8 * |t|, more, rs, n + 1)
    ensures more.dist == dist && more.at == ix.at + [end]
  {
    more := Index(ix.tables + [t], ix.at + [end], dist);
    var end' := end + 8 * |t|;
    forall b | 0 <= b < n
      ensures TableDone(file', final', end', more, rs, b)
    {
      assert TableDone(file, final, end, ix, rs, b);
      TableStays(file, final, end, ix, rs, b, file', TableBytes(t), final', Pack(end) + Pack(|t|), more, n);
    }
    TableNew(file, final, end, more, rs, n, file', t, final');
  }

  /** The header goes to the front, and the file is complete. */
  lemma Completed(file: seq<Byte>, final: seq<Byte>, end: nat, ix: Index, rs: seq<Record>)
    requires TablesStand(file, final, end, ix, rs, 256) && RecordsStand(file, rs) && ix.at[0] == End(rs)
    requires |final| == HEADER && |Overwritten(file, 0, final)| == end < WORD
    ensures Hashed(Overwritten(file, 0, final), rs, ix)
  {
    var file' := Overwritten(file, 0, final);
    RecordsStay(file, rs, 0, final);
    WriteStands(file, 0, final);
    forall b | 0 <= b < 256
      ensures TableStands(file', ix, b) && TableHolds(ix.tables[b], b, rs, |rs|, ix.dist)
    {
      assert TableDone(file, final, end, ix, rs, b);
      TableInFile(file, final, end, ix, rs, b);
    }
    assert TableDone(file, final, end, ix, rs, 0);
    FirstWord(file', final, End(rs), |ix.tables[0]|);
  }

  lemma FirstWord(file: seq<Byte>, final: seq<Byte>, u: Uint32, v: Uint32)
    requires StandsAt(file, 0, final) && StandsAt(final, 0, Pack(u) + Pack(v))
    ensures StandsAt(file, 0, Pack(u))
  {
    Part(final, 0, Pack(u) + Pack(v), 0, 4);
    Part(file, 0, final, 0, 4);
  }

  lemma TableInFile(file: seq<Byte>, final: seq<Byte>, end: nat, ix: Index, rs: seq<Record>, b: nat)
    requires |ix.tables| == |ix.at| == 256 && b < 256 && TableDone(file, final, end, ix, rs, b)
    requires |final| == HEADER && |Overwritten(file, 0, final)| == end
    ensures TableStands(Overwritten(file, 0, final), ix, b)
  {
    var file' := Overwritten(file, 0, final);
    var t := ix.tables[b];
    WriteStands(file, 0, final);
    Part(file', 0, final, 8 * b, 8 * b + 8);
    OffsetMonotone(rs, 0, |rs|);
    if t != [] {
      WriteKeeps(file, 0, final, ix.at[b], TableBytes(t));
      TableBytesStand(file', ix.at[b], t);
    }
  }

  /** The loop over the buckets has done the first `n`. */
  ghost predicate Progress(file: seq<Byte>, pos: nat, es: seq<Slot>, rs: seq<Record>, final: seq<Byte>, ix: Index,
                           n: nat) {
    && EntriesOf(es, rs) && RecordsStand(file, rs) && |final| == HEADER
    && pos == End(rs) + 16 * Earlier(es, n)
    && |file| == (if pos == HEADER then 0 else pos)
    && TablesStand(file, final, pos, ix, rs, n)
    && (n > 0 ==> ix.at[0] == End(rs))
  }

  lemma ProgressStep(file: seq<Byte>, pos: nat, es: seq<Slot>, rs: seq<Record>, final: seq<Byte>, ix: Index, n: nat,
                     file': seq<Byte>, final': seq<Byte>, t: seq<Slot>, dist: map<nat, nat>)
    returns (more: Index)
    requires Progress(file, pos, es, rs, final, ix, n) && pos < WORD && n < 256
    requires TableHolds(t, n, rs, |rs|, dist) && AddsBucket(ix.dist, dist, rs, n) && |t| < WORD
    requires |t| == 2 * |InOrder(es, n)|
    requires file' == Overwritten(file, pos, TableBytes(t))
    requires final' == Overwritten(final, 8 * n, Pack(pos) + Pack(|t|))
    ensures Progress(file', pos + 8 * |t|, es, rs, final', more, n + 1)
  {
    more := TableAdded(file, final, pos, ix, rs, n, file', t, final', dist);
    RecordsStay(file, rs, pos, TableBytes(t));
    OffsetMonotone(rs, 0, |rs|);
  }

  lemma ProgressStart(file: seq<Byte>, es: seq<Slot>, rs: seq<Record>, final: seq<Byte>)
    requires EntriesOf(es, rs) && RecordsStand(file, rs) && |final| == HEADER
    requires |file| == if rs == [] then 0 else End(rs)
    ensures Progress(file, End(rs), es, rs, final, Index([], [], map[]), 0)
  {
    OffsetMonotone(rs, 0, |rs|);
  }

  lemma ProgressEnd(file: seq<Byte>, pos: nat, es: seq<Slot>, rs: seq<Record>, final: seq<Byte>, ix: Index)
    requires Progress(file, pos, es, rs, final, ix, 256) && pos < WORD
    ensures |Overwritten(file, 0, final)| == pos == End(rs) + 16 * |rs|
    ensures Hashed(Overwritten(file, 0, final), rs, ix)
  {
    EarlierCountsAll(es);
    OffsetMonotone(rs, 0, |rs|);
    Completed(file, final, pos, ix, rs);
  }

  /** Each record takes eight bytes itself and sixteen in the tables: the number of
      entries that fits the file also fits the memory the tables ask for. */
  lemma FewEnough(rs: seq<Record>)
    requires End(rs) < WORD
    ensures |rs| < 0x2000_0000
    ensures End(rs) + 16 * |rs| < WORD ==> 3 * |rs| + 1 <= 0x1fff_ffff
  {
    OffsetMonotone(rs, 0, |rs|);
  }

  // ---- the writer

  /** How far `cdb_make_addend` counts: up to the first part that would pass four gigabytes. */
  function Counted(pos: nat, keylen: nat, datalen: nat): nat {
    if pos + 8 >= WORD then pos
    else if pos + 8 + keylen >= WORD then pos + 8
    else if pos + 8 + keylen + datalen >= WORD then pos + 8 + keylen
    else pos + 8 + keylen + datalen
  }

  class Maker {
    var file: seq<Byte>
    var position: nat        // of the stream
    var entries: seq<Slot>   // what the hplist chunks hold, oldest first
    var pos: Uint32

    /** `cdb_make_start` on a truncated file. */
    constructor ()
      ensures Valid([])
    {
      file, position, entries, pos := [], HEADER, [], HEADER;
    }

    /** The records `rs` have been added. */
    ghost predicate Valid(rs: seq<Record>)
      reads this
    {
      && pos == position == End(rs)
      && |file| == (if rs == [] then 0 else End(rs))
      && EntriesOf(entries, rs) && RecordsStand(file, rs)
    }

    /** `cdb_make_write`. */
    method Write(s: seq<Byte>)
      modifies this`file, this`position
      ensures file == Overwritten(old(file), old(position), s) && position == old(position) + |s|
    {
      file := Overwritten(file, position, s);
      position := position + |s|;
    }

    /** `cdb_posplus`. */
    method PosPlus(len: Uint32) returns (ok: bool)
      modifies this`pos
      ensures ok <==> old(pos) + len < WORD
      ensures pos == if ok then old(pos) + len else old(pos)
    {
      var newpos := (pos + len) % WORD;
      if newpos < len {
        return false;
      }
      pos := newpos;
      ok := true;
    }

    /** `cdb_make_addend`. */
    method AddEnd(keylen: Uint32, datalen: Uint32, h: Uint32) returns (ok: bool)
      modifies this`entries, this`pos
      ensures entries == old(entries) + [Slot(h, old(pos))]
      ensures ok <==> old(pos) + 8 + keylen + datalen < WORD
      ensures pos == Counted(old(pos), keylen, datalen)
    {
      entries := entries + [Slot(h, pos)];
      ok := PosPlus(8);
      if !ok {
        return;
      }
      ok := PosPlus(keylen);
      if !ok {
        return;
      }
      ok := PosPlus(datalen);
    }

    /** A refused record stands in the file and among the entries, but its size is
        counted in part only, and the stream is behind four gigabytes: from here on the
        positions the writer notes are not those it writes to. */
    ghost predicate HalfAdded(before: seq<Byte>, es: seq<Slot>, rs: seq<Record>, r: Record)
      requires |r.key| < WORD && |r.data| < WORD && End(rs) < WORD
      reads this
    {
      && file == Overwritten(before, End(rs), RecordBytes(r))
      && entries == es + [Slot(Hash(r.key), End(rs))]
      && pos == Counted(End(rs), |r.key|, |r.data|) < WORD <= position == End(rs + [r])
    }

    /** `cdb_make_add`: one more record, unless the file would pass four gigabytes. */
    method Add(r: Record, ghost rs: seq<Record>) returns (ok: bool)
      requires |r.key| < WORD && |r.data| < WORD && Valid(rs)
      modifies this
      ensures ok <==> End(rs + [r]) < WORD
      ensures if ok then Valid(rs + [r]) else HalfAdded(old(file), old(entries), rs, r)
    {
      ghost var before := file;
      RecordAppended(file, rs, r);
      EntryAppended(entries, rs, r);
      Write(Pack(|r.key|) + Pack(|r.data|));
      Write(r.key);
      Write(r.data);
      var lengths := Pack(|r.key|) + Pack(|r.data|);
      WritesJoin(before, End(rs), lengths, r.key);
      WritesJoin(before, End(rs), lengths + r.key, r.data);
      assert lengths + r.key + r.data == RecordBytes(r);
      ok := AddEnd(|r.key|, |r.data|, Hash(r.key));
    }

    /** Lines 211-218: the table in `hash` goes to the end of the file. */
    method WriteTable(hash: array<Slot>, len: nat) returns (ok: bool)
      requires len <= hash.Length && position == pos && |file| <= pos
      modifies this`file, this`position, this`pos
      ensures ok <==> old(pos) + 8 * len < WORD
      ensures ok ==> pos == position == old(pos) + 8 * len
      ensures ok ==> file == Overwritten(old(file), old(pos), TableBytes(hash[..len]))
    {
      for u := 0 to len
        invariant pos == position == old(pos) + 8 * u
        invariant file == Overwritten(old(file), old(pos), TableBytes(hash[..u]))
      {
        WritesJoin(old(file), old(pos), TableBytes(hash[..u]), SlotBytes(hash[u]));
        assert hash[..u + 1][..u] == hash[..u];
        Write(Pack(hash[u].h) + Pack(hash[u].p));
        ok := PosPlus(8);
        if !ok {
          return;
        }
      }
      ok := true;
    }

    /** Lines 193-218: one pass of the loop over the buckets. */
    method Bucketful(b: nat, part: seq<Slot>, final: array<Byte>, hash: array<Slot>, ghost rs: seq<Record>,
                     ghost ix: Index)
      returns (ok: bool, ghost more: Index)
      requires b < 256 && position == pos && Progress(file, pos, entries, rs, final[..], ix, b)
      requires part == InOrder(entries, b) && 2 * |part| <= hash.Length && 2 * |part| < WORD
      modifies this`file, this`position, this`pos, final, hash
      ensures ok <==> End(rs) + 16 * Earlier(entries, b + 1) < WORD
      ensures ok ==> position == pos && Progress(file, pos, entries, rs, final[..], more, b + 1)
    {
      ghost var file0, final0, pos0 := file, final[..], pos;
      var len := 2 * |part|;
      PackPair(final, 8 * b, pos, len);
      ghost var dist := FillTable(hash, part, b, entries, rs, ix.dist);
      ok := WriteTable(hash, len);
      more := ix;
      if ok {
        more := ProgressStep(file0, pos0, entries, rs, final0, ix, b, file, final[..], hash[..len], dist);
      }
    }

    /** Lines 150-190: count, allocate, sort. Without memory for the tables there is no result. */
    method Arrange() returns (ok: bool, count: array<int>, start: array<int>, split: array<Slot>, hash: array<Slot>)
      requires |entries| < 0x2000_0000
      ensures fresh(count) && fresh(start) && fresh(split) && fresh(hash) && split != hash
      ensures count.Length == start.Length == 256 && split.Length == |entries|
      ensures 3 * |entries| + 1 <= 0x1fff_ffff ==> ok
      ensures ok ==>
                forall b :: 0 <= b < 256 ==>
                    Arranged(split[..], entries, b, start[b], count[b]) && 2 * count[b] <= hash.Length
    {
      count := CountEntries(entries);
      EarlierCountsAll(entries);
      forall b | 0 <= b < 256
        ensures 0 <= count[b] <= |entries|
      {
        EarlierMonotone(entries, b + 1, 256);
      }
      var memsize := MemSize(count, |entries|);
      start := BucketEnds(entries, count);
      split := new Slot[|entries|](_ => EMPTY);
      hash := new Slot[memsize - |entries|](_ => EMPTY);
      ok := memsize <= 0xffff_ffff / 8;
      if ok {
        SortByBucket(entries, start, split);
        forall b | 0 <= b < 256
          ensures Arranged(split[..], entries, b, start[b], count[b])
        {
          SortedIsArranged(split[..], entries, b, start[b], count[b]);
        }
      }
    }

    /** Lines 192-219. */
    method Tables(count: array<int>, start: array<int>, split: array<Slot>, hash: array<Slot>, final: array<Byte>,
                  ghost rs: seq<Record>)
      returns (ok: bool, ghost ix: Index)
      requires split != hash && count.Length == start.Length == 256 && |entries| == |rs| < 0x2000_0000
      requires position == pos && Progress(file, pos, entries, rs, final[..], Index([], [], map[]), 0)
      requires forall b :: 0 <= b < 256 ==>
                 Arranged(split[..], entries, b, start[b], count[b]) && 2 * count[b] <= hash.Length
      modifies this`file, this`position, this`pos, final, hash
      ensures ok <==> End(rs) + 16 * |rs| < WORD
      ensures ok ==> position == pos && Progress(file, pos, entries, rs, final[..], ix, 256)
    {
      EarlierCountsAll(entries);
      ix := Index([], [], map[]);
      for i := 0 to 256
        invariant position == pos && Progress(file, pos, entries, rs, final[..], ix, i)
      {
        var part := split[start[i]..start[i] + count[i]];
        ok, ix := Bucketful(i, part, final, hash, rs, ix);
        if !ok {
          EarlierMonotone(entries, i + 1, 256);
          return;
        }
      }
      ok := true;
    }

    /** `cdb_make_finish`: the tables behind the records, then the header. It fails
        exactly when the file would pass four gigabytes. */
    method Finish(ghost rs: seq<Record>) returns (ok: bool, ghost ix: Index)
      requires Valid(rs)
      modifies this
      ensures ok <==> End(rs) + 16 * |rs| < WORD
      ensures ok ==> |file| == End(rs) + 16 * |rs| && Hashed(file, rs, ix)
    {
      ix := Index([], [], map[]);
      FewEnough(rs);
      var count, start, split, hash;
      ok, count, start, split, hash := Arrange();
      if !ok {
        return;
      }
      var final := new Byte[HEADER](_ => 0);
      ProgressStart(file, entries, rs, final[..]);
      ok, ix := Tables(count, start, split, hash, final, rs);
      if !ok {
        return;
      }
      ProgressEnd(file, pos, entries, rs, final[..], ix);
      position := 0;
      Write(final[..]);
    }
  }
}
