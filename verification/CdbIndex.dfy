/** What the hash tables of a cdb file guarantee to a search. */
module CdbIndex {
  import opened CdbFormat

  /** Record `i` stands in table `t`, `dist[i]` slots behind its start, and no
      slot on the way is free: a search does not stop short of it. */
  ghost predicate Placed(t: seq<Slot>, rs: seq<Record>, i: nat, dist: map<nat, nat>)
    requires i < |rs|
  {
    && i in dist && dist[i] < |t|
    && Offset(rs, i) < WORD
    && (var start := StartOf(Hash(rs[i].key), |t|);
        && t[Probe(start, dist[i], |t|)] == Slot(Hash(rs[i].key), Offset(rs, i))
        && forall d :: 0 <= d < dist[i] ==> t[Probe(start, d, |t|)].p != 0)
  }

  predicate InBucket(rs: seq<Record>, i: nat, b: nat)
    requires i < |rs|
  {
    Bucket(Hash(rs[i].key)) == b
  }

  /** Slot `s` holds a record of the first `n`. */
  ghost predicate Occupied(t: seq<Slot>, b: nat, rs: seq<Record>, n: nat, dist: map<nat, nat>, s: nat)
    requires n <= |rs|
  {
    exists i :: 0 <= i < n && InBucket(rs, i, b) && Placed(t, rs, i, dist)
                && s == Probe(StartOf(Hash(rs[i].key), |t|), dist[i], |t|)
  }

  /** Table `b` holds those of the first `n` records that belong to its bucket and
      nothing else, and records with equal hash values in their order. */
  ghost predicate TableHolds(t: seq<Slot>, b: nat, rs: seq<Record>, n: nat, dist: map<nat, nat>)
    requires n <= |rs|
  {
    && (forall i :: 0 <= i < n && InBucket(rs, i, b) ==> Placed(t, rs, i, dist))
    && (forall s :: 0 <= s < |t| && t[s].p != 0 ==> Occupied(t, b, rs, n, dist, s))
    && Ascending(b, rs, n, dist)
  }

  /** Of records with equal hash values the earlier lies nearer to the start. */
  ghost predicate Ascending(b: nat, rs: seq<Record>, n: nat, dist: map<nat, nat>)
    requires n <= |rs|
  {
    forall i, j :: 0 <= i < j < n && InBucket(rs, i, b) && Hash(rs[i].key) == Hash(rs[j].key) ==>
      i in dist && j in dist && dist[i] < dist[j]
  }

  lemma ProbeInjective(start: nat, d: nat, e: nat, len: nat)
    requires start < len && d < len && e < len
    ensures Probe(start, d, len) == Probe(start, e, len) <==> d == e
  {
  }

  lemma {:induction false} OffsetInjective(rs: seq<Record>, i: nat, j: nat)
    requires i <= |rs| && j <= |rs| && Offset(rs, i) == Offset(rs, j)
    ensures i == j
  {
    if i < j {
      OffsetMonotone(rs, i, j);
    } else {
      OffsetMonotone(rs, j, i);
    }
  }

  /** A record with the key shows where its distance says. */
  lemma {:induction false} MatchShows(t: seq<Slot>, b: nat, rs: seq<Record>, dist: map<nat, nat>, key: seq<Byte>,
                                      j: nat)
    requires TableHolds(t, b, rs, |rs|, dist) && b == Bucket(Hash(key))
    requires j < |rs| && rs[j].key == key
    ensures Placed(t, rs, j, dist)
    ensures t[Probe(StartOf(Hash(key), |t|), dist[j], |t|)] == Slot(Hash(key), Offset(rs, j))
  {
    assert InBucket(rs, j, b);
  }

  /** A free slot: no record with the key lies here or further on. */
  lemma FreeSlotEnds(t: seq<Slot>, b: nat, rs: seq<Record>, dist: map<nat, nat>, key: seq<Byte>, d: nat, j: nat)
    requires TableHolds(t, b, rs, |rs|, dist) && b == Bucket(Hash(key)) && d < |t|
    requires t[Probe(StartOf(Hash(key), |t|), d, |t|)].p == 0
    requires j < |rs| && rs[j].key == key
    ensures j in dist && dist[j] < d
  {
    MatchShows(t, b, rs, dist, key, j);
    OffsetMonotone(rs, 0, j);
  }

  /** A slot with the key's hash value is that of a record at this distance. */
  lemma TakenSlotNames(t: seq<Slot>, b: nat, rs: seq<Record>, dist: map<nat, nat>, key: seq<Byte>, d: nat)
    returns (i: nat)
    requires TableHolds(t, b, rs, |rs|, dist) && b == Bucket(Hash(key)) && d < |t|
    requires var s := t[Probe(StartOf(Hash(key), |t|), d, |t|)]; s.p != 0 && s.h == Hash(key)
    ensures i < |rs| && t[Probe(StartOf(Hash(key), |t|), d, |t|)].p == Offset(rs, i)
    ensures i in dist && dist[i] == d
  {
    var at := Probe(StartOf(Hash(key), |t|), d, |t|);
    assert Occupied(t, b, rs, |rs|, dist, at);
    i :| 0 <= i < |rs| && InBucket(rs, i, b) && Placed(t, rs, i, dist)
         && at == Probe(StartOf(Hash(rs[i].key), |t|), dist[i], |t|);
    assert t[at] == Slot(Hash(rs[i].key), Offset(rs, i));
    ProbeInjective(StartOf(Hash(key), |t|), d, dist[i], |t|);
  }

  /** The tables, where they stand in the file, and the distances. */
  datatype Index = Index(tables: seq<seq<Slot>>, at: seq<nat>, dist: map<nat, nat>)

  ghost predicate SlotsStandAt(file: seq<Byte>, at: nat, t: seq<Slot>) {
    && at + 8 * |t| <= |file|
    && forall s :: 0 <= s < |t| ==> StandsAt(file, at + 8 * s, SlotBytes(t[s]))
  }

  function TableBytes(t: seq<Slot>): (s: seq<Byte>)
    ensures |s| == 8 * |t|
  {
    if t == [] then [] else TableBytes(t[..|t| - 1]) + SlotBytes(t[|t| - 1])
  }

  lemma {:induction false} SlotInTable(t: seq<Slot>, i: nat)
    requires i < |t|
    ensures TableBytes(t)[8 * i..8 * i + 8] == SlotBytes(t[i])
  {
    if i < |t| - 1 {
      SlotInTable(t[..|t| - 1], i);
    }
  }

  /** The bytes of a table put each slot in its place. */
  lemma {:induction false} TableBytesStand(file: seq<Byte>, at: nat, t: seq<Slot>)
    requires StandsAt(file, at, TableBytes(t))
    ensures SlotsStandAt(file, at, t)
  {
    forall i | 0 <= i < |t|
      ensures StandsAt(file, at + 8 * i, SlotBytes(t[i]))
    {
      SlotInTable(t, i);
      Part(file, at, TableBytes(t), 8 * i, 8 * i + 8);
    }
  }

  /** A complete file: records, table pointers, tables. */
  ghost predicate Hashed(file: seq<Byte>, rs: seq<Record>, ix: Index) {
    && Holds(file, rs)
    && |file| < WORD
    && |ix.tables| == |ix.at| == 256
    && (forall b :: 0 <= b < 256 ==> TableStands(file, ix, b))
    && (forall b :: 0 <= b < 256 ==> TableHolds(ix.tables[b], b, rs, |rs|, ix.dist))
  }

  /** The bytes of table `b` and of the pointer to it. */
  ghost predicate TableStands(file: seq<Byte>, ix: Index, b: nat)
    requires |ix.tables| == |ix.at| == 256 && b < 256
  {
    && ix.at[b] < WORD && |ix.tables[b]| < WORD
    && StandsAt(file, 8 * b, Pack(ix.at[b]) + Pack(|ix.tables[b]|))
    && SlotsStandAt(file, ix.at[b], ix.tables[b])
  }

  /** Two words that stand side by side, unpacked. */
  lemma WordPair(file: seq<Byte>, at: nat, u: Uint32, v: Uint32)
    requires StandsAt(file, at, Pack(u) + Pack(v))
    ensures at + 8 <= |file| && Unpack(file[at..at + 4]) == u && Unpack(file[at + 4..at + 8]) == v
  {
    var bytes := Pack(u) + Pack(v);
    assert bytes[0..4] == Pack(u) && bytes[4..8] == Pack(v);
    Part(file, at, bytes, 0, 4);
    Part(file, at, bytes, 4, 8);
    UnpackPack(u);
    UnpackPack(v);
  }

  /** The first record from `i` on with the key. */
  function NextMatch(rs: seq<Record>, key: seq<Byte>, i: nat): (m: nat)
    requires i <= |rs|
    ensures i <= m <= |rs|
    ensures m < |rs| ==> rs[m].key == key
    ensures forall j :: i <= j < m ==> rs[j].key != key
    decreases |rs| - i
  {
    if i == |rs| || rs[i].key == key then i else NextMatch(rs, key, i + 1)
  }

  /** The `skip`-th record with the key, counting from zero; `|rs|` if there are not that many. */
  function NthMatch(rs: seq<Record>, key: seq<Byte>, skip: nat): (m: nat)
    ensures m <= |rs|
    ensures m < |rs| ==> rs[m].key == key
  {
    if skip == 0 then NextMatch(rs, key, 0)
    else
      var m := NthMatch(rs, key, skip - 1);
      if m == |rs| then m else NextMatch(rs, key, m + 1)
  }

  /** Once there is no such record, there is none with a greater count. */
  lemma {:induction false} NoMoreMatches(rs: seq<Record>, key: seq<Byte>, k: nat, skip: nat)
    requires k <= skip && NthMatch(rs, key, k) == |rs|
    ensures NthMatch(rs, key, skip) == |rs|
    decreases skip
  {
    if k < skip {
      NoMoreMatches(rs, key, k, skip - 1);
    }
  }

  /** The data of the records with the key, in the order in which they were added. */
  function Values(rs: seq<Record>, key: seq<Byte>): seq<seq<Byte>> {
    if rs == [] then []
    else
      var r := rs[|rs| - 1];
      Values(rs[..|rs| - 1], key) + if r.key == key then [r.data] else []
  }

  lemma {:induction false} ValuesPrefix(rs: seq<Record>, key: seq<Byte>, i: nat)
    requires i <= |rs|
    ensures Values(rs[..i], key) <= Values(rs, key)
  {
    if i < |rs| {
      ValuesPrefix(rs[..|rs| - 1], key, i);
      assert rs[..|rs| - 1][..i] == rs[..i];
    } else {
      assert rs[..i] == rs;
    }
  }

  /** Records with other keys add no value. */
  lemma {:induction false} ValuesStretch(rs: seq<Record>, key: seq<Byte>, i: nat, j: nat)
    requires i <= j <= |rs| && forall k :: i <= k < j ==> rs[k].key != key
    ensures Values(rs[..j], key) == Values(rs[..i], key)
    decreases j
  {
    if i < j {
      ValuesStretch(rs, key, i, j - 1);
      assert rs[..j][..j - 1] == rs[..j - 1];
    }
  }

  lemma {:induction false} ValuesOfMatch(rs: seq<Record>, key: seq<Byte>, m: nat)
    requires m < |rs| && rs[m].key == key
    ensures Values(rs[..m + 1], key) == Values(rs[..m], key) + [rs[m].data]
  {
    assert rs[..m + 1][..m] == rs[..m];
  }

  /** Before the `skip`-th record with the key there are `skip` values. */
  lemma {:induction false} ValuesBefore(rs: seq<Record>, key: seq<Byte>, skip: nat)
    ensures var m := NthMatch(rs, key, skip);
            if m < |rs| then |Values(rs[..m], key)| == skip else |Values(rs[..m], key)| <= skip
  {
    var m := NthMatch(rs, key, skip);
    if skip == 0 {
      ValuesStretch(rs, key, 0, m);
    } else {
      var before := NthMatch(rs, key, skip - 1);
      ValuesBefore(rs, key, skip - 1);
      if before < |rs| {
        ValuesOfMatch(rs, key, before);
        ValuesStretch(rs, key, before + 1, m);
      }
    }
  }

  /** The `skip`-th record with the key has the `skip`-th value. */
  lemma {:induction false} MatchIsValue(rs: seq<Record>, key: seq<Byte>, skip: nat)
    ensures var m, values := NthMatch(rs, key, skip), Values(rs, key);
            if m < |rs| then skip < |values| && rs[m].data == values[skip] else |values| <= skip
  {
    ValuesBefore(rs, key, skip);
    var m := NthMatch(rs, key, skip);
    if m < |rs| {
      ValuesOfMatch(rs, key, m);
      ValuesPrefix(rs, key, m + 1);
    } else {
      assert rs[..m] == rs;
    }
  }

  // ---- one step of a search

  /** A search has dealt with the first `from` records and with the slots up to
      distance `d`: of the records with the key those are the same. */
  ghost predicate Split(rs: seq<Record>, dist: map<nat, nat>, key: seq<Byte>, from: nat, d: nat) {
    && from <= |rs|
    && forall j :: 0 <= j < |rs| && rs[j].key == key ==> j in dist && (j < from <==> dist[j] < d)
  }

  lemma {:induction false} SplitAtStart(t: seq<Slot>, b: nat, rs: seq<Record>, dist: map<nat, nat>, key: seq<Byte>)
    requires TableHolds(t, b, rs, |rs|, dist) && b == Bucket(Hash(key))
    ensures Split(rs, dist, key, 0, 0)
    ensures |t| == 0 ==> NextMatch(rs, key, 0) == |rs|
  {
    forall j | 0 <= j < |rs| && rs[j].key == key
      ensures j in dist && |t| > 0
    {
      assert InBucket(rs, j, b);
      assert Placed(t, rs, j, dist);
    }
  }

  lemma {:induction false} StopAtFree(t: seq<Slot>, b: nat, rs: seq<Record>, dist: map<nat, nat>, key: seq<Byte>,
                                      from: nat, d: nat)
    requires TableHolds(t, b, rs, |rs|, dist) && b == Bucket(Hash(key)) && d < |t|
    requires Split(rs, dist, key, from, d)
    requires t[Probe(StartOf(Hash(key), |t|), d, |t|)].p == 0
    ensures NextMatch(rs, key, from) == |rs|
  {
    var m := NextMatch(rs, key, from);
    if m < |rs| {
      FreeSlotEnds(t, b, rs, dist, key, d, m);
    }
  }

  lemma {:induction false} StopAtEnd(t: seq<Slot>, b: nat, rs: seq<Record>, dist: map<nat, nat>, key: seq<Byte>,
                                     from: nat)
    requires TableHolds(t, b, rs, |rs|, dist) && b == Bucket(Hash(key))
    requires Split(rs, dist, key, from, |t|)
    ensures NextMatch(rs, key, from) == |rs|
  {
    var m := NextMatch(rs, key, from);
    if m < |rs| {
      MatchShows(t, b, rs, dist, key, m);
    }
  }

  lemma PassForeign(t: seq<Slot>, b: nat, rs: seq<Record>, dist: map<nat, nat>, key: seq<Byte>, from: nat, d: nat)
    requires TableHolds(t, b, rs, |rs|, dist) && b == Bucket(Hash(key)) && d < |t|
    requires Split(rs, dist, key, from, d)
    requires t[Probe(StartOf(Hash(key), |t|), d, |t|)].h != Hash(key)
    ensures Split(rs, dist, key, from, d + 1)
  {
    forall j | 0 <= j < |rs| && rs[j].key == key
      ensures j in dist && dist[j] != d
    {
      MatchShows(t, b, rs, dist, key, j);
    }
  }

  lemma {:induction false} PassOtherKey(t: seq<Slot>, b: nat, rs: seq<Record>, dist: map<nat, nat>, key: seq<Byte>,
                                        from: nat, d: nat, i: nat)
    requires TableHolds(t, b, rs, |rs|, dist) && b == Bucket(Hash(key)) && d < |t|
    requires Split(rs, dist, key, from, d)
    requires i < |rs| && t[Probe(StartOf(Hash(key), |t|), d, |t|)].p == Offset(rs, i) && rs[i].key != key
    ensures Split(rs, dist, key, from, d + 1)
  {
    forall j | 0 <= j < |rs| && rs[j].key == key
      ensures j in dist && dist[j] != d
    {
      MatchShows(t, b, rs, dist, key, j);
      if dist[j] == d {
        OffsetInjective(rs, i, j);
      }
    }
  }

  lemma {:induction false} Hit(t: seq<Slot>, b: nat, rs: seq<Record>, dist: map<nat, nat>, key: seq<Byte>,
                               from: nat, d: nat, i: nat)
    requires TableHolds(t, b, rs, |rs|, dist) && b == Bucket(Hash(key)) && d < |t|
    requires Split(rs, dist, key, from, d)
    requires i < |rs| && i in dist && dist[i] == d && rs[i].key == key
    ensures NextMatch(rs, key, from) == i
    ensures Split(rs, dist, key, i + 1, d + 1)
  {
    forall j | 0 <= j < |rs| && rs[j].key == key
      ensures j in dist
      ensures j < i ==> dist[j] < d
      ensures j > i ==> dist[j] > d
    {
      assert InBucket(rs, j, b) && InBucket(rs, i, b);
    }
  }
}
