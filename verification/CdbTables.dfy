/** How cdb_make_finish fills the hash tables (dba/libcdb/cdb_make.c:150-209):
    what sorting the entries by bucket and inserting one entry keep. */
module CdbTables {
  import opened CdbFormat
  import opened CdbIndex

  // ---- entries by bucket

  /** The entries of a bucket, in order. */
  function InOrder(es: seq<Slot>, b: nat): seq<Slot> {
    if es == [] then []
    else (if Bucket(es[0].h) == b then [es[0]] else []) + InOrder(es[1..], b)
  }

  /** How many entries belong to earlier buckets. */
  function Earlier(es: seq<Slot>, b: nat): nat {
    if b == 0 then 0 else Earlier(es, b - 1) + |InOrder(es, b - 1)|
  }

  lemma {:induction false} EarlierMonotone(es: seq<Slot>, b: nat, c: nat)
    requires b <= c
    ensures Earlier(es, b) <= Earlier(es, c)
    decreases c
  {
    if b < c {
      EarlierMonotone(es, b, c - 1);
    }
  }

  lemma {:induction false} EarlierOfRest(es: seq<Slot>, b: nat)
    requires es != []
    ensures Earlier(es, b) == Earlier(es[1..], b) + if Bucket(es[0].h) < b then 1 else 0
  {
    if b > 0 {
      EarlierOfRest(es, b - 1);
    }
  }

  /** Every entry belongs to one of the 256 buckets. */
  lemma {:induction false} EarlierCountsAll(es: seq<Slot>)
    ensures Earlier(es, 256) == |es|
  {
    if es == [] {
      NoneEarlier(256);
    } else {
      EarlierOfRest(es, 256);
      EarlierCountsAll(es[1..]);
    }
  }

  lemma {:induction false} NoneEarlier(b: nat)
    ensures Earlier([], b) == 0
  {
    if b > 0 {
      NoneEarlier(b - 1);
    }
  }

  /** One entry more in front. */
  lemma {:induction false} FromOneBefore(es: seq<Slot>, i: nat, b: nat)
    requires i < |es|
    ensures InOrder(es[i..], b) == (if Bucket(es[i].h) == b then [es[i]] else []) + InOrder(es[i + 1..], b)
  {
    assert es[i..][1..] == es[i + 1..];
  }

  lemma {:induction false} FewerFromHere(es: seq<Slot>, i: nat, b: nat)
    requires i <= |es|
    ensures |InOrder(es[i..], b)| <= |InOrder(es, b)|
    decreases i
  {
    if i == 0 {
      assert es[0..] == es;
    } else {
      FewerFromHere(es, i - 1, b);
      FromOneBefore(es, i - 1, b);
    }
  }

  // ---- one table

  /** How many slots are taken. */
  function Taken(t: seq<Slot>): (n: nat)
    ensures n <= |t|
  {
    if t == [] then 0 else Taken(t[..|t| - 1]) + if t[|t| - 1].p != 0 then 1 else 0
  }

  lemma {:induction false} TakenNone(t: seq<Slot>)
    requires forall s :: 0 <= s < |t| ==> t[s].p == 0
    ensures Taken(t) == 0
  {
    if t != [] {
      TakenNone(t[..|t| - 1]);
    }
  }

  lemma {:induction false} TakenAll(t: seq<Slot>)
    requires forall s :: 0 <= s < |t| ==> t[s].p != 0
    ensures Taken(t) == |t|
  {
    if t != [] {
      TakenAll(t[..|t| - 1]);
    }
  }

  lemma {:induction false} TakenOneMore(t: seq<Slot>, s: nat, e: Slot)
    requires s < |t| && t[s].p == 0 && e.p != 0
    ensures Taken(t[s := e]) == Taken(t) + 1
  {
    var n := |t| - 1;
    if s < n {
      TakenOneMore(t[..n], s, e);
      assert t[s := e][..n] == t[..n][s := e];
    } else {
      assert t[s := e][..n] == t[..n];
    }
  }

  /** Probing reaches every slot: if all probes meet taken slots the table is full. */
  lemma {:induction false} ProbesReachAll(t: seq<Slot>, start: nat)
    requires start < |t|
    requires forall d :: 0 <= d < |t| ==> t[Probe(start, d, |t|)].p != 0
    ensures Taken(t) == |t|
  {
    forall s | 0 <= s < |t|
      ensures t[s].p != 0
    {
      assert s == Probe(start, if s >= start then s - start else s + |t| - start, |t|);
    }
    TakenAll(t);
  }

  /** Free at distance `d`, taken on the way there. */
  predicate FirstFree(t: seq<Slot>, start: nat, d: nat)
    requires start < |t|
  {
    && d < |t| && t[Probe(start, d, |t|)].p == 0
    && forall e :: 0 <= e < d ==> t[Probe(start, e, |t|)].p != 0
  }

  // ---- inserting a record

  /** An empty table holds nothing yet. */
  lemma EmptyHolds(t: seq<Slot>, b: nat, rs: seq<Record>, dist: map<nat, nat>)
    requires forall s :: 0 <= s < |t| ==> t[s].p == 0
    ensures TableHolds(t, b, rs, 0, dist)
  {
  }

  /** Records placed before stay where they are. */
  lemma StillPlaced(t: seq<Slot>, rs: seq<Record>, i: nat, dist: map<nat, nat>, n: nat, s: nat, d: nat, e: Slot)
    requires i < |rs| && Placed(t, rs, i, dist) && i != n
    requires s < |t| && t[s].p == 0 && e.p != 0
    ensures Placed(t[s := e], rs, i, dist[n := d])
  {
    OffsetMonotone(rs, 0, i);
    var start := StartOf(Hash(rs[i].key), |t|);
    assert Probe(start, dist[i], |t|) != s;
    forall k | 0 <= k < dist[i]
      ensures t[s := e][Probe(start, k, |t|)].p != 0
    {
    }
  }

  /** The entry `cdb_make_addend` keeps for record `i`. */
  predicate EntryOf(e: Slot, rs: seq<Record>, i: nat)
    requires i < |rs|
  {
    e.h == Hash(rs[i].key) && e.p == Offset(rs, i)
  }

  /** Entry `e` of record `n` goes to slot `at`, the first free one from its start. */
  ghost predicate Insertable(t: seq<Slot>, rs: seq<Record>, n: nat, d: nat, at: nat, e: Slot) {
    && n < |rs| && EntryOf(e, rs, n) && |t| > 0
    && var start := StartOf(Hash(rs[n].key), |t|);
       FirstFree(t, start, d) && at == Probe(start, d, |t|)
  }

  lemma PlacedHere(t: seq<Slot>, rs: seq<Record>, n: nat, dist: map<nat, nat>, d: nat, at: nat, e: Slot)
    requires Insertable(t, rs, n, d, at, e)
    ensures Placed(t[at := e], rs, n, dist[n := d])
  {
    var start := StartOf(Hash(rs[n].key), |t|);
    forall k | 0 <= k < d
      ensures Probe(start, k, |t|) != at
    {
      ProbeInjective(start, k, d, |t|);
    }
  }

  /** A record with the same hash value that came earlier lies nearer. */
  lemma EarlierIsNearer(t: seq<Slot>, rs: seq<Record>, i: nat, dist: map<nat, nat>, n: nat, d: nat, at: nat, e: Slot)
    requires Insertable(t, rs, n, d, at, e) && i < |rs| && Placed(t, rs, i, dist) && Hash(rs[i].key) == Hash(rs[n].key)
    ensures dist[i] < d
  {
    OffsetMonotone(rs, 0, i);
  }

  lemma StillAscending(t: seq<Slot>, b: nat, rs: seq<Record>, n: nat, dist: map<nat, nat>, d: nat, at: nat, e: Slot)
    requires Insertable(t, rs, n, d, at, e) && TableHolds(t, b, rs, n, dist)
    ensures Ascending(b, rs, n + 1, dist[n := d])
  {
    forall i | 0 <= i < n && InBucket(rs, i, b) && Hash(rs[i].key) == Hash(rs[n].key)
      ensures i in dist && dist[i] < d
    {
      EarlierIsNearer(t, rs, i, dist, n, d, at, e);
    }
  }

  /** Every taken slot of the new table is a record's. */
  lemma StillOccupied(t: seq<Slot>, b: nat, rs: seq<Record>, n: nat, dist: map<nat, nat>, d: nat, s: nat, at: nat,
                      e: Slot)
    requires n < |rs| && s < |t| && at < |t| && t[at].p == 0 && e.p != 0 && s != at
    requires Occupied(t, b, rs, n, dist, s)
    ensures Occupied(t[at := e], b, rs, n + 1, dist[n := d], s)
  {
    var i :| 0 <= i < n && InBucket(rs, i, b) && Placed(t, rs, i, dist)
             && s == Probe(StartOf(Hash(rs[i].key), |t|), dist[i], |t|);
    StillPlaced(t, rs, i, dist, n, at, d, e);
  }

  /** Inserting the next record of the bucket keeps the table right. */
  lemma InsertKeeps(t: seq<Slot>, b: nat, rs: seq<Record>, n: nat, dist: map<nat, nat>, d: nat, at: nat, e: Slot)
    requires Insertable(t, rs, n, d, at, e) && InBucket(rs, n, b) && TableHolds(t, b, rs, n, dist)
    ensures TableHolds(t[at := e], b, rs, n + 1, dist[n := d])
  {
    OffsetMonotone(rs, 0, n);
    PlacedHere(t, rs, n, dist, d, at, e);
    forall i | 0 <= i < n && InBucket(rs, i, b)
      ensures Placed(t[at := e], rs, i, dist[n := d])
    {
      StillPlaced(t, rs, i, dist, n, at, d, e);
    }
    StillAscending(t, b, rs, n, dist, d, at, e);
    forall s | 0 <= s < |t| && s != at && t[s].p != 0
      ensures Occupied(t[at := e], b, rs, n + 1, dist[n := d], s)
    {
      StillOccupied(t, b, rs, n, dist, d, s, at, e);
    }
  }

  /** A record of another bucket changes nothing. */
  lemma PassOther(t: seq<Slot>, b: nat, rs: seq<Record>, n: nat, dist: map<nat, nat>)
    requires n < |rs| && !InBucket(rs, n, b) && TableHolds(t, b, rs, n, dist)
    ensures TableHolds(t, b, rs, n + 1, dist)
  {
    forall s | 0 <= s < |t| && t[s].p != 0
      ensures Occupied(t, b, rs, n + 1, dist, s)
    {
      assert Occupied(t, b, rs, n, dist, s);
    }
  }

  /** The entries `cdb_make_addend` keeps for the records. */
  ghost predicate EntriesOf(es: seq<Slot>, rs: seq<Record>) {
    && |es| == |rs|
    && forall i :: 0 <= i < |rs| ==> EntryOf(es[i], rs, i)
  }

  /** On to the next record of the bucket. */
  lemma {:induction false} PassOthers(t: seq<Slot>, b: nat, rs: seq<Record>, n: nat, dist: map<nat, nat>, es: seq<Slot>)
    returns (m: nat)
    requires EntriesOf(es, rs) && n <= |rs| && TableHolds(t, b, rs, n, dist)
    ensures n <= m <= |rs| && TableHolds(t, b, rs, m, dist) && InOrder(es[m..], b) == InOrder(es[n..], b)
    ensures m < |rs| ==> InBucket(rs, m, b)
    decreases |rs| - n
  {
    m := n;
    if n < |rs| {
      assert EntryOf(es[n], rs, n);
      if !InBucket(rs, n, b) {
        PassOther(t, b, rs, n, dist);
        FromOneBefore(es, n, b);
        m := PassOthers(t, b, rs, n + 1, dist, es);
      }
    }
  }

  /** The distances of other buckets do not matter. */
  lemma OtherDistances(t: seq<Slot>, b: nat, rs: seq<Record>, dist: map<nat, nat>, more: map<nat, nat>)
    requires TableHolds(t, b, rs, |rs|, dist)
    requires forall i :: 0 <= i < |rs| && InBucket(rs, i, b) && i in dist ==> i in more && more[i] == dist[i]
    ensures TableHolds(t, b, rs, |rs|, more)
  {
    forall i | 0 <= i < |rs| && InBucket(rs, i, b)
      ensures Placed(t, rs, i, more)
    {
      assert Placed(t, rs, i, dist);
    }
    forall s | 0 <= s < |t| && t[s].p != 0
      ensures Occupied(t, b, rs, |rs|, more, s)
    {
      assert Occupied(t, b, rs, |rs|, dist, s);
    }
  }
}
