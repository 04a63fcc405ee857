/** A constant database from its creation to its use (dba/dba_cdb.c). */
module CdbDatabase {
  import opened CdbFormat
  import opened CdbIndex
  import opened Cdb
  import opened CdbMake
  import opened Options

  lemma EndOfPart(rs: seq<Record>, i: nat)
    requires i < |rs|
    ensures rs[..i] + [rs[i]] == rs[..i + 1]
    ensures 8 + |rs[i].key| + |rs[i].data| <= End(rs[..i + 1]) <= End(rs)
  {
    assert rs[..i + 1] + rs[i + 1..] == rs && rs[..i + 1][..i] + [rs[i]] == rs[..i + 1];
    OffsetPrefix(rs[..i + 1], rs[i + 1..], i + 1);
    OffsetMonotone(rs, i + 1, |rs|);
  }

  /** `dba_update_cdb` for each record on a truncated database, then `dba_close_cdb`. */
  method Store(rs: seq<Record>) returns (file: seq<Byte>, ghost ix: Index)
    requires End(rs) + 16 * |rs| < WORD
    ensures Hashed(file, rs, ix) && |file| == End(rs) + 16 * |rs|
  {
    var maker := new Maker();
    for i := 0 to |rs|
      invariant maker.Valid(rs[..i])
    {
      EndOfPart(rs, i);
      var added := maker.Add(rs[i], rs[..i]);
    }
    assert rs[..|rs|] == rs;
    var ok;
    ok, ix := maker.Finish(rs);
    file := maker.file;
  }

  /** Whatever records are stored, in files of up to four gigabytes: a traversal
      finds their keys in order, each once, as far as records start within two
      gigabytes; and every fetch and exists call made meanwhile finds the values of
      its key in the order in which they were stored, and no others. */
  method StoreAndServe(rs: seq<Record>, rounds: seq<seq<Call>>)
    returns (keys: seq<Option<seq<Byte>>>, replies: seq<seq<Reply>>)
    requires End(rs) + 16 * |rs| < WORD
    requires forall k :: 0 <= k < |rounds| ==> Callable(rounds[k])
    ensures |keys| == |rounds| + 1 && forall k :: 0 <= k <= |rounds| ==> keys[k] == KeyOf(rs, k)
    ensures |replies| == |rounds| && forall k :: 0 <= k < |rounds| ==> Served(rs, rounds[k], replies[k])
  {
    var file, ix := Store(rs);
    var reader := new Reader(file, false);
    keys, replies := reader.Traverse(rounds, rs, ix);
  }
}
