/** date/php_date.c, `timezone_transitions_get`: the part of a zone's transition
    table that covers a range of timestamps. */
module TimezoneTransitions {
  import opened CInt

  const LONG_MIN := -LONG_MAX - 1

  datatype LocalType = LocalType(offset: int, isdst: bool, abbr: string)

  /** `trans[i]` is the time from which `types[transIdx[i]]` applies. */
  datatype Zone = Zone(trans: seq<int>, transIdx: seq<nat>, types: seq<LocalType>)

  datatype Element = Element(ts: int, info: LocalType)

  predicate WellFormed(z: Zone) {
    && |z.transIdx| == |z.trans|
    && |z.types| > 0
    && forall i :: 0 <= i < |z.transIdx| ==> z.transIdx[i] < |z.types|
  }

  /** Transition times ascend strictly (section 3.2 of RFC 8536). */
  predicate Ascending(z: Zone) {
    forall i, j :: 0 <= i < j < |z.trans| ==> z.trans[i] < z.trans[j]
  }

  function TypeOf(z: Zone, i: nat): LocalType
    requires WellFormed(z) && i < |z.trans|
  {
    z.types[z.transIdx[i]]
  }

  /** The transition in force at time `t` is the last one that is not later. */
  predicate InForce(z: Zone, t: int, i: nat) {
    && i < |z.trans|
    && z.trans[i] <= t
    && (i + 1 < |z.trans| ==> t < z.trans[i + 1])
  }

  /** Number of leading transitions up to the first one after `begin`. */
  function FirstAfter(z: Zone, begin: int, i: nat := 0): (n: nat)
    requires i <= |z.trans|
    ensures i <= n <= |z.trans|
    ensures n < |z.trans| ==> z.trans[n] > begin
    ensures forall k :: i <= k < n ==> z.trans[k] <= begin
    decreases |z.trans| - i
  {
    if i == |z.trans| || z.trans[i] > begin then i else FirstAfter(z, begin, i + 1)
  }

  /** Transitions `from`, ..., `n - 1` that are earlier than `end`. */
  function Until(z: Zone, from: nat, n: nat, end: int): seq<Element>
    requires WellFormed(z) && n <= |z.trans|
  {
    if n <= from then []
    else Until(z, from, n - 1, end)
         + (if z.trans[n - 1] < end then [Element(z.trans[n - 1], TypeOf(z, n - 1))] else [])
  }

  function Start(z: Zone, begin: int): nat {
    if begin == LONG_MIN then 0 else FirstAfter(z, begin)
  }

  /** One element for the beginning of the range, then the transitions inside it. */
  function Listing(z: Zone, begin: int, end: int): seq<Element>
    requires WellFormed(z)
  {
    var from := Start(z, begin);
    [Element(begin, if from == 0 then z.types[0] else TypeOf(z, from - 1))] + Until(z, from, |z.trans|, end)
  }

  method TransitionsGet(z: Zone, timestampBegin: Int64, timestampEnd: Int64) returns (r: seq<Element>)
    requires WellFormed(z)
    ensures r == Listing(z, timestampBegin, timestampEnd)
  {
    r := [];
    var begin, found := 0, false;
    if timestampBegin == LONG_MIN {
      r := r + [Element(timestampBegin, z.types[0])];
      found := true;
    } else if |z.trans| > 0 {
      while true
        invariant 0 <= begin < |z.trans|
        invariant r == [] && !found
        invariant FirstAfter(z, timestampBegin) == FirstAfter(z, timestampBegin, begin)
        decreases |z.trans| - begin
      {
        if z.trans[begin] > timestampBegin {
          if begin > 0 {
            r := r + [Element(timestampBegin, TypeOf(z, begin - 1))];
          } else {
            r := r + [Element(timestampBegin, z.types[0])];
          }
          found := true;
          break;
        }
        begin := begin + 1;
        if !(begin < |z.trans|) {
          break;
        }
      }
    }

    if !found {
      if |z.trans| > 0 {
        r := r + [Element(timestampBegin, TypeOf(z, |z.trans| - 1))];
      } else {
        r := r + [Element(timestampBegin, z.types[0])];
      }
      assert Until(z, |z.trans|, |z.trans|, timestampEnd) == [];
    } else {
      ghost var head := r;
      for i := begin to |z.trans|
        invariant r == head + Until(z, begin, i, timestampEnd)
      {
        if z.trans[i] < timestampEnd {
          r := r + [Element(z.trans[i], TypeOf(z, i))];
        }
      }
    }
  }

  /** What a reader of the listing takes to apply at `t`: the last element not later. */
  function ReadOff(r: seq<Element>, t: int): LocalType
    requires r != [] && r[0].ts <= t
  {
    if r[|r| - 1].ts <= t then r[|r| - 1].info else ReadOff(r[..|r| - 1], t)
  }

  lemma {:induction false} ReadOffPrefix(z: Zone, begin: int, end: int, t: int, n: nat, i: nat)
    requires WellFormed(z) && Ascending(z) && LONG_MIN <= begin <= t < end
    requires Start(z, begin) <= n <= |z.trans|
    requires i <= n && (i < n ==> t < z.trans[i]) && (i > 0 ==> z.trans[i - 1] <= t)
    ensures var head := Listing(z, begin, end)[..1];
            ReadOff(head + Until(z, Start(z, begin), n, end), t) == if i == 0 then z.types[0] else TypeOf(z, i - 1)
    decreases n
  {
    var from := Start(z, begin);
    var head := Listing(z, begin, end)[..1];
    var r := head + Until(z, from, n, end);
    if n == from {
      assert r == head;
      if 0 < from {
        assert z.trans[from - 1] <= begin;
      }
    } else {
      var shorter := head + Until(z, from, n - 1, end);
      if z.trans[n - 1] < end {
        assert r[..|r| - 1] == shorter;
      } else {
        assert r == shorter;
      }
      if i < n {
        ReadOffPrefix(z, begin, end, t, n - 1, i);
      }
    }
  }

  /** Throughout the range the listing describes the same local time as the
      whole table: the type in force, or the first type before any transition. */
  lemma {:induction false} ListingIsFaithful(z: Zone, begin: int, end: int, t: int)
    requires WellFormed(z) && Ascending(z) && LONG_MIN <= begin <= t < end
    ensures var r := Listing(z, begin, end);
            && (forall i: nat :: InForce(z, t, i) ==> ReadOff(r, t) == TypeOf(z, i))
            && ((forall i :: 0 <= i < |z.trans| ==> t < z.trans[i]) ==> ReadOff(r, t) == z.types[0])
  {
    var r := Listing(z, begin, end);
    assert r == r[..1] + Until(z, Start(z, begin), |z.trans|, end);
    forall i: nat | InForce(z, t, i)
      ensures ReadOff(r, t) == TypeOf(z, i)
    {
      ReadOffPrefix(z, begin, end, t, |z.trans|, i + 1);
    }
    if forall i :: 0 <= i < |z.trans| ==> t < z.trans[i] {
      ReadOffPrefix(z, begin, end, t, |z.trans|, 0);
    }
  }

  lemma {:induction false} UntilContents(z: Zone, from: nat, n: nat, end: int, e: Element)
    requires WellFormed(z) && n <= |z.trans|
    ensures e in Until(z, from, n, end)
            <==> exists i :: from <= i < n && z.trans[i] < end && e == Element(z.trans[i], TypeOf(z, i))
  {
    if n > from {
      UntilContents(z, from, n - 1, end, e);
    }
  }

  /** Behind its first element the listing holds exactly the transitions strictly
      between `begin` and `end`. */
  lemma ListingIsExact(z: Zone, begin: int, end: int, e: Element)
    requires WellFormed(z) && Ascending(z) && LONG_MIN <= begin
    requires forall i :: 0 <= i < |z.trans| ==> z.trans[i] > LONG_MIN
    ensures e in Listing(z, begin, end)[1..]
            <==> exists i :: 0 <= i < |z.trans| && begin < z.trans[i] < end && e == Element(z.trans[i], TypeOf(z, i))
  {
    var from := Start(z, begin);
    assert Listing(z, begin, end)[1..] == Until(z, from, |z.trans|, end);
    UntilContents(z, from, |z.trans|, end, e);
    forall i | 0 <= i < |z.trans|
      ensures begin < z.trans[i] <==> from <= i
    {
      if from <= i && begin != LONG_MIN {
        assert z.trans[from] <= z.trans[i];
      }
    }
  }

  lemma {:induction false} UntilAscends(z: Zone, from: nat, n: nat, end: int)
    requires WellFormed(z) && Ascending(z) && n <= |z.trans|
    ensures forall i :: 0 <= i < |Until(z, from, n, end)| ==> n > 0 && Until(z, from, n, end)[i].ts <= z.trans[n - 1]
    ensures forall i, j :: 0 <= i < j < |Until(z, from, n, end)| ==>
              Until(z, from, n, end)[i].ts < Until(z, from, n, end)[j].ts
  {
    if n > from {
      var u, v := Until(z, from, n, end), Until(z, from, n - 1, end);
      UntilAscends(z, from, n - 1, end);
      forall i | 0 <= i < |v|
        ensures u[i] == v[i] && v[i].ts < z.trans[n - 1]
      {
        assert n - 1 > 0 && v[i].ts <= z.trans[n - 2];
      }
      assert u == v || u == v + [Element(z.trans[n - 1], TypeOf(z, n - 1))];
    } else {
      assert Until(z, from, n, end) == [];
    }
  }

  /** The listing is in time order. */
  lemma ListingAscends(z: Zone, begin: int, end: int)
    requires WellFormed(z) && Ascending(z) && LONG_MIN <= begin
    requires forall i :: 0 <= i < |z.trans| ==> z.trans[i] > LONG_MIN
    ensures var r := Listing(z, begin, end);
            forall i, j :: 0 <= i < j < |r| ==> r[i].ts < r[j].ts
  {
    var r := Listing(z, begin, end);
    UntilAscends(z, Start(z, begin), |z.trans|, end);
    assert r[1..] == Until(z, Start(z, begin), |z.trans|, end);
    forall j | 0 < j < |r|
      ensures r[0].ts < r[j].ts
    {
      assert r[j] in r[1..];
      ListingIsExact(z, begin, end, r[j]);
    }
  }

  /** It starts at the beginning of the range, and nothing else in it lies outside. */
  lemma ListingWithinRange(z: Zone, begin: int, end: int)
    requires WellFormed(z) && Ascending(z) && LONG_MIN <= begin
    requires forall i :: 0 <= i < |z.trans| ==> z.trans[i] > LONG_MIN
    ensures var r := Listing(z, begin, end);
            |r| > 0 && r[0].ts == begin && forall i :: 0 < i < |r| ==> begin < r[i].ts < end
  {
    var r := Listing(z, begin, end);
    forall i | 0 < i < |r|
      ensures begin < r[i].ts < end
    {
      assert r[i] in r[1..];
      ListingIsExact(z, begin, end, r[i]);
    }
  }
}
