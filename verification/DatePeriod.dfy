/** date/php_date.c: the iterator of `DatePeriod`. Time is abstract: `step`
    applies the interval once, `sse` is the timestamp the end test compares. */
module DatePeriod {
  import opened CInt
  import opened Options

  /** Storing a `long` in an `int` keeps its low 32 bits. */
  function ToInt(x: int): Int32 {
    (x + INT_MAX + 1) % (2 * (INT_MAX + 1)) - (INT_MAX + 1)
  }

  /** `step` applied `n` times. */
  function Iterate<T>(step: T -> T, x: T, n: nat): T {
    if n == 0 then x else step(Iterate(step, x, n - 1))
  }

  /** Consecutive dates, the first one `skip` steps after the start. */
  function Run<T>(step: T -> T, start: T, skip: nat, count: nat): (r: seq<T>)
    ensures |r| == count
    ensures forall i :: 0 <= i < count ==> r[i] == Iterate(step, start, skip + i)
  {
    if count == 0 then [] else Run(step, start, skip, count - 1) + [Iterate(step, start, skip + count - 1)]
  }

  lemma {:induction false} RunGoesOn<T>(step: T -> T, start: T, skip: nat, dates: seq<T>, t: T)
    requires dates == Run(step, start, skip, |dates|) && t == Iterate(step, start, skip + |dates|)
    ensures dates + [t] == Run(step, start, skip, |dates + [t]|)
  {
  }

  ghost predicate Increasing<T(!new)>(step: T -> T, sse: T -> int) {
    forall t :: sse(t) < sse(step(t))
  }

  class Period<T(!new)> {
    const step: T -> T
    const sse: T -> int
    const start: T
    const end: Option<T>
    const recurrences: Int32
    const includeStartDate: bool
    var current: Option<T>

    /** The last lines of `DatePeriod::__construct`. */
    constructor (step: T -> T, sse: T -> int, start: T, end: Option<T>, recurrences: Int64, exclude: bool)
      requires recurrences < LONG_MAX
      ensures this.step == step && this.sse == sse && this.start == start && this.end == end
      ensures includeStartDate == !exclude
      ensures this.recurrences == ToInt(recurrences + if exclude then 0 else 1)
      ensures current.None?
    {
      this.step, this.sse, this.start, this.end := step, sse, start, end;
      this.current := None;
      this.includeStartDate := !exclude;
      this.recurrences := ToInt(recurrences + if exclude then 0 else 1);
    }

    /** Steps taken before the first date. */
    function Skip(): nat {
      if includeStartDate then 0 else 1
    }
  }

  class Iterator<T(!new)> {
    const period: Period<T>
    var currentIndex: int

    constructor (period: Period<T>)
      ensures this.period == period
    {
      this.period := period;
      this.currentIndex := 0;
    }

    /** The period's current time is the start, moved on once per `HasMore` call
        that was not the first of an including period. */
    ghost predicate At(steps: nat)
      reads this, period
    {
      period.current == Some(Iterate(period.step, period.start, steps))
    }

    method Rewind()
      modifies this, period
      ensures currentIndex == 0 && At(0)
    {
      currentIndex := 0;
      period.current := Some(period.start);
    }

    /** Asking for more also moves the period on. */
    method HasMore() returns (more: bool)
      requires period.current.Some?
      modifies period
      ensures period.current.Some?
      ensures period.current.value
              == if !period.includeStartDate || currentIndex > 0
                 then period.step(old(period.current.value)) else old(period.current.value)
      ensures more <==> match period.end
                        case Some(e) => period.sse(period.current.value) < period.sse(e)
                        case None => currentIndex < period.recurrences
    {
      if !period.includeStartDate || currentIndex > 0 {
        period.current := Some(period.step(period.current.value));
      }
      match period.end
      case Some(e) => more := period.sse(period.current.value) < period.sse(e);
      case None => more := currentIndex < period.recurrences;
    }

    method CurrentData() returns (t: T)
      requires period.current.Some?
      ensures t == period.current.value
    {
      t := period.current.value;
    }

    method MoveForward()
      modifies this
      ensures currentIndex == old(currentIndex) + 1
    {
      currentIndex := currentIndex + 1;
    }

    /** The test of `HasMore`, on the current time. */
    ghost predicate Goes()
      requires period.current.Some?
      reads this, period
    {
      match period.end
      case Some(e) => period.sse(period.current.value) < period.sse(e)
      case None => currentIndex < period.recurrences
    }

    /** Where a loop over the handlers stands: `k` dates are behind it, the next one is current. */
    ghost predicate Standing(k: nat)
      reads this, period
    {
      && currentIndex == k && At(period.Skip() + k)
      && (period.end.None? ==> k == 0 || k <= period.recurrences)
    }

    /** `foreach`, from the rewind to the first test. */
    method Begin() returns (more: bool)
      modifies this, period
      ensures Standing(0) && (more <==> Goes())
    {
      Rewind();
      assert Iterate(period.step, period.start, 1) == period.step(Iterate(period.step, period.start, 0));
      more := HasMore();
    }

    /** One round of `foreach`: take the date, move on, test again. */
    method Round(ghost k: nat) returns (t: T, more: bool)
      requires Standing(k) && Goes()
      modifies this, period
      ensures t == Iterate(period.step, period.start, period.Skip() + k)
      ensures period.end.Some? ==> period.sse(t) < period.sse(period.end.value)
      ensures Standing(k + 1) && (more <==> Goes())
    {
      t := CurrentData();
      MoveForward();
      more := HasMore();
    }

    /** When the test fails the dates are complete. */
    lemma {:induction false} Complete(dates: seq<T>)
      requires Standing(|dates|) && !Goes()
      requires dates == Run(period.step, period.start, period.Skip(), |dates|)
      requires period.end.Some? ==> AllBefore(period.sse, dates, period.end.value)
      ensures period.end.None? ==> |dates| == if period.recurrences < 0 then 0 else period.recurrences
      ensures period.end.Some? ==>
                IsEndedRun(period.step, period.sse, period.start, period.end.value, period.Skip(), dates)
    {
    }

    /** While the test holds the end has not come. */
    lemma NotYet(k: nat, n: nat)
      requires Standing(k) && Goes() && period.end.Some?
      requires EndsAt(period.step, period.sse, period.start, period.end.value, period.Skip(), n)
      ensures k != n
    {
    }

    /** The engine's `foreach` protocol over these handlers. With an end date it
        comes to an end if some later date is not before it. */
    method Foreach() returns (dates: seq<T>)
      requires period.end.Some? ==> Ends(period.step, period.sse, period.start, period.end.value, period.Skip())
      modifies this, period
      ensures dates == Run(period.step, period.start, period.Skip(), |dates|)
      ensures period.end.None? ==> |dates| == if period.recurrences < 0 then 0 else period.recurrences
      ensures period.end.Some? ==>
                IsEndedRun(period.step, period.sse, period.start, period.end.value, period.Skip(), dates)
    {
      ghost var n: nat := 0;
      if period.end.Some? {
        n :| EndsAt(period.step, period.sse, period.start, period.end.value, period.Skip(), n);
      }
      dates := [];
      var more := Begin();
      while more
        invariant Standing(|dates|) && (more <==> Goes())
        invariant dates == Run(period.step, period.start, period.Skip(), |dates|)
        invariant period.end.Some? ==> AllBefore(period.sse, dates, period.end.value) && |dates| <= n
        decreases if period.end.None? then period.recurrences - currentIndex else n - |dates|
      {
        if period.end.Some? {
          NotYet(|dates|, n);
        }
        var t;
        t, more := Round(|dates|);
        RunGoesOn(period.step, period.start, period.Skip(), dates, t);
        dates := dates + [t];
      }
      Complete(dates);
    }

    /** `foreach` left after at most `limit` dates, on any period. One that never comes
        to its end yields that many dates for every limit. */
    method ForeachUpTo(limit: nat) returns (dates: seq<T>)
      modifies this, period
      ensures dates == Run(period.step, period.start, period.Skip(), |dates|) && |dates| <= limit
      ensures |dates| < limit && period.end.None? ==>
                |dates| == if period.recurrences < 0 then 0 else period.recurrences
      ensures |dates| < limit && period.end.Some? ==>
                IsEndedRun(period.step, period.sse, period.start, period.end.value, period.Skip(), dates)
      ensures period.end.Some? && !Ends(period.step, period.sse, period.start, period.end.value, period.Skip()) ==>
                |dates| == limit && AllBefore(period.sse, dates, period.end.value)
    {
      dates := [];
      var more := Begin();
      while more && |dates| < limit
        invariant Standing(|dates|) && (more <==> Goes()) && |dates| <= limit
        invariant dates == Run(period.step, period.start, period.Skip(), |dates|)
        invariant period.end.Some? ==> AllBefore(period.sse, dates, period.end.value)
      {
        var t;
        t, more := Round(|dates|);
        RunGoesOn(period.step, period.start, period.Skip(), dates, t);
        dates := dates + [t];
      }
      if |dates| < limit {
        Complete(dates);
      }
    }
  }

  ghost predicate AllBefore<T>(sse: T -> int, dates: seq<T>, end: T) {
    forall i :: 0 <= i < |dates| ==> sse(dates[i]) < sse(end)
  }

  /** The `n`-th date is not before the end. */
  ghost predicate EndsAt<T>(step: T -> T, sse: T -> int, start: T, end: T, skip: nat, n: nat) {
    sse(Iterate(step, start, skip + n)) >= sse(end)
  }

  /** Stepping passes the end at some point. */
  ghost predicate Ends<T>(step: T -> T, sse: T -> int, start: T, end: T, skip: nat) {
    exists n: nat :: EndsAt(step, sse, start, end, skip, n)
  }

  lemma {:induction false} StepsAddUp<T(!new)>(step: T -> T, sse: T -> int, x: T, n: nat)
    requires Increasing(step, sse)
    ensures sse(Iterate(step, x, n)) >= sse(x) + n
  {
    if n > 0 {
      StepsAddUp(step, sse, x, n - 1);
    }
  }

  /** An increasing step passes every end. */
  lemma IncreasingEnds<T(!new)>(step: T -> T, sse: T -> int, start: T, end: T, skip: nat)
    requires Increasing(step, sse)
    ensures Ends(step, sse, start, end, skip)
  {
    var n := if sse(end) > sse(start) then sse(end) - sse(start) else 0;
    StepsAddUp(step, sse, start, skip + n);
    assert EndsAt(step, sse, start, end, skip, n);
  }

  /** Dates up to the first one that is not before `end`. */
  ghost predicate IsEndedRun<T>(step: T -> T, sse: T -> int, start: T, end: T, skip: nat, dates: seq<T>) {
    && dates == Run(step, start, skip, |dates|)
    && AllBefore(sse, dates, end)
    && EndsAt(step, sse, start, end, skip, |dates|)
  }

  /** The count kept is the one asked for, exactly while it fits the `int`: one
      less when the start date is counted in. Asking for INT_MAX recurrences
      including the start keeps a negative count, and iterates over nothing. */
  lemma CountIsKept(recurrences: nat)
    requires recurrences < LONG_MAX
    ensures ToInt(recurrences) == recurrences <==> recurrences <= INT_MAX
    ensures ToInt(recurrences + 1) == recurrences + 1 <==> recurrences < INT_MAX
    ensures recurrences == INT_MAX ==> ToInt(recurrences + 1) < 0
  {
  }

  /** Without an end date both modes stop at the start stepped `n` times, and
      excluding the start drops exactly the first date. */
  method BothModes<T(!new)>(step: T -> T, sse: T -> int, start: T, n: nat)
    returns (including: seq<T>, excluding: seq<T>)
    requires n < INT_MAX
    ensures |including| == n + 1 && |excluding| == n
    ensures excluding == including[1..]
    ensures including[n] == Iterate(step, start, n) && (n > 0 ==> excluding[n - 1] == Iterate(step, start, n))
  {
    CountIsKept(n);
    var period := new Period(step, sse, start, None, n, false);
    var walk := new Iterator(period);
    including := walk.Foreach();
    period := new Period(step, sse, start, None, n, true);
    walk := new Iterator(period);
    excluding := walk.Foreach();
  }

  /** With an end date and an increasing step excluding the start drops the first
      date, if there is one. */
  method BothModesToEnd<T(!new)>(step: T -> T, sse: T -> int, start: T, end: T)
    returns (including: seq<T>, excluding: seq<T>)
    requires Increasing(step, sse)
    ensures excluding == if including == [] then [] else including[1..]
    ensures including == [] <==> sse(start) >= sse(end)
  {
    IncreasingEnds(step, sse, start, end, 0);
    IncreasingEnds(step, sse, start, end, 1);
    var period := new Period(step, sse, start, Some(end), 0, false);
    var walk := new Iterator(period);
    including := walk.Foreach();
    period := new Period(step, sse, start, Some(end), 0, true);
    walk := new Iterator(period);
    excluding := walk.Foreach();
    EndedRuns(step, sse, start, end, including, excluding);
    EmptyRun(step, sse, start, end, including);
  }

  lemma BeforeEnd<T>(step: T -> T, sse: T -> int, start: T, end: T, skip: nat, dates: seq<T>, k: nat)
    requires IsEndedRun(step, sse, start, end, skip, dates) && k < |dates|
    ensures !EndsAt(step, sse, start, end, skip, k)
  {
    assert dates[k] == Iterate(step, start, skip + k);
  }

  /** Only an end that is not after the start leaves nothing. */
  lemma EmptyRun<T>(step: T -> T, sse: T -> int, start: T, end: T, dates: seq<T>)
    requires IsEndedRun(step, sse, start, end, 0, dates)
    ensures dates == [] <==> sse(start) >= sse(end)
  {
    if dates != [] {
      BeforeEnd(step, sse, start, end, 0, dates, 0);
    }
  }

  /** A run that ends after at least one date loses exactly that date when the
      start is excluded, whatever the step does; one that ends at once stays
      empty when the step increases. */
  lemma EndedRuns<T(!new)>(step: T -> T, sse: T -> int, start: T, end: T, including: seq<T>, excluding: seq<T>)
    requires IsEndedRun(step, sse, start, end, 0, including)
    requires IsEndedRun(step, sse, start, end, 1, excluding)
    ensures including != [] ==> excluding == including[1..]
    ensures including == [] && Increasing(step, sse) ==> excluding == []
  {
    if |excluding| + 1 < |including| {
      BeforeEnd(step, sse, start, end, 0, including, |excluding| + 1);
      assert false;
    }
    if including != [] && |including| <= |excluding| {
      BeforeEnd(step, sse, start, end, 1, excluding, |including| - 1);
      assert false;
    }
    if including == [] && excluding != [] && Increasing(step, sse) {
      BeforeEnd(step, sse, start, end, 1, excluding, 0);
      StepsAddUp(step, sse, start, 1);
    }
  }
}
