/** dba/dba.c: which opens are admitted. Open handles live in the regular
    resource list; an open looks for a handle on the same path with a first-match
    scan and refuses a conflicting lock. */
module DbaLocks {
  import opened Options

  datatype LockKind = Unlocked | Shared | Exclusive

  /** `lock_mode`: LOCK_SH or LOCK_EX, perhaps with LOCK_NB. */
  datatype LockMode = LockMode(kind: LockKind, nonBlocking: bool)

  /** The DBA_LOCK_* bits. */
  datatype LockFlags = LockFlags(reader: bool, writer: bool, creat: bool, trunc: bool)

  const LOCK_ALL := LockFlags(true, true, true, true)
  const LOCK_EXT := LockFlags(false, false, false, false)

  datatype ParsedMode = ParsedMode(lock: LockMode, lockDbf: bool)

  /** What the mode buffer of four characters shows at position `i`. */
  function At(mode: string, i: nat): char {
    if i < 3 && i < |mode| && '\0' !in mode[..i + 1] then mode[i] else '\0'
  }

  predicate IsLockModifier(c: char) {
    c == 'd' || c == 'l' || c == '-'
  }

  /** `lock_flag` and `lock_dbf`; None where locking cannot be disabled. */
  function LockFlag(flags: LockFlags, mode: string): Option<(LockFlags, bool)> {
    if At(mode, 0) != '\0' && IsLockModifier(At(mode, 1)) then
      match At(mode, 1)
      case 'd' => Some((if flags == LOCK_EXT then LOCK_EXT else LOCK_ALL, true))
      case 'l' => Some((LOCK_ALL, false))
      case _ => if flags == LOCK_EXT then None else Some((LOCK_EXT, false))
    else
      Some((flags, true))
  }

  /** None for an illegal mode letter. */
  function KindOf(lockFlag: LockFlags, letter: char): Option<LockKind> {
    match letter
    case 'r' => Some(if lockFlag.reader then Shared else Unlocked)
    case 'w' => Some(if lockFlag.writer then Exclusive else Unlocked)
    case 'c' => Some(if lockFlag.creat then Exclusive else Unlocked)
    case 'n' => Some(if lockFlag.trunc then Exclusive else Unlocked)
    case _ => None
  }

  /** The mode string `[rwnc][dl-]?t?`; None where `dba_open` returns FALSE. */
  function ParseMode(flags: LockFlags, mode: string): Option<ParsedMode> {
    match LockFlag(flags, mode)
    case None => None
    case Some((lockFlag, lockDbf)) =>
      match KindOf(lockFlag, At(mode, 0))
      case None => None
      case Some(kind) =>
        var next := if IsLockModifier(At(mode, 1)) then 2 else 1;
        if At(mode, next) == 't' then
          if lockFlag == LOCK_EXT || kind == Unlocked || At(mode, next + 1) != '\0' then None
          else Some(ParsedMode(LockMode(kind, true), lockDbf))
        else if At(mode, next) != '\0' then None
        else Some(ParsedMode(LockMode(kind, false), lockDbf))
  }

  /** An entry of the resource list: a dba handle, or some other module's resource. */
  datatype Resource = Handle(path: string, lock: LockMode) | Other

  /** What the world answers during one open. */
  datatype Environment = Environment(
    lockFileOpens: bool,   // the stream to lock could be opened
    openedPath: string,    // its real path
    lockGranted: bool,     // the stream supports locking and the lock was obtained
    driverOpens: bool      // database stream and driver opened
  )

  datatype Request = Request(path: string, mode: string, flags: LockFlags, env: Environment)

  datatype State = State(list: map<nat, Resource>, next: nat)

  const INITIAL := State(map[], 1)

  predicate Conflict(a: LockMode, b: LockMode) {
    (a.kind == Exclusive && b.kind != Unlocked) || (b.kind == Exclusive && a.kind != Unlocked)
  }

  predicate IsHandleOn(s: State, id: nat, path: string) {
    id in s.list && s.list[id].Handle? && s.list[id].path == path
  }

  /** The handle with the lowest id from `i` on. */
  function FindFrom(s: State, path: string, i: nat): (r: Option<nat>)
    ensures r.Some? ==> IsHandleOn(s, r.value, path) && i <= r.value < s.next
    ensures r.Some? ==> forall k :: i <= k < r.value ==> !IsHandleOn(s, k, path)
    ensures r.None? ==> forall k :: i <= k < s.next ==> !IsHandleOn(s, k, path)
    decreases s.next - i
  {
    if i >= s.next then None
    else if IsHandleOn(s, i, path) then Some(i)
    else FindFrom(s, path, i + 1)
  }

  /** The check of `php_dba_open`, on the first handle found. */
  predicate Admitted(s: State, path: string, lock: LockMode) {
    var other := FindFrom(s, path, 1);
    other.Some? ==> !Conflict(lock, s.list[other.value].lock)
  }

  function OpenStep(s: State, q: Request): (State, Option<nat>) {
    match ParseMode(q.flags, q.mode)
    case None => (s, None)
    case Some(m) =>
      if q.flags != LOCK_EXT && !Admitted(s, q.path, m.lock) then (s, None)
      else if m.lock.kind != Unlocked && (!q.env.lockFileOpens || !q.env.lockGranted) then (s, None)
      else if !q.env.driverOpens then (s, None)
      else
        var path := if m.lock.kind != Unlocked && m.lockDbf then q.env.openedPath else q.path;
        (State(s.list[s.next := Handle(path, m.lock)], s.next + 1), Some(s.next))
  }

  function CloseStep(s: State, id: nat): State {
    if id in s.list && s.list[id].Handle? then State(s.list - {id}, s.next) else s
  }

  /** The resource list during a request. */
  class ResourceList {
    var list: map<nat, Resource>
    var next: nat

    function Now(): State
      reads this
    {
      State(list, next)
    }

    constructor ()
      ensures Now() == INITIAL
    {
      list, next := map[], 1;
    }

    /** `php_dba_find`: a scan over the ids in use, skipping holes and foreign resources. */
    method Find(path: string) returns (r: Option<nat>)
      ensures r == FindFrom(Now(), path, 1)
    {
      var i := 1;
      while i < next
        invariant 1 <= i
        invariant FindFrom(Now(), path, 1) == FindFrom(Now(), path, i)
      {
        if i in list && list[i].Handle? && list[i].path == path {
          return Some(i);
        }
        i := i + 1;
      }
      return None;
    }

    /** `php_dba_open` without persistence, from the mode string on. */
    method Open(path: string, mode: string, flags: LockFlags, env: Environment) returns (id: Option<nat>)
      modifies this
      ensures (Now(), id) == OpenStep(old(Now()), Request(path, mode, flags, env))
    {
      var parsed := ParseMode(flags, mode);
      if parsed.None? {
        return None;
      }
      var lock := parsed.value.lock;
      var infoPath := path;
      var error := false;
      if flags != LOCK_EXT {
        var other := Find(infoPath);
        if other.Some? {
          var otherLock := list[other.value].lock;
          if || (lock.kind == Exclusive && (otherLock.kind == Exclusive || otherLock.kind == Shared))
             || (otherLock.kind == Exclusive && (lock.kind == Exclusive || lock.kind == Shared)) {
            error := true;
          }
        }
      }
      if !error && lock.kind != Unlocked {
        if !env.lockFileOpens {
          return None;
        }
        if parsed.value.lockDbf {
          infoPath := env.openedPath;
        }
        if !env.lockGranted {
          error := true;
        }
      }
      if error || !env.driverOpens {
        return None;
      }
      id := Some(next);
      list := list[next := Handle(infoPath, lock)];
      next := next + 1;
    }

    /** `dba_close`: a handle that is open leaves the list. */
    method Close(id: nat)
      modifies this
      ensures Now() == CloseStep(old(Now()), id)
      ensures id in list ==> list[id] == Other
    {
      if id in list && list[id].Handle? {
        list := list - {id};
      }
    }
  }

  datatype Step = Open(q: Request) | Close(id: nat) | OpenOther | CloseOther(id: nat)

  /** One event; other modules register and drop resources in the same list. */
  function Do(s: State, step: Step): State {
    match step
    case Open(q) => OpenStep(s, q).0
    case Close(id) => CloseStep(s, id)
    case OpenOther => State(s.list[s.next := Other], s.next + 1)
    case CloseOther(id) => if id in s.list && s.list[id].Other? then State(s.list - {id}, s.next) else s
  }

  /** The state after a run from the empty list. */
  function After(run: seq<Step>): State {
    if run == [] then INITIAL else Do(After(run[..|run| - 1]), run[|run| - 1])
  }

  /** Ids in use lie below the next free one. */
  predicate IdsInRange(s: State) {
    s.next >= 1 && forall id :: id in s.list ==> 1 <= id < s.next
  }

  predicate SamePath(a: Resource, b: Resource) {
    a.Handle? && b.Handle? && a.path == b.path
  }

  /** No two handles on one path hold conflicting locks. */
  predicate ConflictFree(s: State) {
    forall i, j :: i in s.list && j in s.list && i != j && SamePath(s.list[i], s.list[j]) ==>
      !Conflict(s.list[i].lock, s.list[j].lock)
  }

  predicate AllLocked(s: State) {
    forall id :: id in s.list && s.list[id].Handle? ==> s.list[id].lock.kind != Unlocked
  }

  /** A LOCK_EX handle is the only handle on its path. */
  predicate ExclusiveMeansAlone(s: State) {
    forall i, j :: i in s.list && j in s.list && i != j && SamePath(s.list[i], s.list[j]) ==>
      s.list[i].lock.kind != Exclusive
  }

  /** An open by a handler that leaves locking to dba, that does not ask to
      ignore locks, and, where the database itself is locked, on its real path.
      With 'l' the lock goes to a file beside it and the path stays as given. */
  predicate Plain(q: Request) {
    && q.flags == LOCK_ALL
    && At(q.mode, 1) != '-'
    && (At(q.mode, 1) != 'l' ==> q.env.openedPath == q.path)
  }

  // ---- which modes there are, and what they ask for

  /** A C string of at most `n` characters. */
  function Shown(mode: string, n: nat): string {
    if n == 0 || mode == "" || mode[0] == '\0' then "" else [mode[0]] + Shown(mode[1..], n - 1)
  }

  /** The bit that makes dba lock for a mode letter (dba/php_dba.h:56-59). */
  predicate LocksFor(flags: LockFlags, letter: char) {
    match letter
    case 'r' => flags.reader
    case 'w' => flags.writer
    case 'c' => flags.creat
    case _ => flags.trunc
  }

  lemma {:induction false} ShownAt(mode: string, n: nat, i: nat)
    requires i < n
    ensures |Shown(mode, n)| <= n
    ensures i < |Shown(mode, n)| <==> i < |mode| && '\0' !in mode[..i + 1]
    ensures i < |Shown(mode, n)| ==> Shown(mode, n)[i] == mode[i] != '\0'
  {
    if mode != "" {
      if i < |mode| {
        assert mode[..i + 1] == [mode[0]] + mode[1..][..i];
      }
      if i > 0 && mode[0] != '\0' {
        ShownAt(mode[1..], n - 1, i - 1);
      } else if n > 1 {
        ShownAt(mode[1..], n - 1, 0);
      }
    }
  }

  /** The three characters that the buffer keeps, and the end of the string behind them. */
  lemma BufferShows(mode: string)
    ensures var s := Shown(mode, 3);
            && |s| <= 3 && '\0' !in s
            && At(mode, 0) == (if |s| > 0 then s[0] else '\0') && At(mode, 1) == (if |s| > 1 then s[1] else '\0')
            && At(mode, 2) == (if |s| > 2 then s[2] else '\0') && At(mode, 3) == '\0'
  {
    ShownAt(mode, 3, 0);
    ShownAt(mode, 3, 1);
    ShownAt(mode, 3, 2);
  }

  lemma Ending(s: string)
    requires 0 < |s| <= 3
    ensures s[1..] == (if |s| == 1 then "" else if |s| == 2 then [s[1]] else [s[1], s[2]])
  {
  }

  /** A mode: a letter, perhaps a modifier, and perhaps 't' where a lock is taken. A
      handler that locks internally cannot be kept from it with '-', and has no lock to
      test other than that on a file beside the database. */
  predicate IsMode(flags: LockFlags, s: string) {
    && s != "" && s[0] in "rwcn"
    && (|| s[1..] in {"", "d", "l", "lt"}
        || (s[1..] in {"-", "dt"} && flags != LOCK_EXT)
        || (s[1..] == "t" && LocksFor(flags, s[0])))
  }

  /** The modes that are accepted. */
  lemma ModeLanguage(flags: LockFlags, mode: string)
    ensures ParseMode(flags, mode).Some? <==> IsMode(flags, Shown(mode, 3))
  {
    BufferShows(mode);
    var s := Shown(mode, 3);
    if s != "" {
      Ending(s);
    }
  }

  /** What they ask for: '-' no lock, 'd' and 'l' a lock in any case but that of 'd' where
      the handler locks internally, and otherwise the handler's bits decide; readers share
      it. With 't' nobody waits for it. With 'l' or '-' it is not one on the database. */
  lemma ModeMeaning(flags: LockFlags, mode: string)
    requires ParseMode(flags, mode).Some?
    ensures var s, m := Shown(mode, 3), ParseMode(flags, mode).value;
            && (m.lock.kind != Unlocked
                <==> || 'l' in s || ('d' in s && flags != LOCK_EXT)
                     || ('d' !in s && '-' !in s && LocksFor(flags, s[0])))
            && (m.lock.kind != Unlocked ==> (m.lock.kind == Shared <==> s[0] == 'r'))
            && (m.lock.nonBlocking <==> 't' in s)
            && (m.lockDbf <==> 'l' !in s && '-' !in s)
  {
    BufferShows(mode);
    ModeLanguage(flags, mode);
    Ending(Shown(mode, 3));
  }

  /** The first handle on a path. */
  predicate IsFirstOn(s: State, id: nat, path: string) {
    IsHandleOn(s, id, path) && 1 <= id < s.next && forall k: nat :: 1 <= k < id ==> !IsHandleOn(s, k, path)
  }

  /** Two handles can be open on one path when one is not locked or both are shared. */
  predicate Compatible(a: LockKind, b: LockKind) {
    a == Unlocked || b == Unlocked || (a == Shared && b == Shared)
  }

  /** An open registers one handle, under the next id, with the lock that the mode asks
      for and the path of the file that was locked, or changes nothing. It registers one
      exactly if the mode is one of those above, the first handle on the path is
      compatible, a lock that is asked for is granted, and the driver opens the file. */
  lemma OpenRegisters(s: State, q: Request)
    ensures var (t, id) := OpenStep(s, q);
            && (id.Some? <==>
                  && ParseMode(q.flags, q.mode).Some? && q.env.driverOpens
                  && var lock := ParseMode(q.flags, q.mode).value.lock;
                     && (lock.kind != Unlocked ==> q.env.lockFileOpens && q.env.lockGranted)
                     && (q.flags != LOCK_EXT ==>
                           forall k: nat :: IsFirstOn(s, k, q.path) ==> Compatible(lock.kind, s.list[k].lock.kind)))
            && (id.None? ==> t == s)
            && (id.Some? ==>
                  var m := ParseMode(q.flags, q.mode).value;
                  && id.value == s.next == t.next - 1
                  && t.list == s.list[s.next := Handle(if m.lock.kind != Unlocked && m.lockDbf then q.env.openedPath
                                                       else q.path, m.lock)])
  {
    var first := FindFrom(s, q.path, 1);
    assert first.Some? ==> IsFirstOn(s, first.value, q.path);
    assert forall k: nat :: IsFirstOn(s, k, q.path) ==> first == Some(k);
  }

  /** The mode letters decide the lock: reading shares it, everything else is exclusive. */
  lemma PlainModesLock(flags: LockFlags, mode: string)
    requires flags == LOCK_ALL && ParseMode(flags, mode).Some?
    ensures ParseMode(flags, mode).value.lock.kind == Unlocked <==> At(mode, 1) == '-'
    ensures At(mode, 1) != '-' ==>
              (ParseMode(flags, mode).value.lock.kind == Shared <==> At(mode, 0) == 'r')
  {
  }

  /** Looking only at the first handle on the path decides as a look at all of
      them would, unless that first handle holds no lock and hides one that conflicts. */
  lemma {:induction false} FirstMatchSuffices(s: State, path: string, lock: LockMode)
    requires IdsInRange(s) && ConflictFree(s)
    ensures var first := FindFrom(s, path, 1);
            var full := forall id :: IsHandleOn(s, id, path) ==> !Conflict(lock, s.list[id].lock);
            (Admitted(s, path, lock) <==> full)
            <==> !(first.Some? && s.list[first.value].lock.kind == Unlocked && !full)
  {
    var first := FindFrom(s, path, 1);
    if first.Some? {
      forall id | IsHandleOn(s, id, path) && id != first.value
        ensures !Conflict(s.list[id].lock, s.list[first.value].lock)
      {
      }
    }
  }

  /** Closing what was opened leaves the list as it was before; the id is not used again. */
  lemma CloseUndoesOpen(s: State, q: Request)
    requires IdsInRange(s) && OpenStep(s, q).1.Some?
    ensures CloseStep(OpenStep(s, q).0, OpenStep(s, q).1.value) == State(s.list, s.next + 1)
  {
    OpenRegisters(s, q);
    var t := OpenStep(s, q).0;
    assert t.list - {s.next} == s.list;
  }

  lemma OpenKeepsSafe(s: State, q: Request)
    requires Plain(q)
    requires IdsInRange(s) && ConflictFree(s) && AllLocked(s)
    ensures var t := OpenStep(s, q).0;
            IdsInRange(t) && ConflictFree(t) && AllLocked(t)
  {
    var t := OpenStep(s, q).0;
    if t != s {
      PlainModesLock(q.flags, q.mode);
      var m := ParseMode(q.flags, q.mode).value;
      FirstMatchSuffices(s, q.path, m.lock);
      assert t.list[s.next] == Handle(q.path, m.lock);
      forall id | id in t.list && id != s.next && t.list[id].Handle? && t.list[id].path == q.path
        ensures !Conflict(m.lock, t.list[id].lock)
      {
        assert IsHandleOn(s, id, q.path);
      }
    }
  }

  lemma {:induction false} SafeAfter(run: seq<Step>)
    requires forall k :: 0 <= k < |run| && run[k].Open? ==> Plain(run[k].q)
    ensures var s := After(run);
            IdsInRange(s) && ConflictFree(s) && AllLocked(s)
  {
    if run != [] {
      var before := run[..|run| - 1];
      SafeAfter(before);
      match run[|run| - 1]
      case Open(q) => OpenKeepsSafe(After(before), q);
      case Close(_) =>
      case OpenOther =>
      case CloseOther(_) =>
    }
  }

  /** Whatever is opened and closed, in whatever order, an exclusive handle is
      the only one on its path. */
  lemma {:induction false} ExclusiveLocksExclude(run: seq<Step>)
    requires forall k :: 0 <= k < |run| && run[k].Open? ==> Plain(run[k].q)
    ensures ExclusiveMeansAlone(After(run))
  {
    SafeAfter(run);
  }

  /** Nothing outside stands in the way of the open. */
  predicate Granted(q: Request) {
    && q.flags == LOCK_ALL && ParseMode(q.flags, q.mode).Some?
    && q.env.lockFileOpens && q.env.lockGranted && q.env.driverOpens
  }

  ghost predicate Safe(s: State) {
    IdsInRange(s) && ConflictFree(s) && AllLocked(s)
  }

  /** The open keeps every safe state safe. */
  ghost predicate KeepsSafe(q: Request) {
    forall s :: Safe(s) ==> Safe(OpenStep(s, q).0)
  }

  /** An exclusive handle on `path`, and nothing else. */
  function WriterOn(path: string): State {
    State(map[1 := Handle(path, LockMode(Exclusive, false))], 2)
  }

  /** Under another name the scan misses the writer. */
  lemma AliasMeetsWriter(q: Request)
    requires Granted(q) && !Plain(q) && At(q.mode, 1) != '-'
    ensures var t := OpenStep(WriterOn(q.env.openedPath), q).0;
            && t.next == 3 && t.list.Keys == {1, 2} && t.list[1] == Handle(q.env.openedPath, LockMode(Exclusive, false))
            && t.list[2].Handle? && t.list[2].path == q.env.openedPath && t.list[2].lock.kind != Unlocked
  {
    PlainModesLock(q.flags, q.mode);
    assert FindFrom(WriterOn(q.env.openedPath), q.path, 2) == None;
    assert FindFrom(WriterOn(q.env.openedPath), q.path, 1) == None;
  }

  /** Exactly the plain opens keep the handles locked and free of conflicts. */
  lemma PlainIsExact(q: Request)
    requires Granted(q)
    ensures Plain(q) <==> KeepsSafe(q)
  {
    if Plain(q) {
      forall s | Safe(s)
        ensures Safe(OpenStep(s, q).0)
      {
        OpenKeepsSafe(s, q);
      }
    } else if At(q.mode, 1) == '-' {
      PlainModesLock(q.flags, q.mode);
      assert Safe(INITIAL);
      assert OpenStep(INITIAL, q).0.list[1].lock.kind == Unlocked;
    } else {
      var s := WriterOn(q.env.openedPath);
      AliasMeetsWriter(q);
      var t := OpenStep(s, q).0;
      assert Safe(s);
      assert SamePath(t.list[1], t.list[2]) && Conflict(t.list[1].lock, t.list[2].lock);
    }
  }

  /** A run in which `q` is the only open that need not be plain. */
  ghost predicate PlainBut(run: seq<Step>, q: Request) {
    forall k :: 0 <= k < |run| && run[k].Open? ==> Plain(run[k].q) || run[k].q == q
  }

  /** A plain open for writing on `path`. */
  function Writer(path: string): Request {
    Request(path, "w", LOCK_ALL, Environment(true, path, true, true))
  }

  lemma WriterIsPlain(path: string)
    ensures Plain(Writer(path)) && ParseMode(LOCK_ALL, "w") == Some(ParsedMode(LockMode(Exclusive, false), true))
  {
  }

  /** The scan lets the lock pass although a handle on the file conflicts with it. */
  ghost predicate ScanMisses(s: State, path: string, realPath: string, lock: LockMode) {
    Admitted(s, path, lock) && exists id :: IsHandleOn(s, id, realPath) && Conflict(lock, s.list[id].lock)
  }

  /** An open on a path that is not the real one, while a writer is open there: the
      scan looks for the name as given, the handles carry the real path. What can still
      keep the second open out is the lock on the stream alone. Where the system grants
      that too, as it may where locks belong to the process, the exclusive handle is not
      alone; where they belong to the open file the open waits, or is refused with 't'. */
  lemma AliasEscapesWriter(q: Request)
    requires Granted(q) && !Plain(q) && At(q.mode, 1) != '-'
    ensures var w := Open(Writer(q.env.openedPath));
            && ScanMisses(After([w]), q.path, q.env.openedPath, ParseMode(q.flags, q.mode).value.lock)
            && !ExclusiveMeansAlone(After([w, Open(q)]))
  {
    var w := Open(Writer(q.env.openedPath));
    WriterIsPlain(q.env.openedPath);
    Next([], w);
    Next([w], Open(q));
    assert [] + [w] == [w] && [w] + [Open(q)] == [w, Open(q)];
    assert After([w]) == WriterOn(q.env.openedPath);
    AliasMeetsWriter(q);
    assert SamePath(After([w, Open(q)]).list[1], After([w, Open(q)]).list[2]);
    assert IsHandleOn(After([w]), 1, q.env.openedPath);
  }

  /** After an open with '-' the unlocked handle answers every later scan, and the scan
      admits a second writer. Here too the stream lock has the last word. */
  lemma UnlockedHandleHidesWriters(q: Request)
    requires Granted(q) && At(q.mode, 1) == '-'
    ensures var w := Open(Writer(q.path));
            && ScanMisses(After([Open(q), w]), q.path, q.path, LockMode(Exclusive, false))
            && !ExclusiveMeansAlone(After([Open(q), w, w]))
  {
    var w := Open(Writer(q.path));
    var unlocked, writer := OpenStep(INITIAL, q).0.list[1], Handle(q.path, LockMode(Exclusive, false));
    PlainModesLock(q.flags, q.mode);
    WriterIsPlain(q.path);
    Next([], Open(q));
    Next([Open(q)], w);
    Next([Open(q), w], w);
    assert [] + [Open(q)] == [Open(q)] && [Open(q)] + [w] == [Open(q), w] && [Open(q), w] + [w] == [Open(q), w, w];
    assert After([Open(q)]) == State(map[1 := unlocked], 2) && unlocked.path == q.path;
    assert After([Open(q), w]) == State(map[1 := unlocked, 2 := writer], 3);
    assert After([Open(q), w, w]) == State(map[1 := unlocked, 2 := writer, 3 := writer], 4);
    assert SamePath(After([Open(q), w, w]).list[2], After([Open(q), w, w]).list[3]);
    assert IsHandleOn(After([Open(q), w]), 2, q.path);
  }

  /** Exactly the plain opens may take part in runs without costing exclusive handles
      their solitude: any other open, granted, has a run with it that does. */
  lemma ExclusiveLocksExcludeExactly(q: Request)
    requires Granted(q)
    ensures Plain(q) <==> forall run :: PlainBut(run, q) ==> ExclusiveMeansAlone(After(run))
  {
    if Plain(q) {
      forall run | PlainBut(run, q)
        ensures ExclusiveMeansAlone(After(run))
      {
        ExclusiveLocksExclude(run);
      }
    } else if At(q.mode, 1) == '-' {
      UnlockedHandleHidesWriters(q);
      assert PlainBut([Open(q), Open(Writer(q.path)), Open(Writer(q.path))], q);
    } else {
      AliasEscapesWriter(q);
      assert PlainBut([Open(Writer(q.env.openedPath)), Open(q)], q);
    }
  }

  function OpenOf(path: string, mode: string): Step {
    Open(Request(path, mode, LOCK_ALL, Environment(true, "/db", true, true)))
  }

  lemma {:induction false} Next(run: seq<Step>, step: Step)
    ensures After(run + [step]) == Do(After(run), step)
  {
    assert (run + [step])[..|run|] == run;
  }

  /** One handle opened with '-', and two writers. */
  lemma UnlockedHandleHidesOthers()
    ensures ScanMisses(After([OpenOf("/db", "r-"), OpenOf("/db", "w")]), "/db", "/db", LockMode(Exclusive, false))
    ensures !ExclusiveMeansAlone(After([OpenOf("/db", "r-"), OpenOf("/db", "w"), OpenOf("/db", "w")]))
  {
    UnlockedHandleHidesWriters(OpenOf("/db", "r-").q);
  }

  /** A writer, and another one under another name. */
  lemma AliasEscapesScan()
    ensures ScanMisses(After([OpenOf("/db", "w")]), "./db", "/db", LockMode(Exclusive, false))
    ensures !ExclusiveMeansAlone(After([OpenOf("/db", "w"), OpenOf("./db", "w")]))
  {
    assert "./db"[0] != "/db"[0];
    AliasEscapesWriter(OpenOf("./db", "w").q);
  }
}
