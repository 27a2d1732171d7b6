/**
 The creation of recaps, as transactions of concurrent processes over one database.

 A transaction takes an advisory lock, looks for the recap it is about to write, and only then
 writes it; what it writes is visible to others once it commits, and each statement sees what was
 committed before it began.
 */
module RecapProtocol {
  import opened Wrappers
  import S = RecapSchedule

  /** What makes a recap unique: cadence and start if scheduled, period and panels if made by hand. */
  datatype Key =
    | Scheduled(cadence: S.StandingCadence, start: int)
    | Manual(start: int, end: int, panels: seq<string>)

  /** The post of a committed recap. */
  datatype Row = Row(postId: nat, key: Key)

  /** `replace` is the post a manual request was told to replace; it may be gone by now. */
  datatype Request = Request(key: Key, replace: Option<nat>)

  datatype Process =
    | Idle
    | Waiting(r: Request)                // about to take the lock
    | Locked(r: Request)                 // holds it, has not looked yet
    | Clear(r: Request)                  // found no duplicate, or one it may replace
    | Written(r: Request, postId: nat)   // has written its rows, not committed

  predicate Holds(p: Process) {
    p.Locked? || p.Clear? || p.Written?
  }

  /** The committed recaps, the processes, and the next id of a post. */
  datatype State = State(rows: set<Row>, procs: map<nat, Process>, nextId: nat)

  datatype Action =
    | Begin(p: nat, r: Request)
    | Lock(p: nat)
    | Check(p: nat)
    | Write(p: nat)
    | Commit(p: nat)
    | Abort(p: nat)
    | DeletePost(postId: nat)

  function Proc(s: State, p: nat): Process {
    if p in s.procs then s.procs[p] else Idle
  }

  function Put(s: State, p: nat, q: Process): State {
    s.(procs := s.procs[p := q])
  }

  ghost predicate Duplicate(s: State, key: Key) {
    exists row :: row in s.rows && row.key == key
  }

  /** The lock is on a hash of the key's text: other keys may share it. */
  type LockHash = Key -> int

  ghost predicate LockFree(s: State, hash: LockHash, key: Key) {
    forall q :: q in s.procs && Holds(s.procs[q]) ==> hash(s.procs[q].r.key) != hash(key)
  }

  /** The check turns a request away: there is a recap, and the request does not replace. */
  ghost predicate Refused(s: State, r: Request) {
    Duplicate(s, r.key) && (r.key.Scheduled? || r.replace.None?)
  }

  ghost predicate Enabled(s: State, a: Action, hash: LockHash) {
    match a
    case Begin(p, r) => Proc(s, p).Idle? && (r.key.Scheduled? ==> r.replace.None?)
    case Lock(p) => Proc(s, p).Waiting? && LockFree(s, hash, Proc(s, p).r.key)
    case Check(p) => Proc(s, p).Locked?
    case Write(p) => Proc(s, p).Clear?
    case Commit(p) => Proc(s, p).Written?
    case Abort(p) => !Proc(s, p).Idle?
    case DeletePost(_) => true
  }

  ghost function Without(rows: set<Row>, postId: nat): set<Row> {
    set row | row in rows && row.postId != postId
  }

  ghost function Next(s: State, a: Action, hash: LockHash): State
    requires Enabled(s, a, hash)
  {
    match a
    case Begin(p, r) => Put(s, p, Waiting(r))
    case Lock(p) => Put(s, p, Locked(Proc(s, p).r))
    case Check(p) =>
      var r := Proc(s, p).r;
      if Refused(s, r) then Put(s, p, Idle) else Put(s, p, Clear(r))
    case Write(p) => Put(s, p, Written(Proc(s, p).r, s.nextId)).(nextId := s.nextId + 1)
    case Commit(p) =>
      var Written(r, id) := Proc(s, p);
      var kept := if r.replace.Some? then Without(s.rows, r.replace.value) else s.rows;
      Put(s, p, Idle).(rows := kept + {Row(id, r.key)})
    case Abort(p) => Put(s, p, Idle)
    case DeletePost(id) => s.(rows := Without(s.rows, id))
  }

  // ---------- what every step keeps ----------

  /** At most one committed recap has the key. */
  ghost predicate AtMostOne(s: State, key: Key) {
    forall a, b :: a in s.rows && b in s.rows && a.key == key && b.key == key ==> a == b
  }

  /** Post ids are primary keys: each is given out once. */
  ghost predicate FreshIds(s: State) {
    && (forall row :: row in s.rows ==> row.postId < s.nextId)
    && (forall a, b :: a in s.rows && b in s.rows && a.postId == b.postId ==> a == b)
    && (forall p :: p in s.procs && s.procs[p].Written? ==>
          s.procs[p].postId < s.nextId && forall row :: row in s.rows ==> row.postId != s.procs[p].postId)
    && (forall p, q :: p in s.procs && q in s.procs && p != q && s.procs[p].Written? && s.procs[q].Written? ==>
          s.procs[p].postId != s.procs[q].postId)
  }

  ghost predicate OneHolder(s: State, hash: LockHash) {
    forall p, q :: p in s.procs && q in s.procs && p != q && Holds(s.procs[p]) && Holds(s.procs[q]) ==>
      hash(s.procs[p].r.key) != hash(s.procs[q].r.key)
  }

  ghost predicate Inv(s: State, hash: LockHash) {
    OneHolder(s, hash) && FreshIds(s)
  }

  ghost predicate Init(s: State) {
    s.procs == map[] && FreshIds(s) && forall key :: AtMostOne(s, key)
  }

  lemma StepKeepsIds(s: State, a: Action, hash: LockHash)
    requires FreshIds(s) && Enabled(s, a, hash)
    ensures FreshIds(Next(s, a, hash))
  {
    hide Duplicate, Refused;
  }

  lemma StepKeepsInv(s: State, a: Action, hash: LockHash)
    requires Inv(s, hash) && Enabled(s, a, hash)
    ensures Inv(Next(s, a, hash), hash)
  {
    hide FreshIds, Refused, Without;
    StepKeepsIds(s, a, hash);
  }

  // ---------- runs ----------

  /** Each action of the run is enabled when its turn comes. */
  ghost predicate Runs(s: State, actions: seq<Action>, hash: LockHash)
    decreases |actions|
  {
    actions == [] || (Enabled(s, actions[0], hash) && Runs(Next(s, actions[0], hash), actions[1..], hash))
  }

  ghost function After(s: State, actions: seq<Action>, hash: LockHash): State
    requires Runs(s, actions, hash)
    decreases |actions|
  {
    if actions == [] then s else After(Next(s, actions[0], hash), actions[1..], hash)
  }

  lemma {:induction false} RunsCons(s: State, a: Action, actions: seq<Action>, hash: LockHash)
    requires Enabled(s, a, hash) && Runs(Next(s, a, hash), actions, hash)
    ensures Runs(s, [a] + actions, hash)
    ensures After(s, [a] + actions, hash) == After(Next(s, a, hash), actions, hash)
  {
    assert ([a] + actions)[1..] == actions;
  }

  lemma {:induction false} RunsAppend(s: State, a: seq<Action>, b: seq<Action>, hash: LockHash)
    requires Runs(s, a, hash) && Runs(After(s, a, hash), b, hash)
    ensures Runs(s, a + b, hash) && After(s, a + b, hash) == After(After(s, a, hash), b, hash)
    decreases |a|
  {
    if a == [] {
      assert a + b == b;
    } else {
      RunsAppend(Next(s, a[0], hash), a[1..], b, hash);
      assert (a + b)[1..] == a[1..] + b;
    }
  }

  // ---------- when a commit keeps a recap unique ----------

  /** Every recap there is of the request's key is the one the request replaces. */
  ghost predicate ReplacesAll(s: State, r: Request) {
    forall row :: row in s.rows && row.key == r.key ==> r.replace == Some(row.postId)
  }

  /** A commit leaves one recap of its key if and only if it replaces all there were. */
  lemma CommitUniqueIff(s: State, p: nat, hash: LockHash)
    requires FreshIds(s) && Enabled(s, Commit(p), hash)
    ensures AtMostOne(Next(s, Commit(p), hash), Proc(s, p).r.key) <==> ReplacesAll(s, Proc(s, p).r)
  {
    var r, id := Proc(s, p).r, Proc(s, p).postId;
    var s' := Next(s, Commit(p), hash);
    assert Row(id, r.key) in s'.rows;
    if row :| row in s.rows && row.key == r.key && r.replace != Some(row.postId) {
      assert row in s'.rows && row.postId != id;
    }
  }

  /** No step but a commit for the key adds a recap of it. */
  lemma CommitElsewhere(s: State, a: Action, hash: LockHash, key: Key)
    requires Enabled(s, a, hash) && !(a.Commit? && Proc(s, a.p).r.key == key)
    ensures forall row :: row in Next(s, a, hash).rows && row.key == key ==> row in s.rows
  {
    hide Refused;
  }

  /** At each point of the run, the first and the last included, the key has at most one recap. */
  ghost predicate AlwaysUnique(s: State, actions: seq<Action>, hash: LockHash, key: Key)
    requires Runs(s, actions, hash)
    decreases |actions|
  {
    AtMostOne(s, key) && (actions == [] || AlwaysUnique(Next(s, actions[0], hash), actions[1..], hash, key))
  }

  /** Every commit of the run for the key replaces all its recaps. */
  ghost predicate CommitsReplaceAll(s: State, actions: seq<Action>, hash: LockHash, key: Key)
    requires Runs(s, actions, hash)
    decreases |actions|
  {
    actions == []
    || (&& (actions[0].Commit? && Proc(s, actions[0].p).r.key == key ==> ReplacesAll(s, Proc(s, actions[0].p).r))
        && CommitsReplaceAll(Next(s, actions[0], hash), actions[1..], hash, key))
  }

  /** A key keeps at most one recap throughout a run if and only if every commit for it replaces all there are. */
  lemma {:induction false} UniqueRunIff(s: State, actions: seq<Action>, hash: LockHash, key: Key)
    requires Inv(s, hash) && AtMostOne(s, key) && Runs(s, actions, hash)
    ensures AlwaysUnique(s, actions, hash, key) <==> CommitsReplaceAll(s, actions, hash, key)
    decreases |actions|
  {
    hide Next, Enabled, Inv, ReplacesAll;
    if actions != [] {
      var a := actions[0];
      var s' := Next(s, a, hash);
      StepKeepsInv(s, a, hash);
      StepUniqueIff(s, a, hash, key);
      if AtMostOne(s', key) {
        UniqueRunIff(s', actions[1..], hash, key);
      } else {
        NotUnique(s', actions[1..], hash, key);
      }
    }
  }

  lemma StepUniqueIff(s: State, a: Action, hash: LockHash, key: Key)
    requires Inv(s, hash) && AtMostOne(s, key) && Enabled(s, a, hash)
    ensures AtMostOne(Next(s, a, hash), key)
       <==> (a.Commit? && Proc(s, a.p).r.key == key ==> ReplacesAll(s, Proc(s, a.p).r))
  {
    hide Next, FreshIds, OneHolder, ReplacesAll;
    if a.Commit? && Proc(s, a.p).r.key == key {
      CommitUniqueIff(s, a.p, hash);
    } else {
      CommitElsewhere(s, a, hash, key);
    }
  }

  lemma {:induction false} NotUnique(s: State, actions: seq<Action>, hash: LockHash, key: Key)
    requires Runs(s, actions, hash) && !AtMostOne(s, key)
    ensures !AlwaysUnique(s, actions, hash, key)
  {
  }

  // ---------- the guard of the check ----------

  /** A check that lets a request for the key pass finds no recap of it but the one to be replaced. */
  ghost predicate Guarded(s: State, a: Action, key: Key) {
    a.Check? && Proc(s, a.p).Locked? && Proc(s, a.p).r.key == key && !Refused(s, Proc(s, a.p).r) ==>
      ReplacesAll(s, Proc(s, a.p).r)
  }

  /** There is at most one recap of the key, and a transaction past its check replaces it if there is. */
  ghost predicate Safe(s: State, key: Key) {
    && AtMostOne(s, key)
    && forall p :: p in s.procs && (s.procs[p].Clear? || s.procs[p].Written?) && s.procs[p].r.key == key ==>
         ReplacesAll(s, s.procs[p].r)
  }

  lemma SafeCommit(s: State, p: nat, hash: LockHash, key: Key)
    requires Inv(s, hash) && Safe(s, key) && Enabled(s, Commit(p), hash) && Proc(s, p).r.key == key
    ensures Safe(Next(s, Commit(p), hash), key)
  {
    hide FreshIds, ReplacesAll;
    CommitUniqueIff(s, p, hash);
    var s' := Next(s, Commit(p), hash);
    forall q | q in s'.procs && (s'.procs[q].Clear? || s'.procs[q].Written?) ensures s'.procs[q].r.key != key {
      assert q != p && q in s.procs && Holds(s.procs[q]) && Holds(s.procs[p]);
    }
  }

  lemma StepKeepsSafe(s: State, a: Action, hash: LockHash, key: Key)
    requires Inv(s, hash) && Safe(s, key) && Enabled(s, a, hash) && Guarded(s, a, key)
    ensures Safe(Next(s, a, hash), key)
  {
    hide FreshIds, OneHolder, Refused, LockFree;
    if a.Commit? && Proc(s, a.p).r.key == key {
      SafeCommit(s, a.p, hash, key);
    } else {
      CommitElsewhere(s, a, hash, key);
    }
  }

  ghost predicate GuardedRun(s: State, actions: seq<Action>, hash: LockHash, key: Key)
    requires Runs(s, actions, hash)
    decreases |actions|
  {
    actions == []
    || (Guarded(s, actions[0], key) && GuardedRun(Next(s, actions[0], hash), actions[1..], hash, key))
  }

  /** With the guard at every check, no interleaving of commits, failures and deletions makes a second recap. */
  lemma {:induction false} GuardedUnique(s: State, actions: seq<Action>, hash: LockHash, key: Key)
    requires Inv(s, hash) && Safe(s, key) && Runs(s, actions, hash) && GuardedRun(s, actions, hash, key)
    ensures AlwaysUnique(s, actions, hash, key) && Safe(After(s, actions, hash), key)
    decreases |actions|
  {
    hide Next, Enabled, Inv, Guarded;
    if actions != [] {
      StepKeepsInv(s, actions[0], hash);
      StepKeepsSafe(s, actions[0], hash, key);
      GuardedUnique(Next(s, actions[0], hash), actions[1..], hash, key);
    }
  }

  /** The guard is exact: a request let past its check, going straight on, leaves one recap if and only if it holds. */
  lemma {:induction false} GuardExact(s: State, p: nat, hash: LockHash)
    requires Inv(s, hash) && Proc(s, p).Locked? && !Refused(s, Proc(s, p).r)
    ensures
      var run := [Check(p), Write(p), Commit(p)];
      Runs(s, run, hash) && (AtMostOne(After(s, run, hash), Proc(s, p).r.key) <==> ReplacesAll(s, Proc(s, p).r))
  {
    hide FreshIds, OneHolder, Refused, LockFree, AtMostOne;
    var r := Proc(s, p).r;
    var s1 := Next(s, Check(p), hash);
    var s2 := Next(s1, Write(p), hash);
    StepKeepsInv(s, Check(p), hash);
    StepKeepsInv(s1, Write(p), hash);
    CommitUniqueIff(s2, p, hash);
    RunsCons(s2, Commit(p), [], hash);
    RunsCons(s1, Write(p), [Commit(p)], hash);
    RunsCons(s, Check(p), [Write(p), Commit(p)], hash);
    assert [Check(p)] + [Write(p), Commit(p)] == [Check(p), Write(p), Commit(p)];
    assert [Write(p)] + [Commit(p)] == [Write(p), Commit(p)];
    assert [Commit(p)] + [] == [Commit(p)];
    assert s2.rows == s.rows && Proc(s2, p).r == r;
  }

  // ---------- where nobody replaces ----------

  /** Some request of the run asks to replace a recap of the key. */
  ghost predicate Replaces(actions: seq<Action>, key: Key) {
    exists i :: 0 <= i < |actions| && actions[i].Begin? && actions[i].r.key == key && actions[i].r.replace.Some?
  }

  /** No request in hand replaces a recap of the key. */
  ghost predicate Plain(s: State, key: Key) {
    forall p :: p in s.procs && !s.procs[p].Idle? && s.procs[p].r.key == key ==> s.procs[p].r.replace.None?
  }

  /** Where no request replaces, the check refuses every duplicate, and so guards. */
  lemma {:induction false} PlainIsGuarded(s: State, actions: seq<Action>, hash: LockHash, key: Key)
    requires Runs(s, actions, hash) && Plain(s, key) && (key.Scheduled? || !Replaces(actions, key))
    ensures GuardedRun(s, actions, hash, key)
    decreases |actions|
  {
    hide LockFree;
    if actions != [] {
      forall i | 0 <= i < |actions| - 1 ensures actions[1..][i] == actions[i + 1] {
      }
      PlainIsGuarded(Next(s, actions[0], hash), actions[1..], hash, key);
    }
  }

  /**
   In every interleaving of requests, failures and deletions, at most one scheduled recap is committed
   for a cadence and period start, and at most one recap made by hand for a period and panels that no
   request of the run asked to replace.
   */
  lemma {:induction false} AtMostOneRecap(s: State, actions: seq<Action>, hash: LockHash, key: Key)
    requires Init(s) && Runs(s, actions, hash)
    requires key.Scheduled? || !Replaces(actions, key)
    ensures AlwaysUnique(s, actions, hash, key) && AtMostOne(After(s, actions, hash), key)
  {
    PlainIsGuarded(s, actions, hash, key);
    GuardedUnique(s, actions, hash, key);
  }

  // ---------- requests are served ----------

  /** A request let through leaves a recap of its key, under the next id, in place of the one it replaces. */
  lemma {:induction false} RequestServed(s: State, p: nat, hash: LockHash)
    requires Inv(s, hash) && Proc(s, p).Locked?
    requires
      var r := Proc(s, p).r;
      (forall row :: row in s.rows ==> row.key != r.key) || (r.key.Manual? && r.replace.Some?)
    ensures
      var r, run := Proc(s, p).r, [Check(p), Write(p), Commit(p)];
      && Runs(s, run, hash)
      && After(s, run, hash).nextId == s.nextId + 1
      && (forall row :: row in After(s, run, hash).rows <==>
            row == Row(s.nextId, r.key) || (row in s.rows && r.replace != Some(row.postId)))
  {
    hide FreshIds, OneHolder, LockFree;
    var r := Proc(s, p).r;
    var s1 := Next(s, Check(p), hash);
    var s2 := Next(s1, Write(p), hash);
    RunsCons(s2, Commit(p), [], hash);
    RunsCons(s1, Write(p), [Commit(p)], hash);
    RunsCons(s, Check(p), [Write(p), Commit(p)], hash);
    assert [Check(p)] + [Write(p), Commit(p)] == [Check(p), Write(p), Commit(p)];
    assert [Write(p)] + [Commit(p)] == [Write(p), Commit(p)];
    assert [Commit(p)] + [] == [Commit(p)];
  }

  /** A scheduled request, or one that does not replace, leaves a recap of its key as it is, and ends. */
  lemma RequestRefused(s: State, p: nat, hash: LockHash)
    requires Proc(s, p).Locked?
    requires
      var r := Proc(s, p).r;
      (exists row :: row in s.rows && row.key == r.key) && (r.key.Scheduled? || r.replace.None?)
    ensures
      var s' := Next(s, Check(p), hash);
      s'.rows == s.rows && s'.nextId == s.nextId && Proc(s', p).Idle?
  {
  }

  /** A request of a free process, run alone while nobody holds its lock, leaves exactly one recap of its key. */
  lemma {:induction false} AloneServed(s: State, p: nat, r: Request, hash: LockHash) returns (run: seq<Action>)
    requires Inv(s, hash) && AtMostOne(s, r.key) && Proc(s, p).Idle? && LockFree(s, hash, r.key)
    requires r.key.Scheduled? ==> r.replace.None?
    requires r.replace.None? || ReplacesAll(s, r)
    ensures Runs(s, run, hash)
    ensures exists row :: row in After(s, run, hash).rows && row.key == r.key
    ensures AtMostOne(After(s, run, hash), r.key)
  {
    hide FreshIds, OneHolder, Refused;
    var s1 := Next(s, Begin(p, r), hash);
    var s2 := Next(s1, Lock(p), hash);
    StepKeepsInv(s, Begin(p, r), hash);
    StepKeepsInv(s1, Lock(p), hash);
    assert s2.rows == s.rows && Proc(s2, p) == Locked(r);
    var tail: seq<Action>;
    if (exists row :: row in s.rows && row.key == r.key) && r.replace.None? {
      RequestRefused(s2, p, hash);
      tail := [Check(p)];
      RunsCons(s2, Check(p), [], hash);
      assert [Check(p)] + [] == [Check(p)];
    } else {
      RequestServed(s2, p, hash);
      tail := [Check(p), Write(p), Commit(p)];
      assert Row(s2.nextId, r.key) in After(s2, tail, hash).rows;
      assert AtMostOne(After(s2, tail, hash), r.key);
    }
    RunsCons(s1, Lock(p), tail, hash);
    RunsCons(s, Begin(p, r), [Lock(p)] + tail, hash);
    run := [Begin(p, r)] + ([Lock(p)] + tail);
  }

  /** A transaction that fails leaves no recap, and who waited for its lock can take it. */
  lemma AbortFrees(s: State, p: nat, q: nat, hash: LockHash)
    requires Inv(s, hash) && Proc(s, p).Waiting? && q in s.procs && Holds(s.procs[q])
    requires hash(s.procs[q].r.key) == hash(Proc(s, p).r.key)
    ensures
      var s' := Next(s, Abort(q), hash);
      !Enabled(s, Lock(p), hash) && s'.rows == s.rows && Enabled(s', Lock(p), hash)
  {
    hide FreshIds;
  }

  /** A recap deleted by hand is gone, and its key can be given a recap again. */
  lemma DeletedIsGone(s: State, row: Row, hash: LockHash)
    requires AtMostOne(s, row.key) && row in s.rows
    ensures
      var s' := Next(s, DeletePost(row.postId), hash);
      !Duplicate(s', row.key) && forall r: Request :: r.key == row.key ==> !Refused(s', r)
  {
  }

  /** Nobody waits for ever on nobody: who waits can take the lock, or someone else holds it and can go on. */
  lemma NoDeadlock(s: State, p: nat, hash: LockHash)
    requires Proc(s, p).Waiting?
    ensures Enabled(s, Lock(p), hash)
            || exists q :: q in s.procs && q != p && Holds(s.procs[q])
                 && (Enabled(s, Check(q), hash) || Enabled(s, Write(q), hash) || Enabled(s, Commit(q), hash))
  {
    if q :| q in s.procs && Holds(s.procs[q]) && hash(s.procs[q].r.key) == hash(Proc(s, p).r.key) {
      assert Enabled(s, Check(q), hash) || Enabled(s, Write(q), hash) || Enabled(s, Commit(q), hash);
    }
  }

  // ---------- the scheduler ----------

  /** How many posts a scheduled period needs. */
  function MinCheckIns(cadence: S.StandingCadence): nat {
    match cadence
    case EveryWeek => 5
    case EveryMonth => 20
    case Off => 0
  }

  /** The key of the recap a tick asks for, when the period that is due has `count` posts. */
  function TickKey(settings: S.RecapSettings, now: int, calendar: S.Calendar, count: nat): Option<Key> {
    match S.DuePeriod(settings, now, calendar)
    case None => None
    case Some(w) =>
      if w.start < settings.since || count < MinCheckIns(settings.cadence) then None
      else Some(Scheduled(settings.cadence, w.start))
  }

  /** A tick asks for a recap exactly when one is due, since the schedule was set, of a period with posts enough. */
  lemma TickIff(settings: S.RecapSettings, now: int, calendar: S.Calendar, count: nat)
    ensures
      var due := S.DuePeriod(settings, now, calendar);
      && (TickKey(settings, now, calendar, count).Some? <==>
            due.Some? && settings.since <= due.value.start
            && (settings.cadence == S.EveryWeek ==> count >= 5) && (settings.cadence == S.EveryMonth ==> count >= 20))
      && (TickKey(settings, now, calendar, count).Some? ==>
            TickKey(settings, now, calendar, count) == Some(Scheduled(settings.cadence, due.value.start)))
  {
  }

  /** Ticks of one local hour, in any number of processes, leave at most one recap of that hour's period. */
  lemma {:induction false} OneRecapPerHour(s: State, actions: seq<Action>, hash: LockHash,
      settings: S.RecapSettings, calendar: S.Calendar, t1: int, n1: nat, t2: int, n2: nat, a: Row, b: Row)
    requires Init(s) && Runs(s, actions, hash)
    requires S.Local(settings, t1) / S.HOUR == S.Local(settings, t2) / S.HOUR
    requires a in After(s, actions, hash).rows && b in After(s, actions, hash).rows
    requires Some(a.key) == TickKey(settings, t1, calendar, n1) && Some(b.key) == TickKey(settings, t2, calendar, n2)
    ensures a == b
  {
    S.SameHourSamePeriod(settings, t1, t2, calendar);
    AtMostOneRecap(s, actions, hash, a.key);
  }

  // ---------- replacing concurrently ----------

  /**
   Two requests to replace the same recap can leave two: the second finds the first one's recap, but
   is told to replace a post that is already gone, which the guard would have refused.
   */
  lemma ReplaceRace(hash: LockHash, key: Key) returns (s: State, actions: seq<Action>)
    requires key.Manual?
    ensures Init(s) && Runs(s, actions, hash)
    ensures !AtMostOne(After(s, actions, hash), key)
  {
    s := State({Row(1, key)}, map[], 2);
    var r := Request(key, Some(1));
    var first := [Begin(1, r), Begin(2, r), Lock(1), Check(1), Write(1), Commit(1)];
    var second := [Lock(2), Check(2), Write(2), Commit(2)];
    actions := first + second;
    var mid := RaceFirst(s, r, hash, key);
    RaceSecond(mid, r, hash, key);
    RunsAppend(s, first, second, hash);
  }

  lemma RaceFirst(s: State, r: Request, hash: LockHash, key: Key) returns (mid: State)
    requires s == State({Row(1, key)}, map[], 2) && r == Request(key, Some(1)) && key.Manual?
    ensures
      var first := [Begin(1, r), Begin(2, r), Lock(1), Check(1), Write(1), Commit(1)];
      Runs(s, first, hash) && After(s, first, hash) == mid
    ensures mid == State({Row(2, key)}, map[1 := Idle, 2 := Waiting(r)], 3)
  {
    var s1 := Next(s, Begin(1, r), hash);
    var s2 := Next(s1, Begin(2, r), hash);
    var s3 := Next(s2, Lock(1), hash);
    var s4 := Next(s3, Check(1), hash);
    var s5 := Next(s4, Write(1), hash);
    mid := Next(s5, Commit(1), hash);
    assert Without(s5.rows, 1) == {};
    assert mid.procs == map[1 := Idle, 2 := Waiting(r)];
    RunsCons(s5, Commit(1), [], hash);
    RunsCons(s4, Write(1), [Commit(1)], hash);
    RunsCons(s3, Check(1), [Write(1), Commit(1)], hash);
    RunsCons(s2, Lock(1), [Check(1), Write(1), Commit(1)], hash);
    RunsCons(s1, Begin(2, r), [Lock(1), Check(1), Write(1), Commit(1)], hash);
    RunsCons(s, Begin(1, r), [Begin(2, r), Lock(1), Check(1), Write(1), Commit(1)], hash);
  }

  lemma {:induction false} RaceSecond(s: State, r: Request, hash: LockHash, key: Key)
    requires s == State({Row(2, key)}, map[1 := Idle, 2 := Waiting(r)], 3)
    requires r == Request(key, Some(1)) && key.Manual?
    ensures
      var second := [Lock(2), Check(2), Write(2), Commit(2)];
      Runs(s, second, hash) && !AtMostOne(After(s, second, hash), key)
  {
    var s1 := Next(s, Lock(2), hash);
    var s2 := Next(s1, Check(2), hash);
    var s3 := Next(s2, Write(2), hash);
    var s4 := Next(s3, Commit(2), hash);
    assert Row(2, key) in s4.rows && Row(3, key) in s4.rows;
    RunsCons(s3, Commit(2), [], hash);
    RunsCons(s2, Write(2), [Commit(2)], hash);
    RunsCons(s1, Check(2), [Write(2), Commit(2)], hash);
    RunsCons(s, Lock(2), [Check(2), Write(2), Commit(2)], hash);
  }
}

/** When a standing recap is due, and the period it covers. */
module RecapSchedule {
  import opened Wrappers

  // Instants are nanoseconds since 1970-01-01 00:00 UTC, a Thursday.
  const MINUTE: int := 60_000_000_000
  const HOUR: int := 60 * MINUTE
  const DAY: int := 24 * HOUR
  const WEEK: int := 7 * DAY

  datatype StandingCadence = Off | EveryWeek | EveryMonth

  /** Weekday 1 is Monday and 7 Sunday; the offset is in minutes east of UTC. */
  datatype RecapSettings = RecapSettings(cadence: StandingCadence, weekday: int, hour: int, offset: int, since: int)

  /** The calendar of months, which is not part of this model. */
  datatype Calendar = Calendar(dayOfMonth: int -> int, monthBefore: int -> int)

  function Local(settings: RecapSettings, now: int): int {
    now + settings.offset * MINUTE
  }

  function HourOf(local: int): int {
    local / HOUR % 24
  }

  /** Go counts Sunday as 0. */
  function GoWeekday(local: int): int {
    (local / DAY + 4) % 7
  }

  function IsoWeekday(local: int): (d: int)
    ensures 1 <= d <= 7
  {
    var wd := GoWeekday(local);
    if wd != 0 then wd else 7
  }

  datatype Window = Window(start: int, end: int)

  /** The window a recap made at `now` covers, if one is due in this local hour. */
  function DuePeriod(settings: RecapSettings, now: int, calendar: Calendar): Option<Window> {
    var local := Local(settings, now);
    if HourOf(local) != settings.hour then None
    else if settings.cadence == Off then None
    else if settings.cadence == EveryWeek && IsoWeekday(local) != settings.weekday then None
    else if settings.cadence == EveryMonth && calendar.dayOfMonth(local / DAY) != 1 then None
    else
      var endLocal := local / DAY * DAY + settings.hour * HOUR;
      var end := endLocal - settings.offset * MINUTE;
      var start := if settings.cadence == EveryMonth then calendar.monthBefore(end) else end - WEEK;
      Some(Window(start, end))
  }

  // ---------- one period per local hour ----------

  lemma HoursOfDay(local: int)
    ensures local / DAY == local / HOUR / 24
  {
    var h, r := local / HOUR, local % HOUR;
    assert local == h * HOUR + r;
    var d, k := h / 24, h % 24;
    assert h == d * 24 + k;
    var rest := k * HOUR + r;
    assert local == d * DAY + rest && 0 <= rest < DAY;
  }

  /** All ticks of one local hour find the same period due, or none. */
  lemma SameHourSamePeriod(settings: RecapSettings, a: int, b: int, calendar: Calendar)
    requires Local(settings, a) / HOUR == Local(settings, b) / HOUR
    ensures DuePeriod(settings, a, calendar) == DuePeriod(settings, b, calendar)
  {
    HoursOfDay(Local(settings, a));
    HoursOfDay(Local(settings, b));
  }

  /** The period ends at the top of the local hour in which it is due. */
  lemma DueNow(settings: RecapSettings, now: int, calendar: Calendar)
    requires DuePeriod(settings, now, calendar).Some?
    ensures
      var w := DuePeriod(settings, now, calendar).value;
      w.end <= now < w.end + HOUR && Local(settings, w.end) == Local(settings, now) / HOUR * HOUR
  {
    var local := Local(settings, now);
    HoursOfDay(local);
    var h := local / HOUR;
    assert h == h / 24 * 24 + h % 24;
  }

  // ---------- when a period is due ----------

  /** The clock on the wall shows the hour: at most an hour has gone by since it struck. */
  predicate InHour(local: int, hour: int) {
    hour * HOUR <= local - local / DAY * DAY < (hour + 1) * HOUR
  }

  lemma InHourIff(local: int, hour: int)
    ensures HourOf(local) == hour <==> InHour(local, hour) && 0 <= hour < 24
  {
    HoursOfDay(local);
    var h := local / HOUR;
    assert h == h / 24 * 24 + h % 24 && h * HOUR <= local < (h + 1) * HOUR;
    assert local / DAY * DAY == h / 24 * 24 * HOUR;
  }

  /** A weekly recap is due in the set hour of the set day of the week, the first of January 1970 being a Thursday. */
  lemma WeeklyDueIff(settings: RecapSettings, now: int, calendar: Calendar)
    requires settings.cadence == EveryWeek && 0 <= settings.hour < 24
    ensures
      var local := now + settings.offset * 60_000_000_000;
      DuePeriod(settings, now, calendar).Some?
      <==> InHour(local, settings.hour) && (local / DAY + 3) % 7 + 1 == settings.weekday
  {
    InHourIff(Local(settings, now), settings.hour);
  }

  /** A monthly recap is due in the set hour of the first day of a month, for the month that ends then. */
  lemma MonthlyDueIff(settings: RecapSettings, now: int, calendar: Calendar)
    requires settings.cadence == EveryMonth && 0 <= settings.hour < 24
    ensures
      var local := now + settings.offset * 60_000_000_000;
      var due := DuePeriod(settings, now, calendar);
      && (due.Some? <==> InHour(local, settings.hour) && calendar.dayOfMonth(local / DAY) == 1)
      && (due.Some? ==> due.value.start == calendar.monthBefore(due.value.end)
                        && due.value.end <= now < due.value.end + HOUR)
  {
    InHourIff(Local(settings, now), settings.hour);
    if DuePeriod(settings, now, calendar).Some? {
      DueNow(settings, now, calendar);
    }
  }

  /** Nothing is due when recaps are off. */
  lemma NeverDueWhenOff(settings: RecapSettings, now: int, calendar: Calendar)
    requires settings.cadence == Off
    ensures DuePeriod(settings, now, calendar).None?
  {
  }

  // ---------- weekly windows tile the time line ----------

  /** The local instants at which a weekly recap falls due. */
  predicate WeeklyBoundary(settings: RecapSettings, end: int) {
    var local := Local(settings, end);
    local % HOUR == 0 && HourOf(local) == settings.hour && IsoWeekday(local) == settings.weekday
  }

  /** The windows of weekly recaps are exactly the weeks that end at a boundary. */
  lemma WeeklyWindow(settings: RecapSettings, now: int, calendar: Calendar)
    requires settings.cadence == EveryWeek
    ensures
      var due := DuePeriod(settings, now, calendar);
      && (due.Some? ==> WeeklyBoundary(settings, due.value.end) && due.value.start == due.value.end - WEEK)
      && (WeeklyBoundary(settings, now) ==> due == Some(Window(now - WEEK, now)))
  {
    HoursOfDay(Local(settings, now));
    var due := DuePeriod(settings, now, calendar);
    if due.Some? {
      DueNow(settings, now, calendar);
      var local := Local(settings, due.value.end);
      HoursOfDay(local);
      assert local / HOUR == Local(settings, now) / HOUR;
    }
    if WeeklyBoundary(settings, now) {
      DueNow(settings, now, calendar);
    }
  }

  lemma DaysApart(a: int, b: int)
    requires a % HOUR == b % HOUR == 0 && HourOf(a) == HourOf(b)
    ensures a - b == (a / DAY - b / DAY) * DAY
  {
    HoursOfDay(a);
    HoursOfDay(b);
  }

  /** Two boundaries are whole weeks apart. */
  lemma BoundariesApart(settings: RecapSettings, a: int, b: int)
    requires WeeklyBoundary(settings, a) && WeeklyBoundary(settings, b)
    ensures (a - b) % WEEK == 0
  {
    var la, lb := Local(settings, a), Local(settings, b);
    DaysApart(la, lb);
    var da, db := la / DAY, lb / DAY;
    assert (da + 4) % 7 == (db + 4) % 7;
    var weeks := (da + 4) / 7 - (db + 4) / 7;
    assert da - db == 7 * weeks;
    assert a - b == WEEK * weeks;
  }

  /** A whole number of weeks after a boundary is a boundary. */
  lemma NextBoundary(settings: RecapSettings, a: int, weeks: int)
    requires WeeklyBoundary(settings, a)
    ensures WeeklyBoundary(settings, a + weeks * WEEK)
  {
    var la := Local(settings, a);
    var lb := Local(settings, a + weeks * WEEK);
    assert lb == la + weeks * 168 * HOUR;
    assert lb / HOUR == la / HOUR + weeks * 168;
    assert lb % HOUR == 0;
    HoursOfDay(la);
    HoursOfDay(lb);
    assert lb / HOUR == la / HOUR + weeks * 7 * 24;
    assert lb / DAY == la / DAY + weeks * 7;
  }

  /** Weekly windows never overlap: two due windows are the same, or one ends before the other starts. */
  lemma WeeklyDisjoint(settings: RecapSettings, a: int, b: int, calendar: Calendar)
    requires settings.cadence == EveryWeek
    requires DuePeriod(settings, a, calendar).Some? && DuePeriod(settings, b, calendar).Some?
    ensures
      var v, w := DuePeriod(settings, a, calendar).value, DuePeriod(settings, b, calendar).value;
      v == w || v.end <= w.start || w.end <= v.start
  {
    hide DuePeriod, WeeklyBoundary;
    WeeklyWindow(settings, a, calendar);
    WeeklyWindow(settings, b, calendar);
    var v, w := DuePeriod(settings, a, calendar).value, DuePeriod(settings, b, calendar).value;
    BoundariesApart(settings, v.end, w.end);
  }

  /** Every instant falls in the window of some weekly recap, so together they tile the time line. */
  lemma WeeklyCovers(settings: RecapSettings, t: int, calendar: Calendar) returns (now: int)
    requires settings.cadence == EveryWeek && 1 <= settings.weekday <= 7 && 0 <= settings.hour < 24
    ensures DuePeriod(settings, now, calendar).Some?
    ensures
      var w := DuePeriod(settings, now, calendar).value;
      w.start <= t < w.end
  {
    hide DuePeriod, WeeklyBoundary;
    var first := FirstBoundary(settings);
    var k := (t - first) / WEEK + 1;
    now := first + k * WEEK;
    NextBoundary(settings, first, k);
    WeeklyWindow(settings, now, calendar);
    assert (t - first) == (t - first) / WEEK * WEEK + (t - first) % WEEK;
  }

  lemma TopOfHour(h: int)
    ensures h * HOUR / HOUR == h && h * HOUR % HOUR == 0
  {
  }

  lemma FirstBoundary(settings: RecapSettings) returns (end: int)
    requires 1 <= settings.weekday <= 7 && 0 <= settings.hour < 24
    ensures WeeklyBoundary(settings, end)
  {
    // Local Monday 1970-01-05 is day 4.
    var day := settings.weekday + 3;
    var local := day * DAY + settings.hour * HOUR;
    end := local - settings.offset * MINUTE;
    assert local == (day * 24 + settings.hour) * HOUR;
    assert Local(settings, end) == local;
    TopOfHour(day * 24 + settings.hour);
    HoursOfDay(local);
    assert (day * 24 + settings.hour) / 24 == day;
  }
}
