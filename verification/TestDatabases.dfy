/** The databases tests run on, and the advisory locks that keep one test binary's sweep off another's. */
module TestDatabases {
  import opened Common
  import opened Text

  // Names.

  const TEST_PREFIX := "helpsites_test_t"
  const TEMPLATE_PREFIX := "helpsites_test_tpl_"

  /** The databases of the protocol, by what they're for. A sum is the hex of a dump's hash, a proc a binary's id. */
  datatype Name = Template(sum: string) | Scratch(sum: string) | Test(proc: string, count: nat) | Other(text: string)

  function Render(n: Name): string {
    match n
    case Template(sum) => TEMPLATE_PREFIX + sum + Tail(n)
    case Scratch(sum) => TEMPLATE_PREFIX + sum + Tail(n)
    case Test(proc, count) => TEST_PREFIX + proc + "_" + Decimal(count)
    case Other(text) => text
  }

  /** SQL's LIKE of a prefix, in which an underscore matches any character. */
  predicate Like(text: string, prefix: string) {
    |prefix| <= |text| && forall i :: 0 <= i < |prefix| ==> prefix[i] == '_' || prefix[i] == text[i]
  }

  predicate Swept(n: Name) {
    Like(Render(n), TEMPLATE_PREFIX) || Like(Render(n), TEST_PREFIX)
  }

  predicate IsHex(s: string) {
    forall c :: c in s ==> IsDigit(c) || 'a' <= c <= 'f'
  }

  /** A sum is 6 bytes and a proc 4, in hex. */
  predicate WellNamed(n: Name) {
    match n
    case Template(sum) => |sum| == 12 && IsHex(sum)
    case Scratch(sum) => |sum| == 12 && IsHex(sum)
    case Test(proc, count) => |proc| == 8 && IsHex(proc)
    case Other(text) => false
  }

  lemma TestIsNoTemplate(proc: string, count: nat, sum: string, tail: string)
    requires |proc| == 8 && IsHex(proc)
    ensures TEST_PREFIX + proc + "_" + Decimal(count) != TEMPLATE_PREFIX + sum + tail
  {
    var test := TEST_PREFIX + proc + "_" + Decimal(count);
    assert test[|TEST_PREFIX|] == proc[0] && proc[0] in proc;
    assert (TEMPLATE_PREFIX + sum + tail)[|TEST_PREFIX|] == TEMPLATE_PREFIX[|TEST_PREFIX|] == 'p';
  }

  lemma TemplateParts(prefix: string, sum: string, tail: string)
    ensures |prefix + sum + tail| == |prefix| + |sum| + |tail|
    ensures (prefix + sum + tail)[|prefix|..][..|sum|] == sum
  {
    assert (prefix + sum + tail)[|prefix|..] == sum + tail;
  }

  lemma TemplatesApart(m: Name, n: Name)
    requires WellNamed(m) && WellNamed(n) && !m.Test? && !n.Test? && Render(m) == Render(n)
    ensures m == n
  {
    TemplateParts(TEMPLATE_PREFIX, m.sum, Tail(m));
    TemplateParts(TEMPLATE_PREFIX, n.sum, Tail(n));
  }

  lemma TestParts(prefix: string, proc: string, count: string)
    ensures (prefix + proc + "_" + count)[|prefix|..][..|proc|] == proc
    ensures (prefix + proc + "_" + count)[|prefix| + |proc| + 1..] == count
  {
    assert (prefix + proc + "_" + count)[|prefix|..] == proc + "_" + count;
  }

  lemma TestsApart(m: Name, n: Name)
    requires WellNamed(m) && WellNamed(n) && m.Test? && n.Test? && Render(m) == Render(n)
    ensures m == n
  {
    TestParts(TEST_PREFIX, m.proc, Decimal(m.count));
    TestParts(TEST_PREFIX, n.proc, Decimal(n.count));
    DecimalInjective(m.count, n.count);
  }

  function Tail(n: Name): string {
    if n.Scratch? then "_wip" else ""
  }

  /** Databases for different things never get one name, and all of them are seen by a sweep. */
  lemma NamesAreApart(m: Name, n: Name)
    requires WellNamed(m) && WellNamed(n)
    ensures Render(m) == Render(n) ==> m == n
    ensures Swept(m)
  {
    if Render(m) == Render(n) {
      if m.Test? && n.Test? {
        TestsApart(m, n);
      } else if m.Test? {
        TestIsNoTemplate(m.proc, m.count, n.sum, Tail(n));
      } else if n.Test? {
        TestIsNoTemplate(n.proc, n.count, m.sum, Tail(m));
      } else {
        TemplatesApart(m, n);
      }
    }
  }

  // State.

  /** What's been loaded into a database: the dump with this sum, once wholly restored, and the schema extras. */
  datatype Contents = Contents(restored: Option<string>, extras: bool)

  predicate Complete(c: Contents, sum: string) {
    c.restored == Some(sum) && c.extras
  }

  /** A process holds locks in two sessions: the one it pins for good, and the one it ensures the template on. */
  datatype Session = Owner(p: string) | Conn(p: string)

  datatype Hold = Hold(session: Session, key: int)

  /** Where a process has got to in ensuring its template and sweeping. `Want` steps are blocked on a lock. */
  datatype Pc =
    | Start
    | WantCreation
    | Check
    | WantScratch
    | DropScratch
    | CreateScratch
    | Restore
    | Extras
    | Rename
    | ReleaseScratch
    | WantClaim
    | ReleaseCreation
    | ListStale
    | TryStale(names: seq<Name>)
    | DropStale(names: seq<Name>)
    | ReleaseStale(names: seq<Name>)
    | Ready
    | Failed

  /** Where a test has got to with its database. An abandoned one failed, and keeps its lock. */
  datatype TestPhase = Claiming | Clearing | Cloning | Live | Releasing | Abandoned

  datatype Proc = Proc(alive: bool, sum: string, pc: Pc,
                       claimed: bool,   // holds the shared claim on its template...
                       present: bool,   // ...which was there when the claim was granted
                       count: nat, tests: map<nat, TestPhase>)

  /** How often each session holds each lock: exclusively, and shared. Locks are re-entrant. */
  datatype Locks = Locks(ex: map<Hold, nat>, sh: map<Hold, nat>)

  /** Any number of processes (test binaries) run against one Postgres. Each ensures the template of its own dump,
      sweeps what it can lock, then creates and drops databases for its tests. Every step is atomic, steps of
      different processes interleave in any way, and any step of a process may fail or be its last. */
  datatype State = State(dbs: map<Name, Contents>, locks: Locks, procs: map<string, Proc>)

  /** The lock that serializes template creation. */
  const CREATION := 0x68656c70

  /** What guards a database: a hash of its name. Nothing says that two names can't hash to one key. */
  type KeyOf = Name -> int

  // Advisory locks.

  datatype LockOp =
    | Keep
    | Lock(session: Session, key: int)
    | Share(session: Session, key: int)
    | Unlock(session: Session, key: int)
    | UnlockAll(session: Session)
    | Disconnect(p: string)

  function Ex(locks: Locks, session: Session, key: int): nat {
    if Hold(session, key) in locks.ex then locks.ex[Hold(session, key)] else 0
  }

  function Sh(locks: Locks, session: Session, key: int): nat {
    if Hold(session, key) in locks.sh then locks.sh[Hold(session, key)] else 0
  }

  /** Whether a lock is granted at once. Locks only conflict with those of other sessions. */
  ghost predicate Grants(locks: Locks, op: LockOp) {
    match op
    case Lock(session, key) =>
      forall other :: other != session ==> Ex(locks, other, key) == 0 && Sh(locks, other, key) == 0
    case Share(session, key) => forall other :: other != session ==> Ex(locks, other, key) == 0
    case _ => true
  }

  function ApplyLock(locks: Locks, op: LockOp): Locks {
    match op
    case Keep => locks
    case Lock(session, key) => locks.(ex := locks.ex[Hold(session, key) := Ex(locks, session, key) + 1])
    case Share(session, key) => locks.(sh := locks.sh[Hold(session, key) := Sh(locks, session, key) + 1])
    case Unlock(session, key) =>
      if Ex(locks, session, key) == 0 then locks
      else locks.(ex := locks.ex[Hold(session, key) := Ex(locks, session, key) - 1])
    case UnlockAll(session) =>
      Locks(map h | h in locks.ex && h.session != session :: locks.ex[h],
            map h | h in locks.sh && h.session != session :: locks.sh[h])
    case Disconnect(p) =>
      Locks(map h | h in locks.ex && h.session.p != p :: locks.ex[h],
            map h | h in locks.sh && h.session.p != p :: locks.sh[h])
  }

  // Databases.

  datatype DbOp =
    | Untouched
    | Drop(n: Name)                     // DROP DATABASE IF EXISTS
    | Create(n: Name, c: Contents)
    | Change(n: Name, c: Contents)
    | Move(n: Name, to: Name)           // ALTER DATABASE ... RENAME TO

  predicate CanDb(dbs: map<Name, Contents>, op: DbOp) {
    match op
    case Create(n, c) => n !in dbs
    case Change(n, c) => n in dbs
    case Move(n, to) => n in dbs && to !in dbs
    case _ => true
  }

  function ApplyDb(dbs: map<Name, Contents>, op: DbOp): map<Name, Contents>
    requires CanDb(dbs, op)
  {
    match op
    case Untouched => dbs
    case Drop(n) => dbs - {n}
    case Create(n, c) => dbs[n := c]
    case Change(n, c) => dbs[n := c]
    case Move(n, to) => (dbs - {n})[to := dbs[n]]
  }

  // The steps of ensuring the template and sweeping: what each does to locks, to databases, and what comes next.

  /** `got` is whether a stale database's lock is there to be had, which a sweep tries for rather than waits for. */
  function LockOpOf(key: KeyOf, p: string, me: Proc, got: bool): LockOp {
    match me.pc
    case WantCreation => Lock(Conn(p), CREATION)
    case WantScratch => Lock(Conn(p), key(Scratch(me.sum)))
    case ReleaseScratch => Unlock(Conn(p), key(Scratch(me.sum)))
    case WantClaim => Share(Owner(p), key(Template(me.sum)))
    case ReleaseCreation => Unlock(Conn(p), CREATION)
    case TryStale(names) =>
      if names == [] then UnlockAll(Conn(p)) else if got then Lock(Conn(p), key(names[0])) else Keep
    case ReleaseStale(names) => if names == [] then Keep else Unlock(Conn(p), key(names[0]))
    case _ => Keep
  }

  function DbOpOf(me: Proc, dbs: map<Name, Contents>, ok: bool): DbOp {
    var scratch := Scratch(me.sum);
    match me.pc
    case DropScratch => Drop(scratch)
    case CreateScratch => Create(scratch, Contents(None, false))
    case Restore =>
      Change(scratch, if scratch in dbs then dbs[scratch].(restored := Some(me.sum)) else Contents(None, false))
    case Extras => Change(scratch, if scratch in dbs then dbs[scratch].(extras := true) else Contents(None, false))
    case Rename => Move(scratch, Template(me.sum))
    case DropStale(names) => if ok && names != [] then Drop(names[0]) else Untouched
    case _ => Untouched
  }

  function NextPc(me: Proc, dbs: map<Name, Contents>, listed: seq<Name>, got: bool): Pc {
    match me.pc
    case Start => WantCreation
    case WantCreation => Check
    case Check => if Template(me.sum) in dbs then WantClaim else WantScratch
    case WantScratch => DropScratch
    case DropScratch => CreateScratch
    case CreateScratch => Restore
    case Restore => Extras
    case Extras => Rename
    case Rename => ReleaseScratch
    case ReleaseScratch => WantClaim
    case WantClaim => ReleaseCreation
    case ReleaseCreation => ListStale
    case ListStale => TryStale(listed)
    case TryStale(names) => if names == [] then Ready else if got then DropStale(names) else TryStale(names[1..])
    case DropStale(names) => ReleaseStale(names)
    case ReleaseStale(names) => TryStale(if names == [] then [] else names[1..])
    case Ready => Ready
    case Failed => Failed
  }

  function NextProc(me: Proc, dbs: map<Name, Contents>, listed: seq<Name>, got: bool): Proc {
    var next := me.(pc := NextPc(me, dbs, listed, got));
    if me.pc.WantClaim? then next.(claimed := true, present := Template(me.sum) in dbs) else next
  }

  ghost predicate Got(key: KeyOf, s: State, p: string, me: Proc) {
    Grants(s.locks, LockOpOf(key, p, me, true))
  }

  // The steps of a test's database. Unlike the sweep's, its claim waits for the lock.

  function TestLockOpOf(key: KeyOf, p: string, n: nat, phase: TestPhase): LockOp {
    match phase
    case Claiming => Lock(Owner(p), key(Test(p, n)))
    case Releasing => Unlock(Owner(p), key(Test(p, n)))
    case _ => Keep
  }

  function TestDbOpOf(p: string, n: nat, sum: string, phase: TestPhase, dbs: map<Name, Contents>): DbOp {
    match phase
    case Clearing => Drop(Test(p, n))
    case Cloning => Create(Test(p, n), if Template(sum) in dbs then dbs[Template(sum)] else Contents(None, false))
    case Live => Drop(Test(p, n))
    case _ => Untouched
  }

  /** What comes next of a test, if anything. */
  function NextPhase(phase: TestPhase): Option<TestPhase> {
    match phase
    case Claiming => Some(Clearing)
    case Clearing => Some(Cloning)
    case Cloning => Some(Live)
    case Live => Some(Releasing)
    case Releasing => None
    case Abandoned => Some(Abandoned)
  }

  function SetPhase(me: Proc, n: nat, phase: Option<TestPhase>): Proc {
    me.(tests := if phase.Some? then me.tests[n := phase.value] else me.tests - {n})
  }

  // Runs.

  datatype Action =
    | Advance(p: string, listed: seq<Name>, ok: bool) // the next step of ensuring the template and sweeping
    | Fail(p: string)                                 // ...which returns an error instead, releasing the session
    | Die(p: string)                                  // Postgres releases the locks of both sessions
    | StartTest(p: string)
    | AdvanceTest(p: string, n: nat)
    | FailTest(p: string, n: nat)
    | External(text: string, contents: Option<Contents>) // somebody else's database comes or goes

  ghost predicate Alive(s: State, p: string) {
    p in s.procs && s.procs[p].alive
  }

  ghost predicate Enabled(key: KeyOf, s: State, a: Action) {
    match a
    case Advance(p, listed, ok) =>
      && Alive(s, p)
      && !s.procs[p].pc.Ready? && !s.procs[p].pc.Failed?
      && (s.procs[p].pc.TryStale? || Got(key, s, p, s.procs[p]))
      && CanDb(s.dbs, DbOpOf(s.procs[p], s.dbs, ok))
      && (s.procs[p].pc.ListStale? ==> NoDuplicates(listed) && forall n :: n in listed <==> n in s.dbs && Swept(n))
    case Fail(p) => Alive(s, p) && !s.procs[p].pc.Ready? && !s.procs[p].pc.Failed?
    case Die(p) => Alive(s, p)
    case StartTest(p) => Alive(s, p) && s.procs[p].pc.Ready?
    case AdvanceTest(p, n) =>
      && Alive(s, p) && n in s.procs[p].tests
      && var phase := s.procs[p].tests[n];
         && !phase.Abandoned?
         && (phase.Cloning? ==> Template(s.procs[p].sum) in s.dbs)
         && Grants(s.locks, TestLockOpOf(key, p, n, phase))
         && CanDb(s.dbs, TestDbOpOf(p, n, s.procs[p].sum, phase, s.dbs))
    case FailTest(p, n) => Alive(s, p) && n in s.procs[p].tests
    case External(text, contents) => true
  }

  ghost function LockStep(key: KeyOf, s: State, a: Action): LockOp
    requires Enabled(key, s, a)
  {
    match a
    case Advance(p, listed, ok) => LockOpOf(key, p, s.procs[p], Got(key, s, p, s.procs[p]))
    case Fail(p) => UnlockAll(Conn(p))
    case Die(p) => Disconnect(p)
    case AdvanceTest(p, n) => TestLockOpOf(key, p, n, s.procs[p].tests[n])
    case _ => Keep
  }

  ghost function DbStep(key: KeyOf, s: State, a: Action): (op: DbOp)
    requires Enabled(key, s, a)
    ensures CanDb(s.dbs, op)
  {
    match a
    case Advance(p, listed, ok) => DbOpOf(s.procs[p], s.dbs, ok)
    case AdvanceTest(p, n) => TestDbOpOf(p, n, s.procs[p].sum, s.procs[p].tests[n], s.dbs)
    case External(text, contents) =>
      var other := Other(text);
      if contents.None? then Drop(other)
      else if other in s.dbs then Change(other, contents.value) else Create(other, contents.value)
    case _ => Untouched
  }

  ghost function ProcStep(key: KeyOf, s: State, a: Action): Proc
    requires Enabled(key, s, a) && !a.External?
  {
    var me := s.procs[a.p];
    match a
    case Advance(p, listed, ok) => NextProc(me, s.dbs, listed, Got(key, s, p, me))
    case Fail(p) => me.(pc := Failed)
    case Die(p) => me.(alive := false)
    case StartTest(p) => me.(count := me.count + 1, tests := me.tests[me.count + 1 := Claiming])
    case AdvanceTest(p, n) => SetPhase(me, n, NextPhase(me.tests[n]))
    case FailTest(p, n) => SetPhase(me, n, if me.tests[n].Claiming? then None else Some(Abandoned))
  }

  ghost function Apply(key: KeyOf, s: State, a: Action): State
    requires Enabled(key, s, a)
  {
    State(ApplyDb(s.dbs, DbStep(key, s, a)),
          ApplyLock(s.locks, LockStep(key, s, a)),
          if a.External? then s.procs else s.procs[a.p := ProcStep(key, s, a)])
  }

  /** To begin with nobody holds anything, and whatever templates there are were built whole. */
  ghost predicate Init(s: State) {
    && s.locks == Locks(map[], map[])
    && (forall p :: p in s.procs ==>
          var me := s.procs[p];
          me.alive && me.pc == Start && !me.claimed && !me.present && me.count == 0 && me.tests == map[])
    && forall sum :: Template(sum) in s.dbs ==> Complete(s.dbs[Template(sum)], sum)
  }

  ghost predicate StepAt(key: KeyOf, states: seq<State>, actions: seq<Action>, i: nat)
    requires i < |actions| < |states|
  {
    Enabled(key, states[i], actions[i]) && states[i + 1] == Apply(key, states[i], actions[i])
  }

  ghost predicate IsRun(key: KeyOf, states: seq<State>, actions: seq<Action>) {
    && |states| == |actions| + 1
    && Init(states[0])
    && forall i :: 0 <= i < |actions| ==> StepAt(key, states, actions, i)
  }
}
