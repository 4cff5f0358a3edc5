/** What every run of the test database protocol keeps, whatever hashes to what. */
module TestDatabaseSafety {
  import opened Common
  import opened TestDatabases

  // Which locks a process holds is a function of where it has got to.

  predicate InCreation(pc: Pc) {
    pc.Check? || pc.WantScratch? || OnScratch(pc) || pc.WantClaim? || pc.ReleaseCreation?
  }

  predicate OnScratch(pc: Pc) {
    pc.DropScratch? || pc.CreateScratch? || pc.Restore? || pc.Extras? || pc.Rename? || pc.ReleaseScratch?
  }

  predicate OnStale(pc: Pc) {
    pc.DropStale? || pc.ReleaseStale?
  }

  /** What a sweep has listed and not got past. */
  function Names(pc: Pc): seq<Name> {
    if pc.TryStale? || OnStale(pc) then pc.names else []
  }

  predicate Claimable(pc: Pc) {
    pc.Start? || pc.WantCreation? || (InCreation(pc) && !pc.ReleaseCreation?)
  }

  predicate HasClaimed(pc: Pc) {
    pc.ReleaseCreation? || pc.ListStale? || pc.TryStale? || OnStale(pc) || pc.Ready?
  }

  function One(b: bool): nat {
    if b then 1 else 0
  }

  function ConnEx(key: KeyOf, me: Proc, k: int): nat {
    One(InCreation(me.pc) && k == CREATION)
    + One(OnScratch(me.pc) && k == key(Scratch(me.sum)))
    + One(OnStale(me.pc) && me.pc.names != [] && k == key(me.pc.names[0]))
  }

  /** The tests whose database's lock the process holds, of those hashing to a key. */
  function HeldTests(key: KeyOf, p: string, me: Proc, k: int): set<nat> {
    set n | n in me.tests && !me.tests[n].Claiming? && key(Test(p, n)) == k
  }

  function WantEx(key: KeyOf, session: Session, me: Proc, k: int): nat {
    if !me.alive then 0 else if session.Conn? then ConnEx(key, me, k) else |HeldTests(key, session.p, me, k)|
  }

  function WantSh(key: KeyOf, session: Session, me: Proc, k: int): nat {
    One(me.alive && session.Owner? && me.claimed && key(Template(me.sum)) == k)
  }

  ghost predicate TrackedAt(key: KeyOf, s: State, session: Session, k: int) {
    if session.p in s.procs then
      && Ex(s.locks, session, k) == WantEx(key, session, s.procs[session.p], k)
      && Sh(s.locks, session, k) == WantSh(key, session, s.procs[session.p], k)
    else
      Ex(s.locks, session, k) == 0 && Sh(s.locks, session, k) == 0
  }

  ghost predicate Tracked(key: KeyOf, s: State) {
    forall session, k :: TrackedAt(key, s, session, k)
  }

  /** An exclusive lock keeps every other session off. */
  ghost predicate Exclusive(locks: Locks) {
    forall a, b, k :: a != b && Ex(locks, a, k) > 0 ==> Ex(locks, b, k) == 0 && Sh(locks, b, k) == 0
  }

  predicate WellPlaced(me: Proc) {
    && (OnStale(me.pc) ==> me.pc.names != [])
    && (me.tests != map[] ==> me.pc.Ready?)
    && (Claimable(me.pc) ==> !me.claimed)
    && (HasClaimed(me.pc) ==> me.claimed)
    && (forall n :: n in me.tests ==> n <= me.count)
  }

  ghost predicate LocksInv(key: KeyOf, s: State) {
    && Tracked(key, s)
    && Exclusive(s.locks)
    && forall p :: p in s.procs ==> WellPlaced(s.procs[p])
  }

  // What an operation does to a session's count of a key.

  function ExAfter(n: nat, op: LockOp, session: Session, k: int): nat {
    match op
    case Lock(a, j) => if a == session && j == k then n + 1 else n
    case Unlock(a, j) => if a == session && j == k && n > 0 then n - 1 else n
    case UnlockAll(a) => if a == session then 0 else n
    case Disconnect(p) => if session.p == p then 0 else n
    case _ => n
  }

  function ShAfter(n: nat, op: LockOp, session: Session, k: int): nat {
    match op
    case Share(a, j) => if a == session && j == k then n + 1 else n
    case UnlockAll(a) => if a == session then 0 else n
    case Disconnect(p) => if session.p == p then 0 else n
    case _ => n
  }

  lemma CountsAfter(locks: Locks, op: LockOp, session: Session, k: int)
    ensures Ex(ApplyLock(locks, op), session, k) == ExAfter(Ex(locks, session, k), op, session, k)
    ensures Sh(ApplyLock(locks, op), session, k) == ShAfter(Sh(locks, session, k), op, session, k)
  {
  }

  lemma GrantedOver(locks: Locks, op: LockOp, other: Session)
    requires Grants(locks, op) && (op.Lock? || op.Share?)
    ensures other != op.session ==> Ex(locks, other, op.key) == 0 && (op.Lock? ==> Sh(locks, other, op.key) == 0)
  {
  }

  lemma LockOpKeepsExclusive(locks: Locks, op: LockOp)
    requires Exclusive(locks) && Grants(locks, op)
    ensures Exclusive(ApplyLock(locks, op))
  {
    var locks' := ApplyLock(locks, op);
    forall a, b, k | a != b && Ex(locks', a, k) > 0 ensures Ex(locks', b, k) == 0 && Sh(locks', b, k) == 0 {
      CountsAfter(locks, op, a, k);
      CountsAfter(locks, op, b, k);
      assert Ex(locks, a, k) > 0 ==> Ex(locks, b, k) == 0 && Sh(locks, b, k) == 0;
      assert Ex(locks, b, k) > 0 ==> Ex(locks, a, k) == 0 && Sh(locks, a, k) == 0;
      if (op.Lock? || op.Share?) && op.key == k {
        GrantedOver(locks, op, a);
        GrantedOver(locks, op, b);
      }
    }
  }

  // A step's operations follow what the process holds.

  lemma AdvanceTracks(key: KeyOf, p: string, me: Proc, dbs: map<Name, Contents>, listed: seq<Name>, got: bool,
                      session: Session, k: int)
    requires WellPlaced(me) && session.p == p && me.alive
    ensures var op, me' := LockOpOf(key, p, me, got), NextProc(me, dbs, listed, got);
            && WantEx(key, session, me', k) == ExAfter(WantEx(key, session, me, k), op, session, k)
            && WantSh(key, session, me', k) == ShAfter(WantSh(key, session, me, k), op, session, k)
  {
    if session.Conn? {
      AdvanceTracksConn(key, p, me, dbs, listed, got, k);
    } else {
      var me' := NextProc(me, dbs, listed, got);
      assert HeldTests(key, p, me', k) == HeldTests(key, p, me, k);
    }
  }

  lemma AdvanceTracksConn(key: KeyOf, p: string, me: Proc, dbs: map<Name, Contents>, listed: seq<Name>, got: bool,
                          k: int)
    requires OnStale(me.pc) ==> me.pc.names != []
    ensures ConnEx(key, NextProc(me, dbs, listed, got), k)
            == ExAfter(ConnEx(key, me, k), LockOpOf(key, p, me, got), Conn(p), k)
  {
    var me', op := NextProc(me, dbs, listed, got), LockOpOf(key, p, me, got);
    match me.pc
    case WantCreation => assert me'.pc == Check;
    case WantScratch => assert me'.pc == DropScratch;
    case ReleaseScratch => assert me'.pc == WantClaim;
    case WantClaim => assert me'.pc == ReleaseCreation;
    case ReleaseCreation => assert me'.pc == ListStale;
    case TryStale(names) => assert me'.pc.Ready? || me'.pc.DropStale? || me'.pc.TryStale?;
    case DropStale(names) => assert me'.pc == ReleaseStale(names);
    case ReleaseStale(names) => assert me'.pc.TryStale?;
    case _ => KeepsHolding(key, p, me, dbs, listed, got);
  }

  lemma KeepsHolding(key: KeyOf, p: string, me: Proc, dbs: map<Name, Contents>, listed: seq<Name>, got: bool)
    requires !me.pc.WantCreation? && !me.pc.WantScratch? && !me.pc.ReleaseScratch? && !me.pc.WantClaim?
    requires !me.pc.ReleaseCreation? && !me.pc.TryStale? && !OnStale(me.pc)
    ensures LockOpOf(key, p, me, got) == Keep
    ensures var pc' := NextPc(me, dbs, listed, got);
            InCreation(pc') == InCreation(me.pc) && OnScratch(pc') == OnScratch(me.pc) && !OnStale(pc')
  {
  }

  lemma TestTracks(key: KeyOf, p: string, me: Proc, n: nat, session: Session, k: int)
    requires n in me.tests && session.p == p && me.alive && !me.tests[n].Abandoned?
    ensures var op, me' := TestLockOpOf(key, p, n, me.tests[n]), SetPhase(me, n, NextPhase(me.tests[n]));
            && WantEx(key, session, me', k) == ExAfter(WantEx(key, session, me, k), op, session, k)
            && WantSh(key, session, me', k) == ShAfter(WantSh(key, session, me, k), op, session, k)
  {
    if session.Owner? {
      HeldTestsCount(key, p, me, n, k);
    }
  }

  /** The count of held tests goes up by a claim and down by a release, of a test hashing to the key. */
  lemma HeldTestsCount(key: KeyOf, p: string, me: Proc, n: nat, k: int)
    requires n in me.tests && !me.tests[n].Abandoned?
    ensures var count := |HeldTests(key, p, me, k)|;
            var count' := |HeldTests(key, p, SetPhase(me, n, NextPhase(me.tests[n])), k)|;
            if key(Test(p, n)) != k then count' == count
            else if me.tests[n].Claiming? then count' == count + 1
            else if me.tests[n].Releasing? then count > 0 && count' == count - 1
            else count > 0 && count' == count
  {
    var phase, held := me.tests[n], HeldTests(key, p, me, k);
    HeldTestsAfter(key, p, me, n, NextPhase(phase), k);
    if key(Test(p, n)) == k && !phase.Claiming? {
      assert n in held && held + {n} == held;
    } else {
      assert n !in held && held - {n} == held;
    }
  }

  lemma HeldTestsAfter(key: KeyOf, p: string, me: Proc, n: nat, phase: Option<TestPhase>, k: int)
    requires n in me.tests
    ensures var held := HeldTests(key, p, me, k);
            HeldTests(key, p, SetPhase(me, n, phase), k) ==
            if phase.Some? && !phase.value.Claiming? && key(Test(p, n)) == k then held + {n} else held - {n}
  {
  }

  lemma OtherStepsTrack(key: KeyOf, p: string, me: Proc, n: nat, session: Session, k: int)
    requires WellPlaced(me) && session.p == p && me.alive
    ensures !me.pc.Ready? ==>
              WantEx(key, session, me.(pc := Failed), k) == (if session.Conn? then 0 else WantEx(key, session, me, k))
    ensures WantEx(key, session, me.(count := me.count + 1, tests := me.tests[me.count + 1 := Claiming]), k)
            == WantEx(key, session, me, k)
    ensures n in me.tests ==>
              WantEx(key, session, SetPhase(me, n, if me.tests[n].Claiming? then None else Some(Abandoned)), k)
                == WantEx(key, session, me, k)
  {
    assert HeldTests(key, p, me.(pc := Failed), k) == HeldTests(key, p, me, k);
    assert HeldTests(key, p, me.(count := me.count + 1, tests := me.tests[me.count + 1 := Claiming]), k)
           == HeldTests(key, p, me, k);
    if n in me.tests {
      assert HeldTests(key, p, SetPhase(me, n, if me.tests[n].Claiming? then None else Some(Abandoned)), k)
             == HeldTests(key, p, me, k);
    }
  }

  lemma StepTracksActor(key: KeyOf, s: State, a: Action, session: Session, k: int)
    requires Enabled(key, s, a) && !a.External? && session.p == a.p
    requires WellPlaced(s.procs[a.p]) && TrackedAt(key, s, session, k)
    ensures TrackedAt(key, Apply(key, s, a), session, k)
  {
    var me := s.procs[a.p];
    CountsAfter(s.locks, LockStep(key, s, a), session, k);
    match a
    case Advance(p, listed, ok) => AdvanceTracks(key, p, me, s.dbs, listed, Got(key, s, p, me), session, k);
    case AdvanceTest(p, n) => TestTracks(key, p, me, n, session, k);
    case FailTest(p, n) => OtherStepsTrack(key, p, me, n, session, k);
    case Fail(p) => OtherStepsTrack(key, p, me, 0, session, k);
    case Die(p) =>
    case StartTest(p) => OtherStepsTrack(key, p, me, 0, session, k);
  }

  lemma StepTracksOthers(key: KeyOf, s: State, a: Action, session: Session, k: int)
    requires Enabled(key, s, a) && (a.External? || session.p != a.p)
    requires TrackedAt(key, s, session, k)
    ensures TrackedAt(key, Apply(key, s, a), session, k)
  {
    CountsAfter(s.locks, LockStep(key, s, a), session, k);
  }

  lemma AdvanceKeepsPlace(me: Proc, dbs: map<Name, Contents>, listed: seq<Name>, got: bool)
    requires WellPlaced(me) && !me.pc.Ready?
    ensures WellPlaced(NextProc(me, dbs, listed, got))
  {
  }

  lemma StepKeepsPlace(key: KeyOf, s: State, a: Action)
    requires Enabled(key, s, a) && !a.External? && WellPlaced(s.procs[a.p])
    ensures WellPlaced(ProcStep(key, s, a))
  {
    var me := s.procs[a.p];
    if a.Advance? {
      AdvanceKeepsPlace(me, s.dbs, a.listed, Got(key, s, a.p, me));
    } else if a.AdvanceTest? || a.FailTest? {
      assert a.n in me.tests;
    }
  }

  lemma StepIsGranted(key: KeyOf, s: State, a: Action)
    requires Enabled(key, s, a)
    ensures Grants(s.locks, LockStep(key, s, a))
  {
  }

  lemma StepKeepsLocks(key: KeyOf, s: State, a: Action)
    requires LocksInv(key, s) && Enabled(key, s, a)
    ensures LocksInv(key, Apply(key, s, a))
  {
    var s' := Apply(key, s, a);
    StepIsGranted(key, s, a);
    LockOpKeepsExclusive(s.locks, LockStep(key, s, a));
    if !a.External? {
      StepKeepsPlace(key, s, a);
    }
    forall session, k ensures TrackedAt(key, s', session, k) {
      assert TrackedAt(key, s, session, k);
      if a.External? || session.p != a.p {
        StepTracksOthers(key, s, a, session, k);
      } else {
        StepTracksActor(key, s, a, session, k);
      }
    }
  }

  // Databases: nothing touches one without holding its lock.

  /** The step drops, changes or renames away a database of this name. */
  predicate Touches(op: DbOp, n: Name) {
    match op
    case Drop(m) => m == n
    case Change(m, c) => m == n
    case Move(m, to) => m == n
    case _ => false
  }

  lemma UntouchedStays(dbs: map<Name, Contents>, op: DbOp, n: Name)
    requires CanDb(dbs, op) && n in dbs && !Touches(op, n)
    ensures n in ApplyDb(dbs, op) && ApplyDb(dbs, op)[n] == dbs[n]
  {
  }

  lemma TouchIsLocked(key: KeyOf, s: State, a: Action, n: Name)
    requires LocksInv(key, s) && Enabled(key, s, a) && Touches(DbStep(key, s, a), n)
    ensures a.External? ==> n.Other?
    ensures a.Advance? || a.AdvanceTest? || a.External?
    ensures a.Advance? ==> Ex(s.locks, Conn(a.p), key(n)) > 0
    ensures a.AdvanceTest? ==> n == Test(a.p, a.n) && Ex(s.locks, Owner(a.p), key(n)) > 0
  {
    if a.Advance? {
      assert TrackedAt(key, s, Conn(a.p), key(n));
    } else if a.AdvanceTest? {
      assert TrackedAt(key, s, Owner(a.p), key(n));
      assert a.n in HeldTests(key, a.p, s.procs[a.p], key(n));
    }
  }

  /** Whoever has a lock on a database's key can rely on no other session touching the database. */
  lemma LockKeepsOthersOff(key: KeyOf, s: State, a: Action, n: Name, session: Session)
    requires LocksInv(key, s) && Enabled(key, s, a) && Touches(DbStep(key, s, a), n) && !n.Other?
    requires Ex(s.locks, session, key(n)) > 0 || Sh(s.locks, session, key(n)) > 0
    ensures a.Advance? ==> session == Conn(a.p)
    ensures a.AdvanceTest? ==> session == Owner(a.p) && n == Test(a.p, a.n)
    ensures a.Advance? || a.AdvanceTest?
  {
    TouchIsLocked(key, s, a, n);
  }

  /** The scratch database is there, with what's been done to it so far. */
  predicate HasScratch(me: Proc, dbs: map<Name, Contents>) {
    var scratch := Scratch(me.sum);
    && (me.pc.Restore? || me.pc.Extras? || me.pc.Rename? ==> scratch in dbs)
    && (me.pc.Extras? || me.pc.Rename? ==> dbs[scratch].restored == Some(me.sum))
    && (me.pc.Rename? ==> dbs[scratch].extras)
  }

  /** What a process relies on of databases. */
  predicate Relies(p: string, me: Proc, dbs: map<Name, Contents>) {
    && HasScratch(me, dbs)
    && (me.claimed && me.present ==> Template(me.sum) in dbs)
    && (forall n :: n in me.tests && me.tests[n].Live? ==> Test(p, n) in dbs && Complete(dbs[Test(p, n)], me.sum))
    && (forall n :: n in me.tests && IsCleared(me.tests[n]) ==> Test(p, n) !in dbs)
  }

  /** A test whose database has been dropped, to be cloned anew or for good. */
  predicate IsCleared(phase: TestPhase) {
    phase.Cloning? || phase.Releasing?
  }

  predicate TemplatesComplete(dbs: map<Name, Contents>) {
    forall n :: n in dbs && n.Template? ==> Complete(dbs[n], n.sum)
  }

  ghost predicate Inv(key: KeyOf, s: State) {
    && LocksInv(key, s)
    && TemplatesComplete(s.dbs)
    && forall p :: Alive(s, p) ==> Relies(p, s.procs[p], s.dbs)
  }

  /** A test's database only comes to be by its own test's cloning. */
  lemma OnlyCloningMakes(key: KeyOf, s: State, a: Action, p: string, n: nat)
    requires Enabled(key, s, a) && Test(p, n) !in s.dbs
    requires !(a.AdvanceTest? && a.p == p && a.n == n && s.procs[p].tests[n].Cloning?)
    ensures Test(p, n) !in Apply(key, s, a).dbs
  {
  }

  lemma ReliesOnLocked(key: KeyOf, s: State, p: string, a: Action)
    requires Inv(key, s) && Enabled(key, s, a) && Alive(s, p) && (a.External? || a.p != p)
    ensures Relies(p, s.procs[p], Apply(key, s, a).dbs)
  {
    var me, op := s.procs[p], DbStep(key, s, a);
    var scratch, template := Scratch(me.sum), Template(me.sum);
    assert TrackedAt(key, s, Conn(p), key(scratch));
    assert TrackedAt(key, s, Owner(p), key(template));
    if OnScratch(me.pc) && Touches(op, scratch) {
      LockKeepsOthersOff(key, s, a, scratch, Conn(p));
    }
    if me.claimed && Touches(op, template) {
      LockKeepsOthersOff(key, s, a, template, Owner(p));
    }
    forall n | n in me.tests && me.tests[n].Live? ensures !Touches(op, Test(p, n)) {
      HoldingTestHolds(key, s, p, n);
      if Touches(op, Test(p, n)) {
        LockKeepsOthersOff(key, s, a, Test(p, n), Owner(p));
      }
    }
    forall n | n in me.tests && IsCleared(me.tests[n]) ensures Test(p, n) !in Apply(key, s, a).dbs {
      OnlyCloningMakes(key, s, a, p, n);
    }
  }

  lemma HoldingTestHolds(key: KeyOf, s: State, p: string, n: nat)
    requires LocksInv(key, s) && Alive(s, p) && n in s.procs[p].tests && !s.procs[p].tests[n].Claiming?
    ensures Ex(s.locks, Owner(p), key(Test(p, n))) > 0
  {
    assert TrackedAt(key, s, Owner(p), key(Test(p, n)));
    assert n in HeldTests(key, p, s.procs[p], key(Test(p, n)));
  }

  lemma ActorReliesOnTests(key: KeyOf, s: State, a: Action)
    requires Inv(key, s) && Enabled(key, s, a) && !a.External?
    ensures var me' := ProcStep(key, s, a);
            forall n :: n in me'.tests && me'.tests[n].Live? ==>
              var dbs' := Apply(key, s, a).dbs;
              Test(a.p, n) in dbs' && Complete(dbs'[Test(a.p, n)], me'.sum)
  {
    var me, me', op := s.procs[a.p], ProcStep(key, s, a), DbStep(key, s, a);
    forall n | n in me'.tests && me'.tests[n].Live?
      ensures Test(a.p, n) in ApplyDb(s.dbs, op) && Complete(ApplyDb(s.dbs, op)[Test(a.p, n)], me'.sum)
    {
      if a.AdvanceTest? && a.n == n {
        assert me.tests[n].Cloning?;
      } else {
        assert n in me.tests && me.tests[n].Live?;
        HoldingTestHolds(key, s, a.p, n);
        if Touches(op, Test(a.p, n)) {
          LockKeepsOthersOff(key, s, a, Test(a.p, n), Owner(a.p));
        }
      }
    }
  }

  lemma ActorHasCleared(key: KeyOf, s: State, a: Action)
    requires Inv(key, s) && Enabled(key, s, a) && !a.External?
    ensures var me' := ProcStep(key, s, a);
            forall n :: n in me'.tests && IsCleared(me'.tests[n]) ==> Test(a.p, n) !in Apply(key, s, a).dbs
  {
    var me, me' := s.procs[a.p], ProcStep(key, s, a);
    forall n | n in me'.tests && IsCleared(me'.tests[n]) ensures Test(a.p, n) !in Apply(key, s, a).dbs {
      if a.AdvanceTest? && a.n == n {
        assert me.tests[n].Clearing? || me.tests[n].Live?;
      } else {
        assert n in me.tests && IsCleared(me.tests[n]);
        OnlyCloningMakes(key, s, a, a.p, n);
      }
    }
  }

  lemma ActorReliesOnTemplate(key: KeyOf, s: State, a: Action)
    requires Inv(key, s) && Enabled(key, s, a) && !a.External?
    ensures var me', dbs' := ProcStep(key, s, a), Apply(key, s, a).dbs;
            me'.claimed && me'.present ==> Template(me'.sum) in dbs'
  {
    var me, op := s.procs[a.p], DbStep(key, s, a);
    assert TrackedAt(key, s, Owner(a.p), key(Template(me.sum)));
    if me.claimed && Touches(op, Template(me.sum)) {
      LockKeepsOthersOff(key, s, a, Template(me.sum), Owner(a.p));
    }
  }

  lemma AdvanceKeepsScratch(me: Proc, dbs: map<Name, Contents>, listed: seq<Name>, got: bool, ok: bool)
    requires HasScratch(me, dbs) && CanDb(dbs, DbOpOf(me, dbs, ok))
    ensures HasScratch(NextProc(me, dbs, listed, got), ApplyDb(dbs, DbOpOf(me, dbs, ok)))
  {
    var next := NextPc(me, dbs, listed, got);
    if next.Restore? {
      assert me.pc.CreateScratch?;
    } else if next.Extras? {
      assert me.pc.Restore?;
    } else if next.Rename? {
      assert me.pc.Extras?;
    }
  }

  lemma ActorReliesOnScratch(key: KeyOf, s: State, a: Action)
    requires Inv(key, s) && Enabled(key, s, a) && !a.External?
    ensures HasScratch(ProcStep(key, s, a), Apply(key, s, a).dbs)
  {
    var me := s.procs[a.p];
    if a.Advance? {
      AdvanceKeepsScratch(me, s.dbs, a.listed, Got(key, s, a.p, me), a.ok);
    } else if a.AdvanceTest? || a.FailTest? {
      assert me.tests != map[] && WellPlaced(me);
    }
  }

  lemma StepKeepsTemplates(key: KeyOf, s: State, a: Action)
    requires Inv(key, s) && Enabled(key, s, a)
    ensures TemplatesComplete(Apply(key, s, a).dbs)
  {
    var op := DbStep(key, s, a);
    forall n | n in ApplyDb(s.dbs, op) && n.Template? ensures Complete(ApplyDb(s.dbs, op)[n], n.sum) {
      if n !in s.dbs || ApplyDb(s.dbs, op)[n] != s.dbs[n] {
        assert a.Advance?;
        var me := s.procs[a.p];
        assert Relies(a.p, me, s.dbs);
        assert op == Move(Scratch(me.sum), Template(me.sum));
        assert n == Template(me.sum);
      }
    }
  }

  lemma StepKeepsInv(key: KeyOf, s: State, a: Action)
    requires Inv(key, s) && Enabled(key, s, a)
    ensures Inv(key, Apply(key, s, a))
  {
    var s' := Apply(key, s, a);
    StepKeepsLocks(key, s, a);
    StepKeepsTemplates(key, s, a);
    forall p | Alive(s', p) ensures Relies(p, s'.procs[p], s'.dbs) {
      if a.External? || a.p != p {
        ReliesOnLocked(key, s, p, a);
      } else {
        ActorReliesOnTests(key, s, a);
        ActorHasCleared(key, s, a);
        ActorReliesOnTemplate(key, s, a);
        ActorReliesOnScratch(key, s, a);
      }
    }
  }

  lemma InitInv(key: KeyOf, s: State)
    requires Init(s)
    ensures Inv(key, s)
  {
    forall n | n in s.dbs && n.Template? ensures Complete(s.dbs[n], n.sum) {
      assert n == Template(n.sum);
    }
    forall session, k ensures TrackedAt(key, s, session, k) && Ex(s.locks, session, k) == 0 {
      if session.p in s.procs {
        assert HeldTests(key, session.p, s.procs[session.p], k) == {};
      }
    }
    forall p | p in s.procs ensures WellPlaced(s.procs[p]) && Relies(p, s.procs[p], s.dbs) {
      assert s.procs[p].pc == Start && s.procs[p].tests == map[];
    }
  }

  lemma {:induction false} RunKeepsInv(key: KeyOf, states: seq<State>, actions: seq<Action>, i: nat)
    requires IsRun(key, states, actions) && i <= |actions|
    ensures Inv(key, states[i])
  {
    if i == 0 {
      InitInv(key, states[0]);
    } else {
      RunKeepsInv(key, states, actions, i - 1);
      assert StepAt(key, states, actions, i - 1);
      StepKeepsInv(key, states[i - 1], actions[i - 1]);
    }
  }
}
