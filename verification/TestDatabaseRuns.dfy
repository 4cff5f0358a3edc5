/** What holds over whole runs of the test database protocol, and a run that shows where its comments promise more. */
module TestDatabaseRuns {
  import opened Common
  import opened TestDatabases
  import opened TestDatabaseSafety

  /** A sweep drops a database only when no other session, of whatever process, holds its key in any mode. */
  lemma SweepDropsUnclaimed(key: KeyOf, states: seq<State>, actions: seq<Action>, i: nat, session: Session)
    requires IsRun(key, states, actions) && i < |actions| && actions[i].Advance?
    requires actions[i].p in states[i].procs
    requires var me := states[i].procs[actions[i].p]; me.pc.DropStale? && session != Conn(actions[i].p)
    ensures var names := states[i].procs[actions[i].p].pc.names;
            && names != []
            && Ex(states[i].locks, session, key(names[0])) == 0 && Sh(states[i].locks, session, key(names[0])) == 0
  {
    var p := actions[i].p;
    RunKeepsInv(key, states, actions, i);
    assert StepAt(key, states, actions, i);
    assert TrackedAt(key, states[i], Conn(p), key(states[i].procs[p].pc.names[0]));
  }

  predicate IsTestLive(s: State, p: string, n: nat) {
    p in s.procs && s.procs[p].alive && n in s.procs[p].tests && s.procs[p].tests[n].Live?
  }

  /** The test is running, or its process has given up on dropping its database, which is still there. */
  predicate IsTestKept(s: State, p: string, n: nat) {
    && p in s.procs && s.procs[p].alive && n in s.procs[p].tests
    && (s.procs[p].tests[n].Live? || s.procs[p].tests[n].Abandoned?)
    && Test(p, n) in s.dbs
  }

  /** From its cloning on, a test's database is there, as its test left it, until that test drops it or its process
      dies: whatever any other process does, whatever else hashes to its key, and also after a drop that failed. */
  lemma {:induction false} TestDatabaseOutlives(key: KeyOf, states: seq<State>, actions: seq<Action>, p: string,
                                                n: nat, i: nat, j: nat)
    requires IsRun(key, states, actions) && i <= j <= |actions|
    requires IsTestLive(states[i], p, n)
    requires forall t :: i <= t < j ==> actions[t] != Die(p) && actions[t] != AdvanceTest(p, n)
    ensures IsTestKept(states[j], p, n)
    ensures Test(p, n) in states[i].dbs && states[j].dbs[Test(p, n)] == states[i].dbs[Test(p, n)]
    decreases j
  {
    if i == j {
      assert Test(p, n) in states[i].dbs by {
        RunKeepsInv(key, states, actions, i);
        LiveTestHasDatabase(key, states[i], p, n);
      }
    } else {
      TestDatabaseOutlives(key, states, actions, p, n, i, j - 1);
      KeptTestSurvivesAt(key, states, actions, p, n, j - 1);
    }
  }

  lemma LiveTestHasDatabase(key: KeyOf, s: State, p: string, n: nat)
    requires Inv(key, s) && IsTestLive(s, p, n)
    ensures Test(p, n) in s.dbs
  {
    assert Relies(p, s.procs[p], s.dbs);
  }

  lemma KeptTestSurvivesAt(key: KeyOf, states: seq<State>, actions: seq<Action>, p: string, n: nat, t: nat)
    requires IsRun(key, states, actions) && t < |actions| && IsTestKept(states[t], p, n)
    requires actions[t] != Die(p) && actions[t] != AdvanceTest(p, n)
    ensures IsTestKept(states[t + 1], p, n)
    ensures states[t + 1].dbs[Test(p, n)] == states[t].dbs[Test(p, n)]
  {
    RunKeepsInv(key, states, actions, t);
    assert StepAt(key, states, actions, t);
    KeptTestSurvivesStep(key, states[t], actions[t], p, n);
  }

  lemma KeptTestSurvivesStep(key: KeyOf, s: State, a: Action, p: string, n: nat)
    requires Inv(key, s) && Enabled(key, s, a) && IsTestKept(s, p, n)
    requires a != Die(p) && a != AdvanceTest(p, n)
    ensures var s' := Apply(key, s, a); IsTestKept(s', p, n) && s'.dbs[Test(p, n)] == s.dbs[Test(p, n)]
  {
    HoldingTestHolds(key, s, p, n);
    if Touches(DbStep(key, s, a), Test(p, n)) {
      LockKeepsOthersOff(key, s, a, Test(p, n), Owner(p));
    }
    UntouchedStays(s.dbs, DbStep(key, s, a), Test(p, n));
    assert WellPlaced(s.procs[p]);
  }

  /** If the test's database is there, the test, past its claim, still is. */
  predicate IsAccountedFor(s: State, p: string, n: nat) {
    && p in s.procs && s.procs[p].alive && n <= s.procs[p].count
    && (n in s.procs[p].tests ==> !s.procs[p].tests[n].Claiming?)
    && (Test(p, n) in s.dbs ==> n in s.procs[p].tests)
  }

  lemma StepAccountsFor(key: KeyOf, s: State, a: Action, p: string, n: nat)
    requires Inv(key, s) && Enabled(key, s, a) && IsAccountedFor(s, p, n) && a != Die(p)
    ensures IsAccountedFor(Apply(key, s, a), p, n)
  {
    if a == AdvanceTest(p, n) {
      assert Relies(p, s.procs[p], s.dbs);
    } else if Test(p, n) !in s.dbs {
      OnlyCloningMakes(key, s, a, p, n);
    }
  }

  /** From its claim on, as long as its process lives, a test's database is never there without the lock on its key:
      what ends its test and what fails in between keep it or drop the database first. So a test that's gone has left
      none. */
  lemma {:induction false} TestDatabaseIsClaimed(key: KeyOf, states: seq<State>, actions: seq<Action>, p: string,
                                                 n: nat, i: nat, j: nat)
    requires IsRun(key, states, actions) && i <= j <= |actions|
    requires Alive(states[i], p) && n in states[i].procs[p].tests && !states[i].procs[p].tests[n].Claiming?
    requires forall t :: i <= t < j ==> actions[t] != Die(p)
    ensures IsAccountedFor(states[j], p, n)
    ensures Test(p, n) in states[j].dbs ==> Ex(states[j].locks, Owner(p), key(Test(p, n))) > 0
    decreases j
  {
    RunKeepsInv(key, states, actions, j);
    if i < j {
      TestDatabaseIsClaimed(key, states, actions, p, n, i, j - 1);
      RunKeepsInv(key, states, actions, j - 1);
      assert StepAt(key, states, actions, j - 1);
      StepAccountsFor(key, states[j - 1], actions[j - 1], p, n);
    } else {
      assert WellPlaced(states[i].procs[p]);
    }
    if Test(p, n) in states[j].dbs {
      HoldingTestHolds(key, states[j], p, n);
    }
  }

  /** The test has ended, or failed at letting go of the lock, and its database isn't there. */
  predicate IsGone(s: State, p: string, n: nat) {
    && p in s.procs && s.procs[p].alive && n <= s.procs[p].count && Test(p, n) !in s.dbs
    && (n in s.procs[p].tests ==> s.procs[p].tests[n].Releasing? || s.procs[p].tests[n].Abandoned?)
  }

  lemma GoneStaysGone(key: KeyOf, s: State, a: Action, p: string, n: nat)
    requires Inv(key, s) && Enabled(key, s, a) && IsGone(s, p, n) && a != Die(p)
    ensures IsGone(Apply(key, s, a), p, n)
  {
    OnlyCloningMakes(key, s, a, p, n);
  }

  /** The step that ends a running test drops its database, before the lock on it goes and for as long as its process
      lives. */
  lemma {:induction false} EndedTestLeavesNothing(key: KeyOf, states: seq<State>, actions: seq<Action>, p: string,
                                                  n: nat, i: nat, j: nat)
    requires IsRun(key, states, actions) && i < j <= |actions|
    requires actions[i] == AdvanceTest(p, n) && IsTestLive(states[i], p, n)
    requires forall t :: i <= t < j ==> actions[t] != Die(p)
    ensures IsGone(states[j], p, n)
    ensures Ex(states[i + 1].locks, Owner(p), key(Test(p, n))) > 0
    decreases j
  {
    RunKeepsInv(key, states, actions, i + 1);
    assert StepAt(key, states, actions, i);
    if i + 1 < j {
      EndedTestLeavesNothing(key, states, actions, p, n, i, j - 1);
      RunKeepsInv(key, states, actions, j - 1);
      assert StepAt(key, states, actions, j - 1);
      GoneStaysGone(key, states[j - 1], actions[j - 1], p, n);
    } else {
      assert Relies(p, states[j].procs[p], states[j].dbs) && WellPlaced(states[j].procs[p]);
      HoldingTestHolds(key, states[j], p, n);
    }
  }

  predicate HasTemplate(s: State, p: string) {
    p in s.procs && s.procs[p].alive && s.procs[p].claimed && s.procs[p].present
  }

  /** A template that was there when a process was granted its claim stays, unchanged, as long as that process lives. */
  lemma {:induction false} ClaimedTemplateStays(key: KeyOf, states: seq<State>, actions: seq<Action>, p: string,
                                                i: nat, j: nat)
    requires IsRun(key, states, actions) && i <= j <= |actions|
    requires HasTemplate(states[i], p)
    requires forall t :: i <= t < j ==> actions[t] != Die(p)
    ensures HasTemplate(states[j], p) && states[j].procs[p].sum == states[i].procs[p].sum
    ensures var template := Template(states[i].procs[p].sum);
            template in states[i].dbs && template in states[j].dbs && states[j].dbs[template] == states[i].dbs[template]
    decreases j
  {
    if i == j {
      assert Template(states[i].procs[p].sum) in states[i].dbs by {
        RunKeepsInv(key, states, actions, i);
        ClaimantHasTemplate(key, states[i], p);
      }
    } else {
      ClaimedTemplateStays(key, states, actions, p, i, j - 1);
      TemplateSurvivesAt(key, states, actions, p, j - 1);
    }
  }

  lemma ClaimantHasTemplate(key: KeyOf, s: State, p: string)
    requires Inv(key, s) && HasTemplate(s, p)
    ensures Template(s.procs[p].sum) in s.dbs
  {
    assert Relies(p, s.procs[p], s.dbs);
  }

  lemma TemplateSurvivesAt(key: KeyOf, states: seq<State>, actions: seq<Action>, p: string, t: nat)
    requires IsRun(key, states, actions) && t < |actions| && HasTemplate(states[t], p) && actions[t] != Die(p)
    ensures HasTemplate(states[t + 1], p) && states[t + 1].procs[p].sum == states[t].procs[p].sum
    ensures var template := Template(states[t].procs[p].sum);
            && template in states[t].dbs && template in states[t + 1].dbs
            && states[t + 1].dbs[template] == states[t].dbs[template]
  {
    RunKeepsInv(key, states, actions, t);
    assert StepAt(key, states, actions, t);
    TemplateSurvivesStep(key, states[t], actions[t], p);
  }

  lemma TemplateSurvivesStep(key: KeyOf, s: State, a: Action, p: string)
    requires Inv(key, s) && Enabled(key, s, a) && HasTemplate(s, p) && a != Die(p)
    ensures var s' := Apply(key, s, a);
            var template := Template(s.procs[p].sum);
            && HasTemplate(s', p) && s'.procs[p].sum == s.procs[p].sum
            && template in s.dbs && template in s'.dbs && s'.dbs[template] == s.dbs[template]
  {
    var template := Template(s.procs[p].sum);
    assert Relies(p, s.procs[p], s.dbs);
    assert WellPlaced(s.procs[p]);
    assert TrackedAt(key, s, Owner(p), key(template));
    if Touches(DbStep(key, s, a), template) {
      LockKeepsOthersOff(key, s, a, template, Owner(p));
    }
    UntouchedStays(s.dbs, DbStep(key, s, a), template);
  }

  /** Whatever failed or died along the way, what's under a template's final name is a whole restore of that template's
      dump with the extras applied. */
  lemma TemplatesAreWhole(key: KeyOf, states: seq<State>, actions: seq<Action>, i: nat, sum: string)
    requires IsRun(key, states, actions) && i <= |actions| && Template(sum) in states[i].dbs
    ensures Complete(states[i].dbs[Template(sum)], sum)
  {
    RunKeepsInv(key, states, actions, i);
  }

  /** The process is at work on a database: building it under a scratch name, or about to sweep it. */
  predicate ActsOn(s: State, p: string, n: Name) {
    && p in s.procs && s.procs[p].alive
    && var me := s.procs[p];
       (OnScratch(me.pc) && !me.pc.ReleaseScratch? && n == Scratch(me.sum))
       || (me.pc.DropStale? && me.pc.names != [] && n == me.pc.names[0])
  }

  /** No two builders or sweepers are ever at work on one database. */
  lemma OneActsOnADatabase(key: KeyOf, states: seq<State>, actions: seq<Action>, i: nat, n: Name, p: string, q: string)
    requires IsRun(key, states, actions) && i <= |actions|
    requires ActsOn(states[i], p, n) && ActsOn(states[i], q, n)
    ensures p == q
  {
    RunKeepsInv(key, states, actions, i);
    assert TrackedAt(key, states[i], Conn(p), key(n)) && TrackedAt(key, states[i], Conn(q), key(n));
  }

  // Deadlock.

  /** A database of a process's own: its template, its scratch, or one of its tests'. */
  predicate IsOwn(p: string, me: Proc, n: Name) {
    n == Template(me.sum) || n == Scratch(me.sum) || (n.Test? && n.proc == p && n.count in me.tests)
  }

  /** A database a process may hold or be waiting for: one of its own, or the one it's sweeping. */
  predicate IsOf(p: string, me: Proc, n: Name) {
    IsOwn(p, me, n) || (OnStale(me.pc) && me.pc.names != [] && n == me.pc.names[0])
  }

  ghost predicate InUse(s: State, n: Name) {
    exists p :: Alive(s, p) && IsOf(p, s.procs[p], n)
  }

  /** Different databases in use hash to different keys, and none to the creation lock's. */
  ghost predicate DistinctKeys(key: KeyOf, s: State) {
    && (forall m, n :: InUse(s, m) && InUse(s, n) && key(m) == key(n) ==> m == n)
    && forall n :: InUse(s, n) ==> key(n) != CREATION
  }

  /** The locks a process is waiting for: its next step's, if that blocks, and those of tests being claimed. */
  ghost predicate IsWaiting(key: KeyOf, s: State, p: string, op: LockOp) {
    && Alive(s, p)
    && ((!s.procs[p].pc.TryStale? && op == LockOpOf(key, p, s.procs[p], true))
        || exists n :: (n in s.procs[p].tests && s.procs[p].tests[n].Claiming?
                        && op == TestLockOpOf(key, p, n, Claiming)))
    && (op.Lock? || op.Share?)
    && !Grants(s.locks, op)
  }

  /** Somebody else's session holds what keeps a lock from being granted. */
  predicate Blocks(s: State, op: LockOp, session: Session) {
    && (op.Lock? || op.Share?)
    && session != op.session
    && (Ex(s.locks, session, op.key) > 0 || (op.Lock? && Sh(s.locks, session, op.key) > 0))
  }

  /** One process is ahead of another in the queue for a lock. */
  ghost predicate Ahead(key: KeyOf, s: State, arrived: map<string, nat>, q: string, p: string, k: int) {
    p in arrived && q in arrived && arrived[q] < arrived[p]
    && exists op :: IsWaiting(key, s, q, op) && op.key == k
  }

  /** Process p waits for q: q holds what keeps p's lock from being granted, or is ahead of p in the queue for it.
      `arrived` is any order in which requests queued up. */
  ghost predicate WaitsFor(key: KeyOf, s: State, arrived: map<string, nat>, p: string, q: string) {
    exists op :: IsWaiting(key, s, p, op)
                 && (Blocks(s, op, Owner(q)) || Blocks(s, op, Conn(q)) || Ahead(key, s, arrived, q, p, op.key))
  }

  /** How far along the order of locks a process waits: for the creation lock, for one of its own, or not at all. */
  ghost function Level(key: KeyOf, s: State, p: string): nat {
    if Alive(s, p) && s.procs[p].pc.WantCreation? then 0
    else if exists op :: IsWaiting(key, s, p, op) then 1
    else 2
  }

  /** Who holds a key exclusively while keys are distinct: the database's own process, or a sweeper. */
  lemma HolderOf(key: KeyOf, s: State, session: Session, k: int)
    requires DistinctKeys(key, s) && LocksInv(key, s)
    requires Ex(s.locks, session, k) > 0
    ensures Alive(s, session.p)
    ensures var me := s.procs[session.p];
            || (session.Conn? && InCreation(me.pc) && k == CREATION)
            || (session.Conn? && OnScratch(me.pc) && k == key(Scratch(me.sum)))
            || (session.Conn? && OnStale(me.pc) && me.pc.names != [] && k == key(me.pc.names[0]))
            || (session.Owner? && exists n :: n in me.tests && k == key(Test(session.p, n)))
  {
    assert TrackedAt(key, s, session, k);
    if session.Owner? {
      var held := HeldTests(key, session.p, s.procs[session.p], k);
      assert held != {};
      var n :| n in held;
    } else if OnStale(s.procs[session.p].pc) {
      assert k == key(s.procs[session.p].pc.names[0]);
    }
  }

  /** What isn't waiting for the creation lock is waiting for a database of its own. */
  lemma WaitedKey(key: KeyOf, s: State, p: string, op: LockOp)
    requires LocksInv(key, s) && IsWaiting(key, s, p, op)
    ensures op.session.p == p
    ensures s.procs[p].pc.WantCreation? ==> op == Lock(Conn(p), CREATION)
    ensures s.procs[p].pc.WantScratch? ==> op == Lock(Conn(p), key(Scratch(s.procs[p].sum)))
    ensures s.procs[p].pc.WantClaim? ==> op == Share(Owner(p), key(Template(s.procs[p].sum)))
    ensures !s.procs[p].pc.WantCreation? && !s.procs[p].pc.WantScratch? && !s.procs[p].pc.WantClaim? ==>
              && s.procs[p].pc.Ready? && op.Lock? && op.session == Owner(p)
              && exists n :: n in s.procs[p].tests && op.key == key(Test(p, n))
  {
    assert WellPlaced(s.procs[p]);
  }

  /** Waiting for a holder leads up the order of locks: creation, then one's own, then not waiting. */
  lemma HoldersAreFurtherOn(key: KeyOf, s: State, p: string, op: LockOp, session: Session)
    requires DistinctKeys(key, s) && LocksInv(key, s) && IsWaiting(key, s, p, op)
    requires Blocks(s, op, session)
    ensures Level(key, s, session.p) > Level(key, s, p)
  {
    var q := session.p;
    assert TrackedAt(key, s, session, op.key);
    WaitedKey(key, s, p, op);
    if Ex(s.locks, session, op.key) > 0 {
      HolderOf(key, s, session, op.key);
      if op.key != CREATION {
        forall op' | IsWaiting(key, s, q, op') ensures false {
          WaitedKey(key, s, q, op');
        }
      }
    }
  }

  lemma QueuesAreForCreation(key: KeyOf, s: State, p: string, q: string, op: LockOp, op': LockOp)
    requires DistinctKeys(key, s) && LocksInv(key, s)
    requires IsWaiting(key, s, p, op) && IsWaiting(key, s, q, op') && op.key == op'.key && p != q
    ensures Level(key, s, p) == Level(key, s, q)
  {
    WaitedKey(key, s, p, op);
    WaitedKey(key, s, q, op');
  }

  lemma WaitingGoesUp(key: KeyOf, s: State, arrived: map<string, nat>, p: string, q: string)
    requires DistinctKeys(key, s) && LocksInv(key, s) && WaitsFor(key, s, arrived, p, q)
    ensures Above(key, s, arrived, p, q)
  {
    var op :| IsWaiting(key, s, p, op)
              && (Blocks(s, op, Owner(q)) || Blocks(s, op, Conn(q)) || Ahead(key, s, arrived, q, p, op.key));
    if Blocks(s, op, Owner(q)) {
      HoldersAreFurtherOn(key, s, p, op, Owner(q));
    } else if Blocks(s, op, Conn(q)) {
      HoldersAreFurtherOn(key, s, p, op, Conn(q));
    } else {
      var op' :| IsWaiting(key, s, q, op') && op'.key == op.key;
      QueuesAreForCreation(key, s, p, q, op, op');
    }
  }

  /** Further up the order of locks, or ahead in the same queue. */
  ghost predicate Above(key: KeyOf, s: State, arrived: map<string, nat>, p: string, q: string) {
    Level(key, s, q) > Level(key, s, p)
    || (Level(key, s, q) == Level(key, s, p) && p in arrived && q in arrived && arrived[q] < arrived[p])
  }

  lemma AboveIsTransitive(key: KeyOf, s: State, arrived: map<string, nat>, p: string, q: string, r: string)
    requires Above(key, s, arrived, p, q) && Above(key, s, arrived, q, r)
    ensures Above(key, s, arrived, p, r)
  {
  }

  ghost predicate WaitPath(key: KeyOf, s: State, arrived: map<string, nat>, path: seq<string>) {
    forall i :: 0 <= i < |path| - 1 ==> WaitsFor(key, s, arrived, path[i], path[i + 1])
  }

  lemma {:induction false} PathGoesUp(key: KeyOf, s: State, arrived: map<string, nat>, path: seq<string>)
    requires DistinctKeys(key, s) && LocksInv(key, s) && WaitPath(key, s, arrived, path) && |path| >= 2
    ensures Above(key, s, arrived, path[0], path[|path| - 1])
    decreases |path|
  {
    var n := |path| - 1;
    WaitingGoesUp(key, s, arrived, path[n - 1], path[n]);
    if n > 1 {
      PathGoesUp(key, s, arrived, path[..n]);
      AboveIsTransitive(key, s, arrived, path[0], path[n - 1], path[n]);
    }
  }

  /** With distinct keys no reachable state has a cycle of processes each waiting for the next. */
  lemma NoDeadlock(key: KeyOf, states: seq<State>, actions: seq<Action>, i: nat, arrived: map<string, nat>,
                   path: seq<string>)
    requires IsRun(key, states, actions) && i <= |actions| && DistinctKeys(key, states[i])
    requires |path| >= 2 && WaitPath(key, states[i], arrived, path)
    ensures path[0] != path[|path| - 1]
  {
    RunKeepsInv(key, states, actions, i);
    PathGoesUp(key, states[i], arrived, path);
  }
}
