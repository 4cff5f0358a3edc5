/** That what's left behind goes: a sweep drops every database it lists that nobody has a claim on. */
module TestDatabaseSweeps {
  import opened Common
  import opened TestDatabases
  import opened TestDatabaseSafety
  import opened TestDatabaseRuns
  import opened TestDatabaseClaims

  ghost predicate IsUnclaimed(key: KeyOf, s: State, n: Name, sweeper: string) {
    forall session :: session != Conn(sweeper) ==>
      Ex(s.locks, session, key(n)) == 0 && Sh(s.locks, session, key(n)) == 0
  }

  /** A sweep lists every database of a template, scratch or test that there is. */
  lemma SweepLists(key: KeyOf, s: State, p: string, listed: seq<Name>, ok: bool, n: Name)
    requires Enabled(key, s, Advance(p, listed, ok)) && s.procs[p].pc.ListStale? && n in s.dbs && WellNamed(n)
    ensures var pc := Apply(key, s, Advance(p, listed, ok)).procs[p].pc; pc.TryStale? && n in pc.names
  {
    NamesAreApart(n, n);
  }

  predicate IsDropping(s: State, p: string, n: Name) {
    p in s.procs && s.procs[p].pc.DropStale? && s.procs[p].pc.names != [] && s.procs[p].pc.names[0] == n
  }

  lemma StepOfSweep(key: KeyOf, s: State, a: Action, p: string, n: Name)
    requires Inv(key, s) && Enabled(key, s, a) && Alive(s, p) && IsUnclaimed(key, s, n, p)
    requires !s.procs[p].pc.ListStale? && HasAhead(s.procs[p].pc, n) && a != Die(p) && a != Fail(p)
    requires !(a.Advance? && a.p == p && IsDropping(s, p, n))
    ensures var pc := Apply(key, s, a).procs[p].pc; !pc.ListStale? && HasAhead(pc, n)
  {
    var pc := s.procs[p].pc;
    if a.Advance? && a.p == p {
      assert n in pc.names && pc.names == [pc.names[0]] + pc.names[1..];
      if pc.TryStale? && pc.names[0] == n {
        assert Grants(s.locks, Lock(Conn(p), key(n)));
      }
    }
  }

  lemma DropsDatabase(key: KeyOf, s: State, a: Action, n: Name)
    requires Enabled(key, s, a) && a.Advance? && IsDropping(s, a.p, n)
    ensures a.ok ==> n !in Apply(key, s, a).dbs
  {
  }

  /** A sweep with a database ahead whose key no other session holds comes to dropping it, if it comes to its end. */
  lemma {:induction false} SweepReclaims(key: KeyOf, states: seq<State>, actions: seq<Action>, p: string, n: Name,
                                         i: nat, j: nat)
    returns (k: nat)
    requires IsRun(key, states, actions) && i <= j <= |actions|
    requires Alive(states[i], p) && !states[i].procs[p].pc.ListStale? && HasAhead(states[i].procs[p].pc, n)
    requires Alive(states[j], p) && states[j].procs[p].pc.Ready?
    requires forall t :: i <= t < j ==>
               actions[t] != Die(p) && actions[t] != Fail(p) && IsUnclaimed(key, states[t], n, p)
    ensures i <= k < j && actions[k].Advance? && actions[k].p == p && IsDropping(states[k], p, n)
    ensures actions[k].ok ==> n !in states[k + 1].dbs
    decreases j - i
  {
    RunKeepsInv(key, states, actions, i);
    assert StepAt(key, states, actions, i);
    var a := actions[i];
    if a.Advance? && a.p == p && IsDropping(states[i], p, n) {
      k := i;
      DropsDatabase(key, states[i], a, n);
    } else {
      StepOfSweep(key, states[i], a, p, n);
      k := SweepReclaims(key, states, actions, p, n, i + 1, j);
    }
  }

  /** What a dead process left is unclaimed but by its sweeper, unless what somebody alive uses hashes to its key. */
  lemma OrphanIsUnclaimed(key: KeyOf, s: State, n: Name, sweeper: string)
    requires LocksInv(key, s) && key(n) != CREATION
    requires forall x, m :: Alive(s, x) && IsOwn(x, s.procs[x], m) ==> key(m) != key(n)
    requires forall x, m :: Alive(s, x) && x != sweeper && IsOf(x, s.procs[x], m) ==> key(m) != key(n)
    ensures IsUnclaimed(key, s, n, sweeper)
  {
    forall session | session != Conn(sweeper)
      ensures Ex(s.locks, session, key(n)) == 0 && Sh(s.locks, session, key(n)) == 0
    {
      assert TrackedAt(key, s, session, key(n));
      var x := session.p;
      if Alive(s, x) {
        var me := s.procs[x];
        assert IsOwn(x, me, Template(me.sum)) && IsOwn(x, me, Scratch(me.sum));
        assert OnStale(me.pc) && me.pc.names != [] ==> IsOf(x, me, me.pc.names[0]);
        forall t | t in me.tests ensures key(Test(x, t)) != key(n) {
          assert IsOwn(x, me, Test(x, t));
        }
        assert HeldTests(key, x, me, key(n)) == {};
      }
    }
  }

  // What isn't a test's stays.

  ghost predicate ListsOnlySwept(s: State) {
    forall p, n :: p in s.procs && n in Names(s.procs[p].pc) ==> Swept(n)
  }

  lemma StepListsOnlySwept(key: KeyOf, s: State, a: Action)
    requires Enabled(key, s, a) && ListsOnlySwept(s)
    ensures ListsOnlySwept(Apply(key, s, a))
  {
    if !a.External? {
      forall n | n in Names(ProcStep(key, s, a).pc) ensures Swept(n) {
        assert n in Names(s.procs[a.p].pc) || (a.Advance? && n in a.listed);
      }
    }
  }

  lemma {:induction false} RunListsOnlySwept(key: KeyOf, states: seq<State>, actions: seq<Action>, i: nat)
    requires IsRun(key, states, actions) && i <= |actions|
    ensures ListsOnlySwept(states[i])
  {
    if i > 0 {
      RunListsOnlySwept(key, states, actions, i - 1);
      assert StepAt(key, states, actions, i - 1);
      StepListsOnlySwept(key, states[i - 1], actions[i - 1]);
    }
  }

  /** The same database is there or, as before, none is. */
  predicate IsAsBefore(before: map<Name, Contents>, after: map<Name, Contents>, n: Name) {
    if n in before then n in after && after[n] == before[n] else n !in after
  }

  lemma StepSparesOthers(key: KeyOf, s: State, a: Action, text: string)
    requires LocksInv(key, s) && ListsOnlySwept(s) && Enabled(key, s, a) && !Swept(Other(text))
    requires !(a.External? && a.text == text)
    ensures IsAsBefore(s.dbs, Apply(key, s, a).dbs, Other(text))
  {
    if a.Advance? && s.procs[a.p].pc.DropStale? {
      assert s.procs[a.p].pc.names != [] ==> s.procs[a.p].pc.names[0] in Names(s.procs[a.p].pc);
    }
  }

  /** Whatever is swept, nobody but whose it is touches a database that isn't named as those for tests are. */
  lemma {:induction false} OthersAreSpared(key: KeyOf, states: seq<State>, actions: seq<Action>, text: string,
                                           i: nat, j: nat)
    requires IsRun(key, states, actions) && i <= j <= |actions|
    requires !Like(text, TEST_PREFIX) && !Like(text, TEMPLATE_PREFIX)
    requires forall t :: i <= t < j ==> !(actions[t].External? && actions[t].text == text)
    ensures IsAsBefore(states[i].dbs, states[j].dbs, Other(text))
    decreases j
  {
    if i < j {
      OthersAreSpared(key, states, actions, text, i, j - 1);
      RunKeepsInv(key, states, actions, j - 1);
      RunListsOnlySwept(key, states, actions, j - 1);
      assert StepAt(key, states, actions, j - 1);
      StepSparesOthers(key, states[j - 1], actions[j - 1], text);
    }
  }
}
