/** When a template is there once it's claimed. */
module TestDatabaseClaims {
  import opened Common
  import opened TestDatabases
  import opened TestDatabaseSafety
  import opened TestDatabaseRuns

  /** A sweep that hasn't listed databases yet, or has yet to get past this one. */
  predicate HasAhead(pc: Pc, n: Name) {
    match pc
    case ListStale => true
    case TryStale(names) => n in names
    case DropStale(names) => n in names
    case ReleaseStale(names) => names != [] && n in names[1..]
    case _ => false
  }

  /** A process that sweeps a template it doesn't itself keep off its key with a claim of its own. */
  predicate Threatens(key: KeyOf, me: Proc, template: Name) {
    me.alive && HasAhead(me.pc, template) && key(Template(me.sum)) != key(template)
  }

  ghost predicate Unthreatened(key: KeyOf, s: State, p: string)
    requires p in s.procs
  {
    forall q :: q in s.procs && q != p ==> !Threatens(key, s.procs[q], Template(s.procs[p].sum))
  }

  /** From the grant of the creation lock to just before its release. */
  predicate IsEnsuring(s: State, p: string) {
    p in s.procs && s.procs[p].alive && InCreation(s.procs[p].pc)
  }

  /** What keeps the claim from missing the template. */
  ghost predicate WillFind(key: KeyOf, s: State, p: string) {
    && IsEnsuring(s, p) && Unthreatened(key, s, p)
    && var me := s.procs[p];
       && (me.pc.ReleaseScratch? || me.pc.WantClaim? ==> Template(me.sum) in s.dbs)
       && (me.pc.ReleaseCreation? ==> me.claimed && me.present)
  }

  // While nothing threatens it, the template is found: no other sweep can begin until it's claimed.

  /** Only one process at a time is under the creation lock. */
  lemma OneEnsures(key: KeyOf, s: State, p: string, q: string)
    requires LocksInv(key, s) && IsEnsuring(s, p) && IsEnsuring(s, q)
    ensures p == q
  {
    assert TrackedAt(key, s, Conn(p), CREATION) && TrackedAt(key, s, Conn(q), CREATION);
  }

  lemma NoSweepBegins(key: KeyOf, s: State, a: Action, p: string, q: string)
    requires LocksInv(key, s) && Enabled(key, s, a) && IsEnsuring(s, p) && q != p && q in Apply(key, s, a).procs
    requires q in s.procs && !Threatens(key, s.procs[q], Template(s.procs[p].sum))
    ensures !Threatens(key, Apply(key, s, a).procs[q], Template(s.procs[p].sum))
  {
    if IsEnsuring(s, q) {
      OneEnsures(key, s, p, q);
    }
  }

  lemma OnlySweepsTake(key: KeyOf, s: State, a: Action, p: string)
    requires Inv(key, s) && Enabled(key, s, a) && WillFind(key, s, p) && Template(s.procs[p].sum) in s.dbs
    ensures Template(s.procs[p].sum) in Apply(key, s, a).dbs
  {
    var template := Template(s.procs[p].sum);
    if Touches(DbStep(key, s, a), template) {
      TouchIsLocked(key, s, a, template);
      var me := s.procs[a.p];
      assert me.pc.DropStale? && me.pc.names[0] == template;
      assert WellPlaced(me) && me.claimed;
      assert TrackedAt(key, s, Owner(a.p), key(template));
      LockKeepsOthersOff(key, s, a, template, Owner(a.p));
    }
    UntouchedStays(s.dbs, DbStep(key, s, a), template);
  }

  lemma StepStillFinds(key: KeyOf, s: State, a: Action, p: string)
    requires Inv(key, s) && Enabled(key, s, a) && WillFind(key, s, p) && IsEnsuring(Apply(key, s, a), p)
    ensures WillFind(key, Apply(key, s, a), p)
  {
    var s' := Apply(key, s, a);
    forall q | q in s'.procs && q != p ensures !Threatens(key, s'.procs[q], Template(s.procs[p].sum)) {
      NoSweepBegins(key, s, a, p, q);
    }
    if Template(s.procs[p].sum) in s.dbs {
      OnlySweepsTake(key, s, a, p);
    }
  }

  /** In every run, a process granted the creation lock while no other's sweep has its template ahead finds it there
      when its claim is granted, however long it takes, and with it from there on as long as it lives. */
  lemma {:induction false} ClaimFindsTemplate(key: KeyOf, states: seq<State>, actions: seq<Action>, p: string, i: nat,
                                              j: nat)
    requires IsRun(key, states, actions) && i <= j <= |actions|
    requires IsEnsuring(states[i], p) && states[i].procs[p].pc.Check? && Unthreatened(key, states[i], p)
    requires forall t :: i <= t <= j ==> IsEnsuring(states[t], p)
    ensures WillFind(key, states[j], p)
    ensures states[j].procs[p].pc.ReleaseCreation? ==> HasTemplate(states[j], p)
    decreases j
  {
    if i < j {
      ClaimFindsTemplate(key, states, actions, p, i, j - 1);
      RunKeepsInv(key, states, actions, j - 1);
      assert StepAt(key, states, actions, j - 1);
      StepStillFinds(key, states[j - 1], actions[j - 1], p);
    }
  }
}
