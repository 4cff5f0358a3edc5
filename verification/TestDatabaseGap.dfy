/** How a template can go between being built and being claimed: a sweep that has it ahead as its builder is granted the
    creation lock needn't wait for that lock to drop it, so a builder is sure of its template just when there's no such
    sweep. */
module TestDatabaseGap {
  import opened Common
  import opened TestDatabases
  import opened TestDatabaseSafety
  import opened TestDatabaseRuns
  import opened TestDatabaseClaims

  datatype Trace = Trace(states: seq<State>, actions: seq<Action>)

  ghost predicate IsTrace(key: KeyOf, r: Trace) {
    IsRun(key, r.states, r.actions)
  }

  function Last(r: Trace): State
    requires |r.states| == |r.actions| + 1
  {
    r.states[|r.actions|]
  }

  /** A run that goes on from another, with the process ensuring its template all along. */
  ghost predicate GoesOn(key: KeyOf, r0: Trace, r: Trace, p: string) {
    && IsTrace(key, r0) && IsTrace(key, r)
    && r0.states <= r.states && r0.actions <= r.actions
    && forall t :: |r0.actions| <= t <= |r.actions| ==> IsEnsuring(r.states[t], p)
  }

  lemma Extend(key: KeyOf, r: Trace, a: Action) returns (r': Trace)
    requires IsTrace(key, r) && Enabled(key, Last(r), a)
    ensures IsTrace(key, r') && r' == Trace(r.states + [Apply(key, Last(r), a)], r.actions + [a])
  {
    r' := Trace(r.states + [Apply(key, Last(r), a)], r.actions + [a]);
    forall i | 0 <= i < |r'.actions| ensures StepAt(key, r'.states, r'.actions, i) {
      if i < |r.actions| {
        assert StepAt(key, r.states, r.actions, i);
      }
    }
  }

  lemma Go(key: KeyOf, r0: Trace, r: Trace, p: string, a: Action) returns (r': Trace)
    requires GoesOn(key, r0, r, p) && Enabled(key, Last(r), a) && IsEnsuring(Apply(key, Last(r), a), p)
    ensures GoesOn(key, r0, r', p) && Last(r') == Apply(key, Last(r), a)
  {
    r' := Extend(key, r, a);
    forall t | |r0.actions| <= t <= |r'.actions| ensures IsEnsuring(r'.states[t], p) {
      if t <= |r.actions| {
        assert r'.states[t] == r.states[t];
      }
    }
  }

  // Two processes, alone.

  /** Only these two are alive, the first ensuring its template and the second sweeping. */
  predicate AreAlone(s: State, p: string, q: string) {
    && p != q && IsEnsuring(s, p) && q in s.procs && s.procs[q].alive && IsSweeping(s.procs[q].pc)
    && forall r :: r in s.procs && s.procs[r].alive ==> r == p || r == q
  }

  predicate IsSweeping(pc: Pc) {
    pc.ListStale? || pc.TryStale? || OnStale(pc)
  }

  /** What either of two processes alone holds is what its place says. */
  lemma AloneHold(key: KeyOf, s: State, p: string, q: string, other: Session, k: int)
    requires LocksInv(key, s) && AreAlone(s, p, q)
    ensures Ex(s.locks, other, k)
            == if other == Conn(p) || other == Conn(q) then ConnEx(key, s.procs[other.p], k) else 0
    ensures Sh(s.locks, other, k) > 0 ==>
              (other == Owner(p) && s.procs[p].claimed && k == key(Template(s.procs[p].sum)))
              || (other == Owner(q) && k == key(Template(s.procs[q].sum)))
  {
    assert TrackedAt(key, s, other, k);
    if other == Owner(p) || other == Owner(q) {
      assert WellPlaced(s.procs[other.p]) && s.procs[other.p].tests == map[];
      assert HeldTests(key, other.p, s.procs[other.p], k) == {};
    }
  }

  lemma KeepAlone(key: KeyOf, r: Trace)
    requires IsTrace(key, r)
    ensures Inv(key, Last(r))
  {
    RunKeepsInv(key, r.states, r.actions, |r.actions|);
  }

  /** Everyone else may die. */
  lemma {:induction false} OthersDie(key: KeyOf, r0: Trace, r: Trace, p: string, q: string, others: set<string>)
    returns (r': Trace)
    requires GoesOn(key, r0, r, p) && p != q && p !in others && q !in others
    requires q in Last(r).procs && Last(r).procs[q].alive && IsSweeping(Last(r).procs[q].pc)
    requires forall x :: x in others ==> Alive(Last(r), x)
    requires forall x :: Alive(Last(r), x) ==> x == p || x == q || x in others
    ensures GoesOn(key, r0, r', p) && AreAlone(Last(r'), p, q) && Last(r').dbs == Last(r).dbs
    ensures Last(r').procs[p] == Last(r).procs[p] && Last(r').procs[q] == Last(r).procs[q]
    decreases |others|
  {
    if others == {} {
      r' := r;
      forall x | x in Last(r).procs && Last(r).procs[x].alive ensures x == p || x == q {
        assert Alive(Last(r), x);
      }
    } else {
      var x :| x in others;
      var r1 := Go(key, r0, r, p, Die(x));
      r' := OthersDie(key, r0, r1, p, q, others - {x});
    }
  }

  /** A step of the second process, that drops nothing. */
  lemma StepOfQ(key: KeyOf, r0: Trace, r: Trace, p: string, q: string, listed: seq<Name>) returns (r': Trace)
    requires GoesOn(key, r0, r, p) && AreAlone(Last(r), p, q) && Enabled(key, Last(r), Advance(q, listed, false))
    requires IsSweeping(NextPc(Last(r).procs[q], Last(r).dbs, listed, Got(key, Last(r), q, Last(r).procs[q])))
    ensures GoesOn(key, r0, r', p) && AreAlone(Last(r'), p, q) && Last(r').dbs == Last(r).dbs
    ensures Last(r').procs[p] == Last(r).procs[p]
    ensures var me := Last(r).procs[q];
            Last(r').procs[q] == me.(pc := NextPc(me, Last(r).dbs, listed, Got(key, Last(r), q, me)))
  {
    r' := Go(key, r0, r, p, Advance(q, listed, false));
  }

  function Rank(pc: Pc): nat {
    if pc.TryStale? then 2 else if pc.DropStale? then 1 else 0
  }

  /** The sweep can get as far as the template, failing to drop anything before. */
  lemma {:induction false} SweepGetsTo(key: KeyOf, r0: Trace, r: Trace, p: string, q: string, n: Name)
    returns (r': Trace)
    requires GoesOn(key, r0, r, p) && AreAlone(Last(r), p, q)
    requires HasAhead(Last(r).procs[q].pc, n) && !Last(r).procs[q].pc.ListStale?
    ensures GoesOn(key, r0, r', p) && AreAlone(Last(r'), p, q) && Last(r').dbs == Last(r).dbs
    ensures Last(r').procs[p] == Last(r).procs[p] && Last(r').procs[q].sum == Last(r).procs[q].sum
    ensures var pc := Last(r').procs[q].pc; (pc.TryStale? || pc.DropStale?) && pc.names != [] && pc.names[0] == n
    decreases |Names(Last(r).procs[q].pc)|, Rank(Last(r).procs[q].pc)
  {
    var pc := Last(r).procs[q].pc;
    if (pc.TryStale? || pc.DropStale?) && pc.names[0] == n {
      r' := r;
    } else {
      assert n in pc.names ==> pc.names == [pc.names[0]] + pc.names[1..];
      var r1 := StepOfQ(key, r0, r, p, q, []);
      r' := SweepGetsTo(key, r0, r1, p, q, n);
    }
  }

  // The first process builds its template, if it's not there.

  function StepsLeft(pc: Pc): nat {
    match pc
    case Check => 9
    case WantScratch => 8
    case DropScratch => 7
    case CreateScratch => 6
    case Restore => 5
    case Extras => 4
    case Rename => 3
    case ReleaseScratch => 2
    case WantClaim => 1
    case _ => 0
  }

  predicate InBuild(pc: Pc) {
    pc.WantScratch? || pc.DropScratch? || pc.CreateScratch? || pc.Restore? || pc.Extras? || pc.Rename?
  }

  /** It's there once it's built, and the scratch isn't just after it's dropped. */
  predicate CanBuild(me: Proc, dbs: map<Name, Contents>) {
    && StepsLeft(me.pc) > 0
    && (me.pc.ReleaseScratch? || me.pc.WantClaim? ==> Template(me.sum) in dbs)
    && (InBuild(me.pc) ==> Template(me.sum) !in dbs)
    && (me.pc.CreateScratch? ==> Scratch(me.sum) !in dbs)
  }

  lemma BuildStep(me: Proc, dbs: map<Name, Contents>)
    requires CanBuild(me, dbs) && HasScratch(me, dbs) && StepsLeft(me.pc) > 1
    ensures CanDb(dbs, DbOpOf(me, dbs, true))
    ensures var me' := NextProc(me, dbs, [], true);
            && CanBuild(me', ApplyDb(dbs, DbOpOf(me, dbs, true)))
            && StepsLeft(me'.pc) < StepsLeft(me.pc) && InCreation(me'.pc)
            && me' == me.(pc := me'.pc)
  {
  }

  /** Nothing the sweep holds stands in the build's way. */
  predicate BuildIsFree(key: KeyOf, p: Proc, q: Proc) {
    && key(Scratch(p.sum)) != key(Template(q.sum))
    && (q.pc.ListStale? || q.pc.TryStale?
        || (q.pc.DropStale? && q.pc.names != [] && key(q.pc.names[0]) != key(Scratch(p.sum))))
  }

  lemma ScratchIsGranted(key: KeyOf, s: State, p: string, q: string)
    requires LocksInv(key, s) && AreAlone(s, p, q) && BuildIsFree(key, s.procs[p], s.procs[q])
    requires Claimable(s.procs[p].pc)
    ensures Grants(s.locks, Lock(Conn(p), key(Scratch(s.procs[p].sum))))
  {
    var k := key(Scratch(s.procs[p].sum));
    forall other | other != Conn(p) ensures Ex(s.locks, other, k) == 0 && Sh(s.locks, other, k) == 0 {
      AloneHold(key, s, p, q, other, k);
      assert WellPlaced(s.procs[p]);
    }
  }

  lemma BuildGoesOn(key: KeyOf, r0: Trace, r: Trace, p: string, q: string) returns (r': Trace)
    requires GoesOn(key, r0, r, p) && AreAlone(Last(r), p, q) && CanBuild(Last(r).procs[p], Last(r).dbs)
    requires BuildIsFree(key, Last(r).procs[p], Last(r).procs[q]) && !Last(r).procs[p].pc.WantClaim?
    ensures GoesOn(key, r0, r', p) && AreAlone(Last(r'), p, q) && Last(r').procs[q] == Last(r).procs[q]
    ensures CanBuild(Last(r').procs[p], Last(r').dbs)
            && StepsLeft(Last(r').procs[p].pc) < StepsLeft(Last(r).procs[p].pc)
    ensures Last(r').procs[p] == Last(r).procs[p].(pc := Last(r').procs[p].pc)
  {
    var s := Last(r);
    KeepAlone(key, r);
    assert Relies(p, s.procs[p], s.dbs);
    BuildStep(s.procs[p], s.dbs);
    if s.procs[p].pc.WantScratch? {
      ScratchIsGranted(key, s, p, q);
    }
    r' := Go(key, r0, r, p, Advance(p, [], true));
  }

  lemma {:induction false} BuildsTemplate(key: KeyOf, r0: Trace, r: Trace, p: string, q: string) returns (r': Trace)
    requires GoesOn(key, r0, r, p) && AreAlone(Last(r), p, q) && CanBuild(Last(r).procs[p], Last(r).dbs)
    requires BuildIsFree(key, Last(r).procs[p], Last(r).procs[q])
    ensures GoesOn(key, r0, r', p) && AreAlone(Last(r'), p, q) && Last(r').procs[q] == Last(r).procs[q]
    ensures Last(r').procs[p] == Last(r).procs[p].(pc := WantClaim) && Template(Last(r).procs[p].sum) in Last(r').dbs
    decreases StepsLeft(Last(r).procs[p].pc)
  {
    if Last(r).procs[p].pc.WantClaim? {
      r' := r;
    } else {
      var r1 := BuildGoesOn(key, r0, r, p, q);
      r' := BuildsTemplate(key, r0, r1, p, q);
    }
  }

  // The sweep finds it.

  lemma {:induction false} Listing(dbs: set<Name>) returns (listed: seq<Name>)
    ensures NoDuplicates(listed) && forall n :: n in listed <==> n in dbs
    decreases |dbs|
  {
    if dbs == {} {
      listed := [];
    } else {
      var n :| n in dbs;
      var rest := Listing(dbs - {n});
      listed := [n] + rest;
    }
  }

  lemma TemplatesAreSwept(sum: string)
    ensures Swept(Template(sum))
  {
  }

  /** The sweep lists the template, if it hasn't listed yet, and gets to it. */
  lemma SweepFinds(key: KeyOf, r0: Trace, r: Trace, p: string, q: string, n: Name) returns (r': Trace)
    requires GoesOn(key, r0, r, p) && AreAlone(Last(r), p, q)
    requires HasAhead(Last(r).procs[q].pc, n) && n.Template? && n in Last(r).dbs
    ensures GoesOn(key, r0, r', p) && AreAlone(Last(r'), p, q) && Last(r').dbs == Last(r).dbs
    ensures Last(r').procs[p] == Last(r).procs[p] && Last(r').procs[q].sum == Last(r).procs[q].sum
    ensures var pc := Last(r').procs[q].pc; (pc.TryStale? || pc.DropStale?) && pc.names != [] && pc.names[0] == n
  {
    var r1 := r;
    if Last(r).procs[q].pc.ListStale? {
      var listed := Listing(set m | m in Last(r).dbs && Swept(m));
      TemplatesAreSwept(n.sum);
      r1 := StepOfQ(key, r0, r, p, q, listed);
    }
    r' := SweepGetsTo(key, r0, r1, p, q, n);
  }

  /** Keys that have to differ for the two not to be in each other's way otherwise. */
  predicate AreApart(key: KeyOf, sum: string, other: string) {
    var template := key(Template(sum));
    && template != CREATION && template != key(Scratch(sum)) && template != key(Template(other))
    && key(Scratch(sum)) != key(Template(other))
  }

  lemma TemplateIsGranted(key: KeyOf, s: State, p: string, q: string, op: LockOp)
    requires LocksInv(key, s) && AreAlone(s, p, q) && s.procs[p].pc.WantClaim?
    requires AreApart(key, s.procs[p].sum, s.procs[q].sum)
    requires s.procs[q].pc.TryStale?
    requires op == Lock(Conn(q), key(Template(s.procs[p].sum))) || op == Share(Owner(p), key(Template(s.procs[p].sum)))
    ensures Grants(s.locks, op)
  {
    assert WellPlaced(s.procs[p]);
    forall other | other != op.session
      ensures Ex(s.locks, other, op.key) == 0 && (op.Lock? ==> Sh(s.locks, other, op.key) == 0)
    {
      AloneHold(key, s, p, q, other, op.key);
    }
  }

  /** The sweep takes the lock of the template it has got to, if it hasn't yet... */
  lemma SweepTakes(key: KeyOf, r0: Trace, r: Trace, p: string, q: string, n: Name) returns (r': Trace)
    requires GoesOn(key, r0, r, p) && AreAlone(Last(r), p, q) && Last(r).procs[p].pc.WantClaim?
    requires AreApart(key, Last(r).procs[p].sum, Last(r).procs[q].sum) && n == Template(Last(r).procs[p].sum)
    requires var pc := Last(r).procs[q].pc; (pc.TryStale? || pc.DropStale?) && pc.names != [] && pc.names[0] == n
    ensures GoesOn(key, r0, r', p) && AreAlone(Last(r'), p, q) && Last(r').dbs == Last(r).dbs
    ensures Last(r').procs[p] == Last(r).procs[p] && Last(r').procs[q].sum == Last(r).procs[q].sum
    ensures var pc := Last(r').procs[q].pc; pc.DropStale? && pc.names != [] && pc.names[0] == n
  {
    r' := r;
    if Last(r).procs[q].pc.TryStale? {
      KeepAlone(key, r);
      TemplateIsGranted(key, Last(r), p, q, Lock(Conn(q), key(n)));
      r' := StepOfQ(key, r0, r, p, q, []);
    }
  }

  /** ...drops it... */
  lemma SweepDrops(key: KeyOf, r0: Trace, r: Trace, p: string, q: string, n: Name) returns (r': Trace)
    requires GoesOn(key, r0, r, p) && AreAlone(Last(r), p, q)
    requires var pc := Last(r).procs[q].pc; pc.DropStale? && pc.names != [] && pc.names[0] == n
    ensures GoesOn(key, r0, r', p) && AreAlone(Last(r'), p, q) && n !in Last(r').dbs
    ensures Last(r').procs[p] == Last(r).procs[p]
    ensures Last(r').procs[q] == Last(r).procs[q].(pc := ReleaseStale(Last(r).procs[q].pc.names))
  {
    r' := Go(key, r0, r, p, Advance(q, [], true));
  }

  /** ...and lets go of it. */
  lemma SweepLoses(key: KeyOf, r0: Trace, r: Trace, p: string, q: string, n: Name) returns (r': Trace)
    requires GoesOn(key, r0, r, p) && AreAlone(Last(r), p, q) && Last(r).procs[p].pc.WantClaim?
    requires AreApart(key, Last(r).procs[p].sum, Last(r).procs[q].sum) && n == Template(Last(r).procs[p].sum)
    requires HasAhead(Last(r).procs[q].pc, n) && n in Last(r).dbs
    ensures GoesOn(key, r0, r', p) && AreAlone(Last(r'), p, q) && n !in Last(r').dbs && Last(r').procs[q].pc.TryStale?
    ensures Last(r').procs[p] == Last(r).procs[p] && Last(r').procs[q].sum == Last(r).procs[q].sum
  {
    var r1 := SweepFinds(key, r0, r, p, q, n);
    var r2 := SweepTakes(key, r0, r1, p, q, n);
    var r3 := SweepDrops(key, r0, r2, p, q, n);
    r' := StepOfQ(key, r0, r3, p, q, []);
  }

  /** Whereupon a claim is granted on nothing. */
  lemma ClaimMisses(key: KeyOf, r0: Trace, r: Trace, p: string, q: string) returns (r': Trace)
    requires GoesOn(key, r0, r, p) && AreAlone(Last(r), p, q) && Last(r).procs[p].pc.WantClaim?
    requires Last(r).procs[q].pc.TryStale?
    requires AreApart(key, Last(r).procs[p].sum, Last(r).procs[q].sum) && Template(Last(r).procs[p].sum) !in Last(r).dbs
    ensures GoesOn(key, r0, r', p) && HasMissed(Last(r'), p) && Last(r').procs[p].sum == Last(r).procs[p].sum
  {
    KeepAlone(key, r);
    TemplateIsGranted(key, Last(r), p, q, Share(Owner(p), key(Template(Last(r).procs[p].sum))));
    r' := Go(key, r0, r, p, Advance(p, [], true));
  }

  predicate HasMissed(s: State, p: string) {
    && p in s.procs && s.procs[p].alive && s.procs[p].pc.ReleaseCreation? && s.procs[p].claimed && !s.procs[p].present
    && Template(s.procs[p].sum) !in s.dbs
  }

  /** The two left alone, with the sweep at the template if it has listed it, and the template built. */
  lemma BuiltUnderSweep(key: KeyOf, r0: Trace, p: string, q: string) returns (r: Trace)
    requires IsTrace(key, r0) && IsEnsuring(Last(r0), p) && Last(r0).procs[p].pc.Check?
    requires q in Last(r0).procs && q != p && Threatens(key, Last(r0).procs[q], Template(Last(r0).procs[p].sum))
    requires AreApart(key, Last(r0).procs[p].sum, Last(r0).procs[q].sum)
    ensures GoesOn(key, r0, r, p) && AreAlone(Last(r), p, q) && Last(r).procs[p] == Last(r0).procs[p].(pc := WantClaim)
    ensures Last(r).procs[q].sum == Last(r0).procs[q].sum
    ensures var n := Template(Last(r0).procs[p].sum); HasAhead(Last(r).procs[q].pc, n) && n in Last(r).dbs
  {
    var n := Template(Last(r0).procs[p].sum);
    var r1 := OthersDie(key, r0, r0, p, q, set x | x in Last(r0).procs && Last(r0).procs[x].alive && x != p && x != q);
    var r2 := r1;
    if !Last(r1).procs[q].pc.ListStale? {
      r2 := SweepGetsTo(key, r0, r1, p, q, n);
    }
    r := BuildsTemplate(key, r0, r2, p, q);
  }

  /** From any reachable state in which a process has just been granted the creation lock and a live sweep has its
      template ahead, there's a way on in which its claim is granted with the template gone. */
  lemma ClaimCanMiss(key: KeyOf, r0: Trace, p: string, q: string) returns (r: Trace)
    requires IsTrace(key, r0) && IsEnsuring(Last(r0), p) && Last(r0).procs[p].pc.Check?
    requires q in Last(r0).procs && q != p && Threatens(key, Last(r0).procs[q], Template(Last(r0).procs[p].sum))
    requires AreApart(key, Last(r0).procs[p].sum, Last(r0).procs[q].sum)
    ensures GoesOn(key, r0, r, p) && HasMissed(Last(r), p) && Last(r).procs[p].sum == Last(r0).procs[p].sum
  {
    var n := Template(Last(r0).procs[p].sum);
    var r1 := BuiltUnderSweep(key, r0, p, q);
    var r2 := SweepLoses(key, r0, r1, p, q, n);
    r := ClaimMisses(key, r0, r2, p, q);
  }

  /** So a process just granted the creation lock is sure of its template exactly when no live sweep has it ahead. */
  lemma SureIffUnthreatened(key: KeyOf, r0: Trace, p: string)
    requires IsTrace(key, r0) && IsEnsuring(Last(r0), p) && Last(r0).procs[p].pc.Check?
    requires forall q :: (q in Last(r0).procs && q != p
                          && Threatens(key, Last(r0).procs[q], Template(Last(r0).procs[p].sum))) ==>
               AreApart(key, Last(r0).procs[p].sum, Last(r0).procs[q].sum)
    ensures Unthreatened(key, Last(r0), p)
            <==> forall r :: GoesOn(key, r0, r, p) && Last(r).procs[p].pc.ReleaseCreation? ==> HasTemplate(Last(r), p)
  {
    if Unthreatened(key, Last(r0), p) {
      forall r | GoesOn(key, r0, r, p) && Last(r).procs[p].pc.ReleaseCreation? ensures HasTemplate(Last(r), p) {
        assert r.states[|r0.actions|] == Last(r0);
        ClaimFindsTemplate(key, r.states, r.actions, p, |r0.actions|, |r.actions|);
      }
    } else {
      var q :| q in Last(r0).procs && q != p && Threatens(key, Last(r0).procs[q], Template(Last(r0).procs[p].sum));
      var r := ClaimCanMiss(key, r0, p, q);
    }
  }

  // That there are such states.

  /** A process with no tests, before or after its claim. */
  function At(pc: Pc, sum: string, claimed: bool): Proc {
    Proc(true, sum, pc, claimed, claimed, 0, map[])
  }

  function Whole(sum: string): map<Name, Contents> {
    map[Template(sum) := Contents(Some(sum), true)]
  }

  /** Of two processes with different dumps, where each has got to; the template of the second's is there. */
  ghost predicate ArePair(key: KeyOf, r: Trace, p: string, me: Proc, q: string, other: Proc) {
    p != q && IsTrace(key, r) && Last(r).dbs == Whole(other.sum) && Last(r).procs == map[p := me, q := other]
  }

  /** What blocks a process's next step is what the other's place says it holds, in another session. */
  lemma PairIsGranted(key: KeyOf, s: State, p: string, q: string, op: LockOp)
    requires LocksInv(key, s) && p != q && s.procs.Keys == {p, q} && s.procs[p].tests == s.procs[q].tests == map[]
    requires op.Lock? || op.Share?
    requires forall x :: x in {p, q} && op.session != Conn(x) ==> ConnEx(key, s.procs[x], op.key) == 0
    requires forall x :: x in {p, q} && op.session != Owner(x) && op.Lock? && s.procs[x].claimed ==>
               key(Template(s.procs[x].sum)) != op.key
    ensures Grants(s.locks, op)
  {
    forall other | other != op.session
      ensures Ex(s.locks, other, op.key) == 0 && (op.Lock? ==> Sh(s.locks, other, op.key) == 0)
    {
      assert TrackedAt(key, s, other, op.key);
      if other.p in s.procs {
        assert HeldTests(key, other.p, s.procs[other.p], op.key) == {};
      }
    }
  }

  /** A step of either that changes no database. */
  lemma PairGoes(key: KeyOf, r: Trace, x: string) returns (r': Trace)
    requires IsTrace(key, r) && x in Last(r).procs
    requires var me := Last(r).procs[x];
             && me.alive
             && (me.pc.Start? || me.pc.WantCreation? || me.pc.Check? || me.pc.WantClaim? || me.pc.ReleaseCreation?)
    requires Got(key, Last(r), x, Last(r).procs[x])
    ensures IsTrace(key, r') && Last(r').dbs == Last(r).dbs
    ensures Last(r').procs == Last(r).procs[x := NextProc(Last(r).procs[x], Last(r).dbs, [], true)]
  {
    r' := Extend(key, r, Advance(x, [], true));
  }

  lemma OlderIsGranted(key: KeyOf, p: string, newer: string, q: string, older: string) returns (r: Trace)
    requires p != q
    ensures ArePair(key, r, p, At(Start, newer, false), q, At(Check, older, false))
  {
    var procs := map[p := At(Start, newer, false), q := At(Start, older, false)];
    r := Trace([State(Whole(older), Locks(map[], map[]), procs)], []);
    r := PairGoes(key, r, q);
    KeepAlone(key, r);
    PairIsGranted(key, Last(r), p, q, Lock(Conn(q), CREATION));
    r := PairGoes(key, r, q);
  }

  lemma OlderClaims(key: KeyOf, p: string, newer: string, q: string, older: string, r0: Trace) returns (r: Trace)
    requires ArePair(key, r0, p, At(Start, newer, false), q, At(Check, older, false))
    requires key(Template(older)) != CREATION
    ensures ArePair(key, r, p, At(Start, newer, false), q, At(ReleaseCreation, older, true))
  {
    var r1 := PairGoes(key, r0, q);
    KeepAlone(key, r1);
    PairIsGranted(key, Last(r1), p, q, Share(Owner(q), key(Template(older))));
    r := PairGoes(key, r1, q);
  }

  /** The second gets to its sweep, having found its template... */
  lemma OlderSweeps(key: KeyOf, p: string, newer: string, q: string, older: string) returns (r: Trace)
    requires p != q && key(Template(older)) != CREATION
    ensures ArePair(key, r, p, At(Start, newer, false), q, At(ListStale, older, true))
  {
    var r0 := OlderIsGranted(key, p, newer, q, older);
    var r1 := OlderClaims(key, p, newer, q, older, r0);
    r := PairGoes(key, r1, q);
  }

  /** ...and the first is granted the creation lock, its template still to be built. */
  lemma NewerIsGranted(key: KeyOf, p: string, newer: string, q: string, older: string, r0: Trace) returns (r: Trace)
    requires ArePair(key, r0, p, At(Start, newer, false), q, At(ListStale, older, true))
    requires key(Template(older)) != CREATION
    ensures ArePair(key, r, p, At(Check, newer, false), q, At(ListStale, older, true))
  {
    var r1 := PairGoes(key, r0, p);
    KeepAlone(key, r1);
    PairIsGranted(key, Last(r1), p, q, Lock(Conn(p), CREATION));
    r := PairGoes(key, r1, p);
  }

  /** So a template can be built and swept before it's claimed, by any two processes with different dumps. */
  lemma TemplateSweptBeforeClaim(key: KeyOf, p: string, newer: string, q: string, older: string) returns (r: Trace)
    requires p != q && AreApart(key, newer, older) && key(Template(older)) != CREATION
    ensures IsTrace(key, r) && HasMissed(Last(r), p) && Last(r).procs[p].sum == newer
  {
    var r0 := OlderSweeps(key, p, newer, q, older);
    r0 := NewerIsGranted(key, p, newer, q, older, r0);
    r := ClaimCanMiss(key, r0, p, q);
  }
}
