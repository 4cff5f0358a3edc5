/** The lease lock as a protocol: any number of workers, each with its own clock, over the shared table. */
module LeaseLock {
  import opened Common
  import opened CertTable

  /** A worker reads its clock, its conditional put reaches the table at some later moment, and if that grants the lock
      the worker is inside until its unconditional delete reaches the table. Requests are delayed arbitrarily, answers
      get lost, requests whose answers were lost are sent again, workers give up and crash. */
  datatype Phase =
    | Idle
    | Asking(name: string, clock: int, at: int)   // read `clock` at true time `at`; the put is on its way
    | Holding(name: string, clock: int, at: int)  // the put was granted; the delete hasn't reached the table
    | Resending(name: string)                     // the delete has, and is on its way once more
    | Waiting(name: string, since: int)           // the put was refused at true time `since`
    | Crashed

  /** What becomes of a request's answer: if it's lost, the request may be sent again just as it was. */
  datatype Reply = Heard | Lost | Resent

  datatype World = World(now: int, table: Table, workers: map<int, Phase>)

  datatype Step =
    | Tick(to: int)
    | ReadClock(w: int, name: string, clock: int)
    | ApplyPut(w: int, reply: Reply)
    | GiveUp(w: int)
    | ApplyDelete(w: int, reply: Reply)
    | Crash(w: int)
    | ChangeData(key: string, item: Option<Item>) // anybody's Store or Delete of something that isn't a lock

  ghost predicate Accurate(clock: int, now: int, d: int) {
    now - d <= clock <= now + d
  }

  ghost predicate Enabled(d: int, s: World, step: Step) {
    match step
    case Tick(to) => s.now <= to
    case ReadClock(w, name, clock) =>
      && w in s.workers
      && Accurate(clock, s.now, d)
      && (s.workers[w].Idle?
          || (s.workers[w].Waiting? && s.workers[w].name == name && s.workers[w].since + LOCK_POLL_EVERY <= s.now))
    case ApplyPut(w, reply) => w in s.workers && s.workers[w].Asking?
    case GiveUp(w) => w in s.workers && s.workers[w].Waiting?
    case ApplyDelete(w, reply) => w in s.workers && (s.workers[w].Holding? || s.workers[w].Resending?)
    case Crash(w) => w in s.workers
    case ChangeData(key, item) => !(LOCK_PREFIX <= key)
  }

  ghost function Apply(d: int, s: World, step: Step): World
    requires Enabled(d, s, step)
  {
    match step
    case Tick(to) => s.(now := to)
    case ReadClock(w, name, clock) => s.(workers := s.workers[w := Asking(name, clock, s.now)])
    case ApplyPut(w, reply) =>
      var p := s.workers[w];
      var taken := MayTake(s.table, LockKey(p.name), p.clock);
      var next := match reply
        case Heard => if taken then Holding(p.name, p.clock, p.at) else Waiting(p.name, s.now)
        case Lost => Idle
        case Resent => p;
      s.(table := if taken then s.table[LockKey(p.name) := LockItem(p.clock)] else s.table,
         workers := s.workers[w := next])
    case GiveUp(w) => s.(workers := s.workers[w := Idle])
    case ApplyDelete(w, reply) =>
      var name := s.workers[w].name;
      s.(table := s.table - {LockKey(name)}, workers := s.workers[w := if reply.Resent? then Resending(name) else Idle])
    case Crash(w) => s.(workers := s.workers[w := Crashed])
    case ChangeData(key, item) => s.(table := if item.Some? then s.table[key := item.value] else s.table - {key})
  }

  /** Whatever is left in the table from before, nobody holds or is asking for a lock to begin with. */
  ghost predicate Init(s: World) {
    forall w :: w in s.workers ==> s.workers[w].Idle?
  }

  ghost predicate StepAt(d: int, worlds: seq<World>, steps: seq<Step>, i: nat)
    requires i < |steps| < |worlds|
  {
    Enabled(d, worlds[i], steps[i]) && worlds[i + 1] == Apply(d, worlds[i], steps[i])
  }

  ghost predicate IsRun(d: int, worlds: seq<World>, steps: seq<Step>) {
    && |worlds| == |steps| + 1
    && Init(worlds[0])
    && forall i :: 0 <= i < |steps| ==> StepAt(d, worlds, steps, i)
  }

  ghost predicate Holds(s: World, w: int, name: string) {
    w in s.workers && s.workers[w].Holding? && s.workers[w].name == name
  }

  /** Nobody's inside more than `slack` past the lease, less twice the clocks' inaccuracy, from its clock read. */
  ghost predicate WithinLease(d: int, s: World, slack: int) {
    forall w :: w in s.workers && s.workers[w].Holding? ==> s.now <= s.workers[w].at + LOCK_DURATION - 2 * d + slack
  }

  /** The step deletes, with a delete that has been applied before, the item of a lock somebody else is inside. */
  ghost predicate DeletesAgain(s: World, step: Step) {
    && step.ApplyDelete? && step.w in s.workers && s.workers[step.w].Resending?
    && exists v :: Holds(s, v, s.workers[step.w].name)
  }

  ghost predicate Exclusive(s: World) {
    forall name, v, w :: Holds(s, v, name) && Holds(s, w, name) ==> v == w
  }

  /** What every step keeps: the item of a lock somebody is inside is the one that worker put there. */
  ghost predicate Inv(d: int, s: World) {
    && Exclusive(s)
    && (forall w :: w in s.workers && s.workers[w].Asking? ==>
          Accurate(s.workers[w].clock, s.workers[w].at, d) && s.workers[w].at <= s.now)
    && (forall w :: w in s.workers && s.workers[w].Holding? ==>
          && Accurate(s.workers[w].clock, s.workers[w].at, d)
          && LockKey(s.workers[w].name) in s.table
          && s.table[LockKey(s.workers[w].name)] == LockItem(s.workers[w].clock))
  }

  /** A put is refused while the worker inside is within its lease: truncating to seconds never shortens it. */
  lemma LeaseRefuses(d: int, s: World, v: int, w: int)
    requires Inv(d, s) && WithinLease(d, s, 0)
    requires v in s.workers && s.workers[v].Holding?
    requires w in s.workers && s.workers[w].Asking? && s.workers[w].name == s.workers[v].name
    ensures !MayTake(s.table, LockKey(s.workers[w].name), s.workers[w].clock)
  {
    var holder, asker := s.workers[v], s.workers[w];
    assert asker.clock <= asker.at + d <= s.now + d;
    assert s.now <= holder.at + LOCK_DURATION - 2 * d;
    assert asker.clock <= holder.clock + LOCK_DURATION;
    assert s.table[LockKey(holder.name)].expires == UnixSeconds(holder.clock + LOCK_DURATION);
  }

  /** What's stored without an expiry is never taken, whatever the clock. */
  lemma UnexpiringStays(table: Table, key: string, clock: int)
    requires key in table && table[key].expires == 0
    ensures !MayTake(table, key, clock)
  {
  }

  /** A worker that doesn't hear its put was granted isn't inside, and keeps everybody out as long as if it were. */
  lemma LostPutIsKeptOut(d: int, s: World, w: int, clock: int)
    requires Enabled(d, s, ApplyPut(w, Lost)) && MayTake(s.table, LockKey(s.workers[w].name), s.workers[w].clock)
    requires clock <= s.workers[w].clock + LOCK_DURATION
    ensures var name, s' := s.workers[w].name, Apply(d, s, ApplyPut(w, Lost));
            && (forall v :: Holds(s', v, name) ==> v != w && Holds(s, v, name))
            && !MayTake(s'.table, LockKey(name), clock)
  {
  }

  /** Nor does a crash let anybody in before the lease of whoever crashed is over. */
  lemma CrashKeepsOut(d: int, s: World, w: int, clock: int)
    requires Inv(d, s) && w in s.workers && s.workers[w].Holding? && clock <= s.workers[w].clock + LOCK_DURATION
    ensures var name, s' := s.workers[w].name, Apply(d, s, Crash(w));
            (forall v :: !Holds(s', v, name)) && !MayTake(s'.table, LockKey(name), clock)
  {
    var name, s' := s.workers[w].name, Apply(d, s, Crash(w));
    forall v ensures !Holds(s', v, name) {
      if Holds(s', v, name) {
        assert Holds(s, v, name) && Holds(s, w, name);
      }
    }
    assert s'.table[LockKey(name)] == LockItem(s.workers[w].clock);
  }

  lemma LockKeyInjective(a: string, b: string)
    requires LockKey(a) == LockKey(b)
    ensures a == b
  {
    assert LockKey(a)[|LOCK_PREFIX|..] == a && LockKey(b)[|LOCK_PREFIX|..] == b;
  }

  lemma StepKeepsInv(d: int, s: World, step: Step)
    requires Inv(d, s) && WithinLease(d, s, 0) && Enabled(d, s, step) && !DeletesAgain(s, step)
    ensures Inv(d, Apply(d, s, step))
  {
    var s' := Apply(d, s, step);
    forall v | v in s'.workers && s'.workers[v].Holding? && v in s.workers && s.workers[v] == s'.workers[v]
      ensures LockKey(s'.workers[v].name) in s'.table
      ensures s'.table[LockKey(s'.workers[v].name)] == LockItem(s'.workers[v].clock)
    {
      var key := LockKey(s.workers[v].name);
      if step.ApplyPut? {
        var p := s.workers[step.w];
        if LockKey(p.name) == key {
          LockKeyInjective(p.name, s.workers[v].name);
          LeaseRefuses(d, s, v, step.w);
        }
      } else if step.ApplyDelete? {
        var p := s.workers[step.w];
        if LockKey(p.name) == key {
          LockKeyInjective(p.name, s.workers[v].name);
          assert Holds(s, v, p.name) && (p.Holding? ==> Holds(s, step.w, p.name));
        }
      } else if step.ChangeData? {
        assert LOCK_PREFIX <= key;
      }
    }
    forall name, v, w | Holds(s', v, name) && Holds(s', w, name) ensures v == w {
      if step.ApplyPut? && v != w {
        if v == step.w && Holds(s, w, name) {
          LeaseRefuses(d, s, w, v);
        } else if w == step.w && Holds(s, v, name) {
          LeaseRefuses(d, s, v, w);
        }
      }
      if v != w {
        assert Holds(s, v, name) && Holds(s, w, name);
      }
    }
  }

  /** In every run, up to the first moment somebody overstays its lease or a delete sent again hits somebody else's
      lock, no lock has two workers inside. */
  lemma {:induction false} LeaseExclusion(d: int, worlds: seq<World>, steps: seq<Step>, n: nat)
    requires IsRun(d, worlds, steps) && n <= |steps|
    requires forall i :: 0 <= i < n ==> WithinLease(d, worlds[i], 0) && !DeletesAgain(worlds[i], steps[i])
    ensures Inv(d, worlds[n]) && Exclusive(worlds[n])
  {
    if n > 0 {
      LeaseExclusion(d, worlds, steps, n - 1);
      assert StepAt(d, worlds, steps, n - 1);
      StepKeepsInv(d, worlds[n - 1], steps[n - 1]);
    }
  }

  function TwoIdle(now: int): World {
    World(now, map[], map[1 := Idle, 2 := Idle])
  }

  /** The bound is exact: whatever the clocks' inaccuracy, a run in which nobody overstays by more than a single
      nanosecond ends with two workers inside one lock. */
  lemma LeaseBoundIsExact(d: int, name: string) returns (worlds: seq<World>, steps: seq<Step>)
    requires 0 <= 2 * d <= LOCK_DURATION
    ensures IsRun(d, worlds, steps)
    ensures forall i :: 0 <= i < |worlds| ==> WithinLease(d, worlds[i], 1)
    ensures forall i :: 0 <= i < |steps| ==> !DeletesAgain(worlds[i], steps[i])
    ensures !Exclusive(worlds[|steps|])
  {
    var early := SECOND - 1;                      // the last nanosecond of a second...
    var late := UnixSeconds(LOCK_DURATION) * SECOND + SECOND;  // ...and the first that's past the stored expiry
    var s0 := TwoIdle(early + d);
    steps := [ReadClock(1, name, early), ApplyPut(1, Heard), Tick(late - d), ReadClock(2, name, late),
              ApplyPut(2, Heard)];
    var s1 := Apply(d, s0, steps[0]);
    var s2 := Apply(d, s1, steps[1]);
    assert s2.workers[1] == Holding(name, early, early + d);
    assert s2.table == map[LockKey(name) := LockItem(early)];
    var s3 := Apply(d, s2, steps[2]);
    assert Enabled(d, s3, steps[3]);
    var s4 := Apply(d, s3, steps[3]);
    assert MayTake(s4.table, LockKey(name), late);
    var s5 := Apply(d, s4, steps[4]);
    worlds := [s0, s1, s2, s3, s4, s5];
    assert Holds(s5, 1, name) && Holds(s5, 2, name);
  }

  /** Unlocking doesn't check whose lock it is: one worker that overstays its lease lets two others, both well within
      theirs and with perfect clocks, inside one lock. */
  lemma OverstayerBreaksOthers(name: string) returns (worlds: seq<World>, steps: seq<Step>)
    ensures IsRun(0, worlds, steps) && forall i :: 0 <= i < |steps| ==> !DeletesAgain(worlds[i], steps[i])
    ensures var last := worlds[|steps|];
            WithinLease(0, last, 0) && Holds(last, 2, name) && Holds(last, 3, name)
  {
    var late := LOCK_DURATION + SECOND;
    var s0 := World(0, map[], map[1 := Idle, 2 := Idle, 3 := Idle]);
    steps := [ReadClock(1, name, 0), ApplyPut(1, Heard), Tick(late), ReadClock(2, name, late), ApplyPut(2, Heard),
              ApplyDelete(1, Heard), ReadClock(3, name, late), ApplyPut(3, Heard)];
    var s1 := Apply(0, s0, steps[0]);
    var s2 := Apply(0, s1, steps[1]);
    var s3 := Apply(0, s2, steps[2]);
    var s4 := Apply(0, s3, steps[3]);
    assert MayTake(s4.table, LockKey(name), late);
    var s5 := Apply(0, s4, steps[4]);
    var s6 := Apply(0, s5, steps[5]);
    var s7 := Apply(0, s6, steps[6]);
    var s8 := Apply(0, s7, steps[7]);
    worlds := [s0, s1, s2, s3, s4, s5, s6, s7, s8];
    assert s5.workers[1].Holding?;
    forall i | 0 <= i < |steps| ensures !DeletesAgain(worlds[i], steps[i]) {
      if steps[i].ApplyDelete? {
        assert i == 5;
      }
    }
  }

  /** So does a delete whose answer got lost and that's sent again, though nobody ever stays past its lease. */
  lemma ResentDeleteBreaksOthers(name: string) returns (worlds: seq<World>, steps: seq<Step>)
    ensures IsRun(0, worlds, steps)
    ensures forall i :: 0 <= i < |worlds| ==> WithinLease(0, worlds[i], 0)
    ensures Holds(worlds[|steps|], 2, name) && Holds(worlds[|steps|], 3, name)
  {
    var s0 := World(0, map[], map[1 := Idle, 2 := Idle, 3 := Idle]);
    steps := [ReadClock(1, name, 0), ApplyPut(1, Heard), ApplyDelete(1, Resent), ReadClock(2, name, 0),
              ApplyPut(2, Heard), ApplyDelete(1, Heard), ReadClock(3, name, 0), ApplyPut(3, Heard)];
    var s1 := Apply(0, s0, steps[0]);
    var s2 := Apply(0, s1, steps[1]);
    var s3 := Apply(0, s2, steps[2]);
    var s4 := Apply(0, s3, steps[3]);
    var s5 := Apply(0, s4, steps[4]);
    var s6 := Apply(0, s5, steps[5]);
    var s7 := Apply(0, s6, steps[6]);
    var s8 := Apply(0, s7, steps[7]);
    worlds := [s0, s1, s2, s3, s4, s5, s6, s7, s8];
  }
}
