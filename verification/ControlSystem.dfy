/** Any number of routines with their workers, handles, timers and calls in progress, the
    process-wide active count, and a clock that never goes back.

    As for channels, a run is any sequence of events, and an event lets one actor do the
    next stretch of its code.  What the callback does, what a timed wait returns, whether
    a thread can be created and what waking a worker returns are chosen by the event.
    A freed control that is touched again raises `fault`.
 */
module ControlSystem {
  import opened Wrappers
  import opened ControlSpec

  type Id = nat

  /** What running the callback came to, as go_worker tells the cases apart. */
  datatype Outcome = ReturnedNormally | DiedOfCancel | DiedOfExit | DiedOtherwise

  datatype WorkerPc =
    | Calling
    | Classifying                  // the error text names a cancellation
    | Decided(status: Status)
    | Finishing(status: Status)
    | Finished                     // about to lower the active count
    | Leaving                      // about to release the control

  datatype TimerPc =
    | Starting
    | Asleep
    | Firing
    | Waking(valid: bool)
    | Stopping
    | Dropping

  datatype SetterPc =
    | Locking
    | Armed(generation: nat)
    | Timed(generation: nat, deadline: real)
    | Retained(generation: nat, deadline: real)
    | Counting(generation: nat, deadline: real)
    | NotCreated(generation: nat)
    | Uncounted(generation: nat)
    | Unretained(generation: nat)

  datatype KillerPc = Requesting | Poking | Answered(requested: bool) | Threw

  datatype Actor =
    | Worker(r: Id, outcome: Outcome, wpc: WorkerPc)
    | Handle(r: Id)
    | Timer(r: Id, generation: nat, deadline: real, setAt: real, seconds: real, tpc: TimerPc)
    | Setter(r: Id, handle: Id, setAt: real, seconds: real, spc: SetterPc)
    | Killer(r: Id, handle: Id, kpc: KillerPc)
    | Gone

  /** Bookkeeping about the last go_control_set_timeout that took effect. */
  datatype Arming = Never | At(when: real, seconds: real) | Withdrawn

  /** Who cancelled a routine, why and when; the arming, the generation and the wake error
      of the moment; and for a timer the generation it was started with. */
  datatype Cancellation = Cancellation(
    who: Id, reason: Reason, when: real, armed: Arming, generation: nat, wakeError: int, own: nat)

  datatype Routine = Routine(
    k: Control,
    freed: bool,
    armed: Arming,
    cancel: Option<Cancellation>,        // the cancellation that took effect
    ended: Option<(Outcome, int)>)       // callback outcome and wake error at the finish

  datatype System = System(
    routines: map<Id, Routine>,
    actors: map<Id, Actor>,
    active: nat,
    now: real,
    fault: bool)

  datatype Event =
    | Spawn(r: Id, worker: Id, handle: Id)
    | Tick(d: real)
    | DropHandle(h: Id)
    | CallKill(c: Id, h: Id)
    | CallTimeout(c: Id, h: Id, seconds: real)
    | Go(a: Id, outcome: Outcome, rc: int)

  const INIT := System(map[], map[], 0, 0.0, false)

  /** What one stretch of an actor's code comes to: its routine and itself afterwards,
      whether the control was touched, and what happens to the active count. */
  datatype Effect = Effect(t: Routine, w: Actor, touched: bool, count: Count)

  datatype Count = Same | Up | Down

  function Counted(active: nat, count: Count): nat {
    match count
    case Same => active
    case Up => active + 1
    case Down => if active > 0 then active - 1 else active
  }

  function Touch(t: Routine, w: Actor): Effect { Effect(t, w, true, Same) }

  function Local(t: Routine, w: Actor, count: Count := Same): Effect { Effect(t, w, false, count) }

  function Cancelled(t: Routine, who: Id, reason: Reason, now: real, own: nat): Cancellation {
    Cancellation(who, reason, now, t.armed, t.k.generation, t.k.wakeError, own)
  }

  function Released(t: Routine): Routine {
    var (k, last) := Release(t.k);
    t.(k := k, freed := t.freed || last)
  }

  function StepWorker(t: Routine, w: Actor, outcome: Outcome): Effect
    requires w.Worker?
  {
    match w.wpc
    case Calling =>
      var pc := match outcome
                case ReturnedNormally => Decided(Done)
                case DiedOfCancel => Classifying
                case DiedOfExit => Decided(Exited)
                case DiedOtherwise => Decided(Failed);
      Local(t, w.(wpc := pc, outcome := outcome))
    case Classifying => Touch(t, w.(wpc := Decided(if t.k.reason == TimeoutReason then TimedOut else Killed)))
    case Decided(f) => Touch(t, w.(wpc := Finishing(if t.k.wakeError != 0 then Failed else f)))
    case Finishing(f) =>
      Touch(t.(k := Finish(t.k, f), ended := Some((w.outcome, t.k.wakeError))), w.(wpc := Finished))
    case Finished => Local(t, w.(wpc := Leaving), Down)
    case Leaving => Touch(Released(t), Gone)
  }

  function StepTimer(t: Routine, now: real, a: Id, w: Actor, rc: int): Effect
    requires w.Timer?
  {
    match w.tpc
    case Starting => AfterCheck(t, w, TimerCheck(t.k, w.generation, w.deadline, now, 0))
    case Asleep => AfterCheck(t, w, TimerCheck(t.k, w.generation, w.deadline, now, rc))
    case Firing =>
      var (k, wake) := FireTimeout(t.k, w.generation);
      Touch(if wake then t.(k := k, cancel := Some(Cancelled(t, a, TimeoutReason, now, w.generation))) else t,
            w.(tpc := if wake then Waking(k.threadValid) else Stopping))
    case Waking(valid) =>
      if valid && rc != 0 then Touch(t.(k := t.k.(wakeError := rc)), w.(tpc := Stopping))
      else Local(t, w.(tpc := Stopping))
    case Stopping => Local(t, w.(tpc := Dropping), Down)
    case Dropping => Touch(Released(t), Gone)
  }

  function AfterCheck(t: Routine, w: Actor, c: (Control, TimerProgress)): Effect
    requires w.Timer?
  {
    Touch(t.(k := c.0),
          w.(tpc := match c.1 case Sleep => Asleep case Leave(fire) => if fire then Firing else Stopping))
  }

  function StepSetter(t: Routine, now: real, w: Actor, rc: int): Effect
    requires w.Setter?
  {
    match w.spc
    case Locking =>
      var (k, g) := SetTimeout(t.k, w.seconds);
      if g.None? then Touch(t, Gone)
      else Touch(t.(k := k, armed := At(now, w.seconds)),
                 if w.seconds == 0.0 then Gone else w.(setAt := now, spc := Armed(g.value)))
    case Armed(g) => Local(t, w.(spc := Timed(g, now + w.seconds)))
    case Timed(g, d) => Touch(t.(k := t.k.(refs := t.k.refs + 1)), w.(spc := Retained(g, d)))
    case Retained(g, d) => Local(t, w.(spc := Counting(g, d)), Up)
    case Counting(g, d) =>
      Local(t, if rc == 0 then Timer(w.r, g, d, w.setAt, w.seconds, Starting) else w.(spc := NotCreated(g)))
    case NotCreated(g) => Local(t, w.(spc := Uncounted(g)), Down)
    case Uncounted(g) => Touch(Released(t), w.(spc := Unretained(g)))
    case Unretained(g) =>
      Touch(t.(k := UndoTimeout(t.k, g), armed := if t.k.generation == g then Withdrawn else t.armed), Gone)
  }

  function StepKiller(t: Routine, now: real, a: Id, w: Actor, rc: int): Effect
    requires w.Killer?
  {
    match w.kpc
    case Requesting =>
      var (k, requested) := RequestCancel(t.k, KillReason);
      Touch(if requested then t.(k := k, cancel := Some(Cancelled(t, a, KillReason, now, t.k.generation))) else t,
            w.(kpc := if requested && k.threadValid then Poking else Answered(requested)))
    case Poking =>
      if rc != 0 then Touch(t.(k := t.k.(wakeError := rc)), w.(kpc := Threw))
      else Local(t, w.(kpc := Answered(true)))
    case Answered(_) => Local(t, w)
    case Threw => Local(t, w)
  }

  function Step(t: Routine, now: real, a: Id, w: Actor, outcome: Outcome, rc: int): Effect {
    match w
    case Worker(_, _, _) => StepWorker(t, w, outcome)
    case Timer(_, _, _, _, _, _) => StepTimer(t, now, a, w, rc)
    case Setter(_, _, _, _, _) => StepSetter(t, now, w, rc)
    case Killer(_, _, _) => StepKiller(t, now, a, w, rc)
    case _ => Local(t, w)
  }

  /** Carry out an effect of actor `a` on routine `r`; a freed control must not be touched. */
  function Apply(s: System, r: Id, a: Id, f: Effect): System
    requires r in s.routines
  {
    s.(routines := s.routines[r := f.t], actors := s.actors[a := f.w],
       active := Counted(s.active, f.count), fault := s.fault || (f.touched && s.routines[r].freed))
  }

  /** A call still using handle `h`; a handle is not dropped under a running call. */
  ghost predicate Borrows(w: Actor, h: Id) {
    (w.Setter? && w.handle == h) || (w.Killer? && w.handle == h && (w.kpc.Requesting? || w.kpc.Poking?))
  }

  ghost function Next(s: System, e: Event): System {
    match e
    case Spawn(r, w, h) =>
      if r in s.routines || w in s.actors || h in s.actors || w == h then s else
      s.(routines := s.routines[r := Routine(NEW_CONTROL.(refs := 2, threadValid := true), false, Never, None, None)],
         actors := s.actors[w := Worker(r, ReturnedNormally, Calling)][h := Handle(r)],
         active := s.active + 1)
    case Tick(d) =>
      if d < 0.0 then s else s.(now := s.now + d)
    case DropHandle(h) =>
      if h !in s.actors || !s.actors[h].Handle? || s.actors[h].r !in s.routines
         || exists i :: i in s.actors && Borrows(s.actors[i], h) then s
      else Apply(s, s.actors[h].r, h, Touch(Released(s.routines[s.actors[h].r]), Gone))
    case CallKill(c, h) =>
      if c in s.actors || h !in s.actors || !s.actors[h].Handle? then s
      else s.(actors := s.actors[c := Killer(s.actors[h].r, h, Requesting)])
    case CallTimeout(c, h, seconds) =>
      if c in s.actors || h !in s.actors || !s.actors[h].Handle? then s
      else s.(actors := s.actors[c := Setter(s.actors[h].r, h, s.now, seconds, Locking)])
    case Go(a, outcome, rc) =>
      if a !in s.actors then s else
      var w := s.actors[a];
      if w.Gone? || w.r !in s.routines then s
      else Apply(s, w.r, a, Step(s.routines[w.r], s.now, a, w, outcome, rc))
  }

  ghost function Run(s: System, events: seq<Event>): System
    decreases |events|
  {
    if events == [] then s else Run(Next(s, events[0]), events[1..])
  }
}

/** Reference counts and the process-wide active count. */
module Lifetime {
  import opened Wrappers
  import opened ControlSpec
  import opened ControlSystem

  ghost predicate HoldsRef(w: Actor, r: Id) {
    match w
    case Worker(q, _, _) => q == r
    case Handle(q) => q == r
    case Timer(q, _, _, _, _, _) => q == r
    case Setter(q, _, _, _, pc) => q == r && (pc.Retained? || pc.Counting? || pc.NotCreated? || pc.Uncounted?)
    case Killer(_, _, _) => false
    case Gone => false
  }

  /** A worker or timer thread counted in, created or about to be, and not counted out. */
  ghost predicate IsActive(w: Actor) {
    match w
    case Worker(_, _, pc) => !pc.Leaving?
    case Timer(_, _, _, _, _, pc) => !pc.Dropping?
    case Setter(_, _, _, _, pc) => pc.Counting? || pc.NotCreated?
    case _ => false
  }

  ghost function Holders(actors: map<Id, Actor>, r: Id): set<Id> {
    set i | i in actors && HoldsRef(actors[i], r)
  }

  ghost function ActiveActors(actors: map<Id, Actor>): set<Id> {
    set i | i in actors && IsActive(actors[i])
  }

  function One(b: bool): nat { if b then 1 else 0 }

  lemma CardWithout(xs: set<Id>, i: Id)
    ensures |xs| == |xs - {i}| + One(i in xs)
  {
    if i in xs { assert xs == (xs - {i}) + {i}; } else { assert xs == xs - {i}; }
  }

  lemma OnlyOneMoved(before: set<Id>, after: set<Id>, i: Id)
    requires forall j :: j != i ==> (j in after <==> j in before)
    ensures |after| == |before| + One(i in after) - One(i in before)
  {
    CardWithout(before, i);
    CardWithout(after, i);
    assert after - {i} == before - {i};
  }

  lemma HoldersAfter(actors: map<Id, Actor>, i: Id, w: Actor, r: Id)
    ensures |Holders(actors[i := w], r)|
         == |Holders(actors, r)| + One(HoldsRef(w, r)) - One(i in actors && HoldsRef(actors[i], r))
  {
    OnlyOneMoved(Holders(actors, r), Holders(actors[i := w], r), i);
  }

  lemma ActiveAfter(actors: map<Id, Actor>, i: Id, w: Actor)
    ensures |ActiveActors(actors[i := w])|
         == |ActiveActors(actors)| + One(IsActive(w)) - One(i in actors && IsActive(actors[i]))
  {
    OnlyOneMoved(ActiveActors(actors), ActiveActors(actors[i := w]), i);
  }

  /** An actor's routine exists, and a call under way still has its handle. */
  ghost predicate ActorOk(s: System, i: Id)
    requires i in s.actors
  {
    var w := s.actors[i];
    && (!w.Gone? ==> w.r in s.routines)
    && (w.Setter? ==> w.handle in s.actors && s.actors[w.handle] == Handle(w.r))
    && (w.Killer? && (w.kpc.Requesting? || w.kpc.Poking?) ==> w.handle in s.actors && s.actors[w.handle] == Handle(w.r))
  }

  ghost predicate Inv(s: System) {
    && !s.fault
    && s.active == |ActiveActors(s.actors)|
    && (forall i :: i in s.actors ==> ActorOk(s, i))
    && (forall r :: r in s.routines ==>
          s.routines[r].k.refs == |Holders(s.actors, r)| && (s.routines[r].freed <==> s.routines[r].k.refs == 0))
    && (forall r: Id :: r !in s.routines ==> Holders(s.actors, r) == {})
  }

  /** Whoever is about to touch a control keeps it alive, by its own reference or by the
      handle it was called through. */
  lemma NotFreed(s: System, i: Id)
    requires Inv(s) && i in s.actors
    requires var w := s.actors[i];
      HoldsRef(w, if w.Gone? then 0 else w.r) || w.Setter? || (w.Killer? && (w.kpc.Requesting? || w.kpc.Poking?))
    ensures !s.routines[s.actors[i].r].freed && s.routines[s.actors[i].r].k.refs > 0
  {
    var w := s.actors[i];
    assert ActorOk(s, i);
    var j := if HoldsRef(w, w.r) then i else w.handle;
    assert j in Holders(s.actors, w.r);
  }

  /** An effect that accounts for the reference and the count its actor holds. */
  ghost predicate Balanced(t: Routine, w: Actor, f: Effect, r: Id) {
    && f.t.k.refs == t.k.refs + One(HoldsRef(f.w, r)) - One(HoldsRef(w, r))
    && (f.t.freed <==> f.t.k.refs == 0)
    && (match f.count
        case Same => IsActive(f.w) == IsActive(w)
        case Up => IsActive(f.w) && !IsActive(w)
        case Down => !IsActive(f.w) && IsActive(w))
    && (!f.w.Gone? ==> f.w.r == r)
  }

  lemma InvApply(s: System, a: Id, f: Effect)
    requires Inv(s) && a in s.actors && !s.actors[a].Gone?
    requires var w := s.actors[a];
      && w.r in s.routines && Balanced(s.routines[w.r], w, f, w.r)
      && (f.touched ==> !s.routines[w.r].freed)
      && (w.Handle? ==> f.w == w || (forall i :: i in s.actors ==> !Borrows(s.actors[i], a)))
      && (f.w.Setter? || (f.w.Killer? && (f.w.kpc.Requesting? || f.w.kpc.Poking?)) ==> Borrows(w, f.w.handle))
      && (f.w.Handle? ==> f.w == w)
    ensures Inv(Apply(s, s.actors[a].r, a, f))
  {
    var s' := Apply(s, s.actors[a].r, a, f);
    CountsApply(s, a, f);
    forall i | i in s'.actors ensures ActorOk(s', i) { ActorsApply(s, a, f, i); }
  }

  lemma CountsApply(s: System, a: Id, f: Effect)
    requires Inv(s) && a in s.actors && !s.actors[a].Gone?
    requires var w := s.actors[a]; w.r in s.routines && Balanced(s.routines[w.r], w, f, w.r)
    ensures var s' := Apply(s, s.actors[a].r, a, f);
      && s'.active == |ActiveActors(s'.actors)|
      && (forall r :: r in s'.routines ==>
            && s'.routines[r].k.refs == |Holders(s'.actors, r)|
            && (s'.routines[r].freed <==> s'.routines[r].k.refs == 0))
      && (forall r: Id :: r !in s'.routines ==> Holders(s'.actors, r) == {})
  {
    var w := s.actors[a];
    var s' := Apply(s, w.r, a, f);
    ActiveAfter(s.actors, a, f.w);
    assert a in ActiveActors(s.actors) <==> IsActive(w);
    forall q: Id
      ensures |Holders(s'.actors, q)| == |Holders(s.actors, q)| + One(HoldsRef(f.w, q)) - One(HoldsRef(w, q))
    {
      HoldersAfter(s.actors, a, f.w, q);
    }
  }

  lemma ActorsApply(s: System, a: Id, f: Effect, i: Id)
    requires Inv(s) && a in s.actors && !s.actors[a].Gone? && i in s.actors
    requires var w := s.actors[a];
      && w.r in s.routines && (!f.w.Gone? ==> f.w.r == w.r)
      && (w.Handle? ==> f.w == w || (forall i :: i in s.actors ==> !Borrows(s.actors[i], a)))
      && (f.w.Setter? || (f.w.Killer? && (f.w.kpc.Requesting? || f.w.kpc.Poking?)) ==> Borrows(w, f.w.handle))
      && (f.w.Handle? ==> f.w == w)
    ensures ActorOk(Apply(s, s.actors[a].r, a, f), i)
  {
    assert ActorOk(s, a) && ActorOk(s, i);
  }

  lemma StepBalanced(t: Routine, now: real, a: Id, w: Actor, outcome: Outcome, rc: int)
    requires !w.Gone? && (t.freed <==> t.k.refs == 0)
    requires HoldsRef(w, w.r) || w.Setter? ==> t.k.refs > 0
    ensures Balanced(t, w, Step(t, now, a, w, outcome, rc), w.r)
  {
  }

  lemma InvStep(s: System, a: Id, outcome: Outcome, rc: int)
    requires Inv(s) && a in s.actors && !s.actors[a].Gone?
    ensures s.actors[a].r in s.routines
    ensures Inv(Apply(s, s.actors[a].r, a, Step(s.routines[s.actors[a].r], s.now, a, s.actors[a], outcome, rc)))
  {
    var w := s.actors[a];
    assert ActorOk(s, a);
    var t := s.routines[w.r];
    var f := Step(t, s.now, a, w, outcome, rc);
    var live := HoldsRef(w, w.r) || w.Setter? || (w.Killer? && (w.kpc.Requesting? || w.kpc.Poking?));
    if live { NotFreed(s, a); }
    StepBalanced(t, s.now, a, w, outcome, rc);
    StepTouches(t, s.now, a, w, outcome, rc);
    InvApply(s, a, f);
  }

  /** Only an actor that keeps the control alive touches it, and no call is taken over. */
  lemma StepTouches(t: Routine, now: real, a: Id, w: Actor, outcome: Outcome, rc: int)
    requires !w.Gone?
    ensures var f := Step(t, now, a, w, outcome, rc);
      && (f.touched ==> HoldsRef(w, w.r) || w.Setter? || (w.Killer? && (w.kpc.Requesting? || w.kpc.Poking?)))
      && (f.w.Setter? || (f.w.Killer? && (f.w.kpc.Requesting? || f.w.kpc.Poking?)) ==> Borrows(w, f.w.handle))
      && (w.Handle? || f.w.Handle? ==> f.w == w)
  {
  }

  lemma InvSpawn(s: System, r: Id, w: Id, h: Id)
    requires Inv(s)
    ensures Inv(Next(s, Spawn(r, w, h)))
  {
    var s' := Next(s, Spawn(r, w, h));
    if !(r in s.routines || w in s.actors || h in s.actors || w == h) {
      var half := s.actors[w := Worker(r, ReturnedNormally, Calling)];
      ActiveAfter(s.actors, w, half[w]);
      ActiveAfter(half, h, Handle(r));
      forall q: Id ensures |Holders(s'.actors, q)| == |Holders(s.actors, q)| + (if q == r then 2 else 0) {
        HoldersAfter(s.actors, w, half[w], q);
        HoldersAfter(half, h, Handle(r), q);
      }
      forall i | i in s'.actors ensures ActorOk(s', i) {
        if i in s.actors { assert ActorOk(s, i); }
      }
    }
  }

  lemma InvNext(s: System, e: Event)
    requires Inv(s)
    ensures Inv(Next(s, e))
  {
    var s' := Next(s, e);
    match e
    case Spawn(r, w, h) => InvSpawn(s, r, w, h);
    case Tick(_) => InvSame(s, s');
    case DropHandle(h) =>
      if s' != s {
        assert ActorOk(s, h);
        NotFreed(s, h);
        InvApply(s, h, Touch(Released(s.routines[s.actors[h].r]), Gone));
      }
    case CallKill(c, h) => InvCall(s, s', c, h);
    case CallTimeout(c, h, seconds) => InvCall(s, s', c, h);
    case Go(a, outcome, rc) =>
      if a in s.actors && !s.actors[a].Gone? { InvStep(s, a, outcome, rc); }
  }

  lemma InvSame(s: System, s': System)
    requires Inv(s) && s' == s.(now := s'.now)
    ensures Inv(s')
  {
    forall i | i in s'.actors ensures ActorOk(s', i) { assert ActorOk(s, i); }
  }

  lemma InvCall(s: System, s': System, c: Id, h: Id)
    requires Inv(s)
    requires s' == s || (
      && c !in s.actors && h in s.actors && s.actors[h].Handle?
      && s' == s.(actors := s'.actors) && c in s'.actors && s'.actors == s.actors[c := s'.actors[c]]
      && (s'.actors[c] == Killer(s.actors[h].r, h, Requesting)
          || (s'.actors[c].Setter? && s'.actors[c].spc.Locking? && s'.actors[c].handle == h
              && s'.actors[c].r == s.actors[h].r)))
    ensures Inv(s')
  {
    if s' != s {
      var w := s'.actors[c];
      assert ActorOk(s, h);
      ActiveAfter(s.actors, c, w);
      forall q: Id ensures |Holders(s'.actors, q)| == |Holders(s.actors, q)| { HoldersAfter(s.actors, c, w, q); }
      forall i | i in s'.actors ensures ActorOk(s', i) {
        if i in s.actors { assert ActorOk(s, i); }
      }
    }
  }

  lemma {:induction false} InvRun(s: System, events: seq<Event>)
    requires Inv(s)
    ensures Inv(Run(s, events))
    decreases |events|
  {
    if events != [] {
      InvNext(s, events[0]);
      InvRun(Next(s, events[0]), events[1..]);
    }
  }

  lemma InvInit()
    ensures Inv(INIT)
  {
    assert ActiveActors(INIT.actors) == {};
    assert forall r: Id :: Holders(INIT.actors, r) == {};
  }

  /** In every run a control's count is the number of workers, handles and timers (or
      timers being set up) that hold it; it has been freed exactly when none is left; and
      nothing ever touches a freed control. */
  lemma RefsCountHolders(events: seq<Event>, r: Id)
    requires r in Run(INIT, events).routines
    ensures var s := Run(INIT, events);
            && s.routines[r].k.refs == |Holders(s.actors, r)|
            && (s.routines[r].freed <==> Holders(s.actors, r) == {})
            && !s.fault
  {
    InvInit();
    InvRun(INIT, events);
  }

  /** The active count is the number of started but unfinished worker and timer threads,
      so the guard in go_active_dec never skips and wait_all returns only when none is left. */
  lemma ActiveCountsThreads(events: seq<Event>)
    ensures var s := Run(INIT, events);
            && s.active == |ActiveActors(s.actors)|
            && (s.active == 0 <==> ActiveActors(s.actors) == {})
            && (forall i :: i in s.actors && IsActive(s.actors[i]) ==> Counted(s.active, Down) + 1 == s.active)
  {
    InvInit();
    InvRun(INIT, events);
    var s := Run(INIT, events);
    forall i | i in s.actors && IsActive(s.actors[i]) ensures s.active > 0 {
      assert i in ActiveActors(s.actors);
    }
  }
}

/** Who cancels a routine, when a timer may, and which status results. */
module Outcomes {
  import opened Wrappers
  import opened ControlSpec
  import opened ControlSystem

  /** The status that a callback outcome, the wake error at the finish and the one
      cancellation, if any, call for. */
  function Verdict(o: Outcome, wakeError: int, cancel: Option<Cancellation>): Status {
    if wakeError != 0 then Failed
    else if cancel.Some? then (if cancel.value.reason == TimeoutReason then TimedOut else Killed)
    else match o
         case ReturnedNormally => Done
         case DiedOfCancel => Killed
         case DiedOfExit => Exited
         case DiedOtherwise => Failed
  }

  /** A timer cancelled only while its generation was the current one, under the last timeout
      set, which was positive, and not before its time unless an error had been recorded. */
  ghost predicate Timely(t: Routine) {
    t.cancel.Some? && t.cancel.value.reason == TimeoutReason ==>
      var c := t.cancel.value;
      && c.own == c.generation && c.armed.At? && c.armed.seconds > 0.0
      && (c.when >= c.armed.when + c.armed.seconds
          || (c.wakeError != 0 && t.k.wakeError != 0 && (t.ended.Some? ==> t.ended.value.1 != 0)))
  }

  ghost predicate RoutineOk(t: Routine) {
    && (t.k.cancelRequested <==> t.cancel.Some?)
    && (if t.cancel.Some? then t.k.reason == t.cancel.value.reason && t.k.reason != NoReason
        else t.k.reason == NoReason)
    && Timely(t)
    && t.k.seconds == (if t.armed.At? then t.armed.seconds else 0.0)
    && (t.k.state == Running <==> t.ended.None?) && (t.k.threadValid <==> t.ended.None?)
    && (t.ended.Some? ==> t.k.state == Verdict(t.ended.value.0, t.ended.value.1, t.cancel))
  }

  /** A status decided from the callback outcome before the finish looks again. */
  ghost predicate Foreseen(f: Status, o: Outcome, t: Routine) {
    match o
    case DiedOfCancel => f == Killed || (f == TimedOut && t.cancel.Some? && t.cancel.value.reason == TimeoutReason)
    case _ => f == Verdict(o, 0, None)
  }

  /** What an actor's position says about its routine `t`. */
  ghost predicate Fits(t: Routine, now: real, i: Id, w: Actor) {
    match w
    case Worker(_, o, pc) =>
      && (t.ended.None? <==> !pc.Finished? && !pc.Leaving?)
      && (pc.Classifying? ==> o == DiedOfCancel)
      && (pc.Decided? ==> Foreseen(pc.status, o, t))
      && (pc.Finishing? ==> (pc.status == Failed && t.k.wakeError != 0) || Foreseen(pc.status, o, t))
    case Timer(_, g, d, setAt, secs, pc) =>
      && g <= t.k.generation && (g == t.k.generation ==> t.armed == At(setAt, secs))
      && d >= setAt + secs
      && (pc.Asleep? ==> secs > 0.0)
      && (pc.Firing? ==> now >= d || t.k.wakeError != 0)
    case Setter(_, _, setAt, secs, pc) =>
      && setAt <= now
      && (!pc.Locking? ==>
            pc.generation <= t.k.generation && (pc.generation == t.k.generation ==> t.armed == At(setAt, secs)))
      && (pc.Timed? || pc.Retained? || pc.Counting? ==> pc.deadline >= setAt + secs)
    case Killer(_, _, pc) =>
      && (pc.Poking? || pc == Answered(true) || pc.Threw? ==>
            t.cancel.Some? && t.cancel.value.who == i && t.cancel.value.reason == KillReason)
      && (pc.Threw? ==> t.k.wakeError != 0)
      && (pc == Answered(false) ==> t.cancel.Some? || t.ended.Some?)
    case _ => true
  }

  ghost predicate Inv(s: System) {
    && (forall r :: r in s.routines ==> RoutineOk(s.routines[r]))
    && (forall i :: i in s.actors && !s.actors[i].Gone? ==>
          s.actors[i].r in s.routines && Fits(s.routines[s.actors[i].r], s.now, i, s.actors[i]))
    && (forall i, j :: (i in s.actors && j in s.actors && s.actors[i].Worker? && s.actors[j].Worker?
                        && s.actors[i].r == s.actors[j].r) ==> i == j)
  }

  /** What no stretch of code undoes. */
  ghost predicate Evolves(t: Routine, t': Routine) {
    && t.k.generation <= t'.k.generation
    && (t.k.generation == t'.k.generation ==> t.armed == t'.armed)
    && (t.cancel.Some? ==> t'.cancel == t.cancel)
    && (t.k.wakeError != 0 ==> t'.k.wakeError != 0)
    && (t.ended.Some? ==> t'.ended == t.ended && t'.cancel == t.cancel && t'.k.state == t.k.state)
  }

  lemma WorkerStep(t: Routine, now: real, a: Id, w: Actor, outcome: Outcome)
    requires RoutineOk(t) && Fits(t, now, a, w) && w.Worker?
    ensures var f := StepWorker(t, w, outcome); RoutineOk(f.t) && Fits(f.t, now, a, f.w) && Evolves(t, f.t)
  {
  }

  lemma TimerStep(t: Routine, now: real, a: Id, w: Actor, rc: int)
    requires RoutineOk(t) && Fits(t, now, a, w) && w.Timer?
    ensures var f := StepTimer(t, now, a, w, rc);
            RoutineOk(f.t) && Fits(f.t, now, a, f.w) && Evolves(t, f.t) && f.t.ended == t.ended
  {
    if w.tpc.Starting? || w.tpc.Asleep? {
      TimerWaits(t, now, a, w, if w.tpc.Asleep? then rc else 0);
    } else {
      TimerEnds(t, now, a, w, rc);
    }
  }

  lemma TimerWaits(t: Routine, now: real, a: Id, w: Actor, rc: int)
    requires RoutineOk(t) && Fits(t, now, a, w) && w.Timer? && (w.tpc.Starting? ==> rc == 0)
    requires w.tpc.Starting? || w.tpc.Asleep?
    ensures var f := AfterCheck(t, w, TimerCheck(t.k, w.generation, w.deadline, now, rc));
            RoutineOk(f.t) && Fits(f.t, now, a, f.w) && Evolves(t, f.t) && f.t.ended == t.ended
  {
  }

  lemma TimerEnds(t: Routine, now: real, a: Id, w: Actor, rc: int)
    requires RoutineOk(t) && Fits(t, now, a, w) && w.Timer? && !w.tpc.Starting? && !w.tpc.Asleep?
    ensures var f := StepTimer(t, now, a, w, rc);
            RoutineOk(f.t) && Fits(f.t, now, a, f.w) && Evolves(t, f.t) && f.t.ended == t.ended
  {
  }

  lemma SetterStep(t: Routine, now: real, a: Id, w: Actor, rc: int)
    requires RoutineOk(t) && Fits(t, now, a, w) && w.Setter?
    ensures var f := StepSetter(t, now, w, rc);
            RoutineOk(f.t) && Fits(f.t, now, a, f.w) && Evolves(t, f.t) && f.t.ended == t.ended
  {
  }

  lemma KillerStep(t: Routine, now: real, a: Id, w: Actor, rc: int)
    requires RoutineOk(t) && Fits(t, now, a, w) && w.Killer?
    ensures var f := StepKiller(t, now, a, w, rc);
            RoutineOk(f.t) && Fits(f.t, now, a, f.w) && Evolves(t, f.t) && f.t.ended == t.ended
  {
  }

  lemma InvApply(s: System, a: Id, f: Effect)
    requires Inv(s) && a in s.actors && !s.actors[a].Gone?
    requires var w := s.actors[a]; var t := s.routines[w.r];
      && RoutineOk(f.t) && Evolves(t, f.t) && (w.Worker? || f.t.ended == t.ended)
      && (!f.w.Gone? ==> f.w.r == w.r && Fits(f.t, s.now, a, f.w))
      && (f.w.Worker? ==> w.Worker?)
    ensures Inv(Apply(s, s.actors[a].r, a, f))
  {
    var w, s' := s.actors[a], Apply(s, s.actors[a].r, a, f);
    forall i | i in s'.actors && !s'.actors[i].Gone?
      ensures s'.actors[i].r in s'.routines && Fits(s'.routines[s'.actors[i].r], s.now, i, s'.actors[i])
    {
      if i != a {
        assert Fits(s.routines[s.actors[i].r], s.now, i, s.actors[i]);
      }
    }
  }

  lemma InvStep(s: System, a: Id, outcome: Outcome, rc: int)
    requires Inv(s) && a in s.actors && !s.actors[a].Gone?
    ensures Inv(Next(s, Go(a, outcome, rc)))
  {
    var w := s.actors[a];
    var t := s.routines[w.r];
    match w {
      case Worker(_, _, _) => WorkerStep(t, s.now, a, w, outcome);
      case Timer(_, _, _, _, _, _) => TimerStep(t, s.now, a, w, rc);
      case Setter(_, _, _, _, _) => SetterStep(t, s.now, a, w, rc);
      case Killer(_, _, _) => KillerStep(t, s.now, a, w, rc);
      case _ =>
    }
    InvApply(s, a, Step(t, s.now, a, w, outcome, rc));
  }

  lemma InvNew(s: System, e: Event)
    requires Inv(s) && (e.Spawn? || e.Tick? || e.CallKill? || e.CallTimeout?)
    ensures Inv(Next(s, e))
  {
    var s' := Next(s, e);
    forall i | i in s'.actors && !s'.actors[i].Gone?
      ensures s'.actors[i].r in s'.routines && Fits(s'.routines[s'.actors[i].r], s'.now, i, s'.actors[i])
    {
      if i in s.actors { assert Fits(s.routines[s.actors[i].r], s.now, i, s.actors[i]); }
    }
  }

  lemma InvNext(s: System, e: Event)
    requires Inv(s)
    ensures Inv(Next(s, e))
  {
    if e.Go? {
      if e.a in s.actors && !s.actors[e.a].Gone? { InvStep(s, e.a, e.outcome, e.rc); }
    } else if e.DropHandle? {
      if Next(s, e) != s {
        InvApply(s, e.h, Touch(Released(s.routines[s.actors[e.h].r]), Gone));
      }
    } else {
      InvNew(s, e);
    }
  }

  lemma {:induction false} InvRun(s: System, events: seq<Event>)
    requires Inv(s)
    ensures Inv(Run(s, events))
    decreases |events|
  {
    if events != [] {
      InvNext(s, events[0]);
      InvRun(Next(s, events[0]), events[1..]);
    }
  }

  lemma {:induction false} Evolved(s: System, events: seq<Event>, r: Id)
    requires Inv(s) && r in s.routines
    ensures r in Run(s, events).routines && Evolves(s.routines[r], Run(s, events).routines[r])
    decreases |events|
  {
    if events != [] {
      var s1 := Next(s, events[0]);
      EvolvesNext(s, events[0], r);
      InvNext(s, events[0]);
      Evolved(s1, events[1..], r);
    }
  }

  lemma EvolvesNext(s: System, e: Event, r: Id)
    requires Inv(s) && r in s.routines
    ensures r in Next(s, e).routines && Evolves(s.routines[r], Next(s, e).routines[r])
  {
    if e.Go? && e.a in s.actors && !s.actors[e.a].Gone? {
      StepEvolves(s, e.a, e.outcome, e.rc);
    }
  }

  lemma StepEvolves(s: System, a: Id, outcome: Outcome, rc: int)
    requires Inv(s) && a in s.actors && !s.actors[a].Gone?
    ensures s.actors[a].r in s.routines
    ensures var w := s.actors[a]; var t := s.routines[w.r];
            Evolves(t, Step(t, s.now, a, w, outcome, rc).t)
  {
    var w := s.actors[a];
    var t := s.routines[w.r];
    match w {
      case Worker(_, _, _) => WorkerStep(t, s.now, a, w, outcome);
      case Timer(_, _, _, _, _, _) => TimerStep(t, s.now, a, w, rc);
      case Setter(_, _, _, _, _) => SetterStep(t, s.now, a, w, rc);
      case Killer(_, _, _) => KillerStep(t, s.now, a, w, rc);
      case _ =>
    }
  }

  /** In every run a routine that is over has exactly the status its callback's outcome,
      the wake error at the finish and its one cancellation call for, and keeps it; and its
      thread is no longer offered to be woken. */
  lemma StatusIsVerdict(events: seq<Event>, later: seq<Event>, r: Id)
    requires var s := Run(INIT, events); r in s.routines && s.routines[r].k.state != Running
    ensures var t := Run(INIT, events).routines[r];
            && t.ended.Some? && t.k.state == Verdict(t.ended.value.0, t.ended.value.1, t.cancel)
            && !t.k.threadValid
            && r in Run(Run(INIT, events), later).routines
            && Run(Run(INIT, events), later).routines[r].k.state == t.k.state
  {
    InvRun(INIT, events);
    assert RoutineOk(Run(INIT, events).routines[r]);
    Evolved(Run(INIT, events), later, r);
  }

  /** A kill request that returned true is the routine's one cancellation for good, so the
      status, once there is one, is killed, or failed when a wake error had been recorded. */
  lemma KillDecides(events: seq<Event>, later: seq<Event>, c: Id)
    requires var s := Run(INIT, events); c in s.actors && s.actors[c].Killer? && s.actors[c].kpc == Answered(true)
    ensures var r := Run(INIT, events).actors[c].r;
            var s := Run(Run(INIT, events), later);
            && r in s.routines && s.routines[r].cancel.Some?
            && s.routines[r].cancel.value.who == c && s.routines[r].cancel.value.reason == KillReason
            && (s.routines[r].k.state != Running ==>
                  && s.routines[r].ended.Some?
                  && s.routines[r].k.state == if s.routines[r].ended.value.1 != 0 then Failed else Killed)
  {
    var s0 := Run(INIT, events);
    InvRun(INIT, events);
    assert Fits(s0.routines[s0.actors[c].r], s0.now, c, s0.actors[c]);
    Evolved(s0, later, s0.actors[c].r);
    InvRun(s0, later);
    assert RoutineOk(Run(s0, later).routines[s0.actors[c].r]);
  }

  /** Two kill requests on one routine never both return true, and one that returned false
      came after the routine was cancelled or over. */
  lemma OneKillWins(events: seq<Event>, c: Id, d: Id)
    requires var s := Run(INIT, events);
             && c in s.actors && s.actors[c].Killer? && d in s.actors && s.actors[d].Killer?
             && s.actors[c].r == s.actors[d].r
    ensures var s := Run(INIT, events);
            && (s.actors[c].kpc == Answered(true) && s.actors[d].kpc == Answered(true) ==> c == d)
            && (s.actors[c].kpc == Answered(false) ==>
                  s.actors[c].r in s.routines
                  && (s.routines[s.actors[c].r].cancel.Some? || s.routines[s.actors[c].r].k.state != Running))
  {
    var s := Run(INIT, events);
    InvRun(INIT, events);
    var t := s.routines[s.actors[c].r];
    assert Fits(t, s.now, c, s.actors[c]) && Fits(t, s.now, d, s.actors[d]) && RoutineOk(t);
  }

  /** In every run a timer cancels only while its own generation is the current one, under
      the timeout set last, and only once that much time has passed since it was set; it is
      early only if a wake error had been recorded by then, and such a routine cannot end as
      timed out. */
  lemma TimersAreTimely(events: seq<Event>, r: Id)
    requires r in Run(INIT, events).routines
    ensures var t := Run(INIT, events).routines[r];
            && (t.cancel.Some? && t.cancel.value.reason == TimeoutReason ==>
                  var c := t.cancel.value;
                  && c.own == c.generation && c.armed.At? && c.armed.seconds > 0.0
                  && (c.when < c.armed.when + c.armed.seconds ==> c.wakeError != 0 && t.k.state != TimedOut))
            && (t.k.state == TimedOut ==>
                  && t.cancel.Some? && t.cancel.value.reason == TimeoutReason && t.cancel.value.armed.At?
                  && t.cancel.value.when >= t.cancel.value.armed.when + t.cancel.value.armed.seconds)
  {
    InvRun(INIT, events);
    assert RoutineOk(Run(INIT, events).routines[r]);
  }
}

/** What each actor's next steps bring about in any reachable state. */
module ActorProgress {
  import opened Wrappers
  import opened ControlSpec
  import opened ControlSystem
  import Outcomes

  /** A routine that can still be cancelled. */
  ghost predicate Cancellable(t: Routine) {
    t.ended.None? && t.cancel.None?
  }

  /** An actor and its routine in a reachable state. */
  ghost predicate Acting(s: System, a: Id) {
    a in s.actors && !s.actors[a].Gone? && s.actors[a].r in s.routines
  }

  lemma RoutineIs(events: seq<Event>, r: Id)
    requires r in Run(INIT, events).routines
    ensures var t := Run(INIT, events).routines[r];
      && (t.ended.None? <==> t.k.state == Running) && (t.cancel.Some? <==> t.k.cancelRequested)
      && t.k.seconds == (if t.armed.At? then t.armed.seconds else 0.0)
  {
    Outcomes.InvRun(INIT, events);
    assert Outcomes.RoutineOk(Run(INIT, events).routines[r]);
  }

  // ---- timers

  /** The timeout a timer was started for is still in force. */
  ghost predicate InForce(t: Routine, w: Actor)
    requires w.Timer?
  {
    t.ended.None? && w.generation == t.k.generation && t.armed.At? && t.armed.seconds > 0.0
  }

  /** A timer that is awake, from its start or from a wait that did not fail. */
  ghost predicate Awake(w: Actor, rc: int) {
    w.Timer? && (w.tpc.Starting? || (w.tpc.Asleep? && (rc == 0 || rc == TIMEOUT_RESULT)))
  }

  /** Past its deadline, a timer whose timeout is in force cancels the routine within two
      steps, whatever else the steps' choices are. */
  lemma TimersFire(events: seq<Event>, a: Id, o: Outcome, rc: int, o': Outcome, rc': int)
    requires var s := Run(INIT, events);
      && Acting(s, a) && Awake(s.actors[a], rc) && s.now >= s.actors[a].deadline
      && InForce(s.routines[s.actors[a].r], s.actors[a]) && s.routines[s.actors[a].r].cancel.None?
    ensures var s := Run(INIT, events);
      var r := s.actors[a].r;
      var s' := Next(Next(s, Go(a, o, rc)), Go(a, o', rc'));
      && r in s'.routines && s'.routines[r].cancel.Some?
      && s'.routines[r].cancel.value.who == a && s'.routines[r].cancel.value.reason == TimeoutReason
      && s'.routines[r].k.cancelRequested && s'.routines[r].k.reason == TimeoutReason
  {
    RoutineIs(events, Run(INIT, events).actors[a].r);
  }

  /** Before its deadline such a timer sleeps on, and touches nothing. */
  lemma TimersSleep(events: seq<Event>, a: Id, o: Outcome, rc: int)
    requires var s := Run(INIT, events);
      && Acting(s, a) && Awake(s.actors[a], rc) && s.now < s.actors[a].deadline
      && InForce(s.routines[s.actors[a].r], s.actors[a])
    ensures var s := Run(INIT, events);
      var s' := Next(s, Go(a, o, rc));
      && a in s'.actors && s'.actors[a] == s.actors[a].(tpc := Asleep)
      && s'.routines == s.routines && s'.active == s.active
  {
    var s := Run(INIT, events);
    RoutineIs(events, s.actors[a].r);
    Unchanged(s.routines, s.actors[a].r);
  }

  lemma Unchanged(routines: map<Id, Routine>, r: Id)
    requires r in routines
    ensures routines[r := routines[r]] == routines
  {
  }

  /** A timer that leaves without firing found its timeout no longer in force; one that fires
      in vain found that, or the routine cancelled already. */
  lemma TimersLeaveForAReason(events: seq<Event>, a: Id, o: Outcome, rc: int)
    requires var s := Run(INIT, events);
      && Acting(s, a) && s.actors[a].Timer?
      && (s.actors[a].tpc.Starting? || s.actors[a].tpc.Asleep? || s.actors[a].tpc.Firing?)
    ensures var s := Run(INIT, events);
      var w, t := s.actors[a], s.routines[s.actors[a].r];
      var s' := Next(s, Go(a, o, rc));
      a in s'.actors && s'.actors[a].Timer? &&
      (s'.actors[a].tpc.Stopping? ==>
         && s'.routines[w.r].cancel == t.cancel
         && (!InForce(t, w) || (w.tpc.Firing? && t.cancel.Some?)))
  {
    RoutineIs(events, Run(INIT, events).actors[a].r);
  }

  /** A failed wait, or a failed wake of the worker, is recorded. */
  lemma FailuresAreRecorded(events: seq<Event>, a: Id, o: Outcome, rc: int)
    requires var s := Run(INIT, events);
      && Acting(s, a) && rc != 0
      && ((s.actors[a].Timer? && s.actors[a].tpc.Asleep? && rc != TIMEOUT_RESULT)
          || (s.actors[a].Timer? && s.actors[a].tpc == Waking(true))
          || (s.actors[a].Killer? && s.actors[a].kpc.Poking?))
    ensures var s := Run(INIT, events);
      var r := s.actors[a].r;
      r in Next(s, Go(a, o, rc)).routines && Next(s, Go(a, o, rc)).routines[r].k.wakeError == rc
  {
  }

  // ---- kill requests

  /** A kill request takes effect at its first step exactly on a routine that is neither over
      nor cancelled, and otherwise changes nothing and answers no. */
  lemma KillsAct(events: seq<Event>, c: Id, o: Outcome, rc: int)
    requires var s := Run(INIT, events); Acting(s, c) && s.actors[c].Killer? && s.actors[c].kpc.Requesting?
    ensures var s := Run(INIT, events);
      var r := s.actors[c].r;
      var s' := Next(s, Go(c, o, rc));
      c in s'.actors && s'.actors[c].Killer? && r in s'.routines &&
      if Cancellable(s.routines[r]) then
        && s'.routines[r].cancel.Some? && s'.routines[r].cancel.value.who == c
        && s'.routines[r].k.cancelRequested && s'.routines[r].k.reason == KillReason
        && s'.actors[c].kpc == if s.routines[r].k.threadValid then Poking else Answered(true)
      else s'.routines == s.routines && s'.actors[c].kpc == Answered(false)
  {
    var s := Run(INIT, events);
    RoutineIs(events, s.actors[c].r);
    Unchanged(s.routines, s.actors[c].r);
  }

  // ---- setting a timeout

  /** The first step of setting a timeout: refused when the routine is over; otherwise the
      timeout and a new generation are in force at once. */
  lemma TimeoutsAreSet(events: seq<Event>, c: Id, o: Outcome, rc: int)
    requires var s := Run(INIT, events); Acting(s, c) && s.actors[c].Setter? && s.actors[c].spc.Locking?
    ensures var s := Run(INIT, events);
      var w, t := s.actors[c], s.routines[s.actors[c].r];
      var s' := Next(s, Go(c, o, rc));
      c in s'.actors && w.r in s'.routines &&
      if t.ended.Some? then s'.actors[c].Gone? && s'.routines == s.routines
      else
        var t' := s'.routines[w.r];
        && t'.k.generation == t.k.generation + 1 && t'.k.seconds == w.seconds && t'.armed == At(s.now, w.seconds)
        && (w.seconds == 0.0 ==> s'.actors[c].Gone?)
        && (w.seconds != 0.0 ==> s'.actors[c].Setter? && s'.actors[c].spc == Armed(t.k.generation + 1))
  {
    var s := Run(INIT, events);
    RoutineIs(events, s.actors[c].r);
    Unchanged(s.routines, s.actors[c].r);
  }

  /** The deadline counts from the step that works it out. */
  lemma DeadlinesCountFromNow(events: seq<Event>, c: Id, o: Outcome, rc: int, g: nat)
    requires var s := Run(INIT, events); Acting(s, c) && s.actors[c].Setter? && s.actors[c].spc == Armed(g)
    ensures var s := Run(INIT, events);
      var s' := Next(s, Go(c, o, rc));
      && c in s'.actors && s'.actors[c].Setter? && s'.actors[c].spc == Timed(g, s.now + s.actors[c].seconds)
      && s'.routines == s.routines
  {
    Unchanged(Run(INIT, events).routines, Run(INIT, events).actors[c].r);
  }

  /** The step in which thread creation is tried: the setter becomes the timer, with the
      deadline it worked out, or starts to clean up. */
  lemma TimersStart(events: seq<Event>, c: Id, o: Outcome, rc: int, g: nat, d: real)
    requires var s := Run(INIT, events); Acting(s, c) && s.actors[c].Setter? && s.actors[c].spc == Counting(g, d)
    ensures var s := Run(INIT, events);
      var w := s.actors[c];
      var s' := Next(s, Go(c, o, rc));
      && c in s'.actors && s'.routines == s.routines
      && s'.actors[c] == if rc == 0 then Timer(w.r, g, d, w.setAt, w.seconds, Starting) else w.(spc := NotCreated(g))
  {
    Unchanged(Run(INIT, events).routines, Run(INIT, events).actors[c].r);
  }

  /** The last step of the clean-up takes the timeout back if it is still the last one set. */
  lemma TimeoutsAreTakenBack(events: seq<Event>, c: Id, o: Outcome, rc: int, g: nat)
    requires var s := Run(INIT, events); Acting(s, c) && s.actors[c].Setter? && s.actors[c].spc == Unretained(g)
    ensures var s := Run(INIT, events);
      var t, t' := s.routines[s.actors[c].r], Next(s, Go(c, o, rc)).routines[s.actors[c].r];
      if t.k.generation == g then t'.k.seconds == 0.0 && t'.k.generation == g + 1 && t'.armed == Withdrawn
      else t' == t
  {
  }
}
