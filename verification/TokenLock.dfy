/**
 * The directory lock around packaged acceptance runs: any number of processes create it, work, and release it.
 * Every file-system call is a step of its own, so a recursive removal is not atomic, may fail half way, and a
 * process may stop anywhere. A process is known by its token; tokens are distinct.
 */
module TokenLock {
  import opened Wrappers

  type Process = nat

  /** `owner.json` while it is being written, and after. */
  datatype Owner = Partial | Token(process: Process)

  /** The lock directory. `maker` is whose `mkdirSync` made it; the program cannot see it. */
  datatype Dir = Dir(maker: Process, owner: Option<Owner>)

  datatype Phase =
    | Trying      // in the acquire loop
    | Made        // mkdirSync succeeded
    | Writing     // owner.json is open
    | Cleaning    // the write failed: about to unlink owner.json
    | CleaningDir // about to remove the directory after that
    | Working     // acquire returned
    | Reading     // release was called
    | Checked     // its own token was read: rmSync starts
    | Unlinked    // owner.json is gone
    | Returned    // release came back without setting `released`
    | Released    // `released` is set
    | Ended       // threw, timed out or crashed

  datatype Action =
    | Mkdir | OpenOwner | WriteOwner | WriteFails
    | CleanUnlink | CleanRmdir(retry: bool) | CleanFails(retry: bool)
    | CallRelease | ReadOwner | ReadFails
    | Unlink | Rmdir(reported: bool) | RemoveFails(missing: bool)
    | Stop

  /**
   * `inside` holds the processes between their successful mkdir and the end of their removal, `failed` those of them
   * whose last removal reported an error.
   */
  datatype State = State(dir: Option<Dir>, phases: map<Process, Phase>, inside: set<Process>, failed: set<Process>)

  const START: State := State(None, map[], {}, {})

  function PhaseOf(s: State, p: Process): Phase { if p in s.phases then s.phases[p] else Trying }

  function To(s: State, p: Process, phase: Phase): State { s.(phases := s.phases[p := phase]) }

  /** The directory without its owner file. */
  function WithoutOwner(dir: Option<Dir>): Option<Dir> { if dir.Some? then Some(dir.value.(owner := None)) else None }

  predicate Removable(s: State) { s.dir.Some? && s.dir.value.owner.None? }

  /** The removal of the directory is complete. */
  function Gone(s: State, p: Process): State { s.(dir := None, inside := s.inside - {p}, failed := s.failed - {p}) }

  /** Where reading `owner.json` leads. */
  function AfterRead(s: State, p: Process): Phase {
    if s.dir.None? || s.dir.value.owner.None? then Released
    else if s.dir.value.owner.value == Token(p) then Checked
    else Returned
  }

  /** The step a process takes; an action out of turn does nothing. */
  function Next(s: State, p: Process, a: Action): State {
    match (PhaseOf(s, p), a)
    case (Trying, Mkdir) =>
      if s.dir.None? then To(s, p, Made).(dir := Some(Dir(p, None)), inside := s.inside + {p}) else s
    case (Made, OpenOwner) =>
      if s.dir.Some? then To(s, p, Writing).(dir := Some(s.dir.value.(owner := Some(Partial)))) else To(s, p, Cleaning)
    case (Writing, WriteOwner) =>
      if s.dir.Some? && s.dir.value.owner.Some? then To(s, p, Working).(dir := Some(s.dir.value.(owner := Some(Token(p)))))
      else To(s, p, Working)
    case (Made, WriteFails) => To(s, p, Cleaning)
    case (Writing, WriteFails) => To(s, p, Cleaning)
    case (Cleaning, CleanUnlink) => To(s, p, CleaningDir).(dir := WithoutOwner(s.dir))
    case (CleaningDir, CleanRmdir(retry)) =>
      if Removable(s) then Gone(To(s, p, if retry then Trying else Ended), p) else s
    case (Cleaning, CleanFails(retry)) => To(s, p, if retry then Trying else Ended).(failed := s.failed + {p})
    case (CleaningDir, CleanFails(retry)) => To(s, p, if retry then Trying else Ended).(failed := s.failed + {p})
    case (Working, CallRelease) => To(s, p, Reading)
    case (Returned, CallRelease) => To(s, p, Reading)
    case (Reading, ReadOwner) => To(s, p, AfterRead(s, p))
    case (Reading, ReadFails) => To(s, p, Returned)
    case (Checked, Unlink) => To(s, p, Unlinked).(dir := WithoutOwner(s.dir))
    case (Unlinked, Rmdir(reported)) =>
      if Removable(s) then Gone(To(s, p, if reported then Released else Returned), p) else s
    case (Checked, RemoveFails(missing)) => To(s, p, if missing then Released else Returned).(failed := s.failed + {p})
    case (Unlinked, RemoveFails(missing)) => To(s, p, if missing then Released else Returned).(failed := s.failed + {p})
    case (_, Stop) => To(s, p, Ended)
    case _ => s
  }

  datatype Turn = Turn(process: Process, action: Action)

  /** The state after any schedule of steps of any processes. */
  function Run(turns: seq<Turn>): State {
    if turns == [] then START
    else Next(Run(turns[..|turns| - 1]), turns[|turns| - 1].process, turns[|turns| - 1].action)
  }

  // ---- The invariant.

  predicate MustHold(phase: Phase) { phase in {Made, Writing, Cleaning, CleaningDir, Working, Checked, Unlinked} }

  predicate HeldBy(s: State, p: Process) { s.dir.Some? && s.dir.value.maker == p }

  /** What one process may rely on. */
  predicate Consistent(s: State, p: Process) {
    var phase := PhaseOf(s, p);
    && (p in s.inside <==> HeldBy(s, p))
    && (p in s.failed ==> HeldBy(s, p))
    && (MustHold(phase) ==> HeldBy(s, p))
    && (phase == Writing ==> s.dir.value.owner.Some?)
    && (phase == Working ==> s.dir.value.owner == Some(Token(p)))
    && (phase in {CleaningDir, Unlinked} ==> s.dir.value.owner == None)
    && (HeldBy(s, p) && phase in {Reading, Returned, Checked} && p !in s.failed ==> s.dir.value.owner == Some(Token(p)))
    && (HeldBy(s, p) && p !in s.failed ==> phase !in {Trying, Released})
  }

  ghost predicate Inv(s: State) {
    && (forall p: Process :: Consistent(s, p))
    && (s.dir.Some? && s.dir.value.owner.Some? && s.dir.value.owner.value.Token? ==> s.dir.value.owner.value.process == s.dir.value.maker)
  }

  /** No step touches a directory that another process made. */
  lemma StepTouchesOwn(s: State, p: Process, a: Action)
    requires Inv(s)
    ensures s.dir.Some? && Next(s, p, a).dir != s.dir ==> s.dir.value.maker == p
    ensures Next(s, p, a).dir.Some? && Next(s, p, a).dir != s.dir ==> Next(s, p, a).dir.value.maker == p
  {
    assert Consistent(s, p);
  }

  lemma StepKeepsOwn(s: State, p: Process, a: Action)
    requires Inv(s)
    ensures Consistent(Next(s, p, a), p)
  {
    assert Consistent(s, p);
  }

  lemma StepKeepsOthers(s: State, p: Process, a: Action, q: Process)
    requires Inv(s) && q != p
    ensures Consistent(Next(s, p, a), q)
  {
    assert Consistent(s, q) && Consistent(s, p);
  }

  lemma StepKeepsToken(s: State, p: Process, a: Action)
    requires Inv(s)
    ensures var d := Next(s, p, a).dir;
      d.Some? && d.value.owner.Some? && d.value.owner.value.Token? ==> d.value.owner.value.process == d.value.maker
  {
    assert Consistent(s, p);
  }

  lemma NextKeeps(s: State, p: Process, a: Action)
    requires Inv(s)
    ensures Inv(Next(s, p, a))
  {
    hide Next, Consistent;
    StepKeepsToken(s, p, a);
    StepKeepsOwn(s, p, a);
    forall q: Process ensures Consistent(Next(s, p, a), q) {
      if q != p { StepKeepsOthers(s, p, a, q); }
    }
  }

  lemma {:induction false} RunKeeps(turns: seq<Turn>)
    ensures Inv(Run(turns))
  {
    hide Next;
    if turns != [] {
      RunKeeps(turns[..|turns| - 1]);
      NextKeeps(Run(turns[..|turns| - 1]), turns[|turns| - 1].process, turns[|turns| - 1].action);
    }
  }

  // ---- The promises.

  /** Never are two processes between a successful mkdir and the end of its removal. */
  lemma MutualExclusion(turns: seq<Turn>, p: Process, q: Process)
    requires p in Run(turns).inside && q in Run(turns).inside
    ensures p == q
  {
    hide Run;
    RunKeeps(turns);
    assert Consistent(Run(turns), p) && Consistent(Run(turns), q);
  }

  /** A process that works is inside, and the lock carries its token. */
  lemma WorkerHolds(turns: seq<Turn>, p: Process)
    requires PhaseOf(Run(turns), p) == Working
    ensures p in Run(turns).inside && Run(turns).dir == Some(Dir(p, Some(Token(p))))
  {
    hide Run;
    RunKeeps(turns);
    assert Consistent(Run(turns), p);
  }

  /** No step, and so no release, removes or alters a directory or an owner file that another process made. */
  lemma NoForeignRemoval(turns: seq<Turn>, p: Process, a: Action)
    requires Run(turns).dir.Some? && Next(Run(turns), p, a).dir != Run(turns).dir
    ensures Run(turns).dir.value.maker == p
  {
    hide Run, Next;
    RunKeeps(turns);
    StepTouchesOwn(Run(turns), p, a);
  }

  lemma OtherStepKeepsPhase(s: State, p: Process, a: Action, q: Process)
    requires q != p
    ensures PhaseOf(Next(s, p, a), q) == PhaseOf(s, q)
  {
  }

  /** Whatever the others do, release calls included, a working process keeps its lock until it releases it itself. */
  lemma {:induction false} WorkerIsUndisturbed(turns: seq<Turn>, more: seq<Turn>, p: Process)
    requires PhaseOf(Run(turns), p) == Working && forall i :: 0 <= i < |more| ==> more[i].process != p
    ensures PhaseOf(Run(turns + more), p) == Working && Run(turns + more).dir == Some(Dir(p, Some(Token(p))))
    decreases |more|
  {
    hide Next;
    if more == [] {
      assert turns + more == turns;
    } else {
      var init, last := more[..|more| - 1], more[|more| - 1];
      WorkerIsUndisturbed(turns, init, p);
      assert (turns + more)[..|turns + more| - 1] == turns + init;
      OtherStepKeepsPhase(Run(turns + init), last.process, last.action, p);
    }
    WorkerHolds(turns + more, p);
  }

  // ---- A release frees the lock.

  /** The steps that `p` itself takes in a schedule. */
  function Own(turns: seq<Turn>, p: Process): seq<Action> {
    if turns == [] then []
    else
      var last := turns[|turns| - 1];
      Own(turns[..|turns| - 1], p) + if last.process == p then [last.action] else []
  }

  /** What one process can notice: its own phase and the directory. */
  datatype View = View(phase: Phase, dir: Option<Dir>)

  function ViewOf(s: State, p: Process): View { View(PhaseOf(s, p), s.dir) }

  predicate Holds(v: View, p: Process) { v.dir.Some? && v.dir.value.maker == p }

  /** One step of a process that is alone. */
  function Act(v: View, p: Process, a: Action): View { ViewOf(Next(State(v.dir, map[p := v.phase], {}, {}), p, a), p) }

  /** What a process makes of a view with these steps if it is alone. */
  function Alone(v: View, p: Process, steps: seq<Action>): View {
    if steps == [] then v else Act(Alone(v, p, steps[..|steps| - 1]), p, steps[|steps| - 1])
  }

  lemma RunThen(turns: seq<Turn>, p: Process, a: Action)
    ensures Run(turns + [Turn(p, a)]) == Next(Run(turns), p, a)
  {
    hide Next;
    assert (turns + [Turn(p, a)])[..|turns + [Turn(p, a)]| - 1] == turns;
  }

  /** A step is the same step in company. */
  lemma StepIsLocal(s: State, p: Process, a: Action)
    ensures ViewOf(Next(s, p, a), p) == Act(ViewOf(s, p), p, a)
  {
    match PhaseOf(s, p)
    case Trying => case Made => case Writing => case Cleaning => case CleaningDir => case Working =>
    case Reading => case Checked => case Unlinked => case Returned => case Released => case Ended =>
  }

  /** The lock is held by `p` before each of these steps. */
  predicate HoldsThroughout(v: View, p: Process, steps: seq<Action>) {
    forall k :: 0 <= k < |steps| ==> Holds(Alone(v, p, steps[..k]), p)
  }

  /** The process is where it would be alone; so is the directory for as long as the process holds it. */
  predicate AsAlone(s: State, p: Process, v: View) {
    && PhaseOf(s, p) == v.phase
    && (Holds(v, p) ==> s.dir == v.dir)
    && (!Holds(v, p) ==> !HeldBy(s, p))
  }

  /** One more step, of the process itself or of another one. */
  lemma AsAloneThen(s: State, p: Process, v: View, t: Turn)
    requires Inv(s) && AsAlone(s, p, v) && (t.process == p ==> Holds(v, p))
    ensures AsAlone(Next(s, t.process, t.action), p, if t.process == p then Act(v, p, t.action) else v)
  {
    hide Next, Inv, PhaseOf;
    if t.process == p {
      assert ViewOf(s, p) == v;
      StepIsLocal(s, p, t.action);
    } else {
      OtherStepKeepsPhase(s, t.process, t.action, p);
      StepTouchesOwn(s, t.process, t.action);
    }
  }

  /** While a process holds the lock, whatever steps of others come between, only its own steps count. */
  lemma {:induction false} OnlyOwnStepsCount(turns: seq<Turn>, more: seq<Turn>, p: Process)
    requires HeldBy(Run(turns), p) && HoldsThroughout(ViewOf(Run(turns), p), p, Own(more, p))
    ensures AsAlone(Run(turns + more), p, Alone(ViewOf(Run(turns), p), p, Own(more, p)))
    decreases |more|
  {
    hide Next, Act, Inv, PhaseOf, Run, AsAlone, Alone;
    var v, own := ViewOf(Run(turns), p), Own(more, p);
    if more == [] {
      assert turns + more == turns;
      AloneStart(turns, p);
    } else {
      var init, last := more[..|more| - 1], more[|more| - 1];
      var before := Own(init, p);
      assert forall k :: 0 <= k <= |before| ==> own[..k] == before[..k];
      assert before[..|before|] == before;
      OnlyOwnStepsCount(turns, init, p);
      assert turns + more == turns + init + [Turn(last.process, last.action)];
      RunThen(turns + init, last.process, last.action);
      RunKeeps(turns + init);
      assert last.process == p ==> own[..|before|] == before && Holds(Alone(v, p, own[..|before|]), p);
      AsAloneThen(Run(turns + init), p, Alone(v, p, before), last);
      if last.process == p {
        AloneThen(v, p, own, |before|);
        assert own[..|before| + 1] == own;
      } else {
        assert own == before;
      }
    }
  }

  lemma AloneStart(turns: seq<Turn>, p: Process)
    requires HeldBy(Run(turns), p)
    ensures AsAlone(Run(turns), p, Alone(ViewOf(Run(turns), p), p, []))
  {
    hide Run;
  }

  lemma AloneThen(v: View, p: Process, steps: seq<Action>, k: nat)
    requires k < |steps|
    ensures Alone(v, p, steps[..k + 1]) == Act(Alone(v, p, steps[..k]), p, steps[k])
    ensures Alone(v, p, steps[..0]) == v && steps[..|steps|] == steps
  {
    hide Act;
    assert steps[..k + 1][..k] == steps[..k];
  }

  lemma ReleaseAlone(p: Process, reported: bool)
    ensures var v := View(Working, Some(Dir(p, Some(Token(p)))));
      var steps := [CallRelease, ReadOwner, Unlink, Rmdir(reported)];
      && HoldsThroughout(v, p, steps)
      && Alone(v, p, steps) == View(if reported then Released else Returned, None)
      && Alone(v, p, steps[..3]) == View(Unlinked, Some(Dir(p, None)))
  {
    hide Act, Alone, Holds;
    var v := View(Working, Some(Dir(p, Some(Token(p)))));
    var steps := [CallRelease, ReadOwner, Unlink, Rmdir(reported)];
    ReleaseActs(p, reported);
    AloneThen(v, p, steps, 0);
    AloneThen(v, p, steps, 1);
    AloneThen(v, p, steps, 2);
    AloneThen(v, p, steps, 3);
  }

  lemma ReleaseActs(p: Process, reported: bool)
    ensures var held, bare := Some(Dir(p, Some(Token(p)))), Some(Dir(p, None));
      && Act(View(Working, held), p, CallRelease) == View(Reading, held)
      && Act(View(Reading, held), p, ReadOwner) == View(Checked, held)
      && Act(View(Checked, held), p, Unlink) == View(Unlinked, bare)
      && Act(View(Unlinked, bare), p, Rmdir(reported)) == View(if reported then Released else Returned, None)
      && forall phase :: Holds(View(phase, held), p) && Holds(View(phase, bare), p)
  {
  }

  /**
   * A release frees the lock, whatever the others do between its steps: afterwards there is no directory, or one that
   * another process has made since, and the process is outside.
   */
  lemma ReleaseFrees(turns: seq<Turn>, more: seq<Turn>, p: Process, reported: bool)
    requires PhaseOf(Run(turns), p) == Working && Own(more, p) == [CallRelease, ReadOwner, Unlink, Rmdir(reported)]
    ensures var s := Run(turns + more);
      && PhaseOf(s, p) == (if reported then Released else Returned)
      && (s.dir.None? || s.dir.value.maker != p)
      && p !in s.inside
  {
    hide Run, Alone, Own, HoldsThroughout;
    WorkerHolds(turns, p);
    ReleaseAlone(p, reported);
    OnlyOwnStepsCount(turns, more, p);
    RunKeeps(turns + more);
    assert Consistent(Run(turns + more), p);
  }

  /** The last of those steps leaves no directory. */
  lemma ReleaseRemoves(turns: seq<Turn>, more: seq<Turn>, p: Process, reported: bool)
    requires PhaseOf(Run(turns), p) == Working && Own(more, p) == [CallRelease, ReadOwner, Unlink]
    ensures Run(turns + more + [Turn(p, Rmdir(reported))]).dir == None
  {
    hide Run, Alone, Own, Next, Act;
    WorkerHolds(turns, p);
    var v, steps := View(Working, Some(Dir(p, Some(Token(p))))), [CallRelease, ReadOwner, Unlink, Rmdir(reported)];
    ReleaseAlone(p, reported);
    assert steps[..3] == Own(more, p);
    assert forall k :: 0 <= k < 3 ==> Own(more, p)[..k] == steps[..k];
    OnlyOwnStepsCount(turns, more, p);
    RunThen(turns + more, p, Rmdir(reported));
    StepIsLocal(Run(turns + more), p, Rmdir(reported));
    ReleaseActs(p, reported);
  }

  /** So does the cleanup of an owner file that could not be written. */
  lemma CleanupFrees(turns: seq<Turn>, more: seq<Turn>, p: Process, retry: bool)
    requires PhaseOf(Run(turns), p) in {Made, Writing} && Own(more, p) == [WriteFails, CleanUnlink, CleanRmdir(retry)]
    ensures var s := Run(turns + more);
      && PhaseOf(s, p) == (if retry then Trying else Ended)
      && (s.dir.None? || s.dir.value.maker != p)
      && p !in s.inside
  {
    hide Run, Alone, Own, HoldsThroughout;
    RunKeeps(turns);
    assert Consistent(Run(turns), p);
    CleanAlone(ViewOf(Run(turns), p), p, retry);
    OnlyOwnStepsCount(turns, more, p);
    RunKeeps(turns + more);
    assert Consistent(Run(turns + more), p);
  }

  lemma CleanAlone(v: View, p: Process, retry: bool)
    requires Holds(v, p) && v.phase in {Made, Writing}
    ensures var steps := [WriteFails, CleanUnlink, CleanRmdir(retry)];
      HoldsThroughout(v, p, steps) && Alone(v, p, steps) == View(if retry then Trying else Ended, None)
  {
    hide Act, Alone, Holds;
    var steps := [WriteFails, CleanUnlink, CleanRmdir(retry)];
    CleanActs(v, p, retry);
    AloneThen(v, p, steps, 0);
    AloneThen(v, p, steps, 1);
    AloneThen(v, p, steps, 2);
  }

  lemma CleanActs(v: View, p: Process, retry: bool)
    requires Holds(v, p) && v.phase in {Made, Writing}
    ensures var bare := Some(Dir(p, None));
      && Act(v, p, WriteFails) == View(Cleaning, v.dir) && Holds(View(Cleaning, v.dir), p)
      && Act(View(Cleaning, v.dir), p, CleanUnlink) == View(CleaningDir, bare) && Holds(View(CleaningDir, bare), p)
      && Act(View(CleaningDir, bare), p, CleanRmdir(retry)) == View(if retry then Trying else Ended, None)
  {
  }

  /** A process that finds no directory takes the lock, and works with its token in it after its two other steps. */
  lemma FreeLockIsTaken(turns: seq<Turn>, more: seq<Turn>, p: Process)
    requires PhaseOf(Run(turns), p) == Trying && Run(turns).dir.None? && Own(more, p) == [OpenOwner, WriteOwner]
    ensures var s := Run(turns + [Turn(p, Mkdir)] + more);
      PhaseOf(s, p) == Working && p in s.inside && s.dir == Some(Dir(p, Some(Token(p))))
  {
    hide Run, Alone, Own, HoldsThroughout;
    var taken := turns + [Turn(p, Mkdir)];
    RunThen(turns, p, Mkdir);
    TakeAlone(p);
    OnlyOwnStepsCount(taken, more, p);
    WorkerHolds(taken + more, p);
  }

  lemma TakeAlone(p: Process)
    ensures var v := View(Made, Some(Dir(p, None)));
      && HoldsThroughout(v, p, [OpenOwner, WriteOwner])
      && Alone(v, p, [OpenOwner, WriteOwner]) == View(Working, Some(Dir(p, Some(Token(p)))))
  {
    hide Act, Alone, Holds;
    var v := View(Made, Some(Dir(p, None)));
    TakeActs(p);
    AloneThen(v, p, [OpenOwner, WriteOwner], 0);
    AloneThen(v, p, [OpenOwner, WriteOwner], 1);
  }

  lemma TakeActs(p: Process)
    ensures var none, partial, held := Some(Dir(p, None)), Some(Dir(p, Some(Partial))), Some(Dir(p, Some(Token(p))));
      && Act(View(Made, none), p, OpenOwner) == View(Writing, partial)
      && Act(View(Writing, partial), p, WriteOwner) == View(Working, held)
      && forall phase :: Holds(View(phase, none), p) && Holds(View(phase, partial), p)
  {
  }

  /** A release that is over has left its lock behind exactly when its last removal reported an error. */
  lemma LockStaysIff(turns: seq<Turn>, p: Process)
    requires PhaseOf(Run(turns), p) == Released
    ensures HeldBy(Run(turns), p) <==> p in Run(turns).failed
    ensures p in Run(turns).inside <==> p in Run(turns).failed
  {
    hide Run;
    RunKeeps(turns);
    assert Consistent(Run(turns), p);
  }

  /** After such an error a second call finds no owner file, takes the lock for released and leaves the directory. */
  lemma SecondCallLeavesLock(turns: seq<Turn>, more: seq<Turn>, p: Process)
    requires PhaseOf(Run(turns), p) == Working
    requires Own(more, p) == [CallRelease, ReadOwner, Unlink, RemoveFails(false), CallRelease, ReadOwner]
    ensures PhaseOf(Run(turns + more), p) == Released && Run(turns + more).dir == Some(Dir(p, None))
  {
    hide Run, Alone, Own, HoldsThroughout;
    WorkerHolds(turns, p);
    StayAlone(p);
    OnlyOwnStepsCount(turns, more, p);
  }

  /** There is such a schedule for every process. */
  lemma LockCanStay(p: Process) returns (turns: seq<Turn>)
    ensures PhaseOf(Run(turns), p) == Released && Run(turns).dir == Some(Dir(p, None))
  {
    hide Next;
    var take := [Turn(p, OpenOwner), Turn(p, WriteOwner)];
    var stay := [Turn(p, CallRelease), Turn(p, ReadOwner), Turn(p, Unlink), Turn(p, RemoveFails(false)),
                 Turn(p, CallRelease), Turn(p, ReadOwner)];
    OwnOnly(p, take, [OpenOwner, WriteOwner]);
    OwnOnly(p, stay, [CallRelease, ReadOwner, Unlink, RemoveFails(false), CallRelease, ReadOwner]);
    FreeLockIsTaken([], take, p);
    turns := [] + [Turn(p, Mkdir)] + take;
    SecondCallLeavesLock(turns, stay, p);
    turns := turns + stay;
  }

  lemma {:induction false} OwnOnly(p: Process, turns: seq<Turn>, steps: seq<Action>)
    requires |turns| == |steps| && forall i :: 0 <= i < |turns| ==> turns[i] == Turn(p, steps[i])
    ensures Own(turns, p) == steps
  {
    if turns != [] {
      OwnOnly(p, turns[..|turns| - 1], steps[..|steps| - 1]);
    }
  }

  lemma StayAlone(p: Process)
    ensures var v := View(Working, Some(Dir(p, Some(Token(p)))));
      var steps := [CallRelease, ReadOwner, Unlink, RemoveFails(false), CallRelease, ReadOwner];
      HoldsThroughout(v, p, steps) && Alone(v, p, steps) == View(Released, Some(Dir(p, None)))
  {
    hide Act, Alone, Holds;
    var v := View(Working, Some(Dir(p, Some(Token(p)))));
    var steps := [CallRelease, ReadOwner, Unlink, RemoveFails(false), CallRelease, ReadOwner];
    ReleaseActs(p, true);
    StayActs(p);
    AloneThen(v, p, steps, 0);
    AloneThen(v, p, steps, 1);
    AloneThen(v, p, steps, 2);
    AloneThen(v, p, steps, 3);
    AloneThen(v, p, steps, 4);
    AloneThen(v, p, steps, 5);
  }

  lemma StayActs(p: Process)
    ensures var bare := Some(Dir(p, None));
      && Act(View(Unlinked, bare), p, RemoveFails(false)) == View(Returned, bare)
      && Act(View(Returned, bare), p, CallRelease) == View(Reading, bare)
      && Act(View(Reading, bare), p, ReadOwner) == View(Released, bare)
  {
  }

  /** A release whose lock is gone never touches what it finds, and is over exactly when it finds no owner file. */
  lemma LateReleaseOnlyLooks(turns: seq<Turn>, p: Process)
    requires PhaseOf(Run(turns), p) == Reading && !HeldBy(Run(turns), p)
    ensures var s, t := Run(turns), Run(turns + [Turn(p, ReadOwner)]);
      && t.dir == s.dir
      && (PhaseOf(t, p) == Released <==> s.dir.None? || s.dir.value.owner.None?)
      && (PhaseOf(t, p) == Returned <==> s.dir.Some? && s.dir.value.owner.Some?)
  {
    hide Run;
    RunKeeps(turns);
    RunThen(turns, p, ReadOwner);
  }

  // ---- A lock that nobody will release.

  lemma EndedDoesNothing(s: State, p: Process, a: Action)
    requires PhaseOf(s, p) == Ended
    ensures PhaseOf(Next(s, p, a), p) == Ended && Next(s, p, a).dir == s.dir
  {
  }

  lemma {:induction false} EndedKeepsLock(turns: seq<Turn>, more: seq<Turn>, p: Process)
    requires PhaseOf(Run(turns), p) == Ended && HeldBy(Run(turns), p)
    ensures PhaseOf(Run(turns + more), p) == Ended && Run(turns + more).dir == Run(turns).dir
    decreases |more|
  {
    hide Next, Run, Inv, PhaseOf;
    if more == [] {
      assert turns + more == turns;
    } else {
      var init, last := more[..|more| - 1], more[|more| - 1];
      EndedKeepsLock(turns, init, p);
      assert turns + more == turns + init + [Turn(last.process, last.action)];
      RunThen(turns + init, last.process, last.action);
      RunKeeps(turns + init);
      if last.process == p {
        EndedDoesNothing(Run(turns + init), p, last.action);
      } else {
        OtherStepKeepsPhase(Run(turns + init), last.process, last.action, p);
        StepTouchesOwn(Run(turns + init), last.process, last.action);
      }
    }
  }

  /** A process that stops while it holds the lock leaves it for good: no later step of any process ever gets inside. */
  lemma StoppedHolderBlocks(turns: seq<Turn>, more: seq<Turn>, p: Process, q: Process)
    requires HeldBy(Run(turns), p)
    ensures var s := Run(turns + [Turn(p, Stop)] + more); s.dir == Run(turns).dir && (q in s.inside <==> q == p)
  {
    hide Run, Inv;
    var stopped := turns + [Turn(p, Stop)];
    RunThen(turns, p, Stop);
    StopEnds(Run(turns), p);
    EndedKeepsLock(stopped, more, p);
    RunKeeps(stopped + more);
    InsideIsHolder(Run(stopped + more), p, q);
  }

  lemma StopEnds(s: State, p: Process)
    ensures PhaseOf(Next(s, p, Stop), p) == Ended && Next(s, p, Stop).dir == s.dir
  {
  }

  lemma InsideIsHolder(s: State, p: Process, q: Process)
    requires Inv(s) && HeldBy(s, p)
    ensures q in s.inside <==> q == p
  {
    assert Consistent(s, p) && Consistent(s, q);
  }
}
