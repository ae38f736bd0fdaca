// The covers of a telescope, moved by one stepper motor timer. The main thread
// calls Open, Close and Halt; between any two of its statements the timer's
// interrupt service routine may run. So the model is a state machine over the
// statements of both.

module Covers {
  import opened Ints
  import opened Wrappers

  datatype MotorStatus =
    | NotMoving | Opening | Closing | StartOpeningFailed | StartClosingFailed | OpeningFailed | ClosingFailed

  // What the direction pin says, and what a call asks for.
  datatype Way = ToOpen | ToClose

  function Towards(way: Way): MotorStatus { if way == ToOpen then Opening else Closing }

  // A cover. The pulses are those since its step count was last cleared.
  datatype Cover = Cover(
    allowedSteps: uint32, allowedStartSteps: uint32,
    status: MotorStatus, steps: uint32, direction: Way, pulses: nat)
  {
    predicate IsMoving() { status.Opening? || status.Closing? }
  }

  // The statement that the main thread is about to execute, for which cover.
  datatype Place =
    | Idle
    | CheckCanMove(i: nat, way: Way)
    | CheckLimit(i: nat, way: Way)
    | CopyHandler(i: nat, way: Way)
    | CheckStatus(i: nat, way: Way)
    | SetStatus(i: nat, way: Way)
    | StopTimer(i: nat, way: Way)
    | ClearSteps(i: nat, way: Way)
    | SetDirection(i: nat, way: Way)
    | InstallHandler(i: nat, way: Way)
    | StartTimer(i: nat, way: Way)
    | FinishMoving(i: nat, way: Way)
    | ReadOpening(i: nat)
    | ReadClosing(i: nat)
    | ClearStatus(i: nat)
    | RemoveHandler(i: nat)

  // The handler is the cover whose handler is installed; the timer is on when
  // its interrupt is enabled; and returned is what the last call returned.
  datatype World = World(
    covers: seq<Cover>, handler: Option<nat>, timerOn: bool, place: Place, returned: bool)

  // The main thread makes a call, or executes its next statement (in which a pin
  // or a limit switch may show something); or the interrupt routine runs.
  datatype Action =
    | Open(i: nat) | Close(i: nat) | Halt(i: nat)
    | Statement(shown: bool)
    | Interrupt(limitClosed: bool, startClosed: bool)

  function Increment(n: uint32): uint32 { (n + 1) % 0x1_0000_0000 }

  // HandleInterrupt of the cover c: the cover after it, and whether its handler stays.
  function HandleInterrupt(c: Cover, limitClosed: bool, startClosed: bool): (Cover, bool) {
    if !c.IsMoving() then (c, false)
    else
      var closing := c.status.Closing?;
      var c := c.(steps := Increment(c.steps), pulses := c.pulses + 1);
      if limitClosed then (c.(status := NotMoving), false)
      else if c.steps == c.allowedStartSteps && startClosed then
        (c.(status := if closing then StartClosingFailed else StartOpeningFailed), false)
      else if c.steps > c.allowedSteps then
        (c.(status := if closing then ClosingFailed else OpeningFailed), false)
      else (c, true)
  }

  // The routine that the timer runs. With no handler it turns the timer off.
  function RunInterrupt(w: World, limitClosed: bool, startClosed: bool): World {
    match w.handler
    case None => w.(timerOn := false)
    case Some(i) =>
      if i >= |w.covers| then w
      else
        var (c, stays) := HandleInterrupt(w.covers[i], limitClosed, startClosed);
        w.(covers := w.covers[i := c], handler := if stays then w.handler else None)
  }

  function Return(w: World, result: bool): World { w.(place := Idle, returned := result) }

  // The next statement of the main thread.
  function RunStatement(w: World, shown: bool): World
    requires !w.place.Idle? && w.place.i < |w.covers|
  {
    var i := w.place.i;
    var c := w.covers[i];
    match w.place
    case CheckCanMove(_, way) =>
      if shown && (w.handler.None? || w.handler.value == i) then w.(place := CheckLimit(i, way)) else Return(w, false)
    case CheckLimit(_, way) => if shown then Return(w, false) else w.(place := CopyHandler(i, way))
    case CopyHandler(_, way) =>
      w.(place := if w.handler == Some(i) then CheckStatus(i, way) else SetStatus(i, way))
    case CheckStatus(_, way) => if c.status == Towards(way) then Return(w, true) else w.(place := SetStatus(i, way))
    case SetStatus(_, way) =>
      w.(covers := w.covers[i := c.(status := Towards(way))], place := StopTimer(i, way))
    case StopTimer(_, way) => w.(timerOn := false, place := ClearSteps(i, way))
    case ClearSteps(_, way) => w.(covers := w.covers[i := c.(steps := 0, pulses := 0)], place := SetDirection(i, way))
    case SetDirection(_, way) => w.(covers := w.covers[i := c.(direction := way)], place := InstallHandler(i, way))
    case InstallHandler(_, way) => w.(handler := Some(i), place := StartTimer(i, way))
    case StartTimer(_, way) => w.(timerOn := true, place := FinishMoving(i, way))
    case FinishMoving(_, _) => Return(w, true)
    case ReadOpening(_) => w.(place := if c.status.Opening? then ClearStatus(i) else ReadClosing(i))
    case ReadClosing(_) => w.(place := if c.status.Closing? then ClearStatus(i) else RemoveHandler(i))
    case ClearStatus(_) => w.(covers := w.covers[i := c.(status := NotMoving)], place := RemoveHandler(i))
    case RemoveHandler(_) => Return(w.(handler := if w.handler == Some(i) then None else w.handler), true)
  }

  // Calls are made one at a time, and the interrupt routine runs only while the timer is on.
  predicate Possible(w: World, a: Action) {
    match a
    case Open(i) => w.place.Idle? && i < |w.covers|
    case Close(i) => w.place.Idle? && i < |w.covers|
    case Halt(i) => w.place.Idle? && i < |w.covers|
    case Statement(_) => !w.place.Idle? && w.place.i < |w.covers|
    case Interrupt(_, _) => w.timerOn
  }

  function Next(w: World, a: Action): World
    requires Possible(w, a)
  {
    match a
    case Open(i) => w.(place := CheckCanMove(i, ToOpen))
    case Close(i) => w.(place := CheckCanMove(i, ToClose))
    case Halt(i) => w.(place := ReadOpening(i))
    case Statement(shown) => RunStatement(w, shown)
    case Interrupt(limitClosed, startClosed) => RunInterrupt(w, limitClosed, startClosed)
  }

  // ------------------------------------------------------------------ Safety

  // A call that is to start a movement has seen that no other cover is moving.
  predicate Starting(p: Place) {
    p.CheckLimit? || p.CopyHandler? || p.CheckStatus? || p.SetStatus? || p.StopTimer? || p.ClearSteps?
    || p.SetDirection? || p.InstallHandler? || p.StartTimer? || p.FinishMoving?
  }

  // The timer is off; so these statements are not interrupted.
  predicate TimerIsOff(p: Place) { p.ClearSteps? || p.SetDirection? || p.InstallHandler? || p.StartTimer? }

  // The cover's status has been set but its handler is not installed yet.
  predicate NotInstalled(p: Place) { p.StopTimer? || p.ClearSteps? || p.SetDirection? || p.InstallHandler? }

  predicate CountsPulses(c: Cover) {
    c.allowedSteps < MAX_UINT32 && c.pulses == c.steps <= c.allowedSteps + 1
  }

  ghost predicate InRange(w: World) {
    && (w.handler.Some? ==> w.handler.value < |w.covers|)
    && (!w.place.Idle? ==> w.place.i < |w.covers|)
  }

  // The cover that is installed, and that a call is to move, is the only one
  // that is moving or about to be; and it may still take a step.
  ghost predicate OnlyOneMoves(w: World)
    requires InRange(w)
  {
    && (w.handler.Some? ==> w.covers[w.handler.value].steps <= w.covers[w.handler.value].allowedSteps)
    && (forall i :: 0 <= i < |w.covers| && w.covers[i].IsMoving() ==>
          w.handler == Some(i) || (NotInstalled(w.place) && w.place.i == i))
    && (Starting(w.place) ==> w.handler.None? || w.handler.value == w.place.i)
  }

  // The installed cover gets interrupts; and the statements that prepare its
  // movement are not interrupted.
  ghost predicate TimerIsRight(w: World) {
    && (TimerIsOff(w.place) ==> !w.timerOn)
    && (w.handler.Some? && !TimerIsOff(w.place) ==> w.timerOn)
  }

  // A cover moves as its status says, except while it is being turned round.
  ghost predicate DirectionIsRight(w: World)
    requires InRange(w)
  {
    forall i :: 0 <= i < |w.covers| && w.covers[i].IsMoving() ==>
      w.covers[i].status == Towards(w.covers[i].direction) || (NotInstalled(w.place) && w.place.i == i)
  }

  // What the statements of a call have done so far.
  ghost predicate CallIsRight(w: World)
    requires InRange(w)
  {
    match w.place
    case ReadClosing(i) => !w.covers[i].status.Opening?
    case RemoveHandler(i) => !w.covers[i].IsMoving()
    case StopTimer(i, way) => w.covers[i].IsMoving() ==> w.covers[i].status == Towards(way)
    case ClearSteps(i, way) => w.covers[i].IsMoving() ==> w.covers[i].status == Towards(way)
    case SetDirection(i, way) =>
      w.covers[i].steps == 0 && (w.covers[i].IsMoving() ==> w.covers[i].status == Towards(way))
    case InstallHandler(i, way) =>
      w.covers[i].steps == 0 && w.covers[i].direction == way
      && (w.covers[i].IsMoving() ==> w.covers[i].status == Towards(way))
    case StartTimer(i, way) =>
      w.covers[i].steps == 0 && w.covers[i].direction == way && w.handler == Some(i)
      && (w.covers[i].IsMoving() ==> w.covers[i].status == Towards(way))
    case _ => true
  }

  ghost predicate AllCount(w: World) {
    forall i :: 0 <= i < |w.covers| ==> CountsPulses(w.covers[i])
  }

  // What every statement and interrupt keeps.
  ghost predicate Safe(w: World) {
    InRange(w) && AllCount(w) && OnlyOneMoves(w) && TimerIsRight(w) && DirectionIsRight(w) && CallIsRight(w)
  }

  // Nothing moves at first, and every cover is allowed fewer than 2^32 - 1 steps.
  ghost predicate Initial(w: World) {
    && w.handler.None? && w.place.Idle?
    && forall i :: 0 <= i < |w.covers| ==>
         w.covers[i].status.NotMoving? && w.covers[i].steps == 0 && w.covers[i].pulses == 0
         && w.covers[i].allowedSteps < MAX_UINT32
  }

  lemma InitialIsSafe(w: World)
    requires Initial(w)
    ensures Safe(w)
  {
  }

  lemma HandleInterruptKeeps(c: Cover, limitClosed: bool, startClosed: bool)
    requires CountsPulses(c) && c.steps <= c.allowedSteps
    ensures var (c', stays) := HandleInterrupt(c, limitClosed, startClosed);
      && CountsPulses(c') && c'.allowedSteps == c.allowedSteps && c'.direction == c.direction
      && (stays ==> c'.steps <= c'.allowedSteps && c'.status == c.status && c'.IsMoving())
      && (!stays ==> !c'.IsMoving())
  {
  }

  lemma {:induction false} InterruptKeepsSafe(w: World, limitClosed: bool, startClosed: bool)
    requires Safe(w) && w.timerOn
    ensures Safe(RunInterrupt(w, limitClosed, startClosed))
  {
    hide HandleInterrupt;
    if w.handler.Some? {
      HandleInterruptKeeps(w.covers[w.handler.value], limitClosed, startClosed);
    }
  }

  // The statements that change a cover.
  lemma {:induction false} ChangeKeepsSafe(w: World, shown: bool)
    requires Safe(w) && Possible(w, Statement(shown))
    requires w.place.SetStatus? || w.place.ClearSteps? || w.place.SetDirection? || w.place.ClearStatus?
    ensures Safe(RunStatement(w, shown))
  {
  }

  // Those that change what is installed, or the timer.
  lemma {:induction false} InstallKeepsSafe(w: World, shown: bool)
    requires Safe(w) && Possible(w, Statement(shown))
    requires w.place.StopTimer? || w.place.InstallHandler? || w.place.StartTimer? || w.place.RemoveHandler?
    ensures Safe(RunStatement(w, shown))
  {
  }

  // Those that only look.
  lemma {:induction false} LookKeepsSafe(w: World, shown: bool)
    requires Safe(w) && Possible(w, Statement(shown))
    requires w.place.CheckCanMove? || w.place.CheckLimit? || w.place.CopyHandler? || w.place.CheckStatus?
             || w.place.FinishMoving?
    ensures Safe(RunStatement(w, shown))
  {
  }

  lemma {:induction false} ReadKeepsSafe(w: World, shown: bool)
    requires Safe(w) && Possible(w, Statement(shown)) && (w.place.ReadOpening? || w.place.ReadClosing?)
    ensures Safe(RunStatement(w, shown))
  {
  }

  lemma {:induction false} NextKeepsSafe(w: World, a: Action)
    requires Safe(w) && Possible(w, a)
    ensures Safe(Next(w, a))
  {
    match a
    case Interrupt(limitClosed, startClosed) => InterruptKeepsSafe(w, limitClosed, startClosed);
    case Statement(shown) =>
      hide Safe, RunStatement;
      match w.place {
        case SetStatus(_, _) | ClearSteps(_, _) | SetDirection(_, _) | ClearStatus(_) => ChangeKeepsSafe(w, shown);
        case StopTimer(_, _) | InstallHandler(_, _) | StartTimer(_, _) | RemoveHandler(_) => InstallKeepsSafe(w, shown);
        case ReadOpening(_) | ReadClosing(_) => ReadKeepsSafe(w, shown);
        case _ => LookKeepsSafe(w, shown);
      }
    case _ =>
  }

  // ------------------------------------------------------------------- Runs

  ghost predicate PossibleRun(w: World, actions: seq<Action>)
    decreases |actions|
  {
    actions == [] || (Possible(w, actions[0]) && PossibleRun(Next(w, actions[0]), actions[1..]))
  }

  function Run(w: World, actions: seq<Action>): World
    requires PossibleRun(w, actions)
    decreases |actions|
  {
    if actions == [] then w else Run(Next(w, actions[0]), actions[1..])
  }

  lemma {:induction false} RunKeepsSafe(w: World, actions: seq<Action>)
    requires Safe(w) && PossibleRun(w, actions)
    ensures Safe(Run(w, actions))
    decreases |actions|
  {
    hide Safe, Next;
    if actions != [] {
      NextKeepsSafe(w, actions[0]);
      RunKeepsSafe(Next(w, actions[0]), actions[1..]);
    }
  }

  // In every interleaving, from the start: no cover takes more than one step
  // beyond those allowed since it last started; at most one moves when no call is
  // under way, and it is the one that gets the interrupts, in the direction that
  // its status says; a call that is to move a cover finds no other one installed;
  // and the writes of several bytes that prepare a movement are not interrupted,
  // though the code does not disable interrupts around them.
  lemma {:induction false} CoversAreSafe(w: World, actions: seq<Action>)
    requires Initial(w) && PossibleRun(w, actions)
    ensures var v := Run(w, actions);
      && |v.covers| == |w.covers|
      && (forall i :: 0 <= i < |v.covers| ==> v.covers[i].pulses <= v.covers[i].allowedSteps + 1)
      && (v.place.CopyHandler? ==> v.handler.None? || v.handler == Some(v.place.i))
      && (TimerIsOff(v.place) ==> forall limitClosed, startClosed :: !Possible(v, Interrupt(limitClosed, startClosed)))
      && (v.place.Idle? ==>
            && (forall i :: 0 <= i < |v.covers| && v.covers[i].IsMoving() ==>
                  v.handler == Some(i) && v.timerOn && v.covers[i].status == Towards(v.covers[i].direction))
            && (forall i, j ::
                  0 <= i < |v.covers| && 0 <= j < |v.covers| && v.covers[i].IsMoving() && v.covers[j].IsMoving()
                  ==> i == j))
  {
    InitialIsSafe(w);
    RunKeepsSafe(w, actions);
    RunKeepsCovers(w, actions);
  }

  // The same covers, in number and in the steps that they are allowed.
  ghost predicate SameCovers(w: World, v: World) {
    |v.covers| == |w.covers| && forall i :: 0 <= i < |w.covers| ==>
      v.covers[i].allowedSteps == w.covers[i].allowedSteps
      && v.covers[i].allowedStartSteps == w.covers[i].allowedStartSteps
  }

  lemma {:induction false} RunKeepsCovers(w: World, actions: seq<Action>)
    requires PossibleRun(w, actions)
    ensures SameCovers(w, Run(w, actions))
    decreases |actions|
  {
    if actions != [] {
      NextKeepsCovers(w, actions[0]);
      hide Next, Possible;
      RunKeepsCovers(Next(w, actions[0]), actions[1..]);
    }
  }

  lemma NextKeepsCovers(w: World, a: Action)
    requires Possible(w, a)
    ensures SameCovers(w, Next(w, a))
  {
    hide HandleInterrupt;
    if a.Interrupt? && w.handler.Some? && w.handler.value < |w.covers| {
      InterruptKeepsAllowed(w.covers[w.handler.value], a.limitClosed, a.startClosed);
    }
  }

  lemma InterruptKeepsAllowed(c: Cover, limitClosed: bool, startClosed: bool)
    ensures var c' := HandleInterrupt(c, limitClosed, startClosed).0;
      c'.allowedSteps == c.allowedSteps && c'.allowedStartSteps == c.allowedStartSteps
  {
  }

  // Left to itself, a moving cover stops within the interrupts that it has left.
  lemma {:induction false} StopsInTime(w: World, i: nat, actions: seq<Action>) returns (k: nat)
    requires Safe(w) && w.place.Idle? && i < |w.covers| && w.covers[i].IsMoving()
    requires forall j :: 0 <= j < |actions| ==> actions[j].Interrupt?
    requires PossibleRun(w, actions) && |actions| == w.covers[i].allowedSteps + 1 - w.covers[i].steps
    ensures 0 < k <= |actions| && PossibleRun(w, actions[..k])
    ensures |Run(w, actions[..k]).covers| == |w.covers| && !Run(w, actions[..k]).covers[i].IsMoving()
    decreases |actions|
  {
    var a := actions[0];
    NextKeepsSafe(w, a);
    NextKeepsCovers(w, a);
    assert actions[..1][1..] == [] && actions[..1][0] == a;
    var v := Next(w, a);
    if !v.covers[i].IsMoving() {
      assert Run(v, []) == v;
      return 1;
    }
    InterruptTakesStep(w, i, a);
    var j := StopsInTime(v, i, actions[1..]);
    assert actions[..j + 1][1..] == actions[1..][..j];
    return j + 1;
  }

  lemma {:induction false} InterruptTakesStep(w: World, i: nat, a: Action)
    requires Safe(w) && w.place.Idle? && i < |w.covers| && w.covers[i].IsMoving()
    requires a.Interrupt? && Possible(w, a) && Next(w, a).covers[i].IsMoving()
    ensures var v := Next(w, a);
      && v.place.Idle? && |v.covers| == |w.covers|
      && v.covers[i].allowedSteps == w.covers[i].allowedSteps
      && v.covers[i].steps == w.covers[i].steps + 1 <= v.covers[i].allowedSteps
  {
    HandleInterruptKeeps(w.covers[i], a.limitClosed, a.startClosed);
  }

  // That a cover is allowed fewer than 2^32 - 1 steps matters: the 32-bit count
  // never exceeds 2^32 - 1, so such a cover is stopped by its switches alone.
  lemma TooManyStepsAllowed(c: Cover, startClosed: bool)
    requires c.IsMoving() && (Increment(c.steps) == c.allowedStartSteps ==> !startClosed)
    ensures var (c', stays) := HandleInterrupt(c, false, startClosed);
      (c.allowedSteps == MAX_UINT32 ==> stays) && (stays <==> Increment(c.steps) <= c.allowedSteps)
  {
  }

  // ------------------------------------------------------------ Turning round

  // The interrupt ends the movement of the cover.
  predicate Stops(c: Cover, limitClosed: bool, startClosed: bool) {
    limitClosed || (Increment(c.steps) == c.allowedStartSteps && startClosed) || Increment(c.steps) > c.allowedSteps
  }

  lemma StopsExactly(c: Cover, limitClosed: bool, startClosed: bool)
    ensures var (c', stays) := HandleInterrupt(c, limitClosed, startClosed);
      && (stays <==> c.IsMoving() && !Stops(c, limitClosed, startClosed))
      && (c'.IsMoving() <==> stays) && (!c.IsMoving() ==> c' == c)
  {
  }

  // No further call is made.
  ghost predicate WithinCall(actions: seq<Action>) {
    forall k :: 0 <= k < |actions| ==> actions[k].Statement? || actions[k].Interrupt?
  }

  // An interrupt comes after the status of a cover has been set and before the
  // timer is stopped, while the cover is still installed, and ends the movement:
  // it judges the steps of the old movement by the switches of the new one.
  ghost predicate CutShortBy(w: World, a: Action) {
    w.place.StopTimer? && w.place.i < |w.covers| && w.handler == Some(w.place.i) && a.Interrupt?
    && Stops(w.covers[w.place.i], a.limitClosed, a.startClosed)
  }

  ghost predicate CutShort(w: World, actions: seq<Action>)
    requires PossibleRun(w, actions)
    decreases |actions|
  {
    actions != [] && (CutShortBy(w, actions[0]) || CutShort(Next(w, actions[0]), actions[1..]))
  }

  // A call for cover i has not come to starting the timer.
  predicate ToStart(p: Place, i: nat, way: Way) {
    p == CheckCanMove(i, way) || p == CheckLimit(i, way) || p == CopyHandler(i, way) || p == CheckStatus(i, way)
    || p == SetStatus(i, way) || p == StopTimer(i, way) || p == ClearSteps(i, way) || p == SetDirection(i, way)
    || p == InstallHandler(i, way) || p == StartTimer(i, way)
  }

  predicate StatusIsSet(p: Place) {
    p.StopTimer? || p.ClearSteps? || p.SetDirection? || p.InstallHandler? || p.StartTimer?
  }

  // Once a call has returned, or another is under way, this one does not start the timer.
  lemma {:induction false} DoesNotStart(w: World, actions: seq<Action>)
    requires PossibleRun(w, actions) && WithinCall(actions) && (w.place.Idle? || w.place.FinishMoving?)
    ensures Run(w, actions).place.Idle? || Run(w, actions).place.FinishMoving?
    decreases |actions|
  {
    hide HandleInterrupt;
    if actions != [] {
      DoesNotStart(Next(w, actions[0]), actions[1..]);
    }
  }

  // What one action does to a call that has not come to starting the timer.
  lemma {:induction false} OneActionToStart(w: World, i: nat, way: Way, a: Action)
    requires Safe(w) && ToStart(w.place, i, way) && !w.place.StartTimer? && Possible(w, a)
    requires a.Statement? || a.Interrupt?
    ensures var v := Next(w, a);
      && |v.covers| == |w.covers|
      && (ToStart(v.place, i, way) || v.place.Idle?) && (StatusIsSet(w.place) ==> StatusIsSet(v.place))
      && (ToStart(v.place, i, way) && StatusIsSet(v.place) ==>
            (v.covers[i].IsMoving() <==> (StatusIsSet(w.place) ==> w.covers[i].IsMoving()) && !CutShortBy(w, a)))
      && (!StatusIsSet(v.place) ==> !CutShortBy(w, a))
  {
    hide HandleInterrupt, Stops;
    NextKeepsCovers(w, a);
    if a.Interrupt? && w.handler.Some? {
      StopsExactly(w.covers[w.handler.value], a.limitClosed, a.startClosed);
    }
  }

  // In every interleaving that brings a call to starting the timer, the cover
  // that it starts moves, from a step count of 0 and in the direction asked for,
  // exactly if the call was not cut short.
  lemma {:induction false} StartsUnlessCutShort(w: World, i: nat, way: Way, actions: seq<Action>)
    requires Safe(w) && ToStart(w.place, i, way) && PossibleRun(w, actions) && WithinCall(actions)
    requires Run(w, actions).place == StartTimer(i, way)
    ensures var v := Run(w, actions); |v.covers| == |w.covers| && i < |v.covers|
    ensures var c := Run(w, actions).covers[i];
      && c.steps == 0 && c.direction == way && (c.status == Towards(way) <==> c.IsMoving())
      && (c.IsMoving() <==> (StatusIsSet(w.place) ==> w.covers[i].IsMoving()) && !CutShort(w, actions))
    decreases |actions|
  {
    hide Next, Safe, CutShortBy;
    SafeAtStart(w, i, way);
    if w.place.StartTimer? {
      AtStartNothingHappens(w, i, way, actions);
    } else {
      var a, v := actions[0], Next(w, actions[0]);
      OneActionToStart(w, i, way, a);
      NextKeepsSafe(w, a);
      if v.place.Idle? {
        DoesNotStart(v, actions[1..]);
      } else {
        StartsUnlessCutShort(v, i, way, actions[1..]);
      }
    }
  }

  lemma SafeAtStart(w: World, i: nat, way: Way)
    requires Safe(w) && ToStart(w.place, i, way)
    ensures i < |w.covers|
    ensures var c := w.covers[i]; w.place.StartTimer? ==>
      c.steps == 0 && c.direction == way && (c.status == Towards(way) <==> c.IsMoving())
  {
  }

  lemma {:induction false} AtStartNothingHappens(w: World, i: nat, way: Way, actions: seq<Action>)
    requires Safe(w) && w.place == StartTimer(i, way) && PossibleRun(w, actions) && WithinCall(actions)
    requires Run(w, actions).place == StartTimer(i, way)
    ensures actions == []
  {
    if actions != [] {
      DoesNotStart(Next(w, actions[0]), actions[1..]);
    }
  }

  // A call that returns true has come to starting the timer, or has found the
  // cover to move as asked.
  lemma {:induction false} ReturnsTrue(w: World, i: nat, way: Way, actions: seq<Action>) returns (k: nat)
    requires Safe(w) && ToStart(w.place, i, way) && PossibleRun(w, actions) && WithinCall(actions)
    requires Run(w, actions).place.Idle? && Run(w, actions).returned
    ensures k <= |actions| && PossibleRun(w, actions[..k]) && i < |Run(w, actions[..k]).covers|
    ensures var v := Run(w, actions[..k]);
      v.place == StartTimer(i, way) || (v.place == CheckStatus(i, way) && v.covers[i].status == Towards(way))
    decreases |actions|
  {
    hide Safe, HandleInterrupt;
    SafeAtStart(w, i, way);
    if w.place.StartTimer? {
      return 0;
    }
    var a, v := actions[0], Next(w, actions[0]);
    OneActionToStart(w, i, way, a);
    NextKeepsSafe(w, a);
    if v.place.Idle? {
      IdleStays(v, actions[1..]);
      return 0;
    }
    k := ReturnsTrue(v, i, way, actions[1..]);
    assert actions[..k + 1][0] == a && actions[..k + 1][1..] == actions[1..][..k];
    return k + 1;
  }

  lemma {:induction false} IdleStays(w: World, actions: seq<Action>)
    requires PossibleRun(w, actions) && WithinCall(actions) && w.place.Idle?
    ensures Run(w, actions).place.Idle? && Run(w, actions).returned == w.returned
    decreases |actions|
  {
    hide HandleInterrupt;
    if actions != [] {
      IdleStays(Next(w, actions[0]), actions[1..]);
    }
  }

  // A call that was cut short returns true all the same, and the cover takes no
  // step until the next call.
  lemma {:induction false} CutShortStaysStopped(w: World, i: nat, way: Way, actions: seq<Action>)
    requires Safe(w) && PossibleRun(w, actions) && WithinCall(actions)
    requires w.place == StartTimer(i, way) || w.place == FinishMoving(i, way) || (w.place.Idle? && w.returned)
    requires i < |w.covers| && !w.covers[i].IsMoving() && (w.handler.None? || w.handler == Some(i))
    ensures var v := Run(w, actions);
      |v.covers| == |w.covers| && v.covers[i] == w.covers[i] && (v.place.Idle? ==> v.returned)
    decreases |actions|
  {
    hide Safe;
    if actions != [] {
      NextKeepsSafe(w, actions[0]);
      CutShortStaysStopped(Next(w, actions[0]), i, way, actions[1..]);
    }
  }

  // The call is for a cover that is installed and does not already move as asked.
  predicate TurnsRound(w: World, i: nat, way: Way) {
    i < |w.covers| && w.handler == Some(i) && w.covers[i].status != Towards(way)
  }

  // It is so before an action only if it is so after it.
  lemma {:induction false} TurnedRoundBefore(w: World, i: nat, way: Way, a: Action)
    requires Safe(w) && ToStart(w.place, i, way) && Possible(w, a) && (a.Statement? || a.Interrupt?)
    ensures var v := Next(w, a);
      && (w.place.StartTimer? ==> v.place.FinishMoving?)
      && (ToStart(v.place, i, way) && v.handler == Some(i) && !TimerIsOff(v.place) ==>
            && w.handler == Some(i) && !TimerIsOff(w.place)
            && (BeforeStatusIsSet(w.place) && (BeforeStatusIsSet(v.place) ==> TurnsRound(v, i, way)) ==>
                  TurnsRound(w, i, way)))
  {
    hide Stops, HandleInterrupt;
    if a.Interrupt? && w.handler.Some? {
      HandleInterruptKeeps(w.covers[w.handler.value], a.limitClosed, a.startClosed);
    }
  }

  // Only such a call can be cut short,
  lemma {:induction false} OnlyTurningRoundIsCutShort(w: World, i: nat, way: Way, actions: seq<Action>)
    requires Safe(w) && ToStart(w.place, i, way) && PossibleRun(w, actions) && WithinCall(actions)
    requires CutShort(w, actions)
    ensures w.handler == Some(i) && !TimerIsOff(w.place)
    ensures BeforeStatusIsSet(w.place) ==> TurnsRound(w, i, way)
    decreases |actions|
  {
    hide Safe, Stops, Next;
    if !CutShortBy(w, actions[0]) {
      NextKeepsSafe(w, actions[0]);
      TurnedRoundBefore(w, i, way, actions[0]);
      var v := Next(w, actions[0]);
      if v.place.Idle? || v.place.FinishMoving? {
        NotCutShort(v, actions[1..]);
      } else {
        OneActionToStart(w, i, way, actions[0]);
        OnlyTurningRoundIsCutShort(v, i, way, actions[1..]);
      }
    }
  }

  predicate BeforeStatusIsSet(p: Place) { p.CheckCanMove? || p.CheckLimit? || p.CopyHandler? || p.CheckStatus? }

  lemma {:induction false} NotCutShort(w: World, actions: seq<Action>)
    requires PossibleRun(w, actions) && WithinCall(actions) && (w.place.Idle? || w.place.FinishMoving?)
    ensures !CutShort(w, actions)
    decreases |actions|
  {
    hide HandleInterrupt;
    if actions != [] {
      NotCutShort(Next(w, actions[0]), actions[1..]);
    }
  }

  function StepsLeft(p: Place): nat {
    match p
    case CheckCanMove(_, _) => 9
    case CheckLimit(_, _) => 8
    case CopyHandler(_, _) => 7
    case CheckStatus(_, _) => 6
    case SetStatus(_, _) => 5
    case StopTimer(_, _) => 4
    case ClearSteps(_, _) => 3
    case SetDirection(_, _) => 2
    case InstallHandler(_, _) => 1
    case _ => 0
  }

  lemma {:induction false} Prepend(w: World, a: Action, actions: seq<Action>)
    requires Possible(w, a) && PossibleRun(Next(w, a), actions)
    ensures PossibleRun(w, [a] + actions) && Run(w, [a] + actions) == Run(Next(w, a), actions)
    ensures CutShort(w, [a] + actions) <==> CutShortBy(w, a) || CutShort(Next(w, a), actions)
  {
    assert ([a] + actions)[1..] == actions;
  }

  // The next statement of a call that may move a cover, if every switch allows it.
  lemma {:induction false} NextToStart(w: World, i: nat, way: Way) returns (a: Action)
    requires Safe(w) && ToStart(w.place, i, way) && (w.handler.None? || w.handler == Some(i))
    requires BeforeStatusIsSet(w.place) ==> i < |w.covers| && w.covers[i].status != Towards(way)
    requires !w.place.StartTimer?
    ensures a.Statement? && Possible(w, a)
    ensures var v := Next(w, a);
      && ToStart(v.place, i, way) && (v.handler.None? || v.handler == Some(i))
      && (BeforeStatusIsSet(v.place) ==> i < |v.covers| && v.covers[i].status != Towards(way))
      && StepsLeft(v.place) < StepsLeft(w.place)
  {
    hide Safe;
    SafeAtStart(w, i, way);
    a := Statement(w.place.CheckCanMove?);
  }

  // Such a call can come to starting the timer,
  lemma {:induction false} CanStart(w: World, i: nat, way: Way) returns (actions: seq<Action>)
    requires Safe(w) && ToStart(w.place, i, way) && (w.handler.None? || w.handler == Some(i))
    requires BeforeStatusIsSet(w.place) ==> i < |w.covers| && w.covers[i].status != Towards(way)
    ensures PossibleRun(w, actions) && WithinCall(actions) && Run(w, actions).place == StartTimer(i, way)
    decreases StepsLeft(w.place)
  {
    hide Safe, CutShort, Next, Possible;
    if w.place.StartTimer? {
      actions := [];
    } else {
      var a := NextToStart(w, i, way);
      NextKeepsSafe(w, a);
      actions := CanStart(Next(w, a), i, way);
      Prepend(w, a, actions);
      actions := [a] + actions;
    }
  }

  // and every such call can be, by any interrupt that would stop the cover.
  lemma {:induction false} CanBeCutShort(w: World, i: nat, way: Way, a: Action) returns (actions: seq<Action>)
    requires Safe(w) && ToStart(w.place, i, way) && StepsLeft(w.place) >= 4 && w.handler == Some(i)
    requires BeforeStatusIsSet(w.place) ==> TurnsRound(w, i, way)
    requires a.Interrupt? && i < |w.covers| && Stops(w.covers[i], a.limitClosed, a.startClosed)
    ensures PossibleRun(w, actions) && WithinCall(actions) && Run(w, actions).place == StartTimer(i, way)
    ensures CutShort(w, actions)
    decreases StepsLeft(w.place)
  {
    hide Safe, CutShort, HandleInterrupt;
    var next := if w.place.StopTimer? then a else Statement(w.place.CheckCanMove?);
    assert Possible(w, next) by { TimerRunsWhileInstalled(w, i, way); }
    NextKeepsSafe(w, next);
    if w.place.StopTimer? {
      OneActionToStart(w, i, way, a);
      OneInstalled(w, a);
      actions := CanStart(Next(w, a), i, way);
    } else {
      actions := CanBeCutShort(Next(w, next), i, way, a);
    }
    Prepend(w, next, actions);
    actions := [next] + actions;
  }

  lemma TimerRunsWhileInstalled(w: World, i: nat, way: Way)
    requires Safe(w) && w.handler == Some(i)
    ensures !TimerIsOff(w.place) ==> w.timerOn
    ensures !w.place.Idle? ==> w.place.i < |w.covers|
  {
  }

  lemma OneInstalled(w: World, a: Action)
    requires a.Interrupt? && Possible(w, a)
    ensures Next(w, a).handler.None? || Next(w, a).handler == w.handler
    ensures Next(w, a).place == w.place
  {
    hide HandleInterrupt;
  }

  // So a call that comes to starting the timer can be cut short exactly if it
  // turns the cover round.
  lemma {:induction false} TurningRoundCanFail(w: World, i: nat, way: Way)
    requires Safe(w) && w.place == CheckCanMove(i, way)
    ensures TurnsRound(w, i, way) <==>
      exists actions ::
        PossibleRun(w, actions) && WithinCall(actions) && Run(w, actions).place == StartTimer(i, way)
        && CutShort(w, actions)
  {
    hide Safe, CutShort;
    if TurnsRound(w, i, way) {
      var actions := CanBeCutShort(w, i, way, Interrupt(true, false));
    }
    forall actions | PossibleRun(w, actions) && WithinCall(actions) && Run(w, actions).place == StartTimer(i, way)
                     && CutShort(w, actions)
      ensures TurnsRound(w, i, way)
    {
      OnlyTurningRoundIsCutShort(w, i, way, actions);
    }
  }

  // From starting the timer the call goes on to return true.
  lemma Returns(w: World, i: nat, way: Way)
    requires Safe(w) && w.place == StartTimer(i, way)
    ensures var end := [Statement(false), Statement(false)];
      && PossibleRun(w, end)
      && Run(w, end) == w.(timerOn := true, place := Idle, returned := true)
  {
    var v := Next(w, Statement(false));
    var u := Next(v, Statement(false));
    assert [Statement(false), Statement(false)][1..] == [Statement(false)];
    assert [Statement(false)][1..] == [];
    assert PossibleRun(u, []) && Run(u, []) == u;
    assert PossibleRun(v, [Statement(false)]) && Run(v, [Statement(false)]) == u;
  }

  lemma {:induction false} RunBoth(w: World, a: seq<Action>, b: seq<Action>)
    requires PossibleRun(w, a) && PossibleRun(Run(w, a), b)
    ensures PossibleRun(w, a + b) && Run(w, a + b) == Run(Run(w, a), b)
    decreases |a|
  {
    hide Next, Possible;
    if a == [] {
      assert a + b == b;
    } else {
      assert (a + b)[1..] == a[1..] + b;
      RunBoth(Next(w, a[0]), a[1..], b);
    }
  }

  // A call that starts to move a cover that is at rest.
  lemma {:induction false} MovesOff(w: World, i: nat, way: Way) returns (call: seq<Action>)
    requires Safe(w) && w.place == CheckCanMove(i, way) && i < |w.covers| && w.handler.None?
    requires !w.covers[i].IsMoving()
    ensures PossibleRun(w, call) && WithinCall(call) && SameCovers(w, Run(w, call))
    ensures var v := Run(w, call);
      Safe(v) && v.place.Idle? && v.returned && v.handler == Some(i)
      && v.covers[i].status == Towards(way) && v.covers[i].steps == 0
  {
    hide Safe, CutShort, Next, Possible, WithinCall;
    var actions := CanStart(w, i, way);
    if CutShort(w, actions) {
      OnlyTurningRoundIsCutShort(w, i, way, actions);
    }
    StartsUnlessCutShort(w, i, way, actions);
    call := CallReturns(w, i, way, actions);
  }

  // A call that turns a cover round and returns true, with the cover not moving.
  lemma {:induction false} TurnsAndStops(w: World, i: nat, way: Way, a: Action) returns (call: seq<Action>)
    requires Safe(w) && w.place == CheckCanMove(i, way) && TurnsRound(w, i, way)
    requires a.Interrupt? && Stops(w.covers[i], a.limitClosed, a.startClosed)
    ensures PossibleRun(w, call) && WithinCall(call) && SameCovers(w, Run(w, call))
    ensures var v := Run(w, call); v.place.Idle? && v.returned && !v.covers[i].IsMoving()
  {
    hide Safe, CutShort, Next, Possible, Stops, WithinCall;
    var actions := CanBeCutShort(w, i, way, a);
    StartsUnlessCutShort(w, i, way, actions);
    call := CallReturns(w, i, way, actions);
  }

  lemma {:induction false} CallReturns(w: World, i: nat, way: Way, actions: seq<Action>) returns (call: seq<Action>)
    requires Safe(w) && PossibleRun(w, actions) && WithinCall(actions) && Run(w, actions).place == StartTimer(i, way)
    ensures PossibleRun(w, call) && WithinCall(call) && SameCovers(w, Run(w, call)) && Safe(Run(w, call))
    ensures var v := Run(w, actions);
      v.handler == Some(i) && Run(w, call) == v.(timerOn := true, place := Idle, returned := true)
  {
    hide Safe, Next, Possible;
    var v, end := Run(w, actions), [Statement(false), Statement(false)];
    RunKeepsSafe(w, actions);
    InstalledAtStart(v, i, way);
    Returns(v, i, way);
    RunBoth(w, actions, end);
    call := actions + end;
    RunKeepsSafe(w, call);
    RunKeepsCovers(w, call);
  }

  lemma InstalledAtStart(w: World, i: nat, way: Way)
    requires Safe(w) && w.place == StartTimer(i, way)
    ensures w.handler == Some(i)
  {
  }

  // From the very start: open a cover, and then close it. If an interrupt that
  // comes with no step taken would stop the cover then both calls can return true
  // and leave the cover not moving.
  lemma {:induction false} FailsFromTheStart(w: World, i: nat, a: Action)
      returns (opening: seq<Action>, closing: seq<Action>)
    requires Initial(w) && w.covers != [] && i < |w.covers|
    requires a.Interrupt? && Stops(w.covers[i].(steps := 0), a.limitClosed, a.startClosed)
    ensures PossibleRun(w, [Open(i)] + opening) && WithinCall(opening)
    ensures var u := Run(w, [Open(i)] + opening);
      && u.place.Idle? && u.returned && |u.covers| == |w.covers| && u.covers[i].status == Opening
      && PossibleRun(u, [Close(i)] + closing) && WithinCall(closing)
      && var v := Run(u, [Close(i)] + closing);
      && v.place.Idle? && v.returned && |v.covers| == |w.covers| && !v.covers[i].IsMoving()
  {
    hide Safe, CutShort, Stops, WithinCall;
    InitialIsSafe(w);
    NextKeepsSafe(w, Open(i));
    opening := MovesOff(Next(w, Open(i)), i, ToOpen);
    Prepend(w, Open(i), opening);
    var u := Run(w, [Open(i)] + opening);
    NextKeepsSafe(u, Close(i));
    assert Stops(u.covers[i], a.limitClosed, a.startClosed) by { StopsAlike(w.covers[i].(steps := 0), u.covers[i], a); }
    closing := TurnsAndStops(Next(u, Close(i)), i, ToClose, a);
    Prepend(u, Close(i), closing);
  }

  lemma StopsAlike(c: Cover, d: Cover, a: Action)
    requires c.steps == d.steps && c.allowedSteps == d.allowedSteps && c.allowedStartSteps == d.allowedStartSteps
    requires a.Interrupt?
    ensures Stops(c, a.limitClosed, a.startClosed) == Stops(d, a.limitClosed, a.startClosed)
  {
  }
}
