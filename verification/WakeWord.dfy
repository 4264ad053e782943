/**
 wake_word.cpp: start, stop, suspend and resume against the detection thread. Every section under the lock is one
 step, and so is every call between two sections; callers and threads interleave in any order.
 */
module WakeWord {
  /** WAKE_WORD_WARMUP_INFERENCES. */
  const WARMUP: nat := 10

  datatype State =
    | Stopped
    | Starting
    | Detecting
    | Stopping

  datatype Operation =
    | Start
    | Resume
    | Stop
    | Suspend

  /** Where a caller stands inside an operation. */
  datatype Caller =
    | Idle
      // start and resume
    | OpeningAudio
    | Creating(resuming: bool)
    | UndoingAudio
    | Failing(resuming: bool)
    | Publishing(resuming: bool)
      // stop and suspend
    | ClosingAudio
    | Joining(suspending: bool)
    | Finishing(suspending: bool)

  /** How an operation that was not refused ended. */
  datatype Event =
    | Started
    | StartFailed
    | Resumed
    | ResumeFailed
    | Halted
    | Suspended

  /** Where a detection thread stands in its loop. */
  datatype Spot =
    | Top
    | Asking
    | Working
    | Scoring
    | Reporting
    | Exited

  datatype Thread = Thread(at: Spot, joined: bool)

  /** What the feature generator and the model made of one round. */
  datatype Round =
    | NoScore
    | Scored
    | InferenceError
    | ShutdownSeen

  /**
   The shared context, the threads created so far and the callers. `scored` counts the inferences completed since the
   last start or resume, `audio` tells whether audio input runs, and `past` lists the operations that ended.
   */
  datatype System = System(
    state: State,
    active: bool,
    handle: nat,
    warmup: nat,
    scored: nat,
    audio: bool,
    past: seq<Event>,
    threads: seq<Thread>,
    callers: seq<Caller>)

  /** After initialisation: nothing runs. */
  function Initial(callers: nat): System {
    System(Stopped, false, 0, 0, 0, false, [], [], seq(callers, _ => Idle))
  }

  datatype Action =
    | Call(caller: nat, op: Operation)
    | Proceed(caller: nat, ok: bool)
    | Turn(thread: nat, round: Round)

  predicate Enabled(s: System, a: Action) {
    match a
    case Call(i, _) => i < |s.callers| && s.callers[i] == Idle
    case Proceed(i, _) =>
      && i < |s.callers| && s.callers[i] != Idle
      && (s.callers[i].Joining? && s.handle < |s.threads| ==> s.threads[s.handle].at == Exited)
    case Turn(t, _) => t < |s.threads| && s.threads[t].at != Exited
  }

  function At(s: System, i: nat, pc: Caller): System
    requires i < |s.callers|
  {
    s.(callers := s.callers[i := pc])
  }

  /** The section under the lock that opens an operation; a refused operation changes nothing. */
  function Begin(s: System, i: nat, op: Operation): System
    requires i < |s.callers|
  {
    match op
    case Start | Resume =>
      if s.state != Stopped then s
      else
        At(s.(state := Starting, active := true, warmup := WARMUP, scored := 0),
           i, if op == Start then OpeningAudio else Creating(true))
    case Stop | Suspend =>
      if s.state != Detecting then s
      else At(s.(state := Stopping, active := false), i, if op == Stop then ClosingAudio else Joining(true))
  }

  function Ends(s: System, e: Event): System {
    s.(past := s.past + [e])
  }

  /**
   A later step of an operation; `ok` is the outcome of the call it makes. Audio input that already runs is opened
   without fail; only a failed start closes it again.
   */
  function Continue(s: System, i: nat, ok: bool): System
    requires i < |s.callers|
  {
    match s.callers[i]
    case Idle => s
    case OpeningAudio => if ok || s.audio then At(s.(audio := true), i, Creating(false)) else At(s, i, Failing(false))
    case Creating(resuming) =>
      if !ok then At(s, i, if resuming then Failing(true) else UndoingAudio)
      else At(s.(threads := s.threads + [Thread(Top, false)], handle := |s.threads|), i, Publishing(resuming))
    case UndoingAudio => At(s.(audio := false), i, Failing(false))
    case Failing(resuming) =>
      At(Ends(s.(state := Stopped, active := false), if resuming then ResumeFailed else StartFailed), i, Idle)
    case Publishing(resuming) => At(Ends(s.(state := Detecting), if resuming then Resumed else Started), i, Idle)
    case ClosingAudio => At(s.(audio := false), i, Joining(false))
    case Joining(suspending) =>
      if s.handle < |s.threads| then
        At(s.(threads := s.threads[s.handle := s.threads[s.handle].(joined := true)]), i, Finishing(suspending))
      else At(s, i, Finishing(suspending))
    case Finishing(suspending) => At(Ends(s.(state := Stopped), if suspending then Suspended else Halted), i, Idle)
  }

  function Move(s: System, t: nat, p: Spot): System
    requires t < |s.threads|
  {
    s.(threads := s.threads[t := s.threads[t].(at := p)])
  }

  /** One step of a detection thread. */
  function Advance(s: System, t: nat, round: Round): System
    requires t < |s.threads|
  {
    match s.threads[t].at
    case Top => Move(s, t, if round == ShutdownSeen then Exited else Asking)
    case Asking => Move(s, t, if s.active then Working else Exited)
    case Working =>
      Move(s, t, match round
                 case Scored => Scoring
                 case InferenceError => Exited
                 case _ => Top)
    case Scoring =>
      if s.warmup > 0 then Move(s.(warmup := s.warmup - 1, scored := s.scored + 1), t, Top)
      else Move(s.(scored := s.scored + 1), t, Reporting)
    case Reporting => Move(s, t, Top)
    case Exited => s
  }

  function Step(s: System, a: Action): System {
    if !Enabled(s, a) then s
    else
      match a
      case Call(i, op) => Begin(s, i, op)
      case Proceed(i, ok) => Continue(s, i, ok)
      case Turn(t, round) => Advance(s, t, round)
  }

  function Run(s: System, actions: seq<Action>): System
    decreases |actions|
  {
    if actions == [] then s else Run(Step(s, actions[0]), actions[1..])
  }

  // ---- what every reachable state satisfies ----

  predicate Alive(s: System, t: nat) {
    t < |s.threads| && s.threads[t].at != Exited
  }

  predicate Busy(s: System, i: nat) {
    i < |s.callers| && s.callers[i] != Idle
  }

  /** The operation in progress and the shared state agree. */
  predicate Matches(pc: Caller, state: State) {
    match pc
    case Idle => state == Stopped || state == Detecting
    case OpeningAudio | Creating(_) | UndoingAudio | Failing(_) | Publishing(_) => state == Starting
    case ClosingAudio | Joining(_) | Finishing(_) => state == Stopping
  }

  /** Whether a caller at this point holds a thread that nobody has joined. */
  predicate HoldsThread(pc: Caller) {
    pc.Publishing? || pc == ClosingAudio || pc.Joining?
  }

  predicate Unjoined(s: System) {
    s.handle < |s.threads| && !s.threads[s.handle].joined
  }

  /** The one caller inside an operation; an index outside the callers stands for nobody. */
  function Place(s: System, owner: int): Caller {
    if 0 <= owner < |s.callers| then s.callers[owner] else Idle
  }

  predicate OneOperation(s: System, owner: int) {
    && (forall i | 0 <= i < |s.callers| :: i != owner ==> s.callers[i] == Idle)
    && Matches(Place(s, owner), s.state)
  }

  predicate ThreadsInOrder(s: System, owner: int) {
    var held := s.state == Detecting || HoldsThread(Place(s, owner));
    && (forall t | 0 <= t < |s.threads| :: s.threads[t].joined ==> s.threads[t].at == Exited)
    && (forall t | 0 <= t < |s.threads| :: !s.threads[t].joined ==> t == s.handle && held)
    && (held ==> Unjoined(s))
  }

  predicate WarmsUp(s: System) {
    && (s.state != Stopped ==> s.warmup + (if s.scored < WARMUP then s.scored else WARMUP) == WARMUP)
    && (forall t | 0 <= t < |s.threads| :: s.threads[t].at == Reporting ==> s.scored > WARMUP)
  }

  /** Audio input ends with a stop and with a failed start. */
  predicate Silences(e: Event) {
    e == Halted || e == StartFailed
  }

  /** Some start has succeeded, and nothing has silenced the input since. */
  predicate Sounding(past: seq<Event>) {
    exists i | 0 <= i < |past| :: past[i] == Started && forall j | i < j < |past| :: !Silences(past[j])
  }

  /** Whether audio runs follows from the past, except where a start or a stop has already changed it. */
  predicate AudioFollows(s: System, owner: int) {
    match Place(s, owner)
    case Creating(false) | UndoingAudio | Publishing(false) => s.audio
    case Failing(false) | Joining(false) | Finishing(false) => !s.audio
    case _ => s.audio <==> Sounding(s.past)
  }

  predicate Inv(s: System, owner: int) {
    && OneOperation(s, owner)
    && ThreadsInOrder(s, owner)
    && WarmsUp(s)
    && AudioFollows(s, owner)
    && (s.active <==> s.state == Starting || s.state == Detecting)
  }

  /** Who is inside an operation after a step: a caller enters by beginning one, from a resting state only. */
  function NextOwner(s: System, owner: int, a: Action): int {
    if a.Call? && Place(s, owner) == Idle then a.caller else owner
  }

  lemma BeginKeepsInv(s: System, owner: int, i: nat, op: Operation)
    requires Inv(s, owner) && i < |s.callers| && s.callers[i] == Idle
    ensures Inv(Begin(s, i, op), NextOwner(s, owner, Call(i, op)))
  {
  }

  lemma SoundingNext(past: seq<Event>, e: Event)
    ensures Sounding(past + [e]) <==> e == Started || (Sounding(past) && !Silences(e))
  {
    var next := past + [e];
    if e == Started {
      assert next[|past|] == Started;
    } else if Sounding(next) {
      var i :| 0 <= i < |next| && next[i] == Started && forall j | i < j < |next| :: !Silences(next[j]);
      assert past[i] == Started && !Silences(next[|past|]);
      assert forall j | i < j < |past| :: past[j] == next[j];
    }
    if Sounding(past) && !Silences(e) {
      var i :| 0 <= i < |past| && past[i] == Started && forall j | i < j < |past| :: !Silences(past[j]);
      assert next[i] == Started;
    }
  }

  lemma ContinueKeepsInv(s: System, owner: int, i: nat, ok: bool)
    requires Inv(s, owner) && Enabled(s, Proceed(i, ok))
    ensures Inv(Continue(s, i, ok), owner)
  {
    hide Sounding;
    ContinueKeepsAudio(s, owner, i, ok);
    hide AudioFollows;
  }

  lemma ContinueKeepsAudio(s: System, owner: int, i: nat, ok: bool)
    requires Inv(s, owner) && Enabled(s, Proceed(i, ok))
    ensures AudioFollows(Continue(s, i, ok), owner)
  {
    hide Sounding, ThreadsInOrder, WarmsUp;
    forall e { SoundingNext(s.past, e); }
  }

  lemma AdvanceKeepsInv(s: System, owner: int, t: nat, round: Round)
    requires Inv(s, owner) && Enabled(s, Turn(t, round))
    ensures Inv(Advance(s, t, round), owner)
  {
    AdvanceKeepsCallers(s, owner, t, round);
    AdvanceKeepsThreads(s, owner, t, round);
    hide AudioFollows, OneOperation, ThreadsInOrder, Sounding;
    OnlyHeldRuns(s, owner, t);
  }

  /** A thread that runs is the held one, and no session has ended. */
  lemma OnlyHeldRuns(s: System, owner: int, t: nat)
    requires OneOperation(s, owner) && ThreadsInOrder(s, owner) && Alive(s, t)
    ensures s.state != Stopped
  {
  }

  lemma AdvanceKeepsThreads(s: System, owner: int, t: nat, round: Round)
    requires ThreadsInOrder(s, owner) && Alive(s, t)
    ensures ThreadsInOrder(Advance(s, t, round), owner)
  {
  }

  lemma AdvanceKeepsCallers(s: System, owner: int, t: nat, round: Round)
    requires OneOperation(s, owner) && AudioFollows(s, owner) && t < |s.threads|
    ensures OneOperation(Advance(s, t, round), owner) && AudioFollows(Advance(s, t, round), owner)
  {
    hide Sounding;
  }

  lemma StepKeepsInv(s: System, owner: int, a: Action)
    requires Inv(s, owner)
    ensures Inv(Step(s, a), if Enabled(s, a) then NextOwner(s, owner, a) else owner)
  {
    hide Inv, Begin, Continue, Advance;
    if Enabled(s, a) {
      match a
      case Call(i, op) => BeginKeepsInv(s, owner, i, op);
      case Proceed(i, ok) => ContinueKeepsInv(s, owner, i, ok);
      case Turn(t, round) => AdvanceKeepsInv(s, owner, t, round);
    }
  }

  lemma {:induction false} RunKeepsInv(s: System, owner: int, actions: seq<Action>) returns (last: int)
    requires Inv(s, owner)
    ensures Inv(Run(s, actions), last)
    decreases |actions|
  {
    hide Inv, Step, Enabled;
    last := owner;
    if actions != [] {
      var a := actions[0];
      StepKeepsInv(s, owner, a);
      last := RunKeepsInv(Step(s, a), if Enabled(s, a) then NextOwner(s, owner, a) else owner, actions[1..]);
    }
  }

  /** Every state a run can reach keeps the invariant. */
  lemma Reachable(callers: nat, actions: seq<Action>) returns (owner: int)
    ensures Inv(Run(Initial(callers), actions), owner)
  {
    owner := RunKeepsInv(Initial(callers), -1, actions);
  }

  // ---- over every interleaving of any number of callers ----

  /**
   At most one detection thread is alive; none is while the state says stopped; detection is active exactly while
   starting or detecting; and a join always waits for a thread that exists and was not joined before.
   */
  lemma AtMostOneThread(callers: nat, actions: seq<Action>)
    ensures var s := Run(Initial(callers), actions);
            && (forall t, u :: Alive(s, t) && Alive(s, u) ==> t == u == s.handle)
            && (s.state == Stopped ==> forall t :: !Alive(s, t))
            && (s.active <==> s.state == Starting || s.state == Detecting)
            && (forall i | 0 <= i < |s.callers| :: s.callers[i].Joining? ==> Unjoined(s))
  {
    var owner := Reachable(callers, actions);
  }

  /** Once everything has stopped, every thread ever created has been joined. */
  lemma NoThreadIsLost(callers: nat, actions: seq<Action>)
    ensures var s := Run(Initial(callers), actions);
            s.state == Stopped ==> forall t | 0 <= t < |s.threads| :: s.threads[t].joined
  {
    var owner := Reachable(callers, actions);
  }

  /** A detection is reported only after the first `WARMUP` scores of its own session have been discarded. */
  lemma ReportsOnlyAfterWarmup(callers: nat, actions: seq<Action>, t: nat)
    requires var s := Run(Initial(callers), actions);
             t < |s.threads| && s.threads[t].at == Reporting
    ensures Run(Initial(callers), actions).scored > 10
  {
    var owner := Reachable(callers, actions);
  }

  /** How many more steps a thread can take once detection is no longer active. */
  function StepsLeft(p: Spot): nat {
    match p
    case Exited => 0
    case Asking => 1
    case Top => 2
    case Reporting => 3
    case Scoring => 4
    case Working => 5
  }

  /** A join cannot wait forever: while a caller joins, every step of the thread brings its end closer. */
  lemma JoinEnds(callers: nat, actions: seq<Action>, i: nat, round: Round)
    requires var s := Run(Initial(callers), actions);
             i < |s.callers| && s.callers[i].Joining?
    ensures var s := Run(Initial(callers), actions);
            && s.handle < |s.threads|
            && (Alive(s, s.handle) ==>
                  var n := Step(s, Turn(s.handle, round));
                  StepsLeft(n.threads[s.handle].at) < StepsLeft(s.threads[s.handle].at) && n.callers[i].Joining?)
            && (!Alive(s, s.handle) ==> Step(s, Proceed(i, true)).callers[i].Finishing?)
  {
    var owner := Reachable(callers, actions);
  }

  /** No run wedges: between two resting states some caller can go on, or waits for a thread that is still running. */
  lemma NeverWedged(callers: nat, actions: seq<Action>) returns (i: nat)
    ensures var s := Run(Initial(callers), actions);
            s.state == Starting || s.state == Stopping ==>
              && Busy(s, i)
              && (Enabled(s, Proceed(i, true)) || (s.callers[i].Joining? && Alive(s, s.handle)))
  {
    var owner := Reachable(callers, actions);
    i := if owner < 0 then 0 else owner;
  }

  /**
   Between operations audio input runs exactly if some start has succeeded with neither a stop nor a failed start after
   it. So detection runs without audio exactly after a past in which nothing but resumes followed the last silencing.
   */
  lemma SilentExactly(callers: nat, actions: seq<Action>)
    ensures var s := Run(Initial(callers), actions);
            s.state == Stopped || s.state == Detecting ==> (s.audio <==> Sounding(s.past))
  {
    var owner := Reachable(callers, actions);
  }

  /** Such pasts occur: resuming takes a stopped system to detection, and leaves its audio input as it is. */
  lemma ResumeKeepsSilence(callers: nat, actions: seq<Action>)
    requires callers > 0 && Run(Initial(callers), actions).state == Stopped
    ensures var s := Run(Initial(callers), actions);
            var t := Run(s, [Call(0, Resume), Proceed(0, true), Proceed(0, true)]);
            t.state == Detecting && t.audio == s.audio && t.past == s.past + [Resumed]
  {
    hide Inv;
    var s := Run(Initial(callers), actions);
    AllIdle(callers, actions);
    var resume := [Call(0, Resume), Proceed(0, true), Proceed(0, true)];
    assert resume[1..] == [Proceed(0, true), Proceed(0, true)] && resume[1..][1..] == [Proceed(0, true)];
    var a := Step(s, resume[0]);
    var b := Step(a, Proceed(0, true));
    var c := Step(b, Proceed(0, true));
    assert a.callers[0] == Creating(true) && b.callers[0] == Publishing(true);
    assert Run(c, resume[1..][1..][1..]) == c;
    assert Run(b, resume[1..][1..]) == c;
  }

  lemma {:induction false} CallersStay(s: System, actions: seq<Action>)
    ensures |Run(s, actions).callers| == |s.callers|
    decreases |actions|
  {
    if actions != [] {
      CallersStay(Step(s, actions[0]), actions[1..]);
    }
  }

  lemma AllIdle(callers: nat, actions: seq<Action>)
    requires Run(Initial(callers), actions).state == Stopped
    ensures var s := Run(Initial(callers), actions);
            |s.callers| == callers && forall i | 0 <= i < callers :: s.callers[i] == Idle
  {
    var owner := Reachable(callers, actions);
    CallersStay(Initial(callers), actions);
  }

  // ---- what happens when things go well ----

  /** A round that ends in a score is reported, once the warm-up is over. */
  lemma ScoreIsReported(s: System, t: nat)
    requires Alive(s, t) && s.threads[t].at == Top && s.active && s.warmup == 0
    ensures var score := Turn(t, Scored);
            var n := Run(s, [score, score, score, score]);
            t < |n.threads| && n.threads[t].at == Reporting
  {
    var score := Turn(t, Scored);
    var a := Step(s, score);
    var b := Step(a, score);
    var c := Step(b, score);
    assert a.threads[t].at == Asking && b.threads[t].at == Working && c.threads[t].at == Scoring;
    RunOfFour(s, score);
  }

  /** A score during the warm-up is discarded and counted. */
  lemma ScoreIsDiscarded(s: System, t: nat)
    requires Alive(s, t) && s.threads[t].at == Top && s.active && s.warmup > 0
    ensures var score := Turn(t, Scored);
            var n := Run(s, [score, score, score, score]);
            t < |n.threads| && n.threads[t].at == Top && n.warmup == s.warmup - 1 && n.scored == s.scored + 1
  {
    var score := Turn(t, Scored);
    var a := Step(s, score);
    var b := Step(a, score);
    var c := Step(b, score);
    assert a.threads[t].at == Asking && b.threads[t].at == Working && c.threads[t].at == Scoring;
    RunOfFour(s, score);
  }

  lemma RunOfFour(s: System, a: Action)
    ensures Run(s, [a, a, a, a]) == Step(Step(Step(Step(s, a), a), a), a)
  {
    hide Step;
    assert [a, a, a, a][1..] == [a, a, a] && [a, a, a][1..] == [a, a] && [a, a][1..] == [a] && [a][1..] == [];
    var s1 := Step(s, a);
    var s2 := Step(s1, a);
    var s3 := Step(s2, a);
    assert Run(s3, [a]) == Step(s3, a) && Run(s2, [a, a]) == Step(s3, a) && Run(s1, [a, a, a]) == Step(s3, a);
  }

  /** Starting a stopped system, with calls that work, ends in detection: audio, a fresh thread and a full warm-up. */
  lemma StartDetects(callers: nat, actions: seq<Action>)
    requires callers > 0 && Run(Initial(callers), actions).state == Stopped
    ensures var s := Run(Initial(callers), actions);
            var go := Proceed(0, true);
            var t := Run(s, [Call(0, Start), go, go, go]);
            && t.state == Detecting && t.audio && t.active && t.warmup == 10 && t.past == s.past + [Started]
            && t.handle < |t.threads| && t.threads[t.handle] == Thread(Top, false)
  {
    hide Inv;
    var s := Run(Initial(callers), actions);
    AllIdle(callers, actions);
    var go := Proceed(0, true);
    var a := Step(s, Call(0, Start));
    var b := Step(a, go);
    var c := Step(b, go);
    var d := Step(c, go);
    assert a.callers[0] == OpeningAudio && b.callers[0] == Creating(false) && c.callers[0] == Publishing(false);
    var start := [Call(0, Start), go, go, go];
    assert start[1..] == [go, go, go] && [go, go, go][1..] == [go, go] && [go, go][1..] == [go] && [go][1..] == [];
    assert Run(c, [go]) == d && Run(b, [go, go]) == d && Run(a, [go, go, go]) == d;
  }
}
