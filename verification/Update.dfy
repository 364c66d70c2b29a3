/** The update manager: an event-driven state machine with wrapping tick timers, a one-shot recovery
    probe and a persistent reason. */
module Update {
  import opened Bits

  datatype UpdState = IdleState | WaitState | RecvState | DoneState | ErrorState | ReadyState

  const REASON_NONE: U32 := 0
  const REASON_REQ: U32 := 1
  const REASON_IN_PROGRESS: U32 := 2
  const REASON_DONE: U32 := 3

  /** The manager context, and the persistent reason behind its callbacks. */
  datatype Mgr = Mgr(state: UpdState, waitStart: U32, downloadLast: U32, waitMs: U32, idleMs: U32,
                     readyFlag: bool, probeUsed: bool, reason: U32)

  /** A callback into the boot loader, with its answer. */
  datatype Callback =
    | IsAppValid(answer: bool)
    | TryRecover(answer: bool)
    | SetReason(value: U32)
    | EnterDownload
    | LeaveDownload
    | OnError
    | OnReadyToApp

  /** An event with the tick counter readings and callback answers it gets. */
  datatype Event =
    | Register(waitMs: U32, idleMs: U32, appValid: bool, now: U32)
    | OnRequest(now: U32)
    | OnStart(now: U32)
    | OnData(now: U32)
    | OnFinish(ok: bool, now: U32)
    | OnAbort(now: U32)
    | PollBegin(now: U32)
    | PollRound(now: U32, later: U32, appValid: bool, recovers: bool)
    | NotifyResult(success: bool, now: U32)
    | SetByShell(value: U32)

  // One event, as a function

  function WithState(m: Mgr, s: UpdState, now: U32): Mgr {
    m.(state := s,
       waitStart := if s == WaitState then now else m.waitStart,
       downloadLast := if s == RecvState then now else m.downloadLast)
  }

  function MadeReady(m: Mgr): Mgr { m.(readyFlag := true, state := ReadyState) }

  /** Elapsed ticks in 32-bit arithmetic have reached a window; a window of zero never ends. */
  predicate Expired(now: U32, since: U32, window: U32) {
    window > 0 && Wrap32(now - since) >= window
  }

  datatype Effect = Effect(m: Mgr, calls: seq<Callback>)

  /** What a timeout does: back to a valid app, else one recovery probe, else `stay`. */
  function TimedOut(m: Mgr, stay: Mgr, appValid: bool, recovers: bool): Effect {
    var back := MadeReady(m.(reason := REASON_NONE));
    if appValid then Effect(back, [IsAppValid(true), SetReason(REASON_NONE), OnReadyToApp])
    else if m.probeUsed then Effect(stay, [IsAppValid(false)])
    else if recovers then
      Effect(back.(probeUsed := true), [IsAppValid(false), TryRecover(true), SetReason(REASON_NONE), OnReadyToApp])
    else Effect(stay.(probeUsed := true), [IsAppValid(false), TryRecover(false)])
  }

  function Step(m: Mgr, e: Event): Effect {
    match e
    case Register(waitMs, idleMs, appValid, now) =>
      var m' := m.(readyFlag := false, probeUsed := false, waitMs := waitMs, idleMs := idleMs);
      if m.reason == REASON_NONE || m.reason == REASON_DONE then
        if appValid then Effect(MadeReady(m'), [IsAppValid(true), OnReadyToApp])
        else Effect(WithState(m', WaitState, now), [IsAppValid(false)])
      else if m.reason == REASON_REQ then Effect(WithState(m', WaitState, now), [SetReason(REASON_REQ)])
      else Effect(WithState(m', WaitState, now), [])
    case OnRequest(now) => Effect(WithState(m.(reason := REASON_REQ), WaitState, now), [SetReason(REASON_REQ)])
    case OnStart(now) => Effect(WithState(m.(probeUsed := false), RecvState, now), [EnterDownload])
    case OnData(now) => Effect(if m.state == RecvState then m.(downloadLast := now) else m, [])
    case OnFinish(ok, now) =>
      if ok then Effect(MadeReady(m.(reason := REASON_DONE)), [LeaveDownload, SetReason(REASON_DONE), OnReadyToApp])
      else Effect(WithState(m, WaitState, now), [LeaveDownload, OnError])
    case OnAbort(now) => Effect(WithState(m, WaitState, now), [LeaveDownload])
    case PollBegin(now) => Effect(m.(waitStart := now), [])
    case PollRound(now, later, appValid, recovers) =>
      if m.readyFlag then Effect(m, [])
      else if m.state == WaitState && Expired(now, m.waitStart, m.waitMs) then
        TimedOut(m, m.(waitStart := now), appValid, recovers)
      else if m.state == RecvState && Expired(now, m.downloadLast, m.idleMs) then
        TimedOut(m, WithState(m, WaitState, later), appValid, recovers)
      else Effect(m, [])
    case NotifyResult(success, now) =>
      if success then Effect(m.(reason := REASON_DONE), [SetReason(REASON_DONE)])
      else Effect(WithState(m.(reason := REASON_IN_PROGRESS), WaitState, now), [SetReason(REASON_IN_PROGRESS)])
    case SetByShell(value) =>
      if m.state == RecvState then Effect(m, []) else Effect(m.(reason := value), [SetReason(value)])
  }

  // Whole runs

  /** The manager as linked in, before any event. */
  function Linked(waitMs: U32, idleMs: U32, reason: U32): Mgr {
    Mgr(IdleState, 0, 0, waitMs, idleMs, false, false, reason)
  }

  function After(m: Mgr, es: seq<Event>): Mgr {
    if es == [] then m else Step(After(m, es[..|es| - 1]), es[|es| - 1]).m
  }

  /** A callback sequence that lets the app run only for a reason given in the same event. */
  predicate Justified(e: Event, calls: seq<Callback>) {
    forall i :: 0 <= i < |calls| && calls[i] == OnReadyToApp ==>
      || (e.OnFinish? && e.ok)
      || IsAppValid(true) in calls[..i] || TryRecover(true) in calls[..i]
  }

  lemma StepJustified(m: Mgr, e: Event)
    ensures var r := Step(m, e);
            && Justified(e, r.calls)
            && (OnReadyToApp in r.calls ==>
                && r.m.state == ReadyState && r.m.readyFlag
                && (r.m.reason == REASON_NONE || r.m.reason == REASON_DONE))
  {
    hide Wrap32, Expired;
    var r := Step(m, e);
    var n := |r.calls|;
    if n > 0 && r.calls[n - 1] == OnReadyToApp {
      assert n > 1 ==> r.calls[..n - 1][n - 2] == r.calls[n - 2];
      assert n > 1 ==> r.calls[..n - 1][0] == r.calls[0];
      assert n > 2 ==> r.calls[..n - 1][1] == r.calls[1];
    }
  }

  lemma StepReady(m: Mgr, e: Event)
    requires m.state == ReadyState ==> m.readyFlag
    ensures var r := Step(m, e).m; r.state == ReadyState ==> r.readyFlag
  {
    hide Wrap32;
  }

  lemma AfterLast(m: Mgr, es: seq<Event>)
    ensures After(m, es) == if es == [] then m else Step(After(m, es[..|es| - 1]), es[|es| - 1]).m
  {
    hide Step;
  }

  lemma {:induction false} ReadyMeansFlag(m: Mgr, es: seq<Event>)
    requires m.state == ReadyState ==> m.readyFlag
    ensures var r := After(m, es); r.state == ReadyState ==> r.readyFlag
  {
    hide After, Step;
    if es != [] {
      ReadyMeansFlag(m, es[..|es| - 1]);
      StepReady(After(m, es[..|es| - 1]), es[|es| - 1]);
    }
    AfterLast(m, es);
  }

  /** Whole-run safety: in every event sequence the app is let run only after a valid-app answer, a
      successful recovery or a successful finish in that same event, with the persistent reason then
      NONE or DONE, and the READY state means that the ready flag is up. */
  lemma UpdateSafety(waitMs: U32, idleMs: U32, reason: U32, es: seq<Event>, i: nat)
    requires i < |es|
    ensures var m := After(Linked(waitMs, idleMs, reason), es[..i]);
            var r := Step(m, es[i]);
            && r.m == After(Linked(waitMs, idleMs, reason), es[..i + 1])
            && Justified(es[i], r.calls)
            && (OnReadyToApp in r.calls ==>
                && r.m.state == ReadyState
                && (r.m.reason == REASON_NONE || r.m.reason == REASON_DONE))
            && (r.m.state == ReadyState ==> r.m.readyFlag)
  {
    var m := Linked(waitMs, idleMs, reason);
    assert es[..i + 1][..i] == es[..i];
    StepJustified(After(m, es[..i]), es[i]);
    ReadyMeansFlag(m, es[..i + 1]);
  }

  function Probes(calls: seq<Callback>): nat {
    if calls == [] then 0 else Probes(calls[..|calls| - 1]) + if calls[|calls| - 1].TryRecover? then 1 else 0
  }

  /** Recovery probes over a run. */
  function ProbesOf(m: Mgr, es: seq<Event>): nat {
    if es == [] then 0
    else ProbesOf(m, es[..|es| - 1]) + Probes(Step(After(m, es[..|es| - 1]), es[|es| - 1]).calls)
  }

  lemma ProbesNext(calls: seq<Callback>, k: nat)
    requires k < |calls|
    ensures Probes(calls[..k + 1]) == Probes(calls[..k]) + if calls[k].TryRecover? then 1 else 0
  {
    assert calls[..k + 1][..k] == calls[..k];
  }

  lemma StepProbes(m: Mgr, e: Event)
    ensures var r := Step(m, e);
            && Probes(r.calls) <= 1 && (Probes(r.calls) == 1 ==> !m.probeUsed && r.m.probeUsed)
            && (!e.Register? && !e.OnStart? && m.probeUsed ==> r.m.probeUsed)
  {
    var c := Step(m, e).calls;
    hide Probes;
    forall k | 0 <= k < |c|
      ensures Probes(c[..k + 1]) == Probes(c[..k]) + if c[k].TryRecover? then 1 else 0
    {
      ProbesNext(c, k);
    }
    assert c[..0] == [] && Probes([]) == 0 by { NoProbes(); }
    assert c[..|c|] == c;
    assert |c| <= 4;
    assert |c| > 0 ==> Probes(c[..1]) == if c[0].TryRecover? then 1 else 0;
    assert |c| > 1 ==> Probes(c[..2]) == Probes(c[..1]) + if c[1].TryRecover? then 1 else 0;
    assert |c| > 2 ==> Probes(c[..3]) == Probes(c[..2]) + if c[2].TryRecover? then 1 else 0;
  }

  lemma NoProbes()
    ensures Probes([]) == 0
  {
  }

  /** Recovery is tried at most once between consecutive register or start events, from any state. */
  lemma {:induction false} ProbeOnce(m: Mgr, es: seq<Event>)
    requires forall i :: 0 <= i < |es| ==> !es[i].Register? && !es[i].OnStart?
    ensures ProbesOf(m, es) <= 1 && (ProbesOf(m, es) == 1 ==> !m.probeUsed && After(m, es).probeUsed)
    ensures m.probeUsed ==> After(m, es).probeUsed
  {
    if es != [] {
      ProbeOnce(m, es[..|es| - 1]);
      StepProbes(After(m, es[..|es| - 1]), es[|es| - 1]);
    }
  }

  // Idle time

  /** Tick of the last start or data event of a run. */
  function LastActivity(es: seq<Event>): U32 {
    if es == [] then 0
    else
      match es[|es| - 1]
      case OnStart(now) => now
      case OnData(now) => now
      case _ => LastActivity(es[..|es| - 1])
  }

  lemma {:induction false} ActivityTracked(m: Mgr, es: seq<Event>)
    requires m.state != RecvState
    ensures After(m, es).state == RecvState ==> After(m, es).downloadLast == LastActivity(es)
  {
    AfterLast(m, es);
    hide After, Expired;
    if es != [] {
      ActivityTracked(m, es[..|es| - 1]);
    }
  }

  /** A download is given up only when the 32-bit difference of the readings since its last start or data
      event has reached the idle window. */
  lemma IdleTimeoutIsReal(waitMs: U32, idleMs: U32, reason: U32, es: seq<Event>, e: Event)
    requires var m := After(Linked(waitMs, idleMs, reason), es);
             m.state == RecvState && e.PollRound? && Step(m, e).m.state != RecvState
    ensures var m := After(Linked(waitMs, idleMs, reason), es);
            m.idleMs > 0 && Wrap32(e.now - LastActivity(es)) >= m.idleMs
  {
    hide After, LastActivity;
    ActivityTracked(Linked(waitMs, idleMs, reason), es);
  }

  // True time

  /** The events read a counter that shows the true ticks `ts` modulo 2^32. */
  predicate ReadAt(es: seq<Event>, ts: seq<nat>) {
    && |ts| == |es|
    && forall i :: 0 <= i < |es| && !es[i].SetByShell? ==> es[i].now == Wrap32(ts[i])
  }

  /** The readings of the events are taken in the order in which the events are handled. */
  predicate InOrder(ts: seq<nat>) {
    forall i, k :: 0 <= i < k < |ts| ==> ts[i] <= ts[k]
  }

  /** True time of the last start or data event. */
  function TrueActivity(es: seq<Event>, ts: seq<nat>): nat
    requires |ts| == |es|
  {
    if es == [] then 0
    else if es[|es| - 1].OnStart? || es[|es| - 1].OnData? then ts[|es| - 1]
    else TrueActivity(es[..|es| - 1], ts[..|es| - 1])
  }

  lemma {:induction false} ActivityRead(es: seq<Event>, ts: seq<nat>)
    requires ReadAt(es, ts)
    ensures LastActivity(es) == Wrap32(TrueActivity(es, ts))
  {
    hide Wrap32;
    if es == [] {
      WrapZero();
    } else {
      ActivityRead(es[..|es| - 1], ts[..|es| - 1]);
    }
  }

  lemma WrapZero()
    ensures Wrap32(0) == 0
  {
  }

  lemma {:induction false} ActivityInOrder(es: seq<Event>, ts: seq<nat>, t: nat)
    requires |ts| == |es| && forall i :: 0 <= i < |ts| ==> ts[i] <= t
    ensures TrueActivity(es, ts) <= t
  {
    if es != [] {
      ActivityInOrder(es[..|es| - 1], ts[..|es| - 1], t);
    }
  }

  /** A round gives a running download up exactly when the difference of its readings has reached the
      window. */
  lemma RoundGivesUp(m: Mgr, e: Event)
    requires m.state == RecvState && !m.readyFlag && e.PollRound?
    ensures Step(m, e).m.state != RecvState <==> Expired(e.now, m.downloadLast, m.idleMs)
  {
    hide Expired;
  }

  /** What the 32-bit difference says about true ticks. */
  lemma ExpiredTrue(now: nat, since: nat, window: U32)
    ensures Expired(Wrap32(now), Wrap32(since), window) <==>
            0 < window && window <= (now - since) % 0x1_0000_0000
  {
    WrapDifference(now, since);
  }

  lemma WrapDifference(now: nat, since: nat)
    ensures Wrap32(Wrap32(now) - Wrap32(since)) == (now - since) % 0x1_0000_0000
  {
    var a, b := now / 0x1_0000_0000, since / 0x1_0000_0000;
    assert now - since == Wrap32(now) - Wrap32(since) + (a - b) * 0x1_0000_0000;
  }

  lemma ReadParts(es: seq<Event>, e: Event, ts: seq<nat>)
    requires ReadAt(es + [e], ts)
    ensures |ts| == |es| + 1 && ReadAt(es, ts[..|es|]) && (!e.SetByShell? ==> e.now == Wrap32(ts[|es|]))
  {
    var all := es + [e];
    assert all[|es|] == e && forall i :: 0 <= i < |es| ==> all[i] == es[i];
  }

  lemma ShortOfARound(passed: nat, window: nat)
    ensures window <= passed % 0x1_0000_0000 ==> window <= passed
    ensures passed < 0x1_0000_0000 ==> passed % 0x1_0000_0000 == passed
  {
  }

  lemma LastReading(waitMs: U32, idleMs: U32, reason: U32, es: seq<Event>, e: Event, ts: seq<nat>)
    requires e.PollRound? && ReadAt(es + [e], ts)
    requires var m := After(Linked(waitMs, idleMs, reason), es); m.state == RecvState && !m.readyFlag
    ensures |ts| == |es| + 1
    ensures var m := After(Linked(waitMs, idleMs, reason), es);
            Step(m, e).m.state != RecvState <==>
            0 < m.idleMs <= (ts[|es|] - TrueActivity(es, ts[..|es|])) % 0x1_0000_0000
  {
    hide After, LastActivity, TrueActivity, Step, Expired, Wrap32, ReadAt;
    ReadParts(es, e, ts);
    ActivityTracked(Linked(waitMs, idleMs, reason), es);
    ActivityRead(es, ts[..|es|]);
    RoundGivesUp(After(Linked(waitMs, idleMs, reason), es), e);
    ExpiredTrue(ts[|es|], TrueActivity(es, ts[..|es|]), After(Linked(waitMs, idleMs, reason), es).idleMs);
  }

  /** With readings in order, the true time that has passed decides: a download is given up only when the
      idle window has passed since its last start or data event, and in any round in which it has passed
      and the counter has not come round to the same readings again. */
  lemma IdleTimeoutInOrder(waitMs: U32, idleMs: U32, reason: U32, es: seq<Event>, e: Event, ts: seq<nat>)
    requires e.PollRound? && ReadAt(es + [e], ts) && InOrder(ts)
    requires var m := After(Linked(waitMs, idleMs, reason), es); m.state == RecvState && !m.readyFlag
    ensures var m := After(Linked(waitMs, idleMs, reason), es);
            var passed := ts[|es|] - TrueActivity(es, ts[..|es|]);
            && 0 <= passed
            && (Step(m, e).m.state != RecvState ==> 0 < m.idleMs <= passed)
            && (0 < m.idleMs <= passed < 0x1_0000_0000 ==> Step(m, e).m.state != RecvState)
  {
    hide After, TrueActivity, Step, Expired, Linked, ReadAt;
    LastReading(waitMs, idleMs, reason, es, e, ts);
    ActivityInOrder(es, ts[..|es|], ts[|es|]);
    ShortOfARound(ts[|es|] - TrueActivity(es, ts[..|es|]), After(Linked(waitMs, idleMs, reason), es).idleMs);
  }

  /** Without that order it is given up early exactly when the reading of the round is older than that of
      the last activity: by as little as a tick. */
  lemma GivenUpEarly(waitMs: U32, idleMs: U32, reason: U32, es: seq<Event>, e: Event, ts: seq<nat>)
    requires e.PollRound? && ReadAt(es + [e], ts)
    requires var m := After(Linked(waitMs, idleMs, reason), es); m.state == RecvState && !m.readyFlag
    ensures var m := After(Linked(waitMs, idleMs, reason), es);
            var late := TrueActivity(es, ts[..|es|]) - ts[|es|];
            Step(m, e).m.state != RecvState && -late < m.idleMs <==>
            0 < m.idleMs && 0 < late && 1 <= late % 0x1_0000_0000 <= 0x1_0000_0000 - m.idleMs
  {
    hide After, TrueActivity, Step, Expired, Linked, ReadAt;
    LastReading(waitMs, idleMs, reason, es, e, ts);
  }

  /** A data event handled between the reading of the round and its comparison: the download is given up
      at once, a tick before its last data, with a window of 30 seconds. */
  lemma DataInTheMiddle(waitMs: U32)
    ensures var m := After(Linked(waitMs, 30000, 0), [OnStart(100), OnData(101)]);
            && m.state == RecvState
            && Step(m, PollRound(100, 100, true, false)).m.state == ReadyState
  {
    var es := [OnStart(100), OnData(101)];
    assert es[..1] == [OnStart(100)] && es[..1][..0] == [];
    AfterLast(Linked(waitMs, 30000, 0), es);
    AfterLast(Linked(waitMs, 30000, 0), es[..1]);
  }

  // The poll loop

  /** The manager after `n` rounds of the poll loop without other events: `clock(k)` and `late(k)` are
      the tick counter readings of round `k`, and the callbacks keep to their answers. */
  function PollRounds(m: Mgr, clock: nat -> U32, late: nat -> U32, appValid: bool, recovers: bool, n: nat): Mgr {
    if n == 0 then Step(m, PollBegin(clock(0))).m
    else Step(PollRounds(m, clock, late, appValid, recovers, n - 1), PollRound(clock(n), late(n), appValid, recovers)).m
  }

  /** The window that the loop waits out, zero when there is none. */
  function Window(m: Mgr): U32 {
    match m.state
    case WaitState => m.waitMs
    case RecvState => m.idleMs
    case _ => 0
  }

  /** When the loop can be left without another event: there is a window, and the app is valid or an
      unused probe succeeds. */
  predicate Leaves(m: Mgr, appValid: bool, recovers: bool) {
    m.readyFlag || (Window(m) > 0 && (appValid || (!m.probeUsed && recovers)))
  }

  /** The tick counter moves on in every round, but never far enough to skip a window when it wraps. */
  ghost predicate Steady(clock: nat -> U32, window: U32) {
    forall k: nat :: 1 <= Wrap32(clock(k + 1) - clock(k)) <= 0x1_0000_0000 - window
  }

  lemma WrapAdd(a: U32, b: U32, since: U32)
    requires Wrap32(b - a) + Wrap32(a - since) < 0x1_0000_0000
    ensures Wrap32(b - since) == Wrap32(b - a) + Wrap32(a - since)
  {
  }

  /** Start of the window that the loop waits out. */
  function Since(m: Mgr): U32 { if m.state == WaitState then m.waitStart else m.downloadLast }

  /** A round changes nothing until the window has run out, and then it releases the loop. */
  lemma RoundWaits(m: Mgr, now: U32, later: U32, appValid: bool, recovers: bool)
    requires !m.readyFlag && Leaves(m, appValid, recovers)
    ensures var r := Step(m, PollRound(now, later, appValid, recovers)).m;
            if Expired(now, Since(m), Window(m)) then r.readyFlag else r == m
  {
    hide Wrap32;
  }

  lemma NextRound(m: Mgr, clock: nat -> U32, late: nat -> U32, appValid: bool, recovers: bool, n: nat)
    ensures PollRounds(m, clock, late, appValid, recovers, n + 1) ==
            Step(PollRounds(m, clock, late, appValid, recovers, n),
                 PollRound(clock(n + 1), late(n + 1), appValid, recovers)).m
  {
    hide Step;
  }

  lemma PollStarts(m: Mgr, clock: nat -> U32, late: nat -> U32, appValid: bool, recovers: bool) returns (p: Mgr)
    requires !m.readyFlag && Leaves(m, appValid, recovers)
    ensures p == PollRounds(m, clock, late, appValid, recovers, 0) == m.(waitStart := clock(0))
    ensures !p.readyFlag && Leaves(p, appValid, recovers) && Window(p) == Window(m)
  {
    p := m.(waitStart := clock(0));
  }

  /** Elapsed time grows by at least one tick a round while it is below the window. */
  lemma TickCounts(clock: nat -> U32, window: U32, since: U32, n: nat)
    requires Steady(clock, window) && (n > 0 ==> n - 1 <= Wrap32(clock(n) - since) < window)
    ensures n <= Wrap32(clock(n + 1) - since)
  {
    if n > 0 {
      assert 1 <= Wrap32(clock(n + 1) - clock(n)) <= 0x1_0000_0000 - window;
      WrapAdd(clock(n), clock(n + 1), since);
    }
  }

  /** As long as the loop is not left, the true elapsed time grows with every round and has not reached
      the window. */
  lemma {:induction false} PollCountdown(m: Mgr, clock: nat -> U32, late: nat -> U32, appValid: bool, recovers: bool,
                                         n: nat)
    requires !m.readyFlag && Leaves(m, appValid, recovers) && Steady(clock, Window(m))
    ensures var r := PollRounds(m, clock, late, appValid, recovers, n + 1);
            || r.readyFlag
            || (r == m.(waitStart := clock(0)) && n <= Wrap32(clock(n + 1) - Since(r)) < Window(m))
  {
    hide Step, Wrap32, PollRounds, Leaves, Steady, Window;
    var p := PollStarts(m, clock, late, appValid, recovers);
    NextRound(m, clock, late, appValid, recovers, n);
    if n > 0 {
      PollCountdown(m, clock, late, appValid, recovers, n - 1);
    }
    var before := PollRounds(m, clock, late, appValid, recovers, n);
    if before.readyFlag {
      ReadyRests(before, clock(n + 1), late(n + 1), appValid, recovers);
    } else {
      RoundWaits(p, clock(n + 1), late(n + 1), appValid, recovers);
      TickCounts(clock, Window(m), Since(p), n);
    }
  }

  lemma ReadyRests(m: Mgr, now: U32, later: U32, appValid: bool, recovers: bool)
    requires m.readyFlag
    ensures Step(m, PollRound(now, later, appValid, recovers)).m == m
  {
  }

  /** The poll loop ends across tick wrap-around, one round after the window at the latest. */
  lemma PollEnds(m: Mgr, clock: nat -> U32, late: nat -> U32, appValid: bool, recovers: bool)
    requires Leaves(m, appValid, recovers) && Steady(clock, Window(m))
    ensures PollRounds(m, clock, late, appValid, recovers, Window(m) + 1).readyFlag
  {
    if m.readyFlag {
      StaysReady(m, clock, late, appValid, recovers, Window(m) + 1);
    } else {
      PollCountdown(m, clock, late, appValid, recovers, Window(m));
    }
  }

  lemma {:induction false} StaysReady(m: Mgr, clock: nat -> U32, late: nat -> U32, appValid: bool, recovers: bool,
                                      n: nat)
    requires m.readyFlag
    ensures PollRounds(m, clock, late, appValid, recovers, n).readyFlag
  {
    if n > 0 {
      StaysReady(m, clock, late, appValid, recovers, n - 1);
    }
  }

  /** Otherwise it goes on for ever, whatever the clock does. */
  lemma {:induction false} PollSpins(m: Mgr, clock: nat -> U32, late: nat -> U32, appValid: bool, recovers: bool,
                                     n: nat)
    requires !Leaves(m, appValid, recovers)
    ensures !Leaves(PollRounds(m, clock, late, appValid, recovers, n), appValid, recovers)
  {
    if n > 0 {
      PollSpins(m, clock, late, appValid, recovers, n - 1);
    }
  }

  /** Exactly when the poll loop ends without another event. */
  lemma PollEndsIff(m: Mgr, clock: nat -> U32, late: nat -> U32, appValid: bool, recovers: bool)
    requires Steady(clock, Window(m))
    ensures Leaves(m, appValid, recovers) <==> exists n: nat ::
            PollRounds(m, clock, late, appValid, recovers, n).readyFlag
  {
    if Leaves(m, appValid, recovers) {
      PollEnds(m, clock, late, appValid, recovers);
    } else {
      forall n: nat
        ensures !PollRounds(m, clock, late, appValid, recovers, n).readyFlag
      {
        PollSpins(m, clock, late, appValid, recovers, n);
      }
    }
  }

  // The manager object

  class Manager {
    var state: UpdState
    var waitStart: U32
    var downloadLast: U32
    var waitMs: U32
    var idleMs: U32
    var readyFlag: bool
    var probeUsed: bool
    var reason: U32                   // kept by the boot loader's callbacks
    ghost var calls: seq<Callback>    // every callback so far

    constructor (waitMs: U32, idleMs: U32, reason: U32)
      ensures Ctx() == Linked(waitMs, idleMs, reason) && calls == []
    {
      state, waitStart, downloadLast, readyFlag, probeUsed := IdleState, 0, 0, false, false;
      this.waitMs, this.idleMs, this.reason, calls := waitMs, idleMs, reason, [];
    }

    ghost function Ctx(): Mgr
      reads this
    {
      Mgr(state, waitStart, downloadLast, waitMs, idleMs, readyFlag, probeUsed, reason)
    }

    /** This object has handled one event that started from `m` with the callbacks `before`. */
    ghost predicate Handled(m: Mgr, before: seq<Callback>, e: Event)
      reads this
    {
      Ctx() == Step(m, e).m && calls == before + Step(m, e).calls
    }

    method SetState(s: UpdState, now: U32)
      modifies this`state, this`waitStart, this`downloadLast
      ensures Ctx() == WithState(old(Ctx()), s, now)
    {
      state := s;
      if s == WaitState {
        waitStart := now;
      } else if s == RecvState {
        downloadLast := now;
      }
    }

    method StoreReason(value: U32)
      modifies this`reason, this`calls
      ensures reason == value && calls == old(calls) + [SetReason(value)]
    {
      reason := value;
      calls := calls + [SetReason(value)];
    }

    method MakeReady(now: U32)
      modifies this`readyFlag, this`state, this`waitStart, this`downloadLast, this`calls
      ensures Ctx() == MadeReady(old(Ctx())) && calls == old(calls) + [OnReadyToApp]
    {
      readyFlag := true;
      SetState(ReadyState, now);
      calls := calls + [OnReadyToApp];
    }

    method TryRecoverOnce(recovers: bool) returns (ok: bool)
      modifies this`probeUsed, this`calls
      ensures probeUsed && ok == (!old(probeUsed) && recovers)
      ensures calls == if old(probeUsed) then old(calls) else old(calls) + [TryRecover(recovers)]
    {
      if probeUsed {
        return false;
      }
      probeUsed := true;
      calls := calls + [TryRecover(recovers)];
      ok := recovers;
    }

    method RegisterOps(waitMs: U32, idleMs: U32, appValid: bool, now: U32)
      modifies this
      ensures Handled(old(Ctx()), old(calls), Register(waitMs, idleMs, appValid, now))
    {
      readyFlag, probeUsed := false, false;
      this.waitMs, this.idleMs := waitMs, idleMs;
      if reason == REASON_NONE || reason == REASON_DONE {
        calls := calls + [IsAppValid(appValid)];
        if appValid {
          MakeReady(now);
        } else {
          SetState(WaitState, now);
        }
      } else if reason == REASON_REQ {
        HandleRequest(now);
      } else {
        SetState(WaitState, now);
      }
    }

    method HandleRequest(now: U32)
      modifies this
      ensures Handled(old(Ctx()), old(calls), OnRequest(now))
    {
      StoreReason(REASON_REQ);
      SetState(WaitState, now);
    }

    method HandleStart(now: U32)
      modifies this
      ensures Handled(old(Ctx()), old(calls), OnStart(now))
    {
      probeUsed := false;
      calls := calls + [EnterDownload];
      SetState(RecvState, now);
    }

    method HandleData(now: U32)
      modifies this
      ensures Handled(old(Ctx()), old(calls), OnData(now))
    {
      if state == RecvState {
        downloadLast := now;
      }
    }

    method HandleFinish(ok: bool, now: U32)
      modifies this
      ensures Handled(old(Ctx()), old(calls), OnFinish(ok, now))
    {
      calls := calls + [LeaveDownload];
      if ok {
        StoreReason(REASON_DONE);
        MakeReady(now);
      } else {
        state := ErrorState;
        calls := calls + [OnError];
        SetState(WaitState, now);
      }
    }

    method HandleAbort(now: U32)
      modifies this
      ensures Handled(old(Ctx()), old(calls), OnAbort(now))
    {
      calls := calls + [LeaveDownload];
      SetState(WaitState, now);
    }

    method HandleResult(success: bool, now: U32)
      modifies this
      ensures Handled(old(Ctx()), old(calls), NotifyResult(success, now))
    {
      if success {
        StoreReason(REASON_DONE);
      } else {
        StoreReason(REASON_IN_PROGRESS);
        SetState(WaitState, now);
      }
    }

    /** A window has run out: back to a valid app, else one probe; `released` tells whether the loop may end. */
    method Timeout(appValid: bool, recovers: bool, now: U32) returns (released: bool)
      modifies this
      ensures released == (appValid || (!old(probeUsed) && recovers))
      ensures var r := TimedOut(old(Ctx()), old(Ctx()), appValid, recovers);
              Ctx() == r.m && calls == old(calls) + r.calls
    {
      calls := calls + [IsAppValid(appValid)];
      released := appValid;
      if !appValid {
        released := TryRecoverOnce(recovers);
      }
      if released {
        StoreReason(REASON_NONE);
        MakeReady(now);
      }
    }

    /** One round of the poll loop. */
    method Round(now: U32, later: U32, appValid: bool, recovers: bool)
      requires !readyFlag
      modifies this
      ensures Handled(old(Ctx()), old(calls), PollRound(now, later, appValid, recovers))
    {
      if state == WaitState {
        if waitMs > 0 && Wrap32(now - waitStart) >= waitMs {
          var released := Timeout(appValid, recovers, now);
          if !released {
            waitStart := now;
          }
        }
      } else if state == RecvState {
        if idleMs > 0 && Wrap32(now - downloadLast) >= idleMs {
          var released := Timeout(appValid, recovers, now);
          if !released {
            SetState(WaitState, later);
          }
        }
      }
    }

    /** The blocking poll loop; it ends where the rounds say, and within the window. */
    method Poll(clock: nat -> U32, late: nat -> U32, appValid: bool, recovers: bool) returns (n: nat)
      requires Leaves(Ctx(), appValid, recovers) && Steady(clock, Window(Ctx()))
      modifies this
      ensures readyFlag && n <= old(Window(Ctx())) + 1
      ensures Ctx() == PollRounds(old(Ctx()), clock, late, appValid, recovers, n)
    {
      ghost var m, bound := Ctx(), Window(Ctx()) + 1;
      n := 0;
      waitStart := clock(0);
      assert Ctx() == PollRounds(m, clock, late, appValid, recovers, 0);
      PollEnds(m, clock, late, appValid, recovers);
      hide Step, PollRounds, Leaves, Steady, Window;
      while !readyFlag
        invariant n <= bound && Ctx() == PollRounds(m, clock, late, appValid, recovers, n)
        decreases bound - n
      {
        NextRound(m, clock, late, appValid, recovers, n);
        n := n + 1;
        Round(clock(n), late(n), appValid, recovers);
      }
    }
  }
}
