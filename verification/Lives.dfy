/** The update manager across resets: the persistent reason is all that a reset leaves. */
module Lives {
  import opened Bits
  import opened Update

  /** An event, or a reset: the manager starts anew, as linked in, with the reason that was kept. */
  datatype Act = Reset(waitMs: U32, idleMs: U32) | Handle(e: Event)

  function ActOn(m: Mgr, a: Act): Effect {
    match a
    case Reset(waitMs, idleMs) => Effect(Linked(waitMs, idleMs, m.reason), [])
    case Handle(e) => Step(m, e)
  }

  function Lived(m: Mgr, acts: seq<Act>): Mgr {
    if acts == [] then m else ActOn(Lived(m, acts[..|acts| - 1]), acts[|acts| - 1]).m
  }

  /** All callbacks of a history, in order. */
  function CallsOf(m: Mgr, acts: seq<Act>): seq<Callback> {
    if acts == [] then []
    else
      var init := acts[..|acts| - 1];
      CallsOf(m, init) + ActOn(Lived(m, init), acts[|acts| - 1]).calls
  }

  /** A round that finds its window run out. */
  predicate Overdue(m: Mgr, e: Event) {
    && e.PollRound? && !m.readyFlag
    && (|| (m.state == WaitState && Expired(e.now, m.waitStart, m.waitMs))
        || (m.state == RecvState && Expired(e.now, m.downloadLast, m.idleMs)))
  }

  /** Such a round gives up waiting when the app is valid, or when the one probe is left and succeeds. */
  predicate TimeoutRelease(m: Mgr, e: Event) {
    Overdue(m, e) && (e.appValid || (!m.probeUsed && e.recovers))
  }

  /** A reason with which registration stays in the boot loader. */
  predicate Waits(reason: U32) { reason != REASON_NONE && reason != REASON_DONE }

  /** Whether an update is pending after an act, when `p` tells whether it was before: a request or a failed
      result makes it so, a successful finish or result or a timeout release ends it, and a value written
      by the shell, outside a download, decides. */
  predicate PendingAfter(p: bool, m: Mgr, a: Act) {
    match a
    case Reset(_, _) => p
    case Handle(e) =>
      match e
      case OnRequest(_) => true
      case NotifyResult(success, _) => !success
      case OnFinish(ok, _) => !ok && p
      case SetByShell(value) => if m.state == RecvState then p else Waits(value)
      case PollRound(_, _, _, _) => !TimeoutRelease(m, e) && p
      case _ => p
  }

  predicate Pending(m: Mgr, acts: seq<Act>) {
    if acts == [] then Waits(m.reason)
    else
      var init := acts[..|acts| - 1];
      PendingAfter(Pending(m, init), Lived(m, init), acts[|acts| - 1])
  }

  lemma ActPends(m: Mgr, a: Act)
    ensures Waits(ActOn(m, a).m.reason) == PendingAfter(Waits(m.reason), m, a)
  {
    hide Expired;
  }

  /** The reason kept across resets tells exactly whether an update is pending. */
  lemma {:induction false} ReasonTells(m: Mgr, acts: seq<Act>)
    ensures Waits(Lived(m, acts).reason) == Pending(m, acts)
  {
    hide ActOn, PendingAfter, Waits;
    if acts != [] {
      var init := acts[..|acts| - 1];
      ReasonTells(m, init);
      ActPends(Lived(m, init), acts[|acts| - 1]);
    }
  }

  /** Registration lets the app run exactly when no update is pending and the app is valid; otherwise it
      waits, with a fresh window. */
  lemma RegisterDecides(m: Mgr, acts: seq<Act>, waitMs: U32, idleMs: U32, appValid: bool, now: U32)
    ensures var r := Step(Lived(m, acts), Register(waitMs, idleMs, appValid, now));
            && (OnReadyToApp in r.calls <==> !Pending(m, acts) && appValid)
            && (r.m.readyFlag <==> !Pending(m, acts) && appValid)
            && (r.m.state == if Pending(m, acts) || !appValid then WaitState else ReadyState)
            && (!r.m.readyFlag ==> r.m.waitStart == now && r.m.waitMs == waitMs && r.m.idleMs == idleMs)
            && Waits(r.m.reason) == Pending(m, acts)
  {
    hide Lived, Pending;
    ReasonTells(m, acts);
  }

  /** An act that may settle a pending update. */
  predicate Settles(m: Mgr, a: Act) {
    a.Handle? && (|| (a.e.OnFinish? && a.e.ok) || (a.e.NotifyResult? && a.e.success) || a.e.SetByShell?
                  || TimeoutRelease(m, a.e))
  }

  predicate Unsettled(m: Mgr, acts: seq<Act>) {
    forall k :: 0 <= k < |acts| ==> !Settles(Lived(m, acts[..k]), acts[k])
  }

  lemma UnsettledFront(m: Mgr, acts: seq<Act>)
    requires acts != [] && Unsettled(m, acts)
    ensures var init := acts[..|acts| - 1];
            Unsettled(m, init) && !Settles(Lived(m, init), acts[|acts| - 1])
  {
    hide Settles, Lived;
    var init := acts[..|acts| - 1];
    forall k | 0 <= k < |init|
      ensures !Settles(Lived(m, init[..k]), init[k])
    {
      assert init[..k] == acts[..k];
    }
  }

  lemma ActKeepsWaiting(m: Mgr, a: Act)
    requires Waits(m.reason) && !Settles(m, a)
    ensures Waits(ActOn(m, a).m.reason) && OnReadyToApp !in ActOn(m, a).calls
  {
    hide Expired;
  }

  lemma {:induction false} WaitsOn(m: Mgr, acts: seq<Act>)
    requires Waits(m.reason) && Unsettled(m, acts)
    ensures Waits(Lived(m, acts).reason) && OnReadyToApp !in CallsOf(m, acts)
  {
    hide ActOn, Settles, Unsettled, Waits;
    if acts != [] {
      UnsettledFront(m, acts);
      WaitsOn(m, acts[..|acts| - 1]);
      ActKeepsWaiting(Lived(m, acts[..|acts| - 1]), acts[|acts| - 1]);
    }
  }

  /** After a request or a failed result the app is not let run again, in whatever follows and across any
      number of resets, until a download finishes, a result is good, the shell writes a reason or a
      window runs out with a way back to the app. */
  lemma RequestHolds(m: Mgr, e: Event, acts: seq<Act>)
    requires e.OnRequest? || (e.NotifyResult? && !e.success)
    requires Unsettled(Step(m, e).m, acts)
    ensures var m' := Step(m, e).m;
            && m'.reason == (if e.OnRequest? then REASON_REQ else REASON_IN_PROGRESS)
            && OnReadyToApp !in Step(m, e).calls && OnReadyToApp !in CallsOf(m', acts)
            && Waits(Lived(m', acts).reason)
  {
    hide Unsettled, Lived, CallsOf;
    WaitsOn(Step(m, e).m, acts);
  }

  /** A download that finishes well lets the app run at once, and leaves the reason with which the next
      registration does too. */
  lemma FinishLetsRun(m: Mgr, now: U32, waitMs: U32, idleMs: U32, waitMs': U32, idleMs': U32, then': U32)
    ensures var r := Step(m, OnFinish(true, now));
            && OnReadyToApp in r.calls && r.m.state == ReadyState && r.m.readyFlag && r.m.reason == REASON_DONE
            && var next := Step(Linked(waitMs, idleMs, r.m.reason), Register(waitMs', idleMs', true, then'));
               OnReadyToApp in next.calls && next.m.readyFlag
  {
    assert [LeaveDownload, SetReason(REASON_DONE), OnReadyToApp][2] == OnReadyToApp;
    assert [IsAppValid(true), OnReadyToApp][1] == OnReadyToApp;
  }

  // The reason and its callbacks

  /** The last value stored by a callback sequence. */
  function LastStored(calls: seq<Callback>, before: U32): U32 {
    if calls == [] then before
    else if calls[|calls| - 1].SetReason? then calls[|calls| - 1].value
    else LastStored(calls[..|calls| - 1], before)
  }

  lemma {:induction false} LastStoredSum(a: seq<Callback>, b: seq<Callback>, before: U32)
    ensures LastStored(a + b, before) == LastStored(b, LastStored(a, before))
  {
    if b == [] {
      assert a + b == a;
    } else {
      assert (a + b)[..|a + b| - 1] == a + b[..|b| - 1];
      LastStoredSum(a, b[..|b| - 1], before);
    }
  }

  lemma LastStoredNext(calls: seq<Callback>, k: nat, before: U32)
    requires k < |calls|
    ensures LastStored(calls[..k + 1], before) ==
            if calls[k].SetReason? then calls[k].value else LastStored(calls[..k], before)
  {
    assert calls[..k + 1][..k] == calls[..k];
  }

  lemma ActStores(m: Mgr, a: Act)
    ensures ActOn(m, a).m.reason == LastStored(ActOn(m, a).calls, m.reason)
  {
    hide Expired, LastStored;
    var c := ActOn(m, a).calls;
    forall k | 0 <= k < |c|
      ensures LastStored(c[..k + 1], m.reason) ==
              if c[k].SetReason? then c[k].value else LastStored(c[..k], m.reason)
    {
      LastStoredNext(c, k, m.reason);
    }
    NothingStored(m.reason);
    assert c[..0] == [] && c[..|c|] == c;
    assert |c| <= 4;
    assert |c| > 0 ==> LastStored(c[..1], m.reason) == if c[0].SetReason? then c[0].value else m.reason;
    assert |c| > 1 ==> LastStored(c[..2], m.reason) ==
                       if c[1].SetReason? then c[1].value else LastStored(c[..1], m.reason);
    assert |c| > 2 ==> LastStored(c[..3], m.reason) ==
                       if c[2].SetReason? then c[2].value else LastStored(c[..2], m.reason);
  }

  /** The reason is the last one handed to the callbacks: the boot loader's store and the manager agree. */
  lemma {:induction false} ReasonStored(m: Mgr, acts: seq<Act>)
    ensures Lived(m, acts).reason == LastStored(CallsOf(m, acts), m.reason)
  {
    hide ActOn, LastStored;
    if acts != [] {
      var init := acts[..|acts| - 1];
      ReasonStored(m, init);
      ActStores(Lived(m, init), acts[|acts| - 1]);
      LastStoredSum(CallsOf(m, init), ActOn(Lived(m, init), acts[|acts| - 1]).calls, m.reason);
    } else {
      NothingStored(m.reason);
    }
  }

  lemma NothingStored(before: U32)
    ensures LastStored([], before) == before
  {
  }

  // The probe

  lemma {:induction false} ProbeTracked(m: Mgr, es: seq<Event>)
    requires forall i :: 0 <= i < |es| ==> !es[i].Register? && !es[i].OnStart?
    requires !m.probeUsed
    ensures After(m, es).probeUsed <==> ProbesOf(m, es) == 1
  {
    hide Step;
    if es != [] {
      ProbeTracked(m, es[..|es| - 1]);
      StepTracks(After(m, es[..|es| - 1]), es[|es| - 1]);
      ProbeOnce(m, es);
      ProbeOnce(m, es[..|es| - 1]);
    }
  }

  lemma StepTracks(m: Mgr, e: Event)
    requires !e.Register? && !e.OnStart?
    ensures Step(m, e).m.probeUsed <==> m.probeUsed || Probes(Step(m, e).calls) == 1
  {
    hide Expired, Probes;
    StepProbes(m, e);
    if !m.probeUsed && Step(m, e).m.probeUsed {
      ProbeCounts(Step(m, e).calls, 1);
    }
  }

  lemma {:induction false} ProbeCounts(calls: seq<Callback>, k: nat)
    requires k < |calls| && calls[k].TryRecover?
    ensures Probes(calls) >= 1
    decreases |calls|
  {
    if k < |calls| - 1 {
      ProbeCounts(calls[..|calls| - 1], k);
    }
  }

  /** After a registration or a start, an overdue round with an invalid app tries recovery exactly when no
      round has done so since. */
  lemma ProbeFresh(m: Mgr, e0: Event, es: seq<Event>, e: Event)
    requires e0.Register? || e0.OnStart?
    requires forall i :: 0 <= i < |es| ==> !es[i].Register? && !es[i].OnStart?
    requires Overdue(After(Step(m, e0).m, es), e) && !e.appValid
    ensures TryRecover(e.recovers) in Step(After(Step(m, e0).m, es), e).calls <==> ProbesOf(Step(m, e0).m, es) == 0
  {
    hide After, ProbesOf;
    ProbeTracked(Step(m, e0).m, es);
    ProbeOnce(Step(m, e0).m, es);
    OverdueRound(After(Step(m, e0).m, es), e);
  }

  lemma OverdueRound(m: Mgr, e: Event)
    requires Overdue(m, e) && !e.appValid
    ensures TryRecover(e.recovers) in Step(m, e).calls <==> !m.probeUsed
  {
    hide Expired;
  }

  // Downloads and windows

  /** Whether a download is running after an event, when `p` tells whether it was before. */
  predicate RunningAfter(p: bool, m: Mgr, e: Event) {
    match e
    case OnStart(_) => true
    case OnData(_) => p
    case PollBegin(_) => p
    case SetByShell(_) => p
    case NotifyResult(success, _) => success && p
    case PollRound(_, _, _, _) => p && !Overdue(m, e)
    case _ => false
  }

  predicate Running(m: Mgr, es: seq<Event>) {
    if es == [] then m.state == RecvState
    else
      var init := es[..|es| - 1];
      RunningAfter(Running(m, init), After(m, init), es[|es| - 1])
  }

  lemma StepRuns(m: Mgr, e: Event)
    ensures (Step(m, e).m.state == RecvState) == RunningAfter(m.state == RecvState, m, e)
  {
    hide Expired;
  }

  /** The manager receives exactly from a start event to the next finish, abort, request, failed result,
      registration or overdue round. */
  lemma {:induction false} ReceivesWhileRunning(m: Mgr, es: seq<Event>)
    ensures (After(m, es).state == RecvState) == Running(m, es)
  {
    hide Step, RunningAfter;
    if es != [] {
      ReceivesWhileRunning(m, es[..|es| - 1]);
      StepRuns(After(m, es[..|es| - 1]), es[|es| - 1]);
    }
  }

  /** Tick at which the current wait window began. */
  function WaitBegan(m: Mgr, es: seq<Event>): U32 {
    if es == [] then m.waitStart
    else
      var init, e := es[..|es| - 1], es[|es| - 1];
      match e
      case Register(_, _, _, now) => now
      case OnRequest(now) => now
      case OnFinish(_, now) => now
      case OnAbort(now) => now
      case PollBegin(now) => now
      case NotifyResult(success, now) => if success then WaitBegan(m, init) else now
      case PollRound(now, later, _, _) =>
        if !Overdue(After(m, init), e) then WaitBegan(m, init)
        else if After(m, init).state == WaitState then now else later
      case _ => WaitBegan(m, init)
  }

  lemma {:induction false} WaitTracked(m: Mgr, es: seq<Event>)
    ensures After(m, es).state == WaitState ==> After(m, es).waitStart == WaitBegan(m, es)
  {
    AfterLast(m, es);
    hide After, Expired;
    if es != [] {
      WaitTracked(m, es[..|es| - 1]);
    }
  }

  /** A waiting manager looks at the app exactly when its window, counted from where it began, has run out, and
      it stops waiting exactly when that look or the probe shows a way back. */
  lemma WaitTimeoutIsReal(m: Mgr, es: seq<Event>, e: Event)
    requires var w := After(m, es); w.state == WaitState && !w.readyFlag && e.PollRound?
    ensures var w := After(m, es);
            var due := 0 < w.waitMs <= Wrap32(e.now - WaitBegan(m, es));
            && (IsAppValid(e.appValid) in Step(w, e).calls <==> due)
            && (Step(w, e).m.state != WaitState <==> due && (e.appValid || (!w.probeUsed && e.recovers)))
            && (Step(w, e).m.state != WaitState ==> OnReadyToApp in Step(w, e).calls)
  {
    hide After, WaitBegan;
    WaitTracked(m, es);
    WaitRound(After(m, es), e);
  }

  lemma WaitRound(w: Mgr, e: Event)
    requires w.state == WaitState && !w.readyFlag && e.PollRound?
    ensures var due := Expired(e.now, w.waitStart, w.waitMs);
            && (IsAppValid(e.appValid) in Step(w, e).calls <==> due)
            && (Step(w, e).m.state != WaitState <==> due && (e.appValid || (!w.probeUsed && e.recovers)))
            && (Step(w, e).m.state != WaitState ==> OnReadyToApp in Step(w, e).calls)
  {
    hide Expired;
    var c := Step(w, e).calls;
    if |c| > 0 {
      assert c[|c| - 1] in c && c[0] in c;
    }
  }

  lemma RoundHooks(m: Mgr, e: Event)
    requires e.PollRound?
    ensures var c := Step(m, e).calls; EnterDownload !in c && LeaveDownload !in c && OnError !in c
  {
    hide Expired;
  }

  /** The download hooks: entered on every start and left on every finish and abort, and an error is reported
      exactly for a finish that failed. */
  lemma DownloadHooks(m: Mgr, e: Event)
    ensures var c := Step(m, e).calls;
            && (EnterDownload in c <==> e.OnStart?)
            && (LeaveDownload in c <==> e.OnFinish? || e.OnAbort?)
            && (OnError in c <==> e.OnFinish? && !e.ok)
  {
    hide Expired;
    if e.PollRound? {
      RoundHooks(m, e);
    } else {
      var c := Step(m, e).calls;
      assert |c| > 0 ==> c[0] in c && c[|c| - 1] in c;
    }
  }
}
