/**
 The agent's renewal protocol: `renewAllLeases` callers, and for every device the
 renewal loop, its backoff goroutines and its health checks, interleaved step by
 step. They share a token, a current server and channels that hold one signal each.
 Tokens are numbered in the order in which `renewAllLeases` takes its mutex.
 */
module RenewProtocol {
  import opened Wrappers

  // ---------- one device ----------

  /** Where the renewal loop is. */
  datatype LoopPc =
    | Select                       // waiting for a signal
    | Received                     // has one, token not read yet
    | HasToken
    | Requesting(url: string)
    | Applying
    | WantLock                     // about to lock hcMutex
    | HoldLock
    | Succeeded
    | Failed                       // about to start a backoff goroutine

  datatype BackoffPc = Starting | Waiting | Sending | Ending

  datatype CheckPc = New | Running | Firing | Exited

  datatype Check = Check(pc: CheckPc, stopToken: bool)

  datatype Lock = Free | ByLoop | ByTrigger

  /** What the loop does that bears on the choice of server. */
  datatype Event = Requested(url: string, ok: bool) | HealthSignal

  datatype Device = Device(
    urls: seq<string>,
    token: nat,
    renewChan: bool,
    healthChan: bool,
    stopBackoff: bool,
    inBackoff: bool,
    currentServer: string,
    loop: LoopPc,
    backoffs: map<nat, BackoffPc>,
    checks: map<nat, Check>,
    currentCheck: Option<nat>,
    nextId: nat,
    hcLock: Lock,
    // history
    lastRead: nat,     // newest token a renewal has started with
    triggered: nat,    // newest token a trigger was completed for
    log: seq<Event>)

  datatype LoopAction =
    | TakeRenew
    | TakeHealth
    | ReadToken
    | RejectToken      // empty or invalid, or no keys
    | TokenExpired
    | PickServer(url: string)
    | RequestFails
    | RequestSucceeds
    | ApplyFails
    | ApplySucceeds(checked: bool)
    | LockChecks
    | SwapCheck(created: bool)
    | FinishSuccess
    | FinishFailure

  datatype Action =
    | Loop(step: LoopAction)
    | BackoffBegins(id: nat)
    | BackoffExpires(id: nat)
    | BackoffSends(id: nat)
    | BackoffStopped(id: nat)
    | BackoffEnds(id: nat)
    | CheckBegins(id: nat)
    | CheckFires(id: nat)
    | CheckStopped(id: nat)
    | CheckSends(id: nat)

  function LivePc(c: Check): bool {
    c.pc.Running? || c.pc.Firing?
  }

  /** `healthCheck.Stop` on the current check: a token if it runs, never blocking. */
  function StopCurrent(d: Device): map<nat, Check> {
    if d.currentCheck.Some? && d.currentCheck.value in d.checks && LivePc(d.checks[d.currentCheck.value]) then
      d.checks[d.currentCheck.value := d.checks[d.currentCheck.value].(stopToken := true)]
    else d.checks
  }

  /** `nextServer`: the current server, or any configured one when there is none. */
  ghost predicate MayPick(d: Device, url: string) {
    if d.currentServer != "" then url == d.currentServer else url in d.urls
  }

  ghost predicate LoopStep(d: Device, a: LoopAction, d': Device) {
    d.urls != [] &&
    match a
    case TakeRenew => d.loop.Select? && d.renewChan && d' == d.(renewChan := false, loop := Received)
    case TakeHealth =>
      && d.loop.Select? && d.healthChan
      && d' == d.(healthChan := false, loop := Received, currentServer := "", log := d.log + [HealthSignal])
    case ReadToken => d.loop.Received? && d' == d.(loop := HasToken, lastRead := d.token)
    case RejectToken => d.loop.HasToken? && d' == d.(loop := Failed)
    case TokenExpired => d.loop.HasToken? && d' == d.(loop := Select)
    case PickServer(url) => d.loop.HasToken? && MayPick(d, url) && d' == d.(loop := Requesting(url))
    case RequestFails =>
      && d.loop.Requesting?
      && d' == d.(loop := Failed, currentServer := "", log := d.log + [Requested(d.loop.url, false)])
    case RequestSucceeds =>
      && d.loop.Requesting?
      && d' == d.(loop := Applying, currentServer := d.loop.url, log := d.log + [Requested(d.loop.url, true)])
    case ApplyFails => d.loop.Applying? && d' == d.(loop := Failed)
    case ApplySucceeds(checked) =>
      d.loop.Applying? && (checked ==> |d.urls| > 1) && d' == d.(loop := if checked then WantLock else Succeeded)
    case LockChecks => d.loop.WantLock? && d.hcLock.Free? && d' == d.(loop := HoldLock, hcLock := ByLoop)
    case SwapCheck(created) =>
      && d.loop.HoldLock?
      && d' == if created then
                 d.(loop := Succeeded, hcLock := Free, checks := StopCurrent(d)[d.nextId := Check(New, false)],
                    currentCheck := Some(d.nextId), nextId := d.nextId + 1)
               else d.(loop := Failed, hcLock := Free, checks := StopCurrent(d))
    case FinishSuccess => d.loop.Succeeded? && d' == d.(loop := Select)
    case FinishFailure =>
      d.loop.Failed? && d' == d.(loop := Select, backoffs := d.backoffs[d.nextId := Starting], nextId := d.nextId + 1)
  }

  ghost predicate DeviceStep(d: Device, a: Action, d': Device) {
    match a
    case Loop(step) => LoopStep(d, step, d')
    case BackoffBegins(id) =>
      id in d.backoffs && d.backoffs[id].Starting? && d' == d.(inBackoff := true, backoffs := d.backoffs[id := Waiting])
    case BackoffExpires(id) =>
      id in d.backoffs && d.backoffs[id].Waiting? && d' == d.(backoffs := d.backoffs[id := Sending])
    case BackoffSends(id) =>
      id in d.backoffs && d.backoffs[id].Sending? && !d.renewChan
        && d' == d.(renewChan := true, backoffs := d.backoffs[id := Ending])
    case BackoffStopped(id) =>
      id in d.backoffs && d.backoffs[id].Waiting? && d.stopBackoff
        && d' == d.(stopBackoff := false, backoffs := d.backoffs[id := Ending])
    case BackoffEnds(id) =>
      id in d.backoffs && d.backoffs[id].Ending? && d' == d.(inBackoff := false, backoffs := d.backoffs - {id})
    case CheckBegins(id) =>
      id in d.checks && d.checks[id].pc.New? && d' == d.(checks := d.checks[id := d.checks[id].(pc := Running)])
    case CheckFires(id) =>
      id in d.checks && d.checks[id].pc.Running? && !d.checks[id].stopToken
        && d' == d.(checks := d.checks[id := d.checks[id].(pc := Firing)])
    case CheckStopped(id) =>
      id in d.checks && d.checks[id].pc.Running? && d.checks[id].stopToken
        && d' == d.(checks := d.checks[id := Check(Exited, false)])
    case CheckSends(id) =>
      id in d.checks && d.checks[id].pc.Firing? && !d.healthChan
        && d' == d.(healthChan := true, checks := d.checks[id := d.checks[id].(pc := Exited)])
  }

  // ---------- the agent ----------

  /** Where `triggerLeaseRenewal` is on the device it is at. */
  datatype TriggerPc = WantRLock | HoldRLock | LoadFlag | SendStop | SendRenew

  /** The caller that holds `renewMu`. */
  datatype Caller = Idle | Setting(v: nat, i: nat) | Triggering(v: nat, i: nat, pc: TriggerPc)

  datatype Agent = Agent(devices: seq<Device>, caller: Caller, entered: nat, returned: nat)

  datatype Move = Enter | CallerMoves | Return | DeviceMoves(i: nat, a: Action)

  /** Only the lock can hold a trigger up; its two sends have a default branch. */
  predicate TriggerEnabled(d: Device, pc: TriggerPc) {
    pc.WantRLock? ==> d.hcLock.Free?
  }

  function TriggerEffect(d: Device, v: nat, pc: TriggerPc): Device {
    match pc
    case WantRLock => d.(hcLock := ByTrigger)
    case HoldRLock => d.(hcLock := Free, checks := StopCurrent(d))
    case LoadFlag => d
    case SendStop => d.(stopBackoff := true)
    case SendRenew => d.(renewChan := true, triggered := v)
  }

  /** The next stop on this device, or the next device. */
  function TriggerNext(d: Device, v: nat, i: nat, pc: TriggerPc): Caller {
    match pc
    case WantRLock => Triggering(v, i, HoldRLock)
    case HoldRLock => Triggering(v, i, LoadFlag)
    case LoadFlag => Triggering(v, i, if d.inBackoff then SendStop else SendRenew)
    case SendStop => Triggering(v, i, SendRenew)
    case SendRenew => Triggering(v, i + 1, WantRLock)
  }

  ghost predicate CallerStep(s: Agent, s': Agent) {
    match s.caller
    case Idle => false
    case Setting(v, i) =>
      if i < |s.devices| then
        s' == s.(devices := s.devices[i := s.devices[i].(token := v)], caller := Setting(v, i + 1))
      else
        s' == s.(caller := Triggering(v, 0, WantRLock))
    case Triggering(v, i, pc) =>
      && i < |s.devices| && TriggerEnabled(s.devices[i], pc)
      && s' == s.(devices := s.devices[i := TriggerEffect(s.devices[i], v, pc)],
         caller := TriggerNext(s.devices[i], v, i, pc))
  }

  ghost predicate AgentStep(s: Agent, m: Move, s': Agent) {
    match m
    case Enter => s.caller.Idle? && s' == s.(entered := s.entered + 1, caller := Setting(s.entered + 1, 0))
    case CallerMoves => CallerStep(s, s')
    case Return => s.caller.Triggering? && s.caller.i == |s.devices| && s' == s.(caller := Idle, returned := s.caller.v)
    case DeviceMoves(i, a) =>
      && i < |s.devices| && |s'.devices| == |s.devices|
      && DeviceStep(s.devices[i], a, s'.devices[i])
      && s' == s.(devices := s.devices[i := s'.devices[i]])
  }

  ghost predicate InitDevice(d: Device) {
    && d == Device(d.urls, 0, false, false, false, false, "", Select, map[], map[], None, 0, Free, 0, 0, [])
    && "" !in d.urls  // configurations without a peer url are rejected
  }

  ghost predicate Run(ss: seq<Agent>, moves: seq<Move>) {
    && |ss| == |moves| + 1
    && (forall i | 0 <= i < |ss[0].devices| :: InitDevice(ss[0].devices[i]))
    && ss[0].caller == Idle && ss[0].entered == ss[0].returned == 0
    && forall i | 0 <= i < |moves| :: AgentStep(ss[i], moves[i], ss[i + 1])
  }

  // ---------- invariants of one device ----------

  /** The newest triggered token is not lost: a renewal has started with it or a newer
      one, or a signal is buffered, or the loop has one and is about to read the token. */
  ghost predicate Served(d: Device, v: nat) {
    v <= d.lastRead || d.renewChan || d.loop.Received?
  }

  /** Consecutive requests go to one server, unless the first failed or a health-check
      signal came in between. */
  ghost predicate Sticky(log: seq<Event>) {
    forall i | 0 <= i < |log| - 1 && log[i].Requested? && log[i].ok && log[i + 1].Requested? ::
      log[i + 1].url == log[i].url
  }

  /** The server that holds on: that of the last event, if that was a request that succeeded.
      A failed request and a health-check signal let go of it. */
  function Holder(log: seq<Event>): string {
    if log != [] && log[|log| - 1].Requested? && log[|log| - 1].ok then log[|log| - 1].url else ""
  }

  ghost predicate ServerInv(d: Device) {
    && "" !in d.urls
    && d.currentServer == Holder(d.log)
    && (d.currentServer == "" || d.currentServer in d.urls)
    && (d.loop.Requesting? ==> d.loop.url in d.urls && (d.currentServer != "" ==> d.loop.url == d.currentServer))
    && (forall i | 0 <= i < |d.log| && d.log[i].Requested? :: d.log[i].url in d.urls)
    && Sticky(d.log)
  }

  /** Nobody but the loop starts goroutines, and nobody but it holds its lock. */
  ghost predicate ThreadInv(d: Device) {
    && (d.urls == [] ==> d.loop.Select? && d.backoffs == map[] && d.checks == map[])
    && (|d.urls| <= 1 ==> !d.loop.WantLock? && !d.loop.HoldLock? && d.checks == map[] && !d.healthChan)
    && (d.hcLock.ByLoop? <==> d.loop.HoldLock?)
  }

  ghost predicate DeviceInv(d: Device) {
    && d.lastRead <= d.token && d.triggered <= d.token
    && Served(d, d.triggered)
    && ServerInv(d) && ThreadInv(d)
  }

  /** The steps up to the request. */
  predicate IsEarly(a: LoopAction) {
    a.TakeRenew? || a.TakeHealth? || a.ReadToken? || a.RejectToken? || a.TokenExpired? || a.PickServer?
  }

  /** All that a step of the loop can touch: its tokens and signals. */
  ghost predicate TouchesSignals(d: Device, a: LoopAction, d': Device) {
    && d'.token == d.token && d'.triggered == d.triggered
    && d'.lastRead == (if a.ReadToken? then d.token else d.lastRead)
    && d'.renewChan == (d.renewChan && !a.TakeRenew?)
    && d'.healthChan == (d.healthChan && !a.TakeHealth?)
    && (d.loop.Received? <==> a.ReadToken?)
    && (d.loop.Select? <==> a.TakeRenew? || a.TakeHealth?)
    && (d'.loop.Received? <==> a.TakeRenew? || a.TakeHealth?)
  }

  lemma StepTouchesSignals(d: Device, a: LoopAction, d': Device)
    requires LoopStep(d, a, d')
    ensures TouchesSignals(d, a, d')
  {
    if IsEarly(a) {
      EarlyStepTouchesSignals(d, a, d');
    } else {
      LateStepTouchesSignals(d, a, d');
    }
  }

  lemma EarlyStepTouchesSignals(d: Device, a: LoopAction, d': Device)
    requires LoopStep(d, a, d') && IsEarly(a)
    ensures TouchesSignals(d, a, d')
  {
  }

  lemma LateStepTouchesSignals(d: Device, a: LoopAction, d': Device)
    requires LoopStep(d, a, d') && !IsEarly(a)
    ensures TouchesSignals(d, a, d')
  {
  }

  /** Its goroutines and their lock. */
  ghost predicate TouchesThreads(d: Device, a: LoopAction, d': Device) {
    && d.urls != [] && d'.urls == d.urls && d'.inBackoff == d.inBackoff
    && (a.SwapCheck? || d'.checks == d.checks)
    && (a.FinishFailure? || d'.backoffs == d.backoffs)
    && (a.SwapCheck? || a.FinishFailure? || d'.nextId == d.nextId)
    && (d.loop.HoldLock? <==> a.SwapCheck?)
    && (d'.loop.HoldLock? <==> a.LockChecks?)
    && (d'.loop.WantLock? ==> |d.urls| > 1)
    && (a.LockChecks? ==> d.hcLock.Free? && d.loop.WantLock?)
    && (d'.healthChan ==> d.healthChan)
    && d'.hcLock == (if a.LockChecks? then ByLoop else if a.SwapCheck? then Free else d.hcLock)
  }

  lemma StepTouchesThreads(d: Device, a: LoopAction, d': Device)
    requires LoopStep(d, a, d')
    ensures TouchesThreads(d, a, d')
  {
    if IsEarly(a) {
      EarlyStepTouchesThreads(d, a, d');
    } else {
      LateStepTouchesThreads(d, a, d');
    }
  }

  lemma EarlyStepTouchesThreads(d: Device, a: LoopAction, d': Device)
    requires LoopStep(d, a, d') && IsEarly(a)
    ensures TouchesThreads(d, a, d')
  {
  }

  lemma LateStepTouchesThreads(d: Device, a: LoopAction, d': Device)
    requires LoopStep(d, a, d') && !IsEarly(a)
    ensures TouchesThreads(d, a, d')
  {
  }

  /** One more event keeps the log sticky, if a request after a successful one goes to
      the same server. */
  lemma StickyExtends(log: seq<Event>, e: Event)
    requires Sticky(log)
    requires e.Requested? && log != [] && log[|log| - 1].Requested? && log[|log| - 1].ok ==> e.url == log[|log| - 1].url
    ensures Sticky(log + [e])
  {
    var all := log + [e];
    assert forall i | 0 <= i < |log| :: all[i] == log[i];
  }

  lemma ServerInvAfterRequest(d: Device, ok: bool, d': Device)
    requires ServerInv(d) && d.loop.Requesting?
    requires d' == d.(loop := d'.loop, currentServer := if ok then d.loop.url else "",
                      log := d.log + [Requested(d.loop.url, ok)])
    requires !d'.loop.Requesting?
    ensures ServerInv(d')
  {
    var e := Requested(d.loop.url, ok);
    StickyExtends(d.log, e);
    assert forall i | 0 <= i < |d.log| :: d'.log[i] == d.log[i];
  }

  lemma ServerInvAfterSignal(d: Device, d': Device)
    requires ServerInv(d) && LoopStep(d, TakeHealth, d')
    ensures ServerInv(d')
  {
    StickyExtends(d.log, HealthSignal);
    assert forall i | 0 <= i < |d.log| :: d'.log[i] == d.log[i];
  }

  lemma ServerInvFrame(d: Device, d': Device)
    requires ServerInv(d) && d'.urls == d.urls && d'.currentServer == d.currentServer && d'.log == d.log
    requires d'.loop == d.loop || !d'.loop.Requesting? || MayPick(d, d'.loop.url)
    ensures ServerInv(d')
  {
  }

  lemma OtherLoopStep(d: Device, a: LoopAction, d': Device)
    requires LoopStep(d, a, d') && !a.TakeHealth? && !a.RequestFails? && !a.RequestSucceeds?
    ensures d'.urls == d.urls && d'.currentServer == d.currentServer && d'.log == d.log
    ensures !d'.loop.Requesting? || MayPick(d, d'.loop.url)
  {
  }

  lemma ServerInvStep(d: Device, a: LoopAction, d': Device)
    requires ServerInv(d) && LoopStep(d, a, d')
    ensures ServerInv(d')
  {
    if a.TakeHealth? {
      ServerInvAfterSignal(d, d');
    } else if a.RequestFails? {
      ServerInvAfterRequest(d, false, d');
    } else if a.RequestSucceeds? {
      ServerInvAfterRequest(d, true, d');
    } else {
      OtherLoopStep(d, a, d');
      ServerInvFrame(d, d');
    }
  }

  lemma TokensStep(d: Device, a: LoopAction, d': Device)
    requires d.lastRead <= d.token && d.triggered <= d.token && Served(d, d.triggered) && TouchesSignals(d, a, d')
    ensures d'.lastRead <= d'.token && d'.triggered <= d'.token && Served(d', d'.triggered)
  {
    if d.loop.Received? {
      assert d'.lastRead == d.token;
    }
  }

  lemma ThreadInvStep(d: Device, a: LoopAction, d': Device)
    requires ThreadInv(d) && TouchesThreads(d, a, d')
    ensures ThreadInv(d')
  {
    assert d'.urls != [];
  }

  /** The goroutines of a device touch neither its tokens, its server nor its loop; the
      signal they leave only adds to the buffered ones. */
  lemma GoroutineStep(d: Device, a: Action, d': Device)
    requires !a.Loop? && DeviceStep(d, a, d')
    ensures d'.token == d.token && d'.triggered == d.triggered && d'.lastRead == d.lastRead
    ensures d'.urls == d.urls && d'.currentServer == d.currentServer && d'.log == d.log
    ensures d'.loop == d.loop && d'.hcLock == d.hcLock && (d.renewChan ==> d'.renewChan)
    ensures d.backoffs == map[] ==> d'.backoffs == map[]
    ensures d.checks == map[] ==> d'.checks == map[] && d'.healthChan == d.healthChan
  {
  }

  lemma DeviceInvStep(d: Device, a: Action, d': Device)
    requires DeviceInv(d) && DeviceStep(d, a, d')
    ensures DeviceInv(d')
  {
    if a.Loop? {
      StepTouchesSignals(d, a.step, d');
      StepTouchesThreads(d, a.step, d');
      TokensStep(d, a.step, d');
      ServerInvStep(d, a.step, d');
      ThreadInvStep(d, a.step, d');
    } else {
      GoroutineStep(d, a, d');
      ServerInvFrame(d, d');
    }
  }

  // ---------- invariants of the agent ----------

  /** The caller's progress, and who holds which device's lock. */
  ghost predicate CallerInv(s: Agent) {
    && s.returned <= s.entered
    && (forall j | 0 <= j < |s.devices| :: s.devices[j].token <= s.entered)
    && (forall j | 0 <= j < |s.devices| ::
          s.devices[j].hcLock.ByTrigger? <==> s.caller.Triggering? && s.caller.i == j && s.caller.pc.HoldRLock?)
    && match s.caller
       case Idle => forall j | 0 <= j < |s.devices| :: s.devices[j].triggered >= s.returned
       case Setting(v, i) =>
         && v == s.entered && i <= |s.devices|
         && (forall j | 0 <= j < |s.devices| :: s.devices[j].triggered >= s.returned)
         && (forall j | 0 <= j < i :: s.devices[j].token == v)
       case Triggering(v, i, pc) =>
         && v == s.entered && i <= |s.devices|
         && (forall j | 0 <= j < |s.devices| :: s.devices[j].triggered >= s.returned && s.devices[j].token == v)
         && (forall j | 0 <= j < i :: s.devices[j].triggered >= v)
  }

  ghost predicate Inv(s: Agent) {
    CallerInv(s) && forall j | 0 <= j < |s.devices| :: DeviceInv(s.devices[j])
  }

  lemma DeviceStepKeepsCaller(d: Device, a: Action, d': Device)
    requires DeviceStep(d, a, d') && ThreadInv(d)
    ensures d'.token == d.token && d'.triggered == d.triggered
    ensures d'.hcLock.ByTrigger? <==> d.hcLock.ByTrigger?
  {
    if a.Loop? {
      StepTouchesSignals(d, a.step, d');
      StepTouchesThreads(d, a.step, d');
    } else {
      GoroutineStep(d, a, d');
    }
  }

  lemma DeviceMoveKeepsInv(s: Agent, i: nat, a: Action, s': Agent)
    requires Inv(s) && AgentStep(s, DeviceMoves(i, a), s')
    ensures Inv(s')
  {
    var d, d' := s.devices[i], s'.devices[i];
    DeviceInvStep(d, a, d');
    DeviceStepKeepsCaller(d, a, d');
    ReplaceKeepsInv(s, i, d', s');
  }

  lemma ReplaceKeepsInv(s: Agent, i: nat, d': Device, s': Agent)
    requires Inv(s) && i < |s.devices| && DeviceInv(d') && s' == s.(devices := s.devices[i := d'])
    requires d'.token == s.devices[i].token && d'.triggered == s.devices[i].triggered
    requires d'.hcLock.ByTrigger? <==> s.devices[i].hcLock.ByTrigger?
    ensures Inv(s')
  {
  }

  lemma TriggerKeepsInv(d: Device, v: nat, pc: TriggerPc)
    requires DeviceInv(d) && d.token == v && TriggerEnabled(d, pc)
    requires pc.HoldRLock? ==> d.hcLock.ByTrigger?
    ensures DeviceInv(TriggerEffect(d, v, pc))
  {
  }

  lemma SettingKeepsInv(s: Agent, s': Agent)
    requires Inv(s) && s.caller.Setting? && CallerStep(s, s')
    ensures Inv(s')
  {
  }

  lemma TriggeringKeepsDevices(s: Agent, s': Agent)
    requires Inv(s) && s.caller.Triggering? && CallerStep(s, s')
    ensures forall j | 0 <= j < |s'.devices| :: DeviceInv(s'.devices[j])
  {
    var i := s.caller.i;
    TriggerKeepsInv(s.devices[i], s.caller.v, s.caller.pc);
    assert forall j | 0 <= j < |s.devices| && j != i :: s'.devices[j] == s.devices[j];
  }

  lemma TriggeringKeepsCaller(s: Agent, s': Agent)
    requires CallerInv(s) && s.caller.Triggering? && CallerStep(s, s')
    ensures CallerInv(s')
  {
    var i, v, pc := s.caller.i, s.caller.v, s.caller.pc;
    var d := s.devices[i];
    TriggerTouches(d, v, i, pc);
    assert s'.devices[i] == TriggerEffect(d, v, pc);
    assert forall j | 0 <= j < |s.devices| && j != i :: s'.devices[j] == s.devices[j];
  }

  lemma TriggerTouches(d: Device, v: nat, i: nat, pc: TriggerPc)
    ensures var d', c := TriggerEffect(d, v, pc), TriggerNext(d, v, i, pc);
            && d'.token == d.token && d'.triggered == (if pc.SendRenew? then v else d.triggered)
            && d'.hcLock == (if pc.WantRLock? then ByTrigger else if pc.HoldRLock? then Free else d.hcLock)
            && c.Triggering? && c.v == v && c.i == (if pc.SendRenew? then i + 1 else i)
            && (c.pc.HoldRLock? <==> pc.WantRLock?)
  {
  }

  lemma TriggeringKeepsInv(s: Agent, s': Agent)
    requires Inv(s) && s.caller.Triggering? && CallerStep(s, s')
    ensures Inv(s')
  {
    TriggeringKeepsDevices(s, s');
    TriggeringKeepsCaller(s, s');
  }

  lemma CallerMoveKeepsInv(s: Agent, s': Agent)
    requires Inv(s) && CallerStep(s, s')
    ensures Inv(s')
  {
    if s.caller.Setting? {
      SettingKeepsInv(s, s');
    } else if s.caller.Triggering? {
      TriggeringKeepsInv(s, s');
    }
  }

  lemma {:induction false} InvHolds(ss: seq<Agent>, moves: seq<Move>, n: nat)
    requires Run(ss, moves) && n < |ss|
    ensures Inv(ss[n])
  {
    if n > 0 {
      InvHolds(ss, moves, n - 1);
      var m := moves[n - 1];
      assert AgentStep(ss[n - 1], m, ss[n]);
      match m
      case DeviceMoves(i, a) => DeviceMoveKeepsInv(ss[n - 1], i, a, ss[n]);
      case CallerMoves => CallerMoveKeepsInv(ss[n - 1], ss[n]);
      case Enter =>
      case Return =>
    }
  }

  // ---------- main results ----------

  /** No lost renewal: once a `renewAllLeases` has returned, every device has started
      a renewal with its token or a newer one, or has a signal waiting, or has a loop
      that has taken one and will read the token next. */
  lemma NoLostRenewal(ss: seq<Agent>, moves: seq<Move>, n: nat, i: nat)
    requires Run(ss, moves) && n < |ss| && i < |ss[n].devices|
    ensures Served(ss[n].devices[i], ss[n].returned)
    ensures ss[n].devices[i].token >= ss[n].returned
  {
    InvHolds(ss, moves, n);
  }

  /** Server stickiness, over the whole log of every device in every interleaving. */
  lemma ServerIsSticky(ss: seq<Agent>, moves: seq<Move>, n: nat, i: nat)
    requires Run(ss, moves) && n < |ss| && i < |ss[n].devices|
    ensures ss[n].devices[i].currentServer == "" || ss[n].devices[i].currentServer in ss[n].devices[i].urls
    ensures Sticky(ss[n].devices[i].log)
    ensures forall k | 0 <= k < |ss[n].devices[i].log| && ss[n].devices[i].log[k].Requested? ::
              ss[n].devices[i].log[k].url in ss[n].devices[i].urls
  {
    InvHolds(ss, moves, n);
  }

  ghost predicate CanPick(d: Device, url: string) {
    exists d' :: LoopStep(d, PickServer(url), d')
  }

  /** And exactly when it is let go of: there is a current server if and only if the last
      event was a request to it that succeeded. While there is none, after a failed request
      or a health-check signal, a loop that has its token can go to any configured server;
      otherwise only to the current one. */
  lemma ServerIsReleased(ss: seq<Agent>, moves: seq<Move>, n: nat, i: nat)
    requires Run(ss, moves) && n < |ss| && i < |ss[n].devices|
    ensures var d := ss[n].devices[i];
            (d.log == [] || d.log[|d.log| - 1].HealthSignal? || !d.log[|d.log| - 1].ok) <==> d.currentServer == ""
    ensures var d := ss[n].devices[i];
            d.currentServer != "" ==> d.log[|d.log| - 1] == Requested(d.currentServer, true)
    ensures var d := ss[n].devices[i];
            d.loop.HasToken? ==>
              forall url :: CanPick(d, url) <==> if d.currentServer == "" then url in d.urls else url == d.currentServer
  {
    InvHolds(ss, moves, n);
    var d := ss[n].devices[i];
    if d.loop.HasToken? {
      forall url
        ensures CanPick(d, url) <==> if d.currentServer == "" then url in d.urls else url == d.currentServer
      {
        PickExactlyWhen(d, url);
      }
    }
  }

  lemma PickExactlyWhen(d: Device, url: string)
    requires ThreadInv(d) && d.loop.HasToken?
    ensures CanPick(d, url) <==> MayPick(d, url)
  {
    if MayPick(d, url) {
      assert LoopStep(d, PickServer(url), d.(loop := Requesting(url)));
    }
  }

  // ---------- retries ----------

  /** A failure starts one backoff goroutine, and nothing else starts any. */
  lemma BackoffStartsExactlyWhen(ss: seq<Agent>, moves: seq<Move>, n: nat, i: nat)
    requires Run(ss, moves) && n < |moves| && i < |ss[n].devices|
    ensures |ss[n + 1].devices| == |ss[n].devices|
    ensures var d, d' := ss[n].devices[i], ss[n + 1].devices[i];
            if d.loop.Failed? && !d'.loop.Failed?
            then exists id: nat :: id !in d.backoffs && d'.backoffs == d.backoffs[id := Starting]
            else d'.backoffs.Keys <= d.backoffs.Keys
  {
    IdsFreshHolds(ss, moves, n);
    assert AgentStep(ss[n], moves[n], ss[n + 1]);
    var d, d' := ss[n].devices[i], ss[n + 1].devices[i];
    match moves[n]
    case DeviceMoves(j, a) =>
      if j == i {
        DeviceStartsBackoff(d, a, d');
      }
    case CallerMoves => CallerStartsNoBackoff(ss[n], ss[n + 1], i);
    case Enter => assert d' == d;
    case Return => assert d' == d;
  }

  lemma DeviceStartsBackoff(d: Device, a: Action, d': Device)
    requires DeviceStep(d, a, d') && IdsFresh(d)
    ensures if d.loop.Failed? && !d'.loop.Failed?
            then exists id: nat :: id !in d.backoffs && d'.backoffs == d.backoffs[id := Starting]
            else d'.backoffs.Keys <= d.backoffs.Keys
  {
    if a.Loop? {
      LoopStartsBackoff(d, a.step, d');
    } else {
      GoroutineStep(d, a, d');
    }
  }

  lemma LoopStartsBackoff(d: Device, a: LoopAction, d': Device)
    requires LoopStep(d, a, d') && IdsFresh(d)
    ensures d.loop.Failed? ==> a.FinishFailure? && !d'.loop.Failed?
    ensures a.FinishFailure? ==>
              d.loop.Failed? && d.nextId !in d.backoffs && d'.backoffs == d.backoffs[d.nextId := Starting]
    ensures !a.FinishFailure? ==> d'.backoffs == d.backoffs
  {
    StepTouchesThreads(d, a, d');
  }

  lemma CallerStartsNoBackoff(s: Agent, s': Agent, i: nat)
    requires CallerStep(s, s') && i < |s.devices|
    ensures |s'.devices| == |s.devices| && s'.devices[i].backoffs == s.devices[i].backoffs
    ensures s'.devices[i].loop == s.devices[i].loop && s'.devices[i].inBackoff == s.devices[i].inBackoff
  {
    if s.caller.Triggering? {
      TriggerStartsNoBackoff(s.devices[s.caller.i], s.caller.v, s.caller.pc);
    }
  }

  lemma TriggerStartsNoBackoff(d: Device, v: nat, pc: TriggerPc)
    ensures var d' := TriggerEffect(d, v, pc);
            d'.backoffs == d.backoffs && d'.loop == d.loop && d'.inBackoff == d.inBackoff
  {
  }

  /** How a renewal ends. A refused token, a failed request or update and a health check that
      cannot be made are retried; a token that has expired and a success are not: the loop is
      back in its select, and has started no goroutine and left no signal. */
  lemma RetriedExactlyWhen(ss: seq<Agent>, moves: seq<Move>, n: nat, i: nat)
    requires Run(ss, moves) && n < |moves| && moves[n].DeviceMoves? && moves[n].i == i && moves[n].a.Loop?
    ensures i < |ss[n].devices| == |ss[n + 1].devices|
    ensures var a, d' := moves[n].a.step, ss[n + 1].devices[i];
            d'.loop.Failed? <==>
            a.RejectToken? || a.RequestFails? || a.ApplyFails? || (a.SwapCheck? && !a.created)
    ensures var a, d, d' := moves[n].a.step, ss[n].devices[i], ss[n + 1].devices[i];
            a.TokenExpired? || a.FinishSuccess? ==>
              d'.loop.Select? && d'.backoffs == d.backoffs && d'.renewChan == d.renewChan
  {
    assert AgentStep(ss[n], moves[n], ss[n + 1]);
    StepFails(ss[n].devices[i], moves[n].a.step, ss[n + 1].devices[i]);
  }

  lemma StepFails(d: Device, a: LoopAction, d': Device)
    requires LoopStep(d, a, d')
    ensures d'.loop.Failed? <==>
            a.RejectToken? || a.RequestFails? || a.ApplyFails? || (a.SwapCheck? && !a.created)
    ensures a.TokenExpired? || a.FinishSuccess? ==>
              d'.loop.Select? && d'.backoffs == d.backoffs && d'.renewChan == d.renewChan
  {
    if a.SwapCheck? || a.ApplySucceeds? {
      assert !d'.loop.Select?;
    }
  }

  /** A step of the loop of device `i`, or of one of its backoff goroutines. */
  ghost predicate LoopOrBackoffStep(s: Agent, i: nat, s': Agent) {
    exists a :: IsRetryAction(a) && AgentStep(s, DeviceMoves(i, a), s')
  }

  predicate IsRetryAction(a: Action) {
    a.Loop? || a.BackoffBegins? || a.BackoffExpires? || a.BackoffSends?
  }

  ghost predicate RetryPath(ss: seq<Agent>, i: nat) {
    ss != [] && forall k | 0 <= k < |ss| - 1 :: LoopOrBackoffStep(ss[k], i, ss[k + 1])
  }

  lemma Retry(path: seq<Agent>, i: nat, a: Action, d': Device) returns (longer: seq<Agent>)
    requires RetryPath(path, i) && i < |path[|path| - 1].devices|
    requires IsRetryAction(a)
    requires DeviceStep(path[|path| - 1].devices[i], a, d')
    ensures RetryPath(longer, i) && longer[0] == path[0] && |longer| == |path| + 1
    ensures i < |longer[|path|].devices| && longer[|path|].devices[i] == d'
  {
    var e := path[|path| - 1];
    var e' := e.(devices := e.devices[i := d']);
    longer := path + [e'];
    assert AgentStep(e, DeviceMoves(i, a), e');
    assert forall k | 0 <= k < |path| :: longer[k] == path[k];
  }

  /** After a failure a retry is within reach, whatever else happens to be blocked: steps of
      the loop and of the backoff goroutine it starts lead to the next renewal. */
  lemma RetryIsReached(ss: seq<Agent>, moves: seq<Move>, n: nat, i: nat) returns (path: seq<Agent>)
    requires Run(ss, moves) && n < |ss| && i < |ss[n].devices| && ss[n].devices[i].loop.Failed?
    ensures RetryPath(path, i) && path[0] == ss[n] && i < |path[|path| - 1].devices|
    ensures path[|path| - 1].devices[i].loop.HasToken?
  {
    InvHolds(ss, moves, n);
    path := RetryFrom(ss[n], i);
  }

  lemma RetryFrom(s: Agent, i: nat) returns (path: seq<Agent>)
    requires i < |s.devices| && s.devices[i].urls != [] && s.devices[i].loop.Failed?
    ensures RetryPath(path, i) && path[0] == s && i < |path[|path| - 1].devices|
    ensures path[|path| - 1].devices[i].loop.HasToken?
  {
    var d := s.devices[i];
    var id := d.nextId;
    d := d.(loop := Select, backoffs := d.backoffs[id := Starting], nextId := id + 1);
    path := Retry([s], i, Loop(FinishFailure), d);
    if !d.renewChan {
      path := BackoffSignals(path, i, id);
    }
    d := path[|path| - 1].devices[i];
    d := d.(renewChan := false, loop := Received);
    path := Retry(path, i, Loop(TakeRenew), d);
    d := d.(loop := HasToken, lastRead := d.token);
    path := Retry(path, i, Loop(ReadToken), d);
  }

  lemma BackoffSignals(before: seq<Agent>, i: nat, id: nat) returns (path: seq<Agent>)
    requires RetryPath(before, i) && i < |before[|before| - 1].devices|
    requires var d := before[|before| - 1].devices[i]; id in d.backoffs && d.backoffs[id].Starting? && !d.renewChan
    ensures RetryPath(path, i) && path[0] == before[0] && i < |path[|path| - 1].devices|
    ensures var d, d' := before[|before| - 1].devices[i], path[|path| - 1].devices[i];
            d'.renewChan && d'.loop == d.loop && d'.urls == d.urls
  {
    var d := before[|before| - 1].devices[i];
    d := d.(inBackoff := true, backoffs := d.backoffs[id := Waiting]);
    path := Retry(before, i, BackoffBegins(id), d);
    d := d.(backoffs := d.backoffs[id := Sending]);
    path := Retry(path, i, BackoffExpires(id), d);
    d := d.(renewChan := true, backoffs := d.backoffs[id := Ending]);
    path := Retry(path, i, BackoffSends(id), d);
  }

  /** The loop is signalled by a backoff goroutine whose time is over and by a trigger at its
      last stop, and by nothing else. */
  lemma SignalsExactlyWhen(ss: seq<Agent>, moves: seq<Move>, n: nat, i: nat)
    requires Run(ss, moves) && n < |moves| && i < |ss[n].devices| && !ss[n].devices[i].renewChan
    ensures |ss[n + 1].devices| == |ss[n].devices|
    ensures ss[n + 1].devices[i].renewChan <==>
            || (moves[n].DeviceMoves? && moves[n].i == i && moves[n].a.BackoffSends?)
            || (moves[n].CallerMoves? && ss[n].caller.Triggering? && ss[n].caller.i == i && ss[n].caller.pc.SendRenew?)
  {
    assert AgentStep(ss[n], moves[n], ss[n + 1]);
    var d, d' := ss[n].devices[i], ss[n + 1].devices[i];
    match moves[n]
    case DeviceMoves(j, a) =>
      if j == i {
        DeviceSignals(d, a, d');
      }
    case CallerMoves => CallerSignals(ss[n], ss[n + 1], i);
    case Enter => assert d' == d;
    case Return => assert d' == d;
  }

  lemma DeviceSignals(d: Device, a: Action, d': Device)
    requires DeviceStep(d, a, d') && !d.renewChan
    ensures d'.renewChan <==> a.BackoffSends?
  {
    if a.Loop? {
      StepTouchesSignals(d, a.step, d');
    }
  }

  lemma CallerSignals(s: Agent, s': Agent, i: nat)
    requires CallerStep(s, s') && i < |s.devices| && !s.devices[i].renewChan
    ensures |s'.devices| == |s.devices|
    ensures s'.devices[i].renewChan <==> s.caller.Triggering? && s.caller.i == i && s.caller.pc.SendRenew?
  {
  }

  // ---------- what a trigger stops ----------

  /** A device with one server has nothing to fail over to, and is never checked. */
  lemma OneServerIsNotChecked(ss: seq<Agent>, moves: seq<Move>, n: nat, i: nat)
    requires Run(ss, moves) && n < |ss| && i < |ss[n].devices| && |ss[n].devices[i].urls| <= 1
    ensures ss[n].devices[i].checks == map[] && !ss[n].devices[i].healthChan
  {
    InvHolds(ss, moves, n);
  }

  /** Check `id` has a stop token that it will take, or has taken it: it sends nothing. */
  ghost predicate Quiet(s: Agent, i: nat, id: nat) {
    && i < |s.devices| && id in s.devices[i].checks
    && (s.devices[i].checks[id] == Check(Running, true) || s.devices[i].checks[id].pc.Exited?)
  }

  lemma QuietInLoop(d: Device, a: LoopAction, d': Device, id: nat)
    requires LoopStep(d, a, d') && IdsFresh(d) && id in d.checks
    ensures id in d'.checks && d'.checks[id].pc == d.checks[id].pc
    ensures d.checks[id].stopToken ==> d'.checks[id].stopToken
  {
    StepTouchesThreads(d, a, d');
    if a.SwapCheck? {
      SwapKeepsPcs(d, a.created, d');
    }
  }

  lemma QuietInDevice(d: Device, a: Action, d': Device, id: nat)
    requires DeviceStep(d, a, d') && IdsFresh(d) && id in d.checks
    requires d.checks[id] == Check(Running, true) || d.checks[id].pc.Exited?
    ensures id in d'.checks && (d'.checks[id] == Check(Running, true) || d'.checks[id].pc.Exited?)
  {
    if a.Loop? {
      QuietInLoop(d, a.step, d', id);
    }
  }

  lemma QuietInTrigger(d: Device, v: nat, pc: TriggerPc, id: nat)
    requires id in d.checks && (d.checks[id] == Check(Running, true) || d.checks[id].pc.Exited?)
    ensures var d' := TriggerEffect(d, v, pc);
            id in d'.checks && (d'.checks[id] == Check(Running, true) || d'.checks[id].pc.Exited?)
  {
  }

  lemma StaysQuiet(s: Agent, m: Move, s': Agent, i: nat, id: nat)
    requires AgentStep(s, m, s') && AllIdsFresh(s) && Quiet(s, i, id)
    ensures Quiet(s', i, id)
  {
    match m
    case DeviceMoves(j, a) =>
      if j == i {
        QuietInDevice(s.devices[i], a, s'.devices[i], id);
      }
    case CallerMoves =>
      if s.caller.Triggering? && s.caller.i == i {
        QuietInTrigger(s.devices[i], s.caller.v, s.caller.pc, id);
      }
    case Enter => assert s'.devices == s.devices;
    case Return => assert s'.devices == s.devices;
  }

  lemma {:induction false} QuietForEver(ss: seq<Agent>, moves: seq<Move>, n: nat, m: nat, i: nat, id: nat)
    requires Run(ss, moves) && n <= m < |ss| && Quiet(ss[n], i, id)
    ensures Quiet(ss[m], i, id)
  {
    if n < m {
      QuietForEver(ss, moves, n, m - 1, i, id);
      IdsFreshHolds(ss, moves, m - 1);
      assert AgentStep(ss[m - 1], moves[m - 1], ss[m - 1 + 1]);
      StaysQuiet(ss[m - 1], moves[m - 1], ss[m], i, id);
    }
  }

  /** Of the checks of a device the newest is the current one. */
  ghost predicate NewestIsCurrent(d: Device) {
    d.checks != map[] ==>
      && d.currentCheck.Some? && d.currentCheck.value in d.checks
      && forall id | id in d.checks :: id <= d.currentCheck.value
  }

  ghost predicate AllNewestCurrent(s: Agent) {
    forall j | 0 <= j < |s.devices| :: NewestIsCurrent(s.devices[j])
  }

  lemma NewestInLoop(d: Device, a: LoopAction, d': Device)
    requires LoopStep(d, a, d') && IdsFresh(d) && NewestIsCurrent(d)
    ensures NewestIsCurrent(d')
  {
    StepTouchesThreads(d, a, d');
    if a.SwapCheck? {
      StopKeepsPcs(d);
    } else {
      OtherStepKeepsCurrent(d, a, d');
    }
  }

  lemma OtherStepKeepsCurrent(d: Device, a: LoopAction, d': Device)
    requires LoopStep(d, a, d') && !a.SwapCheck?
    ensures d'.currentCheck == d.currentCheck
  {
  }

  lemma NewestInDevice(d: Device, a: Action, d': Device)
    requires DeviceStep(d, a, d') && IdsFresh(d) && NewestIsCurrent(d)
    ensures NewestIsCurrent(d')
  {
    if a.Loop? {
      NewestInLoop(d, a.step, d');
    } else {
      GoroutineKeepsCurrent(d, a, d');
    }
  }

  lemma GoroutineKeepsCurrent(d: Device, a: Action, d': Device)
    requires !a.Loop? && DeviceStep(d, a, d')
    ensures d'.currentCheck == d.currentCheck && d'.checks.Keys == d.checks.Keys
  {
  }

  lemma NewestInTrigger(d: Device, v: nat, pc: TriggerPc)
    requires NewestIsCurrent(d)
    ensures NewestIsCurrent(TriggerEffect(d, v, pc))
  {
    StopKeepsPcs(d);
  }

  lemma NewestStep(s: Agent, m: Move, s': Agent)
    requires AgentStep(s, m, s') && AllIdsFresh(s) && AllNewestCurrent(s)
    ensures AllNewestCurrent(s')
  {
    match m
    case DeviceMoves(i, a) => NewestInDevice(s.devices[i], a, s'.devices[i]);
    case CallerMoves =>
      if s.caller.Triggering? {
        NewestInTrigger(s.devices[s.caller.i], s.caller.v, s.caller.pc);
      }
    case Enter => assert s'.devices == s.devices;
    case Return => assert s'.devices == s.devices;
  }

  /** In every run the check that a trigger or the loop stops is the one started last. */
  lemma {:induction false} NewestCheckIsCurrent(ss: seq<Agent>, moves: seq<Move>, n: nat)
    requires Run(ss, moves) && n < |ss|
    ensures AllNewestCurrent(ss[n])
  {
    if n > 0 {
      NewestCheckIsCurrent(ss, moves, n - 1);
      IdsFreshHolds(ss, moves, n - 1);
      assert AgentStep(ss[n - 1], moves[n - 1], ss[n - 1 + 1]);
      NewestStep(ss[n - 1], moves[n - 1], ss[n]);
    }
  }

  /** A trigger that has the lock of device `i`, or its loop replacing the check. */
  ghost predicate StopsCheck(s: Agent, m: Move, i: nat) {
    || (m.CallerMoves? && s.caller.Triggering? && s.caller.i == i && s.caller.pc.HoldRLock?)
    || (m.DeviceMoves? && m.i == i && m.a.Loop? && m.a.step.SwapCheck?)
  }

  lemma StoppedIsQuiet(s: Agent, m: Move, s': Agent, i: nat)
    requires AgentStep(s, m, s') && AllIdsFresh(s) && i < |s.devices| && StopsCheck(s, m, i)
    requires var d := s.devices[i];
             d.currentCheck.Some? && d.currentCheck.value in d.checks && d.checks[d.currentCheck.value].pc.Running?
    ensures Quiet(s', i, s.devices[i].currentCheck.value)
  {
    var d := s.devices[i];
    var id := d.currentCheck.value;
    assert id in StopCurrent(d) && StopCurrent(d)[id] == Check(Running, true);
  }

  /** A running check that is stopped, by a trigger or because the loop replaces it, never
      sends a renewal signal after that: it does nothing but take its token. */
  lemma StoppedCheckNeverFires(ss: seq<Agent>, moves: seq<Move>, n: nat, m: nat, i: nat)
    requires Run(ss, moves) && n < m < |ss| && i < |ss[n].devices| && StopsCheck(ss[n], moves[n], i)
    requires var d := ss[n].devices[i];
             d.currentCheck.Some? && d.currentCheck.value in d.checks && d.checks[d.currentCheck.value].pc.Running?
    ensures Quiet(ss[m], i, ss[n].devices[i].currentCheck.value)
  {
    IdsFreshHolds(ss, moves, n);
    assert AgentStep(ss[n], moves[n], ss[n + 1]);
    StoppedIsQuiet(ss[n], moves[n], ss[n + 1], i);
    QuietForEver(ss, moves, n + 1, m, i, ss[n].devices[i].currentCheck.value);
  }

  /** A trigger that finds a backoff in progress stops it: two steps on, every goroutine of the
      device that waits can end without sending anything. One that finds none goes on to its
      last stop. */
  lemma TriggerStopsBackoff(s: Agent, s1: Agent, s2: Agent)
    requires s.caller.Triggering? && s.caller.i < |s.devices| && s.caller.pc.LoadFlag?
    requires AgentStep(s, CallerMoves, s1) && AgentStep(s1, CallerMoves, s2)
    ensures var i, d := s.caller.i, s.devices[s.caller.i];
            if d.inBackoff then
              && s2.caller == Triggering(s.caller.v, i, SendRenew) && i < |s2.devices|
              && s2.devices[i].renewChan == d.renewChan
              && forall id | id in d.backoffs && d.backoffs[id].Waiting? ::
                   StopsQuietly(s2.devices[i], id)
            else s2.devices[i].renewChan && s2.devices[i].stopBackoff == d.stopBackoff
  {
    var i, d := s.caller.i, s.devices[s.caller.i];
    if d.inBackoff {
      assert s1.devices[i] == d && s2.devices[i] == d.(stopBackoff := true);
      forall id | id in d.backoffs && d.backoffs[id].Waiting?
        ensures StopsQuietly(s2.devices[i], id)
      {
        var e := s2.devices[i];
        assert DeviceStep(e, BackoffStopped(id), e.(stopBackoff := false, backoffs := e.backoffs[id := Ending]));
      }
    }
  }

  ghost predicate StopsQuietly(d: Device, id: nat) {
    exists d' :: DeviceStep(d, BackoffStopped(id), d') && d'.renewChan == d.renewChan
                 && id in d'.backoffs && d'.backoffs[id].Ending?
  }

  // ---------- the backoff flag ----------

  ghost predicate AtMostOneBackoff(d: Device) {
    forall a, b | a in d.backoffs && b in d.backoffs :: a == b
  }

  /** The flag says that a backoff goroutine is past its first step. */
  ghost predicate FlagIsRight(d: Device) {
    d.inBackoff <==> exists id :: id in d.backoffs && !d.backoffs[id].Starting?
  }

  lemma FlagInDevice(d: Device, a: Action, d': Device)
    requires DeviceStep(d, a, d') && IdsFresh(d) && FlagIsRight(d) && AtMostOneBackoff(d) && AtMostOneBackoff(d')
    ensures FlagIsRight(d')
  {
    if a.Loop? {
      LoopStartsBackoff(d, a.step, d');
      StepTouchesThreads(d, a.step, d');
      if a.step.FinishFailure? {
        OnlyOne(d, d.nextId, d');
      }
    } else {
      GoroutineKeepsFlag(d, a, d');
    }
  }

  lemma OnlyOne(d: Device, id: nat, d': Device)
    requires d'.backoffs == d.backoffs[id := Starting] && id !in d.backoffs && AtMostOneBackoff(d')
    ensures d.backoffs == map[]
  {
    assert id in d'.backoffs;
    assert forall k | k in d.backoffs :: k in d'.backoffs;
    assert forall k :: k !in d.backoffs;
  }

  lemma GoroutineKeepsFlag(d: Device, a: Action, d': Device)
    requires !a.Loop? && DeviceStep(d, a, d') && FlagIsRight(d) && AtMostOneBackoff(d)
    ensures FlagIsRight(d')
  {
    if a.BackoffBegins? || a.BackoffExpires? || a.BackoffSends? || a.BackoffStopped? {
      assert a.id in d'.backoffs && !d'.backoffs[a.id].Starting?;
      assert !a.BackoffBegins? ==> a.id in d.backoffs && !d.backoffs[a.id].Starting?;
    } else if a.BackoffEnds? {
      assert forall id | id in d.backoffs :: id == a.id;
    } else {
      assert d'.backoffs == d.backoffs;
    }
  }

  /** While the backoff goroutines of a device do not overlap, a trigger finds the flag set
      exactly when there is one to be stopped. */
  lemma {:induction false} FlagIsRightWithoutOverlap(ss: seq<Agent>, moves: seq<Move>, n: nat, i: nat)
    requires Run(ss, moves) && n < |ss| && i < |ss[n].devices|
    requires forall k | 0 <= k <= n :: |ss[k].devices| == |ss[n].devices| && AtMostOneBackoff(ss[k].devices[i])
    ensures FlagIsRight(ss[n].devices[i])
  {
    if n > 0 {
      FlagIsRightWithoutOverlap(ss, moves, n - 1, i);
      IdsFreshHolds(ss, moves, n - 1);
      assert AgentStep(ss[n - 1], moves[n - 1], ss[n - 1 + 1]);
      FlagStep(ss[n - 1], moves[n - 1], ss[n], i);
    }
  }

  lemma FlagStep(s: Agent, m: Move, s': Agent, i: nat)
    requires AgentStep(s, m, s') && AllIdsFresh(s) && i < |s.devices| == |s'.devices|
    requires FlagIsRight(s.devices[i]) && AtMostOneBackoff(s.devices[i]) && AtMostOneBackoff(s'.devices[i])
    ensures FlagIsRight(s'.devices[i])
  {
    var d, d' := s.devices[i], s'.devices[i];
    match m
    case DeviceMoves(j, a) =>
      if j == i {
        FlagInDevice(d, a, d');
      }
    case CallerMoves => CallerStartsNoBackoff(s, s', i);
    case Enter => assert d' == d;
    case Return => assert d' == d;
  }

  // ---------- freedom from deadlock ----------

  /** How many of its own steps the loop is from its select, at most. */
  function Distance(pc: LoopPc): nat {
    match pc
    case Select => 0
    case Succeeded => 1
    case Failed => 1
    case HoldLock => 2
    case WantLock => 3
    case Applying => 4
    case Requesting(_) => 5
    case HasToken => 6
    case Received => 7
  }

  /** Whatever the outcomes, each step brings the loop closer to its select. */
  lemma LoopComesBack(d: Device, a: LoopAction, d': Device)
    requires LoopStep(d, a, d') && !d.loop.Select?
    ensures Distance(d'.loop) < Distance(d.loop)
  {
    match a
    case SwapCheck(_) => assert d'.loop.Succeeded? || d'.loop.Failed?;
    case ApplySucceeds(_) => assert d'.loop.WantLock? || d'.loop.Succeeded?;
    case PickServer(_) => assert d'.loop.Requesting?;
    case _ =>
  }

  /** Goroutine ids are never reused. */
  ghost predicate IdsFresh(d: Device) {
    (forall id | id in d.backoffs :: id < d.nextId) && (forall id | id in d.checks :: id < d.nextId)
  }

  lemma FailureKeepsBackoffs(d: Device, d': Device)
    requires LoopStep(d, FinishFailure, d') && IdsFresh(d)
    ensures forall id | id in d.backoffs :: id in d'.backoffs && d'.backoffs[id] == d.backoffs[id]
  {
  }

  lemma SwapKeepsPcs(d: Device, created: bool, d': Device)
    requires LoopStep(d, SwapCheck(created), d') && IdsFresh(d)
    ensures forall id | id in d.checks :: id in d'.checks && d'.checks[id].pc == d.checks[id].pc
  {
    StopKeepsPcs(d);
  }

  /** A step outside the select leaves the channels and all other goroutines alone. */
  lemma LoopTouchesNoSender(d: Device, a: LoopAction, d': Device)
    requires LoopStep(d, a, d') && !d.loop.Select? && IdsFresh(d)
    ensures d'.renewChan == d.renewChan && d'.healthChan == d.healthChan && d'.urls == d.urls && d'.token == d.token
    ensures forall id | id in d.backoffs :: id in d'.backoffs && d'.backoffs[id] == d.backoffs[id]
    ensures forall id | id in d.checks :: id in d'.checks && d'.checks[id].pc == d.checks[id].pc
  {
    StepTouchesSignals(d, a, d');
    StepTouchesThreads(d, a, d');
    if a.SwapCheck? {
      SwapKeepsPcs(d, a.created, d');
    } else if a.FinishFailure? {
      FailureKeepsBackoffs(d, d');
    }
  }

  lemma StopKeepsPcs(d: Device)
    ensures StopCurrent(d).Keys == d.checks.Keys
    ensures forall id | id in d.checks :: StopCurrent(d)[id].pc == d.checks[id].pc
  {
  }

  /** A step the loop can take, for an outcome in its favour. */
  function NextMove(d: Device): (LoopAction, Device)
    requires d.urls != [] && !d.loop.Select?
  {
    match d.loop
    case Received => (ReadToken, d.(loop := HasToken, lastRead := d.token))
    case HasToken =>
      var url := if d.currentServer != "" then d.currentServer else d.urls[0];
      (PickServer(url), d.(loop := Requesting(url)))
    case Requesting(url) =>
      (RequestSucceeds, d.(loop := Applying, currentServer := url, log := d.log + [Requested(url, true)]))
    case Applying => (ApplySucceeds(false), d.(loop := Succeeded))
    case WantLock => (LockChecks, d.(loop := HoldLock, hcLock := ByLoop))
    case HoldLock => (SwapCheck(false), d.(loop := Failed, hcLock := Free, checks := StopCurrent(d)))
    case Succeeded => (FinishSuccess, d.(loop := Select))
    case Failed =>
      (FinishFailure, d.(loop := Select, backoffs := d.backoffs[d.nextId := Starting], nextId := d.nextId + 1))
  }

  /** The loop is never stuck outside its select: it can step, or waits for a lock that
      a trigger holds. It sends on no channel. */
  lemma LoopCanStep(d: Device)
    requires ThreadInv(d) && !d.loop.Select? && !(d.loop.WantLock? && d.hcLock.ByTrigger?)
    ensures d.urls != [] && LoopStep(d, NextMove(d).0, NextMove(d).1)
  {
  }

  ghost predicate CallerCanMove(s: Agent) {
    exists s' :: AgentStep(s, CallerMoves, s')
  }

  ghost predicate LoopCanUnlock(d: Device) {
    exists a, d' :: LoopStep(d, a, d') && d'.hcLock.Free?
  }

  ghost predicate CanDo(d: Device, a: Action) {
    exists d' :: DeviceStep(d, a, d')
  }

  /** A trigger never blocks on a send: it can always step, except while it waits for a
      lock that the loop holds, and then the loop can release it. */
  lemma TriggerNeverBlocksOnSend(ss: seq<Agent>, moves: seq<Move>, n: nat)
    requires Run(ss, moves) && n < |ss| && ss[n].caller.Triggering? && ss[n].caller.i < |ss[n].devices|
    ensures var s := ss[n];
            var d := s.devices[s.caller.i];
            CallerCanMove(s) || (s.caller.pc.WantRLock? && d.hcLock.ByLoop? && LoopCanUnlock(d))
  {
    InvHolds(ss, moves, n);
    var s := ss[n];
    var i, v, pc := s.caller.i, s.caller.v, s.caller.pc;
    var d := s.devices[i];
    if TriggerEnabled(d, pc) {
      var s' := s.(devices := s.devices[i := TriggerEffect(d, v, pc)], caller := TriggerNext(d, v, i, pc));
      assert AgentStep(s, CallerMoves, s');
    } else {
      var d' := d.(loop := Failed, hcLock := Free, checks := StopCurrent(d));
      assert LoopStep(d, SwapCheck(false), d');
    }
  }

  ghost predicate CallerOrLoopStep(s: Agent, i: nat, s': Agent) {
    AgentStep(s, CallerMoves, s') || exists a :: AgentStep(s, DeviceMoves(i, Loop(a)), s')
  }

  /** A path of steps of the loop of device `i` and of the caller only. */
  ghost predicate Path(ss: seq<Agent>, i: nat) {
    ss != [] && forall k | 0 <= k < |ss| - 1 :: CallerOrLoopStep(ss[k], i, ss[k + 1])
  }

  /** Device `i` has the same token, and the same senders waiting on the same channels. */
  ghost predicate SameSenders(s: Agent, s': Agent, i: nat) {
    && i < |s.devices| == |s'.devices|
    && var d, d' := s.devices[i], s'.devices[i];
       && d'.renewChan == d.renewChan && d'.healthChan == d.healthChan && d'.urls == d.urls && d'.token == d.token
       && (forall id | id in d.backoffs && d.backoffs[id].Sending? :: id in d'.backoffs && d'.backoffs[id].Sending?)
       && (forall id | id in d.checks && d.checks[id].pc.Firing? :: id in d'.checks && d'.checks[id].pc.Firing?)
  }

  ghost predicate AllIdsFresh(s: Agent) {
    forall j | 0 <= j < |s.devices| :: IdsFresh(s.devices[j])
  }

  lemma IdsStayFreshInLoop(d: Device, a: LoopAction, d': Device)
    requires IdsFresh(d) && LoopStep(d, a, d')
    ensures IdsFresh(d')
  {
    StepTouchesThreads(d, a, d');
    match a
    case SwapCheck(_) =>
      StopKeepsPcs(d);
      assert d'.backoffs == d.backoffs && d'.checks.Keys <= d.checks.Keys + {d.nextId};
    case FinishFailure =>
      assert d'.checks == d.checks && d'.backoffs.Keys == d.backoffs.Keys + {d.nextId};
    case _ =>
      assert d'.checks == d.checks && d'.backoffs == d.backoffs && d'.nextId == d.nextId;
  }

  lemma IdsStayFreshInDevice(d: Device, a: Action, d': Device)
    requires IdsFresh(d) && DeviceStep(d, a, d')
    ensures IdsFresh(d')
  {
    if a.Loop? {
      IdsStayFreshInLoop(d, a.step, d');
    }
  }

  lemma TriggerKeepsIds(d: Device, v: nat, pc: TriggerPc)
    requires IdsFresh(d)
    ensures IdsFresh(TriggerEffect(d, v, pc))
  {
    StopKeepsPcs(d);
  }

  lemma IdsStayFresh(s: Agent, m: Move, s': Agent)
    requires AllIdsFresh(s) && AgentStep(s, m, s')
    ensures AllIdsFresh(s')
  {
    match m
    case DeviceMoves(i, a) => IdsStayFreshInDevice(s.devices[i], a, s'.devices[i]);
    case CallerMoves =>
      if s.caller.Triggering? {
        TriggerKeepsIds(s.devices[s.caller.i], s.caller.v, s.caller.pc);
      }
    case Enter => assert s'.devices == s.devices;
    case Return => assert s'.devices == s.devices;
  }

  lemma {:induction false} IdsFreshHolds(ss: seq<Agent>, moves: seq<Move>, n: nat)
    requires Run(ss, moves) && n < |ss|
    ensures AllIdsFresh(ss[n])
  {
    if n > 0 {
      IdsFreshHolds(ss, moves, n - 1);
      IdsStayFresh(ss[n - 1], moves[n - 1], ss[n]);
    }
  }

  /** A step towards the select: the loop's own, or the trigger giving up the lock. */
  lemma StepTowardsSelect(s: Agent, i: nat) returns (m: Move, s': Agent)
    requires Inv(s) && AllIdsFresh(s) && i < |s.devices| && !s.devices[i].loop.Select?
    ensures AgentStep(s, m, s') && (m == CallerMoves || exists a :: m == DeviceMoves(i, Loop(a)))
    ensures SameSenders(s, s', i)
    ensures 2 * Distance(s'.devices[i].loop) + (if s'.devices[i].hcLock.ByTrigger? then 1 else 0)
            < 2 * Distance(s.devices[i].loop) + (if s.devices[i].hcLock.ByTrigger? then 1 else 0)
  {
    var d := s.devices[i];
    if d.loop.WantLock? && d.hcLock.ByTrigger? {
      m := CallerMoves;
      s' := s.(devices := s.devices[i := TriggerEffect(d, s.caller.v, HoldRLock)],
        caller := Triggering(s.caller.v, i, LoadFlag));
    } else {
      LoopCanStep(d);
      var (a, d') := NextMove(d);
      LoopComesBack(d, a, d');
      LoopTouchesNoSender(d, a, d');
      m := DeviceMoves(i, Loop(a));
      s' := s.(devices := s.devices[i := d']);
    }
  }

  lemma {:induction false} ReachesSelect(s: Agent, i: nat) returns (path: seq<Agent>)
    requires Inv(s) && AllIdsFresh(s) && i < |s.devices|
    ensures Path(path, i) && path[0] == s
    ensures var e := path[|path| - 1]; Inv(e) && SameSenders(s, e, i) && e.devices[i].loop.Select?
    decreases 2 * Distance(s.devices[i].loop) + (if s.devices[i].hcLock.ByTrigger? then 1 else 0)
  {
    if s.devices[i].loop.Select? {
      path := [s];
    } else {
      var m, s' := StepTowardsSelect(s, i);
      StepKeepsAll(s, i, m, s');
      var rest := ReachesSelect(s', i);
      path := Prepend(s, rest, i);
    }
  }

  lemma StepKeepsAll(s: Agent, i: nat, m: Move, s': Agent)
    requires Inv(s) && AllIdsFresh(s) && AgentStep(s, m, s')
    requires m == CallerMoves || exists a :: m == DeviceMoves(i, Loop(a))
    ensures Inv(s') && AllIdsFresh(s') && CallerOrLoopStep(s, i, s')
  {
    IdsStayFresh(s, m, s');
    if m == CallerMoves {
      CallerMoveKeepsInv(s, s');
    } else {
      DeviceMoveKeepsInv(s, i, m.a, s');
    }
  }

  lemma Prepend(s: Agent, rest: seq<Agent>, i: nat) returns (path: seq<Agent>)
    requires Path(rest, i) && CallerOrLoopStep(s, i, rest[0])
    ensures Path(path, i) && path[0] == s && path[|path| - 1] == rest[|rest| - 1]
  {
    path := [s] + rest;
    assert forall k | 0 < k < |path| :: path[k] == rest[k - 1];
  }

  /** No deadlock: in every reachable state, a backoff goroutine blocked on its send
      can be released by steps of the loop and the caller alone, after which its send
      is enabled; and so can a health check. */
  lemma BlockedSenderIsReleased(ss: seq<Agent>, moves: seq<Move>, n: nat, i: nat) returns (path: seq<Agent>)
    requires Run(ss, moves) && n < |ss| && i < |ss[n].devices|
    requires ss[n].devices[i].renewChan
    requires exists id :: id in ss[n].devices[i].backoffs && ss[n].devices[i].backoffs[id].Sending?
    ensures Path(path, i) && path[0] == ss[n]
    ensures i < |path[|path| - 1].devices|
    ensures forall id | id in ss[n].devices[i].backoffs && ss[n].devices[i].backoffs[id].Sending? ::
              CanDo(path[|path| - 1].devices[i], BackoffSends(id))
  {
    InvHolds(ss, moves, n);
    IdsFreshHolds(ss, moves, n);
    path := ReachesSelect(ss[n], i);
    var e := path[|path| - 1];
    var d := e.devices[i];
    assert d.urls != [];
    var d' := d.(renewChan := false, loop := Received);
    path := Extend(path, i, TakeRenew, d');
    forall id | id in ss[n].devices[i].backoffs && ss[n].devices[i].backoffs[id].Sending?
      ensures CanDo(d', BackoffSends(id))
    {
      assert DeviceStep(d', BackoffSends(id), d'.(renewChan := true, backoffs := d'.backoffs[id := Ending]));
    }
  }

  /** A renewal is always within reach: in every reachable state, once a `renewAllLeases`
      has returned, steps of the loop and the caller alone bring a device with servers to
      start a renewal with that token or a newer one. */
  lemma RenewalIsReached(ss: seq<Agent>, moves: seq<Move>, n: nat, i: nat) returns (path: seq<Agent>)
    requires Run(ss, moves) && n < |ss| && i < |ss[n].devices| && ss[n].devices[i].urls != []
    ensures Path(path, i) && path[0] == ss[n] && i < |path[|path| - 1].devices|
    ensures path[|path| - 1].devices[i].lastRead >= ss[n].returned
  {
    NoLostRenewal(ss, moves, n, i);
    path := [ss[n]];
    if ss[n].devices[i].lastRead < ss[n].returned {
      if !ss[n].devices[i].loop.Received? {
        InvHolds(ss, moves, n);
        IdsFreshHolds(ss, moves, n);
        path := ReachesSelect(ss[n], i);
        var d := path[|path| - 1].devices[i];
        path := Extend(path, i, TakeRenew, d.(renewChan := false, loop := Received));
      }
      var d := path[|path| - 1].devices[i];
      path := Extend(path, i, ReadToken, d.(loop := HasToken, lastRead := d.token));
    }
  }

  lemma BlockedCheckIsReleased(ss: seq<Agent>, moves: seq<Move>, n: nat, i: nat) returns (path: seq<Agent>)
    requires Run(ss, moves) && n < |ss| && i < |ss[n].devices|
    requires ss[n].devices[i].healthChan
    requires exists id :: id in ss[n].devices[i].checks && ss[n].devices[i].checks[id].pc.Firing?
    ensures Path(path, i) && path[0] == ss[n]
    ensures i < |path[|path| - 1].devices|
    ensures forall id | id in ss[n].devices[i].checks && ss[n].devices[i].checks[id].pc.Firing? ::
              CanDo(path[|path| - 1].devices[i], CheckSends(id))
  {
    InvHolds(ss, moves, n);
    IdsFreshHolds(ss, moves, n);
    path := ReachesSelect(ss[n], i);
    var e := path[|path| - 1];
    var d := e.devices[i];
    assert d.urls != [];
    var d' := d.(healthChan := false, loop := Received, currentServer := "", log := d.log + [HealthSignal]);
    path := Extend(path, i, TakeHealth, d');
    forall id | id in ss[n].devices[i].checks && ss[n].devices[i].checks[id].pc.Firing?
      ensures CanDo(d', CheckSends(id))
    {
      assert DeviceStep(d', CheckSends(id),
             d'.(healthChan := true, checks := d'.checks[id := d'.checks[id].(pc := Exited)]));
    }
  }

  /** A step of the loop of device `i`, of the caller, or of a check that sends its signal. */
  ghost predicate FailoverStep(s: Agent, i: nat, s': Agent) {
    CallerOrLoopStep(s, i, s') || exists id :: AgentStep(s, DeviceMoves(i, CheckSends(id)), s')
  }

  ghost predicate FailoverPath(ss: seq<Agent>, i: nat) {
    ss != [] && forall k | 0 <= k < |ss| - 1 :: FailoverStep(ss[k], i, ss[k + 1])
  }

  lemma FailoverExtend(path: seq<Agent>, i: nat, e: Agent) returns (longer: seq<Agent>)
    requires FailoverPath(path, i) && FailoverStep(path[|path| - 1], i, e)
    ensures FailoverPath(longer, i) && longer[0] == path[0] && longer[|longer| - 1] == e
  {
    longer := path + [e];
    assert forall k | 0 <= k < |path| :: longer[k] == path[k];
  }

  lemma SendCheck(path: seq<Agent>, i: nat, id: nat) returns (longer: seq<Agent>)
    requires FailoverPath(path, i) && i < |path[|path| - 1].devices|
    requires var d := path[|path| - 1].devices[i]; id in d.checks && d.checks[id].pc.Firing? && d.loop.Select?
    ensures FailoverPath(longer, i) && longer[0] == path[0] && i < |longer[|longer| - 1].devices|
    ensures var d, d' := path[|path| - 1].devices[i], longer[|longer| - 1].devices[i];
            d'.loop.Select? && d'.healthChan && d'.urls == d.urls
  {
    var e := path[|path| - 1];
    var d := e.devices[i];
    if d.healthChan {
      longer := path;
    } else {
      var d' := d.(healthChan := true, checks := d.checks[id := d.checks[id].(pc := Exited)]);
      var e' := e.(devices := e.devices[i := d']);
      assert DeviceStep(d, CheckSends(id), d');
      assert AgentStep(e, DeviceMoves(i, CheckSends(id)), e');
      longer := FailoverExtend(path, i, e');
    }
  }

  lemma TakeSignal(path: seq<Agent>, i: nat) returns (longer: seq<Agent>)
    requires FailoverPath(path, i) && i < |path[|path| - 1].devices|
    requires var d := path[|path| - 1].devices[i]; d.loop.Select? && d.healthChan && d.urls != []
    ensures FailoverPath(longer, i) && longer[0] == path[0] && i < |longer[|longer| - 1].devices|
    ensures var d := longer[|longer| - 1].devices[i]; d.loop.Received? && d.currentServer == ""
  {
    var e := path[|path| - 1];
    var d := e.devices[i];
    var d' := d.(healthChan := false, loop := Received, currentServer := "", log := d.log + [HealthSignal]);
    var e' := e.(devices := e.devices[i := d']);
    assert AgentStep(e, DeviceMoves(i, Loop(TakeHealth)), e');
    longer := FailoverExtend(path, i, e');
  }

  /** Failover is within reach: in every reachable state, from a health check that has given
      its peer up, steps of the loop, of the caller and of that check lead to a renewal for
      which any server can be asked. */
  lemma FailoverIsReached(ss: seq<Agent>, moves: seq<Move>, n: nat, i: nat, id: nat) returns (path: seq<Agent>)
    requires Run(ss, moves) && n < |ss| && i < |ss[n].devices|
    requires id in ss[n].devices[i].checks && ss[n].devices[i].checks[id].pc.Firing?
    ensures FailoverPath(path, i) && path[0] == ss[n] && i < |path[|path| - 1].devices|
    ensures var d := path[|path| - 1].devices[i]; d.loop.Received? && d.currentServer == ""
  {
    InvHolds(ss, moves, n);
    IdsFreshHolds(ss, moves, n);
    path := ReachesSelect(ss[n], i);
    assert path[|path| - 1].devices[i].urls != [];
    path := SendCheck(path, i, id);
    path := TakeSignal(path, i);
  }

  lemma Extend(path: seq<Agent>, i: nat, a: LoopAction, d': Device) returns (longer: seq<Agent>)
    requires Path(path, i) && i < |path[|path| - 1].devices|
    requires LoopStep(path[|path| - 1].devices[i], a, d')
    ensures Path(longer, i) && longer[0] == path[0] && |longer| == |path| + 1
    ensures i < |longer[|path|].devices| && longer[|path|].devices[i] == d'
  {
    var e := path[|path| - 1];
    var e' := e.(devices := e.devices[i := d']);
    longer := path + [e'];
    assert AgentStep(e, DeviceMoves(i, Loop(a)), e');
    assert forall k | 0 <= k < |path| :: longer[k] == path[k];
  }
}
