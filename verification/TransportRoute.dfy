/**
 When a client leaves the direct path for VEIL and when it comes back. The reducer lives on the
 platforms; the shared vectors and the comments beside them fix it, and `Step` is the table they
 fix. Cells marked (assumed) are decided by neither and repeat the nearest row; a cell that neither
 decides and that is not marked stays as it is, without effects. A row decided in one mode is read as
 the rule of every mode, unless another row or comment says otherwise.
 */
module TransportRoute {
  import opened Outcomes

  datatype Lane = Auth | Sealed

  datatype Via = ViaDirect | ViaVeil

  datatype Mode = Auto | On | Off

  datatype Config = Config(
    directFailThreshold: nat,
    midSessionDeathWeight: nat,
    allowDirectToVeilEscalation: bool,
    veilCooldownMs: nat,
    veilSoftFailThreshold: nat)

  datatype SoftFails = SoftFails(auth: nat, sealed: nat) {
    function Of(lane: Lane): nat {
      if lane.Auth? then auth else sealed
    }

    function With(lane: Lane, n: nat): SoftFails {
      if lane.Auth? then this.(auth := n) else this.(sealed := n)
    }
  }

  datatype State =
    | Direct(fails: nat)
    | Probing
    | Active(relay: string, port: nat, sinceMs: nat, softFails: SoftFails)
    | Cooldown(untilMs: nat)
    | Offline

  datatype RpcFailure =
    | TransportUnknown
    | StreamTimeout
    | ApplicationError
    | AuthRejected
    | StaleLocalProxy
    | TlsFingerprintBlocked
    | TlsCertExpired
    | WebTunnelBlocked

  datatype StreamFailure =
    | MidSessionTimeout
    | MidSessionClosed
    | MidSessionUnknown
    | WriteFailed
    | OpenTimeout
    | StreamTransportUnknown

  datatype Event =
    | RpcFailed(rpcFailure: RpcFailure, via: Via, foreground: bool, lane: Lane)
    | RpcSucceeded(via: Via, lane: Lane)
    | StreamFailed(streamFailure: StreamFailure, via: Via)
    | StreamOpened(via: Via)
    | VeilModeChanged
    | NetworkPathChanged(reachable: bool)
    | ProxyStarted(relay: string, port: nat)
    | ProxyStartFailed
    | CooldownElapsed
    | BackgroundWake
    | VeilConfigChanged
    | ManualReset

  datatype Effect =
    | RequestProxyStop
    | RequestProxyStart
    | InvalidateGrpcClient
    | SetVeilPort(port: Option<nat>)
    | DemoteRelay(relay: string)
    | ScheduleCooldownEnd(atMs: nat)

  const STOP := RequestProxyStop
  const START := RequestProxyStart
  const INVALIDATE := InvalidateGrpcClient
  const UNROUTE := SetVeilPort(None)
  const ROTATE := [STOP, UNROUTE, START, INVALIDATE]
  const LEAVE_VEIL := [STOP, UNROUTE, INVALIDATE]

  // ---- The table ----

  function Initial(mode: Mode, reachable: bool): State {
    if !reachable then Offline else if mode.On? then Probing else Direct(0)
  }

  /** A failure that is VEIL's but soft: the connection died, the front may still carry. */
  predicate IsSoft(f: RpcFailure) {
    f in {TransportUnknown, StreamTimeout}
  }

  /** A failure that blames the front. */
  predicate BlamesFront(f: RpcFailure) {
    f in {TlsFingerprintBlocked, TlsCertExpired, WebTunnelBlocked}
  }

  predicate MidSession(f: StreamFailure) {
    f in {MidSessionTimeout, MidSessionClosed, MidSessionUnknown, WriteFailed}
  }

  /** Where leaving VEIL, or starting over, lands: never on the direct path under `on`. */
  function Restart(mode: Mode, effects: seq<Effect>): (State, seq<Effect>) {
    if mode.On? then (Probing, effects + [START]) else (Direct(0), effects)
  }

  function Stay(s: State): (State, seq<Effect>) {
    (s, [])
  }

  /** A failure on the direct path, `weight` towards leaving it. */
  function DirectFailure(cfg: Config, mode: Mode, fails: nat, weight: nat): (State, seq<Effect>) {
    if !mode.Off? && cfg.allowDirectToVeilEscalation && fails + weight >= cfg.directFailThreshold
    then (Probing, [START, INVALIDATE])
    else (Direct(fails + weight), [])
  }

  /** A foreground RPC failed through VEIL. */
  function VeilFailure(cfg: Config, s: State, f: RpcFailure, lane: Lane): (State, seq<Effect>)
    requires s.Active?
  {
    if f.StaleLocalProxy? then (Probing, ROTATE)
    else if BlamesFront(f) then (Probing, [DemoteRelay(s.relay)] + ROTATE)
    else if IsSoft(f) then
      var n := s.softFails.Of(lane) + 1;
      if n >= cfg.veilSoftFailThreshold then (Probing, [DemoteRelay(s.relay)] + ROTATE)
      else (s.(softFails := s.softFails.With(lane, n)), [INVALIDATE])
    else Stay(s)
  }

  function Step(cfg: Config, mode: Mode, s: State, e: Event, now: nat): (State, seq<Effect>) {
    match e
    case NetworkPathChanged(reachable) =>
      // decided from Active and Offline; from the other states (assumed) the same
      if reachable then Restart(mode, LEAVE_VEIL) else (Offline, LEAVE_VEIL)
    case VeilModeChanged =>
      if s.Direct? && mode.On? then (Probing, [INVALIDATE, START])
      // decided from Active; from Probing and Cooldown (assumed) the same
      else if (s.Active? || s.Probing? || s.Cooldown?) && mode.Off? then (Direct(0), LEAVE_VEIL)
      else Stay(s)
    case ManualReset =>
      if s.Direct? then Restart(mode, [INVALIDATE])
      // decided from Active; from Probing and Cooldown (assumed) the same
      else if !s.Offline? then Restart(mode, LEAVE_VEIL)
      else Stay(s)
    case CooldownElapsed =>
      if s.Cooldown? then Restart(mode, [INVALIDATE]) else Stay(s)
    case ProxyStarted(relay, port) =>
      if s.Probing? then (Active(relay, port, now, SoftFails(0, 0)), [SetVeilPort(Some(port)), INVALIDATE])
      else if s.Direct? then (s, [STOP, UNROUTE])
      else Stay(s)
    case ProxyStartFailed =>
      if s.Probing?
      then (Cooldown(now + cfg.veilCooldownMs), [UNROUTE, ScheduleCooldownEnd(now + cfg.veilCooldownMs)])
      else Stay(s)
    case BackgroundWake =>
      if s.Active? then (Probing, ROTATE) else Stay(s)
    case VeilConfigChanged =>
      if s.Active? then (Probing, ROTATE) else Stay(s)
    case StreamOpened(via) =>
      if s.Direct? && via.ViaDirect? then (Direct(0), []) else Stay(s)
    case StreamFailed(f, via) =>
      if s.Direct? && via.ViaDirect?
      then DirectFailure(cfg, mode, s.fails, if MidSession(f) then cfg.midSessionDeathWeight else 1)
      // decided for a mid-session timeout; the other kinds (assumed) the same
      else if s.Active? && via.ViaVeil? then (s, [INVALIDATE])
      else Stay(s)
    case RpcSucceeded(via, lane) =>
      if s.Direct? && via.ViaDirect? then (Direct(0), [])
      else if s.Active? && via.ViaVeil? then (s.(softFails := s.softFails.With(lane, 0)), [])
      else if s.Active? && mode.Auto? then (Direct(0), [STOP, UNROUTE])
      else Stay(s)
    case RpcFailed(f, via, foreground, lane) =>
      // decided for TransportUnknown; StreamTimeout (assumed) counts as well
      if s.Direct? && via.ViaDirect? && foreground && IsSoft(f) then DirectFailure(cfg, mode, s.fails, 1)
      else if s.Active? && via.ViaVeil? && foreground then VeilFailure(cfg, s, f, lane)
      else Stay(s)
  }

  /** `auto` found the direct path answering while VEIL was up. */
  predicate DirectAnswered(mode: Mode, s: State, e: Event) {
    mode.Auto? && s.Active? && e.RpcSucceeded? && e.via.ViaDirect?
  }

  /**
   The rule of `on` in terms of `auto`: what would land on the direct path probes again, after the same
   effects; a direct answer does not end VEIL; all else is as in `auto`.
   */
  function OnRule(cfg: Config, s: State, e: Event, now: nat): (State, seq<Effect>) {
    var (autoState, autoEffects) := Step(cfg, Auto, s, e, now);
    if DirectAnswered(Auto, s, e) then (s, [])
    else if autoState.Direct? then (Probing, autoEffects + [START])
    else (autoState, autoEffects)
  }

  /** Off the direct path every event follows the rule; on it, reset and path change do. */
  lemma OnRedirectsAuto(cfg: Config, s: State, e: Event, now: nat)
    requires s.Direct? ==> e.ManualReset? || e.NetworkPathChanged?
    ensures Step(cfg, On, s, e, now) == OnRule(cfg, s, e, now)
  {
  }

  // ---- Runs ----

  datatype Input = Input(mode: Mode, event: Event, now: nat)

  function StateAfter(cfg: Config, s0: State, run: seq<Input>): State {
    if run == [] then s0
    else
      var last := run[|run| - 1];
      Step(cfg, last.mode, StateAfter(cfg, s0, run[..|run| - 1]), last.event, last.now).0
  }

  function EffectsOf(cfg: Config, s0: State, run: seq<Input>): seq<Effect> {
    if run == [] then []
    else
      var last, front := run[|run| - 1], run[..|run| - 1];
      EffectsOf(cfg, s0, front) + Step(cfg, last.mode, StateAfter(cfg, s0, front), last.event, last.now).1
  }

  /** The mode before the k-th input. */
  function ModeBefore(m0: Mode, run: seq<Input>, k: nat): Mode
    requires k <= |run|
  {
    if k == 0 then m0 else run[k - 1].mode
  }

  /** Every change of mode arrives as `veil_mode_changed`. */
  ghost predicate ChangesAnnounced(m0: Mode, run: seq<Input>) {
    forall k | 0 <= k < |run| :: run[k].mode == ModeBefore(m0, run, k) || run[k].event.VeilModeChanged?
  }

  lemma AnnouncedFront(m0: Mode, run: seq<Input>)
    requires ChangesAnnounced(m0, run) && run != []
    ensures ChangesAnnounced(m0, run[..|run| - 1])
    ensures var front, last := run[..|run| - 1], run[|run| - 1];
            last.mode == ModeBefore(m0, front, |front|) || last.event.VeilModeChanged?
  {
    var front := run[..|run| - 1];
    forall k | 0 <= k < |front|
      ensures front[k].mode == ModeBefore(m0, front, k) || front[k].event.VeilModeChanged?
    {
      assert run[k].mode == ModeBefore(m0, run, k) || run[k].event.VeilModeChanged?;
    }
    assert run[|front|].mode == ModeBefore(m0, run, |front|) || run[|front|].event.VeilModeChanged?;
  }

  /** A step under `on` stays off the direct path; a switch to `on` leaves it. */
  lemma OnStep(cfg: Config, s: State, e: Event, now: nat)
    requires !s.Direct? || e.VeilModeChanged?
    ensures !Step(cfg, On, s, e, now).0.Direct?
  {
  }

  /** While the mode is `on`, the client is never on the direct path. */
  lemma {:induction false} OnNeverDirect(cfg: Config, m0: Mode, reachable: bool, run: seq<Input>)
    requires ChangesAnnounced(m0, run)
    ensures ModeBefore(m0, run, |run|).On? ==> !StateAfter(cfg, Initial(m0, reachable), run).Direct?
    decreases |run|
  {
    if run != [] {
      var front, last := run[..|run| - 1], run[|run| - 1];
      AnnouncedFront(m0, run);
      OnNeverDirect(cfg, m0, reachable, front);
      if last.mode.On? {
        OnStep(cfg, StateAfter(cfg, Initial(m0, reachable), front), last.event, last.now);
      }
    }
  }

  /** Wherever a run has come to while the mode is `on`, every event follows the rule of `on`. */
  lemma OnRuleInEveryRun(cfg: Config, m0: Mode, reachable: bool, run: seq<Input>, e: Event, now: nat)
    requires ChangesAnnounced(m0, run) && ModeBefore(m0, run, |run|).On?
    ensures var s := StateAfter(cfg, Initial(m0, reachable), run);
            Step(cfg, On, s, e, now) == OnRule(cfg, s, e, now)
  {
    OnNeverDirect(cfg, m0, reachable, run);
    OnRedirectsAuto(cfg, StateAfter(cfg, Initial(m0, reachable), run), e, now);
  }

  lemma OffStep(cfg: Config, s: State, e: Event, now: nat)
    requires s.Direct? || s.Offline?
    ensures Step(cfg, Off, s, e, now).0.Direct? || Step(cfg, Off, s, e, now).0.Offline?
    ensures START !in Step(cfg, Off, s, e, now).1
  {
  }

  /** Under `off`, a client on the direct path or offline stays there and never asks for the proxy. */
  lemma {:induction false} OffNeverStarts(cfg: Config, s0: State, run: seq<Input>)
    requires s0.Direct? || s0.Offline?
    requires forall i | i in run :: i.mode.Off?
    ensures StateAfter(cfg, s0, run).Direct? || StateAfter(cfg, s0, run).Offline?
    ensures START !in EffectsOf(cfg, s0, run)
    decreases |run|
  {
    if run != [] {
      var front := run[..|run| - 1];
      assert forall i | i in front :: i in run;
      OffNeverStarts(cfg, s0, front);
      var last := run[|run| - 1];
      assert last in run;
      OffStep(cfg, StateAfter(cfg, s0, front), last.event, last.now);
    }
  }

  /**
   The mirror of `OnNeverDirect`: while the mode is `off`, VEIL is neither up nor being started. Unlike
   it, this rests on two (assumed) cells, those of switching off while Probing or in Cooldown.
   */
  lemma {:induction false} OffNeverVeil(cfg: Config, m0: Mode, reachable: bool, run: seq<Input>)
    requires ChangesAnnounced(m0, run)
    ensures var s := StateAfter(cfg, Initial(m0, reachable), run);
            ModeBefore(m0, run, |run|).Off? ==> s.Direct? || s.Offline?
    decreases |run|
  {
    if run != [] {
      var front, last := run[..|run| - 1], run[|run| - 1];
      AnnouncedFront(m0, run);
      OffNeverVeil(cfg, m0, reachable, front);
      if last.mode.Off? {
        SwitchedOff(cfg, StateAfter(cfg, Initial(m0, reachable), front), last.event, last.now);
      }
    }
  }

  lemma SwitchedOff(cfg: Config, s: State, e: Event, now: nat)
    requires s.Direct? || s.Offline? || e.VeilModeChanged?
    ensures Step(cfg, Off, s, e, now).0.Direct? || Step(cfg, Off, s, e, now).0.Offline?
  {
  }

  // ---- What the platform is told ----

  /** The platform as the effects leave it: the VEIL route, whether the proxy is wanted, the alarm. */
  datatype Platform = Platform(port: Option<nat>, proxyWanted: bool, alarm: Option<nat>)

  function Perform(p: Platform, e: Effect): Platform {
    match e
    case RequestProxyStop => p.(proxyWanted := false)
    case RequestProxyStart => p.(proxyWanted := true)
    case SetVeilPort(port) => p.(port := port)
    // scheduled only when a start failed: nothing is left running
    case ScheduleCooldownEnd(at) => p.(proxyWanted := false, alarm := Some(at))
    case InvalidateGrpcClient => p
    case DemoteRelay(_) => p
  }

  function Replay(p: Platform, effects: seq<Effect>): Platform {
    if effects == [] then p
    else Perform(Replay(p, effects[..|effects| - 1]), effects[|effects| - 1])
  }

  lemma {:induction false} ReplayAppend(p: Platform, a: seq<Effect>, b: seq<Effect>)
    ensures Replay(p, a + b) == Replay(Replay(p, a), b)
    decreases |b|
  {
    if b == [] {
      assert a + b == a;
    } else {
      assert (a + b)[..|a + b| - 1] == a + b[..|b| - 1];
      ReplayAppend(p, a, b[..|b| - 1]);
    }
  }

  lemma ReplayOne(p: Platform, e: Effect)
    ensures Replay(p, [e]) == Perform(p, e)
  {
    assert [e][..0] == [];
  }

  lemma ReplayShort(p: Platform, a: Effect, rest: seq<Effect>)
    ensures Replay(p, [a] + rest) == Replay(Perform(p, a), rest)
  {
    ReplayAppend(p, [a], rest);
    ReplayOne(p, a);
  }

  function PortOf(s: State): Option<nat> {
    if s.Active? then Some(s.port) else None
  }

  /** The platform is where the state says: routed, running and set to wake exactly as it should be. */
  ghost predicate InStep(p: Platform, s: State) {
    && p.port == PortOf(s)
    && p.proxyWanted == (s.Probing? || s.Active?)
    && (s.Cooldown? ==> p.alarm == Some(s.untilMs))
  }

  /** The platform at the start: no route; whoever starts probing has the proxy starting. */
  function PlatformAt(s0: State): Platform {
    Platform(None, s0.Probing?, None)
  }

  lemma ReplayTwo(p: Platform, a: Effect, b: Effect)
    ensures Replay(p, [a, b]) == Perform(Perform(p, a), b)
  {
    assert [a, b] == [a] + [b];
    ReplayShort(p, a, [b]);
    ReplayOne(Perform(p, a), b);
  }

  lemma ReplayLeave(p: Platform)
    ensures Replay(p, LEAVE_VEIL) == p.(port := None, proxyWanted := false)
    ensures Replay(p, LEAVE_VEIL + [START]) == p.(port := None, proxyWanted := true)
  {
    var q := p.(port := None, proxyWanted := false);
    ReplayTwo(p, STOP, UNROUTE);
    assert LEAVE_VEIL == [STOP, UNROUTE] + [INVALIDATE];
    ReplayAppend(p, [STOP, UNROUTE], [INVALIDATE]);
    ReplayOne(q, INVALIDATE);
    ReplayAppend(p, LEAVE_VEIL, [START]);
    ReplayOne(q, START);
  }

  lemma ReplayRotate(p: Platform, relay: string)
    ensures Replay(p, ROTATE) == p.(port := None, proxyWanted := true)
    ensures Replay(p, [DemoteRelay(relay)] + ROTATE) == p.(port := None, proxyWanted := true)
  {
    ReplayTwo(p, STOP, UNROUTE);
    assert ROTATE == [STOP, UNROUTE] + [START, INVALIDATE];
    ReplayAppend(p, [STOP, UNROUTE], [START, INVALIDATE]);
    ReplayTwo(p.(port := None, proxyWanted := false), START, INVALIDATE);
    ReplayShort(p, DemoteRelay(relay), ROTATE);
  }

  lemma ReplayProbe(p: Platform)
    ensures Replay(p, [INVALIDATE]) == p
    ensures Replay(p, [INVALIDATE] + [START]) == p.(proxyWanted := true)
    ensures Replay(p, [INVALIDATE, START]) == p.(proxyWanted := true)
    ensures Replay(p, [START, INVALIDATE]) == p.(proxyWanted := true)
  {
    ReplayOne(p, INVALIDATE);
    assert [INVALIDATE] + [START] == [INVALIDATE, START];
    ReplayTwo(p, INVALIDATE, START);
    ReplayTwo(p, START, INVALIDATE);
  }

  lemma StepInStep(cfg: Config, mode: Mode, s: State, e: Event, now: nat, p: Platform)
    requires InStep(p, s)
    ensures var (next, effects) := Step(cfg, mode, s, e, now);
            InStep(Replay(p, effects), next)
  {
    match e
    case NetworkPathChanged(_) => ReplayLeave(p);
    case VeilModeChanged => ReplayLeave(p); ReplayProbe(p);
    case ManualReset => ReplayLeave(p); ReplayProbe(p);
    case CooldownElapsed => ReplayProbe(p);
    case ProxyStarted(_, port) =>
      ReplayTwo(p, SetVeilPort(Some(port)), INVALIDATE);
      ReplayTwo(p, STOP, UNROUTE);
    case ProxyStartFailed => ReplayTwo(p, UNROUTE, ScheduleCooldownEnd(now + cfg.veilCooldownMs));
    case BackgroundWake => ReplayRotate(p, "");
    case VeilConfigChanged => ReplayRotate(p, "");
    case StreamOpened(_) =>
    case StreamFailed(_, _) => ReplayProbe(p);
    case RpcSucceeded(_, _) => ReplayTwo(p, STOP, UNROUTE);
    case RpcFailed(_, _, _, _) =>
      if s.Active? {
        ReplayRotate(p, s.relay);
      }
      ReplayProbe(p);
  }

  /**
   Replaying all effects of a run: the route is the port of VEIL exactly while it is Active and none
   otherwise; the local proxy is wanted exactly while probing or active; a cooldown has its alarm.
   */
  lemma {:induction false} ReplayFollowsState(cfg: Config, m0: Mode, reachable: bool, run: seq<Input>)
    ensures var s0 := Initial(m0, reachable);
            InStep(Replay(PlatformAt(s0), EffectsOf(cfg, s0, run)), StateAfter(cfg, s0, run))
    decreases |run|
  {
    var s0 := Initial(m0, reachable);
    if run != [] {
      var front, last := run[..|run| - 1], run[|run| - 1];
      ReplayFollowsState(cfg, m0, reachable, front);
      var s, p := StateAfter(cfg, s0, front), Replay(PlatformAt(s0), EffectsOf(cfg, s0, front));
      ReplayAppend(PlatformAt(s0), EffectsOf(cfg, s0, front), Step(cfg, last.mode, s, last.event, last.now).1);
      StepInStep(cfg, last.mode, s, last.event, last.now, p);
    }
  }

  /**
   A step that moves the route, or leaves the direct path, drops the cached client; the one exception
   is `auto` falling back to a direct path that just answered.
   */
  lemma RouteChangeDropsClient(cfg: Config, mode: Mode, s: State, e: Event, now: nat)
    ensures var (next, effects) := Step(cfg, mode, s, e, now);
            PortOf(next) != PortOf(s) || (s.Direct? && !next.Direct?) ==>
              (INVALIDATE in effects <==> !DirectAnswered(mode, s, e))
  {
  }

  // ---- Clients left open ----

  /** The path a cached channel or stream was opened on. */
  datatype Route = OnDirect | OnVeil(port: nat)

  /** Where a client can be opened in a state: nowhere while no path is up. */
  function RoutesOf(s: State): set<Route> {
    match s
    case Direct(_) => {OnDirect}
    case Active(_, port, _, _) => {OnVeil(port)}
    case _ => {}
  }

  /**
   The routes on which a client may still be open after a run, if one is opened wherever it can be
   between inputs and only `invalidate_grpc_client` closes it.
   */
  function OpenClients(cfg: Config, s0: State, run: seq<Input>): set<Route> {
    if run == [] then RoutesOf(s0)
    else
      var last, front := run[|run| - 1], run[..|run| - 1];
      var (next, effects) := Step(cfg, last.mode, StateAfter(cfg, s0, front), last.event, last.now);
      (if INVALIDATE in effects then {} else OpenClients(cfg, s0, front)) + RoutesOf(next)
  }

  /** A route on which an open client does no harm: the present one, or VEIL once back on direct. */
  ghost predicate Harmless(s: State, r: Route) {
    r in RoutesOf(s) || (r.OnVeil? && s.Direct?)
  }

  lemma HarmlessStep(cfg: Config, mode: Mode, s: State, e: Event, now: nat, r: Route)
    requires Harmless(s, r) && INVALIDATE !in Step(cfg, mode, s, e, now).1
    ensures Harmless(Step(cfg, mode, s, e, now).0, r)
  {
  }

  /**
   No client outlives its path: one opened on the direct path is open only while the state is Direct,
   one opened through VEIL only while that VEIL is active or the client is back on the direct path.
   */
  lemma {:induction false} ClientsKeepToTheirPath(cfg: Config, s0: State, run: seq<Input>)
    ensures forall r | r in OpenClients(cfg, s0, run) :: Harmless(StateAfter(cfg, s0, run), r)
    decreases |run|
  {
    if run != [] {
      var front, last := run[..|run| - 1], run[|run| - 1];
      var s := StateAfter(cfg, s0, front);
      ClientsKeepToTheirPath(cfg, s0, front);
      var (next, effects) := Step(cfg, last.mode, s, last.event, last.now);
      if INVALIDATE !in effects {
        forall r | r in OpenClients(cfg, s0, front)
          ensures Harmless(next, r)
        {
          HarmlessStep(cfg, last.mode, s, last.event, last.now, r);
        }
      }
    }
  }

  /** Once the person chose never-direct, nothing opened on the direct path is left open. */
  lemma NoDirectClientUnderOn(cfg: Config, m0: Mode, reachable: bool, run: seq<Input>)
    requires ChangesAnnounced(m0, run)
    ensures ModeBefore(m0, run, |run|).On? ==> OnDirect !in OpenClients(cfg, Initial(m0, reachable), run)
  {
    OnNeverDirect(cfg, m0, reachable, run);
    ClientsKeepToTheirPath(cfg, Initial(m0, reachable), run);
  }

  // ---- Soft failures through VEIL ----

  /** The input is a foreground soft RPC failure through VEIL on this lane. */
  predicate CountedSoft(i: Input, lane: Lane) {
    i.event.RpcFailed? && i.event.via.ViaVeil? && i.event.foreground && i.event.lane == lane && IsSoft(i.event.rpcFailure)
  }

  predicate VeilSuccess(i: Input, lane: Lane) {
    i.event.RpcSucceeded? && i.event.via.ViaVeil? && i.event.lane == lane
  }

  /** Counted failures among the inputs a .. k. */
  function CountSoft(run: seq<Input>, lane: Lane, a: nat, k: nat): nat
    requires a <= k <= |run|
  {
    if a == k then 0 else CountSoft(run, lane, a, k - 1) + if CountedSoft(run[k - 1], lane) then 1 else 0
  }

  function StateAt(cfg: Config, s0: State, run: seq<Input>, k: nat): State
    requires k <= |run|
  {
    StateAfter(cfg, s0, run[..k])
  }

  /** VEIL is up after k inputs, and the k-th activated it or was a VEIL success of the lane. */
  predicate Fresh(cfg: Config, s0: State, run: seq<Input>, lane: Lane, k: nat)
    requires k <= |run|
  {
    k > 0 && StateAt(cfg, s0, run, k).Active?
    && (!StateAt(cfg, s0, run, k - 1).Active? || VeilSuccess(run[k - 1], lane))
  }

  /** `a` is the later of the last activation and the lane's last VEIL success, seen from k. */
  ghost predicate LastFresh(cfg: Config, s0: State, run: seq<Input>, lane: Lane, a: nat, k: nat)
    requires k <= |run|
  {
    a <= k && Fresh(cfg, s0, run, lane, a) && forall j | a < j <= k :: !Fresh(cfg, s0, run, lane, j)
  }

  lemma StateAtNext(cfg: Config, s0: State, run: seq<Input>, k: nat)
    requires k < |run|
    ensures StateAt(cfg, s0, run, k + 1) ==
            Step(cfg, run[k].mode, StateAt(cfg, s0, run, k), run[k].event, run[k].now).0
  {
    assert run[..k + 1][..k] == run[..k];
  }

  /** A step that finds and leaves VEIL active adds each lane's counted failure, and nothing else. */
  lemma SoftStep(cfg: Config, i: Input, s: State, lane: Lane)
    requires s.Active? && Step(cfg, i.mode, s, i.event, i.now).0.Active?
    ensures var next := Step(cfg, i.mode, s, i.event, i.now).0;
            && next.softFails.Of(lane) == (if VeilSuccess(i, lane) then 0
                                           else s.softFails.Of(lane) + if CountedSoft(i, lane) then 1 else 0)
            && (CountedSoft(i, lane) ==> next.softFails.Of(lane) < cfg.veilSoftFailThreshold)
  {
  }

  lemma LastFreshStays(cfg: Config, s0: State, run: seq<Input>, lane: Lane, a: nat, k: nat)
    requires 0 < k <= |run| && !Fresh(cfg, s0, run, lane, k)
    ensures LastFresh(cfg, s0, run, lane, a, k) <==> LastFresh(cfg, s0, run, lane, a, k - 1)
  {
  }

  /**
   While VEIL is active, a lane's count is the number of its counted failures since the later of
   activation and its last success, whatever the other lane did, and it is below the threshold.
   */
  lemma {:induction false} SoftFailsCount(cfg: Config, m0: Mode, reachable: bool, run: seq<Input>, lane: Lane, k: nat)
    requires k <= |run| && cfg.veilSoftFailThreshold > 0
    requires StateAt(cfg, Initial(m0, reachable), run, k).Active?
    ensures var s0 := Initial(m0, reachable);
            var n := StateAt(cfg, s0, run, k).softFails.Of(lane);
            && n < cfg.veilSoftFailThreshold
            && (exists a :: LastFresh(cfg, s0, run, lane, a, k))
            && (forall a | LastFresh(cfg, s0, run, lane, a, k) :: n == CountSoft(run, lane, a, k))
    decreases k
  {
    var s0 := Initial(m0, reachable);
    assert k > 0;
    var s, i := StateAt(cfg, s0, run, k - 1), run[k - 1];
    StateAtNext(cfg, s0, run, k - 1);
    if s.Active? {
      SoftFailsCount(cfg, m0, reachable, run, lane, k - 1);
      SoftStep(cfg, i, s, lane);
    }
    if Fresh(cfg, s0, run, lane, k) {
      assert LastFresh(cfg, s0, run, lane, k, k);
      forall a | LastFresh(cfg, s0, run, lane, a, k)
        ensures CountSoft(run, lane, a, k) == 0
      {
        assert a == k;
      }
    } else {
      var b :| LastFresh(cfg, s0, run, lane, b, k - 1);
      LastFreshStays(cfg, s0, run, lane, b, k);
      forall a | LastFresh(cfg, s0, run, lane, a, k)
        ensures CountSoft(run, lane, a, k) == StateAt(cfg, s0, run, k).softFails.Of(lane)
      {
        LastFreshStays(cfg, s0, run, lane, a, k);
      }
    }
  }

  /** The failure that would bring a lane to the threshold, or that blames the front. */
  predicate EndsFront(cfg: Config, s: State, i: Input) {
    && s.Active? && i.event.RpcFailed? && i.event.via.ViaVeil? && i.event.foreground
    && (BlamesFront(i.event.rpcFailure)
        || (CountedSoft(i, i.event.lane) && s.softFails.Of(i.event.lane) + 1 >= cfg.veilSoftFailThreshold))
  }

  /**
   A front is demoted exactly by the failures that end it; the demotion names the front in use, comes
   first, and a full rotation follows.
   */
  lemma DemotesExactly(cfg: Config, s: State, i: Input)
    ensures var (next, effects) := Step(cfg, i.mode, s, i.event, i.now);
            if EndsFront(cfg, s, i) then
              && next == Probing
              && effects == [DemoteRelay(s.relay), RequestProxyStop, SetVeilPort(None), RequestProxyStart, InvalidateGrpcClient]
            else forall relay :: DemoteRelay(relay) !in effects
  {
  }

  // ---- Failures on the direct path ----

  /** The input is a failure that counts towards leaving the direct path. */
  predicate CountedDirect(i: Input) {
    || (i.event.RpcFailed? && i.event.via.ViaDirect? && i.event.foreground
        && (i.event.rpcFailure.TransportUnknown? || i.event.rpcFailure.StreamTimeout?))
    || (i.event.StreamFailed? && i.event.via.ViaDirect?)
  }

  /** A stream that dies in use weighs more than one that does not open. */
  function Weight(cfg: Config, i: Input): nat {
    if !CountedDirect(i) then 0
    else if i.event.StreamFailed? && !i.event.streamFailure.OpenTimeout? && !i.event.streamFailure.StreamTransportUnknown?
    then cfg.midSessionDeathWeight
    else 1
  }

  /** The direct path answered, or was started over. */
  predicate ClearsDirect(i: Input) {
    || (i.event.RpcSucceeded? && i.event.via.ViaDirect?)
    || (i.event.StreamOpened? && i.event.via.ViaDirect?)
    || i.event.ManualReset? || i.event.NetworkPathChanged?
  }

  function TotalWeight(cfg: Config, run: seq<Input>, a: nat, k: nat): nat
    requires a <= k <= |run|
  {
    if a == k then 0 else TotalWeight(cfg, run, a, k - 1) + Weight(cfg, run[k - 1])
  }

  /** On the direct path after k inputs, and the k-th led there or cleared it. */
  predicate FreshDirect(cfg: Config, s0: State, run: seq<Input>, k: nat)
    requires k <= |run|
  {
    StateAt(cfg, s0, run, k).Direct?
    && (k == 0 || !StateAt(cfg, s0, run, k - 1).Direct? || ClearsDirect(run[k - 1]))
  }

  /** `a` is where the present count on the direct path began, seen from k. */
  ghost predicate LastDirect(cfg: Config, s0: State, run: seq<Input>, a: nat, k: nat)
    requires k <= |run|
  {
    a <= k && FreshDirect(cfg, s0, run, a) && forall j | a < j <= k :: !FreshDirect(cfg, s0, run, j)
  }

  /** No input of a .. k arrived under `off`. */
  ghost predicate NeverOff(run: seq<Input>, a: nat, k: nat)
    requires a <= k <= |run|
  {
    forall j | a <= j < k :: !run[j].mode.Off?
  }

  /** The failure that leads from the direct path to VEIL. */
  predicate Escalates(cfg: Config, s: State, i: Input) {
    && s.Direct? && CountedDirect(i) && !i.mode.Off? && cfg.allowDirectToVeilEscalation
    && s.fails + Weight(cfg, i) >= cfg.directFailThreshold
  }

  /**
   The direct path is left for VEIL by the failure that reaches the threshold, in `auto` or `on` where
   the configuration allows it, and otherwise only by a change to `on`, or by starting over under `on`.
   */
  lemma EscalatesExactly(cfg: Config, s: State, i: Input)
    requires s.Direct?
    ensures var (next, effects) := Step(cfg, i.mode, s, i.event, i.now);
            var restarts := i.event.ManualReset? || (i.event.NetworkPathChanged? && i.event.reachable);
            && (next == Probing <==> Escalates(cfg, s, i) || (i.mode.On? && (i.event.VeilModeChanged? || restarts)))
            && (Escalates(cfg, s, i) ==> effects == [RequestProxyStart, InvalidateGrpcClient])
            && (next == Offline <==> i.event.NetworkPathChanged? && !i.event.reachable)
            && (next != Probing && next != Offline ==>
                  next == Direct(if ClearsDirect(i) then 0 else s.fails + Weight(cfg, i)))
  {
  }

  lemma LastDirectStays(cfg: Config, s0: State, run: seq<Input>, a: nat, k: nat)
    requires 0 < k <= |run| && !FreshDirect(cfg, s0, run, k)
    ensures LastDirect(cfg, s0, run, a, k) <==> LastDirect(cfg, s0, run, a, k - 1)
  {
  }

  /** What the count of the direct path is, and where `off` did not hold it back, that it is below the threshold. */
  ghost predicate DirectCount(cfg: Config, s0: State, run: seq<Input>, a: nat, k: nat)
    requires a <= k <= |run| && StateAt(cfg, s0, run, k).Direct?
  {
    var n := StateAt(cfg, s0, run, k).fails;
    && n == TotalWeight(cfg, run, a, k)
    && (cfg.allowDirectToVeilEscalation && cfg.directFailThreshold > 0 && NeverOff(run, a, k) ==> n < cfg.directFailThreshold)
  }

  /** One more input that neither clears the count nor leaves the path. */
  lemma DirectCountNext(cfg: Config, s0: State, run: seq<Input>, a: nat, k: nat)
    requires a <= k < |run| && !FreshDirect(cfg, s0, run, k + 1)
    requires StateAt(cfg, s0, run, k).Direct? && StateAt(cfg, s0, run, k + 1).Direct?
    requires DirectCount(cfg, s0, run, a, k)
    ensures DirectCount(cfg, s0, run, a, k + 1)
  {
    StateAtNext(cfg, s0, run, k);
    EscalatesExactly(cfg, StateAt(cfg, s0, run, k), run[k]);
  }

  /**
   On the direct path the count is the total weight of the failures since the path was entered, last
   answered or was started over.
   */
  lemma {:induction false} DirectFailsCount(cfg: Config, m0: Mode, reachable: bool, run: seq<Input>, k: nat)
    requires k <= |run| && StateAt(cfg, Initial(m0, reachable), run, k).Direct?
    ensures var s0 := Initial(m0, reachable);
            && (exists a :: LastDirect(cfg, s0, run, a, k))
            && (forall a | LastDirect(cfg, s0, run, a, k) :: DirectCount(cfg, s0, run, a, k))
    decreases k
  {
    var s0 := Initial(m0, reachable);
    if FreshDirect(cfg, s0, run, k) {
      assert LastDirect(cfg, s0, run, k, k);
      forall a | LastDirect(cfg, s0, run, a, k)
        ensures DirectCount(cfg, s0, run, a, k)
      {
        assert a == k;
        FreshIsZero(cfg, m0, reachable, run, k);
      }
    } else {
      DirectFailsCount(cfg, m0, reachable, run, k - 1);
      var b :| LastDirect(cfg, s0, run, b, k - 1);
      LastDirectStays(cfg, s0, run, b, k);
      forall a | LastDirect(cfg, s0, run, a, k)
        ensures DirectCount(cfg, s0, run, a, k)
      {
        LastDirectStays(cfg, s0, run, a, k);
        DirectCountNext(cfg, s0, run, a, k - 1);
      }
    }
  }

  lemma FreshIsZero(cfg: Config, m0: Mode, reachable: bool, run: seq<Input>, k: nat)
    requires k <= |run| && FreshDirect(cfg, Initial(m0, reachable), run, k)
    ensures StateAt(cfg, Initial(m0, reachable), run, k).fails == 0
  {
    if k > 0 {
      StateAtNext(cfg, Initial(m0, reachable), run, k - 1);
    }
  }

  // ---- The local proxy ----

  /** The proxy runs once its start is reported, until it is asked to stop. */
  function ProxyRuns(cfg: Config, s0: State, run: seq<Input>): bool {
    if run == [] then false
    else
      var last, front := run[|run| - 1], run[..|run| - 1];
      var effects := Step(cfg, last.mode, StateAfter(cfg, s0, front), last.event, last.now).1;
      RequestProxyStop !in effects && (last.event.ProxyStarted? || ProxyRuns(cfg, s0, front))
  }

  /** No start is reported in a cooldown, where the start has just been reported failed. */
  ghost predicate NoStartInCooldown(cfg: Config, s0: State, run: seq<Input>) {
    forall k | 0 <= k < |run| :: !(StateAt(cfg, s0, run, k).Cooldown? && run[k].event.ProxyStarted?)
  }

  lemma NoStartFront(cfg: Config, s0: State, run: seq<Input>)
    requires run != [] && NoStartInCooldown(cfg, s0, run)
    ensures var front, last := run[..|run| - 1], run[|run| - 1];
            && NoStartInCooldown(cfg, s0, front)
            && !(StateAfter(cfg, s0, front).Cooldown? && last.event.ProxyStarted?)
  {
    var front := run[..|run| - 1];
    forall k | 0 <= k < |front|
      ensures !(StateAt(cfg, s0, front, k).Cooldown? && front[k].event.ProxyStarted?)
    {
      assert front[..k] == run[..k];
      assert !(StateAt(cfg, s0, run, k).Cooldown? && run[k].event.ProxyStarted?);
    }
    assert !(StateAt(cfg, s0, run, |front|).Cooldown? && run[|front|].event.ProxyStarted?);
  }

  /** A start reported on the direct path is torn down in every mode, whatever has been counted. */
  lemma LateStart(cfg: Config, mode: Mode, fails: nat, relay: string, port: nat, now: nat)
    ensures Step(cfg, mode, Direct(fails), ProxyStarted(relay, port), now) ==
            (Direct(fails), [RequestProxyStop, SetVeilPort(None)])
  {
  }

  lemma ProxyStep(cfg: Config, i: Input, s: State, runs: bool)
    requires !s.Offline? ==> runs == s.Active?
    requires !(s.Cooldown? && i.event.ProxyStarted?)
    ensures var (next, effects) := Step(cfg, i.mode, s, i.event, i.now);
            !next.Offline? ==> (RequestProxyStop !in effects && (i.event.ProxyStarted? || runs)) == next.Active?
  {
  }

  /**
   Outside Offline the local proxy runs exactly while VEIL is active: nothing that comes up late, in
   any mode, is left running beside the direct path.
   */
  lemma {:induction false} ProxyRunsExactlyWhileActive(cfg: Config, m0: Mode, reachable: bool, run: seq<Input>)
    requires NoStartInCooldown(cfg, Initial(m0, reachable), run)
    ensures var s := StateAfter(cfg, Initial(m0, reachable), run);
            !s.Offline? ==> ProxyRuns(cfg, Initial(m0, reachable), run) == s.Active?
    decreases |run|
  {
    if run != [] {
      var s0, front, last := Initial(m0, reachable), run[..|run| - 1], run[|run| - 1];
      NoStartFront(cfg, s0, run);
      ProxyRunsExactlyWhileActive(cfg, m0, reachable, front);
      ProxyStep(cfg, last, StateAfter(cfg, s0, front), ProxyRuns(cfg, s0, front));
    }
  }

  // ---- How each state is entered and left, in every mode ----

  lemma InitialExactly(mode: Mode, reachable: bool)
    ensures Initial(mode, reachable) == Offline <==> !reachable
    ensures Initial(mode, reachable) == Probing <==> reachable && mode == On
    ensures Initial(mode, reachable) == Direct(0) <==> reachable && mode != On
  {
  }

  /** Offline is entered by losing the path and left only by its return. */
  lemma OfflineExactly(cfg: Config, mode: Mode, s: State, e: Event, now: nat)
    ensures var (next, effects) := Step(cfg, mode, s, e, now);
            && (next == Offline <==> if e.NetworkPathChanged? then !e.reachable else s == Offline)
            && (s == Offline && !e.NetworkPathChanged? ==> effects == [])
            && (e.NetworkPathChanged? ==>
                  effects == [RequestProxyStop, SetVeilPort(None), InvalidateGrpcClient]
                             + if e.reachable && mode == On then [RequestProxyStart] else [])
  {
  }

  /** VEIL becomes active exactly by the start that was waited for, with nothing counted. */
  lemma ActivatedExactly(cfg: Config, mode: Mode, s: State, e: Event, now: nat)
    requires !s.Active?
    ensures var (next, effects) := Step(cfg, mode, s, e, now);
            && (next.Active? <==> s == Probing && e.ProxyStarted?)
            && (next.Active? ==>
                  && next == Active(e.relay, e.port, now, SoftFails(0, 0))
                  && effects == [SetVeilPort(Some(e.port)), InvalidateGrpcClient])
  {
  }

  /** A cooldown is entered exactly by a failed start, and wakes after the configured time. */
  lemma CooldownExactly(cfg: Config, mode: Mode, s: State, e: Event, now: nat)
    ensures var (next, effects) := Step(cfg, mode, s, e, now);
            var leaves := || e.CooldownElapsed? || e.ManualReset? || e.NetworkPathChanged?
                          || (e.VeilModeChanged? && mode == Off);
            && (next.Cooldown? <==> (s == Probing && e.ProxyStartFailed?) || (s.Cooldown? && !leaves))
            && (next.Cooldown? && s.Cooldown? ==> next == s && effects == [])
            && (next.Cooldown? && !s.Cooldown? ==>
                  && next == Cooldown(now + cfg.veilCooldownMs)
                  && effects == [SetVeilPort(None), ScheduleCooldownEnd(now + cfg.veilCooldownMs)])
            && (s.Cooldown? && e.CooldownElapsed? ==>
                  && next == (if mode == On then Probing else Direct(0))
                  && effects == [InvalidateGrpcClient] + if mode == On then [RequestProxyStart] else [])
  {
  }

  /** The front is replaced: it is worn out, or the local proxy, its process or its configuration is. */
  predicate Rotates(cfg: Config, s: State, i: Input) {
    || EndsFront(cfg, s, i) || i.event.BackgroundWake? || i.event.VeilConfigChanged?
    || (i.event.RpcFailed? && i.event.rpcFailure == StaleLocalProxy && i.event.via == ViaVeil && i.event.foreground)
  }

  /** VEIL is given up: by reset or a new path, by turning it off, or by `auto` hearing from the direct path. */
  predicate GivesUpVeil(i: Input) {
    || i.event.ManualReset? || i.event.NetworkPathChanged? || (i.event.VeilModeChanged? && i.mode == Off)
    || AnsweredUnderAuto(i)
  }

  predicate AnsweredUnderAuto(i: Input) {
    i.mode == Auto && i.event.RpcSucceeded? && i.event.via == ViaDirect
  }

  /**
   Every way active VEIL is left, in every mode, with the effects in order; whatever else happens, the
   relay, the port and the time stay, and the client is dropped exactly by a failure of VEIL's own.
   */
  lemma ActiveLeftExactly(cfg: Config, s: State, i: Input)
    requires s.Active?
    ensures var (next, effects) := Step(cfg, i.mode, s, i.event, i.now);
            if Rotates(cfg, s, i) then
              && next == Probing
              && effects == (if EndsFront(cfg, s, i) then [DemoteRelay(s.relay)] else [])
                            + [RequestProxyStop, SetVeilPort(None), RequestProxyStart, InvalidateGrpcClient]
            else if AnsweredUnderAuto(i) then next == Direct(0) && effects == [RequestProxyStop, SetVeilPort(None)]
            else if GivesUpVeil(i) then
              && next == (if i.event.NetworkPathChanged? && !i.event.reachable then Offline
                          else if i.mode == On then Probing else Direct(0))
              && effects == [RequestProxyStop, SetVeilPort(None), InvalidateGrpcClient]
                            + if next == Probing then [RequestProxyStart] else []
            else
              && next.Active? && next.relay == s.relay && next.port == s.port && next.sinceMs == s.sinceMs
              && effects == if CountedSoft(i, Auth) || CountedSoft(i, Sealed) || (i.event.StreamFailed? && i.event.via == ViaVeil)
                            then [InvalidateGrpcClient] else []
  {
  }

  /** Probing ends exactly with the start, its failure, or a decision that starts over. */
  lemma ProbingLeftExactly(cfg: Config, mode: Mode, e: Event, now: nat)
    ensures var (next, effects) := Step(cfg, mode, Probing, e, now);
            var restarts := e.ManualReset? || (e.NetworkPathChanged? && e.reachable);
            && (next == Direct(0) <==> (mode != On && restarts) || (mode == Off && e.VeilModeChanged?))
            && (next == Direct(0) ==> effects == [RequestProxyStop, SetVeilPort(None), InvalidateGrpcClient])
            && (mode == On && restarts ==>
                  && next == Probing
                  && effects == [RequestProxyStop, SetVeilPort(None), InvalidateGrpcClient, RequestProxyStart])
            && (!restarts && next == Probing ==> effects == [])
            && (next.Direct? ==> next.fails == 0)
  {
  }
}
