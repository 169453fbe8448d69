/** The shared vectors of the transport route, case by case. */
module TransportVectors {
  import opened Outcomes
  import opened TransportRoute

  const NOW: nat := 1_000_000
  const RELAY := "relay.example:443"
  const PORT: nat := 49262
  const CONFIG := Config(2, 2, true, 30_000, 3)

  function Up(auth: nat, sealed: nat): State {
    Active(RELAY, PORT, 1, SoftFails(auth, sealed))
  }

  /** The final state, and the effects of the last event. */
  function Case(cfg: Config, mode: Mode, s: State, events: seq<Event>): (State, seq<Effect>)
    requires events != []
    decreases |events|
  {
    var step := Step(cfg, mode, s, events[0], NOW);
    if |events| == 1 then step else Case(cfg, mode, step.0, events[1..])
  }

  /** The lists of effects the table puts together, in full. */
  lemma EffectLists(relay: string)
    ensures [DemoteRelay(relay)] + ROTATE ==
            [DemoteRelay(relay), RequestProxyStop, SetVeilPort(None), RequestProxyStart, InvalidateGrpcClient]
    ensures LEAVE_VEIL + [START] == [RequestProxyStop, SetVeilPort(None), InvalidateGrpcClient, RequestProxyStart]
    ensures [INVALIDATE] + [START] == [InvalidateGrpcClient, RequestProxyStart]
  {
  }

  lemma InitialVectors()
    ensures Initial(Auto, true) == Direct(0)
    ensures Initial(On, true) == Probing
    ensures Initial(On, false) == Offline
  {
  }

  /** Failures and successes on the direct path. */
  lemma DirectVectors()
    // one_direct_failure_counts
    ensures Case(CONFIG, Auto, Direct(0),
                 [RpcFailed(TransportUnknown, ViaDirect, true, Auth)]) == (Direct(1), [])
    // two_direct_failures_escalate
    ensures Case(CONFIG, Auto, Direct(0),
                 [RpcFailed(TransportUnknown, ViaDirect, true, Auth), RpcFailed(TransportUnknown, ViaDirect, true, Auth)]) == (Probing, [RequestProxyStart, InvalidateGrpcClient])
    // off_never_escalates
    ensures Case(CONFIG, Off, Direct(1),
                 [RpcFailed(TransportUnknown, ViaDirect, true, Auth)]) == (Direct(2), [])
    // off_never_escalates_on_a_dead_stream
    ensures Case(CONFIG, Off, Direct(0),
                 [StreamFailed(MidSessionTimeout, ViaDirect)]) == (Direct(2), [])
    // config_can_forbid_escalation
    ensures Case(CONFIG.(allowDirectToVeilEscalation := false), Auto, Direct(1),
                 [RpcFailed(TransportUnknown, ViaDirect, true, Auth)]) == (Direct(2), [])
    // stream_died_mid_session_timeout_escalates_at_once
    ensures Case(CONFIG, Auto, Direct(0),
                 [StreamFailed(MidSessionTimeout, ViaDirect)]) == (Probing, [RequestProxyStart, InvalidateGrpcClient])
    // stream_died_mid_session_closed_escalates_at_once
    ensures Case(CONFIG, Auto, Direct(0),
                 [StreamFailed(MidSessionClosed, ViaDirect)]) == (Probing, [RequestProxyStart, InvalidateGrpcClient])
    // stream_died_mid_session_unknown_escalates_at_once
    ensures Case(CONFIG, Auto, Direct(0),
                 [StreamFailed(MidSessionUnknown, ViaDirect)]) == (Probing, [RequestProxyStart, InvalidateGrpcClient])
    // stream_died_write_failed_escalates_at_once
    ensures Case(CONFIG, Auto, Direct(0),
                 [StreamFailed(WriteFailed, ViaDirect)]) == (Probing, [RequestProxyStart, InvalidateGrpcClient])
    // open_failure_takes_two
    ensures Case(CONFIG, Auto, Direct(0),
                 [StreamFailed(OpenTimeout, ViaDirect), StreamFailed(OpenTimeout, ViaDirect)]) == (Probing, [RequestProxyStart, InvalidateGrpcClient])
    // quic_stream_failure_counts_too
    ensures Case(CONFIG, Auto, Direct(1),
                 [StreamFailed(StreamTransportUnknown, ViaDirect)]) == (Probing, [RequestProxyStart, InvalidateGrpcClient])
    // a_veil_stream_failure_does_not_count_on_direct
    ensures Case(CONFIG, Auto, Direct(1),
                 [StreamFailed(MidSessionTimeout, ViaVeil)]) == (Direct(1), [])
    // stream_open_clears_the_streak
    ensures Case(CONFIG, Auto, Direct(1),
                 [StreamOpened(ViaDirect)]) == (Direct(0), [])
    // rpc_success_clears_the_streak
    ensures Case(CONFIG, Auto, Direct(1),
                 [RpcSucceeded(ViaDirect, Auth)]) == (Direct(0), [])
    // background_failure_ignored
    ensures Case(CONFIG, Auto, Direct(1),
                 [RpcFailed(TransportUnknown, ViaDirect, false, Auth)]) == (Direct(1), [])
    // application_error_ignored
    ensures Case(CONFIG, Auto, Direct(1),
                 [RpcFailed(ApplicationError, ViaDirect, true, Auth)]) == (Direct(1), [])
    // auth_rejected_ignored
    ensures Case(CONFIG, Auto, Direct(1),
                 [RpcFailed(AuthRejected, ViaDirect, true, Auth)]) == (Direct(1), [])
  {
  }

  /** Mode, path and reset outside `on`. */
  lemma ModeVectors()
    // toggling_auto_does_not_force_veil
    ensures Case(CONFIG, Auto, Direct(0),
                 [VeilModeChanged]) == (Direct(0), [])
    // turning_off_leaves_veil
    ensures Case(CONFIG, Off, Up(0, 0),
                 [VeilModeChanged]) == (Direct(0), [RequestProxyStop, SetVeilPort(None), InvalidateGrpcClient])
    // path_change_in_auto_does_not_start_proxy
    ensures Case(CONFIG, Auto, Up(0, 0),
                 [NetworkPathChanged(true)]) == (Direct(0), [RequestProxyStop, SetVeilPort(None), InvalidateGrpcClient])
    // unreachable_goes_offline
    ensures Case(CONFIG, Auto, Up(0, 0),
                 [NetworkPathChanged(false)]) == (Offline, [RequestProxyStop, SetVeilPort(None), InvalidateGrpcClient])
    // manual_reset_from_veil
    ensures Case(CONFIG, Auto, Up(0, 0),
                 [ManualReset]) == (Direct(0), [RequestProxyStop, SetVeilPort(None), InvalidateGrpcClient])
    // manual_reset_on_direct
    ensures Case(CONFIG, Auto, Direct(0),
                 [ManualReset]) == (Direct(0), [InvalidateGrpcClient])
  {
  }

  /** The proxy coming up or not, and the cooldown. */
  lemma StartVectors()
    // stale_proxy_start_on_direct_is_torn_down
    ensures Case(CONFIG, Off, Direct(0),
                 [ProxyStarted(RELAY, 7)]) == (Direct(0), [RequestProxyStop, SetVeilPort(None)])
    // probing_to_active
    ensures Case(CONFIG, Auto, Probing,
                 [ProxyStarted(RELAY, 7)]) == (Active(RELAY, 7, NOW, SoftFails(0, 0)), [SetVeilPort(Some(7)), InvalidateGrpcClient])
    // probing_failure_cools_down
    ensures Case(CONFIG, Auto, Probing,
                 [ProxyStartFailed]) == (Cooldown(NOW + 30_000), [SetVeilPort(None), ScheduleCooldownEnd(NOW + 30_000)])
    // cooldown_ends_on_direct
    ensures Case(CONFIG, Auto, Cooldown(NOW),
                 [CooldownElapsed]) == (Direct(0), [InvalidateGrpcClient])
    // cooldown_swallows_failures
    ensures Case(CONFIG, Auto, Cooldown(NOW),
                 [RpcFailed(TransportUnknown, ViaDirect, true, Auth)]) == (Cooldown(NOW), [])
  {
  }

  /** One failure while VEIL is up, or anywhere it is ignored. */
  lemma FailureVectors()
    // active_rotates_on_a_hard_failure
    ensures Case(CONFIG, Auto, Up(0, 0),
                 [RpcFailed(StaleLocalProxy, ViaVeil, true, Auth)]) == (Probing, [RequestProxyStop, SetVeilPort(None), RequestProxyStart, InvalidateGrpcClient])
    // tls_fingerprint_blocked_rotates_away_from_the_front
    ensures Case(CONFIG, Auto, Up(0, 0),
                 [RpcFailed(TlsFingerprintBlocked, ViaVeil, true, Auth)]) == (Probing, [DemoteRelay(RELAY), RequestProxyStop, SetVeilPort(None), RequestProxyStart, InvalidateGrpcClient])
    // tls_cert_expired_rotates_away_from_the_front
    ensures Case(CONFIG, Auto, Up(0, 0),
                 [RpcFailed(TlsCertExpired, ViaVeil, true, Auth)]) == (Probing, [DemoteRelay(RELAY), RequestProxyStop, SetVeilPort(None), RequestProxyStart, InvalidateGrpcClient])
    // web_tunnel_blocked_rotates_away_from_the_front
    ensures Case(CONFIG, Auto, Up(0, 0),
                 [RpcFailed(WebTunnelBlocked, ViaVeil, true, Auth)]) == (Probing, [DemoteRelay(RELAY), RequestProxyStop, SetVeilPort(None), RequestProxyStart, InvalidateGrpcClient])
    // active_reconnects_on_a_soft_failure
    ensures Case(CONFIG, Auto, Up(0, 0),
                 [RpcFailed(StreamTimeout, ViaVeil, true, Auth)]) == (Up(1, 0), [InvalidateGrpcClient])
    // auto_leaves_veil_when_direct_answers
    ensures Case(CONFIG, Auto, Up(0, 0),
                 [RpcSucceeded(ViaDirect, Auth)]) == (Direct(0), [RequestProxyStop, SetVeilPort(None)])
    // background_stale_proxy_does_not_rotate
    ensures Case(CONFIG, Auto, Up(0, 0),
                 [RpcFailed(StaleLocalProxy, ViaVeil, false, Auth)]) == (Up(0, 0), [])
    // offline_ignores_failures
    ensures Case(CONFIG, Auto, Offline,
                 [RpcFailed(TransportUnknown, ViaDirect, true, Auth)]) == (Offline, [])
  {
    EffectLists(RELAY);
  }

  /** Counting per lane. */
  lemma LaneVectors()
    // three_soft_failures_in_a_row_rotate
    ensures Case(CONFIG, Auto, Up(2, 0),
                 [RpcFailed(TransportUnknown, ViaVeil, true, Auth)]) == (Probing, [DemoteRelay(RELAY), RequestProxyStop, SetVeilPort(None), RequestProxyStart, InvalidateGrpcClient])
    // a_success_clears_its_own_channel
    ensures Case(CONFIG, Auto, Up(2, 2),
                 [RpcSucceeded(ViaVeil, Sealed)]) == (Up(2, 0), [])
    // a_success_on_the_other_channel_does_not_clear
    ensures Case(CONFIG, Auto, Up(0, 2),
                 [RpcSucceeded(ViaVeil, Auth), RpcFailed(TransportUnknown, ViaVeil, true, Sealed)]) == (Probing, [DemoteRelay(RELAY), RequestProxyStop, SetVeilPort(None), RequestProxyStart, InvalidateGrpcClient])
    // a_background_soft_failure_does_not_count
    ensures Case(CONFIG, Auto, Up(0, 2),
                 [RpcFailed(TransportUnknown, ViaVeil, false, Sealed)]) == (Up(0, 2), [])
    // an_application_error_does_not_count
    ensures Case(CONFIG, Auto, Up(0, 2),
                 [RpcFailed(ApplicationError, ViaVeil, true, Sealed)]) == (Up(0, 2), [])
    // a_veil_stream_death_does_not_count
    ensures Case(CONFIG, Auto, Up(2, 0),
                 [StreamFailed(MidSessionTimeout, ViaVeil)]) == (Up(2, 0), [InvalidateGrpcClient])
    // active_reconnects_on_a_veil_stream_death
    ensures Case(CONFIG, Auto, Up(0, 0),
                 [StreamFailed(MidSessionTimeout, ViaVeil)]) == (Up(0, 0), [InvalidateGrpcClient])
  {
    EffectLists(RELAY);
  }

  /** Waking up and changed configuration. */
  lemma RecoveryVectors()
    // background_wake_replaces_the_veil_listener
    ensures Case(CONFIG, Auto, Up(0, 0),
                 [BackgroundWake]) == (Probing, [RequestProxyStop, SetVeilPort(None), RequestProxyStart, InvalidateGrpcClient])
    // background_wake_leaves_direct_alone
    ensures Case(CONFIG, Auto, Direct(0),
                 [BackgroundWake]) == (Direct(0), [])
    // config_change_rotates_active
    ensures Case(CONFIG, Auto, Up(0, 0),
                 [VeilConfigChanged]) == (Probing, [RequestProxyStop, SetVeilPort(None), RequestProxyStart, InvalidateGrpcClient])
  {
  }

  /** Everything under `on`. */
  lemma OnVectors()
    // turning_on_probes
    ensures Case(CONFIG, On, Direct(0),
                 [VeilModeChanged]) == (Probing, [InvalidateGrpcClient, RequestProxyStart])
    // soft_failures_rotate_on_the_sealed_channel_too
    ensures Case(CONFIG, On, Up(0, 0),
                 [RpcFailed(StreamTimeout, ViaVeil, true, Sealed), RpcFailed(StreamTimeout, ViaVeil, true, Sealed), RpcFailed(StreamTimeout, ViaVeil, true, Sealed)]) == (Probing, [DemoteRelay(RELAY), RequestProxyStop, SetVeilPort(None), RequestProxyStart, InvalidateGrpcClient])
    // on_keeps_veil_when_direct_answers
    ensures Case(CONFIG, On, Up(0, 0),
                 [RpcSucceeded(ViaDirect, Auth)]) == (Up(0, 0), [])
    // offline_ignores_mode
    ensures Case(CONFIG, On, Offline,
                 [VeilModeChanged]) == (Offline, [])
    // reachable_again_reapplies_on
    ensures Case(CONFIG, On, Offline,
                 [NetworkPathChanged(true)]) == (Probing, [RequestProxyStop, SetVeilPort(None), InvalidateGrpcClient, RequestProxyStart])
    // on_cooldown_ends_probing_not_direct
    ensures Case(CONFIG, On, Cooldown(NOW),
                 [CooldownElapsed]) == (Probing, [InvalidateGrpcClient, RequestProxyStart])
    // on_manual_reset_probes_again
    ensures Case(CONFIG, On, Up(0, 0),
                 [ManualReset]) == (Probing, [RequestProxyStop, SetVeilPort(None), InvalidateGrpcClient, RequestProxyStart])
    // on_manual_reset_from_direct_probes
    ensures Case(CONFIG, On, Direct(0),
                 [ManualReset]) == (Probing, [InvalidateGrpcClient, RequestProxyStart])
  {
    EffectLists(RELAY);
  }
}
