/** Session-manager integration of `src/mate-ui-session.c`: inhibitors with
    a native backend and a session-bus fallback, the lazily connected bus
    proxy, registration and the fire-and-forget session requests, and the
    per-application restart command and save-callback slot.

    The backends are outside the model: every reply (the native cookie,
    whether the bus connection succeeds, what a bus method answers) is an
    input, and every operation returns the list of backend calls it made. */
module Session {
  import opened Common

  /** `MateUiInhibitFlags`: a C enum, so any 32-bit pattern can be passed. */
  type Flags = bv32

  const InhibitLogout: Flags := 1
  const InhibitUserSwitch: Flags := 2
  const InhibitSuspend: Flags := 4
  const InhibitIdle: Flags := 8

  /** The four bits the enum defines. */
  const DefinedFlags: Flags := 15

  /** `convert_inhibit_flags`: one wire bit per defined local bit. */
  function ConvertInhibitFlags(flags: Flags): (r: Flags)
    ensures r == flags & DefinedFlags
    ensures r < 16
  {
    (if flags & InhibitLogout != 0 then 1 else 0)
    | (if flags & InhibitUserSwitch != 0 then 2 else 0)
    | (if flags & InhibitSuspend != 0 then 4 else 0)
    | (if flags & InhibitIdle != 0 then 8 else 0)
  }

  /** The GTK flag translation at the top of `mate_ui_session_inhibit`; the
      `GtkApplicationInhibitFlags` values are LOGOUT=1, SWITCH=2,
      SUSPEND=4 and IDLE=8. */
  function NativeInhibitFlags(flags: Flags): Flags
  {
    var gtkLogout: Flags := 1;
    var gtkSwitch: Flags := 2;
    var gtkSuspend: Flags := 4;
    var gtkIdle: Flags := 8;
    (if flags & InhibitLogout != 0 then gtkLogout else 0)
    | (if flags & InhibitUserSwitch != 0 then gtkSwitch else 0)
    | (if flags & InhibitSuspend != 0 then gtkSuspend else 0)
    | (if flags & InhibitIdle != 0 then gtkIdle else 0)
  }

  /** Both backends are asked to inhibit the same actions. */
  lemma NativeAndWireFlagsAgree(flags: Flags)
    ensures NativeInhibitFlags(flags) == ConvertInhibitFlags(flags)
  {
  }

  /** The conversion loses nothing on the defined bits and drops the rest:
      two flag sets convert alike exactly when their defined bits agree. */
  lemma ConvertInhibitFlagsInjective(f: Flags, g: Flags)
    ensures ConvertInhibitFlags(f) == ConvertInhibitFlags(g) <==> f & DefinedFlags == g & DefinedFlags
  {
  }

  /** Converting a defined set of flags gives it back. */
  lemma ConvertDefinedIsIdentity(flags: Flags)
    requires flags & DefinedFlags == flags
    ensures ConvertInhibitFlags(flags) == flags
  {
  }

  /** A `GtkApplication`: its object identity and its (possibly NULL)
      application id. */
  datatype App = App(objId: nat, appId: Option<string>)

  /** The id sent when the application has none. */
  const DefaultAppId: string := "mate-application"

  /** Which backend granted an inhibitor, with the cookie it returned. */
  datatype Grant =
    | Native(app: App, cookie: uint32)
    | Bus(busCookie: uint32)

  /** `MateUiSessionInhibitor`: `id` stands for the allocation's address. */
  datatype Inhibitor = Inhibitor(id: nat, flags: Flags, grant: Grant)

  /** A session-manager (`Sm`) bus method call as it goes over the wire. */
  datatype BusMethod =
    | SmInhibit(appId: string, toplevelXid: uint32, reason: string, wireFlags: Flags)
    | SmUninhibit(cookie: uint32)
    | SmIsInhibited(wireFlags: Flags)
    | SmRegisterClient(appId: string, clientId: string)
    | SmRequestSave
    | SmLogout(mode: uint32)
    | SmShutdown
    | SmReboot

  /** A call into a backend. */
  datatype Call =
    | NativeInhibit(app: App, nativeFlags: Flags, reason: string)
    | NativeUninhibit(app: App, cookie: uint32)
    | ConnectBus
    | BusCall(busMethod: BusMethod)

  /** Process state: whether the static proxy is set, which inhibitors are
      still allocated, and the next allocation identity. */
  datatype SessionState = SessionState(proxy: bool, live: set<nat>, nextId: nat)

  /** Every live inhibitor was allocated before. */
  predicate Valid(s: SessionState)
  {
    forall id :: id in s.live ==> id < s.nextId
  }

  /** The state of a freshly loaded library. */
  const Initial: SessionState := SessionState(false, {}, 0)

  /** What an operation did: the new state, its result and the backend
      calls in order. */
  datatype Outcome<T> = Outcome(state: SessionState, value: T, calls: seq<Call>)

  /** `get_session_manager_proxy`: the cached proxy, or one connection
      attempt whose success is `connectOk`. A failed attempt leaves the
      cache unset. */
  function GetProxy(s: SessionState, connectOk: bool): (r: Outcome<bool>)
    ensures r.value <==> s.proxy || connectOk
    ensures r.state == s.(proxy := r.value)
    ensures ConnectBus in r.calls <==> !s.proxy
  {
    if s.proxy then Outcome(s, true, [])
    else Outcome(s.(proxy := connectOk), connectOk, [ConnectBus])
  }

  /** A sequence of proxy requests, one per connection outcome; the result
      counts the connection attempts made. */
  function ConnectAttempts(s: SessionState, outcomes: seq<bool>): (r: (SessionState, nat))
    decreases |outcomes|
  {
    if outcomes == [] then (s, 0)
    else
      var o := GetProxy(s, outcomes[0]);
      var rest := ConnectAttempts(o.state, outcomes[1..]);
      (rest.0, rest.1 + |o.calls|)
  }

  /** A failed connection is retried by the next request: from an unset
      proxy, requests whose connections all fail each make an attempt. */
  lemma {:induction false} FailedConnectIsRetried(s: SessionState, outcomes: seq<bool>)
    requires !s.proxy
    requires forall i :: 0 <= i < |outcomes| ==> !outcomes[i]
    ensures ConnectAttempts(s, outcomes) == (s, |outcomes|)
    decreases |outcomes|
  {
    if outcomes != [] {
      assert forall i :: 0 <= i < |outcomes[1..]| ==> !outcomes[1..][i] by {
        forall i | 0 <= i < |outcomes[1..]| ensures !outcomes[1..][i] {
          assert outcomes[1..][i] == outcomes[i + 1];
        }
      }
      FailedConnectIsRetried(s, outcomes[1..]);
    }
  }

  /** A successful connection is never repeated: from an unset proxy, the
      number of attempts is the position of the first success. */
  lemma {:induction false} ConnectStopsAtFirstSuccess(s: SessionState, outcomes: seq<bool>, k: nat)
    requires !s.proxy
    requires k < |outcomes| && outcomes[k]
    requires forall j :: 0 <= j < k ==> !outcomes[j]
    ensures ConnectAttempts(s, outcomes) == (s.(proxy := true), k + 1)
    decreases k
  {
    if k == 0 {
      ConnectedNeverReconnects(s.(proxy := true), outcomes[1..]);
    } else {
      assert !outcomes[0];
      assert forall j :: 0 <= j < k - 1 ==> !outcomes[1..][j] by {
        forall j | 0 <= j < k - 1 ensures !outcomes[1..][j] {
          assert outcomes[1..][j] == outcomes[j + 1];
        }
      }
      ConnectStopsAtFirstSuccess(s, outcomes[1..], k - 1);
    }
  }

  /** Once the proxy is set no further connection is attempted. */
  lemma {:induction false} ConnectedNeverReconnects(s: SessionState, outcomes: seq<bool>)
    requires s.proxy
    ensures ConnectAttempts(s, outcomes) == (s, 0)
    decreases |outcomes|
  {
    if outcomes != [] {
      ConnectedNeverReconnects(s, outcomes[1..]);
    }
  }

  /** Backend replies that `mate_ui_session_inhibit` consumes: the native
      cookie (zero means refused), whether connecting the bus succeeds, the
      X11 id of the realized toplevel (zero without one), and the bus
      reply's cookie (`None` when the call fails). */
  datatype InhibitReplies = InhibitReplies(
    nativeCookie: uint32, connectOk: bool, toplevelXid: uint32, busCookie: Option<uint32>)

  /** The native backend grants the request. */
  predicate NativeGrants(app: Option<App>, replies: InhibitReplies)
  {
    app.Some? && replies.nativeCookie != 0
  }

  /** The bus backend grants the request. */
  predicate BusGrants(s: SessionState, replies: InhibitReplies)
  {
    (s.proxy || replies.connectOk) && replies.busCookie.Some?
  }

  /** The application id written as it stands in the bus path of
      `mate_ui_session_inhibit`: when an application is given its id is
      used unchecked, and an application without an id yields NULL. */
  function InhibitAppIdAsWritten(app: Option<App>): (r: Option<string>)
    ensures app.None? ==> r == Some(DefaultAppId)
    ensures app.Some? ==> r == app.value.appId
  {
    if app.Some? then app.value.appId else Some(DefaultAppId)
  }

  /** With an application that has no id, the as-written bus path has no
      string to marshal as the `s` argument of `Inhibit`. */
  lemma InhibitAppIdAsWrittenCanBeNull(objId: nat)
    ensures InhibitAppIdAsWritten(Some(App(objId, None))).None?
  {
  }

  /** The application id as `mate_ui_session_register` resolves it: the
      application's id, or the default when there is none. */
  function ResolveAppId(app: App): (r: string)
    ensures app.appId.Some? ==> r == app.appId.value
    ensures app.appId.None? ==> r == DefaultAppId
  {
    app.appId.GetOr(DefaultAppId)
  }

  /** The application id the bus path sends, with the default applied
      whenever no id is available. */
  function InhibitAppId(app: Option<App>): (r: string)
    ensures InhibitAppIdAsWritten(app).Some? ==> r == InhibitAppIdAsWritten(app).value
    ensures app.Some? ==> r == ResolveAppId(app.value)
  {
    if app.Some? then ResolveAppId(app.value) else DefaultAppId
  }

  /** The corrected id is always a string, and it agrees with the one
      `register` sends for the same application. */
  lemma InhibitAppIdIsAlwaysSent(app: App)
    ensures InhibitAppId(Some(app)) == ResolveAppId(app)
    ensures InhibitAppId(Some(app)) == DefaultAppId <==> app.appId.None? || app.appId == Some(DefaultAppId)
  {
  }

  /** `mate_ui_session_inhibit`. A NULL reason is refused before anything
      else; an empty one is accepted. The native backend is tried when an
      application is given; otherwise, or when it returns cookie 0, the
      bus is tried. No handle comes back exactly when neither grants.
      The bus call carries the corrected application id `InhibitAppId`,
      not the unchecked one (`InhibitAppIdAsWritten`), which is NULL for
      an application without an id. */
  function Inhibit(s: SessionState, app: Option<App>, flags: Flags, reason: Option<string>,
                   replies: InhibitReplies): (r: Outcome<Option<Inhibitor>>)
    ensures reason.None? ==> r == Outcome(s, None, [])
    ensures reason.Some? ==>
              (r.value.Some? <==> NativeGrants(app, replies) || BusGrants(s, replies))
    ensures r.value.Some? ==>
              && r.value.value.id == s.nextId
              && r.value.value.flags == flags
              && r.state == s.(proxy := r.state.proxy, live := s.live + {s.nextId}, nextId := s.nextId + 1)
    ensures r.value.None? ==> r.state == s.(proxy := r.state.proxy)
    ensures s.proxy ==> r.state.proxy
  {
    if reason.None? then Outcome(s, None, [])
    else
      var native :=
        if app.Some? then [NativeInhibit(app.value, NativeInhibitFlags(flags), reason.value)] else [];
      var granted := s.(live := s.live + {s.nextId}, nextId := s.nextId + 1);
      if NativeGrants(app, replies) then
        Outcome(granted, Some(Inhibitor(s.nextId, flags, Native(app.value, replies.nativeCookie))), native)
      else
        var p := GetProxy(s, replies.connectOk);
        if !p.value then Outcome(p.state, None, native + p.calls)
        else
          var call := BusCall(SmInhibit(InhibitAppId(app), replies.toplevelXid, reason.value,
                                      ConvertInhibitFlags(flags)));
          var calls := native + p.calls + [call];
          if replies.busCookie.Some? then
            Outcome(granted.(proxy := true), Some(Inhibitor(s.nextId, flags, Bus(replies.busCookie.value))), calls)
          else Outcome(p.state, None, calls)
  }

  /** A granted inhibitor records the backend that granted it: a native
      grant holds the caller's application and a non-zero cookie and the
      bus is never contacted; a bus grant holds the replied cookie after an
      `Inhibit` call carrying the wire flags and the reason. */
  lemma InhibitGrantRouting(s: SessionState, app: Option<App>, flags: Flags, reason: string,
                            replies: InhibitReplies)
    ensures var r := Inhibit(s, app, flags, Some(reason), replies);
            r.value.Some? && r.value.value.grant.Native? ==>
              && app == Some(r.value.value.grant.app)
              && r.value.value.grant.cookie == replies.nativeCookie != 0
              && (forall c :: c in r.calls ==> !c.BusCall? && c != ConnectBus)
    ensures var r := Inhibit(s, app, flags, Some(reason), replies);
            r.value.Some? && r.value.value.grant.Bus? ==>
              && !NativeGrants(app, replies)
              && replies.busCookie == Some(r.value.value.grant.busCookie)
              && BusCall(SmInhibit(InhibitAppId(app), replies.toplevelXid, reason, ConvertInhibitFlags(flags))) in r.calls
  {
  }

  /** `mate_ui_session_uninhibit`. A NULL handle does nothing. A native
      grant is released through its application with its own cookie; a bus
      grant sends `Uninhibit` with its cookie when the proxy is (or can be)
      connected. Either way the handle is freed, whatever the reply; using
      it afterwards is undefined, so the handle must still be live. */
  function Uninhibit(s: SessionState, inhibitor: Option<Inhibitor>, connectOk: bool): (r: Outcome<()>)
    requires inhibitor.Some? ==> inhibitor.value.id in s.live
    ensures inhibitor.None? ==> r == Outcome(s, (), [])
    ensures inhibitor.Some? ==> r.state.live == s.live - {inhibitor.value.id} && r.state.nextId == s.nextId
    ensures inhibitor.Some? && inhibitor.value.grant.Native? ==>
              r.calls == [NativeUninhibit(inhibitor.value.grant.app, inhibitor.value.grant.cookie)]
    ensures inhibitor.Some? && inhibitor.value.grant.Bus? ==>
              (BusCall(SmUninhibit(inhibitor.value.grant.busCookie)) in r.calls <==> s.proxy || connectOk)
  {
    if inhibitor.None? then Outcome(s, (), [])
    else
      var h := inhibitor.value;
      var freed := s.(live := s.live - {h.id});
      match h.grant
      case Native(app, cookie) => Outcome(freed, (), [NativeUninhibit(app, cookie)])
      case Bus(cookie) =>
        var p := GetProxy(freed, connectOk);
        Outcome(p.state, (), p.calls + if p.value then [BusCall(SmUninhibit(cookie))] else [])
  }

  /** Inhibit and uninhibit keep every live handle accounted for, and a
      granted handle is new. */
  lemma InhibitPreservesValid(s: SessionState, app: Option<App>, flags: Flags, reason: Option<string>,
                              replies: InhibitReplies)
    requires Valid(s)
    ensures Valid(Inhibit(s, app, flags, reason, replies).state)
    ensures var r := Inhibit(s, app, flags, reason, replies);
            r.value.Some? ==> r.value.value.id !in s.live
  {
  }

  lemma UninhibitPreservesValid(s: SessionState, inhibitor: Option<Inhibitor>, connectOk: bool)
    requires Valid(s)
    requires inhibitor.Some? ==> inhibitor.value.id in s.live
    ensures Valid(Uninhibit(s, inhibitor, connectOk).state)
  {
  }

  /** Releasing an inhibitor undoes its grant: the live set is back to what
      it was before `inhibit`, the release goes to the backend that granted
      it with the cookie that backend returned, and the handle is no longer
      live, so a second release is excluded. */
  lemma InhibitThenUninhibit(s: SessionState, app: Option<App>, flags: Flags, reason: string,
                             replies: InhibitReplies, connectOk: bool)
    requires Valid(s)
    ensures var r := Inhibit(s, app, flags, Some(reason), replies);
            r.value.Some? ==>
              var u := Uninhibit(r.state, r.value, connectOk);
              && u.state.live == s.live
              && r.value.value.id !in u.state.live
              && u.state.proxy == r.state.proxy
              && (NativeGrants(app, replies) ==>
                    u.calls == [NativeUninhibit(app.value, replies.nativeCookie)])
              && (!NativeGrants(app, replies) ==>
                    u.calls == [BusCall(SmUninhibit(replies.busCookie.value))])
  {
  }

  /** `mate_ui_session_is_inhibited`: asks the bus, whatever this process
      holds; an absent proxy or a failed call (`reply` is `None`) is false. */
  function IsInhibited(s: SessionState, flags: Flags, connectOk: bool, reply: Option<bool>): (r: Outcome<bool>)
    ensures r.value <==> (s.proxy || connectOk) && reply == Some(true)
    ensures r.state.live == s.live && r.state.nextId == s.nextId
    ensures (s.proxy || connectOk) <==> BusCall(SmIsInhibited(ConvertInhibitFlags(flags))) in r.calls
  {
    var p := GetProxy(s, connectOk);
    if !p.value then Outcome(p.state, false, p.calls)
    else Outcome(p.state, reply == Some(true), p.calls + [BusCall(SmIsInhibited(ConvertInhibitFlags(flags)))])
  }

  /** `mate_ui_session_register`: NULL application refused; otherwise
      `RegisterClient` with the resolved application id and the client id
      or "". True exactly when the call replies. */
  function Register(s: SessionState, app: Option<App>, clientId: Option<string>, connectOk: bool,
                    replied: bool): (r: Outcome<bool>)
    ensures app.None? ==> r == Outcome(s, false, [])
    ensures r.value <==> app.Some? && (s.proxy || connectOk) && replied
    ensures (app.Some? && BusCall(SmRegisterClient(ResolveAppId(app.value), clientId.GetOr(""))) in r.calls)
            <==> app.Some? && (s.proxy || connectOk)
    ensures r.state.live == s.live && r.state.nextId == s.nextId
  {
    if app.None? then Outcome(s, false, [])
    else
      var p := GetProxy(s, connectOk);
      if !p.value then Outcome(p.state, false, p.calls)
      else
        var call := BusCall(SmRegisterClient(ResolveAppId(app.value), clientId.GetOr("")));
        Outcome(p.state, replied, p.calls + [call])
  }

  /** `mate_ui_session_request_save`: true exactly when `RequestSave`
      replies. */
  function RequestSave(s: SessionState, app: Option<App>, connectOk: bool, replied: bool): (r: Outcome<bool>)
    ensures app.None? ==> r == Outcome(s, false, [])
    ensures r.value <==> app.Some? && (s.proxy || connectOk) && replied
    ensures BusCall(SmRequestSave) in r.calls <==> app.Some? && (s.proxy || connectOk)
  {
    if app.None? then Outcome(s, false, [])
    else
      var p := GetProxy(s, connectOk);
      if !p.value then Outcome(p.state, false, p.calls)
      else Outcome(p.state, replied, p.calls + [BusCall(SmRequestSave)])
  }

  /** A fire-and-forget bus request: sent when the proxy is available,
      reply and error ignored. */
  function FireAndForget(s: SessionState, connectOk: bool, m: BusMethod): (r: Outcome<()>)
    ensures BusCall(m) in r.calls <==> s.proxy || connectOk
    ensures r.state == s.(proxy := s.proxy || connectOk)
  {
    var p := GetProxy(s, connectOk);
    Outcome(p.state, (), p.calls + if p.value then [BusCall(m)] else [])
  }

  /** The `Logout` mode: 0 asks the session manager to prompt, 1 not to. */
  function LogoutMode(prompt: bool): (mode: uint32)
    ensures mode == 0 <==> prompt
    ensures mode <= 1
  {
    if prompt then 0 else 1
  }

  /** `mate_ui_session_request_logout`. */
  function RequestLogout(s: SessionState, prompt: bool, connectOk: bool): (r: Outcome<()>)
    ensures BusCall(SmLogout(LogoutMode(prompt))) in r.calls <==> s.proxy || connectOk
    ensures forall m :: BusCall(SmLogout(m)) in r.calls ==> m == LogoutMode(prompt)
  {
    FireAndForget(s, connectOk, SmLogout(LogoutMode(prompt)))
  }

  /** `mate_ui_session_request_shutdown`: the prompt flag is unused. */
  function RequestShutdown(s: SessionState, prompt: bool, connectOk: bool): (r: Outcome<()>)
    ensures BusCall(SmShutdown) in r.calls <==> s.proxy || connectOk
  {
    FireAndForget(s, connectOk, SmShutdown)
  }

  /** `mate_ui_session_request_reboot`: the prompt flag is unused. */
  function RequestReboot(s: SessionState, prompt: bool, connectOk: bool): (r: Outcome<()>)
    ensures BusCall(SmReboot) in r.calls <==> s.proxy || connectOk
  {
    FireAndForget(s, connectOk, SmReboot)
  }

  /** Only logout depends on the prompt flag, and the two modes differ. */
  lemma PromptOnlyAffectsLogout(s: SessionState, connectOk: bool)
    ensures RequestShutdown(s, true, connectOk) == RequestShutdown(s, false, connectOk)
    ensures RequestReboot(s, true, connectOk) == RequestReboot(s, false, connectOk)
    ensures (s.proxy || connectOk) ==> RequestLogout(s, true, connectOk) != RequestLogout(s, false, connectOk)
  {
    if s.proxy || connectOk {
      assert BusCall(SmLogout(0)) in RequestLogout(s, true, connectOk).calls;
      assert BusCall(SmLogout(0)) !in RequestLogout(s, false, connectOk).calls;
    }
  }

  /** The callback, user data and destroy notify of a save-callback
      registration, as opaque identities. */
  datatype SaveCallback = SaveCallback(callback: Option<nat>, userData: nat, destroy: Option<nat>)

  /** A destroy notify run on the user data it was registered with. */
  datatype DestroyNotify = DestroyNotify(notify: nat, userData: nat)

  /** The object data `mate_ui_session_*` attaches to an application. */
  datatype AppData = AppData(restartCommand: Option<seq<string>>, saveCallback: Option<SaveCallback>)

  /** What freeing an old save-callback registration runs. */
  function Release(previous: Option<SaveCallback>): (r: seq<DestroyNotify>)
    ensures |r| <= 1
    ensures |r| == 1 <==> previous.Some? && previous.value.destroy.Some?
    ensures |r| == 1 ==> r[0] == DestroyNotify(previous.value.destroy.value, previous.value.userData)
  {
    if previous.Some? && previous.value.destroy.Some? then [DestroyNotify(previous.value.destroy.value, previous.value.userData)]
    else []
  }

  /** `mate_ui_session_set_save_callback`: a NULL application is refused;
      otherwise the registration replaces the single slot and the old
      registration's destroy notify, if any, runs on its user data. */
  function SetSaveCallback(app: Option<AppData>, registration: SaveCallback): (r: (Option<AppData>, seq<DestroyNotify>))
    ensures app.None? ==> r == (None, [])
    ensures app.Some? ==> r.0 == Some(app.value.(saveCallback := Some(registration)))
    ensures app.Some? ==> r.1 == Release(app.value.saveCallback)
  {
    if app.None? then (None, [])
    else (Some(app.value.(saveCallback := Some(registration))), Release(app.value.saveCallback))
  }

  /** The slot holds one registration: of two in a row only the second is
      kept, and installing the second releases the first. */
  lemma SaveCallbackSingleSlot(d: AppData, first: SaveCallback, second: SaveCallback)
    ensures var r1 := SetSaveCallback(Some(d), first);
            var r2 := SetSaveCallback(r1.0, second);
            && r2.0 == Some(d.(saveCallback := Some(second)))
            && r2.1 == Release(Some(first))
            && r2.0 == SetSaveCallback(Some(d), second).0
  {
  }

  /** `mate_ui_session_set_restart_command`: a NULL application or vector
      is refused; otherwise a copy of `argv` replaces the stored command.
      `argc` is unused. */
  function SetRestartCommand(app: Option<AppData>, argc: int, argv: Option<seq<string>>): (r: Option<AppData>)
    ensures r.Some? <==> app.Some?
    ensures app.Some? && argv.None? ==> r == app
    ensures app.Some? && argv.Some? ==>
              r.value.restartCommand == argv && r.value.saveCallback == app.value.saveCallback
  {
    if app.None? then None
    else if argv.None? then app
    else Some(app.value.(restartCommand := argv))
  }

  /** The restart command and the save callback live under different keys:
      setting one never disturbs the other, and `argc` changes nothing. */
  lemma RestartAndSaveIndependent(d: AppData, argc: int, argc2: int, argv: seq<string>, registration: SaveCallback)
    ensures SetRestartCommand(Some(d), argc, Some(argv)) == SetRestartCommand(Some(d), argc2, Some(argv))
    ensures SetSaveCallback(SetRestartCommand(Some(d), argc, Some(argv)), registration).0
            == SetRestartCommand(SetSaveCallback(Some(d), registration).0, argc, Some(argv))
    ensures SetSaveCallback(Some(d), registration).0.value.restartCommand == d.restartCommand
  {
  }

  /** An application with the id "org.mate.Demo". */
  const DemoApp: App := App(1, Some("org.mate.Demo"))

  /** Suspend and idle inhibited for a running demo through the native
      backend: the handle is native with the backend's non-zero cookie. */
  lemma NativeInhibitExample(cookie: uint32, connectOk: bool, xid: uint32, busCookie: Option<uint32>)
    requires cookie != 0
    ensures var r := Inhibit(Initial, Some(DemoApp), InhibitSuspend | InhibitIdle, Some("demo running"),
                             InhibitReplies(cookie, connectOk, xid, busCookie));
            && r.value == Some(Inhibitor(0, 12, Native(DemoApp, cookie)))
            && r.calls == [NativeInhibit(DemoApp, 12, "demo running")]
  {
  }

  /** The native backend refuses (cookie 0) and the bus replies 42: the
      handle is a bus grant with cookie 42. */
  lemma BusFallbackExample(xid: uint32)
    ensures var r := Inhibit(Initial, Some(DemoApp), InhibitSuspend | InhibitIdle, Some("demo running"),
                             InhibitReplies(0, true, xid, Some(42)));
            && r.value == Some(Inhibitor(0, 12, Bus(42)))
            && r.calls == [NativeInhibit(DemoApp, 12, "demo running"), ConnectBus,
                           BusCall(SmInhibit("org.mate.Demo", xid, "demo running", 12))]
  {
  }
}
