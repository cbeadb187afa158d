/** The service around the worker (`BTService`): the connection state
    machine, the guards on the adapter's callbacks, the write permit, and
    the commands the application sends.

    Every callback and command is a pure function of the service fields.
    Platform calls (scanning, `connectGatt`, service discovery, MTU and
    descriptor requests, `close`) are not performed. An operation reports
    the connections it closes and the device it starts connecting to, and
    the adapter's answers come back as later callbacks. */
module BtService {
  import opened KotlinInt
  import opened Constants
  import opened BleHeader
  import opened ConnectionThread

  // ---------------------------------------------------------------------------
  // Service fields

  /** A remote device. Two devices are the same device when their addresses
      agree, as `BluetoothDevice.equals` decides. */
  datatype Device = Device(address: nat, name: string)

  /** A GATT connection. `handle` tells connections apart, as object
      identity does for `BluetoothGatt`. */
  datatype Gatt = Gatt(handle: nat, device: Device)

  /** The worker thread the service holds, and whether its loop still runs. */
  datatype Thread = Thread(worker: Worker, alive: bool)

  /** The fields of the service: whether a scan runs, the bound device, the
      open connection, the worker, the last error status, and the fields it
      shares with the worker (connection state, queues, free permits). */
  datatype Service = Service(scanning: bool, device: Option<Device>, gatt: Option<Gatt>,
                             thread: Option<Thread>, errorStatus: Option<int32>, shared: Shared)

  /** The service as its field initialisers leave it: no connection, empty
      queues, one free permit. */
  const Initial: Service := Service(false, None, None, None, None, Shared(StateNone, [], [], 1, false))

  /** The service afterwards, the broadcasts sent in order, the connections
      closed, and the device a connection was started to. */
  datatype Outcome = Outcome(service: Service, events: seq<Event>, closed: seq<Gatt>, connect: Option<Device>)

  /** Android's `BluetoothGatt.GATT_SUCCESS`. */
  const GattSuccess: int32 := 0
  /** Android's `BluetoothProfile.STATE_DISCONNECTED` and `STATE_CONNECTED`. */
  const ProfileDisconnected: int32 := 0
  const ProfileConnected: int32 := 2

  // ---------------------------------------------------------------------------
  // Connection state

  /** `setConnectionState(newState, errorMessage)`. Entering CONNECTED
      always replaces the worker with a new one, whose `init` runs while the
      old state is still recorded; NONE and ERROR always stop the worker;
      CONNECTING leaves it. The new state is broadcast either way. */
  function SetConnectionState(s: Service, newState: ConnState, withError: bool, now: int64): (r: Outcome)
    ensures r.service.shared == s.shared.(state := newState)
    ensures r.events == [StateChange(newState, withError)] && r.closed == [] && r.connect == None
    ensures r.service.scanning == s.scanning && r.service.device == s.device && r.service.gatt == s.gatt
    ensures r.service.errorStatus == s.errorStatus
    ensures newState == StateConnected ==>
              r.service.thread == Some(Thread(Init(s.shared.state, now), true))
    ensures newState == StateNone || newState == StateError ==> r.service.thread == None
    ensures newState == StateConnecting ==> r.service.thread == s.thread
  {
    var thread :=
      match newState
      case StateConnected => Some(Thread(Init(s.shared.state, now), true))
      case StateConnecting => s.thread
      case _ => None;
    Outcome(s.(thread := thread, shared := s.shared.(state := newState)), [StateChange(newState, withError)], [], None)
  }

  /** The connection a callback names, when it is not the one the service
      holds: the callback closes it. */
  function Foreign(s: Service, g: Gatt): (r: seq<Gatt>)
    ensures r == [] <==> s.gatt == Some(g)
  {
    if s.gatt != Some(g) then [g] else []
  }

  /** `doDisconnect(newState, errorMessage)`: stops the scan and the worker,
      closes the open connection, forgets the device, and enters `newState`.
      The queues and the permit are left as they are. */
  function DoDisconnect(s: Service, newState: ConnState, withError: bool, now: int64): (r: Outcome)
    ensures !r.service.scanning && r.service.device == None && r.service.gatt == None
    ensures r.service.shared == s.shared.(state := newState)
    ensures r.service.errorStatus == s.errorStatus
    ensures newState != StateConnected ==> r.service.thread == None
    ensures r.events == [StateChange(newState, withError)]
    ensures r.closed == (if s.gatt.Some? then [s.gatt.value] else []) && r.connect == None
  {
    var closed := if s.gatt.Some? then [s.gatt.value] else [];
    var cleared := s.(scanning := false, thread := None, gatt := None, device := None);
    SetConnectionState(cleared, newState, withError, now).(closed := closed)
  }

  /** `doTimeout()`, the end of the scan period: the scan stops, and unless a
      connection was made the service returns to NONE. */
  function DoTimeout(s: Service, now: int64): (r: Outcome)
    ensures !r.service.scanning && r.service.device == s.device && r.service.gatt == s.gatt
    ensures r.service.shared.state == if s.shared.state == StateConnected then StateConnected else StateNone
    ensures s.shared.state == StateConnected ==> r.service == s.(scanning := false) && r.events == []
    ensures s.shared.state != StateConnected ==>
              r.service.thread == None && r.events == [StateChange(StateNone, false)]
    ensures r.service.shared.(state := s.shared.state) == s.shared
    ensures r.closed == [] && r.connect == None
  {
    var stopped := s.(scanning := false);
    if s.shared.state != StateConnected then SetConnectionState(stopped, StateNone, false, now)
    else Outcome(stopped, [], [], None)
  }

  /** `doConnect()`: a full disconnect, then CONNECTING and a new scan. */
  function DoConnect(s: Service, now: int64): (r: Outcome)
    ensures r.service.scanning && r.service.device == None && r.service.gatt == None
    ensures r.service.thread == None && r.service.shared == s.shared.(state := StateConnecting)
    ensures r.events == [StateChange(StateNone, false), StateChange(StateConnecting, false)]
    ensures r.closed == (if s.gatt.Some? then [s.gatt.value] else []) && r.connect == None
  {
    var d := DoDisconnect(s, StateNone, false, now);
    var c := SetConnectionState(d.service, StateConnecting, false, now);
    Outcome(c.service.(scanning := true), d.events + c.events, d.closed, None)
  }

  // ---------------------------------------------------------------------------
  // Matching the adapter's name

  /** The upper case of an ASCII letter; every other character is left. */
  function Upper(c: char): (u: char)
    ensures 'a' <= c <= 'z' ==> 'A' <= u <= 'Z' && u as int == c as int - 32
    ensures !('a' <= c <= 'z') ==> u == c
  {
    if 'a' <= c <= 'z' then (c as int - 32) as char else c
  }

  /** `Char.equals(other, ignoreCase = true)` on ASCII. */
  predicate SameIgnoringCase(a: char, b: char)
  {
    a == b || Upper(a) == Upper(b)
  }

  /** `p` occurs in `s` from index `i`, ignoring case. */
  predicate MatchesAt(s: string, i: nat, p: string)
    requires i + |p| <= |s|
  {
    forall k :: 0 <= k < |p| ==> SameIgnoringCase(s[i + k], p[k])
  }

  /** Whether `p` occurs in `s` at `i` or later, ignoring case: the search
      of `String.contains(p, ignoreCase = true)`. */
  function ContainsFrom(s: string, p: string, i: nat): (r: bool)
    ensures r <==> exists j :: i <= j && j + |p| <= |s| && MatchesAt(s, j, p)
    decreases |s| - i
  {
    if i + |p| > |s| then false
    else MatchesAt(s, i, p) || ContainsFrom(s, p, i + 1)
  }

  /** `s.contains(p, ignoreCase = true)`. */
  function ContainsIgnoreCase(s: string, p: string): (r: bool)
    ensures r <==> exists j :: 0 <= j && j + |p| <= |s| && MatchesAt(s, j, p)
  {
    ContainsFrom(s, p, 0)
  }

  /** A name holding the pattern in any mix of letter cases matches. */
  lemma ContainsCaseVariant(pre: string, mid: string, post: string, p: string)
    requires |mid| == |p| && forall k :: 0 <= k < |p| ==> Upper(mid[k]) == Upper(p[k])
    ensures ContainsIgnoreCase(pre + mid + post, p)
  {
    var s := pre + mid + post;
    assert forall k :: 0 <= k < |p| ==> s[|pre| + k] == mid[k];
    assert MatchesAt(s, |pre|, p);
  }

  /** The whole name in upper case. */
  function UpperAll(s: string): (u: string)
    ensures |u| == |s| && forall i :: 0 <= i < |s| ==> u[i] == Upper(s[i])
  {
    seq(|s|, i requires 0 <= i < |s| => Upper(s[i]))
  }

  /** Matching does not depend on the letter case of the name. */
  lemma MatchIgnoresCase(s: string, p: string)
    ensures ContainsIgnoreCase(UpperAll(s), p) == ContainsIgnoreCase(s, p)
  {
    var u := UpperAll(s);
    forall j | 0 <= j && j + |p| <= |s|
      ensures MatchesAt(u, j, p) <==> MatchesAt(s, j, p)
    {
      forall k | 0 <= k < |p|
        ensures SameIgnoringCase(u[j + k], p[k]) <==> SameIgnoringCase(s[j + k], p[k])
      {
        UpperTwice(s[j + k]);
      }
    }
  }

  lemma UpperTwice(c: char)
    ensures Upper(Upper(c)) == Upper(c)
  {
  }

  // ---------------------------------------------------------------------------
  // Callbacks

  /** `onScanResult`: the first device whose name contains `BLE_TO_ISOTP`,
      ignoring case, is bound; the scan stops and a connection to it starts.
      While a device is bound, further results are ignored. */
  function OnScanResult(s: Service, dev: Device): (r: Outcome)
    ensures r.connect.Some? <==> s.device == None && ContainsIgnoreCase(dev.name, BleDeviceName)
    ensures r.connect.Some? ==>
              r.service == s.(device := Some(dev), scanning := false) && r.connect == Some(dev)
    ensures r.connect.None? ==> r.service == s
    ensures r.events == [] && r.closed == []
  {
    if s.device == None && ContainsIgnoreCase(dev.name, BleDeviceName) then
      Outcome(s.(device := Some(dev), scanning := false), [], [], Some(dev))
    else
      Outcome(s, [], [], None)
  }

  /** Whether a connection leads to the bound device. */
  predicate OurDevice(s: Service, g: Gatt)
  {
    s.device.Some? && s.device.value.address == g.device.address
  }

  /** `onConnectionStateChange`. A connection to any device but the bound
      one is closed and nothing else happens. A successful connect stores
      the connection (discovery is then requested); a successful disconnect,
      or any failure, closes a connection that is not the stored one and
      disconnects fully, recording the status and entering ERROR on failure.
      Other profile states change nothing. */
  function OnConnectionStateChange(s: Service, g: Gatt, status: int32, newState: int32, now: int64): (r: Outcome)
    ensures !OurDevice(s, g) ==> r == Outcome(s, [], [g], None)
    ensures OurDevice(s, g) && status == GattSuccess && newState == ProfileConnected ==>
              r == Outcome(s.(gatt := Some(g)), [], [], None)
    ensures (OurDevice(s, g) && status == GattSuccess && newState != ProfileConnected
             && newState != ProfileDisconnected) ==> r == Outcome(s, [], [], None)
    ensures OurDevice(s, g) && (status != GattSuccess || newState == ProfileDisconnected) ==>
              && !r.service.scanning && r.service.gatt == None && r.service.device == None
              && r.service.thread == None && r.closed == Foreign(s, g) + Held(s.gatt) && r.connect == None
    ensures OurDevice(s, g) && status == GattSuccess && newState == ProfileDisconnected ==>
              && r.service.shared == s.shared.(state := StateNone) && r.service.errorStatus == s.errorStatus
              && r.events == [StateChange(StateNone, false)]
    ensures OurDevice(s, g) && status != GattSuccess ==>
              && r.service.shared == s.shared.(state := StateError) && r.service.errorStatus == Some(status)
              && r.events == [StateChange(StateError, true)]
  {
    if !OurDevice(s, g) then Outcome(s, [], [g], None)
    else if status == GattSuccess then
      if newState == ProfileConnected then Outcome(s.(gatt := Some(g)), [], [], None)
      else if newState == ProfileDisconnected then
        var d := DoDisconnect(s, StateNone, false, now);
        d.(closed := Foreign(s, g) + d.closed)
      else Outcome(s, [], [], None)
    else
      var d := DoDisconnect(s.(errorStatus := Some(status)), StateError, true, now);
      d.(closed := Foreign(s, g) + d.closed)
  }

  /** The stored connection as a list of at most one. */
  function Held(g: Option<Gatt>): (r: seq<Gatt>)
    ensures |r| <= 1 && (r == [] <==> g.None?) && (g.Some? ==> r[0] == g.value)
  {
    if g.Some? then [g.value] else []
  }

  /** `onServicesDiscovered`: a callback for another connection closes it
      and changes nothing; a failure records the status and disconnects
      with ERROR; a success goes on to request the MTU. */
  function OnServicesDiscovered(s: Service, g: Gatt, status: int32, now: int64): (r: Outcome)
    ensures s.gatt != Some(g) ==> r == Outcome(s, [], [g], None)
    ensures s.gatt == Some(g) && status == GattSuccess ==> r == Outcome(s, [], [], None)
    ensures s.gatt == Some(g) && status != GattSuccess ==>
              && !r.service.scanning && r.service.gatt == None && r.service.device == None
              && r.service.thread == None && r.service.shared == s.shared.(state := StateError)
              && r.service.errorStatus == Some(status) && r.events == [StateChange(StateError, true)]
              && r.closed == [g] && r.connect == None
  {
    if s.gatt != Some(g) then Outcome(s, [], [g], None)
    else if status == GattSuccess then Outcome(s, [], [], None)
    else DoDisconnect(s.(errorStatus := Some(status)), StateError, true, now)
  }

  /** `onMtuChanged`: on success, a callback for another connection closes
      it and changes nothing, and for the stored one the service becomes
      CONNECTED (notifications are then enabled). On failure the guard is
      only used to close a foreign connection: the service disconnects with
      ERROR whichever connection failed. */
  function OnMtuChanged(s: Service, g: Gatt, status: int32, now: int64): (r: Outcome)
    ensures status == GattSuccess && s.gatt != Some(g) ==> r == Outcome(s, [], [g], None)
    ensures status == GattSuccess && s.gatt == Some(g) ==>
              r.service.shared == s.shared.(state := StateConnected)
              && r.service.thread == Some(Thread(Init(s.shared.state, now), true))
              && r.events == [StateChange(StateConnected, false)]
    ensures status != GattSuccess ==>
              && !r.service.scanning && r.service.gatt == None && r.service.device == None
              && r.service.thread == None && r.service.shared == s.shared.(state := StateError)
              && r.service.errorStatus == Some(status) && r.events == [StateChange(StateError, true)]
              && r.closed == Foreign(s, g) + Held(s.gatt) && r.connect == None
  {
    if status == GattSuccess then
      if s.gatt != Some(g) then Outcome(s, [], [g], None)
      else SetConnectionState(s, StateConnected, false, now)
    else
      var d := DoDisconnect(s.(errorStatus := Some(status)), StateError, true, now);
      d.(closed := Foreign(s, g) + d.closed)
  }

  /** `onCharacteristicWrite`, whatever its status: the permit is released.
      The callback does not check which connection it comes from. */
  function OnCharacteristicWrite(s: Service): (r: Service)
    ensures r.shared.permits == s.shared.permits + 1
    ensures r == s.(shared := r.shared) && r.shared.(permits := s.shared.permits) == s.shared
  {
    s.(shared := s.shared.(permits := s.shared.permits + 1))
  }

  /** `onCharacteristicChanged`: the notification is split and the frames
      go onto the read queue, as `Accounts` describes them. The callback
      does not check which connection it comes from. */
  function OnCharacteristicChanged(s: Service, value: seq<int8>): (r: Service)
    ensures exists sp: Split :: Accounts(value, sp) && r.shared.readQueue == s.shared.readQueue + sp.frames
    ensures r == s.(shared := r.shared) && r.shared.(readQueue := s.shared.readQueue) == s.shared
  {
    SplitShape(value);
    s.(shared := s.shared.(readQueue := s.shared.readQueue + SplitFrames(value).frames))
  }

  // ---------------------------------------------------------------------------
  // Commands

  /** The action codes of the service's commands. */
  const BtStopService: int32 := 0
  const BtStartService: int32 := 1
  const BtDoConnect: int32 := 2
  const BtDoDisconnect: int32 := 3
  const BtDoCheckVin: int32 := 4
  const BtDoCheckPid: int32 := 5
  const BtDoStopPid: int32 := 6
  const BtDoClearDtc: int32 := 7
  const BtDoGetEcuInfo: int32 := 8
  const BtDoFlashEcuCal: int32 := 9

  /** The task a command schedules, if it schedules one. */
  function CommandTask(action: int32): (r: Option<Task>)
    ensures r.Some? <==> BtDoCheckVin <= action <= BtDoFlashEcuCal
  {
    match action
    case 4 => Some(TaskReadVin)
    case 5 => Some(TaskLogging)
    case 6 => Some(TaskNone)
    case 7 => Some(TaskClearDtc)
    case 8 => Some(TaskGetEcuInfo)
    case 9 => Some(TaskFlashEcuCal)
    case _ => None
  }

  /** Each task the application can ask for has exactly one command. */
  lemma CommandTaskInjective(a: int32, b: int32)
    requires CommandTask(a).Some? && CommandTask(a) == CommandTask(b)
    ensures a == b
  {
  }

  /** `onStartCommand`: stopping the service and disconnecting disconnect;
      connecting connects; a task command is passed to the worker's
      `setTaskState` when there is a worker and is dropped otherwise.
      Starting the service and unknown actions only concern the platform. */
  function OnStartCommand(s: Service, action: int32, now: int64): (r: Outcome)
    ensures action == BtStopService || action == BtDoDisconnect ==> r == DoDisconnect(s, StateNone, false, now)
    ensures action == BtDoConnect ==> r == DoConnect(s, now)
    ensures CommandTask(action).Some? && s.thread.Some? ==>
              var e := SetTaskState(s.thread.value.worker, s.shared.state, CommandTask(action).value, now);
              && r.service.thread == Some(s.thread.value.(worker := e.worker))
              && r.service.shared == s.shared.(writeQueue := s.shared.writeQueue + e.writes)
              && r.events == e.events
    ensures CommandTask(action).Some? && s.thread.None? ==> r == Outcome(s, [], [], None)
    ensures action == BtStartService || action < 0 || action > BtDoFlashEcuCal ==> r == Outcome(s, [], [], None)
  {
    if action == BtStopService || action == BtDoDisconnect then DoDisconnect(s, StateNone, false, now)
    else if action == BtDoConnect then DoConnect(s, now)
    else if CommandTask(action).Some? then
      if s.thread.None? then Outcome(s, [], [], None)
      else
        var e := SetTaskState(s.thread.value.worker, s.shared.state, CommandTask(action).value, now);
        Outcome(s.(thread := Some(s.thread.value.(worker := e.worker)),
                   shared := s.shared.(writeQueue := s.shared.writeQueue + e.writes)),
                e.events, [], None)
    else Outcome(s, [], [], None)
  }

  // ---------------------------------------------------------------------------
  // The service as a whole

  /** The service together with the writes the adapter has taken and not yet
      acknowledged. */
  datatype System = System(service: Service, inFlight: seq<Outbound>)

  /** What can happen next: a command, a callback, the end of the scan
      period, or one pass of the worker's loop (`canWrite` says whether the
      write to the adapter succeeds). */
  datatype Input =
    | Command(action: int32)
    | ScanResult(device: Device)
    | ConnectionStateChange(gatt: Gatt, status: int32, newState: int32)
    | ServicesDiscovered(gatt: Gatt, status: int32)
    | MtuChanged(gatt: Gatt, status: int32)
    | WriteAck
    | Notification(value: seq<int8>)
    | ScanTimeout
    | WorkerRuns(canWrite: bool)

  /** The adapter acknowledges only writes it has taken. */
  predicate Enabled(sys: System, input: Input)
  {
    input.WriteAck? ==> sys.inFlight != []
  }

  /** The service after a callback or command that does not touch the
      adapter's pending writes. */
  function Apply(sys: System, o: Outcome): (r: System)
    ensures r.service == o.service && r.inFlight == sys.inFlight
  {
    System(o.service, sys.inFlight)
  }

  /** One pass of a live worker's loop: a request handed to the adapter
      becomes pending there, and the thread stays registered with the
      service when its loop ends. */
  function RunWorker(sys: System, th: Thread, st: Settings, lg: Logger, canWrite: bool, now: int64): (r: System)
    ensures var it := Step(th.worker, sys.service.shared, st, lg, canWrite, now);
            && r.service == sys.service.(thread := Some(Thread(it.worker, it.running)), shared := it.shared)
            && r.inFlight == sys.inFlight + Taken(it.sent)
  {
    var it := Step(th.worker, sys.service.shared, st, lg, canWrite, now);
    System(sys.service.(thread := Some(Thread(it.worker, it.running)), shared := it.shared),
           sys.inFlight + Taken(it.sent))
  }

  /** The service's reaction to one input. */
  function Next(sys: System, input: Input, st: Settings, lg: Logger, now: int64): (r: System)
    requires Enabled(sys, input)
    ensures input.WorkerRuns? ==> sys.inFlight <= r.inFlight && |r.inFlight| <= |sys.inFlight| + 1
    ensures input.WriteAck? ==> r.inFlight == sys.inFlight[1..]
    ensures !input.WorkerRuns? && !input.WriteAck? ==> r.inFlight == sys.inFlight
  {
    var s := sys.service;
    match input
    case Command(action) => Apply(sys, OnStartCommand(s, action, now))
    case ScanResult(dev) => Apply(sys, OnScanResult(s, dev))
    case ConnectionStateChange(g, status, newState) => Apply(sys, OnConnectionStateChange(s, g, status, newState, now))
    case ServicesDiscovered(g, status) => Apply(sys, OnServicesDiscovered(s, g, status, now))
    case MtuChanged(g, status) => Apply(sys, OnMtuChanged(s, g, status, now))
    case WriteAck => System(OnCharacteristicWrite(s), sys.inFlight[1..])
    case Notification(value) => System(OnCharacteristicChanged(s, value), sys.inFlight)
    case ScanTimeout => Apply(sys, DoTimeout(s, now))
    case WorkerRuns(canWrite) =>
      if s.thread.Some? && s.thread.value.alive then RunWorker(sys, s.thread.value, st, lg, canWrite, now)
      else sys
  }

  /** What the service keeps true between inputs: the permit is free
      exactly when no write is pending at the adapter; a worker is
      registered exactly while connected; a connection is only stored for
      the bound device; and a scan runs only while connecting with no device
      bound. */
  predicate Inv(sys: System)
    ensures Inv(sys) ==> |sys.inFlight| <= 1 && sys.service.shared.permits <= 1
  {
    var s := sys.service;
    && s.shared.permits + |sys.inFlight| == 1
    && (s.thread.Some? <==> s.shared.state == StateConnected)
    && (s.gatt.Some? ==> OurDevice(s, s.gatt.value))
    && (s.scanning ==> s.device.None? && s.shared.state == StateConnecting)
  }

  /** The service starts in a state that keeps the invariant. */
  lemma InitialInv()
    ensures Inv(System(Initial, []))
  {
  }

  /** Every input keeps the invariant. */
  lemma NextKeepsInv(sys: System, input: Input, st: Settings, lg: Logger, now: int64)
    requires Inv(sys) && Enabled(sys, input)
    ensures Inv(Next(sys, input, st, lg, now))
  {
    var s := sys.service;
    if input.WorkerRuns? {
      if s.thread.Some? && s.thread.value.alive {
        WorkerKeepsInv(sys, s.thread.value, st, lg, input.canWrite, now);
      }
    } else {
      CallbackKeepsInv(sys, input, now);
    }
  }

  /** A pass of the worker's loop hands a request to the adapter exactly
      when it takes the permit, and leaves the connection state alone. */
  lemma WorkerKeepsInv(sys: System, th: Thread, st: Settings, lg: Logger, canWrite: bool, now: int64)
    requires Inv(sys) && sys.service.thread == Some(th)
    ensures Inv(RunWorker(sys, th, st, lg, canWrite, now))
  {
  }

  /** Commands and callbacks keep the invariant. */
  lemma CallbackKeepsInv(sys: System, input: Input, now: int64)
    requires Inv(sys) && Enabled(sys, input) && !input.WorkerRuns?
    ensures var s := sys.service;
            var r := match input
              case Command(action) => Apply(sys, OnStartCommand(s, action, now))
              case ScanResult(dev) => Apply(sys, OnScanResult(s, dev))
              case ConnectionStateChange(g, status, newState) => Apply(sys, OnConnectionStateChange(s, g, status, newState, now))
              case ServicesDiscovered(g, status) => Apply(sys, OnServicesDiscovered(s, g, status, now))
              case MtuChanged(g, status) => Apply(sys, OnMtuChanged(s, g, status, now))
              case WriteAck => System(OnCharacteristicWrite(s), sys.inFlight[1..])
              case Notification(value) => System(OnCharacteristicChanged(s, value), sys.inFlight)
              case ScanTimeout => Apply(sys, DoTimeout(s, now))
              case WorkerRuns(_) => sys;
            Inv(r)
  {
  }

  /** A callback about a connection that is not the service's own changes
      nothing but closing that connection, except in two places: the
      connection-state callback compares devices, not connections, so only
      a connection to another device is ignored there; and the MTU callback
      guards only its success path. */
  lemma ForeignCallbacksChangeNothing(sys: System, g: Gatt, status: int32, newState: int32,
                                      st: Settings, lg: Logger, now: int64)
    requires Inv(sys) && sys.service.gatt != Some(g)
    ensures !OurDevice(sys.service, g) ==> Next(sys, ConnectionStateChange(g, status, newState), st, lg, now) == sys
    ensures Next(sys, ServicesDiscovered(g, status), st, lg, now) == sys
    ensures Next(sys, MtuChanged(g, GattSuccess), st, lg, now) == sys
    ensures status != GattSuccess ==>
              Next(sys, MtuChanged(g, status), st, lg, now).service.shared.state == StateError
  {
  }

  /** Because the connection-state callback compares devices, a stale
      second connection to the bound device ends the session: a failure
      enters ERROR and a disconnect enters NONE, either way forgetting the
      device and dropping the worker. */
  lemma StaleConnectionEndsSession(sys: System, g: Gatt, status: int32, newState: int32,
                                   st: Settings, lg: Logger, now: int64)
    requires Inv(sys) && sys.service.gatt != Some(g) && OurDevice(sys.service, g)
    ensures status != GattSuccess ==>
              var r := Next(sys, ConnectionStateChange(g, status, newState), st, lg, now);
              r.service.shared.state == StateError && r.service.device == None && r.service.thread == None
    ensures status == GattSuccess && newState == ProfileDisconnected ==>
              var r := Next(sys, ConnectionStateChange(g, status, newState), st, lg, now);
              r.service.shared.state == StateNone && r.service.device == None && r.service.thread == None
  {
  }

  /** A scan period ending after the connection was made leaves the
      session, its worker and its queues as they are. */
  lemma TimeoutKeepsSession(sys: System, st: Settings, lg: Logger, now: int64)
    requires sys.service.shared.state == StateConnected
    ensures Next(sys, ScanTimeout, st, lg, now) == System(sys.service.(scanning := false), sys.inFlight)
  {
  }

  /** A write the adapter refuses ends the worker's loop, but the service
      stays CONNECTED and keeps the dead thread registered: task commands
      still reach it, yet nothing sends the queued requests any more. */
  lemma WriteFailureOrphansWorker(sys: System, st: Settings, lg: Logger, now: int64)
    requires Inv(sys) && sys.service.shared.state == StateConnected
    requires sys.service.thread.Some? && sys.service.thread.value.alive
    requires sys.service.shared.writeQueue != [] && sys.service.shared.permits > 0
    ensures var r := Next(sys, WorkerRuns(false), st, lg, now);
            && r.service.shared.state == StateConnected
            && r.service.thread == Some(Thread(sys.service.thread.value.worker, false))
            && r.service.shared.writeQueue == sys.service.shared.writeQueue[1..]
            && r.service.shared.permits == sys.service.shared.permits
            && r.inFlight == sys.inFlight
            && Next(r, WorkerRuns(true), st, lg, now) == r
  {
    var th := sys.service.thread.value;
    StepWriteFails(th.worker, sys.service.shared, st, lg, false, now);
  }

  /** Connecting: a scan, a matching device, its connection, discovery and
      the MTU exchange leave the service CONNECTED with a new worker and no
      scan running, from whatever state it was in. */
  lemma ConnectSequence(sys: System, dev: Device, g: Gatt, st: Settings, lg: Logger, now: int64)
    requires ContainsIgnoreCase(dev.name, BleDeviceName) && g.device == dev
    ensures var s1 := Next(sys, Command(BtDoConnect), st, lg, now);
            var s2 := Next(s1, ScanResult(dev), st, lg, now);
            var s3 := Next(s2, ConnectionStateChange(g, GattSuccess, ProfileConnected), st, lg, now);
            var s4 := Next(s3, ServicesDiscovered(g, GattSuccess), st, lg, now);
            var s5 := Next(s4, MtuChanged(g, GattSuccess), st, lg, now);
            && s5.service.shared.state == StateConnected
            && s5.service.thread == Some(Thread(Fresh, true))
            && s5.service.device == Some(dev) && s5.service.gatt == Some(g) && !s5.service.scanning
            && s5.service.shared.(state := sys.service.shared.state) == sys.service.shared
            && s5.inFlight == sys.inFlight
  {
    var s1 := Next(sys, Command(BtDoConnect), st, lg, now);
    assert s1.service.shared.state == StateConnecting && s1.service.device == None;
    var s2 := Next(s1, ScanResult(dev), st, lg, now);
    assert s2.service.device == Some(dev);
    var s3 := Next(s2, ConnectionStateChange(g, GattSuccess, ProfileConnected), st, lg, now);
    assert s3.service.gatt == Some(g);
  }
}
