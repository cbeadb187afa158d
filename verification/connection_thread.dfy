/** The worker thread of the service (`ConnectionThread`): its task state
    machine, the frames each task queues when it starts, the handling of one
    inbound frame, and one iteration of its loop.

    The clock is a parameter `now`, read once per operation. The logging
    collaborator and the user settings are parameters too. An operation
    returns what it does to the service: the frames it appends to the write
    queue and the broadcasts it sends, both in order. */
module ConnectionThread {
  import opened KotlinInt
  import opened Constants
  import opened BleHeader

  // ---------------------------------------------------------------------------
  // State, collaborators and effects

  /** The fields of one `ConnectionThread`. */
  datatype Worker = Worker(task: Task, next: Task, count: int32, time: int64, timeNext: int64, timeOut: int64)

  /** A thread as its field initialisers leave it, before `init` runs. */
  const Fresh: Worker := Worker(TaskNone, TaskNone, 0, 0, 0, 0)

  /** The broadcasts the service sends. */
  datatype Event =
    | StateChange(newState: ConnState, withError: bool)
    | TaskChange(newTask: Task)
    | Read(buffer: seq<int8>)
    | ReadVin(buffer: seq<int8>)
    | ReadDtc(buffer: seq<int8>)
    | ReadLog(count: int32, time: int64, result: int32)
    | WriteLog(enabled: bool)
    | EcuInfo(buffer: seq<int8>)
  {
    /** The message kind the broadcast is sent under. */
    function Message(): int32
    {
      match this
      case StateChange(_, _) => MessageStateChange
      case TaskChange(_) => MessageTaskChange
      case Read(_) => MessageRead
      case ReadVin(_) => MessageReadVin
      case ReadDtc(_) => MessageReadDtc
      case ReadLog(_, _, _) => MessageReadLog
      case WriteLog(_) => MessageWriteLog
      case EcuInfo(_) => MessageEcuInfo
    }
  }

  /** The user settings the worker reads. */
  datatype Settings = Settings(updateRate: int32, persistDelay: int32, persistQDelay: int32)

  /** The logging collaborator as one iteration sees it: what `processFrame`
      answers, how many initialisation frames there are, the frames it builds,
      and whether it is writing a log once the frame has been processed. */
  datatype Logger = Logger(
    processFrame: (int32, seq<int8>) -> int32,
    frameCount: int32,
    buildFrame: int32 -> seq<int8>,
    enabled: bool)

  /** The worker afterwards, the requests appended to the write queue, and
      the broadcasts sent. */
  datatype Effect = Effect(worker: Worker, writes: seq<Outbound>, events: seq<Event>)

  // ---------------------------------------------------------------------------
  // Outbound frames

  /** A default header carrying the given command flags and payload size. */
  function CommandHeader(flags: int32, size: int32): (h: Header)
    ensures IsValid(h) && h.rxID == BleHeaderRx && h.txID == BleHeaderTx
    ensures h.cmdFlags == flags && h.cmdSize == size
  {
    NewHeader().(cmdFlags := flags, cmdSize := size)
  }

  /** `bleHeader.toByteArray() + dataBytes` */
  function Frame(h: Header, data: seq<int8>): (f: seq<int8>)
    ensures |f| == 8 + |data| && f[8..] == data
  {
    var head := ToByteArray(h);
    head + data
  }

  /** The command flags of a settings frame: the settings flag with the
      setting number below it. `SettingsFlagsOr` shows this is
      `BLE_COMMAND_FLAG_SETTINGS or setting` for every setting number. */
  function SettingsFlags(setting: int32): int32
    requires 0 <= setting < BleCommandFlagSettings
  {
    BleCommandFlagSettings + setting
  }

  lemma SettingsFlagsOr(setting: int32)
    requires 0 <= setting < BleCommandFlagSettings
    ensures SettingsFlags(setting) == Or32(BleCommandFlagSettings, setting)
  {
    SettingsCommand(setting);
  }

  /** The adapter's LED colour: `[0, 0x80, 0, 0]` while a log is being
      written, `[0, 0, 0x80, 0]` otherwise. */
  function LedColor(enabled: bool): (r: seq<int8>)
    ensures |r| == 4
  {
    if enabled then [0x00, Wrap8(0x80), 0x00, 0x00] else [0x00, 0x00, Wrap8(0x80), 0x00]
  }

  /** A two-byte setting value, low byte first. */
  function SettingBytes(x: int32): (r: seq<int8>)
    ensures |r| == 2 && Le16(r[0], r[1]) == x % 0x1_0000
  {
    EncodeShort(x);
    [LowByte(x), HighByte(x)]
  }

  /** The header of `clearDTC()`: receive id 0x7E8, transmit id 0x700. */
  function ClearDtcHeader(): Header
  {
    NewHeader().(rxID := 0x7E8, txID := 0x700, cmdSize := 1, cmdFlags := BleCommandFlagPerClear)
  }

  /** A request the worker appends to the write queue. The queue holds byte
      arrays; `Bytes` gives the byte array of each request, so a queue of
      requests stands for the queue of their byte arrays. */
  datatype Outbound =
    | StopOut                             // `setTaskState`: clear persistent requests, LED off
    | LedOut(enabled: bool)               // the LED colour for the logger's writing state
    | PersistDelayOut(delay: int32)       // BRG_SETTING_PERSIST_DELAY
    | PersistQDelayOut(delay: int32)      // BRG_SETTING_PERSIST_Q_DELAY
    | VinOut                              // read the vehicle identification number
    | ClearDtcOut                         // `clearDTC()`
    | EcuInfoOut(entry: EcuInfoEntry)     // `getECUInfo()`, one table entry
    | LogOut(frame: seq<int8>)            // a frame the logger built
  {
    /** A request the service builds as one header and its payload. */
    predicate Single()
    {
      !StopOut? && !LogOut?
    }
  }

  /** The header of a single-frame request. */
  function HeaderOf(o: Outbound): Header
    requires o.Single()
  {
    match o
    case LedOut(_) => CommandHeader(SettingsFlags(BrgSettingLedColor), 4)
    case PersistDelayOut(_) => CommandHeader(SettingsFlags(BrgSettingPersistDelay), 2)
    case PersistQDelayOut(_) => CommandHeader(SettingsFlags(BrgSettingPersistQDelay), 2)
    case VinOut => CommandHeader(BleCommandFlagPerClear, 3)
    case ClearDtcOut => ClearDtcHeader()
    case EcuInfoOut(_) => CommandHeader(BleCommandFlagPerClear, 3)
  }

  /** The payload of a single-frame request. */
  function DataOf(o: Outbound): seq<int8>
    requires o.Single()
  {
    match o
    case LedOut(enabled) => LedColor(enabled)
    case PersistDelayOut(delay) => SettingBytes(delay)
    case PersistQDelayOut(delay) => SettingBytes(delay)
    case VinOut => [0x22, Wrap8(0xF1), Wrap8(0x90)]
    case ClearDtcOut => [0x04]
    case EcuInfoOut(e) => [0x22] + e.Id()
  }

  /** A single-frame request: its header, then its payload. */
  function SingleFrame(o: Outbound): seq<int8>
    requires o.Single()
  {
    Frame(HeaderOf(o), DataOf(o))
  }

  /** An empty persist-clear command followed by an LED setting, in one
      array. `setTaskState` queues it with the colour for "not logging". */
  function StopBuffer(enabled: bool): (b: seq<int8>)
    ensures |b| == 20
  {
    Frame(CommandHeader(BleCommandFlagPerClear, 0), []) + SingleFrame(LedOut(enabled))
  }

  /** The byte array queued for a request. */
  function Bytes(o: Outbound): seq<int8>
  {
    match o
    case StopOut => StopBuffer(false)
    case LogOut(frame) => frame
    case _ => SingleFrame(o)
  }

  /** Every single-frame request's header declares the length of its
      payload and holds its fields in range. Settings requests carry the
      settings flag or-ed with the setting number; the others carry the
      persist-clear flag. Only the clear request leaves the default ids. */
  lemma HeaderFits(o: Outbound)
    requires o.Single()
    ensures HeaderOf(o).cmdSize == |DataOf(o)|
    ensures InRange(HeaderOf(o).(tickCount := TickCount(HeaderOf(o).rxID, HeaderOf(o).txID)))
    ensures HeaderOf(o).cmdFlags ==
              match o
              case LedOut(_) => Or32(BleCommandFlagSettings, BrgSettingLedColor)
              case PersistDelayOut(_) => Or32(BleCommandFlagSettings, BrgSettingPersistDelay)
              case PersistQDelayOut(_) => Or32(BleCommandFlagSettings, BrgSettingPersistQDelay)
              case _ => BleCommandFlagPerClear
    ensures HeaderOf(o).hdID == BleHeaderId
    ensures (HeaderOf(o).rxID, HeaderOf(o).txID) == if o.ClearDtcOut? then (0x7E8, 0x700) else (BleHeaderRx, BleHeaderTx)
  {
    match o
    case LedOut(_) => SettingsFlagsOr(BrgSettingLedColor);
    case PersistDelayOut(_) => SettingsFlagsOr(BrgSettingPersistDelay);
    case PersistQDelayOut(_) => SettingsFlagsOr(BrgSettingPersistQDelay);
    case EcuInfoOut(e) => assert |e.Id()| == 2;
    case _ =>
  }

  /** The requests `startNextTask` queues for the task it starts. */
  function EntryFrames(task: Task, st: Settings, lg: Logger): (r: seq<Outbound>)
    ensures r == [] <==> task == TaskNone || task == TaskFlashing
    ensures forall i :: 0 <= i < |r| ==> !r[i].LedOut?
    ensures task == TaskGetEcuInfo ==>
              |r| == EcuInfoCount && forall i :: 0 <= i < |r| ==> r[i] == EcuInfoOut(EcuInfoAt(i))
  {
    match task
    case TaskLogging =>
      [PersistDelayOut(st.persistDelay), PersistQDelayOut(st.persistQDelay), LogOut(lg.buildFrame(0))]
    case TaskReadVin => [VinOut]
    case TaskGetEcuInfo => seq(EcuInfoCount, i requires 0 <= i < EcuInfoCount => EcuInfoOut(EcuInfoAt(i)))
    case TaskClearDtc | TaskFlashEcuCal => [ClearDtcOut]
    case TaskNone | TaskFlashing => []
  }

  /** The tick count a decoded default header carries. */
  const DefaultTick: int32 := TickCount(BleHeaderRx, BleHeaderTx)

  /** A frame whose header declares the length of its payload is one the
      splitter takes whole, and its header decodes to the one it was built
      from, with the tick count the decoder derives from the two ids. */
  lemma FrameDecodes(h: Header, data: seq<int8>)
    requires InRange(h.(tickCount := TickCount(h.rxID, h.txID))) && h.cmdSize == |data|
    ensures WellFormed(Frame(h, data))
    ensures FromByteArray(Frame(h, data)) == Decoded(h.(tickCount := TickCount(h.rxID, h.txID)))
  {
    var f, e := Frame(h, data), ToByteArray(h);
    var d := h.(tickCount := TickCount(h.rxID, h.txID));
    assert f[..8] == e;
    assert ToByteArray(d) == e;
    RoundTrip(d);
    DecodePrefix(f);
    FrameWellFormed(h, data);
  }

  /** The size a frame's header declares is the size field of the header
      it was built from, so the splitter takes it whole when that is the
      payload's length. */
  lemma FrameWellFormed(h: Header, data: seq<int8>)
    requires 0 <= h.cmdSize < 0x1_0000 && h.cmdSize == |data|
    ensures WellFormed(Frame(h, data))
  {
    var f, e := Frame(h, data), ToByteArray(h);
    assert f[..8] == e;
    assert DeclaredSize(f) == Le16(e[6], e[7]);
    DivModUnique(h.cmdSize, 0x1_0000, 0, h.cmdSize);
  }

  /** A single-frame request is one frame the splitter takes whole. */
  lemma OutboundWellFormed(o: Outbound)
    requires o.Single()
    ensures WellFormed(Bytes(o))
  {
    HeaderFits(o);
    FrameWellFormed(HeaderOf(o), DataOf(o));
  }

  /** A single-frame request is one frame the splitter takes whole; its
      header decodes to the one it was built from and its payload follows. */
  lemma OutboundDecodes(o: Outbound)
    requires o.Single()
    ensures WellFormed(Bytes(o))
    ensures FromByteArray(Bytes(o)) == Decoded(HeaderOf(o).(tickCount := TickCount(HeaderOf(o).rxID, HeaderOf(o).txID)))
    ensures Bytes(o)[8..] == DataOf(o)
  {
    HeaderFits(o);
    FrameDecodes(HeaderOf(o), DataOf(o));
  }

  /** The stop buffer is two whole frames laid end to end: the empty
      persist-clear command, then the LED request. `CommandThenFrameSplits`
      shows the splitter would separate such a pair again. */
  lemma StopBufferParts(enabled: bool)
    ensures StopBuffer(enabled) == Frame(CommandHeader(BleCommandFlagPerClear, 0), []) + Bytes(LedOut(enabled))
    ensures WellFormed(Frame(CommandHeader(BleCommandFlagPerClear, 0), [])) && WellFormed(Bytes(LedOut(enabled)))
  {
    FrameWellFormed(CommandHeader(BleCommandFlagPerClear, 0), []);
    OutboundWellFormed(LedOut(enabled));
  }

  /** An empty command followed by a whole frame splits back into the two. */
  lemma CommandThenFrameSplits(flags: int32, next: seq<int8>)
    requires 0 <= flags < 0x100 && WellFormed(next)
    ensures SplitFrames(Frame(CommandHeader(flags, 0), []) + next)
              == Split([Frame(CommandHeader(flags, 0), []), next], [], false)
  {
    FrameWellFormed(CommandHeader(flags, 0), []);
    TwoFramesSplit(Frame(CommandHeader(flags, 0), []), next);
  }

  /** Two whole frames laid end to end split back into the same two. */
  lemma TwoFramesSplit(a: seq<int8>, b: seq<int8>)
    requires WellFormed(a) && WellFormed(b)
    ensures SplitFrames(a + b) == Split([a, b], [], false)
  {
    var fs: seq<seq<int8>> := [a, b];
    assert Flatten(fs) == a + b by {
      FlattenCons(b, []);
      FlattenCons(a, [b]);
      assert [a] + [b] == fs && [b] + [] == [b];
    }
    SplitWellFormed(fs);
  }

  /** Every request a task queues when it starts is a single frame, except
      the logger's first logging frame, which the logger builds itself. */
  lemma EntryFramesSingle(task: Task, st: Settings, lg: Logger)
    ensures forall i :: 0 <= i < |EntryFrames(task, st, lg)| ==>
              (EntryFrames(task, st, lg)[i].Single() <==> !(task == TaskLogging && i == 2))
    ensures task == TaskLogging ==> EntryFrames(task, st, lg)[2] == LogOut(lg.buildFrame(0))
  {
  }

  /** How many requests each task queues when it starts: the two logger
      settings and the first logging frame, one request for the VIN, one per
      table entry, one clear request, or none. */
  lemma EntryFrameCount(task: Task, st: Settings, lg: Logger)
    ensures |EntryFrames(task, st, lg)| ==
              match task
              case TaskLogging => 3
              case TaskGetEcuInfo => EcuInfoCount
              case TaskReadVin | TaskClearDtc | TaskFlashEcuCal => 1
              case TaskNone | TaskFlashing => 0
  {
  }

  /** The payload and header of the `i`-th single-frame request a task
      queues when it starts. The VIN request reads identifier F190, the
      table requests read the entries' identifiers in table order, the clear
      request is the one-byte service 0x04 to the broadcast ids, and the
      logger's settings carry its two persistence delays. */
  lemma EntryPayload(task: Task, st: Settings, lg: Logger, i: nat)
    requires i < |EntryFrames(task, st, lg)| && EntryFrames(task, st, lg)[i].Single()
    ensures var o := EntryFrames(task, st, lg)[i];
            task == TaskReadVin ==>
              DataOf(o) == [0x22, Wrap8(0xF1), Wrap8(0x90)] && HeaderOf(o).cmdFlags == BleCommandFlagPerClear
    ensures var o := EntryFrames(task, st, lg)[i];
            task == TaskGetEcuInfo ==>
              DataOf(o) == [0x22] + EcuInfoAt(i).Id() && HeaderOf(o).cmdFlags == BleCommandFlagPerClear
    ensures var o := EntryFrames(task, st, lg)[i];
            task == TaskClearDtc || task == TaskFlashEcuCal ==>
              DataOf(o) == [0x04] && HeaderOf(o).rxID == 0x7E8 && HeaderOf(o).txID == 0x700
    ensures var o := EntryFrames(task, st, lg)[i];
            task == TaskLogging ==>
              && DataOf(o) == SettingBytes(if i == 0 then st.persistDelay else st.persistQDelay)
              && HeaderOf(o).cmdFlags
                 == BleCommandFlagSettings + (if i == 0 then BrgSettingPersistDelay else BrgSettingPersistQDelay)
  {
  }

  // ---------------------------------------------------------------------------
  // Task changes

  /** `setTaskState(newTask)`. Unless the service is connected it only drops
      the running task. Otherwise it schedules `newTask` with a completion
      grace period of one second and a hard timeout of five seconds, and if a
      task is running it stops it: broadcasts the change to no task and queues
      one buffer that clears persistent requests and resets the LED. */
  function SetTaskState(w: Worker, state: ConnState, newTask: Task, now: int64): (r: Effect)
    ensures r.worker.task == TaskNone
    ensures r.worker.count == w.count && r.worker.time == w.time
    ensures state != StateConnected ==>
              && r.worker.next == w.next && r.worker.timeNext == w.timeNext && r.worker.timeOut == w.timeOut
              && r.writes == [] && r.events == []
    ensures state == StateConnected ==>
              && r.worker.next == newTask
              && r.worker.timeNext == Wrap64(now + TaskEndDelay)
              && r.worker.timeOut == Wrap64(now + TaskEndTimeout)
    ensures state == StateConnected && w.task != TaskNone ==>
              r.writes == [StopOut] && r.events == [TaskChange(TaskNone)]
    ensures state == StateConnected && w.task == TaskNone ==> r.writes == [] && r.events == []
  {
    if state != StateConnected then
      Effect(w.(task := TaskNone), [], [])
    else
      var scheduled := w.(timeNext := Wrap64(now + TaskEndDelay), timeOut := Wrap64(now + TaskEndTimeout), next := newTask);
      if w.task != TaskNone then
        Effect(scheduled.(task := TaskNone), [StopOut], [TaskChange(TaskNone)])
      else
        Effect(scheduled, [], [])
  }

  /** `startNextTask()`: the scheduled task becomes the running one, the frame
      counter and start time are reset, the change is broadcast, and the
      task's entry frames are queued. The deadlines are left as they were. */
  function StartNextTask(w: Worker, st: Settings, lg: Logger, now: int64): (r: Effect)
    ensures r.worker.task == w.next && r.worker.next == TaskNone
    ensures r.worker.count == 0 && r.worker.time == now
    ensures r.worker.timeNext == w.timeNext && r.worker.timeOut == w.timeOut
    ensures r.events == [TaskChange(w.next)]
    ensures r.writes == EntryFrames(w.next, st, lg)
  {
    Effect(Worker(w.next, TaskNone, 0, now, w.timeNext, w.timeOut), EntryFrames(w.next, st, lg), [TaskChange(w.next)])
  }

  /** The new thread's `init` block calls `setTaskState(TASK_NONE)` while the
      service still has its previous connection state. */
  function Init(state: ConnState, now: int64): (w: Worker)
    ensures w.task == TaskNone && w.next == TaskNone && w.count == 0 && w.time == 0
    ensures state != StateConnected ==> w == Fresh
    ensures state == StateConnected ==>
              w.timeNext == Wrap64(now + TaskEndDelay) && w.timeOut == Wrap64(now + TaskEndTimeout)
  {
    SetTaskState(Fresh, state, TaskNone, now).worker
  }

  // ---------------------------------------------------------------------------
  // Handling one inbound frame

  /** What handling one inbound frame leaves behind. `thrown` means the
      handler raised an exception; what it did before that stays done. */
  datatype Handled = Handled(worker: Worker, writes: seq<Outbound>, events: seq<Event>, logWriteState: bool, thrown: bool)

  /** An exception before the handler did anything. */
  function Throws(w: Worker, logWriteState: bool): Handled
  {
    Handled(w, [], [], logWriteState, true)
  }

  /** The payload of a frame: `buff.copyOfRange(8, buff.size)`, which throws
      for a frame shorter than its header. */
  function Payload(buff: seq<int8>): (p: Option<seq<int8>>)
    ensures p.Some? <==> |buff| >= 8
    ensures p.Some? ==> buff == buff[..8] + p.value
  {
    if |buff| < 8 then None else Some(buff[8..])
  }

  /** The `when (mTask)` block of the loop for one inbound frame `buff`. */
  function Dispatch(w: Worker, state: ConnState, buff: seq<int8>, logWriteState: bool,
                    st: Settings, lg: Logger, now: int64): (r: Handled)
    ensures r.worker.count == w.count && r.worker.time == w.time
    ensures r.worker.task == w.task || r.worker.task == TaskNone
    ensures w.task != TaskLogging ==> r.logWriteState == logWriteState
    ensures w.task != TaskLogging && r.thrown ==> r.worker == w && r.writes == [] && r.events == []
  {
    match w.task
    case TaskNone =>
      if Payload(buff).None? then Throws(w, logWriteState)
      else Handled(w, [], [Read(Payload(buff).value)], logWriteState, false)
    case TaskReadVin =>
      if Payload(buff).None? || Payload(buff).value == [] then Throws(w, logWriteState)
      else
        var vin := Payload(buff).value;
        if vin[0] == 0x62 && |vin| < 2 then Throws(w, logWriteState)
        else
          var stop := SetTaskState(w, state, TaskNone, now);
          var found := if vin[0] == 0x62 then [ReadVin(vin[2..])] else [];
          Handled(stop.worker, stop.writes, found + stop.events, logWriteState, false)
    case TaskGetEcuInfo =>
      if Payload(buff).None? || Payload(buff).value == [] then Throws(w, logWriteState)
      else
        var info := Payload(buff).value;
        Handled(w, [], if info[0] == 0x62 then [EcuInfo(info)] else [], logWriteState, false)
    case TaskClearDtc =>
      if Payload(buff).None? then Throws(w, logWriteState)
      else
        var stop := SetTaskState(w, state, TaskNone, now);
        Handled(stop.worker, stop.writes, [ReadDtc(Payload(buff).value)] + stop.events, logWriteState, false)
    case TaskFlashEcuCal =>
      if Payload(buff).None? then Throws(w, logWriteState)
      else Handled(w, [], [Read(Payload(buff).value)], logWriteState, false)
    case TaskLogging =>
      LogFrame(w, state, buff, logWriteState, st, lg, now)
    case TaskFlashing =>
      Handled(w, [], [], logWriteState, false)
  }

  /** The logging branch: the frame goes to the logger; while initialisation
      frames remain, a failed answer stops the task and a good one queues the
      next initialisation frame; every `updateRate`-th frame is reported (an
      `updateRate` of zero throws `ArithmeticException` at this point); and a
      change in the logger's writing state is broadcast and shown on the LED. */
  function LogFrame(w: Worker, state: ConnState, buff: seq<int8>, logWriteState: bool,
                    st: Settings, lg: Logger, now: int64): (r: Handled)
    ensures r.worker.count == w.count && r.worker.time == w.time
    ensures r.worker.task == w.task || r.worker.task == TaskNone
    ensures r.thrown <==> st.updateRate == 0
    ensures r.logWriteState == if r.thrown then logWriteState else lg.enabled
    ensures r.thrown ==> forall i :: 0 <= i < |r.writes| ==> !r.writes[i].LedOut?
  {
    var result := lg.processFrame(w.count, buff);
    var init := LogInit(w, state, lg, result, now);
    if st.updateRate == 0 then
      Handled(init.worker, init.writes, init.events, logWriteState, true)
    else
      var report := if Rem32(w.count, st.updateRate) == 0 then [ReadLog(w.count, Wrap64(now - w.time), result)] else [];
      if lg.enabled != logWriteState then
        Handled(init.worker, init.writes + [LedOut(lg.enabled)], init.events + report + [WriteLog(lg.enabled)],
                lg.enabled, false)
      else
        Handled(init.worker, init.writes, init.events + report, logWriteState, false)
  }

  /** The initialisation step of logging: while initialisation frames
      remain, a failed answer stops the task and a good one queues the next
      initialisation frame; afterwards nothing happens. */
  function LogInit(w: Worker, state: ConnState, lg: Logger, result: int32, now: int64): (r: Effect)
    ensures w.count >= lg.frameCount ==> r == Effect(w, [], [])
    ensures w.count < lg.frameCount && result == UdsOk ==> r == Effect(w, [LogOut(lg.buildFrame(w.count))], [])
    ensures w.count < lg.frameCount && result != UdsOk ==> r == SetTaskState(w, state, TaskNone, now)
    ensures forall i :: 0 <= i < |r.events| ==> r.events[i] == TaskChange(TaskNone)
    ensures forall i :: 0 <= i < |r.writes| ==> !r.writes[i].LedOut?
  {
    if w.count < lg.frameCount then
      if result != UdsOk then SetTaskState(w, state, TaskNone, now)
      else Effect(w, [LogOut(lg.buildFrame(w.count))], [])
    else Effect(w, [], [])
  }

  /** After a frame has been handled: a scheduled task has its grace period
      restarted, and the frame counter goes up by one, wrapping as an `Int`. */
  function Extend(w: Worker, now: int64): (r: Worker)
    ensures r.count == Wrap32(w.count + 1)
    ensures r.timeOut == w.timeOut
    ensures w.next != TaskNone ==> r.timeNext == Wrap64(now + TaskEndDelay)
    ensures w.next == TaskNone ==> r.timeNext == w.timeNext
    ensures r.task == w.task && r.next == w.next && r.time == w.time
  {
    var extended := if w.next != TaskNone then w.(timeNext := Wrap64(now + TaskEndDelay)) else w;
    extended.(count := Wrap32(extended.count + 1))
  }

  /** "Ready for next task?": a scheduled task starts exactly when its grace
      period or its timeout has passed; otherwise nothing changes. */
  function Promote(w: Worker, st: Settings, lg: Logger, now: int64): (r: Effect)
    ensures r.events != [] <==> w.next != TaskNone && (w.timeNext < now || w.timeOut < now)
    ensures r.events != [] ==>
              && r.worker.task == w.next && r.worker.next == TaskNone && r.worker.count == 0
              && r.events == [TaskChange(w.next)] && r.writes == EntryFrames(w.next, st, lg)
    ensures r.events == [] ==> r.worker == w && r.writes == []
  {
    if w.next != TaskNone && (w.timeNext < now || w.timeOut < now) then StartNextTask(w, st, lg, now)
    else Effect(w, [], [])
  }

  // ---------------------------------------------------------------------------
  // What each task does with one inbound frame

  /** With no task running, the frame's payload is broadcast as read; a
      frame shorter than its header throws. */
  lemma DispatchIdle(w: Worker, state: ConnState, buff: seq<int8>, logWriteState: bool,
                     st: Settings, lg: Logger, now: int64)
    requires w.task == TaskNone
    ensures Dispatch(w, state, buff, logWriteState, st, lg, now).thrown <==> |buff| < 8
    ensures |buff| >= 8 ==>
              Dispatch(w, state, buff, logWriteState, st, lg, now) == Handled(w, [], [Read(buff[8..])], logWriteState, false)
  {
  }

  /** Reading the VIN: the payload must have a first byte, and a positive
      response (0x62) must have the two bytes that are skipped. A positive
      response is broadcast without its first two bytes; either way the task
      then stops, and while connected that queues the stop buffer and
      broadcasts the change to no task. */
  lemma DispatchVin(w: Worker, state: ConnState, buff: seq<int8>, logWriteState: bool,
                    st: Settings, lg: Logger, now: int64)
    requires w.task == TaskReadVin
    ensures Dispatch(w, state, buff, logWriteState, st, lg, now).thrown <==>
              |buff| <= 8 || (buff[8] == 0x62 && |buff| < 10)
    ensures !Dispatch(w, state, buff, logWriteState, st, lg, now).thrown ==>
              var r := Dispatch(w, state, buff, logWriteState, st, lg, now);
              && r.worker.task == TaskNone
              && (buff[8] == 0x62 ==> r.events[0] == ReadVin(buff[10..]))
              && (buff[8] != 0x62 ==> forall i :: 0 <= i < |r.events| ==> !r.events[i].ReadVin?)
              && (state == StateConnected ==>
                    && r.worker.next == TaskNone
                    && r.writes == [StopOut]
                    && r.events[|r.events| - 1] == TaskChange(TaskNone))
              && (state != StateConnected ==> r.writes == [])
  {
  }

  /** The identifier bytes of a positive VIN response are cut after its
      first two bytes, so the broadcast VIN still starts with 0x90, the
      identifier's low byte. */
  lemma VinKeepsIdentifierByte(w: Worker, state: ConnState, head: seq<int8>, vin: seq<int8>,
                               logWriteState: bool, st: Settings, lg: Logger, now: int64)
    requires w.task == TaskReadVin && |head| == 8
    ensures var buff := head + [0x62, Wrap8(0xF1), Wrap8(0x90)] + vin;
            Dispatch(w, state, buff, logWriteState, st, lg, now).events[0] == ReadVin([Wrap8(0x90)] + vin)
  {
    var buff := head + [0x62, Wrap8(0xF1), Wrap8(0x90)] + vin;
    assert buff[8] == 0x62 && buff[10..] == [Wrap8(0x90)] + vin;
    DispatchVin(w, state, buff, logWriteState, st, lg, now);
  }

  /** Reading the ECU information: every positive response is broadcast
      whole, anything else is ignored, and the task keeps running. */
  lemma DispatchEcuInfo(w: Worker, state: ConnState, buff: seq<int8>, logWriteState: bool,
                        st: Settings, lg: Logger, now: int64)
    requires w.task == TaskGetEcuInfo
    ensures Dispatch(w, state, buff, logWriteState, st, lg, now).thrown <==> |buff| <= 8
    ensures |buff| > 8 ==>
              var r := Dispatch(w, state, buff, logWriteState, st, lg, now);
              && r.worker == w && r.writes == []
              && (r.events != [] <==> buff[8] == 0x62)
              && (buff[8] == 0x62 ==> r.events == [EcuInfo(buff[8..])])
  {
  }

  /** Clearing DTCs: the first response is broadcast and the task stops. */
  lemma DispatchClearDtc(w: Worker, state: ConnState, buff: seq<int8>, logWriteState: bool,
                         st: Settings, lg: Logger, now: int64)
    requires w.task == TaskClearDtc
    ensures Dispatch(w, state, buff, logWriteState, st, lg, now).thrown <==> |buff| < 8
    ensures |buff| >= 8 ==>
              var r := Dispatch(w, state, buff, logWriteState, st, lg, now);
              && r.worker.task == TaskNone
              && r.events[0] == ReadDtc(buff[8..])
              && (state == StateConnected ==> r.writes == [StopOut] && r.events == [ReadDtc(buff[8..]), TaskChange(TaskNone)])
              && (state != StateConnected ==> r.writes == [] && r.events == [ReadDtc(buff[8..])])
  {
  }

  /** The calibration flash only relays responses; flashing ignores them. */
  lemma DispatchFlash(w: Worker, state: ConnState, buff: seq<int8>, logWriteState: bool,
                      st: Settings, lg: Logger, now: int64)
    requires w.task == TaskFlashEcuCal || w.task == TaskFlashing
    ensures w.task == TaskFlashEcuCal ==>
              (Dispatch(w, state, buff, logWriteState, st, lg, now).thrown <==> |buff| < 8)
    ensures w.task == TaskFlashEcuCal && |buff| >= 8 ==>
              Dispatch(w, state, buff, logWriteState, st, lg, now) == Handled(w, [], [Read(buff[8..])], logWriteState, false)
    ensures w.task == TaskFlashing ==>
              Dispatch(w, state, buff, logWriteState, st, lg, now) == Handled(w, [], [], logWriteState, false)
  {
  }

  /** Logging: an update rate of zero throws, after the initialisation step
      has taken effect. Otherwise a report goes out exactly on the frames
      whose count the update rate divides, and a change of the logger's
      writing state is broadcast last and queues the LED colour last. */
  lemma DispatchLogging(w: Worker, state: ConnState, buff: seq<int8>, logWriteState: bool,
                        st: Settings, lg: Logger, now: int64)
    requires w.task == TaskLogging
    ensures Dispatch(w, state, buff, logWriteState, st, lg, now).thrown <==> st.updateRate == 0
    ensures st.updateRate != 0 ==>
              var r := Dispatch(w, state, buff, logWriteState, st, lg, now);
              && r.logWriteState == lg.enabled
              && ((exists i :: 0 <= i < |r.events| && r.events[i].ReadLog?) <==> w.count % st.updateRate == 0)
              && ((exists i :: 0 <= i < |r.writes| && r.writes[i].LedOut?) <==> lg.enabled != logWriteState)
              && (lg.enabled != logWriteState ==>
                    r.writes[|r.writes| - 1] == LedOut(lg.enabled) && r.events[|r.events| - 1] == WriteLog(lg.enabled))
    ensures var r := Dispatch(w, state, buff, logWriteState, st, lg, now);
            var result := lg.processFrame(w.count, buff);
            && (w.count < lg.frameCount && result == UdsOk ==>
                  r.worker == w && r.writes[0] == LogOut(lg.buildFrame(w.count)))
            && (w.count < lg.frameCount && result != UdsOk ==> r.worker.task == TaskNone)
            && (w.count >= lg.frameCount ==> r.worker == w)
  {
    var r := Dispatch(w, state, buff, logWriteState, st, lg, now);
    var result := lg.processFrame(w.count, buff);
    var init := LogInit(w, state, lg, result, now);
    if st.updateRate != 0 {
      var report := if Rem32(w.count, st.updateRate) == 0 then [ReadLog(w.count, Wrap64(now - w.time), result)] else [];
      var tail := if lg.enabled != logWriteState then [WriteLog(lg.enabled)] else [];
      var led := if lg.enabled != logWriteState then [LedOut(lg.enabled)] else [];
      assert r.events == init.events + report + tail;
      assert r.writes == init.writes + led;
      if w.count % st.updateRate == 0 {
        assert r.events[|init.events|].ReadLog?;
      }
      if lg.enabled != logWriteState {
        assert r.writes[|init.writes|].LedOut?;
      }
    }
  }

  // ---------------------------------------------------------------------------
  // Deadlines

  /** A frame handled while a task is scheduled restarts its grace period,
      so at that same instant only the hard timeout can start it. */
  lemma FramePostpones(w: Worker, st: Settings, lg: Logger, now: int64)
    requires w.next != TaskNone && now + TaskEndDelay < 0x8000_0000_0000_0000
    ensures Promote(Extend(w, now), st, lg, now).events != [] <==> w.timeOut < now
  {
    Wrap64Identity(now + TaskEndDelay);
  }

  /** With no frames in between, a task scheduled at `now` starts at a later
      instant exactly when its one-second grace period has passed: the
      five-second timeout never runs out first. */
  lemma ScheduledTaskStarts(w: Worker, newTask: Task, st: Settings, lg: Logger, now: int64, later: int64)
    requires newTask != TaskNone && now + TaskEndTimeout < 0x8000_0000_0000_0000
    ensures var s := SetTaskState(w, StateConnected, newTask, now).worker;
            Promote(s, st, lg, later).events != [] <==> later > now + TaskEndDelay
    ensures var s := SetTaskState(w, StateConnected, newTask, now).worker;
            later > now + TaskEndDelay ==> Promote(s, st, lg, later).worker.task == newTask
  {
    Wrap64Identity(now + TaskEndDelay);
    Wrap64Identity(now + TaskEndTimeout);
  }

  // ---------------------------------------------------------------------------
  // One iteration of the loop

  /** The service fields the worker shares: the connection state, the two
      queues, the free write permits of the semaphore, and the logger's last
      known writing state. */
  datatype Shared = Shared(state: ConnState, writeQueue: seq<Outbound>, readQueue: seq<seq<int8>>,
                           permits: nat, logWriteState: bool)

  /** A request taken off the write queue, if any. */
  function Taken(o: Option<Outbound>): (r: seq<Outbound>)
    ensures |r| <= 1 && (o.Some? <==> r != [])
  {
    if o.Some? then [o.value] else []
  }

  /** What the write step leaves: the shared fields, the request handed to
      the adapter, the request lost to an exception, and whether it threw. */
  datatype Written = Written(shared: Shared, sent: Option<Outbound>, dropped: Option<Outbound>, thrown: bool)

  /** The write step. With a request waiting and a permit free, the permit
      is taken and the request polled. If the link can be written the bytes
      go out and the permit stays taken until the write callback; otherwise
      the write throws, the permit is given back and the request is lost. */
  function WritePhase(sh: Shared, canWrite: bool): (r: Written)
    ensures Taken(r.sent) + Taken(r.dropped) + r.shared.writeQueue == sh.writeQueue
    ensures r.shared.permits + |Taken(r.sent)| == sh.permits
    ensures r.thrown <==> r.dropped.Some?
    ensures r.sent.Some? || r.dropped.Some? <==> sh.writeQueue != [] && sh.permits > 0
    ensures r.dropped.Some? ==> !canWrite
    ensures r.shared.state == sh.state && r.shared.readQueue == sh.readQueue
    ensures r.shared.logWriteState == sh.logWriteState
  {
    if sh.writeQueue != [] && sh.permits > 0 then
      var head, rest := sh.writeQueue[0], sh.writeQueue[1..];
      if canWrite then
        Written(sh.(writeQueue := rest, permits := sh.permits - 1), Some(head), None, false)
      else
        Written(sh.(writeQueue := rest), None, Some(head), true)
    else
      Written(sh, None, None, false)
  }

  /** What the read step leaves: the worker, the shared fields, the
      broadcasts sent, and whether the handler threw. */
  datatype Processed = Processed(worker: Worker, shared: Shared, writes: seq<Outbound>, events: seq<Event>, thrown: bool)

  /** The read step: the oldest inbound frame is handled for the running
      task; unless that threw, the grace period of a scheduled task restarts
      and the frame counter goes up. What the handler queued stays queued. */
  function ReadPhase(w: Worker, sh: Shared, st: Settings, lg: Logger, now: int64): (r: Processed)
    ensures sh.readQueue == [] ==> r == Processed(w, sh, [], [], false)
    ensures sh.readQueue != [] ==> r.shared.readQueue == sh.readQueue[1..]
    ensures r.shared.writeQueue == sh.writeQueue + r.writes
    ensures r.shared.state == sh.state && r.shared.permits == sh.permits
    ensures sh.readQueue != [] ==>
              var h := Dispatch(w, sh.state, sh.readQueue[0], sh.logWriteState, st, lg, now);
              && r.writes == h.writes && r.events == h.events && r.thrown == h.thrown
              && r.shared.logWriteState == h.logWriteState
              && (h.thrown ==> r.worker == h.worker)
              && (!h.thrown ==> r.worker == Extend(h.worker, now))
    ensures sh.readQueue != [] && !r.thrown ==>
              && r.worker.count == Wrap32(w.count + 1)
              && (r.worker.next != TaskNone ==> r.worker.timeNext == Wrap64(now + TaskEndDelay))
  {
    if sh.readQueue == [] then Processed(w, sh, [], [], false)
    else
      var h := Dispatch(w, sh.state, sh.readQueue[0], sh.logWriteState, st, lg, now);
      var shared := sh.(readQueue := sh.readQueue[1..], writeQueue := sh.writeQueue + h.writes,
                        logWriteState := h.logWriteState);
      if h.thrown then Processed(h.worker, shared, h.writes, h.events, true)
      else Processed(Extend(h.worker, now), shared, h.writes, h.events, false)
  }

  /** Appending to a queue after some requests were taken off its front
      appends to what the queue held before. */
  lemma QueueAccount(taken: seq<Outbound>, rest: seq<Outbound>, before: seq<Outbound>,
                     appended: seq<Outbound>, added: seq<Outbound>)
    requires taken + rest == before + appended
    ensures taken + (rest + added) == before + (appended + added)
  {
    assert taken + (rest + added) == (taken + rest) + added;
    assert (before + appended) + added == before + (appended + added);
  }

  /** What one iteration leaves: the worker, the shared fields, the request
      sent and the one lost, the requests appended to the write queue, the
      broadcasts sent, and whether the loop goes on. */
  datatype Iteration = Iteration(worker: Worker, shared: Shared, sent: Option<Outbound>, dropped: Option<Outbound>,
                                 queued: seq<Outbound>, events: seq<Event>, running: bool)

  /** The end of an iteration: the promotion step `p` appends its requests
      and broadcasts after those of the read step, and the loop goes on
      unless the write or the read threw. No request is lost or duplicated:
      the request sent, the one dropped and what is left in the queue are
      what the queue held plus what the iteration appended. */
  function Finish(sh: Shared, wr: Written, rd: Processed, p: Effect): (r: Iteration)
    requires Taken(wr.sent) + Taken(wr.dropped) + wr.shared.writeQueue == sh.writeQueue
    requires rd.shared.writeQueue == wr.shared.writeQueue + rd.writes
    ensures Taken(r.sent) + Taken(r.dropped) + r.shared.writeQueue == sh.writeQueue + r.queued
    ensures r.shared.permits == rd.shared.permits && r.sent == wr.sent && r.dropped == wr.dropped
    ensures r.shared.readQueue == rd.shared.readQueue && r.shared.state == rd.shared.state
    ensures r.worker == p.worker && r.running == !rd.thrown
  {
    QueueAccount(Taken(wr.sent) + Taken(wr.dropped), wr.shared.writeQueue, sh.writeQueue, [], rd.writes);
    QueueAccount(Taken(wr.sent) + Taken(wr.dropped), rd.shared.writeQueue, sh.writeQueue, rd.writes, p.writes);
    Iteration(p.worker, rd.shared.(writeQueue := rd.shared.writeQueue + p.writes), wr.sent, wr.dropped,
              rd.writes + p.writes, rd.events + p.events, !rd.thrown)
  }

  /** One pass of the loop of `run()`: it runs only while connected; a write
      that throws ends the thread at once, a read that throws ends it after
      the read, and otherwise a scheduled task is started when due. No
      request is lost or duplicated, and a permit is used exactly when a
      request is handed to the adapter. */
  function Step(w: Worker, sh: Shared, st: Settings, lg: Logger, canWrite: bool, now: int64): (r: Iteration)
    ensures r.shared.state == sh.state
    ensures sh.state != StateConnected ==> r == Iteration(w, sh, None, None, [], [], false)
    ensures r.running ==> sh.state == StateConnected
    ensures Taken(r.sent) + Taken(r.dropped) + r.shared.writeQueue == sh.writeQueue + r.queued
    ensures r.shared.permits + |Taken(r.sent)| == sh.permits
  {
    if sh.state != StateConnected then
      assert sh.writeQueue + [] == sh.writeQueue;
      Iteration(w, sh, None, None, [], [], false)
    else
      var wr := WritePhase(sh, canWrite);
      var rd := if wr.thrown then Processed(w, wr.shared, [], [], true) else ReadPhase(w, wr.shared, st, lg, now);
      var p := if rd.thrown then Effect(rd.worker, [], []) else Promote(rd.worker, st, lg, now);
      Finish(sh, wr, rd, p)
  }

  /** A write that throws ends the thread before anything is read: the
      worker, the read queue and the broadcasts are untouched. */
  lemma StepWriteFails(w: Worker, sh: Shared, st: Settings, lg: Logger, canWrite: bool, now: int64)
    ensures var r := Step(w, sh, st, lg, canWrite, now);
            r.dropped.Some? <==> sh.state == StateConnected && !canWrite && sh.writeQueue != [] && sh.permits > 0
    ensures var r := Step(w, sh, st, lg, canWrite, now);
            r.dropped.Some? ==>
              && !r.running && r.worker == w && r.queued == [] && r.events == []
              && r.shared.readQueue == sh.readQueue && r.dropped == Some(sh.writeQueue[0])
  {
  }

  /** A frame read in an iteration that carries on is counted, and a
      scheduled task still pending afterwards has its grace period restarted
      from `now` unless it has just been started. */
  lemma StepCounts(w: Worker, sh: Shared, st: Settings, lg: Logger, canWrite: bool, now: int64)
    requires sh.state == StateConnected && sh.readQueue != []
    ensures var r := Step(w, sh, st, lg, canWrite, now);
            r.running ==> r.shared.readQueue == sh.readQueue[1..]
    ensures var r := Step(w, sh, st, lg, canWrite, now);
            var rd := ReadPhase(w, WritePhase(sh, canWrite).shared, st, lg, now);
            r.running ==> rd.worker.count == Wrap32(w.count + 1) && r.events[..|rd.events|] == rd.events
  {
  }
}
