/**
 The bridge between the terminal widget and the emulator. Its state is one
 immutable record; every public operation of the extension, and every event
 the two collaborators raise, is a pure transition from a record to the next
 record plus what the transition emits: terminal output, keyboard codes for
 the emulator, answers to pending input requests, and commands to the
 emulator.
 */
module Bridge {
  import opened Options
  import opened Text
  import opened Images
  import Escapes
  import InputQueue

  /** One emulator instance: a serial number, the image it boots, and whether it exposes a bus for keyboard codes. */
  datatype Vm = Vm(id: nat, image: Os, hasBus: bool)

  /** A saved machine state; its contents belong to the emulator. */
  datatype Snapshot = Snapshot(blob: seq<bv8>)

  /** The text of the status bar in the window. */
  datatype StatusText =
    | Ready
    | StartingOs(os: string)
    | RunningOs(os: string)
    | StoppedText
    | InitFailed   // "Failed to initialize", written by the initialization itself
    | StartFailed  // "Error: Failed to start VM", written by "start" once the failure reaches it

  /** The OS field of the status bar; a loaded name is shown upper-cased. */
  datatype OsInfo = NoOsLoaded | Loaded(name: string)

  /** The status bar: its text, whether its dot is green, and the OS field. */
  datatype Panel = Panel(status: StatusText, green: bool, osInfo: OsInfo)

  /** Fixed messages the bridge writes to the terminal. */
  datatype Notice =
    | BootBanner(os: string)
    | StoppedBanner
    | StateSaved
    | SaveFailed
    | NoSavedState
    | StateRestored
    | RestoreFailed

  /** One call on the terminal widget. */
  datatype TermOp =
    | Write(text: string)
    | WriteLine(text: string)
    | ClearViewport
    | Announce(notice: Notice)

  /** One call on an emulator instance. */
  datatype EmuOp =
    | Construct(vm: Vm, cdrom: string)
    | Halt(id: nat)
    | RequestSave(id: nat)
    | Restore(id: nat, snapshot: Snapshot)

  /** Everything a transition emits, each part in emission order. */
  datatype Effects = Effects(
    term: seq<TermOp>,
    keys: seq<CodeUnit>,
    delivered: seq<InputQueue.Delivery>,
    emu: seq<EmuOp>)

  const Quiet: Effects := Effects([], [], [], [])

  function Then(a: Effects, b: Effects): Effects
  {
    Effects(a.term + b.term, a.keys + b.keys, a.delivered + b.delivered, a.emu + b.emu)
  }

  /**
   The bridge record. `vm` is the emulator the bridge holds, `isRunning` the
   flag the "is running" block reports, `savedState` the one snapshot slot,
   `panel` the status bar (absent until the window is first built), `nextVm`
   numbers the next emulator, and `unhalted` is the set of emulators that were
   constructed and have not been asked to halt.
   */
  datatype Bridge = Bridge(
    input: InputQueue.Queue,
    vm: Option<Vm>,
    isRunning: bool,
    savedState: Option<Snapshot>,
    panel: Option<Panel>,
    nextVm: nat,
    unhalted: set<nat>)

  datatype Step = Step(next: Bridge, out: Effects)

  /** Every running emulator is the one the bridge holds: none has been left behind. */
  ghost predicate NoOrphan(s: Bridge) {
    s.unhalted == (if s.vm.Some? then {s.vm.value.id} else {})
  }

  /** The running flag is set exactly when an emulator is held, the held one was numbered before `nextVm`, and the queue is valid. */
  ghost predicate Consistent(s: Bridge) {
    && (s.isRunning <==> s.vm.Some?)
    && (s.vm.Some? ==> s.vm.value.id < s.nextVm)
    && InputQueue.Valid(s.input)
  }

  /** The invariant every reachable bridge satisfies. */
  ghost predicate Wf(s: Bridge) {
    Consistent(s) && NoOrphan(s)
  }

  /** The freshly constructed extension: no emulator, no snapshot, no window, empty queue. */
  function Init(bufferEnabled: bool): (s: Bridge)
    ensures Wf(s) && !s.isRunning && s.vm.None? && s.savedState.None? && s.panel.None?
    ensures s.input.buffer == [] && s.input.waiters == [] && s.input.bufferEnabled == bufferEnabled
  {
    Bridge(InputQueue.Init(bufferEnabled), None, false, None, None, 0, {})
  }

  // ---------------------------------------------------------------------
  // Keyboard forwarding and input capture
  // ---------------------------------------------------------------------

  /** Keyboard codes reach an emulator only when one is held and it has a bus. */
  predicate KeyboardAttached(s: Bridge) {
    s.vm.Some? && s.vm.value.hasBus
  }

  /** The keyboard codes sent for `text`: its code units in order when a keyboard is attached, nothing otherwise. */
  function KeyCodes(s: Bridge, text: string): (keys: seq<CodeUnit>)
    ensures !KeyboardAttached(s) ==> keys == []
    ensures KeyboardAttached(s) ==> DecodeUtf16(keys) == Some(text)
    ensures KeyboardAttached(s) && InBasicPlane(text) ==>
      |keys| == |text| && forall i :: 0 <= i < |text| ==> keys[i] == text[i] as int
  {
    if KeyboardAttached(s) then
      DecodeCodeUnits(text);
      if InBasicPlane(text) then
        CodeUnitsBasicPlane(text);
        CodeUnits(text)
      else
        CodeUnits(text)
    else []
  }

  /**
   A terminal input event. Every pending request receives the buffer followed
   by the data, and the buffer and requests are cleared; with no request the
   data is buffered or dropped. Independently of that, the data goes to the
   emulator's keyboard.
   */
  function OnTerminalInput(s: Bridge, data: string): (r: Step)
    ensures r.next == s.(input := r.next.input)
    ensures r.next.input.bufferEnabled == s.input.bufferEnabled
    ensures r.next.input.nextWaiter == s.input.nextWaiter
    ensures r.next.input.waiters == []
    ensures |r.out.delivered| == |s.input.waiters|
    ensures forall i :: 0 <= i < |r.out.delivered| ==>
      r.out.delivered[i] == InputQueue.Delivery(s.input.waiters[i], s.input.buffer + data)
    ensures r.next.input.buffer ==
      if s.input.waiters != [] then []
      else if s.input.bufferEnabled then s.input.buffer + data
      else s.input.buffer
    ensures r.out.keys == KeyCodes(s, data)
    ensures r.out.term == [] && r.out.emu == []
    ensures Wf(s) ==> Wf(r.next)
  {
    var a := InputQueue.Arrive(s.input, data);
    Step(s.(input := a.next), Quiet.(keys := KeyCodes(s, data), delivered := a.delivered))
  }

  datatype Request = Request(next: Bridge, waiter: InputQueue.WaiterId)

  /** The "get terminal input" block: one more pending request, buffer untouched. */
  function RequestInput(s: Bridge): (r: Request)
    ensures r.next == s.(input := r.next.input)
    ensures r.next.input.buffer == s.input.buffer
    ensures r.next.input.bufferEnabled == s.input.bufferEnabled
    ensures r.next.input.waiters == s.input.waiters + [r.waiter]
    ensures Wf(s) ==> Wf(r.next) && r.waiter !in s.input.waiters
  {
    var g := InputQueue.Get(s.input);
    Request(s.(input := g.next), g.waiter)
  }

  /** The "send keys" block: the text's code units go to the keyboard; nothing else happens. */
  function SendKeys(s: Bridge, text: string): (r: Step)
    ensures r.next == s
    ensures r.out.term == [] && r.out.delivered == [] && r.out.emu == []
    ensures !KeyboardAttached(s) ==> r.out.keys == []
    ensures KeyboardAttached(s) ==> DecodeUtf16(r.out.keys) == Some(text)
  {
    Step(s, Quiet.(keys := KeyCodes(s, text)))
  }

  /** A byte on the emulator's first serial port appears on the terminal as the character with that code. */
  function OnSerialByte(s: Bridge, b: bv8): (r: Step)
    ensures r.next == s
    ensures r.out.keys == [] && r.out.delivered == [] && r.out.emu == []
    ensures |r.out.term| == 1 && r.out.term[0].Write?
    ensures |r.out.term[0].text| == 1 && r.out.term[0].text[0] as int == b as int
  {
    Step(s, Quiet.(term := [Write([(b as int) as char])]))
  }

  // ---------------------------------------------------------------------
  // Terminal output blocks
  // ---------------------------------------------------------------------

  /** The "print" block: the text unchanged, followed by a line break exactly when the option reads "newline" in any letter case. */
  function Print(s: Bridge, info: string, newline: string): (r: Step)
    ensures r.next == s
    ensures r.out.keys == [] && r.out.delivered == [] && r.out.emu == []
    ensures |r.out.term| == 1 && (r.out.term[0].Write? || r.out.term[0].WriteLine?)
    ensures r.out.term[0].text == info
    ensures r.out.term[0].WriteLine? <==> ToLower(newline) == "newline"
  {
    if ToLower(newline) == "newline" then Step(s, Quiet.(term := [WriteLine(info)]))
    else Step(s, Quiet.(term := [Write(info)]))
  }

  /** The "clear" block: writes the Erase-in-Display sequence for the named target, or nothing for another name. */
  function Clear(s: Bridge, kind: string): (r: Step)
    ensures r.next == s
    ensures r.out.keys == [] && r.out.delivered == [] && r.out.emu == []
    ensures |r.out.term| <= 1
    ensures |r.out.term| == 1 <==> ToLower(kind) in Escapes.EraseNames
    ensures |r.out.term| == 1 ==>
      r.out.term[0].Write? && Some(r.out.term[0].text) == Escapes.EraseSequence(kind)
  {
    match Escapes.EraseSequence(kind)
    case Some(t) => Step(s, Quiet.(term := [Write(t)]))
    case None => Step(s, Quiet)
  }

  /** The "move cursor" block: writes the cursor-position sequence for valid cells, nothing otherwise. */
  function MoveCursorTo(s: Bridge, x: Escapes.JsNumber, y: Escapes.JsNumber): (r: Step)
    ensures r.next == s
    ensures r.out.keys == [] && r.out.delivered == [] && r.out.emu == []
    ensures |r.out.term| <= 1
    ensures |r.out.term| == 1 <==> Escapes.IsCellIndex(x) && Escapes.IsCellIndex(y)
    ensures |r.out.term| == 1 ==>
      r.out.term[0].Write? &&
      Escapes.Parse(r.out.term[0].text)
        == Some(Escapes.Csi([Escapes.CellIndex(y) + 1, Escapes.CellIndex(x) + 1], 'H'))
  {
    match Escapes.CursorTo(x, y)
    case Some(t) => Step(s, Quiet.(term := [Write(t)]))
    case None => Step(s, Quiet)
  }

  // ---------------------------------------------------------------------
  // Status bar
  // ---------------------------------------------------------------------

  /** Builds the window with its initial status bar if it does not exist yet. */
  function EnsurePanel(p: Option<Panel>): (r: Option<Panel>)
    ensures r.Some?
    ensures p.Some? ==> r == p
    ensures p.None? ==> r.value.status == Ready && r.value.green && r.value.osInfo == NoOsLoaded
  {
    if p.Some? then p else Some(Panel(Ready, true, NoOsLoaded))
  }

  /** Status updates reach the status bar only once the window exists. */
  function SetStatus(p: Option<Panel>, text: StatusText, green: bool): (r: Option<Panel>)
    ensures r.Some? <==> p.Some?
    ensures r.Some? ==> r.value == p.value.(status := text, green := green)
  {
    if p.Some? then Some(p.value.(status := text, green := green)) else None
  }

  function SetOsInfo(p: Option<Panel>, info: OsInfo): (r: Option<Panel>)
    ensures r.Some? <==> p.Some?
    ensures r.Some? ==> r.value == p.value.(osInfo := info)
  {
    if p.Some? then Some(p.value.(osInfo := info)) else None
  }

  /** Showing the window in any way builds it on first use; nothing else about the bridge changes. */
  function OpenWindow(s: Bridge): (r: Step)
    ensures r.next == s.(panel := r.next.panel) && r.next.panel.Some?
    ensures s.panel.Some? ==> r.next == s
    ensures r.out == Quiet
    ensures Wf(s) ==> Wf(r.next)
  {
    Step(s.(panel := EnsurePanel(s.panel)), Quiet)
  }

  // ---------------------------------------------------------------------
  // Lifecycle
  // ---------------------------------------------------------------------

  /**
   Stopping: asks the held emulator (if any) to halt and forgets it, whether or
   not halting fails; clears the running flag; and, stopped or not before,
   rewrites the status bar and writes the "stopped" banner.
   */
  function StopVM(s: Bridge): (r: Step)
    ensures r.next.vm == None && !r.next.isRunning
    ensures r.next.input == s.input && r.next.savedState == s.savedState && r.next.nextVm == s.nextVm
    ensures r.next.unhalted == if s.vm.Some? then s.unhalted - {s.vm.value.id} else s.unhalted
    ensures r.out.emu == if s.vm.Some? then [Halt(s.vm.value.id)] else []
    ensures r.out.term == [ClearViewport, Announce(StoppedBanner)]
    ensures r.out.keys == [] && r.out.delivered == []
    ensures s.panel.None? ==> r.next.panel == None
    ensures s.panel.Some? ==> r.next.panel == Some(Panel(StoppedText, false, NoOsLoaded))
    ensures Wf(s) ==> Wf(r.next) && r.next.unhalted == {}
  {
    var halted := if s.vm.Some? then [Halt(s.vm.value.id)] else [];
    var left := if s.vm.Some? then s.unhalted - {s.vm.value.id} else s.unhalted;
    Step(s.(vm := None, isRunning := false, unhalted := left,
            panel := SetOsInfo(SetStatus(s.panel, StoppedText, false), NoOsLoaded)),
         Quiet.(term := [ClearViewport, Announce(StoppedBanner)], emu := halted))
  }

  /** What constructing an emulator does: it succeeds, with or without a bus, or its constructor throws. */
  datatype Construction = Constructed(hasBus: bool) | ConstructorThrew

  /**
   Constructs and boots an emulator for the requested name. On success the
   new emulator is held, the running flag is set, the status bar shows it,
   and the terminal shows the boot banner; the emulator is told to fetch the
   booted image's URL as its CD-ROM. A throwing constructor leaves the bridge
   as it was except for the "Failed to initialize" status.
   */
  function InitializeVM(s: Bridge, name: string, ctor: Construction): (r: Step)
    ensures r.next.input == s.input && r.next.savedState == s.savedState
    ensures ctor.ConstructorThrew? ==>
      && r.next == s.(panel := SetStatus(s.panel, InitFailed, false))
      && r.out == Quiet
    ensures ctor.Constructed? ==>
      && r.next.vm == Some(Vm(s.nextVm, BootImage(name), ctor.hasBus))
      && r.next.isRunning
      && r.next.nextVm == s.nextVm + 1
      && r.next.unhalted == s.unhalted + {s.nextVm}
      && r.next.panel == SetOsInfo(SetStatus(s.panel, RunningOs(name), true), Loaded(name))
      && r.out == Quiet.(term := [ClearViewport, Announce(BootBanner(name))],
                         emu := [Construct(r.next.vm.value, ImageUrl(BootImage(name)))])
  {
    match ctor
    case ConstructorThrew =>
      Step(s.(panel := SetStatus(s.panel, InitFailed, false)), Quiet)
    case Constructed(hasBus) =>
      var vm := Vm(s.nextVm, BootImage(name), hasBus);
      Step(s.(vm := Some(vm), isRunning := true, nextVm := s.nextVm + 1,
              unhalted := s.unhalted + {vm.id},
              panel := SetOsInfo(SetStatus(s.panel, RunningOs(name), true), Loaded(name))),
           Quiet.(term := [ClearViewport, Announce(BootBanner(name))], emu := [Construct(vm, ImageUrl(vm.image))]))
  }

  /**
   "Start" suspends at two points: at the awaited stop, which happens only
   when the flag is set, and at the awaited initialization. This is the part
   before the first one: when running, stop first; the call suspends there
   exactly when it stopped.
   */
  function StartBegin(s: Bridge): (r: Step)
    ensures s.isRunning ==> r == StopVM(s)
    ensures !s.isRunning ==> r == Step(s, Quiet)
    ensures Wf(s) ==> Wf(r.next) && r.next.vm.None? && !r.next.isRunning
  {
    if s.isRunning then StopVM(s) else Step(s, Quiet)
  }

  /**
   The part of "start" between its two suspension points. Without the
   emulator library nothing happens. Otherwise any emulator still held, for
   instance one a second start made while this one was suspended, is stopped
   first; then the window is built if needed and the new emulator is
   initialized. A throwing constructor's failure reaches "start" only after
   the second suspension, as `ReportStartFailure`. This is the corrected
   resume: the code as written never halts a held emulator here
   (`Findings.StartResumeAsWritten`).
   */
  function StartResume(s: Bridge, name: string, loaded: bool, ctor: Construction): (r: Step)
    ensures r.next.input == s.input && r.next.savedState == s.savedState
    ensures !loaded ==> r == Step(s, Quiet)
    ensures loaded ==> r.next.panel.Some?
    ensures loaded && ctor.Constructed? ==>
      && r.next.vm == Some(Vm(s.nextVm, BootImage(name), ctor.hasBus)) && r.next.isRunning
      && r.out.emu == (if s.vm.Some? then [Halt(s.vm.value.id)] else []) + [Construct(r.next.vm.value, ImageUrl(BootImage(name)))]
    ensures loaded && ctor.ConstructorThrew? ==>
      r.next.vm.None? && !r.next.isRunning && r.next.panel.value.status == InitFailed
    ensures NoOrphan(s) ==> NoOrphan(r.next)
    ensures Consistent(s) ==> Consistent(r.next)
    ensures Wf(s) ==> Wf(r.next)
  {
    if !loaded then Step(s, Quiet)
    else
      var st := if s.vm.Some? || s.isRunning then StopVM(s) else Step(s, Quiet);
      var built := st.next.(panel := EnsurePanel(st.next.panel));
      var init := InitializeVM(built, name, ctor);
      Step(init.next, Then(st.out, init.out))
  }

  /**
   What "start" does after the awaited initialization has failed: the status
   bar shows "Error: Failed to start VM" with a red dot. Nothing else changes,
   whatever happened while it was suspended.
   */
  function ReportStartFailure(s: Bridge): (r: Step)
    ensures r.next == s.(panel := r.next.panel) && r.out == Quiet
    ensures r.next.panel.Some? <==> s.panel.Some?
    ensures r.next.panel.Some? ==>
      r.next.panel.value == s.panel.value.(status := StartFailed, green := false)
    ensures Wf(s) ==> Wf(r.next)
  {
    Step(s.(panel := SetStatus(s.panel, StartFailed, false)), Quiet)
  }

  /**
   The "start virtual machine" block run without interruption: the previous
   emulator, if any, is halted before the new one is constructed, the new one
   boots the catalogued image (Linux for an unknown name), a failed
   construction ends with the "Error: Failed to start VM" status, and the
   snapshot slot and input queue are untouched.
   */
  function StartVM(s: Bridge, name: string, loaded: bool, ctor: Construction): (r: Step)
    ensures r.next.input == s.input && r.next.savedState == s.savedState
    ensures loaded ==> r.next.panel.Some?
    ensures loaded && ctor.Constructed? ==>
      && r.next.isRunning
      && r.next.vm == Some(Vm(s.nextVm, BootImage(name), ctor.hasBus))
      && r.out.emu == (if s.vm.Some? then [Halt(s.vm.value.id)] else []) + [Construct(r.next.vm.value, ImageUrl(BootImage(name)))]
    ensures loaded && ctor.ConstructorThrew? ==>
      && r.next.vm.None? && !r.next.isRunning
      && r.next.panel.Some? && r.next.panel.value.status == StartFailed && !r.next.panel.value.green
    ensures Wf(s) && loaded && ctor.Constructed? ==> r.next.unhalted == {s.nextVm}
    ensures Wf(s) && !(loaded && ctor.Constructed?) ==> r.next.vm.None? && !r.next.isRunning && r.next.unhalted == {}
    ensures Wf(s) ==> Wf(r.next)
  {
    var b := StartBegin(s);
    var e := StartResume(b.next, name, loaded, ctor);
    if loaded && ctor.ConstructorThrew? then
      Step(ReportStartFailure(e.next).next, Then(b.out, e.out))
    else Step(e.next, Then(b.out, e.out))
  }

  /** "VM status": "stopped" unless the flag is set; "starting" when the flag is set without an emulator; "running" otherwise. */
  function VMStatus(s: Bridge): (r: string)
    ensures r == "stopped" <==> !s.isRunning
    ensures r == "starting" <==> s.isRunning && s.vm.None?
    ensures r == "running" <==> s.isRunning && s.vm.Some?
  {
    if !s.isRunning then "stopped"
    else if s.vm.None? then "starting"
    else "running"
  }

  /** "is virtual machine running?": the flag, which is set exactly when the status is not "stopped". */
  function IsVMRunning(s: Bridge): (r: bool)
    ensures r <==> VMStatus(s) != "stopped"
  {
    s.isRunning
  }

  /** In a consistent bridge the status is never "starting", and "running" means an emulator is held. */
  lemma StatusIsStoppedOrRunning(s: Bridge)
    requires Consistent(s)
    ensures VMStatus(s) == "stopped" || VMStatus(s) == "running"
    ensures VMStatus(s) == "running" <==> s.vm.Some?
  {
  }

  // ---------------------------------------------------------------------
  // Snapshot slot
  // ---------------------------------------------------------------------

  /** How the emulator answers a request to save its state. */
  datatype SaveOutcome = Saved(snapshot: Snapshot) | SaveError | SaveThrew

  /**
   "save VM state": with no emulator nothing happens. Otherwise the emulator
   is asked for its state; only a successful answer replaces the slot, and
   it replaces it wholesale.
   */
  function SaveState(s: Bridge, outcome: SaveOutcome): (r: Step)
    ensures r.next == s.(savedState := r.next.savedState)
    ensures s.vm.None? ==> r == Step(s, Quiet)
    ensures s.vm.Some? ==> r.out.emu == [RequestSave(s.vm.value.id)]
    ensures s.vm.Some? && outcome.Saved? ==> r.next.savedState == Some(outcome.snapshot)
    ensures !(s.vm.Some? && outcome.Saved?) ==> r.next.savedState == s.savedState
    ensures s.vm.Some? ==> r.out.term == match outcome
      case Saved(_) => [Announce(StateSaved)]
      case SaveError => [Announce(SaveFailed)]
      case SaveThrew => []
    ensures Wf(s) ==> Wf(r.next)
  {
    if s.vm.None? then Step(s, Quiet)
    else
      var req := [RequestSave(s.vm.value.id)];
      match outcome
      case Saved(snap) => Step(s.(savedState := Some(snap)), Quiet.(term := [Announce(StateSaved)], emu := req))
      case SaveError => Step(s, Quiet.(term := [Announce(SaveFailed)], emu := req))
      case SaveThrew => Step(s, Quiet.(emu := req))
  }

  /**
   "load VM state": never changes the bridge. With no emulator nothing
   happens; with an empty slot the terminal says so; otherwise the held
   emulator is given the saved snapshot and the terminal reports the result.
   */
  function LoadState(s: Bridge, restoreThrows: bool): (r: Step)
    ensures r.next == s
    ensures r.out.keys == [] && r.out.delivered == []
    ensures s.vm.None? ==> r.out == Quiet
    ensures s.vm.Some? && s.savedState.None? ==> r.out.term == [Announce(NoSavedState)] && r.out.emu == []
    ensures s.vm.Some? && s.savedState.Some? ==>
      && r.out.emu == [Restore(s.vm.value.id, s.savedState.value)]
      && r.out.term == [Announce(if restoreThrows then RestoreFailed else StateRestored)]
  {
    if s.vm.None? then Step(s, Quiet)
    else if s.savedState.None? then Step(s, Quiet.(term := [Announce(NoSavedState)]))
    else
      var emu := [Restore(s.vm.value.id, s.savedState.value)];
      if restoreThrows then Step(s, Quiet.(term := [Announce(RestoreFailed)], emu := emu))
      else Step(s, Quiet.(term := [Announce(StateRestored)], emu := emu))
  }

  /** Saving successfully and then loading restores exactly the snapshot just taken, into the same emulator. */
  lemma SaveThenLoad(s: Bridge, snap: Snapshot)
    requires s.vm.Some?
    ensures var saved := SaveState(s, Saved(snap)).next;
      LoadState(saved, false).out.emu == [Restore(s.vm.value.id, snap)]
  {
  }

  // ---------------------------------------------------------------------
  // Traces
  // ---------------------------------------------------------------------

  /** Everything that can happen to the bridge: a block being run or a collaborator's event. */
  datatype Event =
    | InputTyped(data: string)
    | GetCalled
    | SendKeysCalled(text: string)
    | SerialByteOut(b: bv8)
    | PrintCalled(info: string, newline: string)
    | ClearCalled(kind: string)
    | MoveCursorCalled(x: Escapes.JsNumber, y: Escapes.JsNumber)
    | WindowOpened
    | StartCalled(name: string, loaded: bool, ctor: Construction)
    | StartSuspends
    | StartResumes(name: string, loaded: bool, ctor: Construction)
    | StartFails
    | StopCalled
    | SaveCalled(outcome: SaveOutcome)
    | LoadCalled(restoreThrows: bool)

  /**
   One event. A suspended start is split into `StartSuspends`, `StartResumes`
   and, after a throwing constructor, `StartFails`; other events may come in
   between. The trace model admits `StartFails` at any moment, which only adds
   traces.
   */
  function Apply(s: Bridge, e: Event): (r: Step)
    ensures Consistent(s) ==> Consistent(r.next)
    ensures Wf(s) ==> Wf(r.next)
    ensures r.next.input.bufferEnabled == s.input.bufferEnabled
    ensures r.next.savedState != s.savedState ==> e.SaveCalled? && e.outcome.Saved? && s.vm.Some?
  {
    match e
    case InputTyped(data) => OnTerminalInput(s, data)
    case GetCalled => Step(RequestInput(s).next, Quiet)
    case SendKeysCalled(text) => SendKeys(s, text)
    case SerialByteOut(b) => OnSerialByte(s, b)
    case PrintCalled(info, newline) => Print(s, info, newline)
    case ClearCalled(kind) => Clear(s, kind)
    case MoveCursorCalled(x, y) => MoveCursorTo(s, x, y)
    case WindowOpened => OpenWindow(s)
    case StartCalled(name, loaded, ctor) => StartVM(s, name, loaded, ctor)
    case StartSuspends => StartBegin(s)
    case StartResumes(name, loaded, ctor) => StartResume(s, name, loaded, ctor)
    case StartFails => ReportStartFailure(s)
    case StopCalled => StopVM(s)
    case SaveCalled(outcome) => SaveState(s, outcome)
    case LoadCalled(restoreThrows) => LoadState(s, restoreThrows)
  }

  /** The bridge after a sequence of events. */
  function Run(s: Bridge, es: seq<Event>): Bridge
    decreases |es|
  {
    if es == [] then s else Run(Apply(s, es[0]).next, es[1..])
  }

  /** Every sequence of events, suspended starts interleaved with anything, keeps the bridge well formed. */
  lemma {:induction false} RunPreservesWf(s: Bridge, es: seq<Event>)
    requires Wf(s)
    ensures Wf(Run(s, es))
    decreases |es|
  {
    if es != [] {
      RunPreservesWf(Apply(s, es[0]).next, es[1..]);
    }
  }

  /**
   In every reachable bridge the running flag implies a held emulator, so the
   status block reports only "stopped" or "running", and no emulator keeps
   running unheld.
   */
  lemma ReachableStatus(bufferEnabled: bool, es: seq<Event>)
    ensures var s := Run(Init(bufferEnabled), es);
      && (s.isRunning ==> s.vm.Some?)
      && VMStatus(s) != "starting"
      && NoOrphan(s)
  {
    RunPreservesWf(Init(bufferEnabled), es);
  }

  /**
   A failed start reports its failure only after its second suspension, so a
   start that completes in between is left running under the status "Error:
   Failed to start VM": the first start passes its first suspension point,
   its constructor throws, a second start runs to completion, and then the
   first start's failure reaches it. This holds from any bridge, for any names.
   */
  lemma LateFailureOverRunningVm(s: Bridge, failing: string, other: string, hasBus: bool)
    ensures var s1 := StartBegin(s).next;
      var s2 := StartResume(s1, failing, true, ConstructorThrew).next;
      var s3 := StartVM(s2, other, true, Constructed(hasBus)).next;
      var r := ReportStartFailure(s3).next;
      && VMStatus(r) == "running"
      && r.vm == Some(Vm(s2.nextVm, BootImage(other), hasBus))
      && r.panel.Some? && r.panel.value.status == StartFailed && !r.panel.value.green
  {
  }

  /** Once the buffer is empty with buffering off, it stays empty whatever happens. */
  lemma {:induction false} UnbufferedStaysEmpty(s: Bridge, es: seq<Event>)
    requires !s.input.bufferEnabled && s.input.buffer == []
    ensures Run(s, es).input.buffer == [] && !Run(s, es).input.bufferEnabled
    decreases |es|
  {
    if es != [] {
      var e := es[0];
      var n := Apply(s, e).next;
      assert n.input.buffer == [] by {
        match e
        case GetCalled => assert n.input.buffer == RequestInput(s).next.input.buffer;
        case _ =>
      }
      UnbufferedStaysEmpty(n, es[1..]);
    }
  }

  /**
   With buffering off, as the extension constructs it, the buffer is empty
   in every reachable bridge, so each input event hands its pending requests
   exactly its own data and input nobody waits for is lost.
   */
  lemma InputWithoutBuffering(es: seq<Event>, data: string)
    ensures var s := Run(Init(false), es);
      var r := OnTerminalInput(s, data);
      && s.input.buffer == []
      && (forall i :: 0 <= i < |r.out.delivered| ==> r.out.delivered[i].payload == data)
      && (s.input.waiters == [] ==> r.out.delivered == [] && r.next.input.buffer == [])
  {
    UnbufferedStaysEmpty(Init(false), es);
  }

  /** The snapshot slot changes only through a successful save while an emulator is held. */
  lemma {:induction false} SlotChangesOnlyBySave(s: Bridge, es: seq<Event>)
    requires forall i :: 0 <= i < |es| ==> !es[i].SaveCalled?
    ensures Run(s, es).savedState == s.savedState
    decreases |es|
  {
    if es != [] {
      SlotChangesOnlyBySave(Apply(s, es[0]).next, es[1..]);
    }
  }
}
