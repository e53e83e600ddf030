# Virtual-machine extension bridge, modelled in Dafny

This project models the coordination core of a Scratch extension that runs an
x86 emulator (v86) next to a terminal widget (xterm). The core is the
`VMExtension` class. It does not emulate anything itself. It routes terminal
input to waiting "get terminal input" requests and to the emulator's
keyboard. It builds the escape sequences behind the "clear", "move cursor"
and "colored text" blocks. It starts and stops the single emulator instance.
It keeps one saved machine state.

The bridge is one immutable record, `Bridge.Bridge`, with these parts:

- the input queue: `buffer`, `bufferEnabled` and the pending requests
- the held emulator
- the running flag
- the snapshot slot
- the status bar

Every block and every collaborator event is a pure function. It maps a record
to the next record plus a `Bridge.Effects` value. That value lists what the
transition emits, in order:

- calls on the terminal
- keyboard code units sent to the emulator
- answers to pending input requests
- calls on the emulator

Modules:

- `Options`: an optional value.
- `Text`: decimal rendering and its parser, ASCII lower-casing, and the
  UTF-16 code units that `charCodeAt` reports.
- `Escapes`: the CSI builders and a CSI parser. The parser reads back what
  the builders write. It also rejects every text that `Escapes.Render` could
  not have written, such as one with a zero-padded number. So a contract
  that says what a text decodes to fixes that text character for character
  (`Escapes.RenderOfParse`).
- `InputQueue`: the buffer and the pending requests.
- `Images`: the OS image catalog and its Linux fallback.
- `Bridge`: the state record, the blocks, the lifecycle, the snapshot slot,
  and traces of events with their invariants.
- `Findings`: two behaviours of the code as written, next to the corrected
  behaviour that `Bridge` uses.

Parameters stand in for collaborator behaviour the bridge cannot see:

- whether the emulator library loaded (`loaded`)
- whether the emulator constructor threw, and whether the instance has a bus
  (`Construction`)
- what `save_state` answered (`SaveOutcome`)
- whether `restore_state` threw (`restoreThrows`)

`bufferEnabled` is fixed when the record is constructed. The extension sets
it to false and never changes it.

## Model

| member | source | states |
|---|---|---|
| Text.ParseDecOfDec | extension.js:758 | reading back the decimal rendering of a coordinate or colour gives the number |
| Text.DecInjective | extension.js:758 | different numbers never render to the same digits |
| Text.ParseDecZero | extension.js:758 | a digit run that reads as zero consists of zeros only |
| Text.DecOfParseDec | extension.js:758 | a canonical numeral (no leading zero unless "0") is the rendering of its own value |
| Text.DecodeCodeUnits | extension.js:284-286 | the keyboard codes sent for a text decode back to exactly that text |
| Text.CodeUnitsBasicPlane | extension.js:284-286 | for basic-plane text, one code per character, the i-th equal to the i-th character's value |
| Text.CodeUnitsAppend | extension.js:283-287 | sending two texts one after the other sends the codes of their concatenation |
| Text.ToLowerFixesLower | extension.js:738 | lower-casing is idempotent and leaves already-lower text unchanged |
| Escapes.Render | extension.js:747 | a built control sequence parses back to its parameters and final character |
| Escapes.ParamsOfParseParams | extension.js:758 | every parameter text the parser accepts is exactly the ';'-joined rendering of the numbers it reads |
| Escapes.RenderOfParse | extension.js:747 | a text that decodes to a sequence is that sequence's rendering, so decoding determines the text |
| Escapes.ParseInjective | extension.js:747 | two texts that decode to the same sequence are equal |
| Escapes.ZeroPaddedRejected | extension.js:758 | ESC[06;4H, which no template literal writes, does not decode |
| Escapes.CursorTo | extension.js:751-760 | a sequence is built iff both coordinates are finite, integral and >= 0, and it decodes to CUP with row y+1, then column x+1 (so it is exactly ESC[y+1;x+1H) |
| Escapes.CursorToExact | extension.js:757-758 | for valid cells the output is exactly ESC[, the decimal y+1, ';', the decimal x+1, 'H' |
| Escapes.CursorToExamples | extension.js:757-758 | (x 3, y 5) gives exactly ESC[6;4H; negative, fractional and infinite coordinates give nothing |
| Escapes.EraseSequence | extension.js:735-749 | a sequence is built iff the lower-cased name is after/before/screen/scrollback, and it decodes to ED whose parameter indexes that name (0..3) |
| Escapes.EraseIgnoresCase | extension.js:738 | a name and its lower-case form clear the same way |
| Escapes.Reset | extension.js:844 | the trailing reset decodes to SGR 0 |
| Escapes.ColoredText | extension.js:841-845 | the result is an SGR sequence decoding to 48;2;r;g;b for type "background" in any case, else 38;2;r;g;b, then the text unchanged, then SGR 0 |
| Escapes.OpeningText | extension.js:842-844 | the opening sequence is exactly ESC[48;2;r;g;bm for type "background" in any letter case, else ESC[38;2;r;g;bm, each channel in decimal |
| Escapes.ColoredTextExact | extension.js:841-845 | the block's output is exactly that opening sequence, the text, then ESC[0m |
| InputQueue.Init | extension.js:53-55 | the queue starts with an empty buffer and no pending request |
| InputQueue.Get | extension.js:762-766 | a request appends one fresh waiter and leaves the buffer, even a non-empty one, untouched |
| InputQueue.Arrive | extension.js:272-281 | with waiters, each gets buffer+data in order and both are emptied; without, data is appended iff buffering is on, else dropped |
| InputQueue.GetThenArrive | extension.js:272-278 | a request on an idle queue is answered by the next event with buffer+data, and nothing stays pending |
| InputQueue.AllWaitersSharePayload | extension.js:274-276 | every pending request receives the same text from one event |
| InputQueue.BufferGathersInOrder | extension.js:279-281 | with buffering on and no waiter, the buffer after N events is the old buffer followed by all N payloads in order |
| InputQueue.UnbufferedInputIsDropped | extension.js:279-281 | with buffering off and no waiter, any number of events leave the queue unchanged |
| InputQueue.BufferAndWaitersCoexist | extension.js:762-766 | with buffering on, buffered text and a pending request can exist together |
| Images.CatalogEntry | extension.js:58-65 | an own-key hit is catalogued under exactly the requested name |
| Images.CatalogRoundTrip | extension.js:58-65 | each image is found under its menu name |
| Images.BootImage | extension.js:582 | a catalogued name boots its image; the Linux image is booted iff the name is "linux" or not catalogued |
| Bridge.Init | extension.js:43-56 | the bridge starts well-formed: no emulator, not running, no snapshot, no window, an empty buffer and no pending request, with the given buffering mode |
| Bridge.KeyCodes | extension.js:283-287 | no codes without an emulator that has a bus; otherwise codes that decode to the text, one per basic-plane character in order |
| Bridge.OnTerminalInput | extension.js:272-288 | queue behaviour as in InputQueue.Arrive; keyboard codes for the data whichever queue branch ran; nothing else changes |
| Bridge.RequestInput | extension.js:762-766 | one fresh waiter is appended; the buffer and the rest of the bridge are unchanged |
| Bridge.SendKeys | extension.js:726-733 | the bridge is unchanged; without an emulator with a bus nothing is sent, else codes decoding to the text |
| Bridge.OnSerialByte | extension.js:588-592 | each serial byte becomes one terminal character with that code |
| Bridge.Print | extension.js:712-719 | the text is written unchanged, with a line break iff the option lower-cases to "newline" |
| Bridge.Clear | extension.js:735-749 | one write iff the lower-cased target is known, and it is that target's erase sequence |
| Bridge.MoveCursorTo | extension.js:751-760 | one write iff both coordinates are valid cells, and it decodes to the one-based cursor position |
| Bridge.EnsurePanel | extension.js:303-334 | the window is built once, its status bar showing "Ready", a green dot and "No OS loaded"; an existing one is kept |
| Bridge.SetStatus | extension.js:616-626 | the status text and dot change only when the window exists |
| Bridge.SetOsInfo | extension.js:628-633 | the OS field changes only when the window exists |
| Bridge.OpenWindow | extension.js:655-658 | showing builds the status bar if missing and changes nothing else |
| Bridge.StopVM | extension.js:635-653 | always ends with no emulator and not running; halts the held one if any; the snapshot is untouched; the status and "stopped" banner are rewritten even when already stopped |
| Bridge.InitializeVM | extension.js:565-614 | success holds a fresh emulator on the looked-up image with that image's URL as CD-ROM, sets running, shows the OS and the banner; a throwing constructor only sets the "Failed to initialize" status |
| Bridge.StartBegin | extension.js:546-549 | stops first exactly when running, after which no emulator is held |
| Bridge.StartResume | extension.js:551-558 | without the library nothing happens; otherwise any held emulator is halted before the new one is constructed, so no emulator is orphaned |
| Bridge.ReportStartFailure | extension.js:559-562 | after a failed initialization only the status bar changes, to "Error: Failed to start VM" with a red dot |
| Bridge.StartVM | extension.js:546-563 | halts the previous emulator before constructing the new one; keeps the snapshot and input queue; on failure ends with nothing running and the "Error: Failed to start VM" status |
| Bridge.VMStatus | extension.js:791-795 | "stopped" iff the flag is clear; "starting" iff the flag is set with no emulator; "running" iff the flag is set with an emulator |
| Bridge.IsVMRunning | extension.js:787-789 | the running flag is set iff the status is not "stopped" |
| Bridge.StatusIsStoppedOrRunning | extension.js:791-795 | when the flag is set exactly while an emulator is held, the status is "stopped" or "running", and "running" iff an emulator is held |
| Bridge.SaveState | extension.js:797-817 | no emulator: nothing happens; only a successful answer replaces the slot, and wholly; an error keeps the slot |
| Bridge.LoadState | extension.js:819-839 | never changes the bridge; nothing without an emulator; "no saved state" on an empty slot; else restores the slot's snapshot into the held emulator |
| Bridge.SaveThenLoad | extension.js:810-832 | a successful save followed by a load restores exactly the saved snapshot |
| Bridge.Apply | extension.js:546-595 | each event keeps the bridge consistent and well-formed; only a successful save with an emulator changes the slot |
| Bridge.RunPreservesWf | extension.js:546-653 | any event sequence, suspended starts included, keeps the bridge well-formed |
| Bridge.ReachableStatus | extension.js:791-795 | in every reachable bridge: running implies an emulator, the status is never "starting", no emulator is orphaned |
| Bridge.LateFailureOverRunningVm | extension.js:556-562 | from any bridge: a start whose constructor throws, then a complete second start, then the first start's failure report, leaves the second emulator running under "Error: Failed to start VM" |
| Bridge.UnbufferedStaysEmpty | extension.js:279-281 | with buffering off, an empty buffer stays empty under any events |
| Bridge.InputWithoutBuffering | extension.js:54 | from the constructed bridge, requests receive only the event's own data, and unwaited input is lost |
| Bridge.SlotChangesOnlyBySave | extension.js:810 | events other than saves never change the snapshot slot |
| Findings.CdromAsWritten | extension.js:582 | as written, an inherited member name yields that member instead of an image, exactly for the inherited names |
| Findings.ToStringEscapesFallback | extension.js:582 | "toString" yields a function as written, but Linux in the corrected lookup |
| Findings.CorrectedLookupDiffersOnlyOnInherited | extension.js:58-65 | the written and corrected lookups agree exactly on the non-inherited names |
| Findings.StartResumeAsWritten | extension.js:551-569 | as written, resuming a start constructs a new emulator without halting one that is held |
| Findings.ResumeAsWrittenOrphans | extension.js:569 | resuming as written while an emulator is held leaves that emulator running and unheld |
| Findings.OverlappingStartsOrphan | extension.js:546-558 | a running Linux, a start suspended on its stop, and a second complete start, end with two emulators running and one held |
| Findings.CorrectionInvisibleWithoutInterleaving | extension.js:546-558 | without interleaving, the corrected resume equals the written one |
| Findings.ApplyAsWritten | extension.js:546-569 | an event of the program as written keeps the flag and the held emulator in step, and differs from the corrected one only when a start resumes |
| Findings.RunAsWrittenConsistent | extension.js:546-653 | every trace of the program as written, interleaved starts included, keeps the flag and the held emulator in step |
| Findings.ReachableStatusAsWritten | extension.js:791-795 | in every bridge the program as written reaches, running implies an emulator and the status is never "starting" |

## Findings

| source | as written | input that shows it | evidently intended | confidence | as-written member | corrected member |
|---|---|---|---|---|---|---|
| extension.js:582 | The image table is a plain object indexed by the requested name. Inherited `Object.prototype` members count as hits and are truthy, so the Linux fallback is skipped. | OS name "toString" (the OS menu accepts reporters) | Every name outside the catalog boots the Linux image | medium, not executed | Findings.CdromAsWritten | Images.BootImage |
| extension.js:546-558 | "start" awaits the stop of a running emulator. It then constructs a new one without checking again. A second start that ran during the wait has its emulator replaced without being halted. | Linux running, and two start blocks run in the same frame | At most one emulator runs, and it is the held one | medium, not executed | Findings.StartResumeAsWritten | Bridge.StartResume |

## Behaviour that may surprise

- **Answering requests.** One input event answers every pending request with
  the same text (`InputQueue.AllWaitersSharePayload`).
- **Buffered text.** A request never takes buffered text straight away; it
  waits for the next event (`InputQueue.Get`).
- **Buffer and requests together.** With buffering on, the buffer and the
  pending requests can both be non-empty at once
  (`InputQueue.BufferAndWaitersCoexist`).
- **Stopping twice.** Stopping an already stopped bridge rewrites the status
  bar and writes the "stopped" banner again (`Bridge.StopVM`).
- **Status colour.** The status dot is green while an OS is starting.
- **Overlapping starts.** Start blocks that overlap are not serialised (see
  Findings).
- **Late failure status.** A failed start writes "Error: Failed to start VM"
  only after the awaited initialization, so a second start that completes in
  between runs under that status (`Bridge.LateFailureOverRunningVm`).

## Left out

- Loading the terminal and emulator libraries from the network is a
  parameter. `loaded` says whether the emulator library is present.
- The window is left out: CSS, HTML, dragging, positioning, hiding,
  minimising and maximising are presentation only. What remains is that
  showing the window builds the status bar (`Bridge.OpenWindow`).
- Terminal construction, its theme and add-ons, and the resize hat block
  configure an external widget. The terminal exists from construction on, so
  the guards for a missing terminal never fire and are not branches here.
- The block and menu declarations, the "terminal size/cursor" reporter and
  the "send command" block are left out. They are host metadata, reads of the
  widget's internals, and a one-line write.
- Emulator constructor options other than the CD-ROM image are left out.
  Snapshot contents are an opaque blob. Banner texts are the abstract
  `Bridge.Notice` values.
- Console logging has no effect on the bridge and is left out.
- Bridge.InitializeVM: the transient "Starting …" status text is not kept.
  It is overwritten before the initialization returns, with no suspension in
  between.
- Bridge.InitializeVM: an exception between storing the emulator and setting
  the running flag is not modelled; it would need the listener registration
  to throw. It would leave an emulator held with the flag clear, the state
  that `Bridge.Consistent` excludes: the status would read "stopped" while
  keys, saves and loads still reach that emulator.
- Bridge.InitializeVM: a non-string OS argument is not modelled. It would
  throw while upper-casing, after the emulator was stored.
- Bridge.SaveState: the save callback is treated as answering at once. If it
  answered after a stop, the code would still store the snapshot.
- Bridge.LoadState: an asynchronous failure of the restore is not modelled;
  only a synchronous throw is.
- Bridge.KeyCodes: text is a sequence of Unicode scalar values. A JavaScript
  string holding a lone surrogate has no counterpart.
- Text.ToLower: only the ASCII letters are lower-cased. Full Unicode case
  mapping is not modelled; for example, JavaScript lower-cases the Kelvin
  sign to "k". The same applies to the name comparisons in
  Escapes.EraseSequence, Escapes.ColoredText and Bridge.Print.
- Escapes.EraseSequence: the names "constructor" and "__proto__" are treated
  as unknown. The code's `in` test would accept them as inherited keys, but
  the clear menu does not accept reporters.
- Escapes.CursorTo: coordinates are exact reals. Above 2^53, JavaScript
  rounds the +1. From 10^21 on, it renders the number in exponent notation.
- Bridge.OnSerialByte: bytes from any emulator instance reach the terminal.
  The output listeners are never removed, so the instance is not tracked.
