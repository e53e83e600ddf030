/**
 Two places where the extension does not do what it evidently intends. Each
 is modelled as written, with a lemma that exhibits the discrepancy, next to
 the corrected behaviour that the bridge model uses.
 */
module Findings {
  import opened Options
  import opened Images
  import opened Bridge

  // ---------------------------------------------------------------------
  // 1. The image lookup follows the prototype chain.
  // ---------------------------------------------------------------------

  /** Property names every plain JavaScript object inherits from `Object.prototype`. */
  const InheritedKeys: set<string> := {
    "constructor", "__defineGetter__", "__defineSetter__", "hasOwnProperty",
    "__lookupGetter__", "__lookupSetter__", "isPrototypeOf", "propertyIsEnumerable",
    "toString", "valueOf", "__proto__", "toLocaleString"
  }

  /** What the CD-ROM option receives: a catalogued image, or an inherited member that is no image at all. */
  datatype CdromSource = ImageOf(os: Os) | InheritedMember(key: string)

  /**
   The lookup as written: indexing the image table finds own keys and, failing
   those, inherited members, which are truthy and so defeat the Linux fallback.
   */
  function CdromAsWritten(name: string): (r: CdromSource)
    ensures r.InheritedMember? <==> name in InheritedKeys
    ensures r.InheritedMember? ==> r.key == name
  {
    match CatalogEntry(name)
    case Some(os) => ImageOf(os)
    case None => if name in InheritedKeys then InheritedMember(name) else ImageOf(Linux)
  }

  /** Asking for the OS "toString" hands the emulator a function instead of the Linux image. */
  lemma ToStringEscapesFallback()
    ensures CdromAsWritten("toString") == InheritedMember("toString")
    ensures BootImage("toString") == Linux
  {
    assert "toString" in InheritedKeys;
  }

  /** The corrected lookup differs from the written one exactly on the inherited names. */
  lemma CorrectedLookupDiffersOnlyOnInherited(name: string)
    ensures CdromAsWritten(name) == ImageOf(BootImage(name)) <==> name !in InheritedKeys
  {
  }

  // ---------------------------------------------------------------------
  // 2. A start that resumes after another start orphans an emulator.
  // ---------------------------------------------------------------------

  /**
   The part of "start" after its suspension point as written: it constructs
   the new emulator without looking again at whether one is now held.
   */
  function StartResumeAsWritten(s: Bridge, name: string, loaded: bool, ctor: Construction): (r: Step)
    ensures !loaded ==> r == Step(s, Quiet)
    ensures loaded && ctor.Constructed? ==>
      && r.next.vm == Some(Vm(s.nextVm, BootImage(name), ctor.hasBus))
      && r.next.unhalted == s.unhalted + {s.nextVm}
      && r.out.emu == [Construct(r.next.vm.value, ImageUrl(BootImage(name)))]
    ensures Consistent(s) ==> Consistent(r.next)
  {
    if !loaded then Step(s, Quiet)
    else InitializeVM(s.(panel := EnsurePanel(s.panel)), name, ctor)
  }

  /** Resuming as written while another emulator is held leaves that emulator running and unheld. */
  lemma ResumeAsWrittenOrphans(s: Bridge, name: string, ctor: Construction)
    requires Wf(s) && s.vm.Some? && ctor.Constructed?
    ensures var n := StartResumeAsWritten(s, name, true, ctor).next;
      && s.vm.value.id in n.unhalted
      && n.vm.value.id != s.vm.value.id
      && !NoOrphan(n)
  {
  }

  /**
   The interleaving that reaches that state: Linux is running; a first start
   stops it and suspends; a second start runs to completion; the first one
   resumes and replaces the second emulator, which is never halted.
   */
  lemma OverlappingStartsOrphan()
    ensures var s1 := StartVM(Init(false), "linux", true, Constructed(true)).next;
      var s2 := StartBegin(s1).next;
      var s3 := StartVM(s2, "freedos", true, Constructed(true)).next;
      var s4 := StartResumeAsWritten(s3, "linux", true, Constructed(true)).next;
      && Wf(s3) && s3.vm.Some?
      && s4.unhalted == {1, 2} && s4.vm.Some? && s4.vm.value.id == 2
      && !NoOrphan(s4)
  {
    var s1 := StartVM(Init(false), "linux", true, Constructed(true)).next;
    assert Wf(s1) && s1.isRunning && s1.nextVm == 1;
    var s2 := StartBegin(s1).next;
    assert Wf(s2) && !s2.isRunning && s2.nextVm == 1;
    var s3 := StartVM(s2, "freedos", true, Constructed(true)).next;
    assert s3.unhalted == {1} && s3.nextVm == 2;
  }

  /** With nothing in between, the corrected resume behaves exactly as the written one. */
  lemma CorrectionInvisibleWithoutInterleaving(s: Bridge, name: string, loaded: bool, ctor: Construction)
    requires Wf(s)
    ensures var b := StartBegin(s).next;
      StartResume(b, name, loaded, ctor) == StartResumeAsWritten(b, name, loaded, ctor)
  {
    var b := StartBegin(s).next;
    if loaded {
      assert Then(Quiet, InitializeVM(b.(panel := EnsurePanel(b.panel)), name, ctor).out)
          == InitializeVM(b.(panel := EnsurePanel(b.panel)), name, ctor).out;
    }
  }

  // ---------------------------------------------------------------------
  // Traces of the program as written
  // ---------------------------------------------------------------------

  /** One event of the program as written: the same as `Apply` except that a start resumes as written. */
  function ApplyAsWritten(s: Bridge, e: Event): (r: Step)
    ensures Consistent(s) ==> Consistent(r.next)
    ensures !e.StartResumes? ==> r == Apply(s, e)
  {
    match e
    case StartResumes(name, loaded, ctor) => StartResumeAsWritten(s, name, loaded, ctor)
    case _ => Apply(s, e)
  }

  /** The bridge of the program as written after a sequence of events. */
  function RunAsWritten(s: Bridge, es: seq<Event>): Bridge
    decreases |es|
  {
    if es == [] then s else RunAsWritten(ApplyAsWritten(s, es[0]).next, es[1..])
  }

  /** Every trace of the program as written, interleaved starts included, keeps the flag and the held emulator in step. */
  lemma {:induction false} RunAsWrittenConsistent(s: Bridge, es: seq<Event>)
    requires Consistent(s)
    ensures Consistent(RunAsWritten(s, es))
    decreases |es|
  {
    if es != [] {
      RunAsWrittenConsistent(ApplyAsWritten(s, es[0]).next, es[1..]);
    }
  }

  /**
   The status block of the program as written reports only "stopped" or
   "running", and "running" only with an emulator held, in every reachable
   bridge; what the written program loses is `NoOrphan`, not this.
   */
  lemma ReachableStatusAsWritten(bufferEnabled: bool, es: seq<Event>)
    ensures var s := RunAsWritten(Init(bufferEnabled), es);
      && (s.isRunning ==> s.vm.Some?)
      && VMStatus(s) != "starting"
  {
    RunAsWrittenConsistent(Init(bufferEnabled), es);
  }
}
