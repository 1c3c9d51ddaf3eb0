/** mcycle and minstret, kept as offsets from the simulator's instruction counts. */
module Counters {

  const TWO32: nat := 0x1_0000_0000
  const TWO64: nat := 0x1_0000_0000_0000_0000

  type U64 = x: nat | x < TWO64
  type U32 = x: nat | x < TWO32

  function Sub(a: U64, b: U64): (r: U64) { if a >= b then a - b else a + TWO64 - b }
  function Inc(a: U64): (r: U64) { if a + 1 == TWO64 then 0 else a + 1 }
  function Add(a: U64, b: U64): (r: U64) { if a + b >= TWO64 then a + b - TWO64 else a + b }

  /** Which part of a 64-bit counter a CSR write replaces. */
  datatype Part = Full | Lower | Upper

  function Merge(part: Part, v: U64, current: U64): (r: U64) {
    match part
    case Full => v
    case Lower => current / TWO32 * TWO32 + v % TWO32
    case Upper => v % TWO32 * TWO32 + current % TWO32
  }

  /**
   * A half-word write replaces that half and keeps the other; writing both halves, in either order, writes the whole.
   */
  lemma MergeHalves(v: U64, current: U64)
    ensures Merge(Lower, v, current) % TWO32 == v % TWO32 && Merge(Lower, v, current) / TWO32 == current / TWO32
    ensures Merge(Upper, v, current) / TWO32 == v % TWO32 && Merge(Upper, v, current) % TWO32 == current % TWO32
    ensures Merge(Lower, v, Merge(Upper, v / TWO32, current)) == Merge(Full, v, current)
    ensures Merge(Upper, v / TWO32, Merge(Lower, v, current)) == Merge(Full, v, current)
  {
  }

  /** mcountinhibit.CY and .IR, Debug mode, dcsr.stopcount, and whether the hart stands alone. */
  datatype Flags = Flags(cy: bool, ir: bool, debug: bool, stopcount: bool, single: bool) {
    predicate InhibitCycle() { cy || (debug && stopcount && single) }
    predicate InhibitInstret() { ir || (debug && stopcount) }
  }

  // ----- one offset-encoded counter -----

  /** Simulator count as an access sees it: a true access excludes the current instruction. */
  function CountFor(count: U64, artifact: bool): (r: U64) {
    if artifact then count else Sub(count, 1)
  }

  function ReadCounter(base: U64, inhibit: bool, count: U64, artifact: bool): (r: U64) {
    if inhibit then base else Sub(CountFor(count, artifact), base)
  }

  /** New base for a counter that is to hold v. */
  function WriteCounter(v: U64, inhibit: bool, count: U64, artifact: bool, preIncrement: bool): (r: U64) {
    var b := if inhibit then v else Sub(CountFor(count, artifact), v);
    if preIncrement && !artifact then Inc(b) else b
  }

  /** Base after a CSR write of a counter. */
  function CsrWrite(base: U64, inhibit: bool, part: Part, v: U64, count: U64, artifact: bool): (r: U64) {
    WriteCounter(Merge(part, v, ReadCounter(base, inhibit, count, artifact)), inhibit, count, artifact, !inhibit)
  }

  /** Base after the inhibit of a counter may have changed from was to now. */
  function PostInhibit(base: U64, was: bool, now: bool, count: U64, artifact: bool, preIncrement: bool): (r: U64) {
    if was == now then base else
    var v := ReadCounter(base, was, count, artifact);
    var v' := if preIncrement && was && !artifact then Sub(v, 1) else v;
    WriteCounter(v', now, count, artifact, preIncrement && !was)
  }

  // ----- runs -----

  datatype Op =
    | Plain
    | WriteCycle(part: Part, v: U64)
    | WriteInstret(part: Part, v: U64)
    | WriteInhibit(cy: bool, ir: bool)      // mcountinhibit
    | WriteStopcount(b: bool)               // dcsr.stopcount

  /** What happens next. */
  datatype Event =
    | Instruction(op: Op)                   // an instruction that retires, with its effect
    | Trap                                  // an instruction that traps instead of retiring
    | FetchTrap                             // a trap in place of an instruction
    | Idle(n: U64)                          // cycles without instructions
    | Artifact(op: Op)                      // a debugger write between instructions
    | ArtifactDebug(b: bool)                // a debugger write of the Debug mode register
    | Dret
    | Ebreak                                // ebreak as a Debug module action
    | TriggerBefore                         // a trigger that enters Debug mode instead of an instruction's completion
    | Halt                                  // Debug mode entry on fetch: halt request, step, trigger after or on fetch

  predicate Enters(e: Event) { e.Ebreak? || e.TriggerBefore? || e.Halt? }

  function NewFlags(f: Flags, op: Op): (r: Flags) {
    match op
    case WriteInhibit(cy, ir) => f.(cy := cy, ir := ir)
    case WriteStopcount(b) => f.(stopcount := b)
    case _ => f
  }

  function FlagsAfter(f: Flags, e: Event): (r: Flags) {
    if Enters(e) then f.(debug := true)
    else if e.Dret? then f.(debug := false)
    else if e.ArtifactDebug? then f.(debug := e.b)
    else if e.Instruction? || e.Artifact? then NewFlags(f, e.op)
    else f
  }

  /** Counter state of the simulator, with its cycle and executed-instruction counts. */
  datatype Unit = Unit(flags: Flags, baseCycles: U64, baseInstructions: U64, icount: U64, ecount: U64) {
    function Cycle(artifact: bool): U64 { ReadCounter(baseCycles, flags.InhibitCycle(), icount, artifact) }
    function Instret(artifact: bool): U64 { ReadCounter(baseInstructions, flags.InhibitInstret(), ecount, artifact) }
  }

  /** Both counters re-encoded for new flags. */
  function Reflag(u: Unit, f: Flags, artifact: bool, pre: bool): (r: Unit) {
    var cy, ir := u.flags.InhibitCycle(), u.flags.InhibitInstret();
    u.(flags := f,
       baseCycles := PostInhibit(u.baseCycles, cy, f.InhibitCycle(), u.icount, artifact, pre),
       baseInstructions := PostInhibit(u.baseInstructions, ir, f.InhibitInstret(), u.ecount, artifact, pre))
  }

  /** A CSR write; the counts already include the instruction that makes it. */
  function Apply(u: Unit, op: Op, artifact: bool): (r: Unit) {
    var f := u.flags;
    match op
    case Plain => u
    case WriteCycle(part, v) =>
      u.(baseCycles := CsrWrite(u.baseCycles, f.InhibitCycle(), part, v, u.icount, artifact))
    case WriteInstret(part, v) =>
      u.(baseInstructions := CsrWrite(u.baseInstructions, f.InhibitInstret(), part, v, u.ecount, artifact))
    case _ => Reflag(u, NewFlags(f, op), artifact, true)
  }

  /** Debug mode entered or left; nothing happens where it does not change. */
  function SetDebug(u: Unit, b: bool, artifact: bool): (r: Unit) {
    if u.flags.debug == b then u else Reflag(u, u.flags.(debug := b), artifact, false)
  }

  /** An executing instruction turns out not to retire. */
  function NoRetire(u: Unit, isFetch: bool): (r: Unit) {
    if !isFetch && !u.flags.InhibitInstret() then u.(baseInstructions := Inc(u.baseInstructions)) else u
  }

  /** Neither is an ebreak counted as a cycle where stopcount is set. */
  function NoCycle(u: Unit): (r: Unit) {
    if u.flags.stopcount && !u.flags.InhibitCycle() then u.(baseCycles := Inc(u.baseCycles)) else u
  }

  function Begin(u: Unit): (r: Unit) {
    u.(icount := Inc(u.icount), ecount := Inc(u.ecount))
  }

  function Step(u: Unit, e: Event): (r: Unit) {
    match e
    case Instruction(op) => Apply(Begin(u), op, false)
    case Trap => NoRetire(Begin(u), false)
    case FetchTrap => NoRetire(u, true)
    case Idle(n) => u.(icount := Add(u.icount, n))
    case Artifact(op) => Apply(u, op, true)
    case ArtifactDebug(b) => SetDebug(u, b, true)
    case Dret => if u.flags.debug then SetDebug(Begin(u), false, false) else NoRetire(Begin(u), false)
    case Ebreak => SetDebug(NoCycle(NoRetire(Begin(u), false)), true, false)
    case TriggerBefore => SetDebug(NoRetire(Begin(u), false), true, false)
    case Halt => SetDebug(NoRetire(u, true), true, false)
  }

  function Run(u: Unit, run: seq<Event>): (r: Unit) {
    if run == [] then u else Step(Run(u, run[..|run| - 1]), run[|run| - 1])
  }

  // ----- the counters the architecture describes -----

  /** Plain counters: what the next instruction would read. */
  datatype Naive = Naive(flags: Flags, cycle: U64, instret: U64)

  /** One more, unless inhibited. */
  function Tick(v: U64, inhibit: bool): (r: U64) { if inhibit then v else Inc(v) }

  /**
   * Every executed instruction counts a cycle and every retired one an instruction, unless
   * inhibited where it executes. A written counter takes the written value from the next
   * instruction on. With stopcount an ebreak that enters Debug mode counts nothing.
   */
  function NaiveStep(s: Naive, e: Event): (r: Naive) {
    var f := FlagsAfter(s.flags, e);
    var cycled, retired := Tick(s.cycle, s.flags.InhibitCycle()), Tick(s.instret, s.flags.InhibitInstret());
    match e
    case Instruction(op) =>
      Naive(f,
            if op.WriteCycle? then Merge(op.part, op.v, s.cycle) else cycled,
            if op.WriteInstret? then Merge(op.part, op.v, s.instret) else retired)
    case Trap => Naive(f, cycled, s.instret)
    case FetchTrap => s
    case Idle(n) => if s.flags.InhibitCycle() then s else s.(cycle := Add(s.cycle, n))
    case Artifact(op) =>
      Naive(f,
            if op.WriteCycle? then Merge(op.part, op.v, s.cycle) else s.cycle,
            if op.WriteInstret? then Merge(op.part, op.v, s.instret) else s.instret)
    case ArtifactDebug(_) => s.(flags := f)
    case Dret => Naive(f, cycled, if s.flags.debug then retired else s.instret)
    case Ebreak => Naive(f, if s.flags.stopcount then s.cycle else cycled, s.instret)
    case TriggerBefore => Naive(f, cycled, s.instret)
    case Halt => s.(flags := f)
  }

  function NaiveRun(s: Naive, run: seq<Event>): (r: Naive) {
    if run == [] then s else NaiveStep(NaiveRun(s, run[..|run| - 1]), run[|run| - 1])
  }

  // ----- where the simulator drifts from them -----

  /** With stopcount set, Debug mode is entered or left by an event of the hart itself. */
  predicate Switches(f: Flags, e: Event) { f.stopcount && ((f.debug && e.Dret?) || (!f.debug && Enters(e))) }

  /** The switch stops or starts the counter: nothing else inhibits it. */
  predicate CycleDrifts(f: Flags, e: Event) { Switches(f, e) && f.single && !f.cy }
  predicate InstretDrifts(f: Flags, e: Event) { Switches(f, e) && !f.ir }

  /** One count is gained where dret starts a counter, and one is lost where entry stops it. */
  function Drift(v: U64, e: Event, drifts: bool): (r: U64) {
    if !drifts then v else if e.Dret? then Inc(v) else Sub(v, 1)
  }

  /** The simulator's own step, on plain counters. */
  function DriftStep(s: Naive, e: Event): (r: Naive) {
    var n := NaiveStep(s, e);
    n.(cycle := Drift(n.cycle, e, CycleDrifts(s.flags, e)), instret := Drift(n.instret, e, InstretDrifts(s.flags, e)))
  }

  function DriftRun(s: Naive, run: seq<Event>): (r: Naive) {
    if run == [] then s else DriftStep(DriftRun(s, run[..|run| - 1]), run[|run| - 1])
  }

  /** The plain counters a simulator state stands for. */
  function Meaning(u: Unit): (s: Naive) {
    Naive(u.flags, u.Cycle(true), u.Instret(true))
  }

  /** An artifact access now and a true access by the next instruction read the same counters. */
  lemma NextInstructionReads(u: Unit)
    ensures Begin(u).Cycle(false) == Meaning(u).cycle && Begin(u).Instret(false) == Meaning(u).instret
  {
  }

  /** A counter write by an instruction is what the next instruction reads. */
  lemma CsrWriteMeaning(base: U64, inhibit: bool, part: Part, v: U64, count: U64, artifact: bool)
    ensures ReadCounter(CsrWrite(base, inhibit, part, v, count, artifact), inhibit, count, true)
         == Merge(part, v, ReadCounter(base, inhibit, count, artifact))
  {
  }

  lemma PostInhibitMeaning(base: U64, was: bool, now: bool, count: U64, artifact: bool, pre: bool)
    ensures var v := ReadCounter(base, was, count, artifact);
            ReadCounter(PostInhibit(base, was, now, count, artifact, pre), now, count, true)
              == if artifact then v else Tick(v, if pre then was else now)
  {
  }

  /** A counter that an instruction leaves alone moves on by one for the next. */
  lemma UntouchedTicks(base: U64, inhibit: bool, count: U64)
    ensures ReadCounter(base, inhibit, count, true) == Tick(ReadCounter(base, inhibit, count, false), inhibit)
  {
  }

  lemma ReflagMeaning(u: Unit, f: Flags, artifact: bool, pre: bool)
    ensures var cy, ir := if pre then u.flags.InhibitCycle() else f.InhibitCycle(),
                          if pre then u.flags.InhibitInstret() else f.InhibitInstret();
            Meaning(Reflag(u, f, artifact, pre)) ==
            if artifact then Naive(f, u.Cycle(true), u.Instret(true))
            else Naive(f, Tick(u.Cycle(false), cy), Tick(u.Instret(false), ir))
  {
    PostInhibitMeaning(u.baseCycles, u.flags.InhibitCycle(), f.InhibitCycle(), u.icount, artifact, pre);
    PostInhibitMeaning(u.baseInstructions, u.flags.InhibitInstret(), f.InhibitInstret(), u.ecount, artifact, pre);
  }

  /** Each CSR write, by an instruction or by a debugger, has the naive effect. */
  lemma ApplyRefines(b: Unit, op: Op, artifact: bool)
    ensures var s := Naive(b.flags, b.Cycle(artifact), b.Instret(artifact));
            Meaning(Apply(b, op, artifact)) == NaiveStep(s, if artifact then Artifact(op) else Instruction(op))
  {
    UntouchedTicks(b.baseCycles, b.flags.InhibitCycle(), b.icount);
    UntouchedTicks(b.baseInstructions, b.flags.InhibitInstret(), b.ecount);
    match op
    case Plain =>
    case WriteCycle(part, v) => CsrWriteMeaning(b.baseCycles, b.flags.InhibitCycle(), part, v, b.icount, artifact);
    case WriteInstret(part, v) =>
      CsrWriteMeaning(b.baseInstructions, b.flags.InhibitInstret(), part, v, b.ecount, artifact);
    case _ => ReflagMeaning(b, NewFlags(b.flags, op), artifact, true);
  }

  /** A counter during an instruction, discounted or not, whose inhibition Debug mode entry changes from was to now. */
  lemma EntryCounter(base: U64, was: bool, now: bool, count: U64, discount: bool)
    requires was ==> now
    ensures var v := ReadCounter(base, was, count, true);
            var b := if discount && !was then Inc(base) else base;
            var plain := if discount then v else Tick(v, was);
            ReadCounter(PostInhibit(b, was, now, Inc(count), false, false), now, Inc(count), true) ==
            if !was && now then Sub(plain, 1) else plain
  {
  }

  /** Entering Debug mode from an instruction that does not retire, whose cycle may already be discounted. */
  lemma EntryMeaning(u: Unit, discount: bool)
    requires !u.flags.debug
    ensures var b := NoRetire(Begin(u), false);
            var b' := if discount && !u.flags.InhibitCycle() then b.(baseCycles := Inc(b.baseCycles)) else b;
            var f := u.flags.(debug := true);
            var s, m := Meaning(u), Meaning(SetDebug(b', true, false));
            var cycled := if discount then s.cycle else Tick(s.cycle, s.flags.InhibitCycle());
            m.flags == f &&
            m.cycle == Drift(cycled, Ebreak, CycleDrifts(u.flags, Ebreak)) &&
            m.instret == Drift(s.instret, Ebreak, InstretDrifts(u.flags, Ebreak))
  {
    var f := u.flags.(debug := true);
    EntryCounter(u.baseCycles, u.flags.InhibitCycle(), f.InhibitCycle(), u.icount, discount);
    EntryCounter(u.baseInstructions, u.flags.InhibitInstret(), f.InhibitInstret(), u.ecount, true);
  }

  lemma DretMeaning(u: Unit)
    ensures Meaning(Step(u, Dret)) == DriftStep(Meaning(u), Dret)
  {
    NextInstructionReads(u);
    if u.flags.debug { ReflagMeaning(Begin(u), u.flags.(debug := false), false, false); }
  }

  lemma HaltMeaning(u: Unit)
    ensures Meaning(Step(u, Halt)) == DriftStep(Meaning(u), Halt)
  {
  }

  lemma EbreakMeaning(u: Unit)
    ensures Meaning(Step(u, Ebreak)) == DriftStep(Meaning(u), Ebreak)
  {
    if !u.flags.debug { EntryMeaning(u, u.flags.stopcount); }
  }

  lemma TriggerMeaning(u: Unit)
    ensures Meaning(Step(u, TriggerBefore)) == DriftStep(Meaning(u), TriggerBefore)
  {
    if !u.flags.debug { EntryMeaning(u, false); }
  }

  /** The exact effect of every event: the naive one, but for the counter drift of Debug mode. */
  lemma StepExact(u: Unit, e: Event)
    ensures Meaning(Step(u, e)) == DriftStep(Meaning(u), e)
  {
    match e
    case Instruction(op) =>
      NextInstructionReads(u);
      ApplyRefines(Begin(u), op, false);
    case Artifact(op) => ApplyRefines(u, op, true);
    case ArtifactDebug(b) => ReflagMeaning(u, u.flags.(debug := b), true, false);
    case Dret => DretMeaning(u);
    case Ebreak => EbreakMeaning(u);
    case TriggerBefore => TriggerMeaning(u);
    case Halt => HaltMeaning(u);
    case _ => OtherMeaning(u, e);
  }

  lemma OtherMeaning(u: Unit, e: Event)
    requires e.Trap? || e.FetchTrap? || e.Idle?
    ensures Meaning(Step(u, e)) == DriftStep(Meaning(u), e)
  {
  }

  /** Over every run, for artifact reads and for those of the next instruction. */
  lemma {:induction false} RunExact(u: Unit, run: seq<Event>)
    ensures Meaning(Run(u, run)) == DriftRun(Meaning(u), run)
    ensures Begin(Run(u, run)).Cycle(false) == DriftRun(Meaning(u), run).cycle
    ensures Begin(Run(u, run)).Instret(false) == DriftRun(Meaning(u), run).instret
  {
    if run != [] {
      RunExact(u, run[..|run| - 1]);
      StepExact(Run(u, run[..|run| - 1]), run[|run| - 1]);
    }
    NextInstructionReads(Run(u, run));
  }

  // ----- when they agree -----

  /** The mode and inhibit flags of a run do not depend on the counters. */
  function RunFlags(f: Flags, run: seq<Event>): (r: Flags) {
    if run == [] then f else FlagsAfter(RunFlags(f, run[..|run| - 1]), run[|run| - 1])
  }

  /** No event of the run stops or starts a counter by a change of Debug mode. */
  predicate Steady(f: Flags, run: seq<Event>) {
    if run == [] then true else
    var p, e := run[..|run| - 1], run[|run| - 1];
    Steady(f, p) && !CycleDrifts(RunFlags(f, p), e) && !InstretDrifts(RunFlags(f, p), e)
  }

  /** One step agrees with the naive counters, each one, if and only if that counter does not drift. */
  lemma StepRefines(u: Unit, e: Event)
    ensures Meaning(Step(u, e)).flags == NaiveStep(Meaning(u), e).flags == FlagsAfter(u.flags, e)
    ensures Meaning(Step(u, e)).cycle == NaiveStep(Meaning(u), e).cycle <==> !CycleDrifts(u.flags, e)
    ensures Meaning(Step(u, e)).instret == NaiveStep(Meaning(u), e).instret <==> !InstretDrifts(u.flags, e)
  {
    StepExact(u, e);
    NaiveFlags(Meaning(u), e);
  }

  lemma NaiveFlags(s: Naive, e: Event)
    ensures NaiveStep(s, e).flags == FlagsAfter(s.flags, e)
  {
  }

  lemma {:induction false} FlagsOfRun(u: Unit, run: seq<Event>)
    ensures Run(u, run).flags == RunFlags(u.flags, run)
  {
    if run != [] {
      FlagsOfRun(u, run[..|run| - 1]);
      StepRefines(Run(u, run[..|run| - 1]), run[|run| - 1]);
    }
  }

  /** The counters agree with the naive ones after each event of the run. */
  ghost predicate AlwaysAgrees(u: Unit, run: seq<Event>) {
    Meaning(Run(u, run)) == NaiveRun(Meaning(u), run) && (run == [] || AlwaysAgrees(u, run[..|run| - 1]))
  }

  /** Over every run, the offset encoding reads as naive counters throughout if and only if the run is steady. */
  lemma {:induction false} RunRefines(u: Unit, run: seq<Event>)
    ensures AlwaysAgrees(u, run) <==> Steady(u.flags, run)
    ensures Steady(u.flags, run) ==>
              Begin(Run(u, run)).Cycle(false) == NaiveRun(Meaning(u), run).cycle &&
              Begin(Run(u, run)).Instret(false) == NaiveRun(Meaning(u), run).instret
  {
    if run != [] {
      var p, e := run[..|run| - 1], run[|run| - 1];
      RunRefines(u, p);
      FlagsOfRun(u, p);
      StepRefines(Run(u, p), e);
    }
    NextInstructionReads(Run(u, run));
  }

  // ----- what stops and what moves the counters, from the events alone -----

  /** mcountinhibit.CY as the last write left it. */
  function LastCy(was: bool, run: seq<Event>): (b: bool) {
    if run == [] then was else
    match run[|run| - 1]
    case Instruction(WriteInhibit(cy, _)) => cy
    case Artifact(WriteInhibit(cy, _)) => cy
    case _ => LastCy(was, run[..|run| - 1])
  }

  /** mcountinhibit.IR as the last write left it. */
  function LastIr(was: bool, run: seq<Event>): (b: bool) {
    if run == [] then was else
    match run[|run| - 1]
    case Instruction(WriteInhibit(_, ir)) => ir
    case Artifact(WriteInhibit(_, ir)) => ir
    case _ => LastIr(was, run[..|run| - 1])
  }

  /** dcsr.stopcount as the last write left it. */
  function LastStop(was: bool, run: seq<Event>): (b: bool) {
    if run == [] then was else
    match run[|run| - 1]
    case Instruction(WriteStopcount(b)) => b
    case Artifact(WriteStopcount(b)) => b
    case _ => LastStop(was, run[..|run| - 1])
  }

  /** Whether the hart is in Debug mode after a run. */
  function LastDebug(was: bool, run: seq<Event>): (b: bool) {
    if run == [] then was else
    match run[|run| - 1]
    case Ebreak => true
    case TriggerBefore => true
    case Halt => true
    case Dret => false
    case ArtifactDebug(b) => b
    case _ => LastDebug(was, run[..|run| - 1])
  }

  /** The flags of a run are what its last writes and mode changes made them. */
  lemma {:induction false} FlagsAreLast(u: Unit, run: seq<Event>)
    ensures var f, r := u.flags, Run(u, run).flags;
            r.cy == LastCy(f.cy, run) && r.ir == LastIr(f.ir, run) && r.stopcount == LastStop(f.stopcount, run) &&
            r.debug == LastDebug(f.debug, run) && r.single == f.single
  {
    if run != [] {
      FlagsAreLast(u, run[..|run| - 1]);
      FlagStep(Run(u, run[..|run| - 1]), run[|run| - 1]);
      LastStep(u.flags, run[..|run| - 1], run[|run| - 1]);
      assert run == run[..|run| - 1] + [run[|run| - 1]];
    }
  }

  lemma FlagStep(u: Unit, e: Event)
    ensures Step(u, e).flags == FlagsAfter(u.flags, e)
  {
    StepRefines(u, e);
  }

  lemma LastStep(f: Flags, p: seq<Event>, e: Event)
    ensures var g := Flags(LastCy(f.cy, p), LastIr(f.ir, p), LastDebug(f.debug, p), LastStop(f.stopcount, p), f.single);
            var run := p + [e];
            FlagsAfter(g, e) ==
            Flags(LastCy(f.cy, run), LastIr(f.ir, run), LastDebug(f.debug, run), LastStop(f.stopcount, run), f.single)
  {
    var run := p + [e];
    assert run[|run| - 1] == e && run[..|run| - 1] == p;
  }

  predicate WritesCycle(e: Event) { (e.Instruction? || e.Artifact?) && e.op.WriteCycle? }
  predicate WritesInstret(e: Event) { (e.Instruction? || e.Artifact?) && e.op.WriteInstret? }

  /** Cycles of an event: one for each executed instruction, and the idle ones. */
  function CyclesOf(e: Event): (n: nat) {
    match e
    case Instruction(_) => 1
    case Trap => 1
    case Dret => 1
    case Ebreak => 1
    case TriggerBefore => 1
    case Idle(n) => n
    case _ => 0
  }

  /** Retired instructions of an event, in or outside Debug mode. */
  function RetiredBy(e: Event, debug: bool): (n: nat) {
    match e
    case Instruction(_) => 1
    case Dret => if debug then 1 else 0
    case _ => 0
  }

  /** n more, in 64 bits. */
  function Plus(v: U64, n: nat): (r: U64) { (v + n) % TWO64 }

  /** The counters after a run. */
  function CycleAfter(u: Unit, run: seq<Event>): (v: U64) { Run(u, run).Cycle(true) }
  function InstretAfter(u: Unit, run: seq<Event>): (v: U64) { Run(u, run).Instret(true) }

  lemma RunSnoc(u: Unit, run: seq<Event>, e: Event)
    ensures Run(u, run + [e]) == Step(Run(u, run), e)
  {
    assert (run + [e])[..|run|] == run;
  }

  lemma FrozenStep(u: Unit, e: Event)
    ensures u.flags.cy && !WritesCycle(e) ==> Step(u, e).Cycle(true) == u.Cycle(true)
    ensures u.flags.ir && !WritesInstret(e) ==> Step(u, e).Instret(true) == u.Instret(true)
  {
    StepExact(u, e);
  }

  /** While the last mcountinhibit write set CY, only a write of mcycle moves mcycle; likewise IR and minstret. */
  lemma InhibitedStaysPut(u: Unit, run: seq<Event>, e: Event)
    ensures LastCy(u.flags.cy, run) && !WritesCycle(e) ==> CycleAfter(u, run + [e]) == CycleAfter(u, run)
    ensures LastIr(u.flags.ir, run) && !WritesInstret(e) ==> InstretAfter(u, run + [e]) == InstretAfter(u, run)
  {
    FlagsAreLast(u, run);
    FrozenStep(Run(u, run), e);
    RunSnoc(u, run, e);
  }

  lemma StoppedStep(u: Unit, e: Event)
    requires u.flags.debug && u.flags.stopcount && !e.Dret? && !e.ArtifactDebug?
    ensures u.flags.single && !WritesCycle(e) ==> Step(u, e).Cycle(true) == u.Cycle(true)
    ensures !WritesInstret(e) ==> Step(u, e).Instret(true) == u.Instret(true)
  {
    StepExact(u, e);
  }

  /** In Debug mode with stopcount set nothing is counted, but cycles of a hart that does not stand alone are. */
  lemma StopcountStops(u: Unit, run: seq<Event>, e: Event)
    requires LastDebug(u.flags.debug, run) && LastStop(u.flags.stopcount, run) && !e.Dret? && !e.ArtifactDebug?
    ensures u.flags.single && !WritesCycle(e) ==> CycleAfter(u, run + [e]) == CycleAfter(u, run)
    ensures !WritesInstret(e) ==> InstretAfter(u, run + [e]) == InstretAfter(u, run)
  {
    FlagsAreLast(u, run);
    StoppedStep(Run(u, run), e);
    RunSnoc(u, run, e);
  }

  lemma MovingCycle(u: Unit, e: Event)
    requires !u.flags.cy && !WritesCycle(e) && (u.flags.stopcount ==> !e.Ebreak?)
    requires !(u.flags.stopcount && u.flags.single) || (!u.flags.debug && !Enters(e))
    ensures Step(u, e).Cycle(true) == Plus(u.Cycle(true), CyclesOf(e))
  {
    StepExact(u, e);
  }

  lemma MovingInstret(u: Unit, e: Event)
    requires !u.flags.ir && !WritesInstret(e)
    requires !u.flags.stopcount || (!u.flags.debug && !Enters(e))
    ensures Step(u, e).Instret(true) == Plus(u.Instret(true), RetiredBy(e, u.flags.debug))
  {
    StepExact(u, e);
  }

  /**
   * While CY is clear, and the hart is outside Debug mode or stopcount does not stop its cycles there, mcycle advances
   * by exactly one for each executed instruction, and by the idle cycles.
   */
  lemma CycleAdvances(u: Unit, run: seq<Event>, e: Event)
    requires !LastCy(u.flags.cy, run) && !WritesCycle(e) && (LastStop(u.flags.stopcount, run) ==> !e.Ebreak?)
    requires !(LastStop(u.flags.stopcount, run) && u.flags.single) || (!LastDebug(u.flags.debug, run) && !Enters(e))
    ensures CycleAfter(u, run + [e]) == Plus(CycleAfter(u, run), CyclesOf(e))
  {
    FlagsAreLast(u, run);
    MovingCycle(Run(u, run), e);
    RunSnoc(u, run, e);
  }

  /**
   * While IR is clear, and the hart is outside Debug mode or stopcount is clear, minstret advances by exactly the
   * retired instructions.
   */
  lemma InstretAdvances(u: Unit, run: seq<Event>, e: Event)
    requires !LastIr(u.flags.ir, run) && !WritesInstret(e)
    requires !LastStop(u.flags.stopcount, run) || (!LastDebug(u.flags.debug, run) && !Enters(e))
    ensures InstretAfter(u, run + [e]) == Plus(InstretAfter(u, run), RetiredBy(e, LastDebug(u.flags.debug, run)))
  {
    FlagsAreLast(u, run);
    MovingInstret(Run(u, run), e);
    RunSnoc(u, run, e);
  }

  /** Cycles of a stretch of events. */
  function CyclesIn(run: seq<Event>): (n: nat) {
    if run == [] then 0 else CyclesIn(run[..|run| - 1]) + CyclesOf(run[|run| - 1])
  }

  function RetiredIn(run: seq<Event>): (n: nat) {
    if run == [] then 0 else RetiredIn(run[..|run| - 1]) + RetiredBy(run[|run| - 1], false)
  }

  /** A stretch outside Debug mode that writes neither counters nor mcountinhibit. */
  predicate Undisturbed(run: seq<Event>) {
    forall i :: 0 <= i < |run| ==>
      !Enters(run[i]) && run[i] != ArtifactDebug(true) && !WritesCycle(run[i]) && !WritesInstret(run[i]) &&
      ((run[i].Instruction? || run[i].Artifact?) ==> !run[i].op.WriteInhibit?)
  }

  lemma {:induction false} UndisturbedFlags(f: Flags, p: seq<Event>, q: seq<Event>)
    requires Undisturbed(q) && !LastDebug(f.debug, p)
    ensures LastCy(f.cy, p + q) == LastCy(f.cy, p) && LastIr(f.ir, p + q) == LastIr(f.ir, p)
    ensures !LastDebug(f.debug, p + q)
  {
    if q == [] {
      assert p + q == p;
    } else {
      var k := |q| - 1;
      UndisturbedFlags(f, p, q[..k]);
      assert (p + q)[..|p + q| - 1] == p + q[..k] && (p + q)[|p + q| - 1] == q[k];
    }
  }

  lemma CyclesNext(q: seq<Event>)
    requires q != []
    ensures CyclesIn(q) == CyclesIn(q[..|q| - 1]) + CyclesOf(q[|q| - 1])
    ensures RetiredIn(q) == RetiredIn(q[..|q| - 1]) + RetiredBy(q[|q| - 1], false)
  {
  }

  lemma OutsideCycles(u: Unit, r: seq<Event>, e: Event)
    requires !LastDebug(u.flags.debug, r) && Undisturbed([e]) && !LastCy(u.flags.cy, r)
    ensures CycleAfter(u, r + [e]) == Plus(CycleAfter(u, r), CyclesOf(e))
  {
    assert [e][0] == e;
    CycleAdvances(u, r, e);
  }

  lemma OutsideInstructions(u: Unit, r: seq<Event>, e: Event)
    requires !LastDebug(u.flags.debug, r) && Undisturbed([e]) && !LastIr(u.flags.ir, r)
    ensures InstretAfter(u, r + [e]) == Plus(InstretAfter(u, r), RetiredBy(e, false))
  {
    assert [e][0] == e;
    InstretAdvances(u, r, e);
  }

  lemma PlusPlus(x: U64, n: nat, m: nat)
    ensures Plus(Plus(x, n), m) == Plus(x, n + m)
  {
  }

  /** After any run, outside Debug mode and with CY clear, a stretch counts exactly its cycles. */
  lemma {:induction false} StretchCycles(u: Unit, p: seq<Event>, q: seq<Event>)
    requires Undisturbed(q) && !LastDebug(u.flags.debug, p) && !LastCy(u.flags.cy, p)
    ensures CycleAfter(u, p + q) == Plus(CycleAfter(u, p), CyclesIn(q))
  {
    if q == [] {
      assert p + q == p;
    } else {
      var h, e := q[..|q| - 1], q[|q| - 1];
      StretchCycles(u, p, h);
      UndisturbedFlags(u.flags, p, h);
      OutsideCycles(u, p + h, e);
      assert p + q == p + h + [e];
      CyclesNext(q);
      PlusPlus(CycleAfter(u, p), CyclesIn(h), CyclesOf(e));
    }
  }

  /** After any run, outside Debug mode and with IR clear, a stretch counts exactly its retired instructions. */
  lemma {:induction false} StretchInstructions(u: Unit, p: seq<Event>, q: seq<Event>)
    requires Undisturbed(q) && !LastDebug(u.flags.debug, p) && !LastIr(u.flags.ir, p)
    ensures InstretAfter(u, p + q) == Plus(InstretAfter(u, p), RetiredIn(q))
  {
    if q == [] {
      assert p + q == p;
    } else {
      var h, e := q[..|q| - 1], q[|q| - 1];
      StretchInstructions(u, p, h);
      UndisturbedFlags(u.flags, p, h);
      OutsideInstructions(u, p + h, e);
      assert p + q == p + h + [e];
      CyclesNext(q);
      PlusPlus(InstretAfter(u, p), RetiredIn(h), RetiredBy(e, false));
    }
  }

  // ----- a whole visit to Debug mode -----

  /** Events that write no counter and no flag, and do not leave Debug mode. */
  predicate Quiet(e: Event) {
    match e
    case Instruction(op) => op.Plain?
    case Artifact(op) => op.Plain?
    case ArtifactDebug(_) => false
    case Dret => false
    case _ => true
  }

  predicate AllQuiet(run: seq<Event>) { forall i :: 0 <= i < |run| ==> Quiet(run[i]) }

  lemma QuietStep(s: Naive, e: Event)
    requires s.flags.debug && Quiet(e)
    ensures var n := NaiveStep(s, e);
            DriftStep(s, e) == n && n.flags == s.flags &&
            (s.flags.InhibitCycle() ==> n.cycle == s.cycle) && (s.flags.InhibitInstret() ==> n.instret == s.instret)
  {
  }

  /** In Debug mode, quiet runs move a counter only where it is not inhibited. */
  lemma {:induction false} QuietRun(s: Naive, run: seq<Event>)
    requires s.flags.debug && AllQuiet(run)
    ensures DriftRun(s, run) == NaiveRun(s, run) && NaiveRun(s, run).flags == s.flags
    ensures s.flags.InhibitCycle() ==> NaiveRun(s, run).cycle == s.cycle
    ensures s.flags.InhibitInstret() ==> NaiveRun(s, run).instret == s.instret
  {
    if run != [] {
      QuietRun(s, run[..|run| - 1]);
      QuietStep(NaiveRun(s, run[..|run| - 1]), run[|run| - 1]);
    }
  }

  lemma QuietStepSplits(s: Naive, t: Naive, e: Event)
    requires s.flags == t.flags && s.flags.debug && Quiet(e)
    ensures s.cycle == t.cycle ==> NaiveStep(s, e).cycle == NaiveStep(t, e).cycle
    ensures s.instret == t.instret ==> NaiveStep(s, e).instret == NaiveStep(t, e).instret
  {
  }

  /** The counters of a quiet run do not depend on each other. */
  lemma {:induction false} QuietRunSplits(s: Naive, t: Naive, run: seq<Event>)
    requires s.flags == t.flags && s.flags.debug && AllQuiet(run)
    ensures s.cycle == t.cycle ==> NaiveRun(s, run).cycle == NaiveRun(t, run).cycle
    ensures s.instret == t.instret ==> NaiveRun(s, run).instret == NaiveRun(t, run).instret
  {
    if run != [] {
      var p := run[..|run| - 1];
      QuietRunSplits(s, t, p);
      QuietRun(s, p);
      QuietRun(t, p);
      QuietStepSplits(NaiveRun(s, p), NaiveRun(t, p), run[|run| - 1]);
    }
  }

  function Visit(enter: Event, run: seq<Event>): (r: seq<Event>) { [enter] + run + [Dret] }

  /** A whole visit: the count lost on entry is the count gained by dret. */
  lemma VisitBalances(u: Unit, enter: Event, run: seq<Event>)
    requires Enters(enter) && !u.flags.debug && AllQuiet(run)
    ensures Meaning(Run(u, Visit(enter, run))) == NaiveRun(Meaning(u), Visit(enter, run))
  {
    var s := Meaning(u);
    RunExact(u, Visit(enter, run));
    VisitUnfolds(s, enter, run);
    VisitBegins(s, enter, run);
    VisitEnds(DriftRun(DriftStep(s, enter), run), NaiveRun(NaiveStep(s, enter), run));
  }

  lemma DretCounters(a: Naive)
    requires a.flags.debug
    ensures var cy, ir := a.flags.InhibitCycle(), a.flags.InhibitInstret();
            NaiveStep(a, Dret) == Naive(a.flags.(debug := false), Tick(a.cycle, cy), Tick(a.instret, ir))
    ensures CycleDrifts(a.flags, Dret) ==> a.flags.InhibitCycle()
    ensures InstretDrifts(a.flags, Dret) ==> a.flags.InhibitInstret()
  {
  }

  /** v, after entry and a quiet run, is the naive value n, but for the drift of the entry. */
  predicate EntryDrift(v: U64, n: U64, drifts: bool) { v == if drifts then Sub(n, 1) else n }

  lemma VisitEnds(a: Naive, n: Naive)
    requires a.flags == n.flags && a.flags.debug
    requires EntryDrift(a.cycle, n.cycle, CycleDrifts(a.flags, Dret))
    requires EntryDrift(a.instret, n.instret, InstretDrifts(a.flags, Dret))
    ensures DriftStep(a, Dret) == NaiveStep(n, Dret)
  {
    DretCounters(a);
    DretCounters(n);
  }

  /** The counters that entry stops are those that dret starts, and they stand still in between. */
  lemma EntryCounters(s: Naive, enter: Event)
    requires Enters(enter) && !s.flags.debug
    ensures var a, n := DriftStep(s, enter), NaiveStep(s, enter);
            a.flags == n.flags && a.flags.debug &&
            CycleDrifts(a.flags, Dret) == CycleDrifts(s.flags, enter) &&
            InstretDrifts(a.flags, Dret) == InstretDrifts(s.flags, enter) &&
            (CycleDrifts(a.flags, Dret) ==> a.flags.InhibitCycle()) &&
            (InstretDrifts(a.flags, Dret) ==> a.flags.InhibitInstret())
  {
    NaiveFlags(s, enter);
  }

  lemma VisitBegins(s: Naive, enter: Event, run: seq<Event>)
    requires Enters(enter) && !s.flags.debug && AllQuiet(run)
    ensures var a, n := DriftRun(DriftStep(s, enter), run), NaiveRun(NaiveStep(s, enter), run);
            a.flags == n.flags && a.flags.debug &&
            EntryDrift(a.cycle, n.cycle, CycleDrifts(a.flags, Dret)) &&
            EntryDrift(a.instret, n.instret, InstretDrifts(a.flags, Dret))
  {
    var a, n := DriftStep(s, enter), NaiveStep(s, enter);
    EntryCounters(s, enter);
    QuietRun(a, run);
    QuietRun(n, run);
    QuietRunSplits(a, n, run);
  }

  lemma {:induction false} RunFrom(s: Naive, e: Event, run: seq<Event>)
    ensures DriftRun(s, [e] + run) == DriftRun(DriftStep(s, e), run)
    ensures NaiveRun(s, [e] + run) == NaiveRun(NaiveStep(s, e), run)
  {
    if run == [] {
      assert [e] + run == [e] && [e][..0] == [];
    } else {
      var k := |run| - 1;
      assert ([e] + run)[..k + 1] == [e] + run[..k];
      RunFrom(s, e, run[..k]);
    }
  }

  lemma VisitUnfolds(s: Naive, enter: Event, run: seq<Event>)
    ensures DriftRun(s, Visit(enter, run)) == DriftStep(DriftRun(DriftStep(s, enter), run), Dret)
    ensures NaiveRun(s, Visit(enter, run)) == NaiveStep(NaiveRun(NaiveStep(s, enter), run), Dret)
  {
    var v := Visit(enter, run);
    assert v[..|v| - 1] == [enter] + run && v[|v| - 1] == Dret;
    RunFrom(s, enter, run);
  }

  /** A single hart with stopcount set that has counted ten: an ebreak leaves nine, and so does a halt. */
  lemma EntryLosesOne(enter: Event)
    requires enter == Ebreak || enter == Halt
    ensures var u := Unit(Flags(false, false, false, true, true), 0, 0, 10, 10);
            var m := Meaning(Step(u, enter));
            Meaning(u).cycle == 10 && NaiveStep(Meaning(u), enter).cycle == 10 && m.cycle == 9 && m.instret == 9
  {
  }

  // ----- the counters as the simulator updates them -----

  class CounterUnit {
    var flags: Flags
    var baseCycles: U64
    var baseInstructions: U64
    var icount: U64
    var ecount: U64

    ghost function View(): Unit
      reads this
    {
      Unit(flags, baseCycles, baseInstructions, icount, ecount)
    }

    method CycleR(artifact: bool) returns (result: U64)
      ensures result == View().Cycle(artifact)
    {
      result := baseCycles;
      if !flags.InhibitCycle() {
        result := Sub(CountFor(icount, artifact), result);
      }
    }

    method CycleW(v: U64, artifact: bool, preIncrement: bool)
      modifies this`baseCycles
      ensures baseCycles == WriteCounter(v, flags.InhibitCycle(), icount, artifact, preIncrement)
    {
      var b := v;
      if !flags.InhibitCycle() { b := Sub(CountFor(icount, artifact), b); }
      if preIncrement && !artifact { b := Inc(b); }
      baseCycles := b;
    }

    method McycleW(part: Part, v: U64, artifact: bool)
      modifies this`baseCycles
      ensures View() == Apply(old(View()), WriteCycle(part, v), artifact)
    {
      var preIncrement := !flags.InhibitCycle();
      var current := CycleR(artifact);
      CycleW(Merge(part, v, current), artifact, preIncrement);
    }

    method InstretR(artifact: bool) returns (result: U64)
      ensures result == View().Instret(artifact)
    {
      result := baseInstructions;
      if !flags.InhibitInstret() {
        result := Sub(CountFor(ecount, artifact), result);
      }
    }

    method InstretW(v: U64, artifact: bool, preIncrement: bool)
      modifies this`baseInstructions
      ensures baseInstructions == WriteCounter(v, flags.InhibitInstret(), ecount, artifact, preIncrement)
    {
      var b := v;
      if !flags.InhibitInstret() { b := Sub(CountFor(ecount, artifact), b); }
      if preIncrement && !artifact { b := Inc(b); }
      baseInstructions := b;
    }

    method MinstretW(part: Part, v: U64, artifact: bool)
      modifies this`baseInstructions
      ensures View() == Apply(old(View()), WriteInstret(part, v), artifact)
    {
      var preIncrement := !flags.InhibitInstret();
      var current := InstretR(artifact);
      InstretW(Merge(part, v, current), artifact, preIncrement);
    }

    method DoNoRetire(isFetch: bool)
      modifies this`baseInstructions
      ensures View() == NoRetire(old(View()), isFetch)
    {
      if !isFetch && !flags.InhibitInstret() {
        baseInstructions := Inc(baseInstructions);
      }
    }

    /** Both counters sampled, the flags changed, and the counters whose inhibition changed re-encoded. */
    method ChangeFlags(f: Flags, artifact: bool, preIncrement: bool)
      modifies this`flags, this`baseCycles, this`baseInstructions
      ensures View() == Reflag(old(View()), f, artifact, preIncrement)
    {
      var wasCycle, wasInstret := flags.InhibitCycle(), flags.InhibitInstret();
      var cycle := CycleR(artifact);
      var instret := InstretR(artifact);
      flags := f;
      if wasCycle != flags.InhibitCycle() {
        if preIncrement && wasCycle && !artifact { cycle := Sub(cycle, 1); }
        CycleW(cycle, artifact, preIncrement && !wasCycle);
      }
      if wasInstret != flags.InhibitInstret() {
        if preIncrement && wasInstret && !artifact { instret := Sub(instret, 1); }
        InstretW(instret, artifact, preIncrement && !wasInstret);
      }
    }

    /** mcountinhibit and dcsr writes. */
    method ChangeInhibit(op: Op, artifact: bool)
      requires op.WriteInhibit? || op.WriteStopcount?
      modifies this`flags, this`baseCycles, this`baseInstructions
      ensures View() == Apply(old(View()), op, artifact)
    {
      ChangeFlags(NewFlags(flags, op), artifact, true);
    }

    method ChangeDebug(b: bool, artifact: bool)
      modifies this`flags, this`baseCycles, this`baseInstructions
      ensures View() == SetDebug(old(View()), b, artifact)
    {
      if flags.debug != b { ChangeFlags(flags.(debug := b), artifact, false); }
    }

    /** ebreak as a Debug module action; the counts include the instruction. */
    method DoEbreak()
      modifies this`flags, this`baseCycles, this`baseInstructions
      ensures View() == SetDebug(NoCycle(NoRetire(old(View()), false)), true, false)
    {
      DoNoRetire(false);
      if flags.stopcount {
        if !flags.InhibitCycle() { baseCycles := Inc(baseCycles); }
      }
      ChangeDebug(true, false);
    }

    /** Debug mode entry by a trigger before an instruction, or on fetch. */
    method DoTriggerBefore(isFetch: bool)
      modifies this`flags, this`baseCycles, this`baseInstructions
      ensures View() == SetDebug(NoRetire(old(View()), isFetch), true, false)
    {
      DoNoRetire(isFetch);
      ChangeDebug(true, false);
    }
  }
}
