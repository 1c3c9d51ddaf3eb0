/** The cached mask ipe against its definition: pending and enabled. */
module ClicCoherence {
  import opened Clic

  /** Anything that can change interrupt state: a register byte write, an input change, an acknowledge. */
  datatype Event =
    | Sw(d: Desc, v: Byte)
    | Input(hart: nat, index: nat, b: bool)
    | Ack(hart: nat, index: nat)

  predicate LegalEvent(c: Cluster, e: Event) {
    match e
    case Sw(d, v) => ValidDesc(c, d)
    case Input(k, i, b) => k < |c.harts| && i < c.g.cfg.intNum
    case Ack(k, i) => k < |c.harts| && i < c.g.cfg.intNum
  }

  function Step(c: Cluster, e: Event): (r: Cluster)
    requires c.Valid() && LegalEvent(c, e)
    ensures r.Valid() && |r.harts| == |c.harts| && r.g.cfg == c.g.cfg
  {
    match e
    case Sw(d, v) => WriteByte(c, d, v)
    case Input(k, i, b) => c.(harts := c.harts[k := UpdateInput(c.harts[k], i, b)])
    case Ack(k, i) => c.(harts := c.harts[k := Acknowledge(c.harts[k], i)])
  }

  predicate LegalRun(c: Cluster, run: seq<Event>) {
    forall j :: 0 <= j < |run| ==> LegalEvent(c, run[j])
  }

  /** Legality of an event depends only on the sizes, which no step changes. */
  lemma LegalAfterStep(c: Cluster, run: seq<Event>)
    requires c.Valid() && LegalRun(c, run) && run != []
    ensures LegalRun(Step(c, run[0]), run[1..])
  {
    forall j | 0 <= j < |run[1..]| ensures LegalEvent(Step(c, run[0]), run[1..][j]) {
      assert LegalEvent(c, run[j + 1]);
    }
  }

  function Run(c: Cluster, run: seq<Event>): (r: Cluster)
    requires c.Valid() && LegalRun(c, run)
    ensures r.Valid() && |r.harts| == |c.harts| && r.g.cfg == c.g.cfg
    decreases |run|
  {
    if run == [] then c else LegalAfterStep(c, run); Run(Step(c, run[0]), run[1..])
  }

  /** The cache bit of interrupt i of hart k agrees with its definition. */
  predicate Coherent(c: Cluster, k: nat, i: nat)
    requires c.Valid() && k < |c.harts| && i < c.g.cfg.intNum
  {
    c.harts[k].ipe[i] == (Pending(c.harts[k], i) && c.harts[k].ints[i].ie)
  }

  /** The guard under which event e leaves a coherent cache bit (k, i) coherent. */
  predicate Keeps(c: Cluster, e: Event, k: nat, i: nat)
    requires c.Valid() && LegalEvent(c, e) && k < |c.harts| && i < c.g.cfg.intNum
  {
    var h := c.harts[k];
    var s := h.ints[i];
    match e
    case Sw(d, v) =>
      (d.field != ClicConfig && d.hart == k && d.index == i && Accessible(c.g, h, i, d.mode) && s.ie) ==>
        (match d.field
         case ClicIntIp => Edge(h, i) || (if c.g.cfg.mayPendLevel then v % 2 == 1 || !h.ext[i]
                                          else (v % 2 == 1) == (s.ip || h.ext[i]))
         case ClicIntAttr => s.ip || !h.ext[i] || LegalAttr(c.g.cfg, h, i, v, d.mode).Edge() == Edge(h, i)
         case _ => true)
    case Input(k', i', b) =>
      (k' == k && i' == i && s.ie && !Edge(h, i)) ==> (b != s.attr.ActiveLow()) == (s.ip || b)
    case Ack(_, _) => true
  }

  lemma FieldWriteCoherence(c: Cluster, d: Desc, v: Byte, k: nat, i: nat)
    requires c.Valid() && ValidDesc(c, d) && k < |c.harts| && i < c.g.cfg.intNum && d.field != ClicConfig
    requires Coherent(c, k, i)
    ensures Coherent(Step(c, Sw(d, v)), k, i) <==> Keeps(c, Sw(d, v), k, i)
  {
    if d.hart == k && Accessible(c.g, c.harts[k], d.index, d.mode) {
      match d.field
      case ClicIntIp =>
      case ClicIntIe =>
      case ClicIntAttr =>
      case ClicIntCtl =>
    }
  }

  /** Step by step, coherence survives exactly when the guard holds. */
  lemma StepCoherence(c: Cluster, e: Event, k: nat, i: nat)
    requires c.Valid() && LegalEvent(c, e) && k < |c.harts| && i < c.g.cfg.intNum
    requires Coherent(c, k, i)
    ensures Coherent(Step(c, e), k, i) <==> Keeps(c, e, k, i)
  {
    match e
    case Sw(d, v) => if d.field != ClicConfig { FieldWriteCoherence(c, d, v, k, i); }
    case Input(_, _, _) => InputCoherence(c, e, k, i);
    case Ack(_, _) => AckCoherence(c, e, k, i);
  }

  lemma InputCoherence(c: Cluster, e: Event, k: nat, i: nat)
    requires c.Valid() && LegalEvent(c, e) && k < |c.harts| && i < c.g.cfg.intNum && e.Input?
    requires Coherent(c, k, i)
    ensures Coherent(Step(c, e), k, i) <==> Keeps(c, e, k, i)
  {
  }

  lemma AckCoherence(c: Cluster, e: Event, k: nat, i: nat)
    requires c.Valid() && LegalEvent(c, e) && k < |c.harts| && i < c.g.cfg.intNum && e.Ack?
    requires Coherent(c, k, i)
    ensures Coherent(Step(c, e), k, i)
  {
  }

  ghost predicate AlwaysCoherent(c: Cluster, run: seq<Event>, k: nat, i: nat)
    requires c.Valid() && LegalRun(c, run) && k < |c.harts| && i < c.g.cfg.intNum
    decreases |run|
  {
    Coherent(c, k, i) &&
    (if run == [] then true else LegalAfterStep(c, run); AlwaysCoherent(Step(c, run[0]), run[1..], k, i))
  }

  ghost predicate AlwaysKeeps(c: Cluster, run: seq<Event>, k: nat, i: nat)
    requires c.Valid() && LegalRun(c, run) && k < |c.harts| && i < c.g.cfg.intNum
    decreases |run|
  {
    if run == [] then true
    else LegalAfterStep(c, run); Keeps(c, run[0], k, i) && AlwaysKeeps(Step(c, run[0]), run[1..], k, i)
  }

  /** Over every run from a coherent state, the cache is right throughout exactly when every step meets its guard. */
  lemma {:induction false} RunCoherence(c: Cluster, run: seq<Event>, k: nat, i: nat)
    requires c.Valid() && LegalRun(c, run) && k < |c.harts| && i < c.g.cfg.intNum
    requires Coherent(c, k, i)
    ensures AlwaysCoherent(c, run, k, i) <==> AlwaysKeeps(c, run, k, i)
    ensures AlwaysKeeps(c, run, k, i) ==> Coherent(Run(c, run), k, i)
    decreases |run|
  {
    if run != [] {
      LegalAfterStep(c, run);
      StepCoherence(c, run[0], k, i);
      if Coherent(Step(c, run[0]), k, i) {
        RunCoherence(Step(c, run[0]), run[1..], k, i);
      } else {
        assert !AlwaysCoherent(Step(c, run[0]), run[1..], k, i);
      }
    }
  }

  // ----- fixed-trigger interrupts -----

  /** Initial state of a hart: everything M-mode, disabled, at the highest level; fixed triggers recorded. */
  function InitHart(cfg: Config, posedge: set<nat>, poslevel: set<nat>, absent: set<nat>, userInt: bool): (r: Hart)
    requires cfg.Valid()
    ensures r.Valid(cfg.intNum)
  {
    Hart(
      seq(cfg.intNum, i => IntState(false, false, Attr(false, if i in posedge then 1 else 0, MODE_M),
                                    FillLow(0, 8 - cfg.ctlBits))),
      seq(cfg.intNum, i => false),
      seq(cfg.intNum, i => false),
      seq(cfg.intNum, i => i in posedge || i in poslevel),
      absent, userInt)
  }

  ghost predicate Initial(c: Cluster, posedge: set<nat>, poslevel: set<nat>) {
    c.Valid() && forall k :: 0 <= k < |c.harts| ==>
      c.harts[k] == InitHart(c.g.cfg, posedge, poslevel, c.harts[k].absent, c.harts[k].userInt)
  }

  /** What a run keeps of an interrupt with fixed trigger trig. */
  ghost predicate FixedAs(c: Cluster, k: nat, i: nat, trig: Two)
    requires c.Valid() && k < |c.harts| && i < c.g.cfg.intNum
  {
    c.harts[k].trigFixed[i] && c.harts[k].ints[i].attr.trig == trig
  }

  /** A software write of clicintip of interrupt (k, i). */
  predicate PendsBySoftware(e: Event, k: nat, i: nat) {
    e.Sw? && e.d.field == ClicIntIp && e.d.hart == k && e.d.index == i
  }

  lemma FixedKeeps(c: Cluster, e: Event, k: nat, i: nat, trig: Two)
    requires c.Valid() && LegalEvent(c, e) && k < |c.harts| && i < c.g.cfg.intNum && FixedAs(c, k, i, trig)
    requires trig == 1 || (trig == 0 && !c.harts[k].ints[i].ip && !PendsBySoftware(e, k, i))
    ensures Keeps(c, e, k, i)
  {
  }

  lemma FixedStays(c: Cluster, e: Event, k: nat, i: nat, trig: Two)
    requires c.Valid() && LegalEvent(c, e) && k < |c.harts| && i < c.g.cfg.intNum && FixedAs(c, k, i, trig)
    ensures FixedAs(Step(c, e), k, i, trig)
    ensures trig == 0 && !c.harts[k].ints[i].ip && !PendsBySoftware(e, k, i) ==> !Step(c, e).harts[k].ints[i].ip
  {
  }

  /** Fixed positive-edge interrupts: ipe is the latch and the enable, after every run. */
  lemma {:induction false} FixedEdgeCoherent(c: Cluster, run: seq<Event>, k: nat, i: nat)
    requires c.Valid() && LegalRun(c, run) && k < |c.harts| && i < c.g.cfg.intNum
    requires FixedAs(c, k, i, 1) && Coherent(c, k, i)
    ensures var h := Run(c, run).harts[k]; h.ipe[i] == (h.ints[i].ip && h.ints[i].ie)
    ensures AlwaysCoherent(c, run, k, i)
    decreases |run|
  {
    if run != [] {
      LegalAfterStep(c, run);
      FixedKeeps(c, run[0], k, i, 1);
      FixedStays(c, run[0], k, i, 1);
      StepCoherence(c, run[0], k, i);
      FixedEdgeCoherent(Step(c, run[0]), run[1..], k, i);
    }
  }

  /** Fixed positive-level interrupts: ipe is the input and the enable, as long as software leaves clicintip alone. */
  lemma {:induction false} FixedLevelCoherent(c: Cluster, run: seq<Event>, k: nat, i: nat)
    requires c.Valid() && LegalRun(c, run) && k < |c.harts| && i < c.g.cfg.intNum
    requires FixedAs(c, k, i, 0) && Coherent(c, k, i) && !c.harts[k].ints[i].ip
    requires forall j :: 0 <= j < |run| ==> !PendsBySoftware(run[j], k, i)
    ensures var h := Run(c, run).harts[k]; h.ipe[i] == (h.ext[i] && h.ints[i].ie) && !h.ints[i].ip
    ensures AlwaysCoherent(c, run, k, i)
    decreases |run|
  {
    if run != [] {
      LegalAfterStep(c, run);
      FixedKeeps(c, run[0], k, i, 0);
      FixedStays(c, run[0], k, i, 0);
      StepCoherence(c, run[0], k, i);
      FixedLevelCoherent(Step(c, run[0]), run[1..], k, i);
    }
  }

  /** Both facts from initialisation on. */
  lemma InitialRunCoherent(c: Cluster, posedge: set<nat>, poslevel: set<nat>, run: seq<Event>, k: nat, i: nat)
    requires Initial(c, posedge, poslevel) && LegalRun(c, run) && k < |c.harts| && i < c.g.cfg.intNum
    ensures var h := Run(c, run).harts[k];
            && (i in posedge ==> h.ipe[i] == (h.ints[i].ip && h.ints[i].ie))
            && (i in poslevel && i !in posedge && (forall j :: 0 <= j < |run| ==> !PendsBySoftware(run[j], k, i)) ==>
                  h.ipe[i] == (h.ext[i] && h.ints[i].ie))
  {
    if i in posedge {
      FixedEdgeCoherent(c, run, k, i);
    } else if i in poslevel && forall j :: 0 <= j < |run| ==> !PendsBySoftware(run[j], k, i) {
      FixedLevelCoherent(c, run, k, i);
    }
  }

  // ----- what events do to the latch -----

  /** An input change is seen by the interrupt it belongs to; an edge triggered one latches an assertion. */
  lemma InputEffect(c: Cluster, k: nat, i: nat, b: bool, j: nat)
    requires c.Valid() && k < |c.harts| && i < c.g.cfg.intNum && j < c.g.cfg.intNum
    ensures var h, r := c.harts[k], Step(c, Input(k, i, b)).harts[k];
            var t := h.ints[i].attr.trig;
            r.ext[j] == (if j == i then b else h.ext[j]) &&
            r.ints[j] == if j == i && t % 2 == 1 && b != (t / 2 == 1) then h.ints[j].(ip := true) else h.ints[j]
  {
  }

  /** An acknowledge clears the latch of an edge triggered interrupt, and nothing else. */
  lemma AckEffect(c: Cluster, k: nat, i: nat, j: nat)
    requires c.Valid() && k < |c.harts| && i < c.g.cfg.intNum && j < c.g.cfg.intNum
    ensures var h, r := c.harts[k], Step(c, Ack(k, i)).harts[k];
            var cleared := j == i && h.ints[i].attr.trig % 2 == 1;
            r.ext == h.ext && r.ints[j] == (if cleared then h.ints[j].(ip := false) else h.ints[j]) &&
            r.ipe[j] == (h.ipe[j] && !cleared)
  {
  }

  /** The latch of a positive edge interrupt: set by an assertion, cleared by an acknowledge. */
  function Latched(was: bool, run: seq<Event>, k: nat, i: nat): (b: bool)
    decreases |run|
  {
    if run == [] then was else
    var now := if run[0] == Input(k, i, true) then true else if run[0] == Ack(k, i) then false else was;
    Latched(now, run[1..], k, i)
  }

  lemma FixedEdgeStep(c: Cluster, e: Event, k: nat, i: nat)
    requires c.Valid() && LegalEvent(c, e) && k < |c.harts| && i < c.g.cfg.intNum
    requires FixedAs(c, k, i, 1) && !PendsBySoftware(e, k, i)
    ensures var r := Step(c, e);
            FixedAs(r, k, i, 1) &&
            r.harts[k].ints[i].ip == Latched(c.harts[k].ints[i].ip, [e], k, i)
  {
    assert [e][1..] == [];
  }

  lemma LatchedFirst(was: bool, run: seq<Event>, k: nat, i: nat)
    requires run != []
    ensures Latched(was, run, k, i) == Latched(Latched(was, [run[0]], k, i), run[1..], k, i)
  {
    assert [run[0]][1..] == [];
  }

  /** A fixed edge interrupt that software does not pend is latched exactly as its assertions and acknowledges say. */
  lemma {:induction false} LatchFollowsInput(c: Cluster, run: seq<Event>, k: nat, i: nat)
    requires c.Valid() && LegalRun(c, run) && k < |c.harts| && i < c.g.cfg.intNum && FixedAs(c, k, i, 1)
    requires forall j :: 0 <= j < |run| ==> !PendsBySoftware(run[j], k, i)
    ensures Run(c, run).harts[k].ints[i].ip == Latched(c.harts[k].ints[i].ip, run, k, i)
    decreases |run|
  {
    if run != [] {
      LegalAfterStep(c, run);
      FixedEdgeStep(c, run[0], k, i);
      LatchedFirst(c.harts[k].ints[i].ip, run, k, i);
      LatchFollowsInput(Step(c, run[0]), run[1..], k, i);
    }
  }

  // ----- save and restore -----

  /** The mask rebuilt from the control bytes and the inputs. */
  function Refresh(h: Hart): (r: Hart)
    requires |h.ints| == |h.ext|
  {
    h.(ipe := seq(|h.ints|, i requires 0 <= i < |h.ints| => Pending(h, i) && h.ints[i].ie))
  }

  /** What is saved: the root configuration, the control bytes and the inputs - but not ipe. */
  datatype Saved = Saved(nlbits: seq<nat>, nmbits: nat, ints: seq<IntState>, ext: seq<bool>)

  function Save(g: Global, h: Hart): (r: Saved) {
    Saved(g.nlbits, g.nmbits, h.ints, h.ext)
  }

  /** Restore into a hart and root of the same configuration. */
  function Restore(s: Saved, g: Global, h: Hart): (r: (Global, Hart))
    requires |s.ints| == |s.ext|
  {
    (g.(nlbits := s.nlbits, nmbits := s.nmbits), Refresh(h.(ints := s.ints, ext := s.ext)))
  }

  /** The restored state is the saved one, ipe included, exactly when every cache bit was coherent. */
  lemma SaveRestore(c: Cluster, k: nat, g0: Global, h0: Hart)
    requires c.Valid() && k < |c.harts|
    requires g0.cfg == c.g.cfg
    requires h0.trigFixed == c.harts[k].trigFixed && h0.absent == c.harts[k].absent && h0.userInt == c.harts[k].userInt
    ensures Restore(Save(c.g, c.harts[k]), g0, h0).0 == c.g
    ensures Restore(Save(c.g, c.harts[k]), g0, h0).1 == c.harts[k]
            <==> forall i :: 0 <= i < c.g.cfg.intNum ==> Coherent(c, k, i)
  {
    var h := c.harts[k];
    var r := Restore(Save(c.g, h), g0, h0).1;
    assert forall i :: 0 <= i < c.g.cfg.intNum ==> (r.ipe[i] == h.ipe[i] <==> Coherent(c, k, i));
    assert r.ipe == h.ipe <==> r == h;
  }

  /** Interrupt i keeps to the fixed-trigger conditions in a run. */
  ghost predicate KeepsFixed(posedge: set<nat>, poslevel: set<nat>, run: seq<Event>, k: nat, i: nat) {
    i in posedge || (i in poslevel && forall j :: 0 <= j < |run| ==> !PendsBySoftware(run[j], k, i))
  }

  lemma FixedIsCoherent(c: Cluster, posedge: set<nat>, poslevel: set<nat>, run: seq<Event>, k: nat, i: nat)
    requires Initial(c, posedge, poslevel) && LegalRun(c, run) && k < |c.harts| && i < c.g.cfg.intNum
    requires KeepsFixed(posedge, poslevel, run, k, i)
    ensures Coherent(Run(c, run), k, i)
  {
    if i in posedge { FixedEdgeCoherent(c, run, k, i); } else { FixedLevelCoherent(c, run, k, i); }
    RunCoherence(c, run, k, i);
  }

  /** After every run from initialisation that keeps to them, save and restore reproduces the hart, ipe included. */
  lemma ReachableSaveRestore(c: Cluster, posedge: set<nat>, poslevel: set<nat>, run: seq<Event>, k: nat, g0: Global,
      h0: Hart)
    requires Initial(c, posedge, poslevel) && LegalRun(c, run) && k < |c.harts|
    requires forall i :: 0 <= i < c.g.cfg.intNum ==> KeepsFixed(posedge, poslevel, run, k, i)
    requires var h := Run(c, run).harts[k];
             g0.cfg == c.g.cfg && h0.trigFixed == h.trigFixed && h0.absent == h.absent && h0.userInt == h.userInt
    ensures var r := Run(c, run);
            Restore(Save(r.g, r.harts[k]), g0, h0) == (r.g, r.harts[k])
  {
    var r := Run(c, run);
    forall i | 0 <= i < c.g.cfg.intNum ensures Coherent(r, k, i) {
      assert KeepsFixed(posedge, poslevel, run, k, i);
      FixedIsCoherent(c, posedge, poslevel, run, k, i);
    }
    SaveRestore(r, k, g0, h0);
  }

  // ----- where the cache goes wrong -----

  const ONE: Config := Config(1, 8, 0, 8, {0}, false, true, false, false, true, 0, true, true)

  /** One hart with one M-mode interrupt in the given state; software may or may not pend level interrupts. */
  function One(mayPend: bool, ip: bool, ie: bool, trig: Two, ext: bool, ipe: bool): (c: Cluster)
    ensures c.Valid()
  {
    Cluster(Global(ONE.(mayPendLevel := mayPend), [0, 0, 0, 0], 0),
            [Hart([IntState(ip, ie, Attr(false, trig, MODE_M), 0)], [ext], [ipe], [false], {}, false)])
  }

  /** As it is initialised. */
  function Fresh(mayPend: bool): (c: Cluster)
    ensures c.Valid()
  {
    One(mayPend, false, false, 0, false, false)
  }

  lemma FreshIsInitial(mayPend: bool)
    ensures Initial(Fresh(mayPend), {}, {})
  {
    var c := Fresh(mayPend);
    var h := InitHart(c.g.cfg, {}, {}, {}, false);
    assert h.ints == c.harts[0].ints && h.ext == c.harts[0].ext && h.ipe == c.harts[0].ipe;
    assert h.trigFixed == c.harts[0].trigFixed;
  }

  function Write(f: Field, v: Byte): (e: Event) { Sw(Desc(0, 0, 0, MODE_M, f), v) }

  const ENABLE: Event := Write(ClicIntIe, 1)
  const PEND: Event := Write(ClicIntIp, 1)
  const RAISE: Event := Input(0, 0, true)
  const LOWER: Event := Input(0, 0, false)

  /** A write of trig alone. */
  function Retrig(trig: Two): (e: Event) { Write(ClicIntAttr, 192 + 2 * trig) }

  /** One is determined by its parts. */
  lemma OneIs(c: Cluster, p: bool, ip: bool, ie: bool, trig: Two, ext: bool, ipe: bool)
    requires |c.harts| == 1 && c.harts[0].Valid(1) && c.g == Global(ONE.(mayPendLevel := p), [0, 0, 0, 0], 0)
    requires var h := c.harts[0];
             h.ints[0] == IntState(ip, ie, Attr(false, trig, MODE_M), 0) && h.ext[0] == ext && h.ipe[0] == ipe &&
             !h.trigFixed[0] && h.absent == {} && !h.userInt
    ensures c == One(p, ip, ie, trig, ext, ipe)
  {
    var h, k := c.harts[0], One(p, ip, ie, trig, ext, ipe).harts[0];
    assert h.ints == k.ints && h.ext == k.ext && h.ipe == k.ipe && h.trigFixed == k.trigFixed;
    assert c.harts == [k];
  }

  lemma OneSteps(p: bool, ip: bool, ie: bool, trig: Two, ext: bool, ipe: bool, t: Two)
    ensures Step(One(p, ip, ie, trig, ext, ipe), ENABLE) == One(p, ip, true, trig, ext, ip || (trig % 2 == 0 && ext))
    ensures Step(One(p, ip, ie, trig, ext, ipe), Retrig(t)) == One(p, ip, ie, t, ext, ipe)
  {
    var c := One(p, ip, ie, trig, ext, ipe);
    OneIs(Step(c, ENABLE), p, ip, true, trig, ext, ip || (trig % 2 == 0 && ext));
    OneIs(Step(c, Retrig(t)), p, ip, ie, t, ext, ipe);
  }

  lemma OnePend(p: bool, ip: bool, ie: bool, trig: Two, ext: bool, ipe: bool)
    ensures Step(One(p, ip, ie, trig, ext, ipe), PEND) == One(p, p || trig % 2 == 1 || ip, ie, trig, ext, ie)
  {
    OneIs(Step(One(p, ip, ie, trig, ext, ipe), PEND), p, p || trig % 2 == 1 || ip, ie, trig, ext, ie);
  }

  lemma OneInput(p: bool, ip: bool, ie: bool, trig: Two, ext: bool, ipe: bool, b: bool)
    ensures var asserted := b != (trig / 2 == 1);
            Step(One(p, ip, ie, trig, ext, ipe), Input(0, 0, b)) ==
            if trig % 2 == 0 then One(p, ip, ie, trig, b, ie && asserted)
            else if asserted then One(p, true, ie, trig, b, ie)
            else One(p, ip, ie, trig, b, ipe)
  {
    var asserted := b != (trig / 2 == 1);
    var c := Step(One(p, ip, ie, trig, ext, ipe), Input(0, 0, b));
    if trig % 2 == 0 {
      OneIs(c, p, ip, ie, trig, b, ie && asserted);
    } else if asserted {
      OneIs(c, p, true, ie, trig, b, ie);
    } else {
      OneIs(c, p, ip, ie, trig, b, ipe);
    }
  }

  lemma OneAck(p: bool, ip: bool, ie: bool, trig: Two, ext: bool, ipe: bool)
    ensures Step(One(p, ip, ie, trig, ext, ipe), Ack(0, 0)) ==
            if trig % 2 == 1 then One(p, false, ie, trig, ext, false) else One(p, ip, ie, trig, ext, ipe)
  {
    var c := Step(One(p, ip, ie, trig, ext, ipe), Ack(0, 0));
    if trig % 2 == 1 { OneIs(c, p, false, ie, trig, ext, false); } else { OneIs(c, p, ip, ie, trig, ext, ipe); }
  }

  /** The run takes c to r, of which cache bit (0, 0) is wrong, and was right before the last event. */
  ghost predicate GoesWrong(c: Cluster, run: seq<Event>, r: Cluster)
    requires c.Valid()
    decreases |run|
  {
    run != [] && LegalEvent(c, run[0]) && |c.harts| > 0 && c.g.cfg.intNum > 0 && Coherent(c, 0, 0) &&
    if |run| == 1 then r == Step(c, run[0]) && !Coherent(r, 0, 0)
    else GoesWrong(Step(c, run[0]), run[1..], r)
  }

  /** Such a run is a legal one, and ends in r. */
  lemma {:induction false} GoesWrongRuns(c: Cluster, run: seq<Event>, r: Cluster)
    requires c.Valid() && GoesWrong(c, run, r)
    ensures LegalRun(c, run) && Run(c, run) == r
    decreases |run|
  {
    var c' := Step(c, run[0]);
    if |run| == 1 {
      assert run[1..] == [];
    } else {
      GoesWrongRuns(c', run[1..], r);
      forall j | 0 <= j < |run| ensures LegalEvent(c, run[j]) {
        if j > 0 { assert run[j] == run[1..][j - 1]; }
      }
    }
  }

  /** Software sets clicintip of an idle level interrupt: nothing is latched, nothing is pending, yet ipe is set. */
  lemma PhantomPending()
    ensures Initial(Fresh(false), {}, {})
    ensures GoesWrong(Fresh(false), [ENABLE, PEND], One(false, false, true, 0, false, true))
  {
    FreshIsInitial(false);
    OneSteps(false, false, false, 0, false, false, 0);
    OnePend(false, false, true, 0, false, false);
    assert [ENABLE, PEND][1..] == [PEND];
  }

  /** Rewriting trig makes an asserted input pending without updating ipe. */
  lemma TriggerRewriteLosesPending()
    ensures Initial(Fresh(false), {}, {})
    ensures GoesWrong(Fresh(false), [Retrig(1), ENABLE, RAISE, Ack(0, 0), Retrig(0)],
                      One(false, false, true, 0, true, false))
  {
    FreshIsInitial(false);
    OneSteps(false, false, false, 0, false, false, 1);
    OneSteps(false, false, false, 1, false, false, 0);
    OneInput(false, false, true, 1, false, false, true);
    OneAck(false, true, true, 1, true, true);
    OneSteps(false, false, true, 1, true, false, 0);
    var run := [Retrig(1), ENABLE, RAISE, Ack(0, 0), Retrig(0)];
    assert run[1..] == [ENABLE, RAISE, Ack(0, 0), Retrig(0)] && run[1..][1..] == [RAISE, Ack(0, 0), Retrig(0)];
    assert run[1..][1..][1..] == [Ack(0, 0), Retrig(0)] && run[1..][1..][1..][1..] == [Retrig(0)];
    var r := One(false, false, true, 0, true, false);
    assert GoesWrong(One(false, false, true, 1, true, false), [Retrig(0)], r);
    assert GoesWrong(One(false, true, true, 1, true, true), [Ack(0, 0), Retrig(0)], r);
    assert GoesWrong(One(false, false, true, 1, false, false), [RAISE, Ack(0, 0), Retrig(0)], r);
  }

  /** Active-low inversion is applied to the input but not when pending is read back. */
  lemma ActiveLowReadsBackInverted()
    ensures Initial(Fresh(false), {}, {})
    ensures GoesWrong(Fresh(false), [Retrig(2), ENABLE, RAISE], One(false, false, true, 2, true, false))
  {
    FreshIsInitial(false);
    OneSteps(false, false, false, 0, false, false, 2);
    OneSteps(false, false, false, 2, false, false, 0);
    OneInput(false, false, true, 2, false, false, true);
    var run := [Retrig(2), ENABLE, RAISE];
    assert run[1..] == [ENABLE, RAISE] && run[1..][1..] == [RAISE];
    assert GoesWrong(One(false, false, true, 2, false, false), [RAISE], One(false, false, true, 2, true, false));
  }

  /** A level interrupt that software has pended is still latched when its input falls, but ipe is cleared. */
  lemma FallingInputHidesLatch()
    ensures Initial(Fresh(true), {}, {})
    ensures GoesWrong(Fresh(true), [ENABLE, PEND, RAISE, LOWER], One(true, true, true, 0, false, false))
  {
    FreshIsInitial(true);
    OneSteps(true, false, false, 0, false, false, 0);
    OnePend(true, false, true, 0, false, false);
    OneInput(true, true, true, 0, false, true, true);
    OneInput(true, true, true, 0, true, true, false);
    var run := [ENABLE, PEND, RAISE, LOWER];
    assert run[1..] == [PEND, RAISE, LOWER] && run[1..][1..] == [RAISE, LOWER] && run[1..][1..][1..] == [LOWER];
    var r := One(true, true, true, 0, false, false);
    assert GoesWrong(One(true, true, true, 0, true, true), [LOWER], r);
    assert GoesWrong(One(true, true, true, 0, false, true), [RAISE, LOWER], r);
  }
}
