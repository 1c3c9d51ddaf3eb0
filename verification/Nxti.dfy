/** Claiming interrupts through the xnxti CSRs. */
module Nxti {
  import opened Clic
  import opened ClicSelection
  import opened ClicDevice

  const TWO64: nat := 0x1_0000_0000_0000_0000

  /** What an xnxti access of one mode consults: vector table base, entry size, xcause.pil and xintthresh.th. */
  datatype Port = Port(mode: Two, tvt: nat, rv64: bool, pil: Byte, th: Byte) {
    /** Address of the vector table entry of interrupt i, before wrap-around. */
    function Entry(i: nat): nat { tvt + (if rv64 then 8 * i else 4 * i) }
  }

  /** Does the presented interrupt qualify for horizontal service in this mode? */
  predicate Qualifies(p: Port, s: Sel) {
    s.priv == p.mode && s.level > p.pil && s.level > p.th && !s.shv
  }

  /** Value read from xnxti: the vector table entry of the qualifying interrupt, in 64-bit arithmetic, or zero. */
  function ReadNxti(p: Port, s: Sel): (r: nat)
    requires s == NO_INT || s.id >= 0
  {
    if Qualifies(p, s) && s.id >= 0 then p.Entry(s.id) % TWO64 else 0
  }

  /** Hart state after an xnxti write. */
  function AfterClaim(g: Global, p: Port, h: Hart): (r: Hart)
    requires g.Valid() && h.Valid(g.cfg.intNum)
    ensures r.Valid(g.cfg.intNum)
  {
    var s := Presented(g, h);
    if ReadNxti(p, s) != 0 then Acknowledge(h, s.id) else h
  }

  /** Interrupt claimed by an xnxti write, or -1. */
  function Claimed(g: Global, p: Port, h: Hart): (r: int)
    requires g.Valid() && h.Valid(g.cfg.intNum)
    ensures -1 <= r < |h.ints|
  {
    var s := Presented(g, h);
    if ReadNxti(p, s) != 0 then s.id else -1
  }

  function Count(s: seq<bool>): (n: nat) {
    if s == [] then 0 else (if s[0] then 1 else 0) + Count(s[1..])
  }

  lemma {:induction false} CountClear(s: seq<bool>, i: nat)
    requires i < |s| && s[i]
    ensures Count(s[i := false]) + 1 == Count(s)
  {
    if i > 0 {
      CountClear(s[1..], i - 1);
      assert s[i := false][1..] == s[1..][i - 1 := false];
    } else {
      assert s[0 := false][1..] == s[1..];
    }
  }

  /** Every pending-and-enabled interrupt is edge triggered. */
  ghost predicate EdgeOnly(h: Hart) {
    |h.ints| == |h.ipe| && forall i :: 0 <= i < |h.ints| && h.ipe[i] ==> Edge(h, i)
  }

  /** A vector table that does not start at zero and does not wrap. */
  predicate TableFits(p: Port, intNum: nat) {
    0 < p.tvt && p.Entry(intNum) < TWO64
  }

  /** The table starts at its base, and holds one address of XLEN / 8 bytes for each interrupt. */
  lemma EntriesLieApart(p: Port, i: nat)
    ensures p.Entry(0) == p.tvt && p.Entry(i + 1) == p.Entry(i) + if p.rv64 then 8 else 4
  {
  }

  /**
   * With such a table an interrupt is claimed, and its entry returned, if and only if it is presented to this mode,
   * above the interrupted level and the threshold, and not selectively vectored; otherwise zero is returned.
   */
  lemma ZeroMeansNothing(g: Global, p: Port, h: Hart)
    requires g.Valid() && h.Valid(g.cfg.intNum) && TableFits(p, g.cfg.intNum)
    ensures var s := Presented(g, h);
            if s.id >= 0 && s.priv == p.mode && s.level > p.pil && s.level > p.th && !s.shv
            then Claimed(g, p, h) == s.id && ReadNxti(p, s) == p.Entry(s.id)
            else Claimed(g, p, h) == -1 && ReadNxti(p, s) == 0 && AfterClaim(g, p, h) == h
  {
  }

  /** A successful claim serves the best pending-and-enabled interrupt and clears that one only. */
  lemma ClaimServesMaximum(g: Global, p: Port, h: Hart)
    requires g.Valid() && h.Valid(g.cfg.intNum) && EdgeOnly(h) && Claimed(g, p, h) >= 0
    ensures var b := Claimed(g, p, h);
            var h' := AfterClaim(g, p, h);
            && IsMaximum(g, h, b) && ModeOf(g, h, b) == p.mode
            && Level(g, p.mode, h.ints[b].ctl) > p.pil && Level(g, p.mode, h.ints[b].ctl) > p.th
            && h' == h.(ipe := h.ipe[b := false], ints := h.ints[b := h.ints[b].(ip := false)])
            && EdgeOnly(h') && Count(h'.ipe) + 1 == Count(h.ipe)
  {
    var b := Claimed(g, p, h);
    PresentedIsMaximum(g, h, b);
    CountClear(h.ipe, b);
  }

  /** State after n xnxti writes with no new inputs. */
  function AfterClaims(g: Global, p: Port, h: Hart, n: nat): (r: Hart)
    requires g.Valid() && h.Valid(g.cfg.intNum)
    ensures r.Valid(g.cfg.intNum)
  {
    if n == 0 then h else AfterClaim(g, p, AfterClaims(g, p, h, n - 1))
  }

  /** The interrupt the n-th write (from zero) claims, or -1. */
  function ClaimAt(g: Global, p: Port, h: Hart, n: nat): (r: int)
    requires g.Valid() && h.Valid(g.cfg.intNum)
  {
    Claimed(g, p, AfterClaims(g, p, h, n))
  }

  /** What a run of claims keeps: trigger, mode and priority of every interrupt, and no new pending ones. */
  ghost predicate Drained(h: Hart, h': Hart) {
    |h.ints| == |h'.ints| == |h.ipe| == |h'.ipe| &&
    forall i :: 0 <= i < |h.ints| ==>
      h'.ints[i].attr == h.ints[i].attr && h'.ints[i].ctl == h.ints[i].ctl && (h'.ipe[i] ==> h.ipe[i])
  }

  lemma ClaimDrains(g: Global, p: Port, h: Hart)
    requires g.Valid() && h.Valid(g.cfg.intNum) && EdgeOnly(h)
    ensures EdgeOnly(AfterClaim(g, p, h)) && Drained(h, AfterClaim(g, p, h))
  {
    if Claimed(g, p, h) >= 0 { ClaimServesMaximum(g, p, h); } else { NothingClaimed(g, p, h); }
  }

  lemma DrainedTwice(a: Hart, b: Hart, c: Hart)
    requires Drained(a, b) && Drained(b, c)
    ensures Drained(a, c)
  {
  }

  lemma {:induction false} ClaimsStayEdgeOnly(g: Global, p: Port, h: Hart, n: nat)
    requires g.Valid() && h.Valid(g.cfg.intNum) && EdgeOnly(h)
    ensures EdgeOnly(AfterClaims(g, p, h, n))
  {
    if n > 0 {
      ClaimsStayEdgeOnly(g, p, h, n - 1);
      ClaimDrains(g, p, AfterClaims(g, p, h, n - 1));
    }
  }

  lemma {:induction false} ClaimsDrain(g: Global, p: Port, h: Hart, m: nat, n: nat)
    requires g.Valid() && h.Valid(g.cfg.intNum) && EdgeOnly(h) && m <= n
    ensures Drained(AfterClaims(g, p, h, m), AfterClaims(g, p, h, n))
    decreases n
  {
    if m < n {
      var h1 := AfterClaims(g, p, h, n - 1);
      ClaimsDrain(g, p, h, m, n - 1);
      ClaimsStayEdgeOnly(g, p, h, n - 1);
      ClaimDrains(g, p, h1);
      DrainedTwice(AfterClaims(g, p, h, m), h1, AfterClaim(g, p, h1));
    }
  }

  /** Claims come in strictly descending rank: an earlier claim outranks every later one. */
  lemma ClaimsDescend(g: Global, p: Port, h: Hart, m: nat, n: nat)
    requires g.Valid() && h.Valid(g.cfg.intNum) && EdgeOnly(h) && m < n
    requires ClaimAt(g, p, h, m) >= 0 && ClaimAt(g, p, h, n) >= 0
    ensures ClaimAt(g, p, h, m) != ClaimAt(g, p, h, n)
    ensures Outranks(g, h, ClaimAt(g, p, h, m), ClaimAt(g, p, h, n))
  {
    var a, c, b := AfterClaims(g, p, h, m), AfterClaims(g, p, h, m + 1), AfterClaims(g, p, h, n);
    ClaimsDrain(g, p, h, 0, m);
    ClaimsDrain(g, p, h, m + 1, n);
    ClaimsStayEdgeOnly(g, p, h, m);
    ClaimsStayEdgeOnly(g, p, h, n);
    ClaimServesMaximum(g, p, a);
    ClaimServesMaximum(g, p, b);
    LaterIsOutranked(g, h, a, c, b, ClaimAt(g, p, h, m), ClaimAt(g, p, h, n));
  }

  /** x was served in a, which left c, and y was served later, in b. */
  lemma LaterIsOutranked(g: Global, h: Hart, a: Hart, c: Hart, b: Hart, x: nat, y: nat)
    requires IsMaximum(g, a, x) && IsMaximum(g, b, y) && Drained(h, a) && Drained(c, b)
    requires c.ipe == a.ipe[x := false]
    ensures x != y && x < |h.ints| && y < |h.ints| && Outranks(g, h, x, y)
  {
    assert c.ipe[y];
    assert a.ipe[y] && x != y;
    assert Outranks(g, a, x, y);
  }

  /** Once a write claims nothing, no later write does. */
  lemma {:induction false} SilenceLasts(g: Global, p: Port, h: Hart, m: nat, n: nat)
    requires g.Valid() && h.Valid(g.cfg.intNum) && m <= n && ClaimAt(g, p, h, m) < 0
    ensures ClaimAt(g, p, h, n) < 0 && AfterClaims(g, p, h, n) == AfterClaims(g, p, h, m)
    decreases n
  {
    if m < n {
      SilenceLasts(g, p, h, m, n - 1);
      NothingClaimed(g, p, AfterClaims(g, p, h, n - 1));
    }
  }

  lemma NothingClaimed(g: Global, p: Port, h: Hart)
    requires g.Valid() && h.Valid(g.cfg.intNum) && Claimed(g, p, h) < 0
    ensures AfterClaim(g, p, h) == h
  {
  }

  lemma ClaimsHaveNoGap(g: Global, p: Port, h: Hart, m: nat, n: nat)
    requires g.Valid() && h.Valid(g.cfg.intNum) && m <= n && ClaimAt(g, p, h, n) >= 0
    ensures ClaimAt(g, p, h, m) >= 0
  {
    if ClaimAt(g, p, h, m) < 0 { SilenceLasts(g, p, h, m, n); }
  }

  lemma ClaimCounts(g: Global, p: Port, h: Hart, n: nat)
    requires g.Valid() && h.Valid(g.cfg.intNum) && EdgeOnly(h) && ClaimAt(g, p, h, n) >= 0
    ensures Count(AfterClaims(g, p, h, n + 1).ipe) + 1 == Count(AfterClaims(g, p, h, n).ipe)
  {
    ClaimsStayEdgeOnly(g, p, h, n);
    ClaimServesMaximum(g, p, AfterClaims(g, p, h, n));
  }

  /** How many ipe bits are left after each number of writes. */
  function Left(g: Global, p: Port, h: Hart): (c: nat -> int)
    requires g.Valid() && h.Valid(g.cfg.intNum)
  {
    (k: nat) => Count(AfterClaims(g, p, h, k).ipe)
  }

  lemma LeftStarts(g: Global, p: Port, h: Hart)
    requires g.Valid() && h.Valid(g.cfg.intNum)
    ensures Left(g, p, h)(0) == Count(h.ipe)
  {
  }

  lemma LeftFalls(g: Global, p: Port, h: Hart, n: nat, k: nat)
    requires g.Valid() && h.Valid(g.cfg.intNum) && EdgeOnly(h) && ClaimAt(g, p, h, n) >= 0 && k <= n
    ensures Left(g, p, h)(k + 1) + 1 == Left(g, p, h)(k)
  {
    ClaimsHaveNoGap(g, p, h, k, n);
    ClaimCounts(g, p, h, k);
  }

  lemma LeftCounts(g: Global, p: Port, h: Hart, n: nat)
    requires g.Valid() && h.Valid(g.cfg.intNum) && EdgeOnly(h) && ClaimAt(g, p, h, n) >= 0
    ensures Left(g, p, h)(n) == Left(g, p, h)(0) - n && Left(g, p, h)(n) > 0
  {
    var c := Left(g, p, h);
    forall k: nat | k <= n ensures c(k + 1) + 1 == c(k) { LeftFalls(g, p, h, n, k); }
    CountsDown(c, n);
    LeftIs(g, p, h, n + 1, c(n + 1));
  }

  lemma LeftIs(g: Global, p: Port, h: Hart, k: nat, c: int)
    requires g.Valid() && h.Valid(g.cfg.intNum) && Left(g, p, h)(k) == c
    ensures Count(AfterClaims(g, p, h, k).ipe) == c && c >= 0
  {
  }

  /** n successful claims use up n of the initially set ipe bits, so claiming stops within their number. */
  lemma ClaimsAreFinite(g: Global, p: Port, h: Hart, n: nat)
    requires g.Valid() && h.Valid(g.cfg.intNum) && EdgeOnly(h) && ClaimAt(g, p, h, n) >= 0
    ensures n < Count(h.ipe) && Count(AfterClaims(g, p, h, n).ipe) == Count(h.ipe) - n
  {
    LeftStarts(g, p, h);
    LeftCounts(g, p, h, n);
    LeftIs(g, p, h, n, Left(g, p, h)(n));
  }

  lemma {:induction false} CountsDown(c: nat -> int, n: nat)
    requires forall k: nat :: k < n ==> c(k + 1) + 1 == c(k)
    ensures c(n) + n == c(0)
  {
    if n > 0 {
      CountsDown(c, n - 1);
      assert c(n - 1 + 1) + 1 == c(n - 1);
    }
  }

  /** The CSR side of a hart: the fields an xnxti write updates for its mode. */
  class NxtiCsr {
    const hart: ClicHart
    var il: Byte              // mintstatus.xil
    var code: int             // xcause.ExceptionCode
    var interrupt: bool       // xcause.Interrupt

    constructor (hart: ClicHart)
      ensures this.hart == hart && il == 0 && code == 0 && !interrupt
    {
      this.hart := hart;
      il, code, interrupt := 0, 0, false;
    }

    /** Read xnxti, then service the interrupt if there is one. */
    method Write(p: Port) returns (result: nat)
      requires hart.Valid(hart.root.G()) && hart.sel == Presented(hart.root.G(), hart.View())
      modifies this, hart
      ensures hart.Valid(hart.root.G()) && hart.sel == Presented(hart.root.G(), hart.View())
      ensures result == ReadNxti(p, old(hart.sel))
      ensures hart.View() == AfterClaim(old(hart.root.G()), p, old(hart.View()))
      ensures if result != 0 then il == old(hart.sel.level) && code == old(hart.sel.id) && interrupt
              else il == old(il) && code == old(code) && interrupt == old(interrupt)
    {
      var s := hart.sel;
      result := 0;
      if s.priv == p.mode && s.level > p.pil && s.level > p.th && !s.shv {
        result := p.Entry(s.id) % TWO64;
      }
      if result != 0 {
        il := s.level;
        code := s.id;
        interrupt := true;
        hart.AcknowledgeInt(s.id);
      }
    }
  }
}
