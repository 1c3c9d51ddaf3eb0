/** The CLIC as the simulator keeps it: per-hart tables and 64-bit mask words, updated in place. */
module ClicDevice {
  import opened Bits
  import opened Clic
  import opened ClicSelection
  import opened ClicCoherence
  import opened ClicMap
  import opened ClicIsolation
  import opened ClicRegisters

  /** The first n bits of a mask. */
  function Flat(words: seq<nat>, n: nat): (r: seq<bool>)
    ensures |r| == n && forall i :: 0 <= i < n ==> r[i] == InMask(words, i)
  {
    seq(n, i requires 0 <= i => InMask(words, i))
  }

  lemma FlatPut(words: seq<nat>, n: nat, i: nat, b: bool)
    requires i < n && i / 64 < |words|
    ensures Flat(PutMask(words, i, b), n) == Flat(words, n)[i := b]
  {
    forall j | 0 <= j < n ensures Flat(PutMask(words, i, b), n)[j] == Flat(words, n)[i := b][j] {
      InPutMask(words, i, b, j);
    }
  }

  ghost predicate ClearAbove(words: seq<nat>, n: nat) {
    forall i :: n <= i ==> !InMask(words, i)
  }

  /** The words hold the pending-and-enabled mask of a hart. */
  ghost predicate IsMask(words: seq<nat>, h: Hart) {
    Words64(words) && ClearAbove(words, |h.ints|) && h.ipe == Flat(words, |h.ints|)
  }

  /** The next bit of word w, and the shifted word after it. */
  lemma WordBit(words: seq<nat>, w: nat, i: nat, n: nat)
    requires w < |words| && Words64(words) && ClearAbove(words, n) && i <= 64 && Shr(words[w], i) != 0
    ensures i < 64 && Shr(words[w], i) / 2 == Shr(words[w], i + 1)
    ensures Shr(words[w], i) % 2 == 1 ==> 64 * w + i < n
    ensures 64 * w + i < n ==> Flat(words, n)[64 * w + i] == (Shr(words[w], i) % 2 == 1)
  {
    ShrStep(words[w], i);
    assert InMask(words, 64 * w + i) == Bit(words[w], i);
  }

  /** The scan's variables one bit further. */
  lemma ScanBit(g: Global, h: Hart, words: seq<nat>, w: nat, i: nat, seen: nat, maxRank: nat, id: int, priv: Two)
    requires w < |words| && Words64(words) && ClearAbove(words, |h.ints|) && i <= 64 && Shr(words[w], i) != 0
    requires h.ipe == Flat(words, |h.ints|)
    requires seen == Min(64 * w + i, |h.ints|) && Scanned(g, h, seen, maxRank, id, priv)
    ensures i < 64 && Shr(words[w], i) / 2 == Shr(words[w], i + 1)
    ensures Shr(words[w], i) % 2 == 1 ==> seen == 64 * w + i < |h.ints|
    ensures var next := Min(64 * w + i + 1, |h.ints|);
            if Shr(words[w], i) % 2 == 1 && maxRank <= Rank(g, h, seen)
            then Scanned(g, h, next, Rank(g, h, seen), seen, ModeOf(g, h, seen))
            else Scanned(g, h, next, maxRank, id, priv)
  {
    WordBit(words, w, i, |h.ints|);
    if seen < |h.ints| { ScanStep(g, h, seen, maxRank, id, priv); }
  }

  /** Once the shifted word is zero, the rest of the word is clear. */
  lemma WordRest(words: seq<nat>, w: nat, i: nat, n: nat)
    requires w < |words| && Shr(words[w], i) == 0
    ensures forall j :: Min(64 * w + i, n) <= j < Min(64 * (w + 1), n) ==> !Flat(words, n)[j]
  {
    forall j | Min(64 * w + i, n) <= j < Min(64 * (w + 1), n) ensures !InMask(words, j) {
      ShrZero(words[w], i, j - 64 * w);
    }
  }

  lemma WordDone(g: Global, h: Hart, words: seq<nat>, w: nat, i: nat, maxRank: nat, id: int, priv: Two)
    requires w < |words| && i <= 64 && Shr(words[w], i) == 0 && h.ipe == Flat(words, |h.ints|)
    requires Scanned(g, h, Min(64 * w + i, |h.ints|), maxRank, id, priv)
    ensures Scanned(g, h, Min(64 * (w + 1), |h.ints|), maxRank, id, priv)
  {
    WordRest(words, w, i, |h.ints|);
    BestSkips(g, h, Min(64 * w + i, |h.ints|), Min(64 * (w + 1), |h.ints|));
  }

  function Accesses(page: Two, address: nat, bytes: seq<Byte>): (r: seq<Access>) {
    seq(|bytes|, i requires 0 <= i < |bytes| => Access(page, address + i, bytes[i]))
  }

  /** n bytes lie within a region. */
  predicate InPage(m: Map, page: Two, address: nat, n: nat) {
    IsPage(page) && (n > 0 ==> m.InRegion(page, address) && m.InRegion(page, address + n - 1))
  }

  lemma InPageAt(m: Map, page: Two, address: nat, n: nat, i: nat)
    requires InPage(m, page, address, n) && i < n
    ensures m.InRegion(page, address + i) && InPage(m, page, address, i + 1) && InPage(m, page, address, i)
  {
  }

  function Loads(m: Map, c: Cluster, page: Two, address: nat, n: nat): (value: seq<Byte>)
    requires MapOf(m, c) && InPage(m, page, address, n)
    ensures |value| == n
  {
    if n == 0 then [] else Loads(m, c, page, address, n - 1) + [Load(m, c, page, address + n - 1)]
  }

  lemma {:induction false} LoadsAt(m: Map, c: Cluster, page: Two, address: nat, n: nat, i: nat)
    requires MapOf(m, c) && InPage(m, page, address, n) && i < n
    ensures m.InRegion(page, address + i) && Loads(m, c, page, address, n)[i] == Load(m, c, page, address + i)
  {
    InPageAt(m, page, address, n, i);
    if i < n - 1 { LoadsAt(m, c, page, address, n - 1, i); }
  }

  lemma StoresUnfold(m: Map, c: Cluster, run: seq<Access>, i: nat)
    requires MapOf(m, c) && i < |run| && forall j :: 0 <= j < |run| ==> Legal(m, run[j])
    ensures Stores(m, c, run[i..]) == Stores(m, Store(m, c, run[i]), run[i + 1..])
  {
    assert run[i..][1..] == run[i + 1..];
  }

  function Min(a: nat, b: nat): nat { if a < b then a else b }

  class ClicRoot {
    const cfg: Config
    var nlbits: seq<nat>
    var nmbits: nat
    var harts: seq<ClicHart>

    function G(): Global
      reads this
    {
      Global(cfg, nlbits, nmbits)
    }

    /** nlbits starts at the smallest legal value in every mode. */
    constructor (cfg: Config)
      requires cfg.Valid() && exists n :: n in cfg.nlbitsValid && n <= 8
      ensures Starting(G()) && this.cfg == cfg && harts == []
    {
      var n: nat := 0;
      while n !in cfg.nlbitsValid
        invariant forall k :: k in cfg.nlbitsValid ==> n <= k
        decreases 9 - n
      {
        n := n + 1;
      }
      this.cfg := cfg;
      nlbits := [n, n, n, n];
      nmbits := 0;
      harts := [];
    }

    ghost predicate Valid()
      reads this, harts
    {
      G().Valid() &&
      (forall k :: 0 <= k < |harts| ==> harts[k].root == this && harts[k].Valid(G())) &&
      (forall j, k :: 0 <= j < k < |harts| ==> harts[j] != harts[k])
    }

    ghost function View(): (c: Cluster)
      reads this, harts
      requires Valid()
      ensures c.Valid() && |c.harts| == |harts| && c.g == G()
    {
      var hs := harts;
      Cluster(G(), seq(|hs|, k requires 0 <= k < |hs| reads hs => hs[k].View()))
    }

    /** Every hart presents the interrupt its current state calls for. */
    ghost predicate Fresh()
      reads this, harts
      requires Valid()
    {
      forall k :: 0 <= k < |harts| ==> harts[k].sel == Presented(G(), harts[k].View())
    }

    method SetNlbitsField(mode: Two, value: nat) returns (refresh: bool)
      requires G().Valid()
      modifies this`nlbits
      ensures G() == SetNlbits(old(G()), mode, value)
      ensures refresh <==> nlbits != old(nlbits)
    {
      var n := value;
      if n > cfg.cfgLBits {
        n := cfg.cfgLBits;
      } else if n !in cfg.nlbitsValid {
        n := nlbits[mode];
      }
      refresh := nlbits[mode] != n;
      if refresh {
        nlbits := nlbits[mode := n];
      } else {
        assert nlbits == nlbits[mode := n];
      }
    }

    method SetNmbitsField(value: nat) returns (refresh: bool)
      requires G().Valid()
      modifies this`nmbits
      ensures G() == SetNmbits(old(G()), value)
      ensures refresh <==> nmbits != old(nmbits)
    {
      var n := if value > cfg.cfgMBits then cfg.cfgMBits else value;
      refresh := nmbits != n;
      nmbits := n;
    }

    method RefreshOne(k: nat, ghost want: Sel)
      requires Valid() && k < |harts| && want == Presented(G(), View().harts[k])
      modifies harts[k]
      ensures Valid() && View() == old(View()) && harts[k].sel == want
      ensures forall j :: 0 <= j < |harts| && j != k ==> harts[j].sel == old(harts[j].sel)
    {
      ghost var before := View();
      harts[k].Reselect(G());
      assert View().harts == before.harts;
    }

    /** What each hart is to present. */
    ghost function Wanted(): (ss: seq<Sel>)
      reads this, harts
      requires Valid()
      ensures |ss| == |harts| && forall k :: 0 <= k < |harts| ==> ss[k] == Presented(G(), View().harts[k])
    {
      var c := View();
      seq(|c.harts|, k requires 0 <= k < |c.harts| => Presented(c.g, c.harts[k]))
    }

    method RefreshAll()
      requires Valid()
      modifies harts
      ensures Valid() && View() == old(View()) && Fresh()
    {
      ghost var before, want := View(), Wanted();
      for k := 0 to |harts|
        invariant Valid() && View() == before
        invariant forall j :: 0 <= j < k ==> harts[j].sel == want[j]
      {
        RefreshOne(k, want[k]);
      }
      assert forall j :: 0 <= j < |harts| ==> before.harts[j] == harts[j].View();
    }

    /** Single cliccfg: M-mode nlbits are copied to S and U. */
    method UpdateSingleCfg(v: Byte) returns (refresh: bool)
      requires Valid()
      modifies this`nlbits, this`nmbits
      ensures Valid() && View() == old(View()).(g := WriteCliccfg(old(G()), v))
      ensures refresh <==> nlbits[MODE_M] != old(nlbits)[MODE_M] || nmbits != old(nmbits)
      ensures nlbits[MODE_U] == nlbits[MODE_S] == nlbits[MODE_M]
    {
      ghost var h0 := View().harts;
      var r1 := SetNlbitsField(MODE_M, v / 2 % 16);
      var r2 := SetNmbitsField(v / 32 % 4);
      var n := nlbits[MODE_M];
      nlbits := nlbits[MODE_U := n][MODE_S := n];
      assert View().harts == h0;
      refresh := r1 || r2;
    }

    /** Harts are refreshed where the configuration changed. */
    method WriteSingleCfg(v: Byte)
      requires Valid() && Fresh() && nlbits[MODE_U] == nlbits[MODE_S] == nlbits[MODE_M]
      modifies this, harts
      ensures harts == old(harts) && Valid() && Fresh()
      ensures View() == old(View()).(g := WriteCliccfg(old(G()), v))
      ensures nlbits[MODE_U] == nlbits[MODE_S] == nlbits[MODE_M]
    {
      var refresh := UpdateSingleCfg(v);
      if refresh {
        RefreshAll();
      } else {
        assert nlbits == old(nlbits);
      }
    }

    method UpdatePerModeCfg(mode: Two, v: Byte) returns (refresh: bool)
      requires Valid()
      modifies this`nlbits, this`nmbits
      ensures Valid()
      ensures View() == old(View()).(g := if mode == MODE_M then WriteMcliccfg(old(G()), v)
                                          else SetNlbits(old(G()), mode, v % 16))
      ensures refresh <==> G() != old(G())
    {
      ghost var h0 := View().harts;
      refresh := SetNlbitsField(mode, v % 16);
      if mode == MODE_M {
        var r2 := SetNmbitsField(v / 16 % 4);
        refresh := refresh || r2;
      }
      assert View().harts == h0;
    }

    method WritePerModeCfg(mode: Two, v: Byte)
      requires Valid() && Fresh()
      modifies this, harts
      ensures harts == old(harts) && Valid() && Fresh()
      ensures View() == old(View()).(g := if mode == MODE_M then WriteMcliccfg(old(G()), v)
                                          else SetNlbits(old(G()), mode, v % 16))
    {
      var refresh := UpdatePerModeCfg(mode, v);
      if refresh { RefreshAll(); }
    }

    /** Invariant of the single-cliccfg versions: all modes share one nlbits. */
    predicate OneNlbits()
      reads this
    {
      !cfg.perMode ==> |nlbits| == 4 && nlbits[MODE_U] == nlbits[MODE_S] == nlbits[MODE_M]
    }

    /** Write one byte. */
    method WriteInt(d: Desc, v: Byte)
      requires Valid() && Fresh() && OneNlbits() && (d.field != ClicConfig ==> 0 <= d.hart < |harts|)
      modifies this, harts
      ensures harts == old(harts) && Valid() && Fresh() && OneNlbits()
      ensures View() == WriteByte(old(View()), d, v)
    {
      if d.field != ClicConfig {
        ghost var before := View();
        harts[d.hart].WriteInterrupt(d, v);
        assert forall j :: 0 <= j < |harts| && j != d.hart ==> harts[j].View() == before.harts[j];
        assert View().harts == WriteByte(before, d, v).harts;
      } else if !cfg.perMode {
        if d.index == 0 { WriteSingleCfg(v); }
      } else if d.index == 0 && d.mode >= MODE_M {
        WritePerModeCfg(MODE_M, v);
      } else if d.index == 2 && d.mode >= MODE_S && cfg.ssclic {
        WritePerModeCfg(MODE_S, v);
      } else if d.index == 3 && cfg.suclic {
        WritePerModeCfg(MODE_U, v);
      }
    }

    /** Read one byte. */
    method ReadInt(d: Desc) returns (r: Byte)
      requires Valid() && ValidDesc(View(), d)
      ensures r == ReadByte(View(), d)
    {
      if d.field != ClicConfig {
        r := harts[d.hart].ReadInterrupt(d);
      } else {
        r := ReadConfig(G(), d);
      }
    }

    /** Read the byte at an address. */
    method ReadAt(m: Map, page: Two, address: nat) returns (b: Byte)
      requires Valid() && MapOf(m, View()) && IsPage(page) && m.InRegion(page, address)
      ensures b == Load(m, View(), page, address)
    {
      DecodeThenEncode(m, page, address);
      b := ReadInt(Decode(m, page, address));
    }

    /** Byte i of n bytes of a region. */
    method ReadOf(m: Map, page: Two, address: nat, n: nat, i: nat, ghost c: Cluster, ghost want: seq<Byte>)
      returns (b: Byte)
      requires Valid() && c == View() && MapOf(m, c) && InPage(m, page, address, n) && i < n
      requires want == Loads(m, c, page, address, n)
      ensures b == want[i]
    {
      LoadsAt(m, c, page, address, n, i);
      b := ReadAt(m, page, address + i);
    }

    /** Read consecutive bytes of a region. */
    method ReadBytes(m: Map, page: Two, address: nat, n: nat) returns (value: seq<Byte>)
      requires Valid() && MapOf(m, View()) && InPage(m, page, address, n)
      ensures value == Loads(m, View(), page, address, n)
    {
      value := [];
      ghost var c := View();
      ghost var want := Loads(m, c, page, address, n);
      for i := 0 to n
        invariant c == View() && value == want[..i]
      {
        var b := ReadOf(m, page, address, n, i, c, want);
        value := value + [b];
      }
    }

    /** Write the byte at an address. */
    method WriteAt(m: Map, a: Access)
      requires Valid() && Fresh() && OneNlbits() && MapOf(m, View()) && Legal(m, a)
      modifies this, harts
      ensures harts == old(harts) && Valid() && Fresh() && OneNlbits()
      ensures View() == Store(m, old(View()), a)
    {
      DecodeThenEncode(m, a.page, a.address);
      WriteInt(Decode(m, a.page, a.address), a.value);
    }

    /** Write consecutive bytes of a region, lowest address first. */
    method WriteBytes(m: Map, page: Two, address: nat, bytes: seq<Byte>)
      requires Valid() && Fresh() && OneNlbits() && MapOf(m, View())
      requires forall i :: 0 <= i < |bytes| ==> Legal(m, Access(page, address + i, bytes[i]))
      modifies this, harts
      ensures harts == old(harts) && Valid() && Fresh() && OneNlbits()
      ensures View() == Stores(m, old(View()), Accesses(page, address, bytes))
    {
      ghost var run := Accesses(page, address, bytes);
      ghost var c := View();
      assert run[0..] == run;
      for i := 0 to |bytes|
        invariant harts == old(harts) && Valid() && Fresh() && OneNlbits()
        invariant c == View() && MapOf(m, c)
        invariant Stores(m, old(View()), run) == Stores(m, c, run[i..])
      {
        StoresUnfold(m, c, run, i);
        assert run[i] == Access(page, address + i, bytes[i]);
        WriteAt(m, Access(page, address + i, bytes[i]));
        c := Store(m, c, run[i]);
      }
    }
  }

  class ClicHart {
    const root: ClicRoot
    const absent: set<nat>
    const userInt: bool
    var ints: seq<IntState>
    var ip: seq<nat>
    var ipe: seq<nat>
    var trigFixed: seq<nat>
    var sel: Sel

    ghost predicate Valid(g: Global)
      reads this
    {
      g.Valid() && |ints| == g.cfg.intNum &&
      |ip| == (|ints| + 63) / 64 && |ipe| == |ip| && |trigFixed| == |ip| &&
      Words64(ipe) && ClearAbove(ipe, |ints|)
    }

    function View(): (h: Hart)
      reads this
      ensures h.Valid(|ints|)
    {
      Hart(ints, Flat(ip, |ints|), Flat(ipe, |ints|), Flat(trigFixed, |ints|), absent, userInt)
    }

    /** Allocate and fill the tables of a new hart. */
    constructor (root: ClicRoot, posedge: set<nat>, poslevel: set<nat>, absent: set<nat>, userInt: bool)
      requires root.G().Valid()
      ensures Valid(root.G()) && this.root == root
      ensures View() == InitHart(root.cfg, posedge, poslevel, absent, userInt)
      ensures sel == Presented(root.G(), View())
    {
      this.root := root;
      this.absent := absent;
      this.userInt := userInt;
      var words := (root.cfg.intNum + 63) / 64;
      var table, fixed := FillTables(root.cfg, words, posedge, poslevel);
      ints := table;
      trigFixed := fixed;
      ip := seq(words, w => 0);
      ipe := seq(words, w => 0);
      sel := NO_INT;
      new;
      forall i: nat ensures !InMask(ip, i) && !InMask(ipe, i) { ZeroHasNoBit(i % 64); }
      ShrOfZero(64);
      assert View() == InitHart(root.cfg, posedge, poslevel, absent, userInt);
      BestIsMaximum(root.G(), View(), root.cfg.intNum);
    }

    /** Default control bytes and the mask of fixed triggers. */
    static method FillTables(cfg: Config, words: nat, posedge: set<nat>, poslevel: set<nat>)
      returns (table: seq<IntState>, fixed: seq<nat>)
      requires cfg.Valid() && words == (cfg.intNum + 63) / 64
      ensures |fixed| == words
      ensures table == InitHart(cfg, posedge, poslevel, {}, false).ints
      ensures Flat(fixed, cfg.intNum) == InitHart(cfg, posedge, poslevel, {}, false).trigFixed
    {
      fixed := seq(words, w => 0);
      table := [];
      ghost var init := InitHart(cfg, posedge, poslevel, {}, false);
      forall i: nat ensures !InMask(fixed, i) { ZeroHasNoBit(i % 64); }
      ShrOfZero(64);
      for i := 0 to cfg.intNum
        invariant |fixed| == words && table == init.ints[..i]
        invariant forall j :: 0 <= j < cfg.intNum ==> InMask(fixed, j) == (j < i && init.trigFixed[j])
      {
        var trig: Two := 0;
        ghost var was := fixed;
        if i in posedge {
          fixed := PutMask(fixed, i, true);
          trig := 1;
        } else if i in poslevel {
          fixed := PutMask(fixed, i, true);
        }
        forall j | 0 <= j < cfg.intNum ensures InMask(fixed, j) == (j < i + 1 && init.trigFixed[j]) {
          InPutMask(was, i, true, j);
        }
        table := table + [IntState(false, false, Attr(false, trig, MODE_M), FillLow(0, 8 - cfg.ctlBits))];
      }
    }

    /** Bit i of mask word w: take its interrupt if it is set and ranks at least as high as the choice so far. */
    static method VisitBit(g: Global, h: Hart, w: nat, i: nat, pending: nat, maxRank0: nat, id0: int, priv0: Two,
                           ghost words: seq<nat>)
      returns (maxRank: nat, id: int, priv: Two)
      requires IsMask(words, h) && w < |words| && i <= 64 && pending == Shr(words[w], i) != 0
      requires Scanned(g, h, Min(64 * w + i, |h.ints|), maxRank0, id0, priv0)
      ensures Scanned(g, h, Min(64 * w + i + 1, |h.ints|), maxRank, id, priv)
      ensures i < 64 && pending / 2 == Shr(words[w], i + 1)
    {
      ScanBit(g, h, words, w, i, Min(64 * w + i, |h.ints|), maxRank0, id0, priv0);
      maxRank, id, priv := maxRank0, id0, priv0;
      if pending % 2 == 1 {
        var index := 64 * w + i;
        var mode := EffMode(g, h.ints[index].attr.mode);
        var rank := 256 * mode + h.ints[index].ctl;
        if maxRank <= rank {
          maxRank, id, priv := rank, index, mode;
        }
      }
    }

    /** Scan mask word w bit by bit, least significant first, until no bit is left. */
    static method ScanWord(g: Global, h: Hart, w: nat, word: nat, maxRank0: nat, id0: int, priv0: Two,
                           ghost words: seq<nat>)
      returns (maxRank: nat, id: int, priv: Two)
      requires IsMask(words, h) && w < |words| && word == words[w]
      requires Scanned(g, h, Min(64 * w, |h.ints|), maxRank0, id0, priv0)
      ensures Scanned(g, h, Min(64 * (w + 1), |h.ints|), maxRank, id, priv)
    {
      maxRank, id, priv := maxRank0, id0, priv0;
      var pending: nat := word;
      var i: nat := 0;
      while pending != 0
        invariant i <= 64 && pending == Shr(words[w], i)
        invariant Scanned(g, h, Min(64 * w + i, |h.ints|), maxRank, id, priv)
        decreases pending
      {
        maxRank, id, priv := VisitBit(g, h, w, i, pending, maxRank, id, priv, words);
        pending := pending / 2;
        i := i + 1;
      }
      WordDone(g, h, words, w, i, maxRank, id, priv);
    }

    /** Scan all words of the mask. */
    method Scan(g: Global) returns (id: int, priv: Two)
      requires Valid(g)
      ensures id == Best(g, View(), |ints|) && (id >= 0 ==> priv == ModeOf(g, View(), id))
    {
      var maxRank: nat := 0;
      var h := View();
      id, priv := -1, MODE_U;
      for w := 0 to |ipe|
        invariant h == View() && Scanned(g, h, Min(64 * w, |ints|), maxRank, id, priv)
      {
        maxRank, id, priv := ScanWord(g, h, w, ipe[w], maxRank, id, priv, ipe);
      }
    }

    /** Select the interrupt to present. */
    method Reselect(g: Global)
      requires Valid(g)
      modifies this`sel
      ensures Valid(g) && View() == old(View()) && sel == Presented(g, View())
    {
      var id, priv := Scan(g);
      if id < 0 {
        sel := NO_INT;
      } else {
        sel := Sel(priv, id, FillLow(ints[id].ctl, 8 - g.nlbits[priv]), ints[id].attr.shv);
      }
    }

    method UpdatePendingEnable(i: nat, b: bool)
      requires Valid(root.G()) && i < |ints|
      modifies this`ipe, this`sel
      ensures Valid(root.G())
      ensures View() == old(View()).(ipe := old(View()).ipe[i := b])
      ensures sel == Presented(root.G(), View())
    {
      FlatPut(ipe, |ints|, i, b);
      PutMaskKeepsWidth(ipe, i, b);
      forall j | |ints| <= j ensures !InMask(PutMask(ipe, i, b), j) { InPutMask(ipe, i, b, j); }
      ipe := PutMask(ipe, i, b);
      Reselect(root.G());
    }

    method StorePending(i: nat, newIP: bool, mayPendAny: bool)
      requires Valid(root.G()) && i < |ints| && sel == Presented(root.G(), View())
      modifies this`ints, this`ipe, this`sel
      ensures Valid(root.G()) && View() == WritePending(old(View()), i, newIP, mayPendAny)
      ensures sel == Presented(root.G(), View())
    {
      ghost var before := View();
      var oldIPE := InMask(ipe, i);
      if mayPendAny || ints[i].attr.Edge() {
        ints := ints[i := ints[i].(ip := newIP)];
      }
      PresentedIgnoresLatches(root.G(), before, View());
      var newIPE := ints[i].ie && newIP;
      if oldIPE != newIPE {
        UpdatePendingEnable(i, newIPE);
      }
      assert View().ipe == before.ipe[i := newIPE];
    }

    method StoreEnable(i: nat, newIE: bool)
      requires Valid(root.G()) && i < |ints| && sel == Presented(root.G(), View())
      modifies this`ints, this`ipe, this`sel
      ensures Valid(root.G()) && View() == WriteEnable(old(View()), i, newIE)
      ensures sel == Presented(root.G(), View())
    {
      ghost var before := View();
      var pending := ints[i].ip || (!ints[i].attr.Edge() && InMask(ip, i));
      var oldIPE := InMask(ipe, i);
      ints := ints[i := ints[i].(ie := newIE)];
      PresentedIgnoresLatches(root.G(), before, View());
      var newIPE := pending && newIE;
      if oldIPE != newIPE {
        UpdatePendingEnable(i, newIPE);
      }
      assert View().ipe == before.ipe[i := newIPE];
    }

    method StoreAttr(i: nat, v: Byte, page: Two)
      requires Valid(root.G()) && i < |ints| && sel == Presented(root.G(), View())
      modifies this`ints, this`sel
      ensures Valid(root.G()) && View() == WriteAttr(root.cfg, old(View()), i, v, page)
      ensures sel == Presented(root.G(), View())
    {
      var trig: Two := v / 2 % 4;
      if InMask(trigFixed, i) { trig := ints[i].attr.trig; }
      var shv := v % 2 == 1;
      if !root.cfg.selHVec { shv := false; }
      var a := Attr(shv, trig, LegalMode(root.cfg, userInt, v / 64, page));
      if ints[i].attr != a {
        ints := ints[i := ints[i].(attr := a)];
        Reselect(root.G());
      } else {
        assert ints == ints[i := ints[i].(attr := a)];
      }
    }

    method StoreCtl(i: nat, v: Byte)
      requires Valid(root.G()) && i < |ints| && sel == Presented(root.G(), View())
      modifies this`ints, this`sel
      ensures Valid(root.G()) && View() == WriteCtl(root.cfg, old(View()), i, v)
      ensures sel == Presented(root.G(), View())
    {
      var ctl := FillLow(v, 8 - root.cfg.ctlBits);
      if ints[i].ctl != ctl {
        ints := ints[i := ints[i].(ctl := ctl)];
        Reselect(root.G());
      } else {
        assert ints == ints[i := ints[i].(ctl := ctl)];
      }
    }

    /** Inaccessible interrupts read as zero. */
    method ReadInterrupt(d: Desc) returns (r: Byte)
      requires Valid(root.G()) && d.field != ClicConfig
      ensures r == if Accessible(root.G(), View(), d.index, d.mode) then FieldByte(View(), d.index, d.field) else 0
    {
      r := 0;
      var i := d.index;
      if i !in absent && i < |ints| && EffMode(root.G(), ints[i].attr.mode) <= d.mode {
        match d.field {
          case ClicIntIp => if ints[i].ip || (!ints[i].attr.Edge() && InMask(ip, i)) { r := 1; }
          case ClicIntIe => if ints[i].ie { r := 1; }
          case ClicIntAttr => r := ints[i].attr.Bits();
          case ClicIntCtl => r := ints[i].ctl;
        }
      }
    }

    method WriteInterrupt(d: Desc, v: Byte)
      requires Valid(root.G()) && d.field != ClicConfig && sel == Presented(root.G(), View())
      modifies this`ints, this`ipe, this`sel
      ensures Valid(root.G()) && View() == WriteField(root.G(), old(View()), d, v)
      ensures sel == Presented(root.G(), View())
    {
      if d.index !in absent && d.index < |ints| && EffMode(root.G(), ints[d.index].attr.mode) <= d.mode {
        match d.field {
          case ClicIntIp => StorePending(d.index, v % 2 == 1, root.cfg.mayPendLevel);
          case ClicIntIe => StoreEnable(d.index, v % 2 == 1);
          case ClicIntAttr => StoreAttr(d.index, v, d.mode);
          case ClicIntCtl => StoreCtl(d.index, v);
        }
      }
    }

    method AcknowledgeInt(i: nat)
      requires Valid(root.G()) && i < |ints| && sel == Presented(root.G(), View())
      modifies this`ints, this`ipe, this`sel
      ensures Valid(root.G()) && View() == Acknowledge(old(View()), i)
      ensures sel == Presented(root.G(), View())
    {
      if ints[i].attr.Edge() {
        StorePending(i, false, false);
      } else {
        Reselect(root.G());
      }
    }

    method InputChange(i: nat, b: bool)
      requires Valid(root.G()) && i < |ints| && sel == Presented(root.G(), View())
      modifies this`ip, this`ints, this`ipe, this`sel
      ensures Valid(root.G()) && View() == UpdateInput(old(View()), i, b)
      ensures sel == Presented(root.G(), View())
    {
      ghost var before := View();
      FlatPut(ip, |ints|, i, b);
      ip := PutMask(ip, i, b);
      PresentedIgnoresLatches(root.G(), before, View());
      var asserted := b != ints[i].attr.ActiveLow();
      if !ints[i].attr.Edge() || asserted {
        StorePending(i, asserted, false);
      }
    }

    /** Rebuild the mask after a restore. */
    method RefreshIpe()
      requires |ints| == root.cfg.intNum && |ip| == (|ints| + 63) / 64 && |ipe| == |ip|
      modifies this`ipe
      ensures View() == Refresh(old(View()))
      ensures Words64(ipe) && |ipe| == |ip| && ClearAbove(ipe, |ints|)
    {
      ghost var want := Refresh(View());
      ipe := seq(|ip|, w => 0);
      forall i: nat ensures !InMask(ipe, i) { ZeroHasNoBit(i % 64); }
      ShrOfZero(64);
      for i := 0 to |ints|
        invariant |ipe| == |ip| && Words64(ipe)
        invariant forall j: nat :: InMask(ipe, j) <==> j < i && want.ipe[j]
      {
        assert want.ipe[i] == ((ints[i].ip || (!ints[i].attr.Edge() && InMask(ip, i))) && ints[i].ie);
        if (ints[i].ip || (!ints[i].attr.Edge() && InMask(ip, i))) && ints[i].ie {
          SetMask(i);
        }
      }
      assert View().ipe == want.ipe;
    }

    /** Set one bit of the mask. */
    method SetMask(i: nat)
      requires Words64(ipe) && i / 64 < |ipe|
      modifies this`ipe
      ensures |ipe| == |old(ipe)| && Words64(ipe)
      ensures forall j: nat :: InMask(ipe, j) <==> j == i || InMask(old(ipe), j)
    {
      PutMaskKeepsWidth(ipe, i, true);
      ghost var was := ipe;
      ipe := PutMask(ipe, i, true);
      forall j: nat ensures InMask(ipe, j) <==> j == i || InMask(was, j) { InPutMask(was, i, true, j); }
    }
  }

  /** Latches, enables and inputs do not matter to the choice, only ipe, mode, clicintctl and shv do. */
  lemma PresentedIgnoresLatches(g: Global, h: Hart, h': Hart)
    requires g.Valid() && h.Valid(g.cfg.intNum) && h'.Valid(g.cfg.intNum) && h.ipe == h'.ipe
    requires forall i :: 0 <= i < |h.ints| ==> h.ints[i].attr == h'.ints[i].attr && h.ints[i].ctl == h'.ints[i].ctl
    ensures Presented(g, h') == Presented(g, h)
  {
    BestIgnoresLatches(g, h, h', |h.ints|);
  }

  lemma {:induction false} BestIgnoresLatches(g: Global, h: Hart, h': Hart, n: nat)
    requires n <= |h.ints| == |h'.ints| && n <= |h.ipe| && h.ipe == h'.ipe
    requires forall i :: 0 <= i < |h.ints| ==> h.ints[i].attr == h'.ints[i].attr && h.ints[i].ctl == h'.ints[i].ctl
    ensures Best(g, h', n) == Best(g, h, n)
  {
    if n > 0 { BestIgnoresLatches(g, h, h', n - 1); }
  }
}
