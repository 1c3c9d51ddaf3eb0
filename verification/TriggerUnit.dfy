/** The trigger registers as the processor holds them, written in place. */
module TriggerUnit {
  import opened Bits
  import opened BitFields
  import opened Tdata1
  import opened Triggers

  class TriggerRegisters {
    const setup: Setup
    var tselect: nat
    var triggers: array<Trigger>

    ghost function View(): (u: Unit)
      reads this, triggers
    {
      Unit(tselect, triggers[..])
    }

    constructor (setup: Setup, configured: seq<Trigger>)
      ensures this.setup == setup && View() == Unit(0, configured) && fresh(triggers)
    {
      this.setup := setup;
      tselect := 0;
      triggers := new Trigger[|configured|](i requires 0 <= i < |configured| => configured[i]);
    }

    /** Values beyond the implemented triggers are ignored. */
    method WriteTselect(a: Access, v: nat) returns (r: nat)
      requires View().Valid()
      modifies this`tselect
      ensures View() == Apply(setup, a, old(View()), Tselect(v)) && r == tselect
    {
      if v < triggers.Length { tselect := v; }
      r := tselect;
    }

    /**
     * Returns what tdata1 then reads as, except that a value which is not accepted is returned masked, though not
     * stored.
     */
    method WriteTdata1(a: Access, value: nat) returns (r: nat)
      requires View().Valid()
      modifies triggers
      ensures View() == Apply(setup, a, old(View()), Tdata1(value))
      ensures var w := Blend(value, Pack(setup.c1, old(triggers[tselect]).tdata1), setup.c1.mask, setup.c1.Xlen());
              r == if !MayWriteTrigger(a, old(triggers[tselect])) || Accepts(setup, a, old(View()), w)
                   then Pack(setup.c1, triggers[tselect].tdata1) else w
    {
      var c := setup.c1;
      var t := triggers[tselect];
      var before := Pack(c, t.tdata1);
      ghost var was := View();
      r := before;
      if MayWriteTrigger(a, t) {
        r := Blend(value, before, c.mask, c.Xlen());
        if TypeOf(c, r) in c.types {
          var n := Unpack(c, a.Privileged(), t.tdata1.matching, r);
          var chained := tselect > 0 && triggers[tselect - 1].tdata1.chain && !triggers[tselect - 1].tdata1.dmode;
          if a.artifact || !n.dmode || !chained {
            r := Pack(c, n);
            if r != before { triggers[tselect] := t.(tdata1 := n); }
          }
        }
      }
      assert View().triggers == Apply(setup, a, was, Tdata1(value)).triggers;
    }

    /** The new value is written through a mask that depends on the trigger type. */
    method WriteTdata2(a: Access, value: nat) returns (r: nat)
      requires View().Valid()
      modifies triggers
      ensures View() == Apply(setup, a, old(View()), Tdata2(value)) && r == triggers[tselect].tdata2
    {
      var t := triggers[tselect];
      ghost var was := View();
      if MayWriteTrigger(a, t) {
        var n := setup.c1.Xlen();
        var ones := Pow2(n) - 1;
        var v, mask := value, ones;
        if a.artifact {
        } else if t.tdata1.typ == TT_MCONTROL6 {
          if v == ones { v := Join(0, setup.c1.maskmax, ones); }
        } else if t.tdata1.typ == TT_INTERRUPT {
          mask := setup.interruptMask;
        } else if t.tdata1.typ == TT_EXCEPTION {
          mask := setup.exceptionMask;
        }
        BlendOnes(v, t.tdata2, n);
        triggers[tselect] := t.(tdata2 := Blend(v, t.tdata2, mask, n));
      }
      assert View().triggers == Apply(setup, a, was, Tdata2(value)).triggers;
      r := triggers[tselect].tdata2;
    }

    method ReadTdata2(a: Access) returns (r: nat)
      requires View().Valid()
      ensures r == Triggers.ReadTdata2(setup, a, triggers[tselect])
    {
      r := triggers[tselect].tdata2;
      if a.artifact {
      } else if triggers[tselect].tdata1.typ == TT_INTERRUPT {
        r := Blend(r, 0, setup.interruptMask, setup.c1.Xlen());
      } else if triggers[tselect].tdata1.typ == TT_EXCEPTION {
        r := Blend(r, 0, setup.exceptionMask, setup.c1.Xlen());
      }
    }

    method WriteTdata3(a: Access, value: nat) returns (r: nat)
      requires View().Valid()
      modifies triggers
      ensures View() == Apply(setup, a, old(View()), Tdata3(value))
      ensures r == Pack3(setup.c1.rv32, triggers[tselect].tdata3)
    {
      var t := triggers[tselect];
      ghost var was := View();
      if MayWriteTrigger(a, t) {
        triggers[tselect] := t.(tdata3 := Unpack3(setup.c1.rv32, setup.c3, value));
      }
      assert View().triggers == Apply(setup, a, was, Tdata3(value)).triggers;
      r := Pack3(setup.c1.rv32, triggers[tselect].tdata3);
    }

    method ResetOne(i: nat)
      requires View().Valid() && i < triggers.Length
      modifies this`tselect, triggers
      ensures View() == Unit(i, old(triggers[..])[i := ResetTrigger(setup, old(triggers[i]))])
    {
      ResetIsWrites(setup, View(), i);
      var _ := WriteTselect(ARTIFACT, i);
      var _ := WriteTdata1(ARTIFACT, ResetWord(setup.c1));
    }

    method ResetNext(i: nat, ghost todo: seq<Trigger>, ghost done: seq<Trigger>)
      requires i < triggers.Length == |todo| && tselect < triggers.Length && AllReset(setup, todo, done)
      requires triggers[..] == Partly(done, todo, i) && forall k :: 0 <= k < |todo| ==> todo[k].tdata1.matching < 16
      modifies this`tselect, triggers
      ensures triggers[..] == Partly(done, todo, i + 1) && tselect < triggers.Length
    {
      PartlyNext(setup, todo, done, i);
      ResetOne(i);
    }

    /** Every trigger is selected and its tdata1 reset, by artifact accesses. */
    method ResetTriggers()
      requires View().Valid()
      modifies this`tselect, triggers
      ensures View() == Reset(setup, old(View()))
    {
      ghost var todo, done := triggers[..], Reset(setup, View()).triggers;
      for i := 0 to triggers.Length
        invariant tselect < triggers.Length && triggers[..] == Partly(done, todo, i)
      {
        ResetNext(i, todo, done);
      }
      tselect := 0;
    }
  }

  lemma {:induction false} BlendOnes(a: nat, b: nat, n: nat)
    ensures Blend(a, b, Pow2(n) - 1, n) == Low(a, n)
  {
    if n > 0 {
      assert (Pow2(n) - 1) / 2 == Pow2(n - 1) - 1;
      BlendOnes(a / 2, b / 2, n - 1);
    }
  }
}
