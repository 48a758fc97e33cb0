/** The cached backplane address window of src/bcmsdh.c: `bcmsdhsdio_set_sbaddr_window` and the register
    and buffer accessors that go through it. Whether each configuration write succeeds, and what a failed
    one leaves in the device register, is decided by the environment. */
module BackplaneWindow {
  import opened Bits
  import opened Wrappers

  const OFT_LIMIT: nat := 0x8000
  const ACCESS_2_4B_FLAG: nat := 0x8000
  const RETRY_LIMIT: nat := 2

  /** One attempt to write a configuration register; a failed one may leave anything behind. */
  datatype Outcome = Done | Failed(left: byte)

  /** The attempts made for the three window registers in one call. */
  datatype Tries = Tries(low: seq<Outcome>, mid: seq<Outcome>, high: seq<Outcome>)

  predicate Complete(t: Tries)
  {
    |t.low| == RETRY_LIMIT + 1 && |t.mid| == RETRY_LIMIT + 1 && |t.high| == RETRY_LIMIT + 1
  }

  /** The host's cached window and the device's three window registers. */
  datatype State = State(sbwad: uint32, low: byte, mid: byte, high: byte)

  /** `address & ~SBSDIO_SB_OFT_ADDR_MASK` and `address & SBSDIO_SB_OFT_ADDR_MASK` */
  function WindowOf(address: uint32): (w: uint32) { address - address % OFT_LIMIT }
  function OffsetOf(address: uint32): (o: nat)
    ensures o < OFT_LIMIT
  {
    address % OFT_LIMIT
  }

  /** The register bytes the code derives from an address. */
  function LowByte(address: uint32): byte { 128 * (address / 0x8000 % 2) }
  function MidByte(address: uint32): byte { address / 0x1_0000 % 256 }
  function HighByte(address: uint32): byte { address / 0x100_0000 % 256 }

  /** The window the device decodes from its registers. */
  function DeviceWindow(s: State): nat
  {
    0x100_0000 * (s.high as int) + 0x1_0000 * (s.mid as int) + 0x100 * (s.low as int)
  }

  /** The three bytes spell the window. */
  lemma BytesSpellWindow(address: uint32)
    ensures 0x100_0000 * (HighByte(address) as int) + 0x1_0000 * (MidByte(address) as int)
              + 0x100 * (LowByte(address) as int) == WindowOf(address)
  {
    var q := address / 0x8000;
    assert address / 0x1_0000 == q / 2 && address / 0x100_0000 == q / 512;
    assert WindowOf(address) == 0x8000 * q;
    assert q == 512 * (q / 512) + 2 * (q / 2 % 256) + q % 2;
  }

  // ----- setting the window -----

  predicate AllFail(tries: seq<Outcome>) { forall i :: 0 <= i < |tries| ==> tries[i].Failed? }

  /** `bcmsdh_cfg_write`: the register after the attempts, and whether all failed. */
  function CfgWrite(reg: byte, data: byte, tries: seq<Outcome>): (r: (byte, bool))
    ensures !r.1 ==> r.0 == data
    ensures r.1 <==> AllFail(tries)
    ensures r.1 && tries != [] ==> tries[|tries| - 1].Failed? && r.0 == tries[|tries| - 1].left
    decreases |tries|
  {
    if tries == [] then (reg, true)
    else match tries[0]
         case Done => (data, false)
         case Failed(left) => CfgWrite(left, data, tries[1..])
  }

  /** Whether the code writes the registers at all. */
  predicate Programs(s: State, address: uint32, force: bool)
  {
    WindowOf(address) != s.sbwad || force
  }

  /** `bcmsdhsdio_set_sbaddr_window`: the state after it, and whether it failed. */
  function SetWindow(s: State, address: uint32, force: bool, t: Tries): (r: (State, bool))
  {
    if !Programs(s, address, force) then (s, false)
    else
      var l := CfgWrite(s.low, LowByte(address), t.low);
      if l.1 then (s.(low := l.0, sbwad := 0), true)
      else
        var m := CfgWrite(s.mid, MidByte(address), t.mid);
        if m.1 then (s.(low := l.0, mid := m.0, sbwad := 0), true)
        else
          var h := CfgWrite(s.high, HighByte(address), t.high);
          (State(if h.1 then 0 else WindowOf(address), l.0, m.0, h.0), h.1)
  }

  /** A call fails exactly when it has to write the registers and one of them takes no write; it leaves the cache
      invalid then. Otherwise cache and device have the window asked for if it wrote, and nothing changes if it
      did not. */
  lemma SetWindowExactly(s: State, address: uint32, force: bool, t: Tries)
    ensures var r := SetWindow(s, address, force, t);
            var writes := WindowOf(address) != s.sbwad || force;
            && (r.1 <==> writes && (AllFail(t.low) || AllFail(t.mid) || AllFail(t.high)))
            && (r.1 ==> r.0.sbwad == 0)
            && (writes && !r.1 ==> r.0.sbwad == WindowOf(address) && DeviceWindow(r.0) == WindowOf(address))
            && (!writes ==> r.0 == s)
            && (AllFail(t.low) ==> r.0.mid == s.mid && r.0.high == s.high)
            && (AllFail(t.mid) ==> r.0.high == s.high)
  {
    hide AllFail;
    BytesSpellWindow(address);
  }

  /** Once a call has succeeded on a cache that is right, calls for the same window neither write nor fail. */
  lemma SetWindowOnce(s: State, a: uint32, b: uint32, force: bool, t: Tries, u: Tries)
    requires !SetWindow(s, a, force, t).1 && WindowOf(b) == WindowOf(a)
    ensures var n := SetWindow(s, a, force, t).0; SetWindow(n, b, false, u) == (n, false)
  {
  }

  /** A non-zero cached window is the device's window. */
  predicate CacheHonest(s: State)
  {
    s.sbwad != 0 ==> s.sbwad == DeviceWindow(s)
  }

  lemma SetWindowKeeps(s: State, address: uint32, force: bool, t: Tries)
    requires CacheHonest(s)
    ensures CacheHonest(SetWindow(s, address, force, t).0)
  {
    BytesSpellWindow(address);
  }

  /** After a call that reports success the device has the window asked for, except in one case: the zero
      window asked for without `force`, while the cache is invalid and the device is elsewhere. */
  lemma SetWindowReaches(s: State, address: uint32, force: bool, t: Tries)
    requires CacheHonest(s) && !SetWindow(s, address, force, t).1
    ensures DeviceWindow(SetWindow(s, address, force, t).0) == WindowOf(address) <==>
            WindowOf(address) != 0 || force || s.sbwad != 0 || DeviceWindow(s) == 0
  {
    BytesSpellWindow(address);
  }

  // ----- accesses -----

  datatype Kind = RegRead(size: nat) | RegWrite(size: nat) | RecvBuf(flags: nat) | SendBuf(flags: nat)

  /** A transfer put on the bus: the address asked for, the address bits issued and the backplane address
      the device forms from them. */
  datatype Transfer = Transfer(wanted: uint32, issued: nat, reached: nat)

  /** An asynchronous buffer request is refused before the window is touched. */
  predicate Refused(k: Kind)
  {
    (k.RecvBuf? || k.SendBuf?) && k.flags / 4 % 2 == 1
  }

  /** Only the register accessors honour `force_sbwad_calc`. */
  predicate Forces(k: Kind, forceCalc: bool)
  {
    (k.RegRead? || k.RegWrite?) && forceCalc
  }

  /** Whether the access asks for 4-byte backplane width. */
  predicate Wide(k: Kind)
  {
    if k.RegRead? || k.RegWrite? then k.size == 4 else k.flags % 2 == 1
  }

  /** What the device reaches: its window and the 15 offset bits issued. */
  function Reached(s: State, issued: nat): nat { DeviceWindow(s) + issued % OFT_LIMIT }

  function Issue(s: State, address: uint32, k: Kind): Transfer
  {
    var issued := OffsetOf(address) + if Wide(k) then ACCESS_2_4B_FLAG else 0;
    Transfer(address, issued, Reached(s, issued))
  }

  /** One access: the state after it and the transfer issued, if the window could be set. */
  function Access(s: State, address: uint32, k: Kind, forceCalc: bool, t: Tries): (State, Option<Transfer>)
  {
    if Refused(k) then (s, None)
    else
      var w := SetWindow(s, address, Forces(k, forceCalc), t);
      if w.1 then (w.0, None) else (w.0, Some(Issue(w.0, address, k)))
  }

  lemma IssueReaches(s: State, address: uint32, k: Kind)
    ensures Issue(s, address, k).wanted == address
    ensures Issue(s, address, k).reached == DeviceWindow(s) + OffsetOf(address)
    ensures address == WindowOf(address) + OffsetOf(address)
  {
    var o := OffsetOf(address);
    assert (o + ACCESS_2_4B_FLAG) % OFT_LIMIT == o && o % OFT_LIMIT == o;
  }

  /** The only access that can go astray: the zero window, not forced, on an invalid cache, with the device
      somewhere else. */
  predicate Astray(s: State, address: uint32, k: Kind, forceCalc: bool)
  {
    WindowOf(address) == 0 && !Forces(k, forceCalc) && s.sbwad == 0 && DeviceWindow(s) != 0
  }

  /** A transfer reaches exactly the address asked for, with that one exception. */
  lemma AccessReaches(s: State, address: uint32, k: Kind, forceCalc: bool, t: Tries)
    requires CacheHonest(s)
    ensures CacheHonest(Access(s, address, k, forceCalc, t).0)
    ensures var sent := Access(s, address, k, forceCalc, t).1;
            sent.Some? ==> sent.value.wanted == address &&
                           (sent.value.reached == address <==> !Astray(s, address, k, forceCalc))
  {
    hide WindowOf, OffsetOf, DeviceWindow, CfgWrite, CacheHonest, SetWindow, Reached;
    SetWindowKeeps(s, address, Forces(k, forceCalc), t);
    var w := SetWindow(s, address, Forces(k, forceCalc), t);
    if !Refused(k) && !w.1 {
      SetWindowReaches(s, address, Forces(k, forceCalc), t);
      IssueReaches(w.0, address, k);
    }
  }

  /** The exception is real: a failed switch invalidates the cache as 0, and the next access to the zero
      window then trusts it. */
  lemma ZeroWindowMiss()
    ensures var s0 := State(0x1800_0000, 0, 0, 0x18);
            var fail := [Failed(0), Failed(0), Failed(0)];
            var s1 := Access(s0, 0x1801_0000, RegRead(4), false, Tries([Done, Done, Done], fail, fail)).0;
            var r := Access(s1, 0x10, RegRead(4), false, Tries(fail, fail, fail));
            CacheHonest(s0) && r.1.Some? && r.1.value.wanted == 0x10 && r.1.value.reached == 0x1800_0010
  {
    var s0 := State(0x1800_0000, 0, 0, 0x18);
    var fail := [Failed(0), Failed(0), Failed(0)];
    var s1 := Access(s0, 0x1801_0000, RegRead(4), false, Tries([Done, Done, Done], fail, fail)).0;
    assert fail[1..] == [Failed(0), Failed(0)] && fail[1..][1..] == [Failed(0)] && fail[1..][1..][1..] == [];
    assert CfgWrite(0, 1, fail) == (0, true);
    assert s1 == State(0, 0, 0, 0x18);
  }

  datatype Request = Request(address: uint32, kind: Kind, forceCalc: bool, tries: Tries)

  /** A whole run: the final state and the transfers issued, in order. */
  function Run(s: State, rs: seq<Request>): (State, seq<Transfer>)
  {
    if rs == [] then (s, [])
    else
      var r := rs[|rs| - 1];
      var before := Run(s, rs[..|rs| - 1]);
      var a := Access(before.0, r.address, r.kind, r.forceCalc, r.tries);
      (a.0, before.1 + if a.1.Some? then [a.1.value] else [])
  }

  /** Over every run from an honest cache, whatever writes fail, the cache stays honest and every transfer
      for an address outside the zero window reaches exactly that address. */
  lemma {:induction false} RunReaches(s: State, rs: seq<Request>)
    requires CacheHonest(s)
    ensures CacheHonest(Run(s, rs).0)
    ensures forall i :: 0 <= i < |Run(s, rs).1| ==>
              var x := Run(s, rs).1[i]; WindowOf(x.wanted) != 0 ==> x.reached == x.wanted
    decreases |rs|
  {
    hide Access, CacheHonest;
    if rs == [] {
    } else {
      var r := rs[|rs| - 1];
      var before := Run(s, rs[..|rs| - 1]);
      RunReaches(s, rs[..|rs| - 1]);
      AccessReaches(before.0, r.address, r.kind, r.forceCalc, r.tries);
    }
  }

  // ----- runs in which the registers can be written -----

  /** Every register takes one of the attempts. */
  predicate Writable(t: Tries) { !AllFail(t.low) && !AllFail(t.mid) && !AllFail(t.high) }

  /** The accesses that are not refused. */
  function Taken(rs: seq<Request>): nat
  {
    if rs == [] then 0 else Taken(rs[..|rs| - 1]) + if Refused(rs[|rs| - 1].kind) then 0 else 1
  }

  /** From a cache that names the device's window, as long as the registers can be written: every access that is
      not refused becomes one transfer, every transfer reaches its address, the zero window included, and the
      cache goes on naming the device's window. */
  lemma {:induction false} HealthyRunReaches(s: State, rs: seq<Request>)
    requires s.sbwad == DeviceWindow(s) && forall i :: 0 <= i < |rs| ==> Writable(rs[i].tries)
    ensures var r := Run(s, rs);
            && r.0.sbwad == DeviceWindow(r.0) && |r.1| == Taken(rs)
            && forall i :: 0 <= i < |r.1| ==> r.1[i].reached == r.1[i].wanted
    decreases |rs|
  {
    hide Access, DeviceWindow, Writable;
    if rs == [] {
    } else {
      var r := rs[|rs| - 1];
      HealthyRunReaches(s, rs[..|rs| - 1]);
      HealthyAccess(Run(s, rs[..|rs| - 1]).0, r);
    }
  }

  lemma HealthyAccess(s: State, r: Request)
    requires s.sbwad == DeviceWindow(s) && Writable(r.tries)
    ensures var a := Access(s, r.address, r.kind, r.forceCalc, r.tries);
            && a.0.sbwad == DeviceWindow(a.0) && (a.1.None? <==> Refused(r.kind))
            && (a.1.Some? ==> a.1.value.wanted == r.address && a.1.value.reached == r.address)
  {
    hide WindowOf, OffsetOf, DeviceWindow, AllFail, SetWindow, Issue, Refused, Forces;
    var force := Forces(r.kind, r.forceCalc);
    SetWindowExactly(s, r.address, force, r.tries);
    IssueReaches(SetWindow(s, r.address, force, r.tries).0, r.address, r.kind);
  }

  // ----- the driver object -----

  class Bcmsdh {
    var sbwad: uint32
    var regfail: bool
    var forceSbwadCalc: bool

    /** The device's registers, and the transfers it has seen. */
    var low: byte
    var mid: byte
    var high: byte
    ghost var bus: seq<Transfer>

    function Now(): State
      reads this
    {
      State(sbwad, low, mid, high)
    }

    /** The cache is honest and no transfer outside the zero window has gone astray. */
    ghost predicate Valid()
      reads this
    {
      && CacheHonest(Now())
      && forall i :: 0 <= i < |bus| ==> WindowOf(bus[i].wanted) != 0 ==> bus[i].reached == bus[i].wanted
    }

    /** The retry loop of `bcmsdh_cfg_write` on a register that holds `reg`. */
    method Write(reg0: byte, data: byte, tries: seq<Outcome>) returns (reg: byte, err: bool)
      requires |tries| == RETRY_LIMIT + 1
      ensures (reg, err) == CfgWrite(reg0, data, tries)
    {
      var retry := 0;
      reg := reg0;
      err := true;
      while retry <= RETRY_LIMIT
        invariant retry <= RETRY_LIMIT + 1 && err
        invariant CfgWrite(reg0, data, tries) == CfgWrite(reg, data, tries[retry..])
      {
        assert tries[retry..][1..] == tries[retry + 1..];
        match tries[retry] {
          case Done =>
            return data, false;
          case Failed(left) =>
            reg := left;
        }
        retry := retry + 1;
      }
    }

    /** `bcmsdhsdio_set_sbaddr_window` */
    method SetSbaddrWindow(address: uint32, forceSet: bool, t: Tries) returns (err: bool)
      requires Complete(t)
      modifies this`sbwad, this`low, this`mid, this`high
      ensures (Now(), err) == SetWindow(old(Now()), address, forceSet, t)
      ensures err ==> sbwad == 0
      ensures !err ==> sbwad == WindowOf(address)
      ensures !err && (forceSet || old(sbwad) != WindowOf(address)) ==> DeviceWindow(Now()) == WindowOf(address)
      ensures !forceSet && old(sbwad) == WindowOf(address) ==> !err && Now() == old(Now())
    {
      SetWindowExactly(Now(), address, forceSet, t);
      err := false;
      var bar0 := WindowOf(address);
      if bar0 != sbwad || forceSet {
        low, err := Write(low, LowByte(address), t.low);
        if !err {
          mid, err := Write(mid, MidByte(address), t.mid);
        }
        if !err {
          high, err := Write(high, HighByte(address), t.high);
        }
        if !err {
          sbwad := bar0;
        } else {
          sbwad := 0;
        }
      }
    }

    /** Common to the accessors once the window is set: mask the address, add the width flag, issue. */
    method Send(address: uint32, k: Kind)
      modifies this`bus
      ensures bus == old(bus) + [Issue(Now(), address, k)]
      ensures bus[|old(bus)|].wanted == address && bus[|old(bus)|].issued % 0x8000 == address % 0x8000
      ensures bus[|old(bus)|].issued / 0x8000 == if Wide(k) then 1 else 0
    {
      var addr := OffsetOf(address);
      if Wide(k) {
        addr := addr + ACCESS_2_4B_FLAG;
      }
      bus := bus + [Transfer(address, addr, Reached(Now(), addr))];
    }

    /** What one access may do to the object: the state and the bus follow the specification. */
    twostate predicate Accessed(address: uint32, k: Kind, forceCalc: bool, t: Tries)
      reads this
    {
      var r := Access(old(Now()), address, k, forceCalc, t);
      Now() == r.0 && bus == old(bus) + if r.1.Some? then [r.1.value] else []
    }

    /** The last transfer is for this address, with its offset bits, and the flag bit above them for a 4-byte
        access. */
    ghost predicate SentTo(address: uint32, wide: bool)
      reads this
    {
      bus != [] && bus[|bus| - 1].wanted == address &&
      bus[|bus| - 1].issued == address % 0x8000 + if wide then 0x8000 else 0
    }

    /** `bcmsdh_reg_read`; `ok` and `word` are the bus's answer. */
    method ReadReg(address: uint32, size: nat, t: Tries, ok: bool, word: uint32) returns (value: uint32)
      requires Valid() && Complete(t)
      modifies this
      ensures Valid() && Accessed(address, RegRead(size), old(forceSbwadCalc), t)
      ensures forceSbwadCalc == old(forceSbwadCalc)
      ensures bus != old(bus) ==>
                SentTo(address, size == 4) && (forceSbwadCalc ==> DeviceWindow(Now()) == WindowOf(address))
      ensures !regfail <==> bus != old(bus) && ok && (size == 1 || size == 2 || size == 4)
      ensures regfail ==> value == UINT32_MAX
      ensures !regfail ==> value == if size == 1 then word % 0x100 else if size == 2 then word % 0x1_0000 else word
    {
      AccessReaches(Now(), address, RegRead(size), forceSbwadCalc, t);
      var err := SetSbaddrWindow(address, forceSbwadCalc, t);
      if err {
        regfail := true;
        return UINT32_MAX;
      }
      Send(address, RegRead(size));
      regfail := !ok;
      if ok {
        match size {
          case 1 => return word % 0x100;
          case 2 => return word % 0x1_0000;
          case 4 => return word;
          case _ => regfail := true;
        }
      }
      value := UINT32_MAX;
    }

    /** `bcmsdh_reg_write` */
    method WriteReg(address: uint32, size: nat, t: Tries, ok: bool) returns (failed: bool)
      requires Valid() && Complete(t)
      modifies this
      ensures Valid() && Accessed(address, RegWrite(size), old(forceSbwadCalc), t)
      ensures forceSbwadCalc == old(forceSbwadCalc) && regfail == failed
      ensures bus != old(bus) ==>
                SentTo(address, size == 4) && (forceSbwadCalc ==> DeviceWindow(Now()) == WindowOf(address))
      ensures !failed <==> bus != old(bus) && ok
    {
      AccessReaches(Now(), address, RegWrite(size), forceSbwadCalc, t);
      var err := SetSbaddrWindow(address, forceSbwadCalc, t);
      if err {
        regfail := true;
        return true;
      }
      Send(address, RegWrite(size));
      regfail := !ok;
      failed := !ok;
    }

    /** `bcmsdh_recv_buf` and `bcmsdh_send_buf`: never forced, and `regfail` is left alone. */
    method Buffer(address: uint32, k: Kind, t: Tries, ok: bool) returns (failed: bool)
      requires Valid() && Complete(t) && (k.RecvBuf? || k.SendBuf?)
      modifies this`sbwad, this`low, this`mid, this`high, this`bus
      ensures Valid() && Accessed(address, k, forceSbwadCalc, t)
      ensures k.flags / 4 % 2 == 1 ==> failed && Now() == old(Now()) && bus == old(bus)
      ensures bus != old(bus) ==> SentTo(address, k.flags % 2 == 1)
      ensures old(sbwad) == WindowOf(address) ==> Now() == old(Now())
      ensures !failed <==> bus != old(bus) && ok
    {
      AccessReaches(Now(), address, k, forceSbwadCalc, t);
      if k.flags / 4 % 2 == 1 {
        return true;
      }
      var err := SetSbaddrWindow(address, false, t);
      if err {
        return true;
      }
      Send(address, k);
      failed := !ok;
    }
  }
}
