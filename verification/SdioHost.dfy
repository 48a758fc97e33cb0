/** The shared state of the SDIO 3.0 host driver (src/bcmsdstd.c, src/bcmsdstd_linux.c): the request lock
    with its interrupt mask, and the retuning state machine. Every function on `Host` is one atomic step: a
    section under the spinlock, or a single read or write; the class is the driver running on its own. */
module SdioHost {
  import opened Bits

  /** Positions of `CLIENT_INTR` (0x100) and `HC_INTR_RETUNING` (0x1000) in the interrupt mask. */
  const CLIENT_BIT: nat := 8
  const RETUNING_BIT: nat := 12

  datatype Tune = Idle | Start | StartAfterDat | Ongoing
  datatype Check = PreData | PostData

  /** What records retune requests: the interrupt handler, the tuning timer and the tuning tasklet. All three
      read the tuning state, then the data state, then write; nothing keeps other processors out. */
  datatype Recorder = Interrupt | Timer | Tasklet

  /** How far a recorder is, and what it has read. */
  datatype View = Parked | SawTune(tune: Tune) | SawBoth(tune: Tune, moving: bool)

  datatype Host = Host(
    lockcount: nat, clientIntrEnabled: bool, intmask: uint16,
    tun: Tune, transferring: bool, tuningReqd: bool, tuningDisable: bool,
    taskletScheduled: bool, irq: View, timer: View, tasklet: View, assertFailed: bool)

  // ----- the interrupt mask -----

  function ClearBit(mask: uint16, b: nat): (r: uint16)
    requires b < 16
    ensures forall k: nat :: Bit(r, k) <==> Bit(mask, k) && k != b
  {
    OneBit(b);
    Powers();
    HighBitsClear(mask, 16);
    And(mask, Not(Shl(1, b), 16))
  }

  function SetBit(mask: uint16, b: nat): (r: uint16)
    requires b < 16
    ensures forall k: nat :: Bit(r, k) <==> Bit(mask, k) || k == b
  {
    OneBit(b);
    Powers();
    FitsIfClear(Shl(1, b), 16);
    OrFits(mask, Shl(1, b), 16);
    Or(mask, Shl(1, b))
  }

  predicate ClientEnabled(h: Host) { Bit(h.intmask, CLIENT_BIT) }

  // ----- locking, with `use_client_ints` on -----

  function DevIntrOff(h: Host): Host { h.(intmask := ClearBit(h.intmask, CLIENT_BIT)) }

  /** Records whether `ASSERT(sd->lockcount == 0)` failed. */
  function DevIntrOn(h: Host): Host
  {
    h.(intmask := SetBit(h.intmask, CLIENT_BIT), assertFailed := h.assertFailed || h.lockcount != 0)
  }

  /** `sdstd_lock`, once the lock is free. */
  function Lock(h: Host): Host
  {
    var g := DevIntrOff(h);
    g.(lockcount := g.lockcount + 1)
  }

  function Unlock(h: Host): Host
    requires h.lockcount > 0
  {
    var g := h.(lockcount := h.lockcount - 1);
    if g.lockcount == 0 && g.clientIntrEnabled then DevIntrOn(g) else g
  }

  function InterruptSet(h: Host, enable: bool): Host
  {
    var g := h.(clientIntrEnabled := enable);
    if enable && g.lockcount == 0 then DevIntrOn(g) else DevIntrOff(g)
  }

  /** The client interrupt is unmasked exactly when it is enabled and the lock is free. */
  predicate MaskAgrees(h: Host)
  {
    ClientEnabled(h) <==> h.clientIntrEnabled && h.lockcount == 0
  }

  /** Taking and releasing the lock gives the whole state back. */
  lemma LockRoundTrip(h: Host)
    requires h.lockcount == 0 && MaskAgrees(h)
    ensures Lock(h).lockcount > 0 && Unlock(Lock(h)) == h
  {
    hide Bit, ClearBit, SetBit;
    SameBits(Unlock(Lock(h)).intmask, h.intmask);
  }

  /** Enabling or disabling interrupts while the lock is held is the same, once it is released, as doing so
      with the lock free. */
  lemma SetWhileLocked(h: Host, enable: bool)
    requires h.lockcount == 0
    ensures var g := InterruptSet(Lock(h), enable); g.lockcount > 0 && Unlock(g) == InterruptSet(h, enable)
  {
    hide Bit, ClearBit, SetBit;
    SameBits(Unlock(InterruptSet(Lock(h), enable)).intmask, InterruptSet(h, enable).intmask);
  }

  // ----- retuning -----

  function ViewOf(h: Host, r: Recorder): View
  {
    match r
    case Interrupt => h.irq
    case Timer => h.timer
    case Tasklet => h.tasklet
  }

  function WithView(h: Host, r: Recorder, v: View): Host
  {
    match r
    case Interrupt => h.(irq := v)
    case Timer => h.(timer := v)
    case Tasklet => h.(tasklet := v)
  }

  /** A recorder runs in one place at a time, and the tasklet only when it has been scheduled. */
  predicate CanRecord(h: Host, r: Recorder)
  {
    ViewOf(h, r) == Parked && (r == Tasklet ==> h.taskletScheduled)
  }

  function RecordBegins(h: Host, r: Recorder): Host
  {
    WithView(if r == Tasklet then h.(taskletScheduled := false) else h, r, SawTune(h.tun))
  }

  function RecordLooks(h: Host, r: Recorder): Host
    requires ViewOf(h, r).SawTune?
  {
    WithView(h, r, SawBoth(ViewOf(h, r).tune, h.transferring))
  }

  /** What a recorder that found IDLE writes. */
  function Request(moving: bool): Tune { if moving then StartAfterDat else Start }

  /** The write, if any. The interrupt handler and the timer also schedule the tasklet for START. */
  function RecordEnds(h: Host, r: Recorder): Host
    requires ViewOf(h, r).SawBoth?
  {
    var v, g := ViewOf(h, r), WithView(h, r, Parked);
    if v.tune != Idle then g
    else g.(tun := Request(v.moving), taskletScheduled := g.taskletScheduled || (r != Tasklet && !v.moving))
  }

  /** The recorders touch neither lock nor mask nor the data state. */
  predicate SameLocking(h: Host, g: Host)
  {
    && g.lockcount == h.lockcount && g.clientIntrEnabled == h.clientIntrEnabled && g.intmask == h.intmask
    && g.transferring == h.transferring && g.assertFailed == h.assertFailed
    && g.tuningReqd == h.tuningReqd && g.tuningDisable == h.tuningDisable
  }

  lemma ReadsOnly(h: Host, r: Recorder)
    ensures SameLocking(h, RecordBegins(h, r)) && RecordBegins(h, r).tun == h.tun
    ensures ViewOf(h, r).SawTune? ==> SameLocking(h, RecordLooks(h, r)) && RecordLooks(h, r).tun == h.tun
  {
  }

  lemma WritesTune(h: Host, r: Recorder)
    requires ViewOf(h, r).SawBoth?
    ensures var v := ViewOf(h, r);
            && SameLocking(h, RecordEnds(h, r))
            && RecordEnds(h, r).tun == if v.tune == Idle then Request(v.moving) else h.tun
  {
  }

  /** The recorder's write comes too late: it found IDLE, but by now another state is there. */
  predicate Overtaken(h: Host, r: Recorder)
  {
    var v := ViewOf(h, r);
    v.SawBoth? && v.tune == Idle && h.tun != Idle && h.tun != Request(v.moving)
  }

  /** A recorder that nothing interrupts. */
  function RecordAll(h: Host, r: Recorder): Host
    requires CanRecord(h, r)
  {
    RecordEnds(RecordLooks(RecordBegins(h, r), r), r)
  }

  /** It is never overtaken, and puts a request on record from IDLE only. */
  lemma RecordAlone(h: Host, r: Recorder)
    requires CanRecord(h, r)
    ensures !Overtaken(RecordLooks(RecordBegins(h, r), r), r)
    ensures RecordAll(h, r).tun == if h.tun == Idle then Request(h.transferring) else h.tun
    ensures SameLocking(h, RecordAll(h, r)) && ViewOf(RecordAll(h, r), r) == Parked
    ensures ViewOf(RecordBegins(h, r), r).SawTune? && ViewOf(RecordLooks(RecordBegins(h, r), r), r).SawBoth?
  {
    match r
    case Interrupt =>
    case Timer =>
    case Tasklet =>
  }

  /** Requests that come before a tuning ends count once: a second recorder changes nothing. */
  lemma RecordTwice(h: Host, r: Recorder, q: Recorder)
    requires CanRecord(h, r) && CanRecord(RecordAll(h, r), q)
    ensures RecordAll(h, r).tun != Idle && RecordAll(RecordAll(h, r), q).tun == RecordAll(h, r).tun
  {
    hide CanRecord, RecordAll;
    RecordAlone(h, r);
    RecordAlone(RecordAll(h, r), q);
  }

  /** The entry section of `sdstd_3_start_tuning`, and whether tuning goes ahead. */
  function BeginTuning(h: Host): (Host, bool)
  {
    if h.tun == Ongoing then (h, false) else (h.(tun := Ongoing), true)
  }

  function EndTuning(h: Host): Host { h.(tun := Idle) }

  /** `sdstd_3_check_and_do_tuning`: whether it calls `sdstd_3_start_tuning`. */
  predicate MustTune(h: Host, c: Check)
  {
    !h.tuningDisable && h.tuningReqd && h.tun == if c == PreData then Start else StartAfterDat
  }

  // ----- the driver running on its own -----

  /** Two masks agree everywhere but at bit `b`. */
  ghost predicate SameBut(m0: nat, m1: nat, b: nat)
  {
    forall k: nat :: k != b ==> (Bit(m0, k) <==> Bit(m1, k))
  }

  lemma SameMask(m: nat)
    ensures SameBut(m, m, RETUNING_BIT)
  {
  }

  /** The mask around a request: locking and unlocking move only the client bit, which comes back. */
  lemma MaskBack(before: nat, locked: nat, moved: nat, after: nat)
    requires SameBut(before, locked, CLIENT_BIT) && SameBut(locked, moved, RETUNING_BIT)
    requires SameBut(moved, after, CLIENT_BIT) && Bit(after, CLIENT_BIT) == Bit(before, CLIENT_BIT)
    ensures SameBut(before, after, RETUNING_BIT)
    ensures moved == locked ==> after == before
    ensures Bit(after, RETUNING_BIT) == Bit(moved, RETUNING_BIT)
  {
    hide Bit;
    if moved == locked { SameBits(after, before); }
  }

  class Sdioh {
    var lockcount: nat
    var clientIntrEnabled: bool
    var intmask: uint16
    var sd3TunState: Tune
    var transferring: bool
    var sd3TuningReqd: bool
    var sd3TuningDisable: bool
    var taskletScheduled: bool
    ghost var assertFailed: bool

    /** Tunings carried out so far. */
    ghost var tunings: nat

    /** The state as the steps above see it, no recorder being under way. */
    ghost function Now(): Host
      reads this
    {
      Host(lockcount, clientIntrEnabled, intmask, sd3TunState, transferring, sd3TuningReqd, sd3TuningDisable,
           taskletScheduled, Parked, Parked, Parked, assertFailed)
    }

    ghost predicate Valid()
      reads this
    {
      && lockcount <= 1 && !assertFailed
      && (Bit(intmask, CLIENT_BIT) <==> clientIntrEnabled && lockcount == 0)
    }

    /** Between requests. */
    ghost predicate AtRest()
      reads this
    {
      Valid() && lockcount == 0 && !transferring && sd3TunState != Ongoing
    }

    /** Retune requests are served at all. */
    predicate Serving()
      reads this
    {
      !sd3TuningDisable && sd3TuningReqd
    }

    method SdstdDevintrOff()
      modifies this`intmask
      ensures intmask == ClearBit(old(intmask), CLIENT_BIT) && Now() == DevIntrOff(old(Now()))
      ensures !Bit(intmask, CLIENT_BIT) && SameBut(old(intmask), intmask, CLIENT_BIT)
    {
      hide Bit, ClearBit, SetBit;
      intmask := ClearBit(intmask, CLIENT_BIT);
    }

    method SdstdDevintrOn()
      modifies this`intmask, this`assertFailed
      ensures intmask == SetBit(old(intmask), CLIENT_BIT)
      ensures Bit(intmask, CLIENT_BIT) && SameBut(old(intmask), intmask, CLIENT_BIT)
      ensures assertFailed <==> old(assertFailed) || lockcount != 0
      ensures Now() == DevIntrOn(old(Now()))
    {
      hide Bit, ClearBit, SetBit;
      assertFailed := assertFailed || lockcount != 0;
      intmask := SetBit(intmask, CLIENT_BIT);
    }

    /** `sdstd_lock` when its wait ends. */
    method SdstdLock()
      requires Valid() && lockcount == 0
      modifies this`lockcount, this`intmask
      ensures Valid() && lockcount == 1 && SameBut(old(intmask), intmask, CLIENT_BIT)
      ensures Now() == Lock(old(Now()))
    {
      hide Bit, ClearBit, SetBit;
      SdstdDevintrOff();
      lockcount := lockcount + 1;
    }

    method SdstdUnlock()
      requires Valid() && lockcount > 0
      modifies this`lockcount, this`intmask, this`assertFailed
      ensures Valid() && lockcount == 0 && SameBut(old(intmask), intmask, CLIENT_BIT)
      ensures Now() == Unlock(old(Now()))
    {
      hide Bit, ClearBit, SetBit;
      lockcount := lockcount - 1;
      if lockcount == 0 && clientIntrEnabled {
        SdstdDevintrOn();
      }
    }

    /** The spinlocked section of `sdioh_interrupt_set`. */
    method SdiohInterruptSet(enable: bool)
      requires Valid()
      modifies this`clientIntrEnabled, this`intmask, this`assertFailed
      ensures Valid() && clientIntrEnabled == enable && SameBut(old(intmask), intmask, CLIENT_BIT)
      ensures Now() == InterruptSet(old(Now()), enable)
    {
      hide Bit, ClearBit, SetBit;
      clientIntrEnabled := enable;
      if enable && lockcount == 0 {
        SdstdDevintrOn();
      } else {
        SdstdDevintrOff();
      }
    }

    /** `sdstd_3_check_and_set_retuning` */
    method CheckAndSetRetuning() returns (schedule: bool)
      modifies this`sd3TunState
      ensures sd3TunState != Idle && (old(sd3TunState) != Idle ==> sd3TunState == old(sd3TunState) && !schedule)
      ensures old(sd3TunState) == Idle ==> sd3TunState == Request(transferring) && schedule == !transferring
    {
      if sd3TunState == Start || sd3TunState == Ongoing || sd3TunState == StartAfterDat {
        return false;
      }
      if !transferring {
        sd3TunState := Start;
        return true;
      } else {
        sd3TunState := StartAfterDat;
      }
      return false;
    }

    /** The retuning branch of `sdstd_isr`. */
    method SdstdIsr()
      requires Valid()
      modifies this`sd3TunState, this`taskletScheduled, this`intmask
      ensures Valid() && SameBut(old(intmask), intmask, RETUNING_BIT) && !Bit(intmask, RETUNING_BIT)
      ensures Now() == RecordAll(old(Now()), Interrupt).(intmask := intmask)
      ensures sd3TunState == if old(sd3TunState) == Idle then Request(transferring) else old(sd3TunState)
    {
      hide Bit, ClearBit, SetBit;
      var schedule := CheckAndSetRetuning();
      if schedule {
        taskletScheduled := true;
      }
      intmask := ClearBit(intmask, RETUNING_BIT);
    }

    /** `sdstd_3_start_tuning`; what the tuning itself reports is dropped. */
    method StartTuning()
      requires Valid() && lockcount == 1 && !transferring
      modifies this`sd3TunState, this`tunings
      ensures old(sd3TunState) != Ongoing ==> sd3TunState == Idle && tunings == old(tunings) + 1
      ensures old(sd3TunState) == Ongoing ==> sd3TunState == Ongoing && tunings == old(tunings)
    {
      if sd3TunState == Ongoing {
        return;
      }
      sd3TunState := Ongoing;
      tunings := tunings + 1;
      sd3TunState := Idle;
    }

    /** `sdstd_3_check_and_do_tuning`; the branch for an ongoing tuning only polls a register. */
    method CheckAndDoTuning(c: Check)
      requires Valid() && lockcount == 1 && !transferring && sd3TunState != Ongoing
      modifies this`sd3TunState, this`tunings
      ensures || (sd3TunState == Idle && tunings == old(tunings) + 1)
              || (sd3TunState == old(sd3TunState) && tunings == old(tunings))
      ensures tunings != old(tunings) <==>
                Serving() && old(sd3TunState) == if c == PreData then Start else StartAfterDat
    {
      if !sd3TuningDisable && sd3TuningReqd {
        if c == PreData {
          if sd3TunState == Ongoing {
          } else if sd3TunState == Start {
            StartTuning();
          }
        } else if sd3TunState == StartAfterDat {
          StartTuning();
        }
      }
    }

    /** `sdioh_request_word`, and `sdioh_request_buffer` alike, with or without a retuning interrupt while the
        data moves. It gives lock and interrupt mask back; while requests are served none is left on record,
        and each of the two kinds was served once. */
    method RequestWord(retune: bool)
      requires AtRest()
      modifies this`lockcount, this`intmask, this`sd3TunState, this`transferring, this`taskletScheduled,
               this`tunings, this`assertFailed
      ensures AtRest() && SameBut(old(intmask), intmask, RETUNING_BIT)
      ensures if retune then !Bit(intmask, RETUNING_BIT) else intmask == old(intmask)
      ensures Serving() ==> sd3TunState == Idle
      ensures Serving() ==>
                tunings == old(tunings) + (if old(sd3TunState) == Start then 1 else 0)
                         + (if old(sd3TunState) == StartAfterDat || retune then 1 else 0)
      ensures !Serving() ==> tunings == old(tunings) && (sd3TunState == Idle <==> old(sd3TunState) == Idle && !retune)
    {
      hide Bit, ClearBit, SetBit, Now, Lock, Unlock, RecordAll, SameBut;
      SdstdLock();
      ghost var locked := intmask;
      CheckAndDoTuning(PreData);
      transferring := true;
      if retune {
        SdstdIsr();
      } else {
        SameMask(intmask);
      }
      transferring := false;
      CheckAndDoTuning(PostData);
      ghost var moved := intmask;
      SdstdUnlock();
      MaskBack(old(intmask), locked, moved, intmask);
    }

    /** `sdioh_request_byte`: a write skips the check before the data, and a command that cannot be issued the
        one after it. Exactly those two leave a request on record. */
    method RequestByte(write: bool, issueFailed: bool, retune: bool)
      requires AtRest()
      modifies this`lockcount, this`intmask, this`sd3TunState, this`transferring, this`taskletScheduled,
               this`tunings, this`assertFailed
      ensures AtRest() && SameBut(old(intmask), intmask, RETUNING_BIT)
      ensures if retune then !Bit(intmask, RETUNING_BIT) else intmask == old(intmask)
      ensures Serving() ==>
                (sd3TunState != Idle <==>
                 || (write && old(sd3TunState) == Start)
                 || (issueFailed && (retune || old(sd3TunState) == StartAfterDat)))
      ensures Serving() ==>
                tunings == old(tunings) + (if !write && old(sd3TunState) == Start then 1 else 0)
                         + (if !issueFailed && (old(sd3TunState) == StartAfterDat
                                                || (retune && !(write && old(sd3TunState) == Start)))
                            then 1 else 0)
      ensures !Serving() ==> tunings == old(tunings) && (sd3TunState == Idle <==> old(sd3TunState) == Idle && !retune)
    {
      hide Bit, ClearBit, SetBit, Now, Lock, Unlock, RecordAll, SameBut;
      SdstdLock();
      ghost var locked := intmask;
      if !write {
        CheckAndDoTuning(PreData);
      }
      transferring := true;
      if retune {
        SdstdIsr();
      } else {
        SameMask(intmask);
      }
      transferring := false;
      if !issueFailed {
        CheckAndDoTuning(PostData);
      }
      ghost var moved := intmask;
      SdstdUnlock();
      MaskBack(old(intmask), locked, moved, intmask);
    }
  }
}
