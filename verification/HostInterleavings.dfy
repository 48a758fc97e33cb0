/** Every interleaving of any number of request threads with interrupt enabling and with the three recorders of
    retune requests, on any number of processors, over the shared state of module `SdioHost`. */
module HostInterleavings {
  import opened Bits
  import opened Wrappers
  import opened SdioHost

  /** The requests that take the lock. `Plain` stands for those that touch neither tuning nor data state,
      such as reading the CIS. */
  datatype Kind = ByteRead | ByteWrite | Word | Buffer | Plain

  /** Where a thread is in its request. `Entering` and `Tuning` are inside `sdstd_3_start_tuning`, called
      by the check before or after the data. */
  datatype Pc =
    | Out
    | Locked(kind: Kind)
    | Entering(kind: Kind, check: Check)
    | Tuning(kind: Kind, check: Check)
    | Ready(kind: Kind)
    | Moving(kind: Kind)
    | Moved(kind: Kind)
    | Leaving(kind: Kind)

  /** The whole system; `owner` is the thread holding the lock. */
  datatype System = System(h: Host, pcs: seq<Pc>, owner: Option<nat>)

  datatype Step =
    | Acquire(t: nat, kind: Kind)
    | CheckBefore(t: nat)
    | EnterTuning(t: nat)
    | FinishTuning(t: nat, worked: bool)
    | BeginData(t: nat)
    | EndData(t: nat, issueFailed: bool)
    | CheckAfter(t: nat)
    | Release(t: nat)
    | SetInterrupts(enable: bool)
    | OtherInterrupts(mask: uint16)
    | Configure(reqd: bool, disable: bool)
    | BeginRecord(r: Recorder)
    | LookRecord(r: Recorder)
    | EndRecord(r: Recorder)

  /** `n` threads outside any request, the lock free, client interrupts disabled. */
  function Initial(n: nat, mask: uint16, reqd: bool, disable: bool): System
  {
    System(Host(0, false, mask, Idle, false, reqd, disable, false, Parked, Parked, Parked, false),
           seq(n, _ => Out), None)
  }

  /** Where a request goes after a tuning call. */
  function AfterTuning(k: Kind, c: Check): Pc { if c == PreData then Ready(k) else Leaving(k) }

  /** Whether a step can happen: a thread that wants the lock waits until it is free. `OtherInterrupts` is any
      change of the mask outside the client bit, such as that of the interrupt handler. */
  predicate CanStep(s: System, a: Step)
  {
    match a
    case Acquire(t, _) => t < |s.pcs| && s.pcs[t] == Out && s.h.lockcount == 0
    case CheckBefore(t) => t < |s.pcs| && s.pcs[t].Locked?
    case EnterTuning(t) => t < |s.pcs| && s.pcs[t].Entering?
    case FinishTuning(t, _) => t < |s.pcs| && s.pcs[t].Tuning?
    case BeginData(t) => t < |s.pcs| && s.pcs[t].Ready?
    case EndData(t, _) => t < |s.pcs| && s.pcs[t].Moving?
    case CheckAfter(t) => t < |s.pcs| && s.pcs[t].Moved?
    case Release(t) => t < |s.pcs| && s.pcs[t].Leaving? && s.h.lockcount > 0
    case OtherInterrupts(mask) => Bit(mask, CLIENT_BIT) == ClientEnabled(s.h)
    case BeginRecord(r) => CanRecord(s.h, r)
    case LookRecord(r) => ViewOf(s.h, r).SawTune?
    case EndRecord(r) => ViewOf(s.h, r).SawBoth?
    case _ => true
  }

  /** The effect of a step. The request programs: a byte write skips the check before the data, a byte
      request whose command could not be issued skips the one after. Whether a tuning worked is dropped. */
  function Apply(s: System, a: Step): System
    requires CanStep(s, a)
  {
    match a
    case Acquire(t, k) => s.(h := Lock(s.h), pcs := s.pcs[t := Locked(k)], owner := Some(t))
    case CheckBefore(t) =>
      var k := s.pcs[t].kind;
      s.(pcs := s.pcs[t := if k == Plain then Leaving(k)
                           else if k != ByteWrite && MustTune(s.h, PreData) then Entering(k, PreData)
                           else Ready(k)])
    case EnterTuning(t) =>
      var b := BeginTuning(s.h);
      var pc := s.pcs[t];
      s.(h := b.0, pcs := s.pcs[t := if b.1 then Tuning(pc.kind, pc.check) else AfterTuning(pc.kind, pc.check)])
    case FinishTuning(t, _) =>
      s.(h := EndTuning(s.h), pcs := s.pcs[t := AfterTuning(s.pcs[t].kind, s.pcs[t].check)])
    case BeginData(t) => s.(h := s.h.(transferring := true), pcs := s.pcs[t := Moving(s.pcs[t].kind)])
    case EndData(t, failed) =>
      var k := s.pcs[t].kind;
      s.(h := s.h.(transferring := false),
         pcs := s.pcs[t := if failed && (k == ByteRead || k == ByteWrite) then Leaving(k) else Moved(k)])
    case CheckAfter(t) =>
      var k := s.pcs[t].kind;
      s.(pcs := s.pcs[t := if MustTune(s.h, PostData) then Entering(k, PostData) else Leaving(k)])
    case Release(t) => s.(h := Unlock(s.h), pcs := s.pcs[t := Out], owner := None)
    case SetInterrupts(e) => s.(h := InterruptSet(s.h, e))
    case OtherInterrupts(mask) => s.(h := s.h.(intmask := mask))
    case Configure(r, d) => s.(h := s.h.(tuningReqd := r, tuningDisable := d))
    case BeginRecord(r) => s.(h := RecordBegins(s.h, r))
    case LookRecord(r) => s.(h := RecordLooks(s.h, r))
    case EndRecord(r) => s.(h := RecordEnds(s.h, r))
  }

  // ----- the invariant -----

  predicate LockInv(s: System)
  {
    && (s.owner.Some? ==> s.owner.value < |s.pcs|)
    && (forall t: nat :: t < |s.pcs| ==> (s.pcs[t] != Out <==> s.owner == Some(t)))
    && s.h.lockcount == (if s.owner.Some? then 1 else 0)
    && (ClientEnabled(s.h) <==> s.h.clientIntrEnabled && s.h.lockcount == 0)
    && !s.h.assertFailed
  }

  // Where the owner of the lock is: tuning, moving data, or about to tune.

  predicate OwnerTuning(s: System)
  {
    s.owner.Some? && s.owner.value < |s.pcs| && s.pcs[s.owner.value].Tuning?
  }

  predicate OwnerMoving(s: System)
  {
    s.owner.Some? && s.owner.value < |s.pcs| && s.pcs[s.owner.value].Moving?
  }

  predicate OwnerEntering(s: System)
  {
    s.owner.Some? && s.owner.value < |s.pcs| && s.pcs[s.owner.value].Entering?
  }

  /** A retune request is on record. */
  predicate Recorded(s: System) { s.h.tun == Start || s.h.tun == StartAfterDat }

  /** The state is ONGOING only while the owner is tuning, and not IDLE then; data moves exactly while the owner
      is moving it, and a thread about to tune has a request on record. */
  predicate TuneInv(s: System)
  {
    && (s.h.tun == Ongoing ==> OwnerTuning(s))
    && (OwnerTuning(s) ==> s.h.tun != Idle)
    && (s.h.transferring <==> OwnerMoving(s))
    && (OwnerEntering(s) ==> Recorded(s))
  }

  predicate Inv(s: System) { LockInv(s) && TuneInv(s) }

  lemma StepKeepsLock(s: System, a: Step)
    requires Inv(s) && CanStep(s, a)
    ensures LockInv(Apply(s, a))
  {
    hide ClearBit, SetBit, Bit, TuneInv, RecordBegins, RecordLooks, RecordEnds;
    if a.BeginRecord? || a.LookRecord? || a.EndRecord? { RecorderStep(s, a); }
  }

  lemma StepKeepsTune(s: System, a: Step)
    requires Inv(s) && CanStep(s, a)
    ensures TuneInv(Apply(s, a))
  {
    hide ClearBit, SetBit, Bit, RecordBegins, RecordLooks, RecordEnds;
    if a.BeginRecord? || a.LookRecord? || a.EndRecord? { RecorderStep(s, a); }
  }

  /** A recorder's step changes nothing that threads work with, except that its write leaves a request. */
  lemma RecorderStep(s: System, a: Step)
    requires CanStep(s, a) && (a.BeginRecord? || a.LookRecord? || a.EndRecord?)
    ensures var n := Apply(s, a);
            && n.pcs == s.pcs && n.owner == s.owner && SameLocking(s.h, n.h)
            && (n.h.tun == s.h.tun || Recorded(n))
  {
    hide RecordBegins, RecordLooks, RecordEnds;
    match a
    case BeginRecord(r) => ReadsOnly(s.h, r);
    case LookRecord(r) => ReadsOnly(s.h, r);
    case EndRecord(r) => WritesTune(s.h, r);
  }

  /** The tuning state moves only along these edges. */
  predicate TuneEdge(before: Tune, after: Tune)
  {
    || before == after
    || (before == Idle && (after == Start || after == StartAfterDat))
    || ((before == Start || before == StartAfterDat) && after == Ongoing)
    || (before == Ongoing && after == Idle)
  }

  /** A recorder writes over a state that has changed since it read IDLE. */
  predicate Overtakes(s: System, a: Step)
  {
    a.EndRecord? && Overtaken(s.h, a.r)
  }

  /** A tuning ends although a request was recorded while it ran. */
  predicate Loses(s: System, a: Step)
  {
    a.FinishTuning? && Recorded(s)
  }

  /** The tuning state moves along its edges exactly at the steps that are neither: START and START_AFTER_DAT
      are the only ways out of IDLE, and tuning begins only from a recorded request. In every step it becomes
      ONGOING only by `EnterTuning`, and IDLE only by `FinishTuning`. */
  lemma StepTuneEdge(s: System, a: Step)
    requires Inv(s) && CanStep(s, a)
    ensures TuneEdge(s.h.tun, Apply(s, a).h.tun) <==> !Overtakes(s, a) && !Loses(s, a)
    ensures s.h.tun != Ongoing && Apply(s, a).h.tun == Ongoing ==> a.EnterTuning?
    ensures s.h.tun != Idle && Apply(s, a).h.tun == Idle ==> a.FinishTuning?
    ensures OwnerTuning(s) != OwnerTuning(Apply(s, a)) ==> a.EnterTuning? || a.FinishTuning?
    ensures a.FinishTuning? ==> OwnerTuning(s) && Apply(s, a).h.tun == Idle && !OwnerTuning(Apply(s, a))
    ensures a.EnterTuning? ==> Apply(s, a).h.tun == Ongoing && OwnerTuning(Apply(s, a))
  {
    hide ClearBit, SetBit, Bit, RecordBegins, RecordLooks, RecordEnds, ViewOf;
    match a
    case Acquire(t, _) => assert s.owner != Some(t);
    case CheckBefore(t) => assert s.owner == Some(t);
    case EnterTuning(t) => assert s.owner == Some(t);
    case FinishTuning(t, _) => assert s.owner == Some(t);
    case BeginData(t) => assert s.owner == Some(t);
    case EndData(t, _) => assert s.owner == Some(t);
    case CheckAfter(t) => assert s.owner == Some(t);
    case Release(t) => assert s.owner == Some(t);
    case BeginRecord(r) => ReadsOnly(s.h, r);
    case LookRecord(r) => ReadsOnly(s.h, r);
    case EndRecord(r) => RecordEndsTune(s.h, r);
    case _ =>
  }

  lemma RecordEndsTune(h: Host, r: Recorder)
    requires ViewOf(h, r).SawBoth?
    ensures TuneEdge(h.tun, RecordEnds(h, r).tun) <==> !Overtaken(h, r)
    ensures RecordEnds(h, r).tun == Idle ==> h.tun == Idle
    ensures RecordEnds(h, r).tun == Ongoing ==> h.tun == Ongoing
  {
    hide RecordEnds, ViewOf;
    WritesTune(h, r);
  }

  // ----- runs -----

  lemma StepKeeps(s: System, a: Step)
    requires Inv(s) && CanStep(s, a)
    ensures Inv(Apply(s, a))
  {
    StepKeepsLock(s, a);
    StepKeepsTune(s, a);
  }

  /** One position of a schedule: a step that cannot happen yet is passed over. */
  function Next(s: System, a: Step): System { if CanStep(s, a) then Apply(s, a) else s }

  /** The state after the first `i` positions of a schedule. */
  function At(s0: System, run: seq<Step>, i: nat): System
    requires i <= |run|
  {
    if i == 0 then s0 else Next(At(s0, run, i - 1), run[i - 1])
  }

  lemma {:induction false} RunKeeps(s0: System, run: seq<Step>, i: nat)
    requires Inv(s0) && i <= |run|
    ensures Inv(At(s0, run, i))
  {
    hide Inv, CanStep, Apply;
    if i == 0 {
    } else {
      RunKeeps(s0, run, i - 1);
      if CanStep(At(s0, run, i - 1), run[i - 1]) { StepKeeps(At(s0, run, i - 1), run[i - 1]); }
    }
  }

  /** At every point of every schedule of any number of threads: the lock count is 0 or 1 and the lock has
      one owner, the client interrupt is unmasked exactly when it is enabled and the lock is free, the
      assertion in `sdstd_devintr_on` has not failed, and a thread tunes only while the lock is held and no data
      moves. */
  lemma AlwaysSafe(n: nat, mask: uint16, reqd: bool, disable: bool, run: seq<Step>, i: nat)
    requires !Bit(mask, CLIENT_BIT) && i <= |run|
    ensures var s := At(Initial(n, mask, reqd, disable), run, i);
            && Inv(s)
            && s.h.lockcount <= 1 && !s.h.assertFailed
            && (ClientEnabled(s.h) <==> s.h.clientIntrEnabled && s.h.lockcount == 0)
            && (s.h.tun == Ongoing || (exists t: nat :: t < |s.pcs| && s.pcs[t].Tuning?) ==>
                  s.h.lockcount == 1 && !s.h.transferring)
            && forall t: nat, u: nat :: t < |s.pcs| && u < |s.pcs| && s.pcs[t] != Out && s.pcs[u] != Out ==> t == u
  {
    hide Bit, At;
    assert Inv(Initial(n, mask, reqd, disable));
    RunKeeps(Initial(n, mask, reqd, disable), run, i);
  }

  // ----- what becomes of a request -----

  /** Position `k` of the schedule lets a thread begin tuning, or end it. */
  predicate Enters(s0: System, run: seq<Step>, k: nat)
    requires k < |run|
  {
    run[k].EnterTuning? && CanStep(At(s0, run, k), run[k])
  }

  predicate Finishes(s0: System, run: seq<Step>, k: nat)
    requires k < |run|
  {
    run[k].FinishTuning? && CanStep(At(s0, run, k), run[k])
  }

  /** A recorded retune request is cleared only by a tuning that comes to its end; and that tuning was entered
      after the request was on record, unless a thread was already tuning then. */
  lemma ClearedOnlyByTuning(s0: System, run: seq<Step>, i: nat, j: nat)
    requires Inv(s0) && i <= j <= |run|
    requires Recorded(At(s0, run, i)) && At(s0, run, j).h.tun == Idle
    ensures exists l :: i <= l < j && Finishes(s0, run, l) &&
              (OwnerTuning(At(s0, run, i)) || exists k :: i <= k < l && Enters(s0, run, k))
  {
    hide Inv, CanStep, Apply, At, Enters, Finishes, OwnerTuning;
    var l := LastFinish(s0, run, i, j);
    if !OwnerTuning(At(s0, run, i)) {
      var k := LastEntry(s0, run, i, l);
    }
  }

  lemma {:induction false} LastFinish(s0: System, run: seq<Step>, i: nat, j: nat) returns (l: nat)
    requires Inv(s0) && i <= j <= |run|
    requires At(s0, run, i).h.tun != Idle && At(s0, run, j).h.tun == Idle
    ensures i <= l < j && Finishes(s0, run, l) && OwnerTuning(At(s0, run, l))
    decreases j
  {
    hide Inv, CanStep, Apply, OwnerTuning;
    if i == j {
    } else {
      var s := At(s0, run, j - 1);
      RunKeeps(s0, run, j - 1);
      if CanStep(s, run[j - 1]) { StepTuneEdge(s, run[j - 1]); }
      if s.h.tun == Idle {
        l := LastFinish(s0, run, i, j - 1);
      } else {
        l := j - 1;
      }
    }
  }

  lemma {:induction false} LastEntry(s0: System, run: seq<Step>, i: nat, j: nat) returns (k: nat)
    requires Inv(s0) && i <= j <= |run|
    requires !OwnerTuning(At(s0, run, i)) && OwnerTuning(At(s0, run, j))
    ensures i <= k < j && Enters(s0, run, k)
    ensures forall m: nat :: k < m <= j ==> OwnerTuning(At(s0, run, m))
    decreases j
  {
    hide Inv, CanStep, Apply, OwnerTuning;
    if i == j {
    } else {
      var s := At(s0, run, j - 1);
      RunKeeps(s0, run, j - 1);
      if CanStep(s, run[j - 1]) { StepTuneEdge(s, run[j - 1]); }
      if OwnerTuning(s) {
        k := LastEntry(s0, run, i, j - 1);
      } else {
        k := j - 1;
      }
    }
  }

  // ----- schedules without late writes -----

  /** No recorder is overtaken at positions `i` up to `j`. */
  ghost predicate Prompt(s0: System, run: seq<Step>, i: nat, j: nat)
    requires j <= |run|
  {
    forall k: nat :: i <= k < j && CanStep(At(s0, run, k), run[k]) ==> !Overtakes(At(s0, run, k), run[k])
  }

  /** The owner is tuning exactly while the state is ONGOING. */
  predicate Exact(s: System) { OwnerTuning(s) <==> s.h.tun == Ongoing }

  /** On such a schedule no request is lost either: every step is an edge, and a request on record means that
      no thread is tuning, so that a tuning entered later clears it. */
  lemma {:induction false} PromptKeepsEdges(s0: System, run: seq<Step>, i: nat)
    requires Inv(s0) && Exact(s0) && i <= |run| && Prompt(s0, run, 0, i)
    ensures Inv(At(s0, run, i)) && Exact(At(s0, run, i))
    ensures Recorded(At(s0, run, i)) ==> !OwnerTuning(At(s0, run, i))
    ensures i > 0 ==> TuneEdge(At(s0, run, i - 1).h.tun, At(s0, run, i).h.tun)
  {
    hide Inv, CanStep, Apply, OwnerTuning, Overtakes;
    RunKeeps(s0, run, i);
    if i == 0 {
    } else {
      var s := At(s0, run, i - 1);
      PromptKeepsEdges(s0, run, i - 1);
      if CanStep(s, run[i - 1]) { StepTuneEdge(s, run[i - 1]); }
      TuningNotIdle(At(s0, run, i));
    }
  }

  /** Every step up to position `m` follows the edges exactly when no recorder is overtaken before it. */
  lemma EdgesExactly(s0: System, run: seq<Step>, m: nat)
    requires Inv(s0) && Exact(s0) && m <= |run|
    ensures (forall i: nat :: i < m ==> FollowsEdge(s0, run, i)) <==> Prompt(s0, run, 0, m)
  {
    hide Inv, CanStep, Apply, At, Next, Overtakes, Exact, TuneEdge;
    forall i: nat | i < m && Prompt(s0, run, 0, m) ensures FollowsEdge(s0, run, i) {
      PromptKeepsEdges(s0, run, i + 1);
    }
    forall k: nat | k < m && FollowsEdge(s0, run, k) && CanStep(At(s0, run, k), run[k])
      ensures !Overtakes(At(s0, run, k), run[k])
    {
      RunKeeps(s0, run, k);
      Unroll(s0, run, k);
      Steps(At(s0, run, k), run[k]);
      StepTuneEdge(At(s0, run, k), run[k]);
    }
  }

  predicate FollowsEdge(s0: System, run: seq<Step>, i: nat)
    requires i < |run|
  {
    TuneEdge(At(s0, run, i).h.tun, At(s0, run, i + 1).h.tun)
  }

  lemma TuningNotIdle(s: System)
    requires Inv(s)
    ensures s.h.tun == Ongoing ==> OwnerTuning(s)
    ensures OwnerTuning(s) ==> s.h.tun != Idle
  {
  }

  // ----- when a request is lost -----

  /** A recorder that read IDLE writes its request. */
  predicate WritesRequest(s: System, a: Step)
  {
    a.EndRecord? && CanStep(s, a) && ViewOf(s.h, a.r).tune == Idle
  }

  /** Such a write happens at position `k`. */
  predicate Written(s0: System, run: seq<Step>, k: nat)
    requires k < |run|
  {
    WritesRequest(At(s0, run, k), run[k])
  }

  /** While a thread tunes, only such a write puts a request on record, and only the end of the tuning takes it
      off. */
  lemma TuningStep(s: System, a: Step)
    requires Inv(s) && CanStep(s, a) && OwnerTuning(s) && !a.FinishTuning?
    ensures OwnerTuning(Apply(s, a))
    ensures Recorded(Apply(s, a)) <==> Recorded(s) || WritesRequest(s, a)
  {
    hide ClearBit, SetBit, Bit, RecordBegins, RecordLooks, RecordEnds, ViewOf;
    StepTuneEdge(s, a);
    match a
    case BeginRecord(r) => ReadsOnly(s.h, r);
    case LookRecord(r) => ReadsOnly(s.h, r);
    case EndRecord(r) => WritesTune(s.h, r);
    case _ =>
  }

  /** From the entry `e` of a tuning up to `j`, as long as no tuning ends. */
  lemma {:induction false} RecordedWhileTuning(s0: System, run: seq<Step>, e: nat, j: nat)
    requires Inv(s0) && e < j <= |run| && Enters(s0, run, e)
    requires forall k: nat :: e < k < j ==> !Finishes(s0, run, k)
    ensures OwnerTuning(At(s0, run, j))
    ensures Recorded(At(s0, run, j)) <==> exists k: nat :: e < k < j && Written(s0, run, k)
    decreases j
  {
    hide Inv, CanStep, Apply, OwnerTuning, At, Next;
    var s, a := At(s0, run, j - 1), run[j - 1];
    RunKeeps(s0, run, j - 1);
    Unroll(s0, run, j - 1);
    Steps(s, a);
    if j == e + 1 {
      StepTuneEdge(s, a);
    } else {
      RecordedWhileTuning(s0, run, e, j - 1);
      assert !Finishes(s0, run, j - 1);
      if CanStep(s, a) { TuningStep(s, a); }
      assert Written(s0, run, j - 1) <==> WritesRequest(s, a);
    }
  }

  lemma Steps(s: System, a: Step)
    ensures CanStep(s, a) ==> Next(s, a) == Apply(s, a)
    ensures !CanStep(s, a) ==> Next(s, a) == s
  {
  }

  /** The end of a tuning loses a request exactly when a recorder that had read IDLE writes while that tuning
      runs. */
  lemma LosesExactly(s0: System, run: seq<Step>, e: nat, l: nat)
    requires Inv(s0) && e < l < |run| && Enters(s0, run, e) && Finishes(s0, run, l)
    requires forall k: nat :: e < k < l ==> !Finishes(s0, run, k)
    ensures Loses(At(s0, run, l), run[l]) <==> exists k: nat :: e < k < l && Written(s0, run, k)
  {
    hide Inv, CanStep, At, Written;
    RecordedWhileTuning(s0, run, e, l);
  }

  /** A tuning entered at `e` and ended at `l`. */
  ghost predicate TuningSpan(s0: System, run: seq<Step>, e: nat, l: nat)
  {
    && e < l < |run| && Enters(s0, run, e) && Finishes(s0, run, l)
    && forall k: nat :: e < k < l ==> !Finishes(s0, run, k)
  }

  /** A whole schedule, from a state in which no thread tunes, loses a request at position `l` exactly when `l`
      ends a tuning during which such a write happened. */
  lemma RunLosesExactly(s0: System, run: seq<Step>, l: nat)
    requires Inv(s0) && !OwnerTuning(s0) && l < |run|
    ensures CanStep(At(s0, run, l), run[l]) && Loses(At(s0, run, l), run[l]) <==>
            exists e: nat, k: nat :: TuningSpan(s0, run, e, l) && e < k < l && Written(s0, run, k)
  {
    hide Inv, CanStep, At, Written, OwnerTuning, Apply, Recorded;
    if CanStep(At(s0, run, l), run[l]) && Loses(At(s0, run, l), run[l]) {
      var e := SpanOf(s0, run, l);
      LosesExactly(s0, run, e, l);
      var k: nat :| e < k < l && Written(s0, run, k);
      assert TuningSpan(s0, run, e, l) && e < k < l && Written(s0, run, k);
    }
    forall e: nat, k: nat | TuningSpan(s0, run, e, l) && e < k < l && Written(s0, run, k)
      ensures CanStep(At(s0, run, l), run[l]) && Loses(At(s0, run, l), run[l])
    {
      LosesExactly(s0, run, e, l);
    }
  }

  /** Every tuning that ends was entered. */
  lemma SpanOf(s0: System, run: seq<Step>, l: nat) returns (e: nat)
    requires Inv(s0) && !OwnerTuning(s0) && l < |run| && Finishes(s0, run, l)
    ensures TuningSpan(s0, run, e, l)
  {
    hide Inv, CanStep, OwnerTuning, Apply, Next;
    FinisherTunes(s0, run, l);
    e := LastEntry(s0, run, 0, l);
    forall k: nat | e < k < l ensures !Finishes(s0, run, k) {
      if Finishes(s0, run, k) {
        RunKeeps(s0, run, k);
        Unroll(s0, run, k);
        Steps(At(s0, run, k), run[k]);
        StepTuneEdge(At(s0, run, k), run[k]);
        assert false;
      }
    }
  }

  /** A request can be lost: timer and interrupt handler both read IDLE; the timer's request is
      being served when the handler writes its own, and the end of that tuning clears it. */
  lemma RequestLost()
    ensures exists s0: System, run: seq<Step>, i: nat ::
              && i < |run| && Inv(s0) && Exact(s0)
              && Recorded(At(s0, run, i)) && OwnerTuning(At(s0, run, i)) && At(s0, run, i + 1).h.tun == Idle
  {
    hide Next, At, Bit;
    var s0 := Initial(1, 0, true, false);
    var run := [BeginRecord(Timer), BeginRecord(Interrupt), LookRecord(Timer), LookRecord(Interrupt),
                EndRecord(Timer), Acquire(0, Word), CheckBefore(0), EnterTuning(0), EndRecord(Interrupt),
                FinishTuning(0, true)];
    assert At(s0, run, 0) == s0 && Inv(s0) && Exact(s0) by { Begins(s0, run); }
    Unroll(s0, run, 0); Unroll(s0, run, 1); Unroll(s0, run, 2); Unroll(s0, run, 3); Unroll(s0, run, 4);
    BothRead(s0);
    Unroll(s0, run, 5); Unroll(s0, run, 6); Unroll(s0, run, 7);
    FirstServed(At(s0, run, 5));
    Unroll(s0, run, 8); Unroll(s0, run, 9);
    SecondLost(At(s0, run, 8));
    var i: nat := 9;
    assert Recorded(At(s0, run, i)) && OwnerTuning(At(s0, run, i)) && At(s0, run, i + 1).h.tun == Idle;
  }

  lemma Begins(s0: System, run: seq<Step>)
    requires s0 == Initial(1, 0, true, false)
    ensures At(s0, run, 0) == s0 && Inv(s0) && Exact(s0)
  {
    ZeroBits();
  }

  lemma BothRead(s: System)
    requires s.h.tun == Idle && !s.h.transferring && s.h.timer == Parked && s.h.irq == Parked
    ensures var two := Next(Next(s, BeginRecord(Timer)), BeginRecord(Interrupt));
            var n := Next(Next(Next(two, LookRecord(Timer)), LookRecord(Interrupt)), EndRecord(Timer));
            && n.pcs == s.pcs && n.owner == s.owner && SameLocking(s.h, n.h)
            && n.h.tun == Start && n.h.irq == SawBoth(Idle, false)
  {
  }

  lemma FirstServed(s: System)
    requires s.pcs == [Out] && s.h.lockcount == 0 && s.h.tun == Start && s.h.irq == SawBoth(Idle, false)
    requires s.h.tuningReqd && !s.h.tuningDisable
    ensures var n := Next(Next(Next(s, Acquire(0, Word)), CheckBefore(0)), EnterTuning(0));
            && n.pcs == [Tuning(Word, PreData)] && n.owner == Some(0)
            && n.h.tun == Ongoing && n.h.irq == SawBoth(Idle, false)
  {
    hide ClearBit, Bit;
  }

  lemma SecondLost(s: System)
    requires s.pcs == [Tuning(Word, PreData)] && s.owner == Some(0)
    requires s.h.tun == Ongoing && s.h.irq == SawBoth(Idle, false)
    ensures var n := Next(s, EndRecord(Interrupt));
            && Recorded(n) && OwnerTuning(n) && Next(n, FinishTuning(0, true)).h.tun == Idle
  {
    hide ClearBit, Bit;
  }

  lemma Unroll(s0: System, run: seq<Step>, i: nat)
    requires i < |run|
    ensures At(s0, run, i + 1) == Next(At(s0, run, i), run[i])
  {
  }

  // ----- a request is served -----

  /** Thread `t` is in a word or buffer request that will still tune. */
  predicate Pending(s: System, t: nat)
  {
    t < |s.pcs| && s.owner == Some(t) &&
    match s.pcs[t]
    case Locked(k) => (k == Word || k == Buffer) && Recorded(s)
    case Entering(k, _) => k == Word || k == Buffer
    case Tuning(k, _) => k == Word || k == Buffer
    case Ready(k) => (k == Word || k == Buffer) && s.h.tun == StartAfterDat
    case Moving(k) => (k == Word || k == Buffer) && s.h.tun == StartAfterDat
    case Moved(k) => (k == Word || k == Buffer) && s.h.tun == StartAfterDat
    case _ => false
  }

  /** A late write replaces a request that waits for the data to end by one that waits for the next request. */
  predicate Demotes(s: System, a: Step)
  {
    WritesRequest(s, a) && s.h.tun == StartAfterDat && !ViewOf(s.h, a.r).moving
  }

  ghost predicate NeverDemoted(s0: System, run: seq<Step>, i: nat, j: nat)
    requires j <= |run|
  {
    forall k: nat :: i <= k < j ==> !Demotes(At(s0, run, k), run[k])
  }

  /** Requests are served at all. */
  predicate Serving(h: Host) { h.tuningReqd && !h.tuningDisable }

  lemma PendingStep(s: System, a: Step, t: nat)
    requires Inv(s) && CanStep(s, a) && Pending(s, t) && Serving(s.h) && !Demotes(s, a)
    ensures Pending(Apply(s, a), t) || a.FinishTuning?
    ensures !(a.Release? && a.t == t)
  {
    hide ClearBit, SetBit, Bit, RecordBegins, RecordLooks, RecordEnds, ViewOf;
    match a
    case BeginRecord(r) => ReadsOnly(s.h, r);
    case LookRecord(r) => ReadsOnly(s.h, r);
    case EndRecord(r) => WritesTune(s.h, r);
    case _ =>
  }

  lemma {:induction false} PendingRun(s0: System, run: seq<Step>, i: nat, j: nat, t: nat) returns (l: nat)
    requires Inv(s0) && i <= j <= |run| && NeverDemoted(s0, run, i, j)
    requires forall k: nat :: i <= k < j ==> Serving(At(s0, run, k).h)
    requires Pending(At(s0, run, i), t)
    ensures Pending(At(s0, run, j), t) || (i <= l < j && Finishes(s0, run, l))
  {
    hide Inv, CanStep, Apply, Pending, Demotes, Serving;
    l := i;
    if i == j {
    } else {
      var s := At(s0, run, j - 1);
      l := PendingRun(s0, run, i, j - 1, t);
      RunKeeps(s0, run, j - 1);
      if Pending(s, t) && CanStep(s, run[j - 1]) {
        PendingStep(s, run[j - 1], t);
        if run[j - 1].FinishTuning? { l := j - 1; }
      }
    }
  }

  /** A word or buffer request serves what is on record: if a retune request is on record at position `i` and
      the whole request, acquired at `a` and released at `r`, comes after it, with tuning required and enabled
      and START_AFTER_DAT not replaced by a late START, then a tuning comes to its end between `i` and `r`; and
      it was entered after `i`, unless a thread was already tuning then. */
  lemma RequestServes(s0: System, run: seq<Step>, i: nat, a: nat, r: nat, t: nat)
    requires Inv(s0) && i <= a < r < |run| && Recorded(At(s0, run, i))
    requires run[a] == Acquire(t, Word) || run[a] == Acquire(t, Buffer)
    requires CanStep(At(s0, run, a), run[a]) && run[r] == Release(t) && CanStep(At(s0, run, r), run[r])
    requires NeverDemoted(s0, run, a, r) && forall k: nat :: a <= k < r ==> Serving(At(s0, run, k).h)
    ensures exists l :: i <= l < r && Finishes(s0, run, l) &&
              (OwnerTuning(At(s0, run, i)) || exists k :: i <= k < l && Enters(s0, run, k))
  {
    hide Inv, CanStep, Apply, Pending, Finishes, Enters, Serving, At, OwnerTuning, Demotes;
    if At(s0, run, a).h.tun == Idle {
      ClearedOnlyByTuning(s0, run, i, a);
    } else {
      RunKeeps(s0, run, a);
      RunKeeps(s0, run, r);
      Unroll(s0, run, a);
      AcquirePends(At(s0, run, a), run[a], t);
      var l := PendingRun(s0, run, a + 1, r, t);
      if Pending(At(s0, run, r), t) { NotReleased(At(s0, run, r), t); }
      FinisherTunes(s0, run, l);
      var k := LastEntry(s0, run, a, l);
      assert i <= k < l;
    }
  }

  lemma FinisherTunes(s0: System, run: seq<Step>, l: nat)
    requires Inv(s0) && l < |run| && Finishes(s0, run, l)
    ensures OwnerTuning(At(s0, run, l))
  {
    hide Inv, CanStep, Apply, At, OwnerTuning;
    RunKeeps(s0, run, l);
    StepTuneEdge(At(s0, run, l), run[l]);
  }

  lemma AcquirePends(s: System, a: Step, t: nat)
    requires Inv(s) && CanStep(s, a) && (a == Acquire(t, Word) || a == Acquire(t, Buffer)) && s.h.tun != Idle
    ensures Pending(Apply(s, a), t) && !OwnerTuning(s)
  {
    hide ClearBit, Bit;
  }

  lemma NotReleased(s: System, t: nat)
    requires Pending(s, t)
    ensures !CanStep(s, Release(t))
  {
  }

  // ----- a request by itself -----

  /** A tuning call from its entry to its end; steps that do not apply are passed over. */
  function Tunes(s: System, t: nat): System { Next(Next(s, EnterTuning(t)), FinishTuning(t, true)) }

  /** Thread `t` through its request up to the data. */
  function BeforeData(s: System, t: nat, k: Kind): System
  {
    Tunes(Next(Next(s, Acquire(t, k)), CheckBefore(t)), t)
  }

  /** The data, with or without a retuning interrupt. */
  function DuringData(s: System, t: nat, failed: bool, retune: bool): System
  {
    var b := Next(s, BeginData(t));
    Next(if retune then Next(Next(Next(b, BeginRecord(Interrupt)), LookRecord(Interrupt)), EndRecord(Interrupt))
         else b, EndData(t, failed))
  }

  function AfterData(s: System, t: nat): System { Next(Tunes(Next(s, CheckAfter(t)), t), Release(t)) }

  /** Thread `t` is at `pc`, which holds the lock, and no handler is under way. */
  predicate Holds(s: System, t: nat, pc: Pc)
  {
    t < |s.pcs| && s.pcs[t] == pc && s.h.lockcount == 1 && s.h.irq == Parked
  }

  lemma TunesWhenEntering(s: System, t: nat, pc: Pc)
    requires Holds(s, t, pc) && s.h.tun != Ongoing && !pc.Tuning?
    ensures var n := Tunes(s, t);
            && Holds(n, t, if pc.Entering? then AfterTuning(pc.kind, pc.check) else pc)
            && Serving(n.h) == Serving(s.h) && n.h.tun == if pc.Entering? then Idle else s.h.tun
  {
  }

  lemma BeforeDataTunes(s: System, t: nat, k: Kind)
    requires t < |s.pcs| && s.pcs[t] == Out && s.h.lockcount == 0 && s.h.tun != Ongoing
    requires k != Plain && s.h.irq == Parked
    ensures var n := BeforeData(s, t, k);
            && Holds(n, t, Ready(k)) && Serving(n.h) == Serving(s.h)
            && n.h.tun == if k != ByteWrite && Serving(s.h) && s.h.tun == Start then Idle else s.h.tun
  {
    hide ClearBit, Bit, Tunes;
    var c := Next(Next(s, Acquire(t, k)), CheckBefore(t));
    TunesWhenEntering(c, t, c.pcs[t]);
  }

  /** Any recorder that nothing interrupts puts a request on record from IDLE only. */
  lemma RecordsUninterrupted(s: System, r: Recorder)
    requires CanRecord(s.h, r)
    ensures var n := Next(Next(Next(s, BeginRecord(r)), LookRecord(r)), EndRecord(r));
            && n.pcs == s.pcs && n.owner == s.owner && SameLocking(s.h, n.h) && ViewOf(n.h, r) == Parked
            && n.h.tun == if s.h.tun == Idle then Request(s.h.transferring) else s.h.tun
  {
    hide RecordBegins, RecordLooks, RecordEnds, ViewOf, CanRecord;
    RecordAlone(s.h, r);
  }

  /** In every safe state, enabling or disabling client interrupts takes effect at once if the lock is free and
      otherwise leaves them masked. */
  lemma SetInterruptsWorks(s: System, enable: bool)
    requires Inv(s)
    ensures var n := Next(s, SetInterrupts(enable));
            && n.h.clientIntrEnabled == enable && n.h.lockcount == s.h.lockcount && n.pcs == s.pcs
            && (ClientEnabled(n.h) <==> enable && s.h.lockcount == 0)
  {
    hide Bit, ClearBit, SetBit;
  }

  lemma DuringDataRecords(s: System, t: nat, k: Kind, failed: bool, retune: bool)
    requires Holds(s, t, Ready(k))
    ensures var n := DuringData(s, t, failed, retune);
            && Holds(n, t, if failed && (k == ByteRead || k == ByteWrite) then Leaving(k) else Moved(k))
            && Serving(n.h) == Serving(s.h)
            && n.h.tun == if retune && s.h.tun == Idle then StartAfterDat else s.h.tun
  {
    hide RecordBegins, RecordLooks, RecordEnds, RecordAll;
    if retune { RecordsUninterrupted(Next(s, BeginData(t)), Interrupt); }
  }

  lemma AfterDataTunes(s: System, t: nat, k: Kind)
    requires (Holds(s, t, Moved(k)) || Holds(s, t, Leaving(k))) && s.h.tun != Ongoing
    ensures var n := AfterData(s, t);
            && t < |n.pcs| && n.pcs[t] == Out && n.owner == None && n.h.lockcount == 0
            && n.h.tun == if s.pcs[t].Moved? && Serving(s.h) && s.h.tun == StartAfterDat then Idle else s.h.tun
  {
    hide SetBit, Bit, Tunes;
    var c := Next(s, CheckAfter(t));
    TunesWhenEntering(c, t, c.pcs[t]);
  }

  /** A whole request with nobody else at work: while requests are served, one is left on record exactly if a byte
      write found START or a byte command that could not be issued leaves a START_AFTER_DAT; otherwise the request
      tunes nothing. This is what the driver's own request methods promise. */
  lemma AloneServes(s: System, t: nat, k: Kind, failed: bool, retune: bool)
    requires t < |s.pcs| && s.pcs[t] == Out && s.h.lockcount == 0 && s.h.tun != Ongoing
    requires k != Plain && s.h.irq == Parked
    ensures var n := AfterData(DuringData(BeforeData(s, t, k), t, failed, retune), t);
            && t < |n.pcs| && n.pcs[t] == Out && n.owner == None && n.h.lockcount == 0
            && (Serving(s.h) ==>
                  (n.h.tun != Idle <==>
                   || (k == ByteWrite && s.h.tun == Start)
                   || (failed && (k == ByteRead || k == ByteWrite) && (retune || s.h.tun == StartAfterDat))))
            && (!Serving(s.h) ==> (n.h.tun == Idle <==> s.h.tun == Idle && !retune))
  {
    hide BeforeData, DuringData, AfterData, Serving;
    BeforeDataTunes(s, t, k);
    var b := BeforeData(s, t, k);
    DuringDataRecords(b, t, k, failed, retune);
    AfterDataTunes(DuringData(b, t, failed, retune), t, k);
  }

  /** The branch of the check before the data that waits for an ongoing tuning is never taken. */
  lemma NoWaitForTuning(s: System, t: nat)
    requires Inv(s) && CanStep(s, CheckBefore(t))
    ensures s.h.tun != Ongoing
  {
  }
}
