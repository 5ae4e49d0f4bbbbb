/** Dry assembly frames of other extensions share the two prompt slots with an active run; they may be settled in any
    order (runtime.js, createForeignDryFrameCoordinator). */
module ForeignDryFrames {
  import opened MessageSpans
  import opened PromptEntries
  import opened DryFrameMarker

  datatype Slots = Slots(runtime: string, payload: string)

  /** The marker object of an active run; `id` is its object identity. */
  datatype Marker = Marker(id: nat, runId: string)

  datatype Frame = Frame(frameId: string, marker: Marker)

  datatype Base = Base(marker: Marker, slots: Slots)

  datatype FrameError = OwnerInvalid | OwnerChanged | IdentityInvalid

  function FrameSlots(f: Frame): Slots {
    Slots(PrintFrame(f.frameId, f.marker.runId), "")
  }

  /** The coordinator's memory together with the host's prompt slots. */
  datatype State = State(base: Option<Base>, frames: seq<Frame>, slots: Slots)

  ghost predicate OwnsSlots(s: State) {
    exists k :: 0 <= k < |s.frames| && FrameSlots(s.frames[k]) == s.slots
  }

  // ---- The operations on states ----

  datatype Op =
    | Begin(marker: Marker, frameId: string)
    | Settle(frameId: string, marker: Marker)
    | SettleAll(marker: Marker)
    | Reset(restore: bool)
    | Foreign(slots: Slots) // someone else writes the slots

  ghost predicate Begins(s: State, marker: Marker, frameId: string) {
    && marker.runId != "" && (s.frames == [] || (s.base.Some? && s.base.value.marker == marker))
    && SafeIdentity(frameId) && SafeIdentity(marker.runId)
  }

  ghost function AfterBegin(s: State, marker: Marker, frameId: string): State {
    if marker.runId == "" || (s.frames != [] && !(s.base.Some? && s.base.value.marker == marker)) then s
    else
      var based := if s.frames == [] then s.(base := Some(Base(marker, s.slots))) else s;
      if !SafeIdentity(frameId) || !SafeIdentity(marker.runId) then based
      else based.(frames := s.frames + [Frame(frameId, marker)], slots := FrameSlots(Frame(frameId, marker)))
  }

  /** The first frame with this id and owner, or -1. */
  function FindFrame(frames: seq<Frame>, f: Frame): (r: int)
    ensures r == -1 <==> f !in frames
    ensures r != -1 ==> 0 <= r < |frames| && frames[r] == f && f !in frames[..r]
  {
    if frames == [] then -1
    else if frames[0] == f then 0
    else
      assert frames == [frames[0]] + frames[1..];
      var r := FindFrame(frames[1..], f);
      if r == -1 then -1
      else
        assert frames[..r + 1] == [frames[0]] + frames[1..][..r];
        r + 1
  }

  ghost function AfterSettle(s: State, f: Frame): State {
    var at := FindFrame(s.frames, f);
    if at == -1 then s
    else
      var left := s.frames[..at] + s.frames[at + 1..];
      State(if left == [] then None else s.base, left,
            if FrameSlots(f) == s.slots && s.base.Some? then s.base.value.slots else s.slots)
  }

  ghost function Restored(s: State): Slots {
    if s.base.Some? && OwnsSlots(s) then s.base.value.slots else s.slots
  }

  ghost function Apply(s: State, op: Op): State {
    match op
    case Begin(marker, frameId) => AfterBegin(s, marker, frameId)
    case Settle(frameId, marker) => AfterSettle(s, Frame(frameId, marker))
    case SettleAll(marker) =>
      if s.base.Some? && s.base.value.marker == marker then State(None, [], Restored(s)) else s
    case Reset(restore) => State(None, [], if restore then Restored(s) else s.slots)
    case Foreign(slots) => s.(slots := slots)
  }

  ghost predicate Run(states: seq<State>, ops: seq<Op>) {
    |states| == |ops| + 1 && forall k :: 0 <= k < |ops| ==> states[k + 1] == Apply(states[k], ops[k])
  }

  // ---- Settling in any order ----

  /** The slots are somebody's: the base value, or that of a frame still pending. */
  ghost predicate Accounted(s: State, start: Slots) {
    if s.frames == [] then s.slots == start
    else s.base.Some? && s.base.value.slots == start && (s.slots == start || OwnsSlots(s))
  }

  ghost predicate Undisturbed(op: Op) {
    !op.Foreign? && op != Reset(false)
  }

  lemma SettleKeeps(s: State, start: Slots, f: Frame)
    requires Accounted(s, start)
    ensures Accounted(AfterSettle(s, f), start)
  {
    hide FrameSlots;
    var at, after := FindFrame(s.frames, f), AfterSettle(s, f);
    if at != -1 && s.slots != start && FrameSlots(f) != s.slots {
      var k :| 0 <= k < |s.frames| && FrameSlots(s.frames[k]) == s.slots;
      assert after.frames[if k < at then k else k - 1] == s.frames[k];
    }
  }

  lemma OpKeeps(s: State, start: Slots, op: Op)
    requires Accounted(s, start) && Undisturbed(op)
    ensures Accounted(Apply(s, op), start)
  {
    hide FrameSlots;
    match op
    case Begin(marker, frameId) =>
      var after := Apply(s, op);
      if Begins(s, marker, frameId) { assert FrameSlots(after.frames[|s.frames|]) == after.slots; }
    case Settle(frameId, marker) => SettleKeeps(s, start, Frame(frameId, marker));
    case SettleAll(_) =>
    case Reset(_) =>
    case Foreign(_) =>
  }

  /** Whatever frames were begun and in whatever order they are settled: whenever none is pending, the slots hold
      what they held before the first began. */
  lemma {:induction false} SettledIsRestored(states: seq<State>, ops: seq<Op>, k: nat)
    requires Run(states, ops) && states[0].frames == [] && k < |states|
    requires forall j :: 0 <= j < |ops| ==> Undisturbed(ops[j])
    ensures Accounted(states[k], states[0].slots)
    ensures states[k].frames == [] ==> states[k].slots == states[0].slots
  {
    hide Apply;
    if k > 0 {
      SettledIsRestored(states, ops, k - 1);
      OpKeeps(states[k - 1], states[0].slots, ops[k - 1]);
    }
  }

  /** A value that no pending frame owns survives everything but a new frame. */
  lemma ForeignSurvives(s: State, op: Op)
    requires !OwnsSlots(s) && !op.Foreign?
    requires op.Begin? ==> !Begins(s, op.marker, op.frameId)
    ensures Apply(s, op).slots == s.slots && !OwnsSlots(Apply(s, op))
  {
    hide FrameSlots;
    if op.Settle? {
      var f := Frame(op.frameId, op.marker);
      var at := FindFrame(s.frames, f);
      if at != -1 {
        var left := s.frames[..at] + s.frames[at + 1..];
        assert FrameSlots(s.frames[at]) != s.slots;
        assert forall k :: 0 <= k < |left| ==> left[k] == s.frames[if k < at then k else k + 1];
      }
    }
  }

  /** No settlement ever overwrites a foreign write, however many come after it. */
  lemma {:induction false} ForeignWriteStands(states: seq<State>, ops: seq<Op>, k: nat)
    requires Run(states, ops) && !OwnsSlots(states[0]) && k < |states|
    requires forall j :: 0 <= j < |ops| ==> ops[j].Settle? || ops[j].SettleAll? || ops[j].Reset?
    ensures states[k].slots == states[0].slots
    ensures !OwnsSlots(states[k])
  {
    hide Apply, OwnsSlots;
    if k > 0 {
      ForeignWriteStands(states, ops, k - 1);
      ForeignSurvives(states[k - 1], ops[k - 1]);
    }
  }

  /** With unique frame ids a settled frame is gone for good, and settling it takes no other frame. */
  lemma SettleTakesOne(s: State, f: Frame)
    requires forall j, k :: 0 <= j < k < |s.frames| ==> s.frames[j].frameId != s.frames[k].frameId
    ensures var after := AfterSettle(s, f);
      && (forall g :: g in after.frames <==> g in s.frames && g != f)
      && (forall j, k :: 0 <= j < k < |after.frames| ==> after.frames[j].frameId != after.frames[k].frameId)
  {
    hide FrameSlots;
    var at, after := FindFrame(s.frames, f), AfterSettle(s, f);
    if at != -1 {
      assert forall k :: 0 <= k < |after.frames| ==> after.frames[k] == s.frames[if k < at then k else k + 1];
      forall g ensures g in after.frames <==> g in s.frames && g != f {
        if g in s.frames && g != f {
          var k :| 0 <= k < |s.frames| && s.frames[k] == g;
          assert after.frames[if k < at then k else k - 1] == g;
        }
      }
    }
  }

  /** The slots a frame writes show exactly that frame and its run. */
  lemma SlotsShow(f: Frame)
    requires SafeIdentity(f.frameId) && SafeIdentity(f.marker.runId)
    ensures Shows(FrameSlots(f).runtime, Identity(f.frameId, f.marker.runId)) && FrameSlots(f).payload == ""
  {
    PrintedShows(f.frameId, f.marker.runId);
  }

  // ---- The coordinator ----

  /** The host's prompt slots, which anyone may write. */
  class PromptSlots {
    var value: Slots

    constructor (value: Slots)
      ensures this.value == value
    {
      this.value := value;
    }
  }

  class Coordinator {
    const slots: PromptSlots
    var base: Option<Base>
    var frames: seq<Frame>

    ghost function Abstract(): State
      reads this, slots
    {
      State(base, frames, slots.value)
    }

    constructor (slots: PromptSlots)
      ensures this.slots == slots && base.None? && frames == []
    {
      this.slots, base, frames := slots, None, [];
    }

    method Begin(marker: Marker, frameId: string) returns (r: Result<Frame, FrameError>)
      modifies this, slots
      ensures Abstract() == Apply(old(Abstract()), Op.Begin(marker, frameId))
      ensures r.Success? <==> Begins(old(Abstract()), marker, frameId)
      ensures r.Success? ==> r.value == Frame(frameId, marker) && r.value in frames
      ensures r == Failure(OwnerInvalid) <==> marker.runId == ""
      ensures r == Failure(OwnerChanged) <==>
        marker.runId != "" && old(frames) != [] && (old(base).None? || old(base).value.marker != marker)
      ensures r.Failure? ==> r.error in {OwnerInvalid, OwnerChanged, IdentityInvalid}
      ensures r.Success? ==> Shows(slots.value.runtime, Identity(frameId, marker.runId)) && slots.value.payload == ""
    {
      if SafeIdentity(frameId) && SafeIdentity(marker.runId) { SlotsShow(Frame(frameId, marker)); }
      hide FrameSlots, SafeIdentity, Shows;
      if marker.runId == "" { return Failure(OwnerInvalid); }
      if frames == [] {
        base := Some(Base(marker, slots.value));
      } else if base.None? || base.value.marker != marker {
        return Failure(OwnerChanged);
      }
      if !SafeIdentity(frameId) || !SafeIdentity(marker.runId) { return Failure(IdentityInvalid); }
      var frame := Frame(frameId, marker);
      frames := frames + [frame];
      slots.value := FrameSlots(frame);
      r := Success(frame);
    }

    method Find(inspection: Inspection, marker: Marker) returns (r: Option<Frame>)
      ensures r.Some? <==> inspection.Pass? && marker.runId == inspection.identity.owner && Frame(inspection.identity.frameId, marker) in frames
      ensures r.Some? ==> r.value == Frame(inspection.identity.frameId, marker)
    {
      if !inspection.Pass? || marker.runId != inspection.identity.owner { return None; }
      var at := FindFrame(frames, Frame(inspection.identity.frameId, marker));
      r := if at == -1 then None else Some(frames[at]);
    }

    method Settle(frameId: string, marker: Marker) returns (found: bool)
      modifies this, slots
      ensures Abstract() == Apply(old(Abstract()), Op.Settle(frameId, marker))
      ensures found <==> Frame(frameId, marker) in old(frames)
      ensures slots.value != old(slots.value) ==> old(slots.value) == FrameSlots(Frame(frameId, marker))
    {
      hide FrameSlots;
      var at := FindFrame(frames, Frame(frameId, marker));
      if at < 0 { return false; }
      var frame := frames[at];
      var owns := slots.value == FrameSlots(frame);
      frames := frames[..at] + frames[at + 1..];
      if owns && base.Some? { slots.value := base.value.slots; }
      if frames == [] { base := None; }
      found := true;
    }

    method RestoreBaseIfOwned() returns (restored: bool)
      modifies slots
      ensures slots.value == Restored(old(Abstract())) && base == old(base) && frames == old(frames)
      ensures restored <==> old(base.Some? && OwnsSlots(Abstract()))
    {
      hide FrameSlots;
      restored := false;
      if base.Some? {
        var k := 0;
        while k < |frames| && !restored
          invariant 0 <= k <= |frames| && base == old(base) && frames == old(frames)
          invariant slots.value == old(slots.value)
          invariant !restored ==> forall j :: 0 <= j < k ==> FrameSlots(frames[j]) != slots.value
          invariant restored ==> OwnsSlots(Abstract())
        {
          restored := FrameSlots(frames[k]) == slots.value;
          k := k + 1;
        }
        if restored { slots.value := base.value.slots; }
      }
    }

    method SettleAll(marker: Marker) returns (found: bool)
      modifies this, slots
      ensures Abstract() == Apply(old(Abstract()), Op.SettleAll(marker))
      ensures found <==> old(base).Some? && old(base).value.marker == marker
    {
      if base.None? || base.value.marker != marker { return false; }
      var _ := RestoreBaseIfOwned();
      frames, base := [], None;
      found := true;
    }

    method Reset(restore: bool)
      modifies this, slots
      ensures Abstract() == Apply(old(Abstract()), Op.Reset(restore))
    {
      if restore { var _ := RestoreBaseIfOwned(); }
      frames, base := [], None;
    }
  }
}
