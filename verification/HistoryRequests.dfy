/** Whole runs of requests and truncations on one guard: the guard always wants the smallest coordinate asked for. */
module HistoryRequests {
  import opened MessageSpans
  import opened PromptEntries
  import opened HistoryGuard

  /** A request merged in, or one truncation completed. */
  datatype Step = Ask(request: Request, commandId: string) | Complete(epoch: int, nextCommandId: string)

  ghost function Apply(g: Guard, s: Step): Result<Guard, GuardError> {
    match s
    case Ask(q, id) =>
      var m := Merge(g, q, id);
      if m.Success? then Success(m.value.1) else Failure(m.error)
    case Complete(epoch, id) =>
      if g.active.None? then Success(g) else Advance(g, epoch, id)
  }

  /** Every step of the run is accepted, and leads from one guard to the next. */
  ghost predicate Run(guards: seq<Guard>, steps: seq<Step>) {
    && |guards| == |steps| + 1
    && forall k :: 0 <= k < |steps| ==> Apply(guards[k], steps[k]) == Success(guards[k + 1])
  }

  /** The guard was made from request `q`, and then saw the requests of the steps. */
  ghost predicate Started(guards: seq<Guard>, q: Request, chatIdHash: string, epoch: int, commandId: string) {
    guards != [] && Create(q, chatIdHash, epoch, commandId) == Success(guards[0])
  }

  /** Exactly what a step needs to be accepted. */
  ghost predicate Acceptable(g: Guard, s: Step) {
    match s
    case Ask(q, id) =>
      && 0 <= q.cutoff && q.cutoff < g.hostHistoryLength && q.cutoff < q.hostHistoryLength
      && (q.release == q.cutoff || q.release == q.cutoff + 1) && ValidReason(q.reason)
      && (q.cutoff < g.desiredCutoff && g.active.None? ==> ValidCommandId(id))
    case Complete(epoch, id) =>
      g.active.Some? ==> epoch >= 0 && (g.desiredCutoff < g.active.value.cutoff ==> ValidCommandId(id))
  }

  lemma AcceptedIff(g: Guard, s: Step)
    requires Valid(g)
    ensures Apply(g, s).Success? <==> Acceptable(g, s)
    ensures Apply(g, s).Success? ==> Valid(Apply(g, s).value)
  {
  }

  /** Every accepted run keeps the full guard invariant. */
  lemma {:induction false} RunKeepsValid(guards: seq<Guard>, steps: seq<Step>, k: nat)
    requires Run(guards, steps) && Valid(guards[0]) && k < |guards|
    ensures Valid(guards[k])
  {
    if k > 0 {
      RunKeepsValid(guards, steps, k - 1);
      AcceptedIff(guards[k - 1], steps[k - 1]);
      assert Apply(guards[k - 1], steps[k - 1]) == Success(guards[k]);
    }
  }

  ghost predicate Wants(g: Guard, q: Request) {
    g.desiredCutoff == q.cutoff && g.desiredRelease == q.release && g.desiredReason == q.reason
  }

  /** Not smaller than what the guard wants. */
  ghost predicate Covered(g: Guard, q: Request) {
    !Below(q.cutoff, q.release, g.desiredCutoff, g.desiredRelease)
  }

  lemma StepEffect(g: Guard, s: Step)
    requires Valid(g) && Apply(g, s).Success?
    ensures var next := Apply(g, s).value;
      && (s.Ask? && Below(s.request.cutoff, s.request.release, g.desiredCutoff, g.desiredRelease) ==> Wants(next, s.request))
      && (!(s.Ask? && Below(s.request.cutoff, s.request.release, g.desiredCutoff, g.desiredRelease)) ==>
            next.desiredCutoff == g.desiredCutoff && next.desiredRelease == g.desiredRelease && next.desiredReason == g.desiredReason)
  {
  }

  /** The request that decided what guard `k` wants: the first one, or that of step `by - 1`. */
  ghost predicate DecidedBy(guards: seq<Guard>, first: Request, steps: seq<Step>, k: nat, decider: nat)
    requires k < |guards| == |steps| + 1
  {
    && decider <= k
    && (if decider == 0 then Wants(guards[k], first) else steps[decider - 1].Ask? && Wants(guards[k], steps[decider - 1].request))
    && (decider > 0 ==> Below(guards[k].desiredCutoff, guards[k].desiredRelease, first.cutoff, first.release))
    && (forall j :: 0 <= j < k && steps[j].Ask? ==> Covered(guards[k], steps[j].request))
    && Covered(guards[k], first)
    && (forall j :: 0 <= j < k && j + 1 < decider && steps[j].Ask? ==>
          Below(guards[k].desiredCutoff, guards[k].desiredRelease, steps[j].request.cutoff, steps[j].request.release))
  }

  /** After any accepted run the guard wants the lexicographic minimum of all requests, for the reason of the first
      request that asked for it. */
  lemma {:induction false} WantsMinimum(
      guards: seq<Guard>, first: Request, steps: seq<Step>, chatIdHash: string, epoch: int, commandId: string, k: nat)
    returns (decider: nat)
    requires Run(guards, steps) && Started(guards, first, chatIdHash, epoch, commandId) && k < |guards|
    ensures DecidedBy(guards, first, steps, k, decider)
  {
    CreateSpec(first, chatIdHash, epoch, commandId);
    if k == 0 {
      decider := 0;
    } else {
      decider := WantsMinimum(guards, first, steps, chatIdHash, epoch, commandId, k - 1);
      RunKeepsValid(guards, steps, k - 1);
      assert Apply(guards[k - 1], steps[k - 1]) == Success(guards[k]);
      StepEffect(guards[k - 1], steps[k - 1]);
      decider := DecideNext(guards, first, steps, k, decider);
    }
  }

  lemma DecideNext(guards: seq<Guard>, first: Request, steps: seq<Step>, k: nat, was: nat) returns (decider: nat)
    requires 0 < k < |guards| == |steps| + 1 && DecidedBy(guards, first, steps, k - 1, was)
    requires var g, s, next := guards[k - 1], steps[k - 1], guards[k];
      && (s.Ask? && Below(s.request.cutoff, s.request.release, g.desiredCutoff, g.desiredRelease) ==> Wants(next, s.request))
      && (!(s.Ask? && Below(s.request.cutoff, s.request.release, g.desiredCutoff, g.desiredRelease)) ==>
            next.desiredCutoff == g.desiredCutoff && next.desiredRelease == g.desiredRelease && next.desiredReason == g.desiredReason)
    ensures DecidedBy(guards, first, steps, k, decider)
  {
    var g, s := guards[k - 1], steps[k - 1];
    if s.Ask? && Below(s.request.cutoff, s.request.release, g.desiredCutoff, g.desiredRelease) {
      decider := k;
    } else {
      decider := was;
    }
  }

  /** Whatever the order of the requests: two runs that saw the same coordinates want the same coordinate. */
  lemma OrderDoesNotMatter(
      guards: seq<Guard>, first: Request, steps: seq<Step>, k: nat, decider: nat,
      others: seq<Guard>, otherFirst: Request, otherSteps: seq<Step>, l: nat, otherBy: nat)
    requires k < |guards| == |steps| + 1 && DecidedBy(guards, first, steps, k, decider)
    requires l < |others| == |otherSteps| + 1 && DecidedBy(others, otherFirst, otherSteps, l, otherBy)
    requires Asked(first, steps[..k]) == Asked(otherFirst, otherSteps[..l])
    ensures guards[k].desiredCutoff == others[l].desiredCutoff && guards[k].desiredRelease == others[l].desiredRelease
  {
    var mine, theirs := (guards[k].desiredCutoff, guards[k].desiredRelease), (others[l].desiredCutoff, others[l].desiredRelease);
    AskedBy(guards, first, steps, k, decider);
    AskedBy(others, otherFirst, otherSteps, l, otherBy);
    AllCovered(guards, first, steps, k, decider, theirs);
    AllCovered(others, otherFirst, otherSteps, l, otherBy, mine);
  }

  /** The coordinates asked for. */
  ghost function Asked(first: Request, steps: seq<Step>): set<(int, int)> {
    {(first.cutoff, first.release)} + set s | s in steps && s.Ask? :: (s.request.cutoff, s.request.release)
  }

  lemma AskedBy(guards: seq<Guard>, first: Request, steps: seq<Step>, k: nat, decider: nat)
    requires k < |guards| == |steps| + 1 && DecidedBy(guards, first, steps, k, decider)
    ensures (guards[k].desiredCutoff, guards[k].desiredRelease) in Asked(first, steps[..k])
  {
    if decider > 0 { assert steps[..k][decider - 1] == steps[decider - 1]; }
  }

  lemma AllCovered(guards: seq<Guard>, first: Request, steps: seq<Step>, k: nat, decider: nat, coordinate: (int, int))
    requires k < |guards| == |steps| + 1 && DecidedBy(guards, first, steps, k, decider)
    requires coordinate in Asked(first, steps[..k])
    ensures !Below(coordinate.0, coordinate.1, guards[k].desiredCutoff, guards[k].desiredRelease)
  {
    if coordinate != (first.cutoff, first.release) {
      var s :| s in steps[..k] && s.Ask? && (s.request.cutoff, s.request.release) == coordinate;
      var j :| 0 <= j < k && steps[..k][j] == s;
      assert steps[j] == s;
      assert Covered(guards[k], steps[j].request);
    }
  }

  // ---- The history a guard knows of ----

  /** Step `j` asked for something smaller than what the guard wanted then. */
  ghost predicate Won(guards: seq<Guard>, steps: seq<Step>, j: int) {
    && 0 <= j < |steps| && j < |guards| && steps[j].Ask?
    && Below(steps[j].request.cutoff, steps[j].request.release, guards[j].desiredCutoff, guards[j].desiredRelease)
  }

  /** The length guard `k` knows is the greatest of the first request and those that won before it: `longest` says whose. */
  ghost predicate KnowsLongest(guards: seq<Guard>, first: Request, steps: seq<Step>, k: nat, longest: nat)
    requires k < |guards| == |steps| + 1
  {
    && longest <= k
    && (if longest == 0 then guards[k].hostHistoryLength == first.hostHistoryLength
        else Won(guards, steps, longest - 1) && guards[k].hostHistoryLength == steps[longest - 1].request.hostHistoryLength)
    && first.hostHistoryLength <= guards[k].hostHistoryLength
    && forall j :: 0 <= j < k && Won(guards, steps, j) ==> steps[j].request.hostHistoryLength <= guards[k].hostHistoryLength
  }

  lemma StepLength(g: Guard, s: Step)
    requires Valid(g) && Apply(g, s).Success?
    ensures var next := Apply(g, s).value;
      && next.chatIdHash == g.chatIdHash
      && next.hostHistoryLength ==
           if s.Ask? && Below(s.request.cutoff, s.request.release, g.desiredCutoff, g.desiredRelease)
              && s.request.hostHistoryLength > g.hostHistoryLength
           then s.request.hostHistoryLength else g.hostHistoryLength
  {
  }

  /** After any accepted run the guard knows of the longest chat that a winning request came from, and of its own chat. */
  lemma {:induction false} KnowsMaximum(
      guards: seq<Guard>, first: Request, steps: seq<Step>, chatIdHash: string, epoch: int, commandId: string, k: nat)
    returns (longest: nat)
    requires Run(guards, steps) && Started(guards, first, chatIdHash, epoch, commandId) && k < |guards|
    ensures KnowsLongest(guards, first, steps, k, longest)
    ensures guards[k].chatIdHash == chatIdHash
  {
    CreateSpec(first, chatIdHash, epoch, commandId);
    if k == 0 {
      longest := 0;
    } else {
      longest := KnowsMaximum(guards, first, steps, chatIdHash, epoch, commandId, k - 1);
      RunKeepsValid(guards, steps, k - 1);
      assert Apply(guards[k - 1], steps[k - 1]) == Success(guards[k]);
      StepLength(guards[k - 1], steps[k - 1]);
      if guards[k].hostHistoryLength != guards[k - 1].hostHistoryLength { longest := k; }
    }
  }

  /** So every request inside the chat of a winning request is accepted from then on. */
  lemma InsideIsAccepted(
      guards: seq<Guard>, first: Request, steps: seq<Step>, chatIdHash: string, epoch: int, commandId: string, j: nat, k: nat,
      q: Request, id: string)
    requires Run(guards, steps) && Started(guards, first, chatIdHash, epoch, commandId) && j < k < |guards|
    requires Won(guards, steps, j) && q.cutoff < steps[j].request.hostHistoryLength
    requires 0 <= q.cutoff <= q.release <= q.cutoff + 1 && q.cutoff < q.hostHistoryLength && ValidReason(q.reason) && ValidCommandId(id)
    ensures Merge(guards[k], q, id).Success?
  {
    hide Merge, Apply;
    CreateSpec(first, chatIdHash, epoch, commandId);
    var longest := KnowsMaximum(guards, first, steps, chatIdHash, epoch, commandId, k);
    RunKeepsValid(guards, steps, k);
    MergeSpec(guards[k], q, id);
  }
}
