/** The persisted guard of an edited chat history: what is valid, how requests merge into it, how it is reconciled
    with the history service and how its resolution is planned (history-invalidation-guard.js). */
module HistoryGuard {
  import opened MessageSpans
  import opened PromptEntries
  import opened TextPatterns
  import opened Decimal

  datatype GuardError = GuardInvalid | CommandInvalid | CoordinateInvalid | EpochMissing | LimitExceeded

  datatype Status = TruncationPending | TailRegenerationRequired

  datatype Command = Command(id: string, cutoff: int, expectedEpoch: int, reason: string)

  datatype Guard = Guard(
    chatIdHash: string,
    status: Status,
    desiredCutoff: int,
    desiredReason: string,
    desiredRelease: int,
    hostHistoryLength: int,
    applied: Option<int>,
    epoch: Option<int>,
    active: Option<Command>)

  // ---- Validity ----

  predicate IsLower(c: char) { 'a' <= c <= 'z' }

  predicate IsAlphanumeric(c: char) { IsLower(c) || IsDigit(c) || 'A' <= c <= 'Z' }

  predicate ValidCommandId(s: string) {
    && s != "" && IsAlphanumeric(s[0])
    && forall i :: 0 < i < |s| ==> IsAlphanumeric(s[i]) || s[i] in {'.', '_', '-'}
  }

  predicate ValidReason(s: string) {
    && s != "" && (IsLower(s[0]) || IsDigit(s[0]))
    && forall i :: 0 < i < |s| ==> IsLower(s[i]) || IsDigit(s[i]) || s[i] == '_'
  }

  predicate ValidCommand(c: Command) {
    ValidCommandId(c.id) && c.cutoff >= 0 && c.expectedEpoch >= 0 && ValidReason(c.reason)
  }

  predicate ValidCoordinates(g: Guard) {
    && g.desiredCutoff >= 0 && ValidReason(g.desiredReason)
    && g.desiredCutoff <= g.desiredRelease <= g.desiredCutoff + 1
    && g.desiredCutoff < g.hostHistoryLength && g.desiredRelease <= g.hostHistoryLength
    && (g.applied.Some? ==> g.desiredCutoff <= g.applied.value < g.hostHistoryLength)
    && (g.epoch.Some? ==> g.epoch.value >= 0)
    && (g.active.Some? ==> ValidCommand(g.active.value))
  }

  /** Accepted by assertHistoryInvalidationGuard. */
  predicate Valid(g: Guard) {
    && ValidHash(g.chatIdHash) && ValidCoordinates(g)
    && (g.applied.Some? <==> g.epoch.Some?)
    && (g.active.Some? ==>
          && g.status == TruncationPending
          && g.desiredCutoff <= g.active.value.cutoff < g.hostHistoryLength
          && (g.epoch.Some? ==> g.active.value.expectedEpoch == g.epoch.value))
    && (g.active.None? ==> g.status == TailRegenerationRequired && g.applied == Some(g.desiredCutoff))
  }

  ghost predicate WordChar(c: char) { 'a' <= c <= 'z' || '0' <= c <= '9' }

  /** Lower-case words joined by underscores; the first character is not one. */
  ghost predicate Words(s: string) {
    s != "" && s[0] != '_' && forall k :: 0 <= k < |s| ==> WordChar(s[k]) || s[k] == '_'
  }

  /** Letters and digits; behind the first one also dots, underscores and hyphens. */
  ghost predicate IdText(s: string) {
    s != "" && forall k :: 0 <= k < |s| ==>
      WordChar(s[k]) || 'A' <= s[k] <= 'Z' || (k > 0 && (s[k] == '.' || s[k] == '_' || s[k] == '-'))
  }

  ghost predicate HashText(s: string) {
    |s| == 64 && forall k :: 0 <= k < |s| ==> '0' <= s[k] <= '9' || 'a' <= s[k] <= 'f'
  }

  lemma TextsIff(s: string)
    ensures ValidReason(s) <==> Words(s)
    ensures ValidCommandId(s) <==> IdText(s)
    ensures ValidHash(s) <==> HashText(s)
  {
    assert ValidHash(s) <==> HashText(s);
  }

  /** Where the guard wants to be: inside the host history, released at the cutoff or right after it. */
  ghost predicate Inside(g: Guard) {
    && HashText(g.chatIdHash) && Words(g.desiredReason) && 0 <= g.desiredCutoff < g.hostHistoryLength
    && (g.desiredRelease == g.desiredCutoff || g.desiredRelease == g.desiredCutoff + 1)
  }

  /** A command is outstanding; it is at or behind the desired cutoff and was made for the epoch that is known, if any. */
  ghost predicate Outstanding(g: Guard) {
    && g.status == TruncationPending && g.active.Some?
    && var c := g.active.value;
       && IdText(c.id) && Words(c.reason) && c.expectedEpoch >= 0
       && g.desiredCutoff <= c.cutoff < g.hostHistoryLength
       && ((g.applied.None? && g.epoch.None?)
           || (g.epoch == Some(c.expectedEpoch) && g.applied.Some? && g.desiredCutoff <= g.applied.value < g.hostHistoryLength))
  }

  /** Everything that was wanted has been applied, under a known epoch. */
  ghost predicate Reached(g: Guard) {
    && g.status == TailRegenerationRequired && g.active.None?
    && g.applied == Some(g.desiredCutoff) && g.epoch.Some? && g.epoch.value >= 0
  }

  /** A valid guard is in one of two states. */
  lemma ValidIff(g: Guard)
    ensures Valid(g) <==> Inside(g) && (Outstanding(g) || Reached(g))
  {
    TextsIff(g.chatIdHash);
    TextsIff(g.desiredReason);
    if g.active.Some? { TextsIff(g.active.value.id); TextsIff(g.active.value.reason); }
    hide ValidReason, ValidCommandId, ValidHash, Words, IdText, HashText;
    if g.active.Some? { assert !Reached(g); } else { assert !Outstanding(g); }
  }

  // ---- Requests ----

  datatype Request = Request(cutoff: int, release: int, hostHistoryLength: int, reason: string)

  /** Lexicographically smaller: an earlier cutoff, or the same one released earlier. */
  predicate Below(c: int, r: int, d: int, s: int) {
    c < d || (c == d && r < s)
  }

  function Create(q: Request, chatIdHash: string, epoch: int, commandId: string): Result<Guard, GuardError> {
    var c := Command(commandId, q.cutoff, epoch, q.reason);
    if !ValidCommand(c) then Failure(CommandInvalid)
    else
      var g := Guard(chatIdHash, TruncationPending, q.cutoff, q.reason, q.release, q.hostHistoryLength, None, None, Some(c));
      if Valid(g) then Success(g) else Failure(GuardInvalid)
  }

  predicate AcceptableTo(g: Guard, q: Request) {
    && 0 <= q.cutoff < g.hostHistoryLength && q.cutoff <= q.release <= q.cutoff + 1
    && q.cutoff < q.hostHistoryLength && ValidReason(q.reason)
  }

  /** Merges a request; also says whether the guard changed. */
  function Merge(g: Guard, q: Request, commandId: string): Result<(bool, Guard), GuardError> {
    if !Valid(g) then Failure(GuardInvalid)
    else if !AcceptableTo(g, q) then Failure(CoordinateInvalid)
    else if q.cutoff > g.desiredCutoff || (q.cutoff == g.desiredCutoff && q.release >= g.desiredRelease) then Success((false, g))
    else
      var lowered := q.cutoff < g.desiredCutoff;
      var merged := g.(desiredCutoff := q.cutoff, desiredReason := q.reason, desiredRelease := q.release,
                       hostHistoryLength := if g.hostHistoryLength < q.hostHistoryLength then q.hostHistoryLength else g.hostHistoryLength);
      if lowered && merged.active.None? then
        if merged.epoch.None? then Failure(CommandInvalid)
        else
          var c := Command(commandId, q.cutoff, merged.epoch.value, q.reason);
          if !ValidCommand(c) then Failure(CommandInvalid)
          else
            var pending := merged.(status := TruncationPending, active := Some(c));
            if Valid(pending) then Success((true, pending)) else Failure(GuardInvalid)
      else if Valid(merged) then Success((true, merged)) else Failure(GuardInvalid)
  }

  /** Which of the checks refuses a request. */
  lemma MergeRefused(g: Guard, q: Request, commandId: string)
    ensures var fits := && 0 <= q.cutoff < g.hostHistoryLength && q.cutoff < q.hostHistoryLength
                        && (q.release == q.cutoff || q.release == q.cutoff + 1) && ValidReason(q.reason);
      match Merge(g, q, commandId)
      case Success(_) => Valid(g) && fits
      case Failure(error) =>
        error == if !Valid(g) then GuardInvalid else if !fits then CoordinateInvalid else CommandInvalid
    ensures Merge(g, q, commandId) == Failure(CommandInvalid) ==>
      q.cutoff < g.desiredCutoff && g.active.None? && !ValidCommandId(commandId)
  {
  }

  /** A valid guard takes every acceptable request, keeps its invariant, its active command and what was applied,
      and wants the smaller of the two coordinates afterwards. */
  lemma MergeSpec(g: Guard, q: Request, commandId: string)
    requires Valid(g) && AcceptableTo(g, q) && ValidCommandId(commandId)
    ensures Merge(g, q, commandId).Success?
    ensures var m := Merge(g, q, commandId).value;
      && Valid(m.1)
      && (m.0 <==> Below(q.cutoff, q.release, g.desiredCutoff, g.desiredRelease))
      && (if m.0 then m.1.desiredCutoff == q.cutoff && m.1.desiredRelease == q.release && m.1.desiredReason == q.reason else m.1 == g)
      && (g.active.Some? ==> m.1.active == g.active)
      && m.1.applied == g.applied && m.1.epoch == g.epoch && m.1.chatIdHash == g.chatIdHash
      && m.1.hostHistoryLength == (if m.0 && q.hostHistoryLength > g.hostHistoryLength then q.hostHistoryLength else g.hostHistoryLength)
      && (g.active.None? ==>
            if q.cutoff < g.desiredCutoff then m.1.active == Some(Command(commandId, q.cutoff, g.epoch.value, q.reason))
            else m.1.active.None?)
  {
  }

  lemma CreateSpec(q: Request, chatIdHash: string, epoch: int, commandId: string)
    ensures Create(q, chatIdHash, epoch, commandId).Success? <==>
      && ValidHash(chatIdHash) && ValidCommandId(commandId) && epoch >= 0 && ValidReason(q.reason)
      && 0 <= q.cutoff <= q.release <= q.cutoff + 1 && q.cutoff < q.hostHistoryLength
    ensures var r := Create(q, chatIdHash, epoch, commandId);
      r.Success? ==>
        && Valid(r.value) && r.value.desiredCutoff == q.cutoff && r.value.desiredRelease == q.release && r.value.desiredReason == q.reason
        && r.value.active == Some(Command(commandId, q.cutoff, epoch, q.reason))
        && r.value.hostHistoryLength == q.hostHistoryLength && r.value.chatIdHash == chatIdHash
        && r.value.applied.None? && r.value.epoch.None?
    ensures Create(q, chatIdHash, epoch, commandId) == Failure(CommandInvalid) <==>
      !(ValidCommandId(commandId) && q.cutoff >= 0 && epoch >= 0 && ValidReason(q.reason))
    ensures Create(q, chatIdHash, epoch, commandId).Failure? ==>
      Create(q, chatIdHash, epoch, commandId).error in {CommandInvalid, GuardInvalid}
  {
  }

  // ---- One truncation done ----

  /** The guard once the active command has been applied and the service is at `epoch`. */
  function Advance(g: Guard, epoch: int, commandId: string): Result<Guard, GuardError>
    requires g.active.Some?
  {
    var done, earlier := g.active.value, g.desiredCutoff < g.active.value.cutoff;
    var c := Command(commandId, g.desiredCutoff, epoch, g.desiredReason);
    if earlier && !ValidCommand(c) then Failure(CommandInvalid)
    else
      var next := g.(status := if earlier then TruncationPending else TailRegenerationRequired,
                     applied := Some(done.cutoff), epoch := Some(epoch),
                     active := if earlier then Some(c) else None);
      if Valid(next) then Success(next) else Failure(GuardInvalid)
  }

  lemma AdvanceSpec(g: Guard, epoch: int, commandId: string)
    requires Valid(g) && g.active.Some? && epoch >= 0 && ValidCommandId(commandId)
    ensures Advance(g, epoch, commandId).Success?
    ensures var next := Advance(g, epoch, commandId).value;
      && Valid(next) && next.epoch == Some(epoch) && next.applied == Some(g.active.value.cutoff)
      && next.desiredCutoff == g.desiredCutoff && next.desiredRelease == g.desiredRelease && next.desiredReason == g.desiredReason
      && next.hostHistoryLength == g.hostHistoryLength && next.chatIdHash == g.chatIdHash
      && (if g.desiredCutoff < g.active.value.cutoff
          then next.active == Some(Command(commandId, g.desiredCutoff, epoch, g.desiredReason))
          else next.active.None? && next.applied == Some(next.desiredCutoff))
  {
  }

  /** A broken answer is refused: as a command if another one is due, as a guard otherwise. */
  lemma AdvanceRefused(g: Guard, epoch: int, commandId: string)
    requires Valid(g) && g.active.Some?
    ensures var another := g.desiredCutoff < g.active.value.cutoff;
      && (Advance(g, epoch, commandId) == Failure(CommandInvalid) <==> another && (epoch < 0 || !ValidCommandId(commandId)))
      && (Advance(g, epoch, commandId) == Failure(GuardInvalid) <==> !another && epoch < 0)
  {
  }

  // ---- Reconciling ----

  datatype Event = Sent(command: Command) | Persisted(guard: Guard)

  /** The guard that is stored after the events: the last one persisted, or the one to start with. */
  ghost function StoredAfter(initial: Guard, events: seq<Event>): Guard {
    if events == [] then initial
    else if events[|events| - 1].Persisted? then events[|events| - 1].guard
    else StoredAfter(initial, events[..|events| - 1])
  }

  /** Whatever is sent is, at that moment, the active command of the stored guard. */
  ghost predicate StoredBeforeSent(initial: Guard, events: seq<Event>) {
    forall k :: 0 <= k < |events| && events[k].Sent? ==> StoredAfter(initial, events[..k]).active == Some(events[k].command)
  }

  ghost predicate PersistsValid(events: seq<Event>) {
    forall k :: 0 <= k < |events| && events[k].Persisted? ==> Valid(events[k].guard)
  }

  ghost function Sends(events: seq<Event>): nat {
    if events == [] then 0 else Sends(events[..|events| - 1]) + (if events[|events| - 1].Sent? then 1 else 0)
  }

  lemma OneMoreEvent(initial: Guard, events: seq<Event>, e: Event)
    requires StoredBeforeSent(initial, events) && PersistsValid(events)
    requires e.Sent? ==> StoredAfter(initial, events).active == Some(e.command)
    requires e.Persisted? ==> Valid(e.guard)
    ensures StoredBeforeSent(initial, events + [e]) && PersistsValid(events + [e])
    ensures Sends(events + [e]) == Sends(events) + (if e.Sent? then 1 else 0)
    ensures StoredAfter(initial, events + [e]) == if e.Persisted? then e.guard else StoredAfter(initial, events)
  {
    var more := events + [e];
    assert more[..|events|] == events;
    forall k | 0 <= k < |more| && more[k].Sent? ensures StoredAfter(initial, more[..k]).active == Some(more[k].command) {
      if k < |events| { assert more[..k] == events[..k]; }
    }
  }

  lemma ActiveFits(g: Guard)
    requires Valid(g)
    ensures g.active.Some? ==> g.desiredCutoff <= g.active.value.cutoff
    ensures g.active.None? ==> g.applied == Some(g.desiredCutoff)
  {
  }

  /** Sends the active command, stores the outcome, and goes on until no command is left. `epochs` answers the
      attempts (None: no valid epoch came back), `ids` provides command ids. */
  method Reconcile(initial: Guard, epochs: nat -> Option<int>, ids: nat -> string)
    returns (r: Result<Guard, GuardError>, stored: Guard, ghost events: seq<Event>)
    requires Valid(initial)
    ensures StoredBeforeSent(initial, events) && PersistsValid(events) && Sends(events) <= 2
    ensures stored == StoredAfter(initial, events) && Valid(stored)
    ensures stored.desiredCutoff == initial.desiredCutoff && stored.desiredRelease == initial.desiredRelease
    ensures r.Success? ==>
      && Valid(r.value) && r.value.active.None? && r.value.applied == Some(initial.desiredCutoff)
      && r.value.desiredCutoff == initial.desiredCutoff && r.value.desiredRelease == initial.desiredRelease
      && r.value.hostHistoryLength == initial.hostHistoryLength && r.value.chatIdHash == initial.chatIdHash
      && stored == r.value
    ensures (forall k :: 0 <= k < 2 ==> epochs(k).Some? && epochs(k).value >= 0 && ValidCommandId(ids(k))) ==> r.Success?
    ensures r != Failure(LimitExceeded)
  {
    hide Valid, StoredAfter, Sends, StoredBeforeSent, PersistsValid;
    var guard := initial;
    events := [];
    NoEvents(initial);
    ActiveFits(guard);
    for attempt := 0 to 128
      invariant Valid(guard) && StoredAfter(initial, events) == guard
      invariant StoredBeforeSent(initial, events) && PersistsValid(events) && Sends(events) == attempt
      invariant attempt <= 2 && (attempt == 2 ==> guard.active.None?)
      invariant attempt == 1 && guard.active.Some? ==> guard.active.value.cutoff == guard.desiredCutoff
      invariant guard.desiredCutoff == initial.desiredCutoff && guard.desiredRelease == initial.desiredRelease
      invariant guard.hostHistoryLength == initial.hostHistoryLength && guard.chatIdHash == initial.chatIdHash
    {
      ActiveFits(guard);
      if guard.active.None? { return Success(guard), guard, events; }
      var command := guard.active.value;
      OneMoreEvent(initial, events, Sent(command));
      events := events + [Sent(command)];
      var answer := epochs(attempt);
      if answer.None? || answer.value < 0 { return Failure(EpochMissing), guard, events; }
      var next := Advance(guard, answer.value, ids(attempt));
      if next.Failure? {
        if ValidCommandId(ids(attempt)) { AdvanceSpec(guard, answer.value, ids(attempt)); }
        return Failure(next.error), guard, events;
      }
      AdvanceValid(guard, answer.value, ids(attempt));
      OneMoreEvent(initial, events, Persisted(next.value));
      guard := next.value;
      events := events + [Persisted(guard)];
    }
    r, stored := Failure(LimitExceeded), guard;
  }

  lemma NoEvents(initial: Guard)
    ensures StoredAfter(initial, []) == initial && StoredBeforeSent(initial, []) && PersistsValid([]) && Sends([]) == 0
  {
  }

  lemma AdvanceValid(g: Guard, epoch: int, commandId: string)
    requires g.active.Some? && Advance(g, epoch, commandId).Success?
    ensures var next := Advance(g, epoch, commandId).value;
      && Valid(next) && next.desiredCutoff == g.desiredCutoff && next.desiredRelease == g.desiredRelease
      && next.hostHistoryLength == g.hostHistoryLength && next.chatIdHash == g.chatIdHash
      && (if g.desiredCutoff < g.active.value.cutoff
          then next.active.Some? && next.active.value.cutoff == g.desiredCutoff
          else next.active.None?)
  {
  }

  // ---- Planning ----

  datatype Plan = Lower(cutoff: int, release: int) | ReconcileThenRecheck | Clear | Block

  function PlanFor(g: Guard, chatLength: nat): Plan {
    if chatLength < g.desiredRelease then Lower(chatLength, chatLength)
    else if g.active.Some? then ReconcileThenRecheck
    else if chatLength == g.desiredRelease then Clear
    else Block
  }
}
