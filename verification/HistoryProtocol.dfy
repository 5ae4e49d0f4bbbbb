/** The truncation protocol between the extension and the history service, as steps that may be cut off by a crash at
    every await. The service applies a command once per id and only on the epoch it expects (index.js,
    history-invalidation-guard.js; the two fields are those of control-operation-registry.js). */
module HistoryProtocol {
  import opened MessageSpans
  import opened PromptEntries
  import opened HistoryGuard

  /** A command the service has applied, and the branch epoch that made. */
  datatype Done = Done(command: Command, epoch: nat)

  /** The history service: its branch epoch and everything it has applied. */
  datatype Server = Server(epoch: nat, log: seq<Done>)

  /** What the extension has in memory. A crash or an error takes it back to `Idle`. */
  datatype Client =
    | Idle
    | Creating(guard: Guard)     // built on the epoch just read, not persisted yet
    | Merging(guard: Guard)      // a request merged in, not persisted yet
    | Awaiting(command: Command) // sent, no answer yet
    | Finishing(guard: Guard)    // answered, the outcome not persisted yet

  /** `sent` holds every command ever sent: each may arrive at any time, more than once. `persisted` and `used`
      record which commands were ever stored as active and which ids were ever generated. */
  datatype System = System(
    stored: Option<Guard>, client: Client, server: Server,
    sent: set<Command>, persisted: set<Command>, used: set<string>)

  // ---- The service ----

  ghost predicate Has(server: Server, id: string) {
    exists k :: 0 <= k < |server.log| && server.log[k].command.id == id
  }

  /** The service answers `c` with `epoch`. */
  ghost predicate Answers(server: Server, c: Command, epoch: int) {
    exists k :: 0 <= k < |server.log| && server.log[k].command.id == c.id && server.log[k].epoch == epoch
  }

  /** Exactly-once by id, compare-and-set on the epoch. */
  ghost predicate Serve(server: Server, c: Command, next: Server) {
    if Has(server, c.id) || c.expectedEpoch != server.epoch then next == server
    else next.epoch > server.epoch && next.log == server.log + [Done(c, next.epoch)]
  }

  // ---- Steps ----

  ghost predicate BeginCreate(s: System, t: System, q: Request, chatIdHash: string, id: string) {
    && s.client == Idle && s.stored.None? && id !in s.used
    && Create(q, chatIdHash, s.server.epoch, id).Success?
    && t == s.(client := Creating(Create(q, chatIdHash, s.server.epoch, id).value), used := s.used + {id})
  }

  ghost predicate BeginMerge(s: System, t: System, q: Request, id: string) {
    && s.client == Idle && s.stored.Some? && id !in s.used
    && Merge(s.stored.value, q, id).Success?
    && t == s.(client := Merging(Merge(s.stored.value, q, id).value.1), used := s.used + {id})
  }

  ghost predicate Send(s: System, t: System) {
    && s.client == Idle && s.stored.Some? && s.stored.value.active.Some?
    && t == s.(client := Awaiting(s.stored.value.active.value), sent := s.sent + {s.stored.value.active.value})
  }

  ghost predicate Deliver(s: System, t: System, c: Command) {
    c in s.sent && Serve(s.server, c, t.server) && t == s.(server := t.server)
  }

  ghost predicate Receive(s: System, t: System, epoch: nat, id: string) {
    && s.client.Awaiting? && s.stored.Some? && s.stored.value.active.Some? && id !in s.used
    && Answers(s.server, s.client.command, epoch)
    && Advance(s.stored.value, epoch, id).Success?
    && t == s.(client := Finishing(Advance(s.stored.value, epoch, id).value), used := s.used + {id})
  }

  ghost predicate Persist(s: System, t: System) {
    && (s.client.Creating? || s.client.Merging? || s.client.Finishing?)
    && t == s.(stored := Some(s.client.guard), client := Idle,
               persisted := s.persisted + (if s.client.guard.active.Some? then {s.client.guard.active.value} else {}))
  }

  ghost predicate Crash(s: System, t: System) {
    t == s.(client := Idle)
  }

  ghost predicate Settle(s: System, t: System) {
    s.client == Idle && s.stored.Some? && s.stored.value.active.None? && t == s.(stored := None)
  }

  ghost predicate Next(s: System, t: System) {
    || (exists q, chatIdHash, id :: BeginCreate(s, t, q, chatIdHash, id))
    || (exists q, id :: BeginMerge(s, t, q, id))
    || Send(s, t)
    || (exists c :: Deliver(s, t, c))
    || (exists epoch, id :: Receive(s, t, epoch, id))
    || Persist(s, t)
    || Crash(s, t)
    || Settle(s, t)
  }

  ghost predicate Init(s: System) {
    && s.stored.None? && s.client == Idle && s.sent == {} && s.persisted == {} && s.used == {}
    && s.server.log == []
  }

  ghost predicate Run(states: seq<System>) {
    && states != [] && Init(states[0])
    && forall k :: 0 <= k < |states| - 1 ==> Next(states[k], states[k + 1])
  }

  // ---- The invariant ----

  ghost predicate Latest(server: Server, c: Command) {
    && server.log != [] && server.log[|server.log| - 1].command == c
    && server.log[|server.log| - 1].epoch == server.epoch
  }

  /** The guard's view of the service. Its command is still to be applied on the current epoch, or it is what the
      service applied last; without a command its epoch is the current one. */
  ghost predicate Tracks(g: Guard, server: Server) {
    && Valid(g)
    && (g.active.None? ==> g.epoch == Some(server.epoch))
    && (g.active.Some? ==>
          if Has(server, g.active.value.id) then Latest(server, g.active.value)
          else g.active.value.expectedEpoch == server.epoch)
  }

  ghost predicate AppliedOnce(server: Server) {
    && (forall j, k :: 0 <= j < k < |server.log| ==> server.log[j].command.id != server.log[k].command.id)
    && (forall j, k :: 0 <= j < k < |server.log| ==> server.log[j].epoch < server.log[k].epoch)
    && (forall j :: 0 <= j < |server.log| ==> server.log[j].epoch <= server.epoch)
  }

  /** Ids are not shared. */
  ghost predicate OneCommandPerId(s: System) {
    && (forall c, d :: c in s.persisted && d in s.persisted && c.id == d.id ==> c == d)
    && (forall c :: c in s.persisted ==> c.id in s.used)
    && (forall k :: 0 <= k < |s.server.log| ==> s.server.log[k].command in s.persisted)
    && s.sent <= s.persisted
  }

  ghost predicate ActiveIsPersisted(s: System) {
    s.stored.Some? && s.stored.value.active.Some? ==> s.stored.value.active.value in s.persisted
  }

  /** Every command sent is applied, or is the one the stored guard holds. */
  ghost predicate Accounted(s: System) {
    forall c :: c in s.sent ==> Has(s.server, c.id) || (s.stored.Some? && s.stored.value.active == Some(c))
  }

  /** What the extension is about to store continues what is stored. */
  ghost predicate Pending(s: System) {
    match s.client
    case Idle => true
    case Creating(g) => s.stored.None? && Tracks(g, s.server) && FreshActive(s, g)
    case Merging(g) =>
      && s.stored.Some? && Tracks(g, s.server)
      && (if s.stored.value.active.Some? then g.active == s.stored.value.active else g.active.None? || FreshActive(s, g))
    case Awaiting(c) => s.stored.Some? && s.stored.value.active == Some(c)
    case Finishing(g) =>
      && s.stored.Some? && s.stored.value.active.Some? && Has(s.server, s.stored.value.active.value.id)
      && Tracks(g, s.server) && (g.active.None? || FreshActive(s, g))
  }

  /** The guard's command carries an id nobody has stored or sent before. */
  ghost predicate FreshActive(s: System, g: Guard) {
    g.active.Some? && g.active.value.id in s.used && forall c :: c in s.persisted ==> c.id != g.active.value.id
  }

  ghost predicate Inv(s: System) {
    && AppliedOnce(s.server) && OneCommandPerId(s) && ActiveIsPersisted(s) && Accounted(s) && Pending(s)
    && (s.stored.Some? ==> Tracks(s.stored.value, s.server))
  }

  lemma InitInv(s: System)
    requires Init(s)
    ensures Inv(s)
  {
  }

  lemma FreshNotApplied(s: System, id: string)
    requires OneCommandPerId(s) && forall c :: c in s.persisted ==> c.id != id
    ensures !Has(s.server, id)
  {
  }

  lemma CreateKeeps(s: System, t: System, q: Request, chatIdHash: string, id: string)
    requires Inv(s) && BeginCreate(s, t, q, chatIdHash, id)
    ensures Inv(t)
  {
    hide Valid, ValidCommand, Create;
    CreateSpec(q, chatIdHash, s.server.epoch, id);
    FreshNotApplied(s, id);
  }

  lemma MergeKeeps(s: System, t: System, q: Request, id: string)
    requires Inv(s) && BeginMerge(s, t, q, id)
    ensures Inv(t)
  {
    hide Valid, ValidCommand, Merge;
    MergeEffect(s.stored.value, q, id);
    FreshNotApplied(s, id);
  }

  lemma MergeEffect(g: Guard, q: Request, id: string)
    requires Valid(g) && Merge(g, q, id).Success?
    ensures var m := Merge(g, q, id).value.1;
      && Valid(m) && m.epoch == g.epoch
      && (if g.active.Some? then m.active == g.active
          else m.active.None? || (m.active.value.id == id && g.epoch == Some(m.active.value.expectedEpoch)))
  {
  }

  lemma SendKeeps(s: System, t: System)
    requires Inv(s) && Send(s, t)
    ensures Inv(t)
  {
    hide Valid;
  }

  lemma Unapplied(s: System, c: Command)
    requires Inv(s) && c in s.sent && !Has(s.server, c.id)
    ensures s.stored.Some? && s.stored.value.active == Some(c) && c.expectedEpoch == s.server.epoch
  {
  }

  lemma ServeOnce(server: Server, c: Command, next: Server)
    requires AppliedOnce(server) && Serve(server, c, next) && next != server
    ensures AppliedOnce(next) && Latest(next, c)
    ensures forall id :: Has(next, id) <==> Has(server, id) || id == c.id
    ensures !Has(server, c.id)
  {
    assert next.log[|next.log| - 1].command == c;
    forall id ensures Has(next, id) <==> Has(server, id) || id == c.id {
      if Has(server, id) {
        var k :| 0 <= k < |server.log| && server.log[k].command.id == id;
        assert next.log[k].command.id == id;
      }
    }
  }

  lemma DeliverKeeps(s: System, t: System, c: Command)
    requires Inv(s) && Deliver(s, t, c)
    ensures Inv(t)
  {
    hide Valid;
    if t.server != s.server {
      Unapplied(s, c);
      ServeOnce(s.server, c, t.server);
      DeliveredPending(s, t, c);
    }
  }

  lemma DeliveredPending(s: System, t: System, c: Command)
    requires Inv(s) && Deliver(s, t, c) && t.server != s.server
    requires s.stored.Some? && s.stored.value.active == Some(c) && !Has(s.server, c.id)
    requires Latest(t.server, c) && forall id :: Has(t.server, id) <==> Has(s.server, id) || id == c.id
    ensures Pending(t) && Tracks(t.stored.value, t.server)
  {
    hide Valid;
  }

  lemma AnsweredLatest(server: Server, c: Command, epoch: nat)
    requires AppliedOnce(server) && Latest(server, c) && Answers(server, c, epoch)
    ensures epoch == server.epoch
  {
    var k :| 0 <= k < |server.log| && server.log[k].command.id == c.id && server.log[k].epoch == epoch;
    var last := server.log[|server.log| - 1];
    assert server.log[k].command.id == last.command.id;
  }

  lemma ReceiveKeeps(s: System, t: System, epoch: nat, id: string)
    requires Inv(s) && Receive(s, t, epoch, id)
    ensures Inv(t)
  {
    hide Valid, Advance;
    var c := s.client.command;
    assert Has(s.server, c.id);
    AnsweredLatest(s.server, c, epoch);
    AdvanceEffect(s.stored.value, epoch, id);
    FreshNotApplied(s, id);
  }

  lemma AdvanceEffect(g: Guard, epoch: nat, id: string)
    requires g.active.Some? && Advance(g, epoch, id).Success?
    ensures var next := Advance(g, epoch, id).value;
      && Valid(next) && next.epoch == Some(epoch)
      && (next.active.None? || (next.active.value.id == id && next.active.value.expectedEpoch == epoch))
  {
  }

  lemma PersistKeeps(s: System, t: System)
    requires Inv(s) && Persist(s, t)
    ensures Inv(t)
  {
    hide Valid;
    if s.client.guard.active.Some? {
      var a := s.client.guard.active.value;
      if s.client.Merging? && s.stored.value.active.Some? {
        assert s.persisted + {a} == s.persisted;
      }
    }
  }

  lemma SettleKeeps(s: System, t: System)
    requires Inv(s) && Settle(s, t)
    ensures Inv(t)
  {
    hide Valid;
  }

  /** Every step keeps the invariant: a crash, a lost answer, a late or repeated delivery included. */
  lemma NextKeeps(s: System, t: System)
    requires Inv(s) && Next(s, t)
    ensures Inv(t)
  {
    hide Inv, BeginCreate, BeginMerge, Send, Deliver, Receive, Persist, Settle;
    if q, chatIdHash, id :| BeginCreate(s, t, q, chatIdHash, id) {
      CreateKeeps(s, t, q, chatIdHash, id);
    } else if q, id :| BeginMerge(s, t, q, id) {
      MergeKeeps(s, t, q, id);
    } else if Send(s, t) {
      SendKeeps(s, t);
    } else if c :| Deliver(s, t, c) {
      DeliverKeeps(s, t, c);
    } else if epoch, id :| Receive(s, t, epoch, id) {
      ReceiveKeeps(s, t, epoch, id);
    } else if Persist(s, t) {
      PersistKeeps(s, t);
    } else if Settle(s, t) {
      SettleKeeps(s, t);
    } else {
      CrashKeeps(s, t);
    }
  }

  lemma CrashKeeps(s: System, t: System)
    requires Inv(s) && Crash(s, t)
    ensures Inv(t)
  {
    hide Valid;
  }

  lemma {:induction false} RunKeeps(states: seq<System>, k: nat)
    requires Run(states) && k < |states|
    ensures Inv(states[k])
  {
    hide Inv, Next, Init;
    if k == 0 {
      InitInv(states[0]);
    } else {
      RunKeeps(states, k - 1);
      NextKeeps(states[k - 1], states[k]);
    }
  }

  // ---- What every run guarantees ----

  /** No command is ever sent that was not stored before; resending keeps id and payload; the service applies each id
      at most once, and never meets a command whose expected epoch is stale. */
  lemma ProtocolSafety(states: seq<System>, k: nat)
    requires Run(states) && k < |states|
    ensures states[k].sent <= states[k].persisted
    ensures forall c, d :: c in states[k].sent && d in states[k].sent && c.id == d.id ==> c == d
    ensures AppliedOnce(states[k].server)
    ensures forall c :: c in states[k].sent && !Has(states[k].server, c.id) ==> c.expectedEpoch == states[k].server.epoch
  {
    hide Next, Init;
    RunKeeps(states, k);
    var s := states[k];
    forall c | c in s.sent && !Has(s.server, c.id) ensures c.expectedEpoch == s.server.epoch {
      Unapplied(s, c);
    }
  }

  /** The stored guard never falls behind the service. */
  lemma EpochTracked(states: seq<System>, k: nat)
    requires Run(states) && k < |states| && states[k].stored.Some?
    ensures Tracks(states[k].stored.value, states[k].server)
  {
    hide Next, Init, Tracks;
    RunKeeps(states, k);
  }

  /** A request merged while a command is outstanding leaves that command to be resent as it was. */
  lemma LoweringKeepsCommand(states: seq<System>, k: nat, t: System, q: Request, id: string, u: System)
    requires Run(states) && k < |states| && states[k].stored.Some? && states[k].stored.value.active.Some?
    requires BeginMerge(states[k], t, q, id) && Persist(t, u)
    ensures u.stored.Some? && u.stored.value.active == states[k].stored.value.active
  {
    hide Next, Init;
    RunKeeps(states, k);
    MergeEffect(states[k].stored.value, q, id);
  }

  // ---- Recovery ----

  /** From every reachable state a restart can complete the outstanding command: send, deliver, receive, persist. */
  lemma CanComplete(s: System, id: string) returns (path: seq<System>)
    requires Inv(s) && s.stored.Some? && s.stored.value.active.Some? && id !in s.used && ValidCommandId(id)
    ensures |path| == 6 && path[0] == s && forall k :: 0 <= k < 5 ==> Next(path[k], path[k + 1])
    ensures var g, h := s.stored.value, path[5].stored;
      && h.Some? && h.value.desiredCutoff == g.desiredCutoff && h.value.applied == Some(g.active.value.cutoff)
      && h.value.epoch == Some(path[5].server.epoch)
      && (if g.desiredCutoff < g.active.value.cutoff
          then h.value.active.Some? && h.value.active.value.cutoff == g.desiredCutoff
          else h.value.active.None?)
  {
    hide Valid, Advance, Inv;
    var c := s.stored.value.active.value;
    var a := s.(client := Idle);
    CrashKeeps(s, a);
    assert Crash(s, a);
    var b := a.(client := Awaiting(c), sent := a.sent + {c});
    assert Send(a, b);
    SendKeeps(a, b);
    var d := Delivered(b, c);
    DeliverKeeps(b, d, c);
    var e := Received(d, c, id);
    var f := e.(stored := Some(e.client.guard), client := Idle,
                persisted := e.persisted + (if e.client.guard.active.Some? then {e.client.guard.active.value} else {}));
    assert Persist(e, f);
    path := [s, a, b, d, e, f];
  }

  lemma Delivered(s: System, c: Command) returns (t: System)
    requires Inv(s) && c in s.sent && s.stored.Some? && s.stored.value.active == Some(c)
    ensures Deliver(s, t, c) && Next(s, t) && Has(t.server, c.id)
  {
    if Has(s.server, c.id) {
      t := s;
    } else {
      Unapplied(s, c);
      var server := Server(s.server.epoch + 1, s.server.log + [Done(c, s.server.epoch + 1)]);
      assert server.log[|s.server.log|].command == c;
      t := s.(server := server);
    }
    assert Deliver(s, t, c);
  }

  lemma Received(s: System, c: Command, id: string) returns (t: System)
    requires Inv(s) && s.client == Awaiting(c) && Has(s.server, c.id) && id !in s.used && ValidCommandId(id)
    ensures s.stored.Some? && s.stored.value.active == Some(c)
    ensures Next(s, t) && t.client.Finishing? && t.server == s.server
    ensures Advance(s.stored.value, s.server.epoch, id) == Success(t.client.guard)
    ensures var g, h := s.stored.value, t.client.guard;
      && h.desiredCutoff == g.desiredCutoff && h.applied == Some(c.cutoff) && h.epoch == Some(s.server.epoch)
      && (if g.desiredCutoff < c.cutoff then h.active.Some? && h.active.value.cutoff == g.desiredCutoff else h.active.None?)
  {
    hide Advance;
    var g := s.stored.value;
    AdvanceSpec(g, s.server.epoch, id);
    assert Latest(s.server, c);
    assert Answers(s.server, c, s.server.epoch) by {
      assert s.server.log[|s.server.log| - 1].command.id == c.id;
    }
    t := s.(client := Finishing(Advance(g, s.server.epoch, id).value), used := s.used + {id});
    assert Receive(s, t, s.server.epoch, id);
  }
}
