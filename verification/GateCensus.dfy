/** The bounded census buffer, with a sink and context getters that may call back into it or throw (gate-census.js). */
module GateCensus {

  const MAX_BUFFER_RECORDS: nat := 8192

  datatype Kind = Mark(family: string, phase: string) | Meta(dropped: nat)

  datatype Record = Record(seq_: nat, kind: Kind)

  /** What a caller-supplied function does when it is called: a list of calls back into the census, possibly cut
      short by an exception. */
  datatype Script = Script(actions: seq<Action>)

  datatype Action = CallMark(family: string, phase: string, ctx: Context) | CallDrain | Throw

  /** The context of one `mark`: what reading it does and whether that throws, and what the sink does with the record
      and with the eviction record, should there be one. */
  datatype Context = Context(getters: Script, throws: bool, onRecord: Script, onMeta: Script)

  /** The sink was called with `record` while the buffer held `size` records. */
  datatype SinkCall = SinkCall(record: Record, size: nat)

  datatype State = State(issued: nat, buffer: seq<Record>, drained: nat, dropped: nat, calls: seq<SinkCall>)

  // ---- What the operations compute ----

  /** The number of records evicted: a quarter, rounded up. */
  function EvictCount(length: nat): nat {
    (length + 3) / 4
  }

  function Push(s: State, kind: Kind): State {
    s.(issued := s.issued + 1, buffer := s.buffer + [Record(s.issued, kind)])
  }

  function AfterDrain(s: State): State {
    s.(buffer := [], drained := s.drained + |s.buffer|)
  }

  function Evicted(s: State): State {
    var n := EvictCount(|s.buffer|);
    if |s.buffer| == 0 then s
    else Push(s.(buffer := s.buffer[n..], dropped := s.dropped + n), Meta(n))
  }

  function CallSink(s: State, hasSink: bool, record: Record, script: Script): State
    decreases script, 1, 0
  {
    if !hasSink then s
    else Perform(s.(calls := s.calls + [SinkCall(record, |s.buffer|)]), hasSink, script, |script.actions|)
  }

  /** The first `n` actions of a script; the rest is lost once one of them throws. */
  function Perform(s: State, hasSink: bool, script: Script, n: nat): State
    requires n <= |script.actions|
    decreases script, 0, n
  {
    if n == 0 then s
    else
      var before := Perform(s, hasSink, script, n - 1);
      if Throws(script, n - 1) then before
      else
        match script.actions[n - 1]
        case CallMark(family, phase, ctx) => AfterMark(before, hasSink, family, phase, ctx)
        case CallDrain => AfterDrain(before)
        case Throw => before
  }

  /** One of the first `n` actions throws. */
  predicate Throws(script: Script, n: nat)
    requires n <= |script.actions|
  {
    exists k :: 0 <= k < n && script.actions[k].Throw?
  }

  function AfterMark(s: State, hasSink: bool, family: string, phase: string, ctx: Context): State
    decreases ctx
  {
    var read := Perform(s, hasSink, ctx.getters, |ctx.getters.actions|);
    if ctx.throws || Throws(ctx.getters, |ctx.getters.actions|) then read
    else
      var pushed := Push(read, Mark(family, phase));
      var record := Record(read.issued, Mark(family, phase));
      var capped := if |pushed.buffer| <= MAX_BUFFER_RECORDS then pushed
                    else
                      var evicted := Evicted(pushed);
                      CallSink(evicted, hasSink, Record(pushed.issued, Meta(EvictCount(|pushed.buffer|))), ctx.onMeta);
      CallSink(capped, hasSink, record, ctx.onRecord)
  }

  // ---- The invariant ----

  /** The buffer is within its cap and holds the latest records, numbered without a gap; every record issued is
      buffered, drained or dropped; no sink was ever called with the buffer over its cap. */
  ghost predicate Good(s: State) {
    && |s.buffer| <= MAX_BUFFER_RECORDS
    && Latest(s)
    && s.issued == |s.buffer| + s.drained + s.dropped
    && forall k :: 0 <= k < |s.calls| ==> s.calls[k].size <= MAX_BUFFER_RECORDS
  }

  ghost predicate Latest(s: State) {
    && |s.buffer| <= s.issued
    && forall i :: 0 <= i < |s.buffer| ==> s.buffer[i].seq_ == s.issued - |s.buffer| + i
  }

  /** The state right after a push, before the cap is enforced. */
  ghost predicate AlmostGood(s: State) {
    && 0 < |s.buffer| <= MAX_BUFFER_RECORDS + 1
    && Latest(s)
    && s.issued == |s.buffer| + s.drained + s.dropped
    && forall k :: 0 <= k < |s.calls| ==> s.calls[k].size <= MAX_BUFFER_RECORDS
  }

  lemma PushAlmost(s: State, kind: Kind)
    requires Good(s)
    ensures AlmostGood(Push(s, kind)) && |Push(s, kind).buffer| == |s.buffer| + 1
  {
  }

  /** Eviction happens at exactly one record over the cap: 2049 records go and one is added. */
  lemma EvictedGood(s: State)
    requires AlmostGood(s) && |s.buffer| > MAX_BUFFER_RECORDS
    ensures Good(Evicted(s)) && |Evicted(s).buffer| == 6145 && Evicted(s).dropped == s.dropped + 2049
  {
    assert |s.buffer| == 8193 && EvictCount(8193) == 2049;
    var cut := s.(buffer := s.buffer[2049..], dropped := s.dropped + 2049);
    assert forall i :: 0 <= i < |cut.buffer| ==> cut.buffer[i] == s.buffer[i + 2049];
  }

  lemma CallSinkGood(s: State, hasSink: bool, record: Record, script: Script)
    requires Good(s)
    ensures Good(CallSink(s, hasSink, record, script))
    decreases script, 1, 0
  {
    if hasSink {
      PerformGood(s.(calls := s.calls + [SinkCall(record, |s.buffer|)]), hasSink, script, |script.actions|);
    }
  }

  lemma {:induction false} PerformGood(s: State, hasSink: bool, script: Script, n: nat)
    requires Good(s) && n <= |script.actions|
    ensures Good(Perform(s, hasSink, script, n))
    decreases script, 0, n
  {
    if n > 0 {
      PerformGood(s, hasSink, script, n - 1);
      var before := Perform(s, hasSink, script, n - 1);
      match script.actions[n - 1]
      case CallMark(family, phase, ctx) => MarkGood(before, hasSink, family, phase, ctx);
      case CallDrain => DrainGood(before);
      case Throw =>
    }
  }

  lemma DrainGood(s: State)
    requires Good(s)
    ensures Good(AfterDrain(s))
  {
  }

  /** However the sink and the context behave, marking keeps the invariant. */
  lemma {:induction false} MarkGood(s: State, hasSink: bool, family: string, phase: string, ctx: Context)
    requires Good(s)
    ensures Good(AfterMark(s, hasSink, family, phase, ctx))
    decreases ctx
  {
    hide Good, AlmostGood, Push, Evicted;
    PerformGood(s, hasSink, ctx.getters, |ctx.getters.actions|);
    var read := Perform(s, hasSink, ctx.getters, |ctx.getters.actions|);
    var pushed := Push(read, Mark(family, phase));
    PushAlmost(read, Mark(family, phase));
    WithinCap(pushed);
    if |pushed.buffer| <= MAX_BUFFER_RECORDS {
      CallSinkGood(pushed, hasSink, Record(read.issued, Mark(family, phase)), ctx.onRecord);
    } else {
      var evicted, meta := Evicted(pushed), Record(pushed.issued, Meta(EvictCount(|pushed.buffer|)));
      EvictedGood(pushed);
      CallSinkGood(evicted, hasSink, meta, ctx.onMeta);
      CallSinkGood(CallSink(evicted, hasSink, meta, ctx.onMeta), hasSink, Record(read.issued, Mark(family, phase)), ctx.onRecord);
    }
  }

  lemma WithinCap(s: State)
    requires AlmostGood(s)
    ensures |s.buffer| <= MAX_BUFFER_RECORDS ==> Good(s)
  {
  }

  // ---- The census ----

  class Census {
    const enabled: bool
    const hasSink: bool
    var seq_: nat
    var buffer: seq<Record>
    ghost var drained: nat
    ghost var dropped: nat
    ghost var calls: seq<SinkCall>

    ghost function Abstract(): State
      reads this
    {
      State(seq_, buffer, drained, dropped, calls)
    }

    constructor (enabled: bool, hasSink: bool)
      ensures this.enabled == enabled && this.hasSink == hasSink
      ensures Abstract() == State(0, [], 0, 0, []) && Good(Abstract())
    {
      this.enabled, this.hasSink := enabled, hasSink;
      seq_, buffer := 0, [];
      drained, dropped, calls := 0, 0, [];
    }

    method Drain() returns (records: seq<Record>)
      modifies this
      ensures enabled ==> records == old(buffer) && Abstract() == AfterDrain(old(Abstract()))
      ensures !enabled ==> records == [] && Abstract() == old(Abstract())
      ensures old(Good(Abstract())) ==> Good(Abstract())
    {
      if !enabled { return []; }
      if Good(Abstract()) { DrainGood(Abstract()); }
      records := buffer;
      drained := drained + |buffer|;
      buffer := [];
    }

    method Sink(record: Record, script: Script)
      requires enabled
      modifies this
      ensures Abstract() == CallSink(old(Abstract()), hasSink, record, script)
      decreases script, 1, 0
    {
      if !hasSink { return; }
      calls := calls + [SinkCall(record, |buffer|)];
      var _ := Call(script);
    }

    /** Runs what a caller-supplied function does; says whether it throws. */
    method Call(script: Script) returns (threw: bool)
      requires enabled
      modifies this
      ensures Abstract() == Perform(old(Abstract()), hasSink, script, |script.actions|)
      ensures threw <==> Throws(script, |script.actions|)
      decreases script, 0, 0
    {
      threw := false;
      for n := 0 to |script.actions|
        invariant Abstract() == Perform(old(Abstract()), hasSink, script, n)
        invariant threw <==> Throws(script, n)
      {
        if !threw {
          match script.actions[n]
          case CallMark(family, phase, ctx) => Mark(family, phase, ctx);
          case CallDrain => var _ := Drain();
          case Throw => threw := true;
        }
      }
    }

    method EnforceCapacity(onMeta: Script)
      requires enabled
      modifies this
      ensures Abstract() ==
        if |old(buffer)| <= MAX_BUFFER_RECORDS then old(Abstract())
        else CallSink(Evicted(old(Abstract())), hasSink, Record(old(seq_), Meta(EvictCount(|old(buffer)|))), onMeta)
      decreases onMeta, 2, 0
    {
      if |buffer| <= MAX_BUFFER_RECORDS { return; }
      var count := EvictCount(|buffer|);
      buffer := buffer[count..];
      dropped := dropped + count;
      var meta := Record(seq_, Meta(count));
      seq_ := seq_ + 1;
      buffer := buffer + [meta];
      Sink(meta, onMeta);
    }

    method Mark(family: string, phase: string, ctx: Context)
      modifies this
      ensures Abstract() == if enabled then AfterMark(old(Abstract()), hasSink, family, phase, ctx) else old(Abstract())
      ensures old(Good(Abstract())) ==> Good(Abstract())
      decreases ctx
    {
      if !enabled { return; }
      if Good(Abstract()) { MarkGood(Abstract(), hasSink, family, phase, ctx); }
      var threw := Call(ctx.getters);
      if threw || ctx.throws { return; }
      var record := Record(seq_, Kind.Mark(family, phase));
      seq_ := seq_ + 1;
      buffer := buffer + [record];
      EnforceCapacity(ctx.onMeta);
      Sink(record, ctx.onRecord);
    }
  }
}
