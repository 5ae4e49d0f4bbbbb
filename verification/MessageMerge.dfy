/** Merging prompt messages of the same role, with the strict and placeholder modes (runtime.js,
    mergePromptMessageCopies). */
module MessageMerge {
  import opened MessageSpans

  datatype Role = System | User | Assistant | Tool | OtherRole(text: string)

  datatype ChatMessage = ChatMessage(role: Role, name: Option<string>, content: string)

  datatype Names = Names(charName: string, userName: string, groupNames: seq<string>)

  datatype Mode = Mode(strict: bool, placeholders: bool, single: bool, tools: bool)

  const SEPARATOR := "\n\n"

  // ---- One message ----

  predicate HasPrefix(content: string, name: string) {
    name + ": " <= content
  }

  function Prefixed(content: string, name: string): string {
    if name == "" || HasPrefix(content, name) then content else name + ": " + content
  }

  predicate StartsWithGroupName(content: string, names: Names) {
    exists k :: 0 <= k < |names.groupNames| && HasPrefix(content, names.groupNames[k])
  }

  /** The speaker put in front of a text, unless a group member is named there already. */
  function Spoken(content: string, names: Names): string {
    if StartsWithGroupName(content, names) then content else Prefixed(content, names.charName)
  }

  /** One message without its name: speakers moved into the text, roles reduced as the mode asks. */
  function Prepare(m: ChatMessage, names: Names, mode: Mode): (r: ChatMessage)
    ensures r.name.None?
    ensures !mode.tools ==> r.role != Tool
    ensures m.name.None? && !mode.single && (mode.tools || m.role != Tool) ==> r == m
    ensures m.content != "" ==> r.content != ""
  {
    var named :=
      if m.role == System && m.name == Some("example_assistant") then Spoken(m.content, names)
      else if m.role == System && m.name == Some("example_user") then Prefixed(m.content, names.userName)
      else if m.name.Some? && m.role != System then Prefixed(m.content, m.name.value)
      else m.content;
    var role := if m.role == Tool && !mode.tools then User else m.role;
    if !mode.single then ChatMessage(role, None, named)
    else
      ChatMessage(User, None,
        if role == Assistant then Spoken(named, names)
        else if role == User then Prefixed(named, names.userName)
        else named)
  }

  ghost function PrepareAll(ms: seq<ChatMessage>, names: Names, mode: Mode): (r: seq<ChatMessage>)
    ensures |r| == |ms| && forall k :: 0 <= k < |r| ==> r[k] == Prepare(ms[k], names, mode)
  {
    seq(|ms|, k requires 0 <= k < |ms| => Prepare(ms[k], names, mode))
  }

  // ---- Merging neighbours ----

  ghost predicate Joins(previous: ChatMessage, m: ChatMessage) {
    previous.role == m.role && m.content != "" && m.role != Tool
  }

  ghost function Append(merged: seq<ChatMessage>, m: ChatMessage): (r: seq<ChatMessage>)
    ensures r != []
  {
    if merged != [] && Joins(merged[|merged| - 1], m) then
      var previous := merged[|merged| - 1];
      merged[..|merged| - 1] + [previous.(content := previous.content + SEPARATOR + m.content)]
    else merged + [m]
  }

  ghost function Merged(ms: seq<ChatMessage>): seq<ChatMessage> {
    if ms == [] then [] else Append(Merged(ms[..|ms| - 1]), ms[|ms| - 1])
  }

  ghost function Demoted(ms: seq<ChatMessage>): (r: seq<ChatMessage>)
    ensures |r| == |ms|
    ensures forall k :: 0 <= k < |r| ==> r[k] == if k > 0 && ms[k].role == System then ms[k].(role := User) else ms[k]
  {
    seq(|ms|, k requires 0 <= k < |ms| => if k > 0 && ms[k].role == System then ms[k].(role := User) else ms[k])
  }

  /** A user message has to go in front. */
  ghost predicate Opens(ms: seq<ChatMessage>) {
    && ms != []
    && if ms[0].role == System then |ms| == 1 || ms[1].role != User else ms[0].role != User
  }

  ghost function Opened(ms: seq<ChatMessage>, placeholder: string): (r: seq<ChatMessage>)
    ensures !Opens(ms) ==> r == ms
    ensures Opens(ms) ==> |r| == |ms| + 1
  {
    if !Opens(ms) then ms
    else if ms[0].role == System then [ms[0], ChatMessage(User, None, placeholder)] + ms[1..]
    else [ChatMessage(User, None, placeholder)] + ms
  }

  ghost function OrPlaceholder(ms: seq<ChatMessage>, placeholder: string): (r: seq<ChatMessage>)
    ensures ms != [] ==> r == ms
    ensures ms == [] ==> |r| == 1 && r[0].role == User && r[0].content == placeholder
  {
    if ms == [] then [ChatMessage(User, None, placeholder)] else ms
  }

  /** The messages that go into the second merge of a strict mode. */
  ghost function Reshaped(ms: seq<ChatMessage>, mode: Mode, placeholder: string): seq<ChatMessage> {
    var demoted := Demoted(OrPlaceholder(Merged(ms), placeholder));
    if mode.placeholders then Opened(demoted, placeholder) else demoted
  }

  ghost function Transformed(ms: seq<ChatMessage>, names: Names, mode: Mode, placeholder: string): seq<ChatMessage> {
    var prepared := PrepareAll(ms, names, mode);
    if !mode.strict then OrPlaceholder(Merged(prepared), placeholder)
    else Merged(Reshaped(prepared, mode, placeholder))
  }

  /** The modes of PROMPT_POST_PROCESSING_OPTIONS; `claude` is another name of `merge`. */
  function ModeOf(option: string): (r: Option<Mode>)
    ensures r.Some? <==> option in {"claude", "merge", "merge_tools", "semi", "semi_tools", "strict", "strict_tools", "single"}
    ensures r.Some? ==>
      && (r.value.tools <==> option in {"merge_tools", "semi_tools", "strict_tools"})
      && (r.value.strict <==> option !in {"claude", "merge", "merge_tools"})
      && (r.value.placeholders <==> option in {"strict", "strict_tools"})
      && (r.value.single <==> option == "single")
  {
    match option
    case "claude" => Some(Mode(false, false, false, false))
    case "merge" => Some(Mode(false, false, false, false))
    case "merge_tools" => Some(Mode(false, false, false, true))
    case "semi" => Some(Mode(true, false, false, false))
    case "semi_tools" => Some(Mode(true, false, false, true))
    case "strict" => Some(Mode(true, true, false, false))
    case "strict_tools" => Some(Mode(true, true, false, true))
    case "single" => Some(Mode(true, false, true, false))
    case _ => None
  }

  method MergeNeighbours(ms: seq<ChatMessage>) returns (merged: seq<ChatMessage>)
    ensures merged == Merged(ms)
  {
    merged := [];
    assert Merged(ms[..0]) == [];
    hide Merged, Append;
    for k := 0 to |ms|
      invariant merged == Merged(ms[..k])
    {
      var m := ms[k];
      MergedNext(ms, k);
      AppendInPlace(merged, m);
      if merged != [] && merged[|merged| - 1].role == m.role && m.content != "" && m.role != Tool {
        var last := |merged| - 1;
        merged := merged[last := merged[last].(content := merged[last].content + SEPARATOR + m.content)];
      } else {
        merged := merged + [m];
      }
    }
    assert ms[..|ms|] == ms;
  }

  /** Appending overwrites the last message, or adds one. */
  lemma AppendInPlace(merged: seq<ChatMessage>, m: ChatMessage)
    ensures Append(merged, m) ==
      if merged != [] && merged[|merged| - 1].role == m.role && m.content != "" && m.role != Tool
      then merged[|merged| - 1 := merged[|merged| - 1].(content := merged[|merged| - 1].content + SEPARATOR + m.content)]
      else merged + [m]
  {
    if merged != [] {
      var last := |merged| - 1;
      var joined := merged[last].(content := merged[last].content + SEPARATOR + m.content);
      assert merged[last := joined] == merged[..last] + [joined];
    }
  }

  lemma MergedNext(ms: seq<ChatMessage>, k: nat)
    requires k < |ms|
    ensures Merged(ms[..k + 1]) == Append(Merged(ms[..k]), ms[k])
  {
    assert ms[..k + 1][..k] == ms[..k];
  }

  method MergeMessages(ms: seq<ChatMessage>, names: Names, mode: Mode, placeholder: string) returns (r: seq<ChatMessage>)
    ensures r == Transformed(ms, names, mode, placeholder)
    decreases mode.strict
  {
    hide Merged, Opened;
    var working := ms;
    for k := 0 to |ms|
      invariant |working| == |ms|
      invariant forall j :: 0 <= j < |ms| ==> working[j] == if j < k then Prepare(ms[j], names, mode) else ms[j]
    {
      working := working[k := Prepare(ms[k], names, mode)];
    }
    assert working == PrepareAll(ms, names, mode);
    var merged := MergeNeighbours(working);
    if merged == [] { merged := [ChatMessage(User, None, placeholder)]; }
    if !mode.strict { return merged; }
    ghost var first := merged;
    for k := 1 to |merged|
      invariant |merged| == |first|
      invariant forall j :: 0 <= j < |first| ==> merged[j] == if j < k then Demoted(first)[j] else first[j]
    {
      if merged[k].role == System { merged := merged[k := merged[k].(role := User)]; }
    }
    assert merged == Demoted(first);
    if mode.placeholders { merged := OpenWithUser(merged, placeholder); }
    PreparedAgain(ms, names, mode, placeholder);
    r := MergeMessages(merged, names, Mode(false, mode.placeholders, false, mode.tools), placeholder);
  }

  method OpenWithUser(ms: seq<ChatMessage>, placeholder: string) returns (r: seq<ChatMessage>)
    requires ms != []
    ensures r == Opened(ms, placeholder)
  {
    r := ms;
    if ms[0].role == System && (|ms| == 1 || ms[1].role != User) {
      r := ms[..1] + [ChatMessage(User, None, placeholder)] + ms[1..];
      assert ms[..1] == [ms[0]];
    } else if ms[0].role != System && ms[0].role != User {
      r := [ChatMessage(User, None, placeholder)] + ms;
    }
  }

  /** Messages that carry no name any more, nor a role the mode does away with. */
  ghost predicate Plain(ms: seq<ChatMessage>, tools: bool) {
    forall k :: 0 <= k < |ms| ==> ms[k].name.None? && (tools || ms[k].role != Tool)
  }

  lemma {:induction false} MergedPlain(ms: seq<ChatMessage>, tools: bool)
    requires Plain(ms, tools)
    ensures Plain(Merged(ms), tools)
    ensures ms != [] ==> Merged(ms) != []
  {
    if ms != [] { MergedPlain(ms[..|ms| - 1], tools); }
  }

  lemma PlainPrepared(ms: seq<ChatMessage>, names: Names, mode: Mode)
    requires Plain(ms, mode.tools) && !mode.single
    ensures PrepareAll(ms, names, mode) == ms
  {
    hide Prepare;
  }

  lemma ReshapedPlain(ms: seq<ChatMessage>, mode: Mode, placeholder: string)
    requires Plain(ms, mode.tools)
    ensures Plain(Reshaped(ms, mode, placeholder), mode.tools) && Reshaped(ms, mode, placeholder) != []
  {
    hide Merged;
    MergedPlain(ms, mode.tools);
  }

  lemma PreparedPlain(ms: seq<ChatMessage>, names: Names, mode: Mode)
    ensures Plain(PrepareAll(ms, names, mode), mode.tools)
  {
    hide Prepare;
  }

  /** The recursive call of a strict mode finds nothing left to prepare. */
  lemma PreparedAgain(ms: seq<ChatMessage>, names: Names, mode: Mode, placeholder: string)
    requires mode.strict
    ensures var again := Reshaped(PrepareAll(ms, names, mode), mode, placeholder);
      && again != [] && PrepareAll(again, names, Mode(false, mode.placeholders, false, mode.tools)) == again
      && OrPlaceholder(Merged(again), placeholder) == Merged(again)
  {
    hide Prepare, Merged, Reshaped;
    var prepared := PrepareAll(ms, names, mode);
    PreparedPlain(ms, names, mode);
    ReshapedPlain(prepared, mode, placeholder);
    PlainPrepared(Reshaped(prepared, mode, placeholder), names, Mode(false, mode.placeholders, false, mode.tools));
    MergedPlain(Reshaped(prepared, mode, placeholder), mode.tools);
  }
}
