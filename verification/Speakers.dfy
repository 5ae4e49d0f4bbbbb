/** Who speaks in a merged prompt: each text is kept, with its speaker put in front unless one is named there already
    (runtime.js, mergePromptMessageCopies). */
module Speakers {
  import opened MessageSpans
  import opened MessageMerge
  import MergeFacts
  import Paths

  /** The text already starts with the name of this speaker. */
  ghost predicate StartsWith(text: string, speaker: string) {
    exists rest :: text == speaker + ": " + rest
  }

  /** `text` is the original, introduced by its speaker unless it starts with that speaker or one of the others. */
  ghost predicate Introduces(original: string, speaker: string, others: seq<string>, text: string) {
    if speaker == "" || StartsWith(original, speaker) || (exists k :: 0 <= k < |others| && StartsWith(original, others[k]))
    then text == original
    else text == speaker + ": " + original
  }

  /** The speaker a message names: a character or the user for an example, its own name for anything but a system message. */
  ghost function NamedSpeaker(m: ChatMessage, names: Names): string {
    match m.role
    case System =>
      if m.name == Some("example_assistant") then names.charName
      else if m.name == Some("example_user") then names.userName
      else ""
    case _ => if m.name.Some? then m.name.value else ""
  }

  /** Group members can speak for the character in an example. */
  ghost function NamedOthers(m: ChatMessage, names: Names): seq<string> {
    if m.role == System && m.name == Some("example_assistant") then names.groupNames else []
  }

  /** The speaker that a role stands for once all messages become user messages. */
  ghost function RoleSpeaker(m: ChatMessage, names: Names, tools: bool): string {
    match m.role
    case Assistant => names.charName
    case User => names.userName
    case Tool => if tools then "" else names.userName
    case System => ""
    case OtherRole(_) => ""
  }

  ghost function RoleOthers(m: ChatMessage, names: Names): seq<string> {
    if m.role == Assistant then names.groupNames else []
  }

  /** The text of a message as it goes into the merge. */
  ghost predicate ToldAs(m: ChatMessage, names: Names, mode: Mode, text: string) {
    exists named :: Introduces(m.content, NamedSpeaker(m, names), NamedOthers(m, names), named)
                 && if mode.single then Introduces(named, RoleSpeaker(m, names, mode.tools), RoleOthers(m, names), text) else text == named
  }

  lemma PrefixIff(text: string, speaker: string)
    ensures HasPrefix(text, speaker) <==> StartsWith(text, speaker)
  {
    if HasPrefix(text, speaker) {
      var prefix := speaker + ": ";
      assert text == prefix + text[|prefix|..];
    }
  }

  lemma PrefixedIntroduces(original: string, speaker: string)
    ensures Introduces(original, speaker, [], Prefixed(original, speaker))
  {
    PrefixIff(original, speaker);
    hide HasPrefix, StartsWith;
  }

  lemma SpokenIntroduces(original: string, names: Names)
    ensures Introduces(original, names.charName, names.groupNames, Spoken(original, names))
  {
    PrefixIff(original, names.charName);
    forall k | 0 <= k < |names.groupNames|
      ensures HasPrefix(original, names.groupNames[k]) <==> StartsWith(original, names.groupNames[k])
    {
      PrefixIff(original, names.groupNames[k]);
    }
    hide HasPrefix, StartsWith;
  }

  lemma NothingIntroduced(original: string, others: seq<string>)
    ensures Introduces(original, "", others, original)
  {
  }

  lemma IntroducedOnce(original: string, speaker: string, others: seq<string>, a: string, b: string)
    requires Introduces(original, speaker, others, a) && Introduces(original, speaker, others, b)
    ensures a == b
    ensures |original| <= |a| && a[|a| - |original|..] == original
  {
    hide StartsWith;
  }

  /** What becomes of one message: its text and speakers, its role, and no name. */
  lemma SpeakerLaw(m: ChatMessage, names: Names, mode: Mode)
    ensures var r := Prepare(m, names, mode);
      && r.name.None?
      && r.role == (if mode.single || (m.role == Tool && !mode.tools) then User else m.role)
      && ToldAs(m, names, mode, r.content)
      && |m.content| <= |r.content| && r.content[|r.content| - |m.content|..] == m.content
  {
    var named := Prepare(m, names, mode.(single := false)).content;
    NamedIntroduces(m, names, mode.(single := false));
    hide Introduces;
    IntroducedOnce(m.content, NamedSpeaker(m, names), NamedOthers(m, names), named, named);
    if mode.single {
      RoleIntroduces(m, names, mode);
      var text := Prepare(m, names, mode).content;
      IntroducedOnce(named, RoleSpeaker(m, names, mode.tools), RoleOthers(m, names), text, text);
      SuffixOfSuffix(text, named, m.content);
    }
  }

  lemma SuffixOfSuffix(text: string, named: string, original: string)
    requires |named| <= |text| && text[|text| - |named|..] == named
    requires |original| <= |named| && named[|named| - |original|..] == original
    ensures text[|text| - |original|..] == original
  {
  }

  lemma NamedIntroduces(m: ChatMessage, names: Names, mode: Mode)
    requires !mode.single
    ensures Introduces(m.content, NamedSpeaker(m, names), NamedOthers(m, names), Prepare(m, names, mode).content)
  {
    PrefixedIntroduces(m.content, NamedSpeaker(m, names));
    SpokenIntroduces(m.content, names);
    NothingIntroduced(m.content, []);
    hide Introduces, Spoken, Prefixed;
  }

  lemma RoleIntroduces(m: ChatMessage, names: Names, mode: Mode)
    requires mode.single
    ensures Introduces(Prepare(m, names, mode.(single := false)).content, RoleSpeaker(m, names, mode.tools), RoleOthers(m, names),
                       Prepare(m, names, mode).content)
  {
    var named := Prepare(m, names, mode.(single := false)).content;
    PrefixedIntroduces(named, RoleSpeaker(m, names, mode.tools));
    SpokenIntroduces(named, names);
    NothingIntroduced(named, []);
    hide Introduces, Spoken, Prefixed;
  }

  lemma ToldOnce(m: ChatMessage, names: Names, mode: Mode, text: string)
    requires ToldAs(m, names, mode, text)
    ensures text == Prepare(m, names, mode).content
  {
    NamedIntroduces(m, names, mode.(single := false));
    if mode.single { RoleIntroduces(m, names, mode); }
    hide Introduces, Prepare;
    var named :| Introduces(m.content, NamedSpeaker(m, names), NamedOthers(m, names), named)
              && if mode.single then Introduces(named, RoleSpeaker(m, names, mode.tools), RoleOthers(m, names), text) else text == named;
    var first := Prepare(m, names, mode.(single := false)).content;
    IntroducedOnce(m.content, NamedSpeaker(m, names), NamedOthers(m, names), named, first);
    if mode.single {
      IntroducedOnce(first, RoleSpeaker(m, names, mode.tools), RoleOthers(m, names), text, Prepare(m, names, mode).content);
    }
  }

  // ---- The whole prompt ----

  ghost function Contents(ms: seq<ChatMessage>): (r: seq<string>)
    ensures |r| == |ms| && forall k :: 0 <= k < |r| ==> r[k] == ms[k].content
  {
    seq(|ms|, k requires 0 <= k < |ms| => ms[k].content)
  }

  lemma {:induction false} JoinedLast(texts: seq<string>, last: string, separator: string)
    requires texts != []
    ensures Paths.Joined(texts + [last], separator) == Paths.Joined(texts, separator) + separator + last
  {
    assert (texts + [last])[1..] == texts[1..] + [last];
    if |texts| > 1 {
      JoinedLast(texts[1..], last, separator);
    } else {
      assert (texts + [last])[1..] == [last];
    }
  }

  lemma {:induction false} JoinedEither(ms: seq<ChatMessage>)
    ensures MergeFacts.Joined(ms) == Paths.Joined(Contents(ms), SEPARATOR)
  {
    if |ms| > 1 {
      var init := ms[..|ms| - 1];
      JoinedEither(init);
      assert Contents(ms) == Contents(init) + [ms[|ms| - 1].content];
      JoinedLast(Contents(init), ms[|ms| - 1].content, SEPARATOR);
    }
  }

  /** Without a placeholder, the merged texts joined by blank lines are the told texts joined by blank lines. */
  lemma ToldIsConserved(ms: seq<ChatMessage>, names: Names, mode: Mode, placeholder: string, texts: seq<string>)
    requires !MergeFacts.NeedsPlaceholder(ms, names, mode)
    requires |texts| == |ms| && forall k :: 0 <= k < |ms| ==> ToldAs(ms[k], names, mode, texts[k])
    ensures Paths.Joined(Contents(Transformed(ms, names, mode, placeholder)), "\n\n") == Paths.Joined(texts, "\n\n")
  {
    hide Transformed, MergeFacts.NeedsPlaceholder, ToldAs, Prepare;
    MergeFacts.TextConserved(ms, names, mode, placeholder);
    JoinedEither(Transformed(ms, names, mode, placeholder));
    JoinedEither(PrepareAll(ms, names, mode));
    forall k | 0 <= k < |ms| ensures texts[k] == PrepareAll(ms, names, mode)[k].content { ToldOnce(ms[k], names, mode, texts[k]); }
    assert texts == Contents(PrepareAll(ms, names, mode));
  }
}
