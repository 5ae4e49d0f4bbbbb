/** What merging prompt messages keeps: the text, the alternation of roles, and itself when repeated. */
module MergeFacts {
  import opened MessageSpans
  import opened MessageMerge

  // ---- Text ----

  /** All texts, with a blank line between each two. */
  ghost function Joined(ms: seq<ChatMessage>): string {
    if ms == [] then ""
    else if |ms| == 1 then ms[0].content
    else Joined(ms[..|ms| - 1]) + SEPARATOR + ms[|ms| - 1].content
  }

  lemma JoinedAppend(merged: seq<ChatMessage>, m: ChatMessage)
    requires merged != []
    ensures Joined(Append(merged, m)) == Joined(merged) + SEPARATOR + m.content
  {
    var n := |merged| - 1;
    var after := Append(merged, m);
    if Joins(merged[n], m) {
      assert after[..n] == merged[..n] && |after| == n + 1;
      if n > 0 {
        Regroup(Joined(merged[..n]), SEPARATOR, merged[n].content, m.content);
      }
    } else {
      assert after[..|merged|] == merged;
    }
  }

  lemma Regroup(a: string, b: string, c: string, d: string)
    ensures a + b + (c + b + d) == a + b + c + b + d
  {
  }

  /** Merging conserves the text, empty messages included. */
  lemma {:induction false} MergedJoined(ms: seq<ChatMessage>)
    ensures Joined(Merged(ms)) == Joined(ms)
    ensures Merged(ms) == [] <==> ms == []
  {
    if ms != [] {
      var init, last := ms[..|ms| - 1], ms[|ms| - 1];
      MergedJoined(init);
      if init == [] {
        assert Merged(ms) == [last];
      } else {
        JoinedAppend(Merged(init), last);
      }
    }
  }

  lemma {:induction false} JoinedContents(a: seq<ChatMessage>, b: seq<ChatMessage>)
    requires |a| == |b| && forall k :: 0 <= k < |a| ==> a[k].content == b[k].content
    ensures Joined(a) == Joined(b)
  {
    if |a| > 1 { JoinedContents(a[..|a| - 1], b[..|b| - 1]); }
  }

  /** A placeholder goes in. */
  ghost predicate NeedsPlaceholder(ms: seq<ChatMessage>, names: Names, mode: Mode) {
    ms == [] || (mode.strict && mode.placeholders && Opens(Demoted(Merged(PrepareAll(ms, names, mode)))))
  }

  /** Without a placeholder, the output joined by blank lines is the prefixed input joined by blank lines. */
  lemma TextConserved(ms: seq<ChatMessage>, names: Names, mode: Mode, placeholder: string)
    requires !NeedsPlaceholder(ms, names, mode)
    ensures Joined(Transformed(ms, names, mode, placeholder)) == Joined(PrepareAll(ms, names, mode))
  {
    hide Prepare, Merged, Opened, Opens, Joined;
    var prepared := PrepareAll(ms, names, mode);
    MergedJoined(prepared);
    if mode.strict {
      var demoted := Demoted(Merged(prepared));
      JoinedContents(demoted, Merged(prepared));
      MergedJoined(demoted);
    }
  }

  // ---- Roles ----

  /** No message follows one of its own role, tools aside. */
  ghost predicate Alternates(ms: seq<ChatMessage>) {
    forall k :: 0 < k < |ms| ==> ms[k - 1].role != ms[k].role || ms[k].role == Tool
  }

  ghost predicate AllText(ms: seq<ChatMessage>) {
    forall k :: 0 <= k < |ms| && ms[k].role != Tool ==> ms[k].content != ""
  }

  lemma AppendRole(merged: seq<ChatMessage>, m: ChatMessage)
    ensures Append(merged, m)[|Append(merged, m)| - 1].role == m.role
    ensures merged != [] ==> Append(merged, m)[0].role == merged[0].role
    ensures merged == [] ==> Append(merged, m) == [m]
  {
  }

  lemma AppendText(merged: seq<ChatMessage>, m: ChatMessage)
    requires AllText(merged) && Alternates(merged) && (m.role != Tool ==> m.content != "")
    ensures AllText(Append(merged, m)) && Alternates(Append(merged, m))
  {
  }

  lemma {:induction false} MergedText(ms: seq<ChatMessage>)
    requires AllText(ms)
    ensures AllText(Merged(ms)) && Alternates(Merged(ms))
    ensures ms != [] ==> Merged(ms) != [] && Merged(ms)[|Merged(ms)| - 1].role == ms[|ms| - 1].role
    ensures ms != [] ==> Merged(ms)[0].role == ms[0].role
  {
    if ms != [] {
      MergedText(ms[..|ms| - 1]);
      var merged, last := Merged(ms[..|ms| - 1]), ms[|ms| - 1];
      AppendRole(merged, last);
      hide Merged;
      AppendText(merged, last);
    }
  }

  lemma PreparedText(ms: seq<ChatMessage>, names: Names, mode: Mode)
    requires forall k :: 0 <= k < |ms| ==> ms[k].content != ""
    ensures AllText(PrepareAll(ms, names, mode))
  {
    hide Prepare;
  }

  lemma ReshapedText(prepared: seq<ChatMessage>, mode: Mode, placeholder: string)
    requires AllText(prepared) && placeholder != ""
    ensures AllText(Reshaped(prepared, mode, placeholder))
    ensures Reshaped(prepared, mode, placeholder) != []
    ensures forall k :: 0 < k < |Reshaped(prepared, mode, placeholder)| ==> Reshaped(prepared, mode, placeholder)[k].role != System
  {
    hide Merged;
    MergedText(prepared);
    var demoted := Demoted(OrPlaceholder(Merged(prepared), placeholder));
    assert forall k :: 0 < k < |demoted| ==> demoted[k].role != System;
  }

  /** With text in every message, the merged roles strictly alternate. */
  lemma RolesAlternate(ms: seq<ChatMessage>, names: Names, mode: Mode, placeholder: string)
    requires placeholder != "" && forall k :: 0 <= k < |ms| ==> ms[k].content != ""
    ensures Alternates(Transformed(ms, names, mode, placeholder))
  {
    hide Prepare, Merged, Opened, Reshaped;
    var prepared := PrepareAll(ms, names, mode);
    PreparedText(ms, names, mode);
    MergedText(prepared);
    if mode.strict {
      ReshapedText(prepared, mode, placeholder);
      MergedText(Reshaped(prepared, mode, placeholder));
    }
  }

  /** An optional system message, and then nothing but user and assistant in turn, the user first. */
  ghost predicate ChatShape(ms: seq<ChatMessage>) {
    && ms != [] && Alternates(ms)
    && (ms[0].role == System ==> |ms| >= 2 && ms[1].role == User)
    && (ms[0].role != System ==> ms[0].role == User)
    && forall k :: 0 < k < |ms| ==> ms[k].role in {User, Assistant}
  }

  ghost predicate ChatRoles(ms: seq<ChatMessage>) {
    forall k :: 0 <= k < |ms| ==> ms[k].role in {System, User, Assistant}
  }

  lemma {:induction false} MergedRoles(ms: seq<ChatMessage>)
    requires ChatRoles(ms)
    ensures ChatRoles(Merged(ms))
  {
    if ms != [] { MergedRoles(ms[..|ms| - 1]); }
  }

  ghost predicate LaterRoles(ms: seq<ChatMessage>, roles: set<Role>) {
    forall k :: 0 < k < |ms| ==> ms[k].role in roles
  }

  lemma AppendLater(merged: seq<ChatMessage>, m: ChatMessage, roles: set<Role>)
    requires LaterRoles(merged, roles) && (merged == [] || m.role in roles)
    ensures LaterRoles(Append(merged, m), roles)
  {
  }

  /** After the first message, merging brings up no role that was not there after the first message. */
  lemma {:induction false} MergedLater(ms: seq<ChatMessage>, roles: set<Role>)
    requires LaterRoles(ms, roles)
    ensures LaterRoles(Merged(ms), roles)
  {
    if ms != [] {
      hide Append;
      MergedLater(ms[..|ms| - 1], roles);
      if |ms| == 1 { assert ms[..0] == [] && Merged(ms[..0]) == []; }
      AppendLater(Merged(ms[..|ms| - 1]), ms[|ms| - 1], roles);
    }
  }

  /** A system message followed by a user message stays so. */
  lemma {:induction false} MergedOpening(ms: seq<ChatMessage>)
    requires |ms| >= 2 && ms[0].role == System && ms[1].role == User
    ensures |Merged(ms)| >= 2 && Merged(ms)[0] == ms[0] && Merged(ms)[1].role == User
  {
    if |ms| == 2 {
      assert ms[..1] == [ms[0]] && ms[..1][..0] == [];
      assert Merged(ms[..1]) == Append(Merged(ms[..1][..0]), ms[0]);
      assert Merged(ms[..1]) == [ms[0]];
    } else {
      MergedOpening(ms[..|ms| - 1]);
      var merged := Merged(ms[..|ms| - 1]);
      hide Merged;
      AppendOpening(merged, ms[|ms| - 1]);
    }
  }

  lemma AppendOpening(merged: seq<ChatMessage>, m: ChatMessage)
    requires |merged| >= 2 && merged[1].role == User
    ensures |Append(merged, m)| >= 2 && Append(merged, m)[0] == merged[0] && Append(merged, m)[1].role == User
  {
  }

  lemma ReshapedChat(prepared: seq<ChatMessage>, mode: Mode, placeholder: string)
    requires ChatRoles(prepared) && mode.placeholders
    ensures var q := Reshaped(prepared, mode, placeholder);
      && q != [] && (q[0].role == System ==> |q| >= 2 && q[1].role == User) && (q[0].role != System ==> q[0].role == User)
      && LaterRoles(q, {User, Assistant})
  {
    hide Merged;
    MergedRoles(prepared);
  }

  /** Strict mode with placeholders always yields a chat a strict provider accepts. */
  lemma StrictShape(ms: seq<ChatMessage>, names: Names, mode: Mode, placeholder: string)
    requires mode.strict && mode.placeholders && placeholder != ""
    requires forall k :: 0 <= k < |ms| ==> ms[k].content != ""
    requires ChatRoles(PrepareAll(ms, names, mode))
    ensures ChatShape(Transformed(ms, names, mode, placeholder))
  {
    hide Prepare, Merged, Reshaped;
    var prepared := PrepareAll(ms, names, mode);
    var q := Reshaped(prepared, mode, placeholder);
    PreparedText(ms, names, mode);
    ReshapedText(prepared, mode, placeholder);
    ReshapedChat(prepared, mode, placeholder);
    MergedText(q);
    MergedLater(q, {User, Assistant});
    if q[0].role == System { MergedOpening(q); }
  }

  // ---- Doing it again ----

  /** Between two messages of its own role stands an empty one, and text follows it. */
  ghost predicate Gap(ms: seq<ChatMessage>, k: int) {
    && 0 < k < |ms| - 1 && ms[k].role != Tool
    && ms[k - 1].role == ms[k].role == ms[k + 1].role && ms[k].content == "" && ms[k + 1].content != ""
  }

  ghost predicate HasGap(ms: seq<ChatMessage>) {
    exists k :: Gap(ms, k)
  }

  /** Two neighbours that would still be merged. */
  ghost predicate Loose(ms: seq<ChatMessage>, k: int) {
    0 < k < |ms| && Joins(ms[k - 1], ms[k])
  }

  lemma {:induction false} NothingLoose(ms: seq<ChatMessage>)
    requires forall k :: !Loose(ms, k)
    ensures Merged(ms) == ms
  {
    if ms != [] {
      var init, last := ms[..|ms| - 1], ms[|ms| - 1];
      forall k ensures !Loose(init, k) { assert !Loose(ms, k); }
      NothingLoose(init);
      assert !Loose(ms, |ms| - 1);
    }
  }

  lemma {:induction false} MergedLength(ms: seq<ChatMessage>)
    ensures |Merged(ms)| <= |ms|
  {
    if ms != [] { MergedLength(ms[..|ms| - 1]); }
  }

  lemma {:induction false} LooseShortens(ms: seq<ChatMessage>, k: int)
    requires Loose(ms, k)
    ensures |Merged(ms)| < |ms|
    decreases |ms|
  {
    var init := ms[..|ms| - 1];
    if k < |ms| - 1 {
      assert Loose(init, k);
      LooseShortens(init, k);
    } else {
      LastMerged(init);
      MergedLength(init);
    }
  }

  /** The last merged message has the last role. */
  lemma {:induction false} LastMerged(ms: seq<ChatMessage>)
    requires ms != []
    ensures Merged(ms) != [] && Merged(ms)[|Merged(ms)| - 1].role == ms[|ms| - 1].role
  {
    AppendRole(Merged(ms[..|ms| - 1]), ms[|ms| - 1]);
  }

  /** The last merged message started out empty, next to one of its own role, and has not been extended since. */
  ghost predicate EmptyEnd(ms: seq<ChatMessage>) {
    && |ms| >= 2 && ms[|ms| - 1].content == "" && ms[|ms| - 1].role != Tool && ms[|ms| - 2].role == ms[|ms| - 1].role
  }

  /** What is left to merge after merging is exactly what stands behind a gap. */
  lemma {:induction false} LooseIffGap(ms: seq<ChatMessage>)
    ensures (exists k :: Loose(Merged(ms), k)) <==> HasGap(ms)
    ensures ms != [] ==> (EmptyEnd(ms) <==> EmptyLast(Merged(ms)))
    decreases |ms|
  {
    if ms != [] {
      hide Append, Loose, Gap, EmptyEnd, EmptyLast;
      var init, last := ms[..|ms| - 1], ms[|ms| - 1];
      LooseIffGap(init);
      if init != [] { LastMerged(init); }
      GapMore(init, last);
      assert init + [last] == ms;
      LooseMore(Merged(init), last);
      EndMore(ms);
    }
  }

  /** The last message is empty and follows one of its own role. */
  ghost predicate EmptyLast(merged: seq<ChatMessage>) {
    && |merged| >= 2 && merged[|merged| - 1].content == "" && merged[|merged| - 1].role != Tool
    && merged[|merged| - 2].role == merged[|merged| - 1].role
  }

  lemma GapMore(init: seq<ChatMessage>, last: ChatMessage)
    ensures HasGap(init + [last]) <==> HasGap(init) || (EmptyEnd(init) && Joins(init[|init| - 1], last))
  {
    var ms := init + [last];
    if HasGap(init) {
      var k :| Gap(init, k);
      assert Gap(ms, k);
    }
    if EmptyEnd(init) && Joins(init[|init| - 1], last) {
      assert Gap(ms, |init| - 1);
    }
    if HasGap(ms) {
      var k :| Gap(ms, k);
      if k < |init| - 1 { assert Gap(init, k); }
    }
  }

  lemma LooseMore(merged: seq<ChatMessage>, last: ChatMessage)
    ensures (exists k :: Loose(Append(merged, last), k)) <==>
      (exists k :: Loose(merged, k)) || (EmptyLast(merged) && Joins(merged[|merged| - 1], last))
  {
    var after := Append(merged, last);
    if k :| Loose(merged, k) { assert Loose(after, k); }
    if EmptyLast(merged) && Joins(merged[|merged| - 1], last) { assert Loose(after, |merged| - 1); }
    if k :| Loose(after, k) {
      if k < |merged| && (k < |merged| - 1 || !Joins(merged[|merged| - 1], last)) { assert Loose(merged, k); }
      if k == |merged| - 1 && merged[k].content != "" { assert Loose(merged, k); }
    }
  }

  lemma EndMore(ms: seq<ChatMessage>)
    requires ms != []
    ensures EmptyEnd(ms) <==> EmptyLast(Merged(ms))
  {
    var init := ms[..|ms| - 1];
    if init != [] { LastMerged(init); } else { assert Merged(init) == []; }
  }

  /** Merging is idempotent exactly on messages without a gap. */
  lemma MergedTwice(ms: seq<ChatMessage>)
    ensures Merged(Merged(ms)) == Merged(ms) <==> !HasGap(ms)
    ensures HasGap(ms) ==> |Merged(Merged(ms))| < |Merged(ms)|
  {
    LooseIffGap(ms);
    if HasGap(ms) {
      var k :| Loose(Merged(ms), k);
      LooseShortens(Merged(ms), k);
    } else {
      NothingLoose(Merged(ms));
    }
  }

  lemma TransformedPlain(ms: seq<ChatMessage>, names: Names, mode: Mode, placeholder: string)
    ensures Transformed(ms, names, mode, placeholder) != []
    ensures Plain(Transformed(ms, names, mode, placeholder), mode.tools)
  {
    hide Prepare, Merged, Reshaped;
    var prepared := PrepareAll(ms, names, mode);
    PreparedPlain(ms, names, mode);
    MergedPlain(prepared, mode.tools);
    ReshapedPlain(prepared, mode, placeholder);
    MergedPlain(Reshaped(prepared, mode, placeholder), mode.tools);
  }

  lemma SingleMerged(m: ChatMessage)
    ensures Merged([m]) == [m] && !HasGap([m])
  {
    assert [m][..0] == [] && Merged([m][..0]) == [];
  }

  /** A mode without strictness, applied twice, does the same as once exactly when the prepared messages have no gap. */
  lemma LenientTwice(ms: seq<ChatMessage>, names: Names, mode: Mode, placeholder: string)
    requires !mode.strict && !mode.single
    ensures var once := Transformed(ms, names, mode, placeholder);
      Transformed(once, names, mode, placeholder) == once <==> !HasGap(PrepareAll(ms, names, mode))
  {
    hide Prepare, Merged, HasGap;
    var prepared, once := PrepareAll(ms, names, mode), Transformed(ms, names, mode, placeholder);
    TransformedPlain(ms, names, mode, placeholder);
    PlainPrepared(once, names, mode);
    MergedJoined(prepared);
    MergedJoined(once);
    if prepared == [] {
      SingleMerged(ChatMessage(User, None, placeholder));
      NoGapInNothing();
    } else {
      MergedTwice(prepared);
    }
  }

  lemma NoGapInNothing()
    ensures !HasGap([])
  {
  }

  ghost predicate OnlyFirstSystem(ms: seq<ChatMessage>) {
    forall k :: 0 < k < |ms| ==> ms[k].role != System
  }

  lemma {:induction false} MergedOnlyFirst(ms: seq<ChatMessage>)
    requires OnlyFirstSystem(ms)
    ensures OnlyFirstSystem(Merged(ms))
  {
    if ms != [] {
      MergedOnlyFirst(ms[..|ms| - 1]);
      if |ms| == 1 { assert ms[..0] == [] && Merged(ms[..0]) == []; }
    }
  }

  lemma DemotedNothing(ms: seq<ChatMessage>)
    requires OnlyFirstSystem(ms)
    ensures Demoted(ms) == ms
  {
  }

  lemma ReshapedFirst(prepared: seq<ChatMessage>, mode: Mode, placeholder: string)
    ensures OnlyFirstSystem(Reshaped(prepared, mode, placeholder))
    ensures mode.placeholders ==> !Opens(Reshaped(prepared, mode, placeholder))
  {
    hide Merged;
  }

  lemma {:induction false} MergedFirstRole(ms: seq<ChatMessage>)
    requires ms != []
    ensures Merged(ms) != [] && Merged(ms)[0].role == ms[0].role
  {
    AppendRole(Merged(ms[..|ms| - 1]), ms[|ms| - 1]);
    if |ms| > 1 { MergedFirstRole(ms[..|ms| - 1]); } else { assert Merged(ms[..0]) == []; }
  }

  /** Merging does not undo the opening. */
  lemma MergedStaysOpened(ms: seq<ChatMessage>)
    requires ms != [] && !Opens(ms)
    ensures !Opens(Merged(ms))
  {
    hide Merged;
    MergedFirstRole(ms);
    if ms[0].role == System { MergedOpening(ms); }
  }

  /** Reshaping the output of a strict mode only merges it. */
  lemma ReshapedAgain(q: seq<ChatMessage>, mode: Mode, placeholder: string)
    requires q != [] && OnlyFirstSystem(q) && (mode.placeholders ==> !Opens(q))
    ensures Reshaped(Merged(q), mode, placeholder) == Merged(Merged(q))
  {
    hide Merged, Opens, OnlyFirstSystem;
    MergedOnlyFirst(q);
    MergedOnlyFirst(Merged(q));
    MergedFirstRole(q);
    MergedFirstRole(Merged(q));
    DemotedNothing(Merged(Merged(q)));
    if mode.placeholders {
      MergedStaysOpened(q);
      MergedStaysOpened(Merged(q));
    }
  }

  /** A strict mode, applied twice, does the same as once exactly when its second merge met no gap. */
  lemma StrictTwice(ms: seq<ChatMessage>, names: Names, mode: Mode, placeholder: string)
    requires mode.strict && !mode.single
    ensures var once := Transformed(ms, names, mode, placeholder);
      Transformed(once, names, mode, placeholder) == once
      <==> !HasGap(Reshaped(PrepareAll(ms, names, mode), mode, placeholder))
  {
    hide Prepare, Merged, HasGap, Reshaped, Opens, OnlyFirstSystem;
    var prepared, once := PrepareAll(ms, names, mode), Transformed(ms, names, mode, placeholder);
    var q := Reshaped(prepared, mode, placeholder);
    TransformedPlain(ms, names, mode, placeholder);
    PlainPrepared(once, names, mode);
    PreparedPlain(ms, names, mode);
    ReshapedPlain(prepared, mode, placeholder);
    ReshapedFirst(prepared, mode, placeholder);
    ReshapedAgain(q, mode, placeholder);
    MergedTwice(q);
    MergedLength(Merged(once));
  }

  lemma TextHasNoGap(ms: seq<ChatMessage>)
    requires AllText(ms)
    ensures !HasGap(ms)
  {
  }

  /** With text in every message, every mode but `single` is idempotent. */
  lemma TextTwice(ms: seq<ChatMessage>, names: Names, mode: Mode, placeholder: string)
    requires !mode.single && placeholder != "" && forall k :: 0 <= k < |ms| ==> ms[k].content != ""
    ensures var once := Transformed(ms, names, mode, placeholder);
      Transformed(once, names, mode, placeholder) == once
  {
    hide Prepare, Merged, HasGap, Reshaped;
    var prepared := PrepareAll(ms, names, mode);
    PreparedText(ms, names, mode);
    TextHasNoGap(prepared);
    if mode.strict {
      ReshapedText(prepared, mode, placeholder);
      TextHasNoGap(Reshaped(prepared, mode, placeholder));
      StrictTwice(ms, names, mode, placeholder);
    } else {
      LenientTwice(ms, names, mode, placeholder);
    }
  }

  /** "a", "" and "b" from one speaker merge to two messages, and only the second time to one. */
  lemma EmptyMessageNotIdempotent(names: Names, placeholder: string)
    ensures var ms := [ChatMessage(User, None, "a"), ChatMessage(User, None, ""), ChatMessage(User, None, "b")];
      var mode := ModeOf("merge").value;
      Transformed(Transformed(ms, names, mode, placeholder), names, mode, placeholder) != Transformed(ms, names, mode, placeholder)
  {
    var ms := [ChatMessage(User, None, "a"), ChatMessage(User, None, ""), ChatMessage(User, None, "b")];
    var mode := Mode(false, false, false, false);
    PlainPrepared(ms, names, mode);
    assert Gap(ms, 1);
    LenientTwice(ms, names, mode, placeholder);
  }

  /** The placeholder is a user message in front of the conversation, behind a leading system message; nothing else changes. */
  lemma OpenedWhere(ms: seq<ChatMessage>, placeholder: string)
    requires Opens(ms)
    ensures var r, at := Opened(ms, placeholder), if ms[0].role == System then 1 else 0;
      at < |r| && r[at] == ChatMessage(User, None, placeholder) && r[..at] + r[at + 1..] == ms
  {
    var r := Opened(ms, placeholder);
    if ms[0].role == System {
      assert r[..1] == [ms[0]] && r[2..] == ms[1..];
    } else {
      assert r[..0] == [] && r[1..] == ms;
    }
  }
}
