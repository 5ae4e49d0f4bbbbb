/** The text that marks a dry assembly frame, and reading it back from a prompt (runtime.js,
    createForeignDryPromptFrame and inspectForeignDryPromptFrame). */
module DryFrameMarker {
  import opened TextEdits
  import opened TextSearch
  import opened MessageSpans

  const OPENING := "<mnemosyne-foreign-dry-frame"
  const FRAME_ATTRIBUTE := " data-frame-id=\""
  const OWNER_ATTRIBUTE := "\" data-owner-run-id=\""
  const TAG_END := "\">"
  const NOTICE := "\nThis is an extension" + ("-owned dry assembly " + ("frame. Do not use it" + " as story context.\n"))
  const CLOSING := "</mnemosyne-foreign" + "-dry-frame>"

  predicate IdentityChar(c: char) {
    'A' <= c <= 'Z' || 'a' <= c <= 'z' || '0' <= c <= '9' || c in {'.', '_', ':', '-'}
  }

  predicate SafeIdentity(s: string) {
    s != "" && forall i :: 0 <= i < |s| ==> IdentityChar(s[i])
  }

  /** What follows the opening up to the end of the tag. */
  function Attributes(frameId: string, owner: string): string {
    FRAME_ATTRIBUTE + (frameId + (OWNER_ATTRIBUTE + (owner + TAG_END)))
  }

  function PrintFrame(frameId: string, owner: string): string {
    OPENING + (Attributes(frameId, owner) + (NOTICE + CLOSING))
  }

  // ---- Matching ----

  /** The end of the run of identity characters that starts at `i`. */
  function RunEnd(text: string, i: nat): (e: nat)
    requires i <= |text|
    ensures i <= e <= |text|
    ensures forall k :: i <= k < e ==> IdentityChar(text[k])
    ensures e < |text| ==> !IdentityChar(text[e])
    decreases |text| - i
  {
    if i < |text| && IdentityChar(text[i]) then RunEnd(text, i + 1) else i
  }

  datatype Identity = Identity(frameId: string, owner: string)

  /** The pattern, matched at `i`. A quote ends each run of identity characters, so there is one way to match. */
  function MatchAt(text: string, i: nat): (r: Option<Identity>)
    ensures r.Some? ==> OccursAt(text, OPENING, i) && SafeIdentity(r.value.frameId) && SafeIdentity(r.value.owner)
  {
    var a := i + |OPENING|;
    if !OccursAt(text, OPENING, i) || !OccursAt(text, FRAME_ATTRIBUTE, a) then None
    else
      var b := a + |FRAME_ATTRIBUTE|;
      var c := RunEnd(text, b);
      if c == b || !OccursAt(text, OWNER_ATTRIBUTE, c) then None
      else
        var d := c + |OWNER_ATTRIBUTE|;
        var e := RunEnd(text, d);
        if e == d || !OccursAt(text, TAG_END, e) then None
        else
          assert forall k :: 0 <= k < c - b ==> text[b..c][k] == text[b + k];
          assert forall k :: 0 <= k < e - d ==> text[d..e][k] == text[d + k];
          Some(Identity(text[b..c], text[d..e]))
  }

  function Joined(texts: seq<string>): string {
    if texts == [] then ""
    else if |texts| == 1 then texts[0]
    else Joined(texts[..|texts| - 1]) + "\n" + texts[|texts| - 1]
  }

  datatype Inspection = NoFrame | Ambiguous | Pass(identity: Identity)

  /** `i` is the one place where the opening occurs. */
  ghost predicate OnlyOpening(text: string, i: int) {
    OccursAt(text, OPENING, i) && forall j :: OccursAt(text, OPENING, j) ==> j == i
  }

  /** What inspecting a text says. */
  ghost predicate Inspected(text: string, r: Inspection) {
    && (r == NoFrame <==> forall i: nat :: MatchAt(text, i).None?)
    && (r.Pass? ==> exists i: nat :: OnlyOpening(text, i) && MatchAt(text, i) == Some(r.identity))
    && (forall i: nat :: OnlyOpening(text, i) && MatchAt(text, i).Some? ==> r == Pass(MatchAt(text, i).value))
  }

  method InspectFrames(texts: seq<string>) returns (r: Inspection)
    ensures Inspected(Joined(texts), r)
  {
    hide Joined;
    r := InspectText(Joined(texts));
  }

  method InspectText(text: string) returns (r: Inspection)
    ensures Inspected(text, r)
  {
    hide MatchAt;
    var openings := FindOccurrences([text], OPENING);
    var matches: seq<nat> := [];
    for k := 0 to |openings|
      invariant forall i :: i in matches ==> MatchAt(text, i).Some? && OccursAt(text, OPENING, i)
      invariant forall j :: 0 <= j < k && openings[j].start >= 0 && MatchAt(text, openings[j].start).Some? ==> openings[j].start in matches
      invariant forall j, l :: 0 <= j < l < |matches| ==> matches[j] < matches[l]
      invariant forall j :: 0 <= j < |matches| ==> k > 0 && matches[j] <= openings[k - 1].start
    {
      assert FoundAt([text], OPENING, openings[k]);
      if k > 0 { assert FoundAt([text], OPENING, openings[k - 1]) && Before(openings[k - 1], openings[k]); }
      if MatchAt(text, openings[k].start).Some? { matches := matches + [openings[k].start]; }
    }
    AllMatches(text, openings, matches);
    if matches == [] { return NoFrame; }
    assert matches[0] in matches && OccursAt(text, OPENING, matches[0]) && MatchAt(text, matches[0]).Some?;
    OneOpening(text, openings, matches[0]);
    if |matches| != 1 || |openings| != 1 {
      NotOne(text, openings, matches);
      assert MatchAt(text, matches[0]).Some?;
      return Ambiguous;
    }
    assert OnlyOpening(text, matches[0]);
    r := Pass(MatchAt(text, matches[0]).value);
  }

  lemma AllMatches(text: string, openings: seq<Occurrence>, matches: seq<nat>)
    requires AllOccurrences([text], OPENING, openings)
    requires forall j :: 0 <= j < |openings| && openings[j].start >= 0 && MatchAt(text, openings[j].start).Some? ==> openings[j].start in matches
    ensures forall i: nat :: MatchAt(text, i).Some? ==> i in matches
  {
    forall i: nat | MatchAt(text, i).Some? ensures i in matches {
      assert FoundAt([text], OPENING, Occurrence(0, i));
      var j :| 0 <= j < |openings| && openings[j] == Occurrence(0, i);
    }
  }

  lemma OneOpening(text: string, openings: seq<Occurrence>, i: nat)
    requires AllOccurrences([text], OPENING, openings) && OccursAt(text, OPENING, i)
    ensures |openings| == 1 <==> OnlyOpening(text, i)
  {
    OneOccurrence([text], OPENING, openings, Occurrence(0, i));
    if |openings| == 1 {
      forall j | OccursAt(text, OPENING, j) ensures j == i {
        assert FoundAt([text], OPENING, Occurrence(0, j));
      }
    }
    if OnlyOpening(text, i) {
      forall o | FoundAt([text], OPENING, o) ensures o == Occurrence(0, i) {
      }
    }
  }

  lemma NotOne(text: string, openings: seq<Occurrence>, matches: seq<nat>)
    requires AllOccurrences([text], OPENING, openings) && (|openings| != 1 || |matches| != 1)
    requires matches != [] && forall i :: i in matches ==> OccursAt(text, OPENING, i)
    requires forall j, k :: 0 <= j < k < |matches| ==> matches[j] != matches[k]
    ensures forall i: nat :: !OnlyOpening(text, i)
  {
    forall i: nat ensures !OnlyOpening(text, i) {
      if OccursAt(text, OPENING, i) { OneOpening(text, openings, i); }
      if |matches| > 1 { assert matches[0] in matches && matches[1] in matches; }
    }
  }

  // ---- Reading a frame back ----

  ghost predicate NoOpening(s: string) {
    forall i :: !OccursAt(s, OPENING, i)
  }

  lemma OpeningChars()
    ensures OPENING[0] == '<' && |OPENING| == 28
    ensures forall k :: 0 < k < |OPENING| ==> OPENING[k] != '<'
    ensures forall k :: 0 <= k < |OPENING| ==> OPENING[k] != '\n' && OPENING[k] != '>'
  {
    var s := OPENING;
    assert |s| == 28;
    assert s[0] == '<' && s[1] == 'm' && s[2] == 'n' && s[3] == 'e' && s[4] == 'm' && s[5] == 'o' && s[6] == 's'
        && s[7] == 'y' && s[8] == 'n' && s[9] == 'e' && s[10] == '-' && s[11] == 'f' && s[12] == 'o' && s[13] == 'r'
        && s[14] == 'e' && s[15] == 'i' && s[16] == 'g' && s[17] == 'n' && s[18] == '-' && s[19] == 'd' && s[20] == 'r'
        && s[21] == 'y' && s[22] == '-' && s[23] == 'f' && s[24] == 'r' && s[25] == 'a' && s[26] == 'm' && s[27] == 'e';
  }

  lemma CharsAcross(a: string, b: string, i: int)
    requires OccursAt(a + b, OPENING, i) && i < |a| < i + |OPENING|
    ensures b != "" && a[|a| - 1] == OPENING[|a| - 1 - i] && b[0] == OPENING[|a| - i]
  {
    var t, u := a + b, (a + b)[i..i + |OPENING|];
    assert t[|a| - 1] == u[|a| - 1 - i] && t[|a|] == u[|a| - i];
  }

  /** An opening never reaches across a line break, nor into a text that starts with '<'. */
  lemma OpeningInParts(a: string, b: string, i: int)
    requires OccursAt(a + b, OPENING, i)
    requires a == "" || a[|a| - 1] in {'\n', '>'} || b == "" || b[0] in {'\n', '<'}
    ensures i + |OPENING| <= |a| ==> OccursAt(a, OPENING, i)
    ensures i >= |a| ==> OccursAt(b, OPENING, i - |a|)
    ensures i + |OPENING| <= |a| || i >= |a|
  {
    OpeningChars();
    var u := (a + b)[i..i + |OPENING|];
    if i + |OPENING| <= |a| {
      assert a[i..i + |OPENING|] == u;
    } else if i >= |a| {
      assert b[i - |a|..i - |a| + |OPENING|] == u;
    } else {
      CharsAcross(a, b, i);
    }
  }

  lemma NoOpeningConcat(a: string, b: string)
    requires NoOpening(a) && NoOpening(b)
    requires a == "" || a[|a| - 1] in {'\n', '>'} || b == "" || b[0] in {'\n', '<'}
    ensures NoOpening(a + b)
  {
    forall i ensures !OccursAt(a + b, OPENING, i) {
      if OccursAt(a + b, OPENING, i) { OpeningInParts(a, b, i); }
    }
  }

  lemma {:induction false} JoinedNoOpening(texts: seq<string>)
    requires forall k :: 0 <= k < |texts| ==> NoOpening(texts[k])
    ensures NoOpening(Joined(texts))
  {
    OpeningChars();
    if |texts| > 1 {
      var init, last := Joined(texts[..|texts| - 1]), texts[|texts| - 1];
      JoinedNoOpening(texts[..|texts| - 1]);
      NoOpeningConcat(init, "\n");
      NoOpeningConcat(init + "\n", last);
    }
  }

  lemma RunIs(text: string, i: nat, run: string, e: nat)
    requires i + |run| == e < |text| && text[i..e] == run && !IdentityChar(text[e])
    requires forall k :: 0 <= k < |run| ==> IdentityChar(run[k])
    ensures RunEnd(text, i) == e
  {
    forall k | i <= k < e ensures IdentityChar(text[k]) {
      assert text[k] == text[i..e][k - i];
    }
  }

  lemma OccursNext(text: string, i: int, p: string, q: string)
    ensures OccursAt(text, p + q, i) <==> OccursAt(text, p, i) && OccursAt(text, q, i + |p|)
  {
    if 0 <= i && i + |p| + |q| <= |text| {
      var u := text[i..i + |p| + |q|];
      assert text[i..i + |p|] == u[..|p|] && text[i + |p|..i + |p| + |q|] == u[|p|..];
      assert u == u[..|p|] + u[|p|..];
      assert (p + q)[..|p|] == p && (p + q)[|p|..] == q;
    }
  }

  /** Where the parts of a printed tag stand. */
  ghost predicate TagAt(text: string, i: int, frameId: string, owner: string) {
    var a := i + |OPENING|;
    var b := a + |FRAME_ATTRIBUTE|;
    var c := b + |frameId|;
    var d := c + |OWNER_ATTRIBUTE|;
    var e := d + |owner|;
    && OccursAt(text, OPENING, i) && OccursAt(text, FRAME_ATTRIBUTE, a) && OccursAt(text, frameId, b)
    && OccursAt(text, OWNER_ATTRIBUTE, c) && OccursAt(text, owner, d) && OccursAt(text, TAG_END, e)
  }

  lemma PrintedParts(text: string, i: nat, frameId: string, owner: string)
    ensures OccursAt(text, OPENING + Attributes(frameId, owner), i) <==> TagAt(text, i, frameId, owner)
  {
    hide OccursAt;
    var a := i + |OPENING|;
    var b := a + |FRAME_ATTRIBUTE|;
    var c := b + |frameId|;
    OccursNext(text, i, OPENING, Attributes(frameId, owner));
    OccursNext(text, a, FRAME_ATTRIBUTE, frameId + (OWNER_ATTRIBUTE + (owner + TAG_END)));
    OccursNext(text, b, frameId, OWNER_ATTRIBUTE + (owner + TAG_END));
    OccursNext(text, c, OWNER_ATTRIBUTE, owner + TAG_END);
    OccursNext(text, c + |OWNER_ATTRIBUTE|, owner, TAG_END);
  }

  lemma RunThenQuote(text: string, i: nat, run: string, p: string)
    requires OccursAt(text, run, i) && OccursAt(text, p, i + |run|) && p != "" && p[0] == '"'
    requires forall k :: 0 <= k < |run| ==> IdentityChar(run[k])
    ensures RunEnd(text, i) == i + |run| && text[i..i + |run|] == run
  {
    QuoteAt(text, i + |run|, p);
    RunIs(text, i, run, i + |run|);
  }

  /** Letters, digits, dots, underscores, colons and hyphens. */
  ghost predicate IdentityText(s: string) {
    && s != ""
    && forall k :: 0 <= k < |s| ==>
         || '0' <= s[k] <= '9' || 'a' <= s[k] <= 'z' || 'A' <= s[k] <= 'Z'
         || s[k] == ':' || s[k] == '-' || s[k] == '.' || s[k] == '_'
  }

  lemma SafeIsText(s: string)
    ensures SafeIdentity(s) <==> IdentityText(s)
  {
    assert SafeIdentity(s) ==> forall k :: 0 <= k < |s| ==> IdentityChar(s[k]);
  }

  /** The pattern matches exactly where a tag with safe identities stands, and reads back those it stands with. */
  lemma PrintedMatches(text: string, i: nat, frameId: string, owner: string)
    ensures MatchAt(text, i) == Some(Identity(frameId, owner)) <==>
      IdentityText(frameId) && IdentityText(owner) && OccursAt(text, OPENING + Attributes(frameId, owner), i)
  {
    hide Attributes, MatchAt, TagAt, SafeIdentity, IdentityText, OccursAt;
    SafeIsText(frameId);
    SafeIsText(owner);
    PrintedParts(text, i, frameId, owner);
    if MatchAt(text, i) == Some(Identity(frameId, owner)) { MatchedParts(text, i, frameId, owner); }
    if SafeIdentity(frameId) && SafeIdentity(owner) && TagAt(text, i, frameId, owner) { PartsMatched(text, i, frameId, owner); }
  }

  lemma PartsMatched(text: string, i: nat, frameId: string, owner: string)
    requires SafeIdentity(frameId) && SafeIdentity(owner) && TagAt(text, i, frameId, owner)
    ensures MatchAt(text, i) == Some(Identity(frameId, owner))
  {
    hide OccursAt, RunEnd;
    var b := i + |OPENING| + |FRAME_ATTRIBUTE|;
    RunThenQuote(text, b, frameId, OWNER_ATTRIBUTE);
    RunThenQuote(text, b + |frameId| + |OWNER_ATTRIBUTE|, owner, TAG_END);
  }

  lemma MatchedParts(text: string, i: nat, frameId: string, owner: string)
    requires MatchAt(text, i) == Some(Identity(frameId, owner))
    ensures TagAt(text, i, frameId, owner) && SafeIdentity(frameId) && SafeIdentity(owner)
  {
    hide RunEnd;
  }

  lemma QuoteAt(text: string, i: int, p: string)
    requires OccursAt(text, p, i) && p != "" && p[0] == '"'
    ensures i < |text| && text[i] == '"' && !IdentityChar(text[i])
  {
    assert text[i] == text[i..i + |p|][0];
  }

  /** In the attributes and what follows them, only the closing tag has a '<'. */
  lemma AttributesPlain(frameId: string, owner: string)
    requires SafeIdentity(frameId) && SafeIdentity(owner)
    ensures var rest := Attributes(frameId, owner) + (NOTICE + CLOSING);
      forall i :: 0 <= i < |rest| - 1 && rest[i] == '<' ==> rest[i + 1] == CLOSING[1]
  {
    NoticePlain();
    var n := |Attributes(frameId, owner)|;
    var attributes, rest := Attributes(frameId, owner), Attributes(frameId, owner) + (NOTICE + CLOSING);
    assert forall k :: 0 <= k < |FRAME_ATTRIBUTE| ==> FRAME_ATTRIBUTE[k] != '<';
    assert forall k :: 0 <= k < |OWNER_ATTRIBUTE| ==> OWNER_ATTRIBUTE[k] != '<';
    assert forall k :: 0 <= k < |TAG_END| ==> TAG_END[k] != '<';
    forall i | 0 <= i < n ensures attributes[i] != '<' {
    }
    forall i | 0 <= i < |rest| - 1 && rest[i] == '<' ensures rest[i + 1] == CLOSING[1] {
      assert i >= n + |NOTICE|;
      assert rest[i] == CLOSING[i - n - |NOTICE|] && rest[i + 1] == CLOSING[i + 1 - n - |NOTICE|];
    }
  }

  lemma FramePlain(frameId: string, owner: string)
    requires SafeIdentity(frameId) && SafeIdentity(owner)
    ensures var p := PrintFrame(frameId, owner);
      forall i :: 0 < i < |p| - 1 && p[i] == '<' ==> p[i + 1] == '/'
  {
    hide Attributes;
    var p, rest := PrintFrame(frameId, owner), Attributes(frameId, owner) + (NOTICE + CLOSING);
    OpeningChars();
    AttributesPlain(frameId, owner);
    assert CLOSING[1] == '/';
    assert p[..|OPENING|] == OPENING;
    assert forall k :: 0 <= k < |OPENING| ==> p[k] == p[..|OPENING|][k];
    forall i | 0 < i < |p| - 1 && p[i] == '<' ensures p[i + 1] == '/' {
      assert p[i] == rest[i - |OPENING|] && p[i + 1] == rest[i + 1 - |OPENING|];
    }
  }

  lemma PrintedTail(frameId: string, owner: string)
    requires SafeIdentity(frameId) && SafeIdentity(owner)
    ensures forall i :: OccursAt(PrintFrame(frameId, owner), OPENING, i) ==> i == 0
  {
    hide PrintFrame;
    var p := PrintFrame(frameId, owner);
    OpeningChars();
    FramePlain(frameId, owner);
    assert OPENING[1] == 'm';
    forall i | OccursAt(p, OPENING, i) ensures i == 0 {
      var u := p[i..i + |OPENING|];
      assert p[i] == u[0] == '<' && p[i + 1] == u[1] == OPENING[1];
    }
  }

  lemma PlainConcat(a: string, b: string)
    requires forall k :: 0 <= k < |a| ==> a[k] != '<'
    requires forall k :: 0 <= k < |b| ==> b[k] != '<'
    ensures forall k :: 0 <= k < |a + b| ==> (a + b)[k] != '<'
  {
  }

  lemma NoticePlain()
    ensures forall k :: 0 <= k < |NOTICE| ==> NOTICE[k] != '<'
    ensures forall k :: 0 < k < |CLOSING| ==> CLOSING[k] != '<'
  {
    var a, b, c, d := "\nThis is an extension", "-owned dry assembly ", "frame. Do not use it", " as story context.\n";
    PlainConcat(c, d);
    PlainConcat(b, c + d);
    PlainConcat(a, b + (c + d));
    var first, second := "</mnemosyne-foreign", "-dry-frame>";
    assert CLOSING == first + second;
    assert forall k :: 0 < k < |first| ==> first[k] != '<';
    assert forall k :: 0 <= k < |second| ==> second[k] != '<';
  }

  /** A frame put into one text of a prompt whose other text holds no opening is found, with its identities. */
  lemma FrameFound(before: seq<string>, u: string, v: string, after: seq<string>, frameId: string, owner: string)
    returns (i: nat)
    requires SafeIdentity(frameId) && SafeIdentity(owner)
    requires NoOpening(u) && NoOpening(v)
    requires forall k :: 0 <= k < |before| ==> NoOpening(before[k])
    requires forall k :: 0 <= k < |after| ==> NoOpening(after[k])
    ensures var text := Joined(before + [u + PrintFrame(frameId, owner) + v] + after);
      OnlyOpening(text, i) && MatchAt(text, i) == Some(Identity(frameId, owner))
  {
    hide PrintFrame, MatchAt, Joined;
    var p := PrintFrame(frameId, owner);
    PrintedEnds(frameId, owner);
    JoinedNoOpening(before);
    var left := JoinedBefore(before, u, p + v);
    assert u + (p + v) == u + p + v;
    var right := JoinedAfter(before, u + p + v, after);
    NoOpeningConcat(left, "");
    SurroundedRight(v, right, after);
    i := |left|;
    assert Joined(before + [u + p + v] + after) == left + (p + (v + right)) by {
      FourTogether(left, p, v, right);
    }
    OneFrame(left, p, v + right, frameId, owner);
  }

  /** Put anywhere into a prompt without other openings, the text shows this identity to whoever inspects it. */
  ghost predicate Shows(shown: string, identity: Identity) {
    forall before, u, v, after, r ::
      NoOpening(u) && NoOpening(v) && NoneOpen(before) && NoneOpen(after) && Inspected(Joined(before + [u + shown + v] + after), r) ==>
        r == Pass(identity)
  }

  ghost predicate NoneOpen(texts: seq<string>) {
    forall k :: 0 <= k < |texts| ==> NoOpening(texts[k])
  }

  lemma PrintedShows(frameId: string, owner: string)
    requires SafeIdentity(frameId) && SafeIdentity(owner)
    ensures Shows(PrintFrame(frameId, owner), Identity(frameId, owner))
  {
    hide PrintFrame, Joined, NoOpening, SafeIdentity, MatchAt, OnlyOpening;
    forall before, u, v, after, r |
      NoOpening(u) && NoOpening(v) && NoneOpen(before) && NoneOpen(after)
      && Inspected(Joined(before + [u + PrintFrame(frameId, owner) + v] + after), r)
      ensures r == Pass(Identity(frameId, owner))
    {
      var i := FrameFound(before, u, v, after, frameId, owner);
    }
  }

  lemma FourTogether(a: string, b: string, c: string, d: string)
    ensures a + (b + c) + d == a + (b + (c + d))
  {
  }

  lemma PrintedEnds(frameId: string, owner: string)
    ensures PrintFrame(frameId, owner) != ""
    ensures PrintFrame(frameId, owner)[0] == '<' && PrintFrame(frameId, owner)[|PrintFrame(frameId, owner)| - 1] == '>'
  {
    assert CLOSING[|CLOSING| - 1] == '>';
  }

  /** What stands in front of `w` when the text `u + w` follows `before`. */
  lemma JoinedBefore(before: seq<string>, u: string, w: string) returns (left: string)
    requires NoOpening(Joined(before)) && NoOpening(u)
    ensures Joined(before + [u + w]) == left + w && NoOpening(left)
  {
    OpeningChars();
    if before == [] {
      left := u;
      assert before + [u + w] == [u + w];
    } else {
      left := Joined(before) + "\n" + u;
      assert (before + [u + w])[..|before|] == before;
      assert Joined(before) + "\n" + (u + w) == left + w;
      NoOpeningConcat(Joined(before), "\n");
      NoOpeningConcat(Joined(before) + "\n", u);
    }
  }

  /** What follows when further texts come after. */
  lemma {:induction false} JoinedAfter(before: seq<string>, t: string, after: seq<string>) returns (right: string)
    requires forall k :: 0 <= k < |after| ==> NoOpening(after[k])
    ensures Joined(before + [t] + after) == Joined(before + [t]) + right && NoOpening(right)
    ensures right == "" || right[0] == '\n'
    decreases |after|
  {
    OpeningChars();
    if after == [] {
      assert before + [t] + after == before + [t];
      right := "";
    } else {
      var n := |after| - 1;
      var r := JoinedAfter(before, t, after[..n]);
      var all := before + [t] + after;
      assert all[..|all| - 1] == before + [t] + after[..n];
      right := r + "\n" + after[n];
      NoOpeningConcat(r, "\n");
      NoOpeningConcat(r + "\n", after[n]);
    }
  }

  lemma SurroundedRight(v: string, right: string, after: seq<string>)
    requires NoOpening(v) && NoOpening(right) && (right == "" || right[0] == '\n')
    ensures NoOpening(v + right)
  {
    NoOpeningConcat(v, right);
  }

  lemma OneFrame(left: string, p: string, right: string, frameId: string, owner: string)
    requires SafeIdentity(frameId) && SafeIdentity(owner) && p == PrintFrame(frameId, owner)
    requires p != "" && p[0] == '<' && p[|p| - 1] == '>'
    requires NoOpening(left) && NoOpening(right)
    ensures var text := left + (p + right);
      OnlyOpening(text, |left|) && MatchAt(text, |left|) == Some(Identity(frameId, owner))
  {
    hide MatchAt, Attributes;
    var text := left + (p + right);
    ConcatOccurs(left, p, right);
    OccursNext(text, |left|, OPENING, Attributes(frameId, owner) + (NOTICE + CLOSING));
    assert p == OPENING + Attributes(frameId, owner) + (NOTICE + CLOSING);
    OccursNext(text, |left|, OPENING + Attributes(frameId, owner), NOTICE + CLOSING);
    SafeIsText(frameId);
    SafeIsText(owner);
    PrintedMatches(text, |left|, frameId, owner);
    PrintedTail(frameId, owner);
    forall j | OccursAt(text, OPENING, j) ensures j == |left| {
      OpeningInParts(left, p + right, j);
      OpeningInParts(p, right, j - |left|);
    }
  }
}
