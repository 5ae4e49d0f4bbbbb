/** Rewriting config.yaml as a text, line ends included (browser-folder-provisioning.js, rewriteServerPluginConfig). */
module ConfigRewrite {
  import opened MessageSpans
  import opened PromptEntries
  import opened ConfigLines
  import opened ConfigSettings
  import Paths

  const LF := "\n"
  const CRLF := "\r\n"

  // ---- Text and lines ----

  predicate CrLfAt(s: string, i: int) {
    0 <= i < |s| - 1 && s[i] == '\r' && s[i + 1] == '\n'
  }

  predicate HasCrLf(s: string) {
    exists i :: 0 <= i < |s| && CrLfAt(s, i)
  }

  /** Every "\r\n" replaced by "\n". */
  function DropCr(s: string): string {
    if s == "" then ""
    else if CrLfAt(s, 0) then "\n" + DropCr(s[2..])
    else [s[0]] + DropCr(s[1..])
  }

  predicate EndsInFeed(s: string) {
    s != "" && s[|s| - 1] == '\n'
  }

  function LinesOf(s: string): seq<string> {
    var parts := Paths.Split(DropCr(s), '\n');
    if EndsInFeed(s) then parts[..|parts| - 1] else parts
  }

  function TextOf(lines: seq<string>, newline: string, trailing: bool): string {
    Paths.Joined(lines, newline) + (if trailing then newline else "")
  }

  function NewlineOf(s: string): string {
    if HasCrLf(s) then CRLF else LF
  }

  function Rewrite(source: string): Result<string, ConfigError> {
    var lines := SetKeys(LinesOf(source));
    if lines.Failure? then Failure(lines.error)
    else Success(TextOf(lines.value, NewlineOf(source), EndsInFeed(source)))
  }

  method RewriteServerPluginConfig(source: string) returns (r: Result<string, ConfigError>)
    ensures r == Rewrite(source)
    ensures r.Success? ==> (Rewrite(r.value) == r <==> !StrayReturn(source))
  {
    if Rewrite(source).Success? { IdempotentIff(source); }
    hide SetKeys;
    var newline, trailing := NewlineOf(source), EndsInFeed(source);
    var lines := Paths.Split(DropCr(source), '\n');
    if trailing { lines := lines[..|lines| - 1]; }
    var written := WriteKeys(lines);
    if written.Failure? { return Failure(written.error); }
    r := Success(TextOf(written.value, newline, trailing));
  }

  // ---- Splitting what was joined ----

  ghost predicate ReturnFree(line: string) {
    line == "" || line[|line| - 1] != '\r'
  }

  /** No line that a newline follows ends in a carriage return. */
  ghost predicate ReturnsOnlyLast(lines: seq<string>) {
    forall k :: 0 <= k < |lines| - 1 ==> ReturnFree(lines[k])
  }

  lemma {:induction false} DropCrPlain(a: string)
    requires '\n' !in a
    ensures DropCr(a) == a
  {
    if a != "" { DropCrPlain(a[1..]); }
  }

  lemma {:induction false} DropCrAtFeed(a: string, newline: string, b: string)
    requires '\n' !in a && (newline == CRLF || (newline == LF && ReturnFree(a)))
    ensures DropCr(a + newline + b) == a + "\n" + DropCr(b)
  {
    var s := a + newline + b;
    if a == "" {
      assert s == newline + b;
      if newline == CRLF { assert s[2..] == b; } else { assert s[1..] == b; }
    } else {
      assert a[0] == s[0];
      assert s[1..] == a[1..] + newline + b;
      if |a| > 1 { assert s[1] == a[1]; }
      DropCrAtFeed(a[1..], newline, b);
    }
  }

  lemma {:induction false} DropCrJoined(lines: seq<string>, newline: string)
    requires OneLineEach(lines) && (newline == CRLF || (newline == LF && ReturnsOnlyLast(lines)))
    ensures DropCr(Paths.Joined(lines, newline)) == Paths.Joined(lines, LF)
  {
    if |lines| == 1 {
      DropCrPlain(lines[0]);
    } else if |lines| > 1 {
      assert ReturnsOnlyLast(lines) ==> ReturnFree(lines[0]);
      DropCrJoined(lines[1..], newline);
      DropCrAtFeed(lines[0], newline, Paths.Joined(lines[1..], newline));
    }
  }

  lemma {:induction false} SplitAtFeed(a: string, b: string)
    requires '\n' !in a
    ensures Paths.Split(a + "\n" + b, '\n') == [a] + Paths.Split(b, '\n')
  {
    var s := a + "\n" + b;
    if a == "" {
      assert s[1..] == b;
    } else {
      assert s[1..] == a[1..] + "\n" + b;
      assert s[0] in a && [s[0]] + a[1..] == a;
      SplitAtFeed(a[1..], b);
    }
  }

  lemma {:induction false} SplitPlain(a: string)
    requires '\n' !in a
    ensures Paths.Split(a, '\n') == [a]
  {
    if a != "" {
      assert a[0] in a && [a[0]] + a[1..] == a;
      SplitPlain(a[1..]);
    }
  }

  lemma {:induction false} SplitJoined(lines: seq<string>)
    requires lines != [] && OneLineEach(lines)
    ensures Paths.Split(Paths.Joined(lines, LF), '\n') == lines
  {
    if |lines| == 1 {
      SplitPlain(lines[0]);
    } else {
      SplitJoined(lines[1..]);
      SplitAtFeed(lines[0], Paths.Joined(lines[1..], LF));
    }
  }

  lemma {:induction false} JoinedTrailing(lines: seq<string>, newline: string)
    requires lines != []
    ensures Paths.Joined(lines + [""], newline) == Paths.Joined(lines, newline) + newline
  {
    if |lines| == 1 {
      assert (lines + [""])[1..] == [""];
    } else {
      JoinedTrailing(lines[1..], newline);
      assert (lines + [""])[1..] == lines[1..] + [""];
    }
  }

  /** The lines with an empty one behind the final newline, if there is one. */
  ghost function Full(lines: seq<string>, trailing: bool): seq<string> {
    if trailing then lines + [""] else lines
  }

  lemma TextIsJoined(lines: seq<string>, newline: string, trailing: bool)
    requires lines != []
    ensures TextOf(lines, newline, trailing) == Paths.Joined(Full(lines, trailing), newline)
  {
    if trailing { JoinedTrailing(lines, newline); }
  }

  lemma {:induction false} JoinedEnds(lines: seq<string>, newline: string)
    requires lines != [] && OneLineEach(lines) && (newline == LF || newline == CRLF)
    ensures lines[|lines| - 1] != "" ==>
      Paths.Joined(lines, newline) != "" && !EndsInFeed(Paths.Joined(lines, newline))
    ensures |lines| > 1 && lines[|lines| - 1] == "" ==> EndsInFeed(Paths.Joined(lines, newline))
  {
    if |lines| == 2 && lines[1] == "" {
      assert Paths.Joined(lines[1..], newline) == "";
    } else if |lines| > 1 {
      JoinedEnds(lines[1..], newline);
    } else if lines[0] != "" {
      assert lines[0][|lines[0]| - 1] in lines[0];
    }
  }

  /** A text made of lines splits into them again. */
  lemma LinesOfText(lines: seq<string>, newline: string, trailing: bool)
    requires lines != [] && OneLineEach(lines) && (trailing || lines[|lines| - 1] != "")
    requires newline == CRLF || (newline == LF && ReturnsOnlyLast(Full(lines, trailing)))
    ensures LinesOf(TextOf(lines, newline, trailing)) == lines
    ensures EndsInFeed(TextOf(lines, newline, trailing)) == trailing
  {
    hide DropCr;
    var full := Full(lines, trailing);
    TextIsJoined(lines, newline, trailing);
    DropCrJoined(full, newline);
    SplitJoined(full);
    JoinedEnds(full, newline);
  }

  // ---- Which newline a text has ----

  /** Every line feed follows a carriage return. */
  ghost predicate AllCrLf(s: string) {
    forall i :: 0 <= i < |s| && s[i] == '\n' ==> i > 0 && s[i - 1] == '\r'
  }

  lemma {:induction false} JoinedAllCrLf(lines: seq<string>)
    requires OneLineEach(lines)
    ensures AllCrLf(Paths.Joined(lines, CRLF))
  {
    if |lines| == 1 {
      assert forall i :: 0 <= i < |lines[0]| ==> lines[0][i] in lines[0];
    } else if |lines| > 1 {
      JoinedAllCrLf(lines[1..]);
      var a, b := lines[0], Paths.Joined(lines[1..], CRLF);
      var s := a + CRLF + b;
      assert forall i :: 0 <= i < |a| ==> s[i] == a[i] && a[i] in a;
      forall i | 0 <= i < |s| && s[i] == '\n' ensures i > 0 && s[i - 1] == '\r' {
        if i >= |a| + 2 { assert s[i] == b[i - |a| - 2]; }
      }
    }
  }

  lemma {:induction false} JoinedHasCrLf(lines: seq<string>, newline: string, k: nat)
    requires k < |lines| - 1 && (newline == CRLF || (newline == LF && !ReturnFree(lines[k])))
    ensures HasCrLf(Paths.Joined(lines, newline))
  {
    var s := Paths.Joined(lines, newline);
    var b := Paths.Joined(lines[1..], newline);
    assert s == lines[0] + newline + b;
    if k == 0 {
      if newline == CRLF { assert CrLfAt(s, |lines[0]|); } else { assert CrLfAt(s, |lines[0]| - 1); }
    } else {
      JoinedHasCrLf(lines[1..], newline, k - 1);
      var i :| 0 <= i < |b| && CrLfAt(b, i);
      assert CrLfAt(s, |lines[0]| + |newline| + i);
    }
  }

  lemma {:induction false} JoinedHasNoCrLf(lines: seq<string>)
    requires OneLineEach(lines) && ReturnsOnlyLast(lines)
    ensures !HasCrLf(Paths.Joined(lines, LF))
  {
    if |lines| == 1 {
      assert forall i :: 0 <= i < |lines[0]| ==> lines[0][i] in lines[0];
    } else if |lines| > 1 {
      assert ReturnFree(lines[0]);
      JoinedHasNoCrLf(lines[1..]);
      var a, b := lines[0], Paths.Joined(lines[1..], LF);
      var s := a + LF + b;
      assert forall j :: 0 <= j < |a| ==> s[j] == a[j] && a[j] in a;
      forall i | 0 <= i < |s| ensures !CrLfAt(s, i) {
        if i > |a| && i < |s| - 1 { assert !CrLfAt(b, i - |a| - 1); }
      }
    }
  }

  // ---- The lines of a source ----

  lemma {:induction false} DropCrNothing(s: string)
    requires !HasCrLf(s)
    ensures DropCr(s) == s
  {
    if s != "" {
      assert !CrLfAt(s, 0);
      forall i | 0 <= i < |s[1..]| ensures !CrLfAt(s[1..], i) { assert !CrLfAt(s, i + 1); }
      DropCrNothing(s[1..]);
    }
  }

  lemma {:induction false} DropCrEnds(s: string)
    ensures s != "" ==> DropCr(s) != "" && DropCr(s)[|DropCr(s)| - 1] == s[|s| - 1]
    ensures s == "" ==> DropCr(s) == ""
  {
    if s != "" && CrLfAt(s, 0) {
      DropCrEnds(s[2..]);
    } else if s != "" {
      DropCrEnds(s[1..]);
    }
  }

  lemma {:induction false} SplitEnds(s: string)
    ensures var parts := Paths.Split(s, '\n');
      && (EndsInFeed(s) <==> |parts| > 1 && parts[|parts| - 1] == "")
      && (s == "" <==> parts == [""])
      && (s != "" && !EndsInFeed(s) ==> parts[|parts| - 1] != "" && parts[|parts| - 1][|parts[|parts| - 1]| - 1] == s[|s| - 1])
  {
    if s != "" { SplitEnds(s[1..]); }
  }

  lemma {:induction false} SplitReturns(s: string)
    requires !HasCrLf(s)
    ensures ReturnsOnlyLast(Paths.Split(s, '\n'))
  {
    if s != "" {
      forall i | 0 <= i < |s[1..]| ensures !CrLfAt(s[1..], i) { assert !CrLfAt(s, i + 1); }
      SplitReturns(s[1..]);
      var rest, all := Paths.Split(s[1..], '\n'), Paths.Split(s, '\n');
      if s[0] != '\n' && |rest| > 1 {
        assert ReturnFree(rest[0]);
        if rest[0] == "" { FirstEmpty(s[1..]); assert !CrLfAt(s, 0); }
        assert ReturnFree(all[0]);
      }
      assert forall k :: 0 < k < |all| ==> all[k] == (if s[0] == '\n' then rest[k - 1] else rest[k]);
    }
  }

  /** A first line that is empty, with another behind it, means a leading line feed. */
  lemma FirstEmpty(s: string)
    requires |Paths.Split(s, '\n')| > 1 && Paths.Split(s, '\n')[0] == ""
    ensures s != "" && s[0] == '\n'
  {
  }

  /** What the lines of a source look like. */
  lemma SourceLines(s: string)
    ensures LinesOf(s) != [] && OneLineEach(LinesOf(s))
    ensures !EndsInFeed(s) && s != "" ==> LinesOf(s)[|LinesOf(s)| - 1] != ""
    ensures !HasCrLf(s) ==> ReturnsOnlyLast(Full(LinesOf(s), EndsInFeed(s)))
    ensures !EndsInFeed(s) && s != "" ==>
      (ReturnFree(LinesOf(s)[|LinesOf(s)| - 1]) <==> s[|s| - 1] != '\r')
    ensures s == "" ==> LinesOf(s) == [""]
    ensures HasCrLf(s) ==> |LinesOf(s)| > 1 || EndsInFeed(s)
  {
    hide DropCr, Paths.Split;
    DropCrEnds(s);
    SplitEnds(DropCr(s));
    var parts := Paths.Split(DropCr(s), '\n');
    if !HasCrLf(s) {
      DropCrNothing(s);
      SplitReturns(s);
    } else {
      CrLfSplits(s);
    }
  }

  lemma {:induction false} CrLfSplits(s: string)
    requires HasCrLf(s)
    ensures |Paths.Split(DropCr(s), '\n')| > 1
  {
    if CrLfAt(s, 0) {
      assert DropCr(s)[0] == '\n';
    } else {
      var i :| 0 <= i < |s| && CrLfAt(s, i);
      assert CrLfAt(s[1..], i - 1);
      CrLfSplits(s[1..]);
      assert DropCr(s)[1..] == DropCr(s[1..]);
    }
  }

  // ---- Rewriting twice ----

  /** A text without "\r\n" that ends in a lone carriage return, and lacks one of the keys: the line added behind it
      turns that carriage return into half of a newline. */
  predicate StrayReturn(s: string) {
    && !HasCrLf(s) && s != "" && s[|s| - 1] == '\r'
    && var lines := LinesOf(s);
       !(exists i :: 0 <= i < |lines| && ParseSetting(lines[i], PLUGINS).Some?)
       || !(exists i :: 0 <= i < |lines| && ParseSetting(lines[i], AUTO_UPDATE).Some?)
  }

  /** The lines of the rewritten text, and where carriage returns may stand in them. */
  lemma RewrittenLines(s: string)
    requires Rewrite(s).Success?
    ensures var r := SetKeys(LinesOf(s)).value;
      && r != [] && OneLineEach(r) && (EndsInFeed(s) || r[|r| - 1] != "")
      && (!HasCrLf(s) && !StrayReturn(s) ==> ReturnsOnlyLast(Full(r, EndsInFeed(s))))
      && (HasCrLf(s) ==> |r| > 1 || EndsInFeed(s))
  {
    hide SetKeys, ParseSetting, LinesOf, HasCrLf, IsWritten;
    var lines := LinesOf(s);
    var r := SetKeys(lines).value;
    SourceLines(s);
    SetKeysKeepsFeeds(lines);
    OtherLinesKept(lines);
    LastLine(lines, r);
    if !HasCrLf(s) && !StrayReturn(s) {
      forall k | 0 <= k < |Full(r, EndsInFeed(s))| - 1 ensures ReturnFree(Full(r, EndsInFeed(s))[k]) {
        LineReturn(s, lines, r, k);
      }
    }
  }

  lemma LastLine(lines: seq<string>, r: seq<string>)
    requires SetKeys(lines) == Success(r) && lines != []
    ensures |r| >= |lines|
    ensures lines[|lines| - 1] != "" || lines == [""] ==> r[|r| - 1] != ""
  {
    hide SetKeys, ParseSetting, IsWritten;
    OtherLinesKept(lines);
    var last := r[|r| - 1];
    if IsWritten(last) { WrittenEnds(last); }
    if lines == [""] { EmptySetsNothing(); }
  }

  lemma EmptySetsNothing()
    ensures !SetsEither("")
  {
    EmptyNoSetting(PLUGINS);
    EmptyNoSetting(AUTO_UPDATE);
  }

  lemma EmptyNoSetting(key: string)
    ensures ParseSetting("", key).None?
  {
  }

  lemma LineReturn(s: string, lines: seq<string>, r: seq<string>, k: nat)
    requires lines == LinesOf(s) && SetKeys(lines) == Success(r) && !HasCrLf(s) && !StrayReturn(s)
    requires k < |Full(r, EndsInFeed(s))| - 1
    ensures ReturnFree(Full(r, EndsInFeed(s))[k])
  {
    hide SetKeys, ParseSetting, LinesOf, HasCrLf, IsWritten;
    SourceLines(s);
    OtherLinesKept(lines);
    if IsWritten(r[k]) {
      WrittenEnds(r[k]);
    } else {
      assert r[k] == lines[k];
      if k < |lines| - 1 || EndsInFeed(s) { assert ReturnFree(Full(lines, EndsInFeed(s))[k]); }
    }
  }

  lemma NewlineStays(s: string)
    requires Rewrite(s).Success? && !StrayReturn(s)
    ensures HasCrLf(Rewrite(s).value) == HasCrLf(s)
  {
    hide SetKeys, LinesOf, HasCrLf, StrayReturn;
    RewrittenLines(s);
    var r := SetKeys(LinesOf(s)).value;
    TextIsJoined(r, NewlineOf(s), EndsInFeed(s));
    var full := Full(r, EndsInFeed(s));
    if HasCrLf(s) {
      JoinedHasCrLf(full, CRLF, 0);
    } else {
      JoinedHasNoCrLf(full);
    }
  }

  /** Rewriting a rewritten config changes nothing. */
  lemma RewriteTwice(s: string)
    requires Rewrite(s).Success? && !StrayReturn(s)
    ensures Rewrite(Rewrite(s).value) == Rewrite(s)
  {
    hide SetKeys, LinesOf, HasCrLf, StrayReturn, TextOf;
    var lines, newline, trailing := LinesOf(s), NewlineOf(s), EndsInFeed(s);
    var r := SetKeys(lines).value;
    RewrittenLines(s);
    NewlineStays(s);
    LinesOfText(r, newline, trailing);
    SetKeysTwice(lines);
  }

  /** A line feed that no carriage return stands before. */
  lemma {:induction false} LoneFeed(lines: seq<string>, k: nat) returns (p: nat)
    requires k < |lines| - 1 && ReturnFree(lines[k])
    ensures p < |Paths.Joined(lines, LF)| && Paths.Joined(lines, LF)[p] == '\n'
    ensures p > 0 ==> Paths.Joined(lines, LF)[p - 1] != '\r'
    decreases k
  {
    var b := Paths.Joined(lines[1..], LF);
    if k == 0 {
      p := |lines[0]|;
    } else {
      var q := LoneFeed(lines[1..], k - 1);
      p := |lines[0]| + 1 + q;
      assert Paths.Joined(lines, LF)[p] == b[q];
    }
  }

  /** Under a stray carriage return some line other than the last is free of one. */
  lemma FreeLine(s: string) returns (k: nat)
    requires Rewrite(s).Success? && StrayReturn(s)
    ensures var r := SetKeys(LinesOf(s)).value;
      && k < |r| - 1 && ReturnFree(r[k])
      && |LinesOf(s)| < |r| && !ReturnFree(r[|LinesOf(s)| - 1])
  {
    hide SetKeys, ParseSetting, LinesOf, HasCrLf, IsWritten;
    var lines := LinesOf(s);
    var r := SetKeys(lines).value;
    SourceLines(s);
    OtherLinesKept(lines);
    var m := |lines| - 1;
    ReturnSetsNothing(lines[m]);
    if |r| == |lines| + 2 {
      k := |lines|;
      WrittenEnds(r[k]);
    } else {
      k :| 0 <= k < |lines| && SetsEither(lines[k]);
      WrittenEnds(r[k]);
    }
  }

  /** With a stray carriage return the second rewriting does change the text, or fails. */
  lemma StrayReturnNotIdempotent(s: string)
    requires Rewrite(s).Success? && StrayReturn(s)
    ensures Rewrite(Rewrite(s).value) != Rewrite(s)
  {
    hide SetKeys, LinesOf, HasCrLf, StrayReturn, OneLineEach;
    var lines, out := LinesOf(s), Rewrite(s).value;
    var r := SetKeys(lines).value;
    StrayShape(s);
    RewrittenLines(s);
    var k := FreeLine(s);
    TextIsJoined(r, LF, false);
    JoinedHasCrLf(r, LF, |lines| - 1);
    var p := LoneFeed(r, k);
    if Rewrite(out).Success? {
      RewrittenLines(out);
      var again := SetKeys(LinesOf(out)).value;
      TextIsJoined(again, CRLF, EndsInFeed(out));
      FullOneLine(again, EndsInFeed(out));
      JoinedAllCrLf(Full(again, EndsInFeed(out)));
    }
  }

  lemma StrayShape(s: string)
    requires StrayReturn(s)
    ensures !HasCrLf(s) && !EndsInFeed(s) && |LinesOf(s)| > 0
  {
    hide LinesOf, HasCrLf;
    SourceLines(s);
  }

  lemma FullOneLine(lines: seq<string>, trailing: bool)
    requires OneLineEach(lines)
    ensures OneLineEach(Full(lines, trailing))
  {
  }

  /** Rewriting is idempotent exactly on sources without a stray carriage return. */
  lemma IdempotentIff(s: string)
    requires Rewrite(s).Success?
    ensures Rewrite(Rewrite(s).value) == Rewrite(s) <==> !StrayReturn(s)
  {
    hide Rewrite, StrayReturn;
    if StrayReturn(s) { StrayReturnNotIdempotent(s); } else { RewriteTwice(s); }
  }

  lemma StrayGainsCrLf(s: string)
    requires Rewrite(s).Success? && StrayReturn(s)
    ensures HasCrLf(Rewrite(s).value)
  {
    hide SetKeys, LinesOf, HasCrLf, StrayReturn, OneLineEach;
    var r := SetKeys(LinesOf(s)).value;
    StrayShape(s);
    RewrittenLines(s);
    var k := FreeLine(s);
    TextIsJoined(r, LF, false);
    JoinedHasCrLf(r, LF, |LinesOf(s)| - 1);
  }

  /** Nor does a second rewriting lead back to the source. */
  lemma StrayNeverReturns(s: string)
    requires Rewrite(s).Success? && StrayReturn(s) && Rewrite(Rewrite(s).value).Success?
    ensures Rewrite(Rewrite(s).value).value != s
  {
    hide Rewrite, HasCrLf, LinesOf;
    StrayGainsCrLf(s);
    NewlineStays(Rewrite(s).value);
  }

  /** The lines "", and both settings as they are appended. */
  lemma AppendedLines()
    ensures SetKeys(["", Appended(PLUGINS, "true"), Appended(AUTO_UPDATE, "false")]).Success?
  {
    var lines := ["", Appended(PLUGINS, "true"), Appended(AUTO_UPDATE, "false")];
    KeysAreBare();
    AppendedIsSetting(PLUGINS, "true");
    AppendedIsSetting(AUTO_UPDATE, "false");
    OneKeyPerLine(lines[1]);
    OneKeyPerLine(lines[2]);
    EmptySetsNothing();
    hide ParseSetting, Appended, Rewritten;
    assert SetsOnly(lines, PLUGINS, "true", 1);
    assert SetsOnly(lines, AUTO_UPDATE, "false", 2);
    CanonicalStays(lines, PLUGINS, "true");
    CanonicalStays(lines, AUTO_UPDATE, "false");
  }

  lemma AppendedReturnFree()
    ensures ReturnFree(Appended(PLUGINS, "true")) && ReturnFree(Appended(AUTO_UPDATE, "false"))
  {
    AppendedIsWritten();
    WrittenEnds(Appended(PLUGINS, "true"));
    WrittenEnds(Appended(AUTO_UPDATE, "false"));
  }

  lemma KeyAppended(lines: seq<string>, key: string, value: string)
    requires forall k :: 0 <= k < |lines| ==> ParseSetting(lines[k], key).None?
    ensures SetKey(lines, key, value) == Success(lines + [Appended(key, value)])
  {
    PlacesCount(lines, key);
  }

  lemma LoneReturnLines(s: string)
    requires |s| == 1 && s[0] == '\r'
    ensures LinesOf(s) == [s] && NewlineOf(s) == LF && !EndsInFeed(s) && StrayReturn(s)
  {
    DropCrPlain(s);
    SplitPlain(s);
    ReturnEndsSetting(s, PLUGINS);
    hide ParseSetting;
  }

  lemma LoneReturnSet(s: string)
    requires |s| == 1 && s[0] == '\r'
    ensures SetKeys([s]) == Success([s, Appended(PLUGINS, "true"), Appended(AUTO_UPDATE, "false")])
  {
    ReturnEndsSetting(s, PLUGINS);
    ReturnEndsSetting(s, AUTO_UPDATE);
    AppendedNotOther();
    hide ParseSetting, Appended, SetKey;
    var a, b := Appended(PLUGINS, "true"), Appended(AUTO_UPDATE, "false");
    KeyAppended([s], PLUGINS, "true");
    KeyAppended([s, a], AUTO_UPDATE, "false");
    assert [s] + [a] == [s, a] && [s, a] + [b] == [s, a, b];
  }

  lemma ReturnThenLines(a: string, b: string)
    requires '\n' !in a && '\n' !in b && ReturnFree(a) && b != ""
    ensures LinesOf("" + CRLF + (a + LF + b)) == ["", a, b]
  {
    DropCrAtFeed("", CRLF, a + LF + b);
    DropCrAtFeed(a, LF, b);
    DropCrPlain(b);
    SplitAtFeed("", a + "\n" + b);
    SplitAtFeed(a, b);
    SplitPlain(b);
  }

  lemma LoneReturnJoined(s: string, a: string, b: string)
    requires |s| == 1 && s[0] == '\r'
    ensures TextOf([s, a, b], LF, false) == "" + CRLF + (a + LF + b)
  {
    assert [s, a, b][1..] == [a, b] && [a, b][1..] == [b];
    assert Paths.Joined([a, b], LF) == a + LF + b;
    assert s + LF == CRLF;
  }

  /** A lone carriage return is rewritten, and its rewriting is rewritten into something else. */
  lemma LoneReturn(s: string)
    requires s == "\r"
    ensures StrayReturn(s) && Rewrite(s).Success? && Rewrite(Rewrite(s).value).Success?
    ensures Rewrite(Rewrite(s).value) != Rewrite(s)
  {
    var a, b := Appended(PLUGINS, "true"), Appended(AUTO_UPDATE, "false");
    AppendedHasNoFeed();
    AppendedReturnFree();
    assert b != "";
    LoneReturnLines(s);
    LoneReturnSet(s);
    AppendedLines();
    hide SetKeys, Appended, LinesOf, TextOf, StrayReturn, EndsInFeed, NewlineOf;
    LoneReturnJoined(s, a, b);
    ReturnThenLines(a, b);
    StrayReturnNotIdempotent(s);
  }
}
