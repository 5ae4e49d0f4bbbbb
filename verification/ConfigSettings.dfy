/** The two settings put into the lines of config.yaml, one after the other. */
module ConfigSettings {
  import opened MessageSpans
  import opened PromptEntries
  import opened ConfigLines

  datatype ConfigError = DuplicateKey

  /** The lines that set the key. */
  function Places(lines: seq<string>, key: string, n: nat): seq<nat>
    requires n <= |lines|
  {
    if n == 0 then [] else Places(lines, key, n - 1) + (if ParseSetting(lines[n - 1], key).Some? then [n - 1] else [])
  }

  /** Exactly the lines that set the key are listed, in order. */
  lemma {:induction false} PlacesSet(lines: seq<string>, key: string, n: nat)
    requires n <= |lines|
    ensures forall i: nat :: i in Places(lines, key, n) <==> i < n && ParseSetting(lines[i], key).Some?
    ensures forall j, k :: 0 <= j < k < |Places(lines, key, n)| ==> Places(lines, key, n)[j] < Places(lines, key, n)[k]
  {
    hide ParseSetting;
    if n > 0 {
      PlacesSet(lines, key, n - 1);
      var init := Places(lines, key, n - 1);
      assert forall k :: 0 <= k < |init| ==> init[k] in init;
    }
  }

  function SetKey(lines: seq<string>, key: string, value: string): Result<seq<string>, ConfigError> {
    var places := Places(lines, key, |lines|);
    if |places| > 1 then Failure(DuplicateKey)
    else if |places| == 1 then
      PlacesSet(lines, key, |lines|);
      assert places[0] in places;
      Success(lines[places[0] := Rewritten(ParseSetting(lines[places[0]], key).value, value)])
    else Success(lines + [Appended(key, value)])
  }

  function SetKeys(lines: seq<string>): Result<seq<string>, ConfigError> {
    var first := SetKey(lines, PLUGINS, "true");
    if first.Failure? then first else SetKey(first.value, AUTO_UPDATE, "false")
  }

  method FindPlaces(lines: seq<string>, key: string) returns (places: seq<nat>)
    ensures places == Places(lines, key, |lines|)
  {
    hide ParseSetting;
    places := [];
    for index := 0 to |lines|
      invariant places == Places(lines, key, index)
    {
      if ParseSetting(lines[index], key).Some? { places := places + [index]; }
    }
  }

  method WriteKey(lines: seq<string>, key: string, value: string) returns (r: Result<seq<string>, ConfigError>)
    ensures r == SetKey(lines, key, value)
  {
    hide ParseSetting;
    var places := FindPlaces(lines, key);
    if |places| > 1 { return Failure(DuplicateKey); }
    if |places| == 1 {
      var index := places[0];
      PlacesSet(lines, key, |lines|);
      assert index in places;
      return Success(lines[index := Rewritten(ParseSetting(lines[index], key).value, value)]);
    }
    r := Success(lines + [Appended(key, value)]);
  }

  method WriteKeys(lines: seq<string>) returns (r: Result<seq<string>, ConfigError>)
    ensures r == SetKeys(lines)
  {
    hide SetKey;
    r := WriteKey(lines, PLUGINS, "true");
    if r.Success? { r := WriteKey(r.value, AUTO_UPDATE, "false"); }
  }

  // ---- What the lines say afterwards ----

  /** One line sets the key, and it sets it to this value already. */
  ghost predicate Canonical(lines: seq<string>, key: string, value: string) {
    exists i :: SetsOnly(lines, key, value, i)
  }

  ghost predicate SetsOnly(lines: seq<string>, key: string, value: string, i: int) {
    && 0 <= i < |lines| && ParseSetting(lines[i], key).Some?
    && Rewritten(ParseSetting(lines[i], key).value, value) == lines[i]
    && forall k :: 0 <= k < |lines| && k != i ==> ParseSetting(lines[k], key).None?
  }

  ghost predicate GoodValue(value: string) {
    NoQuotes(value) && OneLine(value)
  }

  lemma PlacesCount(lines: seq<string>, key: string)
    ensures |Places(lines, key, |lines|)| == 0 <==> forall k :: 0 <= k < |lines| ==> ParseSetting(lines[k], key).None?
    ensures forall i :: 0 <= i < |lines| && ParseSetting(lines[i], key).Some? ==>
      (|Places(lines, key, |lines|)| == 1 <==> forall k :: 0 <= k < |lines| && k != i ==> ParseSetting(lines[k], key).None?)
    ensures |Places(lines, key, |lines|)| == 1 ==>
      var i := Places(lines, key, |lines|)[0]; i < |lines| && ParseSetting(lines[i], key).Some?
  {
    hide ParseSetting;
    var places := Places(lines, key, |lines|);
    PlacesSet(lines, key, |lines|);
    hide Places;
    if |places| > 0 { assert places[0] in places; }
    forall i: nat | i < |lines| && ParseSetting(lines[i], key).Some?
      ensures |places| == 1 <==> forall k :: 0 <= k < |lines| && k != i ==> ParseSetting(lines[k], key).None?
    {
      OnlyPlace(lines, key, places, i);
    }
  }

  lemma OnlyPlace(lines: seq<string>, key: string, places: seq<nat>, i: nat)
    requires forall k: nat :: k in places <==> k < |lines| && ParseSetting(lines[k], key).Some?
    requires forall j, k :: 0 <= j < k < |places| ==> places[j] < places[k]
    requires i < |lines| && ParseSetting(lines[i], key).Some?
    ensures |places| == 1 <==> forall k :: 0 <= k < |lines| && k != i ==> ParseSetting(lines[k], key).None?
  {
    hide ParseSetting;
    assert i in places;
    if |places| == 1 {
      forall k: nat | k < |lines| && k != i ensures ParseSetting(lines[k], key).None? { assert k !in places; }
    } else {
      assert places[0] in places && places[1] in places && places[0] < places[1];
    }
  }

  /** What becomes of the lines when one key is set. */
  ghost predicate KeySet(lines: seq<string>, key: string, value: string, r: seq<string>) {
    && Canonical(r, key, value) && |lines| <= |r| <= |lines| + 1
    && (|r| == |lines| <==> exists i :: 0 <= i < |lines| && ParseSetting(lines[i], key).Some?)
    && (forall i :: 0 <= i < |lines| && ParseSetting(lines[i], key).None? ==> r[i] == lines[i])
    && (forall i :: 0 <= i < |lines| && ParseSetting(lines[i], key).Some? ==>
          r[i] == Rewritten(ParseSetting(lines[i], key).value, value))
    && (|r| > |lines| ==> r[|lines|] == Appended(key, value))
  }

  lemma OneRewritten(lines: seq<string>, key: string, value: string, i: nat)
    requires GoodValue(value) && i < |lines| && ParseSetting(lines[i], key).Some?
    requires forall k :: 0 <= k < |lines| && k != i ==> ParseSetting(lines[k], key).None?
    ensures KeySet(lines, key, value, lines[i := Rewritten(ParseSetting(lines[i], key).value, value)])
  {
    hide ParseSetting, Rewritten;
    RewrittenAgain(lines[i], key, value);
    assert SetsOnly(lines[i := Rewritten(ParseSetting(lines[i], key).value, value)], key, value, i);
  }

  lemma OneAppended(lines: seq<string>, key: string, value: string)
    requires Bare(key) && GoodValue(value)
    requires forall k :: 0 <= k < |lines| ==> ParseSetting(lines[k], key).None?
    ensures KeySet(lines, key, value, lines + [Appended(key, value)])
  {
    hide ParseSetting, Rewritten, Appended;
    AppendedIsSetting(key, value);
    assert SetsOnly(lines + [Appended(key, value)], key, value, |lines|);
  }

  /** The result of setting one key: which line changes, and how. */
  lemma SetKeyEffect(lines: seq<string>, key: string, value: string)
    requires Bare(key) && GoodValue(value) && SetKey(lines, key, value).Success?
    ensures KeySet(lines, key, value, SetKey(lines, key, value).value)
  {
    hide ParseSetting, Rewritten, KeySet, Appended;
    var places := Places(lines, key, |lines|);
    PlacesCount(lines, key);
    if |places| == 1 {
      OneRewritten(lines, key, value, places[0]);
    } else {
      OneAppended(lines, key, value);
    }
  }

  /** A key that is set already stays as it is. */
  lemma CanonicalStays(lines: seq<string>, key: string, value: string)
    requires Canonical(lines, key, value)
    ensures SetKey(lines, key, value) == Success(lines)
  {
    hide ParseSetting, Rewritten;
    PlacesCount(lines, key);
    PlacesSet(lines, key, |lines|);
    var i :| SetsOnly(lines, key, value, i);
    var places := Places(lines, key, |lines|);
    assert i in places && places[0] in places;
    assert lines[i := lines[i]] == lines;
  }

  /** Setting the second key leaves the first one set. */
  lemma OtherKeyStays(lines: seq<string>)
    requires Canonical(lines, PLUGINS, "true") && SetKey(lines, AUTO_UPDATE, "false").Success?
    ensures Canonical(SetKey(lines, AUTO_UPDATE, "false").value, PLUGINS, "true")
  {
    hide ParseSetting, Rewritten, SetKey;
    var r := SetKey(lines, AUTO_UPDATE, "false").value;
    KeysAreBare();
    SetKeyEffect(lines, AUTO_UPDATE, "false");
    var i :| SetsOnly(lines, PLUGINS, "true", i);
    OneKeyPerLine(lines[i]);
    forall k | 0 <= k < |r| && k != i ensures ParseSetting(r[k], PLUGINS).None? {
      if k < |lines| {
        if ParseSetting(lines[k], AUTO_UPDATE).Some? {
          RewrittenAgain(lines[k], AUTO_UPDATE, "false");
          OneKeyPerLine(r[k]);
        }
      } else {
        AppendedIsSetting(AUTO_UPDATE, "false");
        OneKeyPerLine(r[k]);
      }
    }
    assert SetsOnly(r, PLUGINS, "true", i);
  }

  lemma KeysAreBare()
    ensures Bare(PLUGINS) && Bare(AUTO_UPDATE) && GoodValue("true") && GoodValue("false")
  {
  }

  ghost predicate SetsEither(line: string) {
    ParseSetting(line, PLUGINS).Some? || ParseSetting(line, AUTO_UPDATE).Some?
  }

  /** Setting the keys a second time changes nothing. */
  lemma SetKeysTwice(lines: seq<string>)
    requires SetKeys(lines).Success?
    ensures SetKeys(SetKeys(lines).value) == SetKeys(lines)
  {
    hide SetKey, Canonical;
    KeysAreBare();
    var first := SetKey(lines, PLUGINS, "true").value;
    var second := SetKey(first, AUTO_UPDATE, "false").value;
    SetKeyEffect(lines, PLUGINS, "true");
    SetKeyEffect(first, AUTO_UPDATE, "false");
    OtherKeyStays(first);
    CanonicalStays(second, PLUGINS, "true");
    CanonicalStays(second, AUTO_UPDATE, "false");
  }

  /** A line that is the setting of one of the keys, as it is written. */
  ghost predicate IsWritten(line: string) {
    || (ParseSetting(line, PLUGINS).Some? && Rewritten(ParseSetting(line, PLUGINS).value, "true") == line)
    || (ParseSetting(line, AUTO_UPDATE).Some? && Rewritten(ParseSetting(line, AUTO_UPDATE).value, "false") == line)
  }

  lemma RewrittenIsWritten(line: string)
    ensures ParseSetting(line, PLUGINS).Some? ==> IsWritten(Rewritten(ParseSetting(line, PLUGINS).value, "true"))
    ensures ParseSetting(line, AUTO_UPDATE).Some? ==> IsWritten(Rewritten(ParseSetting(line, AUTO_UPDATE).value, "false"))
  {
    hide ParseSetting, Rewritten;
    KeysAreBare();
    if ParseSetting(line, PLUGINS).Some? { RewrittenAgain(line, PLUGINS, "true"); }
    if ParseSetting(line, AUTO_UPDATE).Some? { RewrittenAgain(line, AUTO_UPDATE, "false"); }
  }

  lemma AppendedIsWritten()
    ensures IsWritten(Appended(PLUGINS, "true")) && IsWritten(Appended(AUTO_UPDATE, "false"))
  {
    hide ParseSetting, Rewritten, Appended;
    KeysAreBare();
    AppendedIsSetting(PLUGINS, "true");
    AppendedIsSetting(AUTO_UPDATE, "false");
  }

  /** Every line that sets neither key is kept, in its place; every other line, and every line added, is as written. */
  lemma OtherLinesKept(lines: seq<string>)
    requires SetKeys(lines).Success?
    ensures var r := SetKeys(lines).value;
      && |lines| <= |r| <= |lines| + 2
      && (forall i :: 0 <= i < |lines| && !SetsEither(lines[i]) ==> r[i] == lines[i])
      && (forall i :: 0 <= i < |lines| && SetsEither(lines[i]) ==> IsWritten(r[i]))
      && (forall i :: |lines| <= i < |r| ==> IsWritten(r[i]))
      && (|r| == |lines| <==>
            (exists i :: 0 <= i < |lines| && ParseSetting(lines[i], PLUGINS).Some?)
            && (exists i :: 0 <= i < |lines| && ParseSetting(lines[i], AUTO_UPDATE).Some?))
      && (|r| == |lines| + 2 ==> !exists i :: 0 <= i < |lines| && SetsEither(lines[i]))
      && (|r| == |lines| + 1 ==> exists i :: 0 <= i < |lines| && SetsEither(lines[i]))
  {
    hide ParseSetting, Rewritten, SetKey, IsWritten, Appended;
    KeysAreBare();
    var first := SetKey(lines, PLUGINS, "true").value;
    SetKeyEffect(lines, PLUGINS, "true");
    SetKeyEffect(first, AUTO_UPDATE, "false");
    var r := SetKey(first, AUTO_UPDATE, "false").value;
    AppendedIsWritten();
    FirstSetsSame(lines, first);
    forall i | 0 <= i < |lines| ensures if SetsEither(lines[i]) then IsWritten(r[i]) else r[i] == lines[i] {
      OneKeyPerLine(lines[i]);
      RewrittenIsWritten(lines[i]);
    }
    AppendedNotOther();
  }

  /** After the first key is set, the same lines set the second. */
  lemma FirstSetsSame(lines: seq<string>, first: seq<string>)
    requires SetKey(lines, PLUGINS, "true") == Success(first)
    ensures |lines| <= |first|
    ensures forall i :: 0 <= i < |lines| ==> (ParseSetting(first[i], AUTO_UPDATE).Some? <==> ParseSetting(lines[i], AUTO_UPDATE).Some?)
    ensures forall i :: 0 <= i < |lines| && ParseSetting(lines[i], AUTO_UPDATE).Some? ==> first[i] == lines[i]
  {
    hide ParseSetting, Rewritten, SetKey;
    KeysAreBare();
    SetKeyEffect(lines, PLUGINS, "true");
    forall i | 0 <= i < |lines| ensures ParseSetting(first[i], AUTO_UPDATE).Some? <==> ParseSetting(lines[i], AUTO_UPDATE).Some? {
      OneKeyPerLine(lines[i]);
      if ParseSetting(lines[i], PLUGINS).Some? {
        RewrittenAgain(lines[i], PLUGINS, "true");
        OneKeyPerLine(first[i]);
      }
    }
    forall i | 0 <= i < |lines| && ParseSetting(lines[i], AUTO_UPDATE).Some? ensures first[i] == lines[i] {
      OneKeyPerLine(lines[i]);
    }
  }

  lemma AppendedNotOther()
    ensures ParseSetting(Appended(PLUGINS, "true"), AUTO_UPDATE).None?
  {
    hide ParseSetting, Appended;
    KeysAreBare();
    AppendedIsSetting(PLUGINS, "true");
    OneKeyPerLine(Appended(PLUGINS, "true"));
  }

  /** A line as written is not empty and does not end in a carriage return, nor hold a line feed if its origin had none. */
  lemma WrittenEnds(line: string)
    requires IsWritten(line)
    ensures line != "" && line[|line| - 1] != '\r'
  {
    hide ParseSetting;
    if ParseSetting(line, PLUGINS).Some? && Rewritten(ParseSetting(line, PLUGINS).value, "true") == line {
      SettingHasPrefixOnly(line, PLUGINS);
      RewrittenEnds(ParseSetting(line, PLUGINS).value, "true");
    } else {
      SettingHasPrefixOnly(line, AUTO_UPDATE);
      RewrittenEnds(ParseSetting(line, AUTO_UPDATE).value, "false");
    }
  }

  lemma SettingHasPrefixOnly(line: string, key: string)
    requires ParseSetting(line, key).Some?
    ensures OneLine(ParseSetting(line, key).value.comment)
  {
    SettingHasPrefix(line, key);
  }

  lemma RewrittenEnds(s: Setting, value: string)
    requires OneLine(s.comment) && OneLine(value) && value != ""
    ensures Rewritten(s, value) != "" && Rewritten(s, value)[|Rewritten(s, value)| - 1] != '\r'
  {
    var r := Rewritten(s, value);
    if s.comment == "" {
      assert " " + value + "" == " " + value;
      assert r[|r| - 1] == value[|value| - 1];
    } else {
      assert r[|r| - 1] == s.comment[|s.comment| - 1];
    }
  }

  /** A line that ends in a carriage return sets neither key. */
  lemma ReturnSetsNothing(line: string)
    requires line != "" && line[|line| - 1] == '\r'
    ensures !SetsEither(line)
  {
    ReturnEndsSetting(line, PLUGINS);
    ReturnEndsSetting(line, AUTO_UPDATE);
  }

  lemma ReturnEndsSetting(line: string, key: string)
    requires line != "" && line[|line| - 1] == '\r'
    ensures ParseSetting(line, key).None?
  {
    hide CommentAt;
    var head := Head(line, key);
    if head <= line {
      var colon := |head| + SkipSpace(line[|head|..]);
      if colon < |line| - 1 {
        var tail := line[colon + 1..];
        assert tail[|tail| - 1] == '\r';
      }
    }
  }

  ghost predicate OneLineEach(lines: seq<string>) {
    forall k :: 0 <= k < |lines| ==> '\n' !in lines[k]
  }

  lemma RewrittenKeepsFeeds(line: string, key: string, value: string)
    requires '\n' !in line && ParseSetting(line, key).Some? && OneLine(value)
    ensures '\n' !in Rewritten(ParseSetting(line, key).value, value)
  {
    SettingHasPrefixOnly(line, key);
    var s := ParseSetting(line, key).value;
    assert forall k :: 0 <= k < |s.prefix| ==> s.prefix[k] == line[k];
  }

  lemma AppendedHasNoFeed()
    ensures '\n' !in Appended(PLUGINS, "true") && '\n' !in Appended(AUTO_UPDATE, "false")
  {
  }

  lemma SetKeyKeepsFeeds(lines: seq<string>, key: string, value: string)
    requires OneLineEach(lines) && SetKey(lines, key, value).Success? && Bare(key) && GoodValue(value)
    requires '\n' !in Appended(key, value)
    ensures OneLineEach(SetKey(lines, key, value).value)
  {
    hide ParseSetting, Rewritten, SetKey, Appended;
    SetKeyEffect(lines, key, value);
    var r := SetKey(lines, key, value).value;
    forall k | 0 <= k < |r| ensures '\n' !in r[k] {
      if k < |lines| && ParseSetting(lines[k], key).Some? { RewrittenKeepsFeeds(lines[k], key, value); }
    }
  }

  lemma SetKeysKeepsFeeds(lines: seq<string>)
    requires OneLineEach(lines) && SetKeys(lines).Success?
    ensures OneLineEach(SetKeys(lines).value)
  {
    hide SetKey, Appended, OneLineEach;
    KeysAreBare();
    AppendedHasNoFeed();
    SetKeyKeepsFeeds(lines, PLUGINS, "true");
    SetKeyKeepsFeeds(SetKey(lines, PLUGINS, "true").value, AUTO_UPDATE, "false");
  }
}
