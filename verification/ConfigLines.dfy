/** Setting two keys among the lines of config.yaml (browser-folder-provisioning.js, parseTopLevelYamlSetting and the
    loop of rewriteServerPluginConfig). */
module ConfigLines {
  import opened MessageSpans
  import opened PromptEntries
  import opened TextPatterns

  const PLUGINS := "enableServerPlugins"
  const AUTO_UPDATE := "enableServerPluginsAutoUpdate"

  /** The characters not matched by `.`. */
  predicate EndsLine(c: char) {
    c in {'\n', '\r', '\U{2028}', '\U{2029}'}
  }

  predicate OneLine(s: string) {
    forall k :: 0 <= k < |s| ==> !EndsLine(s[k])
  }

  // ---- One line ----

  function SkipSpace(s: string): (n: nat)
    ensures n <= |s| && (forall k :: 0 <= k < n ==> IsSpace(s[k])) && (n < |s| ==> !IsSpace(s[n]))
  {
    if s != "" && IsSpace(s[0]) then 1 + SkipSpace(s[1..]) else 0
  }

  /** Where a comment starts, outside quotes; -1 if nowhere. */
  function CommentAt(tail: string, quote: Option<char>): (r: int)
    ensures -1 <= r < |tail| && (r >= 0 ==> tail[r] == '#')
  {
    if tail == "" then -1
    else if quote == None && tail[0] == '#' then 0
    else
      var next :=
        if quote.Some? then (if tail[0] == quote.value then None else quote)
        else if tail[0] == '"' || tail[0] == '\'' then Some(tail[0])
        else None;
      var r := CommentAt(tail[1..], next);
      if r == -1 then -1 else r + 1
  }

  method FindComment(tail: string) returns (at: int)
    ensures at == CommentAt(tail, None)
  {
    var quote: Option<char> := None;
    at := -1;
    var index := 0;
    while index < |tail|
      invariant 0 <= index <= |tail| && at == -1
      invariant CommentAt(tail, None) == (var r := CommentAt(tail[index..], quote); if r == -1 then -1 else index + r)
    {
      var character := tail[index];
      assert tail[index..][1..] == tail[index + 1..];
      if quote.Some? {
        if character == quote.value { quote := None; }
      } else if character == '"' || character == '\'' {
        quote := Some(character);
      } else if character == '#' {
        return index;
      }
      index := index + 1;
    }
  }

  /** A line that sets a key: everything up to the colon, and the comment behind the value. */
  datatype Setting = Setting(prefix: string, comment: string)

  function Quote(line: string): string {
    if line != "" && (line[0] == '"' || line[0] == '\'') then [line[0]] else ""
  }

  function Head(line: string, key: string): string {
    Quote(line) + key + Quote(line)
  }

  /** The line sets this key at the top level. */
  function ParseSetting(line: string, key: string): (r: Option<Setting>)
    ensures r.Some? ==> r.value.prefix <= line && (r.value.comment == "" || r.value.comment[0] == '#')
  {
    var head := Head(line, key);
    if !(head <= line) then None
    else
      var colon := |head| + SkipSpace(line[|head|..]);
      if colon == |line| || line[colon] != ':' then None
      else
        var tail := line[colon + 1..];
        if !OneLine(tail) then None
        else
          var at := CommentAt(tail, None);
          Some(Setting(line[..colon + 1], if at == -1 then "" else tail[at..]))
  }

  function Rewritten(s: Setting, value: string): string {
    s.prefix + (" " + value + (if s.comment == "" then "" else " " + s.comment))
  }

  /** Text without quotes and hash signs. */
  ghost predicate NoQuotes(s: string) {
    forall k :: 0 <= k < |s| ==> s[k] != '#' && s[k] != '"' && s[k] != '\''
  }

  lemma {:induction false} CommentBehind(plain: string, rest: string)
    requires NoQuotes(plain)
    ensures CommentAt(plain + rest, None) == (var r := CommentAt(rest, None); if r == -1 then -1 else |plain| + r)
  {
    if plain == "" {
      assert plain + rest == rest;
    } else {
      CommentBehind(plain[1..], rest);
      assert (plain + rest)[1..] == plain[1..] + rest;
    }
  }

  lemma NewTail(value: string, comment: string)
    requires NoQuotes(value) && (comment == "" || comment[0] == '#')
    ensures var tail := " " + value + (if comment == "" then "" else " " + comment);
      var at := CommentAt(tail, None);
      (if at == -1 then "" else tail[at..]) == comment
  {
    if comment == "" {
      CommentBehind(" " + value, "");
      assert " " + value + "" == " " + value;
    } else {
      CommentBehind(" " + value + " ", comment);
      assert " " + value + (" " + comment) == " " + value + " " + comment;
    }
  }

  /** The prefix of a setting, whatever follows it. */
  ghost predicate IsPrefix(prefix: string, key: string) {
    var head := Head(prefix, key);
    && head <= prefix && |prefix| == |head| + SkipSpace(prefix[|head|..]) + 1 && prefix[|prefix| - 1] == ':'
  }

  lemma {:induction false} SkipSpaceBefore(s: string, n: nat)
    requires n <= |s| && SkipSpace(s) < n
    ensures SkipSpace(s[..n]) == SkipSpace(s)
  {
    if IsSpace(s[0]) {
      SkipSpaceBefore(s[1..], n - 1);
      assert s[..n][1..] == s[1..][..n - 1];
    }
  }

  lemma {:induction false} SkipSpaceExtended(s: string, t: string)
    requires SkipSpace(s) < |s|
    ensures SkipSpace(s + t) == SkipSpace(s)
  {
    if IsSpace(s[0]) {
      SkipSpaceExtended(s[1..], t);
      assert (s + t)[1..] == s[1..] + t;
    }
  }

  lemma SettingHasPrefix(line: string, key: string)
    requires ParseSetting(line, key).Some?
    ensures IsPrefix(ParseSetting(line, key).value.prefix, key)
    ensures OneLine(ParseSetting(line, key).value.comment)
  {
    hide SkipSpace, CommentAt;
    var head := Head(line, key);
    var prefix := ParseSetting(line, key).value.prefix;
    assert |prefix| > |head|;
    assert Quote(prefix) == Quote(line);
    var rest := line[|head|..];
    SkipSpaceBefore(rest, |prefix| - |head|);
    assert prefix[|head|..] == rest[..|prefix| - |head|];
    assert head <= prefix;
  }

  lemma PrefixIsSetting(prefix: string, key: string, tail: string)
    requires IsPrefix(prefix, key) && OneLine(tail)
    ensures var at := CommentAt(tail, None);
      ParseSetting(prefix + tail, key) == Some(Setting(prefix, if at == -1 then "" else tail[at..]))
  {
    hide SkipSpace, CommentAt;
    var line, head := prefix + tail, Head(prefix, key);
    assert Quote(line) == Quote(prefix);
    assert line[|head|..] == prefix[|head|..] + tail;
    SkipSpaceExtended(prefix[|head|..], tail);
    assert head <= line;
    assert line[..|prefix|] == prefix && line[|prefix|..] == tail;
  }

  /** The line is the key, bare or in quotes of one kind, then blanks, a colon and one line of anything. */
  ghost predicate SetsTo(line: string, key: string, quote: string, blanks: string, tail: string) {
    && (quote == "" || quote == "\"" || quote == "'") && Blank(blanks)
    && (forall k :: 0 <= k < |tail| ==> tail[k] !in ['\r', '\n', '\U{2028}', '\U{2029}'])
    && line == quote + key + quote + blanks + ":" + tail
  }

  lemma {:induction false} BlanksSkipped(blanks: string, rest: string)
    requires Blank(blanks) && rest != "" && rest[0] == ':'
    ensures SkipSpace(blanks + rest) == |blanks|
  {
    if blanks == "" {
      assert blanks + rest == rest;
    } else {
      BlanksSkipped(blanks[1..], rest);
      assert (blanks + rest)[1..] == blanks[1..] + rest;
    }
  }

  lemma SetsParses(line: string, key: string, quote: string, blanks: string, tail: string)
    requires Bare(key) && SetsTo(line, key, quote, blanks, tail)
    ensures var at := CommentAt(tail, None);
      ParseSetting(line, key) == Some(Setting(quote + key + quote + blanks + ":", if at == -1 then "" else tail[at..]))
  {
    hide CommentAt;
    var prefix, head := quote + key + quote + blanks + ":", quote + key + quote;
    assert prefix[0] == if quote == "" then key[0] else quote[0];
    assert Quote(prefix) == quote;
    assert prefix[|head|..] == blanks + ":";
    BlanksSkipped(blanks, ":");
    assert head <= prefix;
    PrefixIsSetting(prefix, key, tail);
  }

  /** Exactly such lines set the key; what is kept of them is all up to the colon, and the comment. */
  lemma ParseSettingIff(line: string, key: string)
    requires Bare(key)
    ensures ParseSetting(line, key).Some? <==> exists quote, blanks, tail :: SetsTo(line, key, quote, blanks, tail)
    ensures forall quote, blanks, tail :: SetsTo(line, key, quote, blanks, tail) ==>
      var at := CommentAt(tail, None);
      ParseSetting(line, key) == Some(Setting(quote + key + quote + blanks + ":", if at == -1 then "" else tail[at..]))
  {
    hide SetsTo, CommentAt, ParseSetting;
    if ParseSetting(line, key).Some? { ParsedSets(line, key); }
    forall quote, blanks, tail | SetsTo(line, key, quote, blanks, tail)
      ensures var at := CommentAt(tail, None);
        ParseSetting(line, key) == Some(Setting(quote + key + quote + blanks + ":", if at == -1 then "" else tail[at..]))
    {
      SetsParses(line, key, quote, blanks, tail);
    }
  }

  lemma Cut(line: string, head: string, n: nat)
    requires head <= line && |head| + n < |line| && line[|head| + n] == ':'
    ensures line == head + line[|head|..|head| + n] + ":" + line[|head| + n + 1..]
  {
  }

  lemma ParsedSets(line: string, key: string)
    requires ParseSetting(line, key).Some?
    ensures exists quote, blanks, tail :: SetsTo(line, key, quote, blanks, tail)
  {
    hide CommentAt, SkipSpace, IsSpace;
    var quote, head := Quote(line), Head(line, key);
    assert quote == "" || quote == "\"" || quote == "'";
    var n := SkipSpace(line[|head|..]);
    hide Quote;
    var blanks, tail := line[|head|..|head| + n], line[|head| + n + 1..];
    forall k | 0 <= k < |blanks| ensures IsSpace(blanks[k]) { assert blanks[k] == line[|head|..][k]; }
    Cut(line, head, n);
    assert head == quote + key + quote;
    assert SetsTo(line, key, quote, blanks, tail);
  }

  /** A rewritten line is a setting of the same key, and rewriting it again changes nothing. */
  lemma RewrittenAgain(line: string, key: string, value: string)
    requires ParseSetting(line, key).Some? && NoQuotes(value) && OneLine(value)
    ensures ParseSetting(Rewritten(ParseSetting(line, key).value, value), key) == ParseSetting(line, key)
    ensures OneLine(Rewritten(ParseSetting(line, key).value, value)[|ParseSetting(line, key).value.prefix|..])
  {
    hide CommentAt, IsPrefix, ParseSetting;
    var s := ParseSetting(line, key).value;
    SettingHasPrefix(line, key);
    SettingComment(line, key);
    var tail := " " + value + (if s.comment == "" then "" else " " + s.comment);
    assert (s.prefix + tail)[|s.prefix|..] == tail;
    NewTail(value, s.comment);
    PrefixIsSetting(s.prefix, key, tail);
  }

  lemma SettingComment(line: string, key: string)
    requires ParseSetting(line, key).Some?
    ensures var c := ParseSetting(line, key).value.comment; c == "" || c[0] == '#'
  {
  }

  /** The line put in when the key is missing. */
  function Appended(key: string, value: string): string {
    key + ": " + value
  }

  ghost predicate Bare(key: string) {
    key != "" && key[0] != '"' && key[0] != '\''
  }

  lemma BarePrefix(key: string)
    requires Bare(key)
    ensures IsPrefix(key + ":", key)
  {
    var prefix := key + ":";
    assert prefix[0] == key[0];
    assert Quote(prefix) == "" && Head(prefix, key) == key;
    assert prefix[|key|..] == ":";
  }

  lemma AppendedIsSetting(key: string, value: string)
    requires Bare(key) && NoQuotes(value) && OneLine(value)
    ensures ParseSetting(Appended(key, value), key) == Some(Setting(key + ":", ""))
    ensures Rewritten(Setting(key + ":", ""), value) == Appended(key, value)
  {
    hide CommentAt, IsPrefix, ParseSetting;
    var prefix := key + ":";
    BarePrefix(key);
    NewTail(value, "");
    assert " " + value + "" == " " + value;
    PrefixIsSetting(prefix, key, " " + value);
    assert prefix + (" " + value) == Appended(key, value);
  }

  /** A character that ends neither a key nor the space behind it. */
  ghost predicate GoesOn(c: char) {
    !IsSpace(c) && c != ':' && c != '"' && c != '\''
  }

  lemma BareKeyGoesOn(line: string, key: string, rest: string)
    requires Quote(line) == "" && key + rest <= line && rest != "" && GoesOn(rest[0])
    ensures ParseSetting(line, key).None?
  {
    hide CommentAt;
    assert line[|key|] == (key + rest)[|key|] == rest[0];
    var after := line[|key|..];
    assert after[0] == rest[0];
    assert SkipSpace(after) == 0;
  }

  lemma QuotedKeyGoesOn(line: string, key: string, rest: string)
    requires Quote(line) != "" && Head(line, key + rest) <= line && rest != "" && GoesOn(rest[0])
    ensures !(Head(line, key) <= line)
  {
    var n := 1 + |key|;
    var a, b := Head(line, key), Head(line, key + rest);
    assert b[n] == rest[0] && line[n] == b[n];
    assert a[n] == line[0];
  }

  /** A line does not set both a key and a longer one that starts with it. */
  lemma KeysApart(line: string, key: string, rest: string)
    requires rest != "" && GoesOn(rest[0])
    ensures ParseSetting(line, key).None? || ParseSetting(line, key + rest).None?
  {
    hide CommentAt, SkipSpace, GoesOn;
    if Head(line, key + rest) <= line {
      if Quote(line) == "" {
        HeadOfBare(line, key + rest);
        BareKeyGoesOn(line, key, rest);
      } else {
        QuotedKeyGoesOn(line, key, rest);
      }
    }
  }

  lemma HeadOfBare(line: string, key: string)
    requires Quote(line) == ""
    ensures Head(line, key) == key
  {
  }

  /** No line sets both keys, although one is a prefix of the other. */
  lemma OneKeyPerLine(line: string)
    ensures ParseSetting(line, PLUGINS).None? || ParseSetting(line, AUTO_UPDATE).None?
  {
    hide ParseSetting;
    assert PLUGINS + "AutoUpdate" == AUTO_UPDATE;
    KeysApart(line, PLUGINS, "AutoUpdate");
  }
}
