/** Relative installation paths (browser-folder-provisioning.js, pathSegments). */
module Paths {

  function Normalized(s: string): (r: string)
    ensures |r| == |s| && forall k :: 0 <= k < |s| ==> r[k] == if s[k] == '\\' then '/' else s[k]
  {
    seq(|s|, k requires 0 <= k < |s| => if s[k] == '\\' then '/' else s[k])
  }

  /** The parts between separators; one more than there are separators. */
  function Split(s: string, separator: char): (r: seq<string>)
    ensures r != []
    ensures forall k :: 0 <= k < |r| ==> separator !in r[k]
  {
    if s == "" then [""]
    else
      var rest := Split(s[1..], separator);
      if s[0] == separator then [""] + rest else [[s[0]] + rest[0]] + rest[1..]
  }

  function Joined(parts: seq<string>, separator: string): string {
    if parts == [] then ""
    else if |parts| == 1 then parts[0]
    else parts[0] + separator + Joined(parts[1..], separator)
  }

  lemma {:induction false} JoinedSplit(s: string, separator: char)
    ensures Joined(Split(s, separator), [separator]) == s
  {
    if s != "" {
      JoinedSplit(s[1..], separator);
      var rest, all := Split(s[1..], separator), Split(s, separator);
      if s[0] == separator {
        assert all[1..] == rest;
        assert "" + [separator] + Joined(rest, [separator]) == s;
      } else if |rest| == 1 {
        assert s == [s[0]] + s[1..];
      } else {
        assert all[1..] == rest[1..];
        assert [s[0]] + rest[0] + [separator] + Joined(rest[1..], [separator])
            == [s[0]] + (rest[0] + [separator] + Joined(rest[1..], [separator]));
      }
    }
  }

  predicate HasDrive(s: string) {
    |s| >= 3 && ('A' <= s[0] <= 'Z' || 'a' <= s[0] <= 'z') && s[1] == ':' && s[2] == '/'
  }

  predicate Safe(path: string) {
    var s := Normalized(path);
    && s != "" && s[0] != '/' && !HasDrive(s)
    && forall k :: 0 <= k < |Split(s, '/')| ==> Split(s, '/')[k] !in {"", ".", ".."}
  }

  // ---- Which names are safe ----

  ghost predicate Separated(part: string) {
    '/' !in part && '\\' !in part
  }

  lemma {:induction false} SplitAtSeparator(a: string, b: string, separator: char)
    requires separator !in a
    ensures Split(a + [separator] + b, separator) == [a] + Split(b, separator)
  {
    var s := a + [separator] + b;
    if a == "" {
      assert s[1..] == b;
    } else {
      SplitAtSeparator(a[1..], b, separator);
      assert s[1..] == a[1..] + [separator] + b && s[0] == a[0];
      assert [a[0]] + a[1..] == a;
    }
  }

  lemma {:induction false} SplitWhole(a: string, separator: char)
    requires separator !in a
    ensures Split(a, separator) == [a]
  {
    if a != "" {
      SplitWhole(a[1..], separator);
      assert [a[0]] + a[1..] == a;
    }
  }

  lemma {:induction false} SplitJoined(parts: seq<string>, separator: char)
    requires parts != [] && forall k :: 0 <= k < |parts| ==> separator !in parts[k]
    ensures Split(Joined(parts, [separator]), separator) == parts
  {
    hide Split;
    if |parts| == 1 {
      SplitWhole(parts[0], separator);
    } else {
      SplitJoined(parts[1..], separator);
      SplitAtSeparator(parts[0], Joined(parts[1..], [separator]), separator);
    }
  }

  lemma {:induction false} NothingNormalized(parts: seq<string>)
    requires forall k :: 0 <= k < |parts| ==> '\\' !in parts[k]
    ensures '\\' !in Joined(parts, "/")
  {
    if |parts| > 1 { NothingNormalized(parts[1..]); }
  }

  /** A first part like "C:". */
  ghost predicate IsDrive(part: string) {
    |part| == 2 && ('A' <= part[0] <= 'Z' || 'a' <= part[0] <= 'z') && part[1] == ':'
  }

  lemma JoinedFront(parts: seq<string>)
    requires parts != [] && Separated(parts[0])
    ensures parts[0] <= Joined(parts, "/") && (Joined(parts, "/") == "" <==> |parts| == 1 && parts[0] == "")
    ensures |parts| > 1 ==> |Joined(parts, "/")| > |parts[0]| && Joined(parts, "/")[|parts[0]|] == '/'
    ensures |parts| == 1 ==> Joined(parts, "/") == parts[0]
  {
  }

  /** A name is safe exactly when its parts are neither empty nor "." nor "..", and it does not start with a drive. */
  lemma SafeIff(parts: seq<string>)
    requires parts != [] && forall k :: 0 <= k < |parts| ==> Separated(parts[k])
    ensures Safe(Joined(parts, "/")) <==>
      && (forall k :: 0 <= k < |parts| ==> parts[k] !in {"", ".", ".."})
      && !(|parts| > 1 && IsDrive(parts[0]))
  {
    hide Split;
    var s := Joined(parts, "/");
    SplitJoined(parts, '/');
    NothingNormalized(parts);
    assert Normalized(s) == s;
    JoinedFront(parts);
    hide Joined;
  }
}
