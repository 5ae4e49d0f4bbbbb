/** Bytes, and the octal number fields of an archive header. */
module Octal {
  import opened MessageSpans
  import Ordering

  type Byte = x: int | 0 <= x < 256

  type Bytes = seq<Byte>

  const ZERO: Byte := 0x30

  predicate OctalDigit(b: Byte) {
    ZERO <= b < ZERO + 8
  }

  predicate WhiteSpace(b: Byte) {
    9 <= b <= 13 || b == 32
  }

  // ---- Printing ----

  /** `n` in `width` octal digits, as far as they reach. */
  function Digits(n: nat, width: nat): (r: Bytes)
    ensures |r| == width && forall k :: 0 <= k < |r| ==> OctalDigit(r[k])
  {
    if width == 0 then [] else Digits(n / 8, width - 1) + [ZERO + n % 8]
  }

  function Power8(k: nat): nat {
    if k == 0 then 1 else 8 * Power8(k - 1)
  }

  // ---- Parsing ----

  function Value(digits: Bytes): nat
    requires forall k :: 0 <= k < |digits| ==> OctalDigit(digits[k])
  {
    if digits == [] then 0
    else
      assert OctalDigit(digits[|digits| - 1]);
      8 * Value(digits[..|digits| - 1]) + (digits[|digits| - 1] - ZERO)
  }

  function WithoutNul(s: Bytes): (r: Bytes)
    ensures (forall k :: 0 <= k < |s| ==> s[k] != 0) ==> r == s
  {
    if s == [] then [] else (if s[0] == 0 then [] else [s[0]]) + WithoutNul(s[1..])
  }

  function TrimStart(s: Bytes): (r: Bytes)
    ensures (s == [] || !WhiteSpace(s[0])) ==> r == s
  {
    if s != [] && WhiteSpace(s[0]) then TrimStart(s[1..]) else s
  }

  function TrimEnd(s: Bytes): (r: Bytes)
    ensures (s == [] || !WhiteSpace(s[|s| - 1])) ==> r == s
  {
    if s != [] && WhiteSpace(s[|s| - 1]) then TrimEnd(s[..|s| - 1]) else s
  }

  predicate Ascii(s: Bytes) {
    forall k :: 0 <= k < |s| ==> s[k] < 128
  }

  predicate IsOctal(s: Bytes) {
    forall k :: 0 <= k < |s| ==> OctalDigit(s[k])
  }

  /** What is left of a field once terminators and padding are gone. */
  function Stripped(field: Bytes): Bytes {
    TrimStart(TrimEnd(WithoutNul(field)))
  }

  /** The number in a field; an empty one counts as zero. */
  function Parse(field: Bytes): Option<nat> {
    if IsOctal(Stripped(field)) then Some(Value(Stripped(field))) else None
  }

  // ---- What parses ----

  lemma {:induction false} NulsDropped(s: Bytes) returns (from: seq<nat>)
    ensures Ordering.Selected(s, (b: Byte) => b != 0, WithoutNul(s), from)
  {
    from := [];
    if s != [] {
      var rest := NulsDropped(s[1..]);
      from := Ordering.SelectedInFront(s, (b: Byte) => b != 0, WithoutNul(s[1..]), rest);
    }
  }

  /** Tabs, line breaks, form feeds and spaces. */
  ghost predicate Padding(s: Bytes) {
    forall k :: 0 <= k < |s| ==> s[k] in {0x09, 0x0A, 0x0B, 0x0C, 0x0D, 0x20}
  }

  /** Apart from its NULs, the field holds octal digits with padding around them. */
  ghost predicate Padded(field: Bytes, left: Bytes, digits: Bytes, right: Bytes) {
    && WithoutNul(field) == left + digits + right && Padding(left) && Padding(right)
    && forall k :: 0 <= k < |digits| ==> 0x30 <= digits[k] <= 0x37
  }

  lemma {:induction false} StartTrimmed(s: Bytes) returns (left: Bytes)
    ensures s == left + TrimStart(s) && Padding(left)
    ensures TrimStart(s) != [] ==> TrimStart(s)[0] !in {0x09, 0x0A, 0x0B, 0x0C, 0x0D, 0x20}
  {
    left := [];
    if s != [] && WhiteSpace(s[0]) {
      var rest := StartTrimmed(s[1..]);
      left := [s[0]] + rest;
    }
  }

  lemma {:induction false} EndTrimmed(s: Bytes) returns (right: Bytes)
    ensures s == TrimEnd(s) + right && Padding(right)
    ensures TrimEnd(s) != [] ==> TrimEnd(s)[|TrimEnd(s)| - 1] !in {0x09, 0x0A, 0x0B, 0x0C, 0x0D, 0x20}
  {
    right := [];
    if s != [] && WhiteSpace(s[|s| - 1]) {
      var rest := EndTrimmed(s[..|s| - 1]);
      right := rest + [s[|s| - 1]];
    }
  }

  lemma {:induction false} TrimmedOff(left: Bytes, digits: Bytes, right: Bytes)
    requires Padding(left) && Padding(right) && IsOctal(digits)
    ensures TrimStart(TrimEnd(left + digits + right)) == digits
    decreases |left| + |right|
  {
    var all := left + digits + right;
    if right != [] {
      assert all[..|all| - 1] == left + digits + right[..|right| - 1];
      TrimmedOff(left, digits, right[..|right| - 1]);
    } else if digits != [] {
      assert all == left + digits;
      StartOff(left, digits);
    } else if left != [] {
      assert all[..|all| - 1] == left[..|left| - 1] + digits + right;
      TrimmedOff(left[..|left| - 1], digits, right);
    }
  }

  lemma {:induction false} StartOff(left: Bytes, digits: Bytes)
    requires Padding(left) && IsOctal(digits)
    ensures TrimStart(left + digits) == digits
  {
    if left == [] {
      assert left + digits == digits;
    } else {
      assert (left + digits)[1..] == left[1..] + digits;
      StartOff(left[1..], digits);
    }
  }

  /** A field parses exactly when it holds padded digits, and its number is theirs. */
  lemma ParseIff(field: Bytes, n: nat)
    ensures Parse(field) == Some(n) <==> exists left, digits, right :: Padded(field, left, digits, right) && Value(digits) == n
  {
    var s := WithoutNul(field);
    if Parse(field) == Some(n) {
      var right := EndTrimmed(s);
      var left := StartTrimmed(TrimEnd(s));
      assert Padded(field, left, Stripped(field), right);
    }
    forall left, digits, right | Padded(field, left, digits, right) ensures Stripped(field) == digits {
      TrimmedOff(left, digits, right);
    }
  }

  // ---- Round trip ----

  lemma {:induction false} DigitsValue(n: nat, width: nat)
    requires n < Power8(width)
    ensures Value(Digits(n, width)) == n
  {
    if width > 0 {
      DigitsValue(n / 8, width - 1);
      assert Digits(n, width)[..width - 1] == Digits(n / 8, width - 1);
    }
  }

  ghost predicate Terminator(s: Bytes) {
    forall k :: 0 <= k < |s| ==> s[k] == 0 || s[k] == 32
  }

  lemma {:induction false} NulsGone(digits: Bytes, rest: Bytes)
    requires IsOctal(digits)
    ensures WithoutNul(digits + rest) == digits + WithoutNul(rest)
  {
    if digits == [] {
      assert digits + rest == rest;
    } else {
      NulsGone(digits[1..], rest);
      var s := digits + rest;
      assert s[1..] == digits[1..] + rest && s[0] == digits[0] && OctalDigit(digits[0]);
      assert WithoutNul(s) == [s[0]] + WithoutNul(s[1..]);
      hide WithoutNul;
      assert [digits[0]] + digits[1..] == digits;
    }
  }

  lemma {:induction false} OnlySpaces(s: Bytes)
    requires Terminator(s)
    ensures forall k :: 0 <= k < |WithoutNul(s)| ==> WithoutNul(s)[k] == 32
  {
    if s != [] { OnlySpaces(s[1..]); }
  }

  lemma {:induction false} SpacesTrimmed(digits: Bytes, spaces: Bytes)
    requires IsOctal(digits) && forall k :: 0 <= k < |spaces| ==> spaces[k] == 32
    ensures TrimEnd(digits + spaces) == digits
    decreases |spaces|
  {
    if spaces == [] {
      assert digits + spaces == digits;
    } else {
      var all := digits + spaces;
      assert all[|all| - 1] == spaces[|spaces| - 1];
      assert all[..|all| - 1] == digits + spaces[..|spaces| - 1];
      SpacesTrimmed(digits, spaces[..|spaces| - 1]);
    }
  }

  /** A number printed in a field, with any terminators behind it, is read back. */
  lemma ParsePrinted(n: nat, width: nat, terminator: Bytes)
    requires n < Power8(width) && Terminator(terminator)
    ensures Parse(Digits(n, width) + terminator) == Some(n)
  {
    var digits := Digits(n, width);
    NulsGone(digits, terminator);
    OnlySpaces(terminator);
    SpacesTrimmed(digits, WithoutNul(terminator));
    DigitsValue(n, width);
  }
}
