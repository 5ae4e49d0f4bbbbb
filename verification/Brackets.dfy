/** The concrete marker texts of the two prompt leases. */
module Brackets {
  import Decimal
  import Ordering
  import opened Markers

  const SOURCE_OPEN := '\U{E000}'
  const SOURCE_CLOSE := '\U{E001}'
  const FENCE_OPEN := '\U{E100}'
  const FENCE_CLOSE := '\U{E101}'

  predicate SafeChar(c: char) {
    'A' <= c <= 'Z' || 'a' <= c <= 'z' || '0' <= c <= '9' || c == '_' || c == '-'
  }

  ghost predicate SafeText(id: string) {
    forall i :: 0 <= i < |id| ==> SafeChar(id[i])
  }

  /** A random id with every other character dropped; trimming first makes no difference. */
  function SafeId(nonce: string): (r: string)
    ensures SafeText(r)
  {
    if nonce == "" then ""
    else (if SafeChar(nonce[0]) then [nonce[0]] else "") + SafeId(nonce[1..])
  }

  /** Letters, digits, "_" and "-" stay, each once and in order, and nothing else does. */
  lemma {:induction false} SafeIdKeeps(nonce: string) returns (from: seq<nat>)
    ensures Ordering.Selected(nonce,
      (c: char) => 'a' <= c <= 'z' || 'A' <= c <= 'Z' || '0' <= c <= '9' || c in ['-', '_'], SafeId(nonce), from)
  {
    from := [];
    if nonce != "" {
      var rest := SafeIdKeeps(nonce[1..]);
      from := Ordering.SelectedInFront(nonce,
        (c: char) => 'a' <= c <= 'z' || 'A' <= c <= 'Z' || '0' <= c <= '9' || c in ['-', '_'], SafeId(nonce[1..]), rest);
    }
  }

  function Enclose(open: char, body: string, close: char): string {
    [open] + body + [close]
  }

  /** `\uE000MNEMOSYNE-SOURCE-LEASE:<lease>:<order>:\uE001` */
  function Placeholder(lease: string, order: nat): string {
    Enclose(SOURCE_OPEN, "MNEMOSYNE-SOURCE-LEASE:" + (lease + ":") + (Decimal.Print(order) + ":"), SOURCE_CLOSE)
  }

  /** `\uE100MNEMOSYNE-HOST-TRANSFORM:<lease>:<order>:START:\uE101` */
  function StartMarker(lease: string, order: nat): string {
    Enclose(FENCE_OPEN, "MNEMOSYNE-HOST-TRANSFORM:" + (lease + ":") + (Decimal.Print(order) + ":START:"), FENCE_CLOSE)
  }

  /** `\uE100MNEMOSYNE-HOST-TRANSFORM:<lease>:<order>:END:\uE101` */
  function EndMarker(lease: string, order: nat): string {
    Enclose(FENCE_OPEN, "MNEMOSYNE-HOST-TRANSFORM:" + (lease + ":") + (Decimal.Print(order) + ":END:"), FENCE_CLOSE)
  }

  ghost predicate Plain(s: string) {
    forall i :: 0 <= i < |s| ==> s[i] < '\U{80}'
  }

  lemma EncloseBracketed(open: char, body: string, close: char)
    requires Plain(body) && '\U{80}' <= open && '\U{80}' <= close && open != close
    ensures Bracketed(Enclose(open, body, close), open, close)
  {
  }

  lemma PlaceholderBracketed(lease: string, order: nat)
    requires SafeText(lease)
    ensures Bracketed(Placeholder(lease, order), SOURCE_OPEN, SOURCE_CLOSE)
  {
    assert Plain("MNEMOSYNE-SOURCE-LEASE:");
    EncloseBracketed(SOURCE_OPEN, "MNEMOSYNE-SOURCE-LEASE:" + (lease + ":") + (Decimal.Print(order) + ":"), SOURCE_CLOSE);
  }

  lemma FenceBracketed(lease: string, order: nat)
    requires SafeText(lease)
    ensures Bracketed(StartMarker(lease, order), FENCE_OPEN, FENCE_CLOSE)
    ensures Bracketed(EndMarker(lease, order), FENCE_OPEN, FENCE_CLOSE)
  {
    assert Plain("MNEMOSYNE-HOST-TRANSFORM:") && Plain(":START:") && Plain(":END:");
    EncloseBracketed(FENCE_OPEN, "MNEMOSYNE-HOST-TRANSFORM:" + (lease + ":") + (Decimal.Print(order) + ":START:"), FENCE_CLOSE);
    EncloseBracketed(FENCE_OPEN, "MNEMOSYNE-HOST-TRANSFORM:" + (lease + ":") + (Decimal.Print(order) + ":END:"), FENCE_CLOSE);
  }

  lemma EncloseInjective(open: char, prefix: string, a: string, b: string, close: char)
    requires Enclose(open, prefix + a, close) == Enclose(open, prefix + b, close)
    ensures a == b
  {
    var x, y := Enclose(open, prefix + a, close), Enclose(open, prefix + b, close);
    assert a == x[1 + |prefix|..|x| - 1] && b == y[1 + |prefix|..|y| - 1];
  }

  /** A number printed before a colon can be read back, whatever follows. */
  lemma PrintThenColon(a: nat, b: nat, x: string, y: string)
    requires x != "" && x[0] == ':' && y != "" && y[0] == ':'
    requires Decimal.Print(a) + x == Decimal.Print(b) + y
    ensures a == b && x == y
  {
    var p, q := Decimal.Print(a), Decimal.Print(b);
    var t, u := p + x, q + y;
    assert forall i :: 0 <= i < |p| ==> t[i] == p[i] && t[i] != ':';
    assert forall i :: 0 <= i < |q| ==> u[i] == q[i] && u[i] != ':';
    assert t[|p|] == ':' && u[|q|] == ':';
    assert |p| == |q|;
    assert p == t[..|p|] && q == u[..|q|] && x == t[|p|..] && y == u[|q|..];
    Decimal.PrintInjective(a, b);
  }

  lemma PlaceholderInjective(lease: string, a: nat, b: nat)
    requires Placeholder(lease, a) == Placeholder(lease, b)
    ensures a == b
  {
    EncloseInjective(SOURCE_OPEN, "MNEMOSYNE-SOURCE-LEASE:" + (lease + ":"), Decimal.Print(a) + ":", Decimal.Print(b) + ":", SOURCE_CLOSE);
    PrintThenColon(a, b, ":", ":");
  }

  lemma FenceInjective(lease: string, a: nat, b: nat)
    ensures StartMarker(lease, a) == StartMarker(lease, b) ==> a == b
    ensures EndMarker(lease, a) == EndMarker(lease, b) ==> a == b
    ensures StartMarker(lease, a) != EndMarker(lease, b)
  {
    var prefix := "MNEMOSYNE-HOST-TRANSFORM:" + (lease + ":");
    if StartMarker(lease, a) == StartMarker(lease, b) {
      EncloseInjective(FENCE_OPEN, prefix, Decimal.Print(a) + ":START:", Decimal.Print(b) + ":START:", FENCE_CLOSE);
      PrintThenColon(a, b, ":START:", ":START:");
    }
    if EndMarker(lease, a) == EndMarker(lease, b) {
      EncloseInjective(FENCE_OPEN, prefix, Decimal.Print(a) + ":END:", Decimal.Print(b) + ":END:", FENCE_CLOSE);
      PrintThenColon(a, b, ":END:", ":END:");
    }
    var s, e := ":START:", ":END:";
    assert s[1] != e[1];
    if StartMarker(lease, a) == EndMarker(lease, b) {
      EncloseInjective(FENCE_OPEN, prefix, Decimal.Print(a) + s, Decimal.Print(b) + e, FENCE_CLOSE);
      PrintThenColon(a, b, s, e);
    }
  }
}
