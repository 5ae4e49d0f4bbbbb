/** The entries of a prompt trace before any mapping: where each message comes from, which grants apply to it, and
    when authorizations and removals correspond (runtime.js, buildPromptTrace). */
module TraceGrants {
  import opened Ordering
  import opened MessageSpans
  import opened PromptEntries
  import opened TraceEntries
  import opened TraceSources
  import FenceLease
  import SourceIsolation
  import TraceWholeMessages

  /** Where an internal message comes from, after route overrides, labelling and component resolution. */
  datatype Origin = Origin(identifier: Identifier, sourceLabel: string, component: Option<string>)

  /** A grant to remove the source with this identifier and label, for this very message. */
  datatype Authorization = Authorization(identifier: Identifier, sourceLabel: string, promptDigest: Digest, id: string)

  // ---- Entries and grants ----

  function ForSource(authorizations: seq<Authorization>, o: Origin): (r: seq<Authorization>)
    ensures forall a :: a in r <==> a in authorizations && a.identifier == o.identifier && a.sourceLabel == o.sourceLabel
  {
    if authorizations == [] then []
    else
      var a := authorizations[0];
      (if a.identifier == o.identifier && a.sourceLabel == o.sourceLabel then [a] else []) + ForSource(authorizations[1..], o)
  }

  function MakeEntry(index: nat, m: Message, o: Origin, authorizations: seq<Authorization>): (e: Entry)
    ensures Describes(e, index, m) && e.mapping.None? && !e.ambiguous
    ensures e.policy == RemoveAbsorbed ==>
      && e.grant.Some? && e.grant.value.promptDigest == Digest(m) && e.sourceLabel in FenceLease.AUTHOR_LABELS
      && Authorization(o.identifier, o.sourceLabel, Digest(m), e.grant.value.id) in authorizations
    ensures e.policy == RemoveAbsorbed ==> e.grantIssue.None?
  {
    var own := ForSource(authorizations, o);
    assert forall a :: a in own ==> a in authorizations;
    assert |own| == 1 ==> own[0] in own;
    var granted := |own| == 1 && own[0].promptDigest == Digest(m);
    Entry(index, o.identifier, m.role, m.name, Digest(m), o.sourceLabel,
          if granted && o.sourceLabel in FenceLease.AUTHOR_LABELS then RemoveAbsorbed else Retain,
          if granted then Some(Grant(own[0].id, own[0].promptDigest)) else None,
          if |own| > 1 then Some("source_removal_grant_ambiguous")
          else if |own| == 1 && !granted then Some("source_removal_prompt_hash_mismatch")
          else None,
          o.component, None, false)
  }

  ghost predicate IsFor(a: Authorization, o: Origin) {
    a.identifier == o.identifier && a.sourceLabel == o.sourceLabel
  }

  /** Authorization `k` is the only one for this origin. */
  ghost predicate OnlyFor(authorizations: seq<Authorization>, o: Origin, k: int) {
    && 0 <= k < |authorizations| && IsFor(authorizations[k], o)
    && forall j :: 0 <= j < |authorizations| && j != k ==> !IsFor(authorizations[j], o)
  }

  ghost predicate SeveralFor(authorizations: seq<Authorization>, o: Origin) {
    exists j, k :: 0 <= j < k < |authorizations| && IsFor(authorizations[j], o) && IsFor(authorizations[k], o)
  }

  lemma {:induction false} ForSourceSelected(authorizations: seq<Authorization>, o: Origin) returns (from: seq<nat>)
    ensures Selected(authorizations, (a: Authorization) => IsFor(a, o), ForSource(authorizations, o), from)
  {
    from := [];
    if authorizations != [] {
      var rest := ForSourceSelected(authorizations[1..], o);
      from := SelectedInFront(authorizations, (a: Authorization) => IsFor(a, o), ForSource(authorizations[1..], o), rest);
    }
  }

  /** The filtered list says whether there is none, one or several. */
  lemma ForSourceCount(authorizations: seq<Authorization>, o: Origin)
    ensures |ForSource(authorizations, o)| == 1 <==> exists k :: OnlyFor(authorizations, o, k)
    ensures forall k :: OnlyFor(authorizations, o, k) ==> ForSource(authorizations, o) == [authorizations[k]]
    ensures |ForSource(authorizations, o)| > 1 <==> SeveralFor(authorizations, o)
  {
    var from := ForSourceSelected(authorizations, o);
    SelectedOne(authorizations, (a: Authorization) => IsFor(a, o), ForSource(authorizations, o), from);
    var keep := (a: Authorization) => IsFor(a, o);
    forall k ensures OnlyFor(authorizations, o, k) <==> OnlyOne(authorizations, keep, k) {}
    if Several(authorizations, keep) {
      var j, k :| 0 <= j < k < |authorizations| && keep(authorizations[j]) && keep(authorizations[k]);
      assert IsFor(authorizations[j], o) && IsFor(authorizations[k], o);
    }
    if SeveralFor(authorizations, o) {
      var j, k :| 0 <= j < k < |authorizations| && IsFor(authorizations[j], o) && IsFor(authorizations[k], o);
      assert keep(authorizations[j]) && keep(authorizations[k]);
    }
  }

  /** Authorization `k` is the one for this origin, and for this very message. */
  ghost predicate GrantedAs(authorizations: seq<Authorization>, o: Origin, m: Message, k: int) {
    OnlyFor(authorizations, o, k) && authorizations[k].promptDigest == Digest(m)
  }

  /** What an entry says of its grants, in terms of the authorizations alone. */
  lemma GrantIff(index: nat, m: Message, o: Origin, authorizations: seq<Authorization>)
    ensures var e := MakeEntry(index, m, o, authorizations);
      && e.order == index && e.identifier == o.identifier && e.sourceLabel == o.sourceLabel && e.component == o.component
      && (e.policy == RemoveAbsorbed <==>
            && o.sourceLabel in {"raw_worldbook", "raw_character_card", "raw_scenario", "raw_persona"}
            && exists k :: GrantedAs(authorizations, o, m, k))
      && (e.grant.Some? <==> exists k :: GrantedAs(authorizations, o, m, k))
      && (forall k :: GrantedAs(authorizations, o, m, k) ==> e.grant == Some(Grant(authorizations[k].id, Digest(m))))
      && (e.grantIssue == Some("source_removal_grant_ambiguous") <==> SeveralFor(authorizations, o))
      && (e.grantIssue == Some("source_removal_prompt_hash_mismatch") <==>
            exists k :: OnlyFor(authorizations, o, k) && authorizations[k].promptDigest != Digest(m))
      && (e.grantIssue.Some? ==> e.grantIssue.value in {"source_removal_grant_ambiguous", "source_removal_prompt_hash_mismatch"})
  {
    ForSourceCount(authorizations, o);
    var own := ForSource(authorizations, o);
    if |own| == 1 {
      var k :| OnlyFor(authorizations, o, k);
      assert own[0] == authorizations[k];
      assert own[0].promptDigest == Digest(m) <==> GrantedAs(authorizations, o, m, k);
      assert forall j :: OnlyFor(authorizations, o, j) ==> j == k;
    }
    hide ForSource, OnlyFor, SeveralFor;
    assert |"source_removal_grant_ambiguous"| != |"source_removal_prompt_hash_mismatch"|;
  }

  ghost predicate Made(internal: seq<Message>, origins: seq<Origin>, authorizations: seq<Authorization>, entries: seq<Entry>)
    requires |internal| == |origins|
  {
    && |entries| == |internal|
    && forall i :: 0 <= i < |entries| ==> entries[i] == MakeEntry(i, internal[i], origins[i], authorizations)
  }

  method MakeEntries(internal: seq<Message>, origins: seq<Origin>, authorizations: seq<Authorization>) returns (entries: seq<Entry>)
    requires |internal| == |origins|
    ensures Made(internal, origins, authorizations, entries)
  {
    entries := [];
    for index := 0 to |internal|
      invariant |entries| == index
      invariant forall i :: 0 <= i < index ==> entries[i] == MakeEntry(i, internal[i], origins[i], authorizations)
    {
      entries := entries + [MakeEntry(index, internal[index], origins[index], authorizations)];
    }
  }

  function GrantedBy(removals: seq<Entry>, id: string): (r: seq<Entry>)
    ensures forall e :: e in r <==> e in removals && e.grant.Some? && e.grant.value.id == id
  {
    if removals == [] then []
    else
      (if removals[0].grant.Some? && removals[0].grant.value.id == id then [removals[0]] else []) + GrantedBy(removals[1..], id)
  }

  predicate IdsDiffer(authorizations: seq<Authorization>) {
    forall j, k :: 0 <= j < k < |authorizations| ==> authorizations[j].id != authorizations[k].id
  }

  lemma SameId(authorizations: seq<Authorization>, j: nat, k: nat)
    requires IdsDiffer(authorizations) && j < |authorizations| && k < |authorizations|
    requires authorizations[j].id == authorizations[k].id
    ensures j == k
  {
  }

  /** Authorizations and removal entries correspond one to one. */
  predicate OneToOne(authorizations: seq<Authorization>, entries: seq<Entry>) {
    && |SourceIsolation.Authorized(entries)| == |authorizations|
    && IdsDiffer(authorizations)
    && (forall k :: 0 <= k < |authorizations| ==> |GrantedBy(SourceIsolation.Authorized(entries), authorizations[k].id)| == 1)
  }

  // ---- When authorizations and removals correspond ----

  ghost predicate HasGrant(e: Entry, id: string) {
    e.grant.Some? && e.grant.value.id == id
  }

  lemma {:induction false} GrantedBySelected(removals: seq<Entry>, id: string) returns (from: seq<nat>)
    ensures Selected(removals, (e: Entry) => HasGrant(e, id), GrantedBy(removals, id), from)
  {
    from := [];
    if removals != [] {
      var rest := GrantedBySelected(removals[1..], id);
      from := SelectedInFront(removals, (e: Entry) => HasGrant(e, id), GrantedBy(removals[1..], id), rest);
    }
  }

  /** Message `i` is an author source that authorization `k`, and no other, is for; and it is for this very message. */
  ghost predicate RemovedUnder(internal: seq<Message>, origins: seq<Origin>, authorizations: seq<Authorization>, i: int, k: int)
    requires |internal| == |origins|
  {
    && 0 <= i < |internal|
    && origins[i].sourceLabel in {"raw_worldbook", "raw_character_card", "raw_scenario", "raw_persona"}
    && GrantedAs(authorizations, origins[i], internal[i], k)
  }

  /** Authorization `k` removes exactly one message. */
  ghost predicate RemovesOne(internal: seq<Message>, origins: seq<Origin>, authorizations: seq<Authorization>, k: int)
    requires |internal| == |origins|
  {
    && (exists i :: RemovedUnder(internal, origins, authorizations, i, k))
    && forall i, j :: RemovedUnder(internal, origins, authorizations, i, k) && RemovedUnder(internal, origins, authorizations, j, k) ==> i == j
  }

  /** Every authorization removes exactly one message, and no two share an id. */
  ghost predicate Evidence(internal: seq<Message>, origins: seq<Origin>, authorizations: seq<Authorization>)
    requires |internal| == |origins|
  {
    && (forall j, k :: 0 <= j < |authorizations| && 0 <= k < |authorizations| && j != k ==> authorizations[j].id != authorizations[k].id)
    && (forall k :: 0 <= k < |authorizations| ==> RemovesOne(internal, origins, authorizations, k))
  }

  /** Which entries are removed, and under which grant, after any passes. */
  lemma RemovedEntry(
      internal: seq<Message>, origins: seq<Origin>, authorizations: seq<Authorization>, made: seq<Entry>, entries: seq<Entry>, i: nat)
    requires |internal| == |origins| && Made(internal, origins, authorizations, made) && AllSameSource(made, entries)
    requires i < |entries|
    ensures entries[i].policy == RemoveAbsorbed <==> exists k :: RemovedUnder(internal, origins, authorizations, i, k)
    ensures forall k :: RemovedUnder(internal, origins, authorizations, i, k) ==> HasGrant(entries[i], authorizations[k].id)
  {
    hide MakeEntry, GrantedAs;
    GrantIff(i, internal[i], origins[i], authorizations);
    assert SameSource(made[i], entries[i]);
    if k :| GrantedAs(authorizations, origins[i], internal[i], k) && RemovedUnder(internal, origins, authorizations, i, k) {}
    forall k | GrantedAs(authorizations, origins[i], internal[i], k)
      ensures RemovedUnder(internal, origins, authorizations, i, k) <==> origins[i].sourceLabel in FenceLease.AUTHOR_LABELS {}
  }

  /** A removed entry of this grant among the removed ones. */
  lemma GrantedPlace(
      internal: seq<Message>, origins: seq<Origin>, authorizations: seq<Authorization>, made: seq<Entry>, entries: seq<Entry>,
      from: seq<nat>, p: nat) returns (k: nat)
    requires |internal| == |origins| && Made(internal, origins, authorizations, made) && AllSameSource(made, entries)
    requires Selected(entries, (e: Entry) => e.policy == RemoveAbsorbed, SourceIsolation.Authorized(entries), from)
    requires p < |from|
    ensures from[p] < |entries| && k < |authorizations| && RemovedUnder(internal, origins, authorizations, from[p], k)
    ensures HasGrant(SourceIsolation.Authorized(entries)[p], authorizations[k].id)
    ensures forall id :: HasGrant(SourceIsolation.Authorized(entries)[p], id) ==> id == authorizations[k].id
  {
    var e := SourceIsolation.Authorized(entries)[p];
    assert e == entries[from[p]] && e.policy == RemoveAbsorbed;
    RemovedEntry(internal, origins, authorizations, made, entries, from[p]);
    var j :| RemovedUnder(internal, origins, authorizations, from[p], j);
    k := j;
  }

  lemma RemovedPlace(
      internal: seq<Message>, origins: seq<Origin>, authorizations: seq<Authorization>, made: seq<Entry>, entries: seq<Entry>,
      from: seq<nat>, i: nat, k: nat) returns (p: nat)
    requires |internal| == |origins| && Made(internal, origins, authorizations, made) && AllSameSource(made, entries)
    requires Selected(entries, (e: Entry) => e.policy == RemoveAbsorbed, SourceIsolation.Authorized(entries), from)
    requires RemovedUnder(internal, origins, authorizations, i, k)
    ensures p < |from| && from[p] == i && HasGrant(SourceIsolation.Authorized(entries)[p], authorizations[k].id)
  {
    RemovedEntry(internal, origins, authorizations, made, entries, i);
    var q :| 0 <= q < |from| && from[q] == i;
    p := q;
  }

  /** A grant id occurs once among the removed entries exactly when its authorization removes one message. */
  lemma GrantedOnce(
      internal: seq<Message>, origins: seq<Origin>, authorizations: seq<Authorization>, made: seq<Entry>, entries: seq<Entry>, k: nat)
    requires |internal| == |origins| && Made(internal, origins, authorizations, made) && AllSameSource(made, entries)
    requires IdsDiffer(authorizations) && k < |authorizations|
    ensures |GrantedBy(SourceIsolation.Authorized(entries), authorizations[k].id)| == 1 <==>
      RemovesOne(internal, origins, authorizations, k)
  {
    hide Made, AllSameSource, RemovedUnder, HasGrant;
    var removed, id := SourceIsolation.Authorized(entries), authorizations[k].id;
    var keep := (e: Entry) => HasGrant(e, id);
    var from := SourceIsolation.AuthorizedInOrder(entries);
    var places := GrantedBySelected(removed, id);
    SelectedOne(removed, keep, GrantedBy(removed, id), places);
    forall p | 0 <= p < |removed| && HasGrant(removed[p], id) ensures RemovedUnder(internal, origins, authorizations, from[p], k) {
      var j := GrantedPlace(internal, origins, authorizations, made, entries, from, p);
      SameId(authorizations, j, k);
    }
    if p :| OnlyOne(removed, keep, p) {
      assert RemovedUnder(internal, origins, authorizations, from[p], k);
      forall i | RemovedUnder(internal, origins, authorizations, i, k) ensures i == from[p] {
        RemovedInside(internal, origins, authorizations, i, k);
        var q := RemovedPlace(internal, origins, authorizations, made, entries, from, i, k);
        assert keep(removed[q]);
      }
    }
    if i :| RemovedUnder(internal, origins, authorizations, i, k) &&
            forall j :: RemovedUnder(internal, origins, authorizations, j, k) ==> j == i {
      RemovedInside(internal, origins, authorizations, i, k);
      var p := RemovedPlace(internal, origins, authorizations, made, entries, from, i, k);
      forall q | 0 <= q < |removed| && keep(removed[q]) ensures q == p {
        SamePlace(from, q, p);
      }
      assert OnlyOne(removed, keep, p);
    }
  }

  lemma RemovedInside(internal: seq<Message>, origins: seq<Origin>, authorizations: seq<Authorization>, i: int, k: int)
    requires |internal| == |origins| && RemovedUnder(internal, origins, authorizations, i, k)
    ensures 0 <= i < |internal| && 0 <= k < |authorizations|
  {
  }

  /** Authorization `k` is behind the removed entry that stands at place `i`. */
  ghost predicate IsBehind(
      internal: seq<Message>, origins: seq<Origin>, authorizations: seq<Authorization>, removed: Entry, i: nat, k: nat)
    requires |internal| == |origins|
  {
    && k < |authorizations| && RemovedUnder(internal, origins, authorizations, i, k) && HasGrant(removed, authorizations[k].id)
  }

  /** The authorization behind each removed entry. */
  ghost predicate Behind(
      internal: seq<Message>, origins: seq<Origin>, authorizations: seq<Authorization>, removed: seq<Entry>, from: seq<nat>, ks: seq<nat>)
    requires |internal| == |origins|
  {
    && |ks| == |removed| == |from|
    && forall p :: 0 <= p < |ks| ==> IsBehind(internal, origins, authorizations, removed[p], from[p], ks[p])
  }

  lemma FindBehind(
      internal: seq<Message>, origins: seq<Origin>, authorizations: seq<Authorization>, made: seq<Entry>, entries: seq<Entry>, from: seq<nat>)
    returns (ks: seq<nat>)
    requires |internal| == |origins| && Made(internal, origins, authorizations, made) && AllSameSource(made, entries)
    requires Selected(entries, (e: Entry) => e.policy == RemoveAbsorbed, SourceIsolation.Authorized(entries), from)
    ensures Behind(internal, origins, authorizations, SourceIsolation.Authorized(entries), from, ks)
  {
    var removed := SourceIsolation.Authorized(entries);
    assert |from| == |removed|;
    forall p | 0 <= p < |removed| ensures exists k: nat :: IsBehind(internal, origins, authorizations, removed[p], from[p], k) {
      var k := GrantedPlace(internal, origins, authorizations, made, entries, from, p);
      assert IsBehind(internal, origins, authorizations, removed[p], from[p], k);
    }
    hide Made, AllSameSource, IsBehind, Selected;
    ks := seq(|removed|, p requires 0 <= p < |removed| =>
      var k: nat :| IsBehind(internal, origins, authorizations, removed[p], from[p], k); k);
  }

  /** As many removals as authorizations. */
  lemma CountsAgree(
      internal: seq<Message>, origins: seq<Origin>, authorizations: seq<Authorization>, made: seq<Entry>, entries: seq<Entry>)
    requires |internal| == |origins| && Made(internal, origins, authorizations, made) && AllSameSource(made, entries)
    requires Evidence(internal, origins, authorizations)
    ensures |SourceIsolation.Authorized(entries)| == |authorizations|
  {
    var removed := SourceIsolation.Authorized(entries);
    var from := SourceIsolation.AuthorizedInOrder(entries);
    var ks := FindBehind(internal, origins, authorizations, made, entries, from);
    hide Made, AllSameSource, RemovedUnder;
    assert forall p :: 0 <= p < |ks| ==> IsBehind(internal, origins, authorizations, removed[p], from[p], ks[p]);
    forall p, q | 0 <= p < q < |ks| ensures ks[p] != ks[q] {
      assert from[p] < from[q];
      assert RemovesOne(internal, origins, authorizations, ks[p]);
    }
    forall k: nat | k < |authorizations| ensures k in ks {
      assert RemovesOne(internal, origins, authorizations, k);
      var i :| RemovedUnder(internal, origins, authorizations, i, k);
      RemovedInside(internal, origins, authorizations, i, k);
      var p := RemovedPlace(internal, origins, authorizations, made, entries, from, i, k);
      SameId(authorizations, ks[p], k);
    }
    EachOnce(ks, |authorizations|);
  }

  /** Authorizations and removals correspond one to one exactly when every authorization removes one message. */
  lemma OneToOneIff(
      internal: seq<Message>, origins: seq<Origin>, authorizations: seq<Authorization>, made: seq<Entry>, entries: seq<Entry>)
    requires |internal| == |origins| && Made(internal, origins, authorizations, made) && AllSameSource(made, entries)
    ensures OneToOne(authorizations, entries) <==> Evidence(internal, origins, authorizations)
  {
    hide Made, AllSameSource, RemovesOne, GrantedBy, SourceIsolation.Authorized;
    if IdsDiffer(authorizations) {
      forall k: nat | k < |authorizations|
        ensures |GrantedBy(SourceIsolation.Authorized(entries), authorizations[k].id)| == 1 <==>
          RemovesOne(internal, origins, authorizations, k)
      {
        GrantedOnce(internal, origins, authorizations, made, entries, k);
      }
      if Evidence(internal, origins, authorizations) { CountsAgree(internal, origins, authorizations, made, entries); }
    }
  }

  lemma MadeDescribe(internal: seq<Message>, origins: seq<Origin>, authorizations: seq<Authorization>, entries: seq<Entry>)
    requires |internal| == |origins| && Made(internal, origins, authorizations, entries)
    ensures AllDescribe(entries, internal) && TraceWholeMessages.Unmapped(entries)
  {
  }
}
