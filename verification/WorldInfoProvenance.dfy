/** Sealing activated world-info entries into provenance components, and the validator of such components
    (host-provenance-adapter.js). */
module WorldInfoProvenance {
  import opened MessageSpans
  import opened PromptEntries
  import opened Ordering
  import opened TextPatterns
  import opened WorldInfo

  datatype ProvenanceError = SelectorInvalid | SelectorDuplicate | RouteMismatch | RouteAmbiguous | SealBroken

  datatype Selector = Selector(
    world: string, uid: string, sourceId: string, unitId: string, includeParts: bool,
    route: RouteId, position: int, depth: Option<nat>, role: Option<int>,
    assemblyIndex: int, rawHash: string, preparedHash: string)

  /** The SHA-256 of a component's canonical JSON, taken to be injective. */
  datatype Seal = Seal(id: RouteId, selectors: seq<Selector>)

  datatype Component = Component(id: RouteId, selectors: seq<Selector>, seal: Seal)

  function SourceId(world: string): string {
    "worldbook:" + world
  }

  function SelectorOf(e: WorldEntry, index: int): Selector
    requires RouteOf(e).Some?
  {
    var r := RouteOf(e).value;
    Selector(e.world, e.uid, SourceId(e.world), e.uid, true, r.id, r.position, r.depth, r.role, index, e.rawHash, e.preparedHash)
  }

  // ---- Validating ----

  /** What a selector at `index` of a component must look like. */
  predicate ValidSelector(s: Selector, id: RouteId, index: int) {
    var route := NormalizedRoute(s.position, s.depth, if s.role.Some? then s.role.value else 0);
    && ValidIdentity(s.world, s.uid) && ValidHash(s.rawHash) && ValidHash(s.preparedHash)
    && route.Some? && s.route == route.value.id == id && s.depth == route.value.depth && s.role == route.value.role
    && s.position == route.value.position && s.sourceId == SourceId(s.world) && s.unitId == s.uid
    && s.includeParts && s.assemblyIndex == index
  }

  ghost predicate SameSource(a: Selector, b: Selector) {
    a.world == b.world && a.uid == b.uid
  }

  ghost predicate DistinctSources(selectors: seq<Selector>) {
    forall j, k :: 0 <= j < k < |selectors| ==> !SameSource(selectors[j], selectors[k])
  }

  ghost predicate ValidComponent(c: Component) {
    && !c.id.OtherRoute? && c.selectors != []
    && (forall k :: 0 <= k < |c.selectors| ==> ValidSelector(c.selectors[k], c.id, k))
    && DistinctSources(c.selectors)
    && c.seal == Seal(c.id, c.selectors)
  }

  ghost predicate SeenSources(selectors: seq<Selector>, seen: set<(string, string)>) {
    && DistinctSources(selectors)
    && (forall k :: 0 <= k < |selectors| ==> (selectors[k].world, selectors[k].uid) in seen)
    && (forall x :: x in seen ==> exists k :: 0 <= k < |selectors| && (selectors[k].world, selectors[k].uid) == x)
  }

  lemma OneMoreSource(selectors: seq<Selector>, seen: set<(string, string)>, s: Selector)
    requires SeenSources(selectors, seen)
    ensures (s.world, s.uid) !in seen ==> SeenSources(selectors + [s], seen + {(s.world, s.uid)})
    ensures (s.world, s.uid) in seen ==> !DistinctSources(selectors + [s])
  {
    var more := selectors + [s];
    if (s.world, s.uid) in seen {
      var k :| 0 <= k < |selectors| && (selectors[k].world, selectors[k].uid) == (s.world, s.uid);
      assert SameSource(more[k], more[|selectors|]);
    } else {
      forall x | x in seen + {(s.world, s.uid)} ensures exists k :: 0 <= k < |more| && (more[k].world, more[k].uid) == x {
        if x in seen {
          var k :| 0 <= k < |selectors| && (selectors[k].world, selectors[k].uid) == x;
          assert more[k] == selectors[k];
        } else {
          assert more[|selectors|] == s;
        }
      }
    }
  }

  lemma PrefixDistinct(a: seq<Selector>, b: seq<Selector>)
    requires DistinctSources(a + b)
    ensures DistinctSources(a)
  {
    assert forall k :: 0 <= k < |a| ==> (a + b)[k] == a[k];
  }

  /** Named and hashed. */
  ghost predicate Identified(s: Selector) {
    ValidIdentity(s.world, s.uid) && ValidHash(s.rawHash) && ValidHash(s.preparedHash)
  }

  /** On the route its position, depth and role lead to, which is the component's. */
  ghost predicate Routed(s: Selector, id: RouteId) {
    var route := NormalizedRoute(s.position, s.depth, if s.role.Some? then s.role.value else 0);
    route.Some? && s.route == route.value.id && id == route.value.id && s.depth == route.value.depth && s.role == route.value.role
  }

  /** The first check that fails decides between the two errors. */
  method CheckSelector(s: Selector, id: RouteId, index: int) returns (error: Option<ProvenanceError>)
    ensures error.None? <==> ValidSelector(s, id, index)
    ensures error.Some? ==> error == Some(if Identified(s) && !Routed(s, id) then RouteMismatch else SelectorInvalid)
  {
    if !ValidIdentity(s.world, s.uid) || !ValidHash(s.rawHash) || !ValidHash(s.preparedHash) { return Some(SelectorInvalid); }
    var normalized := NormalizedRoute(s.position, s.depth, if s.role.Some? then s.role.value else 0);
    if normalized.None? { return Some(RouteMismatch); }
    var route := normalized.value;
    if s.route != route.id || id != route.id || s.depth != route.depth || s.role != route.role { return Some(RouteMismatch); }
    if s.position != route.position || s.sourceId != SourceId(s.world) || s.unitId != s.uid || !s.includeParts || s.assemblyIndex != index {
      return Some(SelectorInvalid);
    }
    error := None;
  }

  method ValidateComponent(c: Component) returns (r: Result<Component, ProvenanceError>)
    ensures r.Success? <==> ValidComponent(c)
    ensures r.Success? ==> r.value == c
    ensures r == Failure(RouteMismatch) ==> exists s :: s in c.selectors && Identified(s) && !Routed(s, c.id)
    ensures r == Failure(SelectorDuplicate) ==> !DistinctSources(c.selectors)
    ensures r == Failure(SelectorInvalid) ==>
      || c.id.OtherRoute? || c.selectors == []
      || exists k :: 0 <= k < |c.selectors| && !ValidSelector(c.selectors[k], c.id, k) && !(Identified(c.selectors[k]) && !Routed(c.selectors[k], c.id))
    ensures r == Failure(SealBroken) <==>
      c.seal != Seal(c.id, c.selectors) && ValidComponent(c.(seal := Seal(c.id, c.selectors)))
    ensures r.Failure? ==> r.error in {SelectorInvalid, RouteMismatch, SelectorDuplicate, SealBroken}
  {
    hide ValidSelector, SeenSources, DistinctSources, Identified, Routed;
    if c.id.OtherRoute? || c.selectors == [] { return Failure(SelectorInvalid); }
    var seen: set<(string, string)> := {};
    NothingSeen();
    assert c.selectors[..0] == [];
    for index := 0 to |c.selectors|
      invariant forall k :: 0 <= k < index ==> ValidSelector(c.selectors[k], c.id, k)
      invariant SeenSources(c.selectors[..index], seen)
    {
      var s := c.selectors[index];
      var refused := CheckSelector(s, c.id, index);
      if refused.Some? {
        assert s in c.selectors;
        return Failure(refused.value);
      }
      OneMoreSource(c.selectors[..index], seen, s);
      assert c.selectors[..index + 1] == c.selectors[..index] + [s];
      if (s.world, s.uid) in seen {
        assert c.selectors == c.selectors[..index + 1] + c.selectors[index + 1..];
        if DistinctSources(c.selectors) { PrefixDistinct(c.selectors[..index + 1], c.selectors[index + 1..]); }
        return Failure(SelectorDuplicate);
      }
      seen := seen + {(s.world, s.uid)};
    }
    assert c.selectors[..|c.selectors|] == c.selectors;
    SeenDistinct(c.selectors, seen);
    if c.seal != Seal(c.id, c.selectors) { return Failure(SealBroken); }
    r := Success(c);
  }

  lemma NothingSeen()
    ensures SeenSources([], {})
  {
  }

  lemma SeenDistinct(selectors: seq<Selector>, seen: set<(string, string)>)
    requires SeenSources(selectors, seen)
    ensures DistinctSources(selectors)
  {
  }

  /** All selectors of a list of components, in order. */
  function AllSelectors(components: seq<Component>): seq<Selector> {
    if components == [] then [] else AllSelectors(components[..|components| - 1]) + components[|components| - 1].selectors
  }

  ghost predicate DistinctRoutes(components: seq<Component>) {
    forall j, k :: 0 <= j < k < |components| ==> components[j].id != components[k].id
  }

  ghost predicate Normal(components: seq<Component>) {
    && (forall k :: 0 <= k < |components| ==> ValidComponent(components[k]))
    && DistinctRoutes(components) && DistinctSources(AllSelectors(components))
  }

  /** Adds the sources of one component, unless one of them was seen before. */
  method AddSources(before: seq<Selector>, selectors: seq<Selector>, seen: set<(string, string)>)
    returns (distinct: bool, more: set<(string, string)>)
    requires SeenSources(before, seen)
    ensures distinct <==> DistinctSources(before + selectors)
    ensures distinct ==> SeenSources(before + selectors, more)
  {
    more := seen;
    assert before + selectors[..0] == before;
    for k := 0 to |selectors|
      invariant SeenSources(before + selectors[..k], more)
    {
      var s := selectors[k];
      OneMoreSource(before + selectors[..k], more, s);
      assert before + selectors[..k + 1] == before + selectors[..k] + [s];
      if (s.world, s.uid) in more {
        assert before + selectors == before + selectors[..k + 1] + selectors[k + 1..];
        if DistinctSources(before + selectors) { PrefixDistinct(before + selectors[..k + 1], selectors[k + 1..]); }
        return false, more;
      }
      more := more + {(s.world, s.uid)};
    }
    assert before + selectors[..|selectors|] == before + selectors;
    distinct := true;
  }

  /** Things with different names, recorded by name, and nothing else. */
  ghost predicate Named<K, V>(names: seq<K>, things: seq<V>, record: map<K, V>)
    requires |names| == |things|
  {
    && (forall j :: 0 <= j < |names| ==> names[j] in record && record[names[j]] == things[j])
    && (forall i, j :: 0 <= i < j < |names| ==> names[i] != names[j])
    && (forall x :: x in record ==> x in names)
    && |record| == |names|
  }

  lemma MoreNamed<K, V>(names: seq<K>, things: seq<V>, record: map<K, V>, name: K, thing: V)
    requires |names| == |things| && Named(names, things, record)
    ensures name !in record ==> Named(names + [name], things + [thing], record[name := thing])
    ensures name in record ==> name in names
  {
    if name !in record {
      var more := record[name := thing];
      assert more.Keys == record.Keys + {name};
      assert |more| == |more.Keys| && |record| == |record.Keys|;
    }
  }

  ghost function Names(components: seq<Component>): (r: seq<RouteId>)
    ensures |r| == |components| && forall k :: 0 <= k < |r| ==> r[k] == components[k].id
  {
    seq(|components|, k requires 0 <= k < |components| => components[k].id)
  }

  /** The components are valid, and recorded under different routes. */
  ghost predicate Recorded(components: seq<Component>, byRoute: map<RouteId, Component>) {
    && (forall j :: 0 <= j < |components| ==> ValidComponent(components[j]))
    && Named(Names(components), components, byRoute)
  }

  lemma MoreRecorded(components: seq<Component>, c: Component, byRoute: map<RouteId, Component>)
    requires Recorded(components, byRoute) && ValidComponent(c)
    ensures c.id !in byRoute ==> Recorded(components + [c], byRoute[c.id := c])
    ensures c.id in byRoute ==> !DistinctRoutes(components + [c])
  {
    hide ValidComponent, Named;
    MoreNamed(Names(components), components, byRoute, c.id, c);
    assert Names(components + [c]) == Names(components) + [c.id];
    if c.id in byRoute {
      var j :| 0 <= j < |components| && Names(components)[j] == c.id;
      assert (components + [c])[j].id == (components + [c])[|components|].id;
    }
  }

  method Normalize(components: seq<Component>) returns (r: Result<map<RouteId, Component>, ProvenanceError>)
    ensures r.Success? <==> Normal(components)
    ensures r.Success? ==> Recorded(components, r.value)
    ensures r == Failure(RouteAmbiguous) ==> !DistinctRoutes(components)
    ensures r == Failure(SelectorDuplicate) ==>
      !DistinctSources(AllSelectors(components)) || exists c :: c in components && !DistinctSources(c.selectors)
    ensures r == Failure(SealBroken) ==> exists c :: c in components && c.seal != Seal(c.id, c.selectors)
  {
    hide ValidComponent, Recorded, DistinctSources, SeenSources, DistinctRoutes;
    var byRoute: map<RouteId, Component> := map[];
    var seen: set<(string, string)> := {};
    NothingRecorded(components);
    for k := 0 to |components|
      invariant Recorded(components[..k], byRoute) && SeenSources(AllSelectors(components[..k]), seen)
    {
      var c := components[k];
      assert components[..k + 1] == components[..k] + [c] && components[..k + 1][..k] == components[..k];
      var valid := ValidateComponent(c);
      if valid.Failure? { return Failure(valid.error); }
      MoreRecorded(components[..k], c, byRoute);
      if c.id in byRoute {
        if DistinctRoutes(components) { RoutesPrefix(components, k + 1); }
        return Failure(RouteAmbiguous);
      }
      var distinct, more := AddSources(AllSelectors(components[..k]), c.selectors, seen);
      if !distinct {
        if DistinctSources(AllSelectors(components)) { SelectorsPrefix(components, k + 1); }
        return Failure(SelectorDuplicate);
      }
      seen := more;
      byRoute := byRoute[c.id := c];
    }
    assert components[..|components|] == components;
    RecordedNormal(components, byRoute, seen);
    r := Success(byRoute);
  }

  lemma NothingRecorded(components: seq<Component>)
    ensures Recorded(components[..0], map[])
    ensures SeenSources(AllSelectors(components[..0]), {})
  {
  }

  lemma RoutesPrefix(components: seq<Component>, k: nat)
    requires k <= |components| && DistinctRoutes(components)
    ensures DistinctRoutes(components[..k])
  {
  }

  lemma RecordedNormal(components: seq<Component>, byRoute: map<RouteId, Component>, seen: set<(string, string)>)
    requires Recorded(components, byRoute) && SeenSources(AllSelectors(components), seen)
    ensures Normal(components)
  {
    hide ValidComponent, DistinctSources, AllSelectors;
    SeenDistinct(AllSelectors(components), seen);
    var names := Names(components);
    forall j, k | 0 <= j < k < |components| ensures components[j].id != components[k].id {
      assert names[j] != names[k];
    }
  }

  lemma {:induction false} SelectorsPrefix(components: seq<Component>, k: nat)
    requires k <= |components| && DistinctSources(AllSelectors(components))
    ensures DistinctSources(AllSelectors(components[..k]))
    decreases |components|
  {
    if k < |components| {
      var init := components[..|components| - 1];
      PrefixDistinct(AllSelectors(init), components[|components| - 1].selectors);
      SelectorsPrefix(init, k);
      assert init[..k] == components[..k];
    } else {
      assert components[..k] == components;
    }
  }
}
