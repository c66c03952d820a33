// References to servers across a binding (internal/certificate/binding.go).
module ServerRefs {
  import opened Outcomes
  import opened SourceEdits
  import opened ServerBinding

  /** A server block; `plain` says that it is used once, in no ambiguous place, and has no arguments. */
  datatype Server = Server(path: string, start: nat, directives: seq<Directive>, plain: bool)

  datatype Ref = Ref(path: string, start: nat, names: seq<string>, listeners: seq<string>, fingerprint: string)

  /** A persisted reference is found again by its path and fingerprint. */
  datatype Identity = Identity(path: string, fingerprint: string)

  const MAX_SERVERS := 100

  function IdentityOf(r: Ref): Identity {
    Identity(r.path, r.fingerprint)
  }

  function MakeRef(path: string, start: nat, names: seq<string>, listeners: seq<string>): Ref {
    Ref(path, start, names, listeners, Fingerprint(path, names, listeners))
  }

  /** The reference that is derived from the source. */
  function RefOf(s: Server): Ref {
    MakeRef(s.path, s.start, SortedUnique(RawNames(s.directives)), SortedUnique(RawListeners(s.directives)))
  }

  predicate ValidRef(r: Ref) {
    && r.path != "" && r.path[0] != '/' && '\\' !in r.path && |r.names| <= 100 && |r.listeners| <= 100
    && SortedUnique(r.names) == r.names && SortedUnique(r.listeners) == r.listeners
    && r.fingerprint == Fingerprint(r.path, r.names, r.listeners)
  }

  /** The checks on a reference that a caller hands in. */
  method CheckRef(r: Ref) returns (ok: bool)
    ensures ok <==> ValidRef(r)
  {
    hide SortedUnique, Fingerprint;
    if r.path == "" || r.path[0] == '/' || '\\' in r.path || |r.names| > 100 || |r.listeners| > 100 {
      return false;
    }
    var names := SortedUnique(r.names);
    var listeners := SortedUnique(r.listeners);
    return names == r.names && listeners == r.listeners && Fingerprint(r.path, r.names, r.listeners) == r.fingerprint;
  }

  // ----- finding the servers again

  predicate Names(servers: seq<Server>, id: Identity, i: nat)
    requires i < |servers|
  {
    IdentityOf(RefOf(servers[i])) == id
  }

  /** The only server of this identity, which can be edited. */
  predicate IsTarget(servers: seq<Server>, id: Identity, t: nat) {
    && t < |servers| && Names(servers, id, t) && servers[t].plain
    && forall i | 0 <= i < |servers| && Names(servers, id, i) :: i == t
  }

  predicate Distinct(refs: seq<Ref>) {
    forall j, k | 0 <= j < k < |refs| :: IdentityOf(refs[j]) != IdentityOf(refs[k])
  }

  predicate Resolves(servers: seq<Server>, refs: seq<Ref>, targets: seq<nat>) {
    && 0 < |refs| <= MAX_SERVERS && |targets| == |refs| && Distinct(refs)
    && forall k | 0 <= k < |refs| :: ValidRef(refs[k]) && IsTarget(servers, IdentityOf(refs[k]), targets[k])
  }

  /** The only match of one reference. */
  method FindServer(servers: seq<Server>, id: Identity) returns (t: Option<nat>)
    ensures t.Some? ==> IsTarget(servers, id, t.value)
    ensures t.None? ==> forall i :: !IsTarget(servers, id, i)
  {
    hide RefOf;
    var matches: seq<nat> := [];
    for i := 0 to |servers|
      invariant forall k | 0 <= k < |matches| :: matches[k] < i && Names(servers, id, matches[k])
      invariant forall k | 0 <= k < i && Names(servers, id, k) :: k in matches
      invariant forall j, k | 0 <= j < k < |matches| :: matches[j] < matches[k]
    {
      if IdentityOf(RefOf(servers[i])) == id {
        matches := matches + [i];
      }
    }
    if |matches| != 1 {
      if |matches| > 1 { assert matches[0] < matches[1]; }
      return None;
    }
    if !servers[matches[0]].plain {
      return None;
    }
    return Some(matches[0]);
  }

  method ResolveServerRefs(servers: seq<Server>, refs: seq<Ref>) returns (r: Option<seq<nat>>)
    ensures r.Some? ==> Resolves(servers, refs, r.value)
    ensures r.None? ==> forall targets :: !Resolves(servers, refs, targets)
  {
    hide RefOf, ValidRef, IsTarget;
    if |refs| == 0 || |refs| > 100 {
      return None;
    }
    var resolved: seq<nat>, seen: set<Identity> := [], {};
    for k := 0 to |refs|
      invariant |resolved| == k && Distinct(refs[..k])
      invariant forall id :: id in seen <==> exists j | 0 <= j < k :: IdentityOf(refs[j]) == id
      invariant forall j | 0 <= j < k :: ValidRef(refs[j]) && IsTarget(servers, IdentityOf(refs[j]), resolved[j])
    {
      var id := IdentityOf(refs[k]);
      var valid := CheckRef(refs[k]);
      if !valid {
        return None;
      }
      if id in seen {
        return None;
      }
      seen := seen + {id};
      var found := FindServer(servers, id);
      if found.None? {
        return None;
      }
      resolved := resolved + [found.value];
    }
    assert refs[..|refs|] == refs;
    return Some(resolved);
  }

  // ----- what is published

  /** The prediction compares with ssl in lower case and moves the start by the edits. */
  function Predicted(s: Server, isTarget: bool, edits: seq<Edit>): Option<Ref> {
    var start := s.start + Shift(s.path, edits, s.start);
    var listeners := if isTarget then ListenersAfter(s.directives, PredictedPlan(s.directives))
      else RawListeners(s.directives);
    if start < 0 || !Forward(s.path, edits, s.start) then None
      else Some(MakeRef(s.path, start, SortedUnique(RawNames(s.directives)), SortedUnique(listeners)))
  }

  /** What the edits make of one source text: its edits in order. */
  datatype Source = Source(text: string, made: seq<Edit>)

  /** Every server starts inside its text, where no edit reaches over its first byte. */
  predicate Edited(servers: seq<Server>, sources: map<string, Source>, edits: seq<Edit>) {
    forall i | 0 <= i < |servers| :: servers[i].path in sources
      && FirstByteStays(servers[i].path, sources[servers[i].path], servers[i].start, edits)
  }

  predicate FirstByteStays(path: string, source: Source, start: nat, edits: seq<Edit>) {
    && Disjoint(path, source.made, 0, |source.text|) && multiset(source.made) == multiset(Of(path, edits))
    && start < |source.text| && Clear(source.made, start)
    && forall e | e in source.made :: e.from != start || e.to == start
  }

  /** The project after the edits: a server starts where its first byte is found in the edited text. */
  function Published(servers: seq<Server>, sources: map<string, Source>, targets: seq<nat>, edits: seq<Edit>,
                     fullchain: string, key: string): (r: seq<Server>)
    requires Edited(servers, sources, edits)
    ensures |r| == |servers|
  {
    seq(|servers|, i requires 0 <= i < |servers| => PublishedServer(servers[i], sources[servers[i].path], i in targets,
                                                    edits, fullchain, key))
  }

  function PublishedServer(s: Server, source: Source, isTarget: bool, edits: seq<Edit>, fullchain: string,
                           key: string): Server
    requires FirstByteStays(s.path, source, s.start, edits)
  {
    Server(s.path, Landing(s.path, source.text, source.made, s.start),
           if isTarget then Bound(s.directives, fullchain, key) else s.directives, s.plain)
  }

  /** Folding alone finds no ssl in the server, or what the prediction then changes makes no difference. */
  predicate Exact(s: Server) {
    NoFoldingAlone(s.directives) || ChangeIsInvisible(s.directives)
  }

  /** What is predicted of a server is what is derived from its published source, exactly in that case. */
  lemma PredictionIsDerived(s: Server, source: Source, isTarget: bool, edits: seq<Edit>, fullchain: string, key: string)
    requires FirstByteStays(s.path, source, s.start, edits)
    ensures var after := PublishedServer(s, source, isTarget, edits, fullchain, key);
      && (Predicted(s, isTarget, edits) == Some(RefOf(after))
         <==> Forward(s.path, edits, s.start) && (isTarget ==> Exact(s)))
      && after.start < |Apply(s.path, source.text, source.made, 0)|
      && Apply(s.path, source.text, source.made, 0)[after.start] == source.text[s.start]
  {
    StartLands(s, source, edits);
    if isTarget {
      BoundSummary(s.directives, fullchain, key);
      PredictionIsExact(s.directives);
    }
    hide SortedUnique, RawNames, RawListeners, ListenersAfter, PredictedPlan, PlanFor, Bound, Exact, Landing,
      Fingerprint, Shift, Forward, FirstByteStays, Apply;
  }

  lemma StartLands(s: Server, source: Source, edits: seq<Edit>)
    requires FirstByteStays(s.path, source, s.start, edits)
    ensures var p := Landing(s.path, source.text, source.made, s.start);
      p == s.start + Shift(s.path, edits, s.start) && p < |Apply(s.path, source.text, source.made, 0)|
      && Apply(s.path, source.text, source.made, 0)[p] == source.text[s.start]
  {
    LandsAsPredicted(s.path, source.text, source.made, edits, s.start);
  }

  /** Every prediction is valid, and no other server gets the identity that a target gets. */
  predicate Publishable(servers: seq<Server>, targets: seq<nat>, edits: seq<Edit>) {
    && (forall i | 0 <= i < |servers| ::
       Predicted(servers[i], i in targets, edits).Some? && ValidRef(Predicted(servers[i], i in targets, edits).value))
    && forall t, i | t in targets && 0 <= t < |servers| && 0 <= i < |servers| && i != t ::
         IdentityOf(Predicted(servers[i], i in targets, edits).value)
           != IdentityOf(Predicted(servers[t], t in targets, edits).value)
  }

  /** Whenever the references can be published they are found again in the published source, at the same servers. */
  lemma PublishedRefsResolve(servers: seq<Server>, sources: map<string, Source>, refs: seq<Ref>, targets: seq<nat>,
                             edits: seq<Edit>, fullchain: string, key: string, published: seq<Ref>)
    requires Resolves(servers, refs, targets) && Publishable(servers, targets, edits) && Edited(servers, sources, edits)
    requires forall t | t in targets && t < |servers| :: Exact(servers[t])
    requires |published| == |targets|
    requires forall k | 0 <= k < |targets| ::
        targets[k] < |servers| && published[k] == Predicted(servers[targets[k]], true, edits).value
    ensures Resolves(Published(servers, sources, targets, edits, fullchain, key), published, targets)
    ensures forall k | 0 <= k < |targets| ::
        published[k] == RefOf(Published(servers, sources, targets, edits, fullchain, key)[targets[k]])
  {
    hide Exact, ValidRef, FirstByteStays;
    var after := Published(servers, sources, targets, edits, fullchain, key);
    forall i | 0 <= i < |servers| ensures RefOf(after[i]) == Predicted(servers[i], i in targets, edits).value {
      var s := servers[i];
      assert Predicted(s, i in targets, edits).Some?;
      PredictionIsDerived(s, sources[s.path], i in targets, edits, fullchain, key);
    }
    hide Predicted, Published;
    forall k | 0 <= k < |targets| ensures IsTarget(after, IdentityOf(published[k]), targets[k])
        && ValidRef(published[k]) {
      var t := targets[k];
      assert t in targets;
      assert IsTarget(servers, IdentityOf(refs[k]), t);
      assert after[t].plain == servers[t].plain;
    }
    forall j, k | 0 <= j < k < |published| ensures IdentityOf(published[j]) != IdentityOf(published[k]) {
      assert IsTarget(servers, IdentityOf(refs[j]), targets[j]) && IsTarget(servers, IdentityOf(refs[k]), targets[k]);
      assert targets[j] in targets && targets[k] in targets;
    }
  }

  /** How many references have an identity. */
  function Count(refs: seq<Ref>, id: Identity): nat {
    if refs == [] then 0 else Count(refs[..|refs| - 1], id) + if IdentityOf(refs[|refs| - 1]) == id then 1 else 0
  }

  lemma {:induction false} NoneCounted(refs: seq<Ref>, id: Identity)
    ensures Count(refs, id) == 0 <==> forall i | 0 <= i < |refs| :: IdentityOf(refs[i]) != id
    decreases |refs|
  {
    if refs != [] { NoneCounted(refs[..|refs| - 1], id); }
  }

  /** A reference is counted once exactly when no other one has its identity. */
  lemma {:induction false} OneCounted(refs: seq<Ref>, t: nat)
    requires t < |refs|
    ensures Count(refs, IdentityOf(refs[t])) == 1
        <==> forall i | 0 <= i < |refs| && i != t :: IdentityOf(refs[i]) != IdentityOf(refs[t])
    decreases |refs|
  {
    var front := refs[..|refs| - 1];
    if t < |front| {
      OneCounted(front, t);
      NoneCounted(front, IdentityOf(refs[t]));
      assert front[t] == refs[t];
    } else {
      NoneCounted(front, IdentityOf(refs[t]));
    }
  }

  /** The prediction for one server, as it is made from the source before the edits. */
  method PredictRef(s: Server, isTarget: bool, edits: seq<Edit>) returns (r: Option<Ref>)
    ensures r == Predicted(s, isTarget, edits)
  {
    hide Shift, Forward, SortedUnique, RawNames, RawListeners, Tls, ListenersAfter, PredictedPlan, Fingerprint;
    var names, listeners, tls := ServerSummary(s.directives);
    if isTarget {
      listeners := PredictListeners(s.directives, listeners, tls);
    }
    var start := OffsetAfterEdits(s.path, s.start, edits);
    if start.None? {
      return None;
    }
    return Some(MakeRef(s.path, start.value, names, listeners));
  }

  function At(counts: map<Identity, nat>, id: Identity): nat {
    if id in counts then counts[id] else 0
  }

  /** Predicts the references of all servers and counts their identities. */
  method PredictAll(servers: seq<Server>, targets: seq<nat>, edits: seq<Edit>)
      returns (r: Option<seq<Ref>>, counts: map<Identity, nat>)
    ensures r.Some? <==> forall i | 0 <= i < |servers| ::
              Predicted(servers[i], i in targets, edits).Some?
                && ValidRef(Predicted(servers[i], i in targets, edits).value)
    ensures r.Some? ==> |r.value| == |servers| && forall i | 0 <= i < |servers| ::
                        Predicted(servers[i], i in targets, edits) == Some(r.value[i])
    ensures r.Some? ==> forall id :: At(counts, id) == Count(r.value, id)
  {
    hide Predicted, ValidRef;
    counts := map[];
    var published: seq<Ref> := [];
    for i := 0 to |servers|
      invariant |published| == i
      invariant forall k | 0 <= k < i ::
          Predicted(servers[k], k in targets, edits) == Some(published[k]) && ValidRef(published[k])
      invariant forall id :: At(counts, id) == Count(published, id)
    {
      var ref := PredictRef(servers[i], i in targets, edits);
      if ref.None? {
        return None, counts;
      }
      var valid := CheckRef(ref.value);
      if !valid {
        return None, counts;
      }
      var id := IdentityOf(ref.value);
      assert (published + [ref.value])[..i] == published;
      published := published + [ref.value];
      counts := counts[id := At(counts, id) + 1];
    }
    return Some(published), counts;
  }

  /** The references of the targets, unless another server gets the identity of one of them. */
  method PublishedServerRefs(servers: seq<Server>, ghost refs: seq<Ref>, targets: seq<nat>, edits: seq<Edit>)
      returns (r: Option<seq<Ref>>)
    requires Resolves(servers, refs, targets)
    ensures r.Some? <==> Publishable(servers, targets, edits)
    ensures r.Some? ==> |r.value| == |targets| && forall k | 0 <= k < |targets| ::
              targets[k] < |servers| && Predicted(servers[targets[k]], true, edits) == Some(r.value[k])
  {
    hide Predicted, ValidRef, IsTarget, IdentityOf, At, Count;
    var predicted, counts := PredictAll(servers, targets, edits);
    if predicted.None? {
      return None;
    }
    var published := predicted.value;
    var result: seq<Ref> := [];
    for k := 0 to |targets|
      invariant |result| == k
      invariant forall j | 0 <= j < k :: targets[j] < |servers| && result[j] == published[targets[j]]
                                         && Count(published, IdentityOf(result[j])) == 1
    {
      TargetExists(servers, refs, targets, k);
      var ref := published[targets[k]];
      OneCounted(published, targets[k]);
      assert targets[k] in targets;
      if At(counts, IdentityOf(ref)) != 1 {
        ghost var i :| 0 <= i < |servers| && i != targets[k] && IdentityOf(published[i]) == IdentityOf(ref);
        assert Predicted(servers[i], i in targets, edits).Some?;
        return None;
      }
      result := result + [ref];
    }
    forall t, i | t in targets && 0 <= t < |servers| && 0 <= i < |servers| && i != t
      ensures IdentityOf(published[i]) != IdentityOf(published[t])
    {
      OneCounted(published, t);
    }
    return Some(result);
  }

  lemma TargetExists(servers: seq<Server>, refs: seq<Ref>, targets: seq<nat>, k: nat)
    requires Resolves(servers, refs, targets) && k < |targets|
    ensures targets[k] < |servers|
  {
    assert IsTarget(servers, IdentityOf(refs[k]), targets[k]);
  }
}
