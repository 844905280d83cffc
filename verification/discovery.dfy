/** Discovery completion (identity/authorities/registry.go, line 98 and the
    readers at lines 183-189). `NewRegistry` starts one discovery goroutine
    per entry that passed both checks, and that goroutine writes readiness,
    endpoint and keys into its own entry object. The write is therefore
    visible through the registry only while the map still holds that very
    object under its ID. */
module RegistryDiscovery {
  import opened Wrappers
  import opened Authorities
  import opened AuthorityRegistry
  import opened RegistryLoad
  import opened RegistryLoadProperties

  /** `b` differs from `a` at most in the fields discovery writes. */
  predicate OnlyDiscoveryDiffers(a: Registration, b: Registration)
  {
    b == a.(discovery := b.discovery)
  }

  /** The discovery of entry `i` can complete on the registration stored
      under `id`: it was launched, the stored registration is entry `i`'s
      object, and that object is not ready yet (each goroutine succeeds at
      most once). */
  predicate Completes(l: Loaded, i: nat, id: string)
  {
    && i in l.launched
    && id in l.origin && l.origin[id] == i
    && id in l.registry.authorities
    && !l.registry.authorities[id].discovery.ready
  }

  /** The discovery goroutine of entry `i`, whose registration carries `id`,
      succeeding: readiness, endpoint and keys are written together in one
      step. Any other call leaves the loaded registry as it was. */
  function CompleteDiscovery(l: Loaded, i: nat, id: string, endpoint: string, keys: ValidationKeys): (r: Loaded)
    ensures r.launched == l.launched && r.origin == l.origin
    ensures r.registry.defaultId == l.registry.defaultId
    ensures r.registry.authorities.Keys == l.registry.authorities.Keys
    ensures forall k :: k in l.registry.authorities && k != id ==> r.registry.authorities[k] == l.registry.authorities[k]
    ensures Completes(l, i, id) ==>
              && r.registry.authorities[id].discovery == Discovery(true, endpoint, keys)
              && OnlyDiscoveryDiffers(l.registry.authorities[id], r.registry.authorities[id])
    ensures !Completes(l, i, id) ==> r == l
  {
    if Completes(l, i, id) then
      var a := l.registry.authorities[id];
      var reg := l.registry.(authorities := l.registry.authorities[id := a.(discovery := Discovery(true, endpoint, keys))]);
      l.(registry := reg)
    else
      l
  }

  /** One completed discovery: the entry whose goroutine finished, the ID its
      registration carries, and what discovery found. */
  datatype Completion = Completion(entry: nat, id: string, endpoint: string, keys: ValidationKeys)

  /** The completions in the order they happen. */
  function CompleteAll(l: Loaded, cs: seq<Completion>): (r: Loaded)
    ensures r.launched == l.launched && r.origin == l.origin
    ensures r.registry.defaultId == l.registry.defaultId
    ensures r.registry.authorities.Keys == l.registry.authorities.Keys
    decreases |cs|
  {
    if cs == [] then
      l
    else
      var c := cs[0];
      CompleteAll(CompleteDiscovery(l, c.entry, c.id, c.endpoint, c.keys), cs[1..])
  }

  // ---------------------------------------------------------------------------
  // Properties
  // ---------------------------------------------------------------------------

  /** Each goroutine succeeds once: completing the same entry a second time
      changes nothing, whatever the second result would have been. */
  lemma CompletionIsFinal(l: Loaded, i: nat, id: string, e1: string, k1: ValidationKeys, e2: string, k2: ValidationKeys)
    ensures var once := CompleteDiscovery(l, i, id, e1, k1);
            CompleteDiscovery(once, i, id, e2, k2) == once
  {
  }

  /** Discovery is one-way: a ready registration stays ready, the static
      fields never change, and the registry stays well formed. */
  lemma DiscoveryMonotone(l: Loaded, i: nat, id: string, endpoint: string, keys: ValidationKeys, k: string)
    requires k in l.registry.authorities
    ensures var r := CompleteDiscovery(l, i, id, endpoint, keys).registry;
            l.registry.authorities[k].discovery.ready ==> r.authorities[k].discovery.ready
    ensures var r := CompleteDiscovery(l, i, id, endpoint, keys).registry;
            OnlyDiscoveryDiffers(l.registry.authorities[k], r.authorities[k])
    ensures WellFormed(l.registry) ==> WellFormed(CompleteDiscovery(l, i, id, endpoint, keys).registry)
  {
  }

  /** A lookup before the completion sees no endpoint and no keys; the first
      lookup after it sees all three dynamic fields at once, with the static
      fields as before. */
  lemma LookupAcrossDiscovery(l: Loaded, i: nat, id: string, endpoint: string, keys: ValidationKeys)
    requires id != "" && Completes(l, i, id)
    ensures Lookup(l.registry, id).value.discovery == Undiscovered
    ensures Lookup(CompleteDiscovery(l, i, id, endpoint, keys).registry, id).value ==
              Lookup(l.registry, id).value.(discovery := Discovery(true, endpoint, keys))
  {
  }

  /** A stored registration whose entry got no discovery goroutine is never
      touched by any sequence of completions. */
  lemma {:induction false} UnlaunchedUntouched(l: Loaded, cs: seq<Completion>, k: string)
    requires k in l.registry.authorities
    requires k !in l.origin || l.origin[k] !in l.launched
    ensures CompleteAll(l, cs).registry.authorities[k] == l.registry.authorities[k]
    decreases |cs|
  {
    if cs != [] {
      var c := cs[0];
      var l' := CompleteDiscovery(l, c.entry, c.id, c.endpoint, c.keys);
      assert l'.registry.authorities[k] == l.registry.authorities[k];
      UnlaunchedUntouched(l', cs[1..], k);
    }
  }

  /** An entry that registered, failed `Validate` and is the last entry
      registered under its ID is stored yet never becomes ready, however
      discovery of the other entries goes. */
  lemma NeverLaunchedNeverReady(entries: seq<Registration>, validate: Registration -> bool, cs: seq<Completion>, i: nat)
    requires forall j :: 0 <= j < |entries| ==> entries[j].discovery == Undiscovered
    requires i < |entries| && LastWriter(entries, |entries|, i) && !validate(entries[i])
    ensures var r := CompleteAll(NewRegistry(entries, validate), cs).registry;
            EffectiveId(entries[i]) in r.authorities && !r.authorities[EffectiveId(entries[i])].discovery.ready
  {
    var l := NewRegistry(entries, validate);
    var k := EffectiveId(entries[i]);
    LoadedContents(entries, validate);
    LoadedLaunches(entries, validate);
    LoadedOrigins(entries, validate);
    LoadedNotReady(entries, validate, k);
    UnlaunchedUntouched(l, cs, k);
  }

  /** In the two-entry load of `DefaultShadowedByLaterEntry`, the shadowed
      default stays not ready for good: the only goroutine started belongs to
      the replaced entry. */
  lemma ShadowedDefaultNeverReady(a: Registration, b: Registration, validate: Registration -> bool, cs: seq<Completion>)
    requires Passes(a, validate) && a.flags.isDefault && a.discovery == Undiscovered
    requires Registrable(b) && !validate(b) && !b.flags.isDefault && b.discovery == Undiscovered
    requires EffectiveId(a) == EffectiveId(b)
    ensures Default(CompleteAll(NewRegistry([a, b], validate), cs).registry) == Some(Snapshot(Prepare(b).authority))
    ensures !Default(CompleteAll(NewRegistry([a, b], validate), cs).registry).value.discovery.ready
  {
    var l := NewRegistry([a, b], validate);
    var r := CompleteAll(l, cs).registry;
    var id := EffectiveId(a);
    DefaultShadowedByLaterEntry(a, b, validate);
    LoadedOrigins([a, b], validate);
    assert LastWriter([a, b], 2, 1);
    assert l.origin[id] == 1;
    UnlaunchedUntouched(l, cs, id);
    assert Get(r, id) == Get(l.registry, id);
    assert Prepare(b).authority.discovery == Undiscovered;
  }
}
