/** The authority registry of identity/authorities/registry.go: a map from
    authority ID to registration plus the elected default ID, with the
    operations `Register`, `Get`, `Lookup` and `Default`. */
module AuthorityRegistry {
  import opened Wrappers
  import opened Authorities

  datatype Registry = Registry(authorities: map<string, Registration>, defaultId: string)

  const EmptyRegistry := Registry(map[], "")

  datatype LookupError = UnknownAuthority(id: string)  // "unknown authority id: %v"

  /** What `Register` hands back: the registry after the call, the entry as
      the call left it (Go mutates it in place), and the returned error. */
  datatype Registered = Registered(registry: Registry, authority: Registration, err: Option<RegisterError>)

  /** Every stored registration sits under its own non-empty ID and passed
      `Register`'s checks. */
  predicate WellFormed(reg: Registry)
  {
    forall k :: k in reg.authorities ==>
      && k != ""
      && reg.authorities[k].id == k
      && reg.authorities[k].clientId != ""
      && reg.authorities[k].authorityType == AuthorityTypeOIDC
  }

  /** `Register`: on success the prepared entry is stored under its ID, replacing
      any earlier one (last write wins); on failure the registry is untouched. */
  function Register(reg: Registry, a: Registration): (res: Registered)
    ensures res.err.None? <==> Registrable(a)
    ensures res.authority == Prepare(a).authority && res.err == Prepare(a).err
    ensures res.authority.id == EffectiveId(a)
    ensures res.err.Some? ==> res.registry == reg && res.authority == a.(id := EffectiveId(a))
    ensures res.err.None? ==> res.registry.defaultId == reg.defaultId
    ensures res.err.None? ==> res.registry.authorities.Keys == reg.authorities.Keys + {EffectiveId(a)}
    ensures res.err.None? ==> res.registry.authorities[EffectiveId(a)] == res.authority
    ensures res.err.None? ==> forall k :: k in reg.authorities && k != EffectiveId(a) ==>
              res.registry.authorities[k] == reg.authorities[k]
  {
    var p := Prepare(a);
    if p.err.Some? then
      Registered(reg, p.authority, p.err)
    else
      Registered(reg.(authorities := reg.authorities[p.authority.id := p.authority]), p.authority, None)
  }

  /** `Get`: the empty ID is never found; otherwise a plain map read. */
  function Get(reg: Registry, id: string): (r: Option<Registration>)
    ensures id == "" ==> r.None?
    ensures id != "" ==> (r.Some? <==> id in reg.authorities)
    ensures r.Some? ==> id in reg.authorities && r.value == reg.authorities[id]
  {
    if id == "" then None
    else if id in reg.authorities then Some(reg.authorities[id])
    else None
  }

  /** `Lookup`: an unknown ID is an error naming it; a known one yields a
      faithful, never torn snapshot of its registration. */
  function Lookup(reg: Registry, id: string): (r: Result<Details, LookupError>)
    ensures r.Failure? <==> (id == "" || id !in reg.authorities)
    ensures r.Failure? ==> r.error == UnknownAuthority(id)
    ensures r.Success? ==> Describes(r.value, reg.authorities[id]) && Untorn(r.value)
  {
    match Get(reg, id)
    case None => Failure(UnknownAuthority(id))
    case Some(a) =>
      SnapshotDescribes(a, Snapshot(a));
      Success(Snapshot(a))
  }

  /** `Default`: the snapshot of the elected default, and nothing (without an
      error) when no default is elected or it is not in the map. */
  function Default(reg: Registry): (r: Option<Details>)
    ensures reg.defaultId == "" ==> r.None?
    ensures r.Some? <==> reg.defaultId != "" && reg.defaultId in reg.authorities
    ensures r.Some? ==> Describes(r.value, reg.authorities[reg.defaultId])
    ensures r.Some? && WellFormed(reg) ==> r.value.id == reg.defaultId
  {
    Lookup(reg, reg.defaultId).ToOption()
  }

  // ---------------------------------------------------------------------------
  // Properties relating the operations
  // ---------------------------------------------------------------------------

  /** `Register` keeps the registry well formed. */
  lemma RegisterPreservesWellFormed(reg: Registry, a: Registration)
    requires WellFormed(reg)
    ensures WellFormed(Register(reg, a).registry)
  {
  }

  /** After a successful `Register`, `Get` under the effective ID returns the
      prepared entry and `Lookup` describes it, whatever was stored before. */
  lemma RegisterThenGet(reg: Registry, a: Registration)
    requires Registrable(a)
    ensures Get(Register(reg, a).registry, EffectiveId(a)) == Some(Prepare(a).authority)
    ensures Lookup(Register(reg, a).registry, EffectiveId(a)) == Success(Snapshot(Prepare(a).authority))
  {
  }

  /** Registering two entries under the same effective ID keeps only the
      second, and no error is raised for the collision. */
  lemma LastWriteWins(reg: Registry, a: Registration, b: Registration)
    requires Registrable(a) && Registrable(b)
    requires EffectiveId(a) == EffectiveId(b)
    ensures Register(Register(reg, a).registry, b).err.None?
    ensures Register(Register(reg, a).registry, b).registry == Register(reg, b).registry
  {
  }

  /** Registering the same entry twice is the same as registering it once. */
  lemma RegisterIdempotent(reg: Registry, a: Registration)
    ensures Register(Register(reg, a).registry, a).registry == Register(reg, a).registry
  {
  }

  /** A rejected entry never appears in the registry. */
  lemma RejectedNeverStored(reg: Registry, a: Registration, k: string)
    requires !Registrable(a)
    requires k !in reg.authorities
    ensures Get(Register(reg, a).registry, k).None?
  {
  }
}
