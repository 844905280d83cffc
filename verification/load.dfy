/** The bulk load of `NewRegistry` (identity/authorities/registry.go): every
    entry is validated and registered, passing entries take part in the
    default election and get discovery launched, and the elected candidate is
    promoted only when it carries the `Default` flag. Reading and parsing the
    configuration file are not modelled; the loop starts from the parsed
    entry list. `Validate` is defined in another file of the Go package and
    is a parameter. */
module RegistryLoad {
  import opened Wrappers
  import opened Authorities
  import opened AuthorityRegistry

  /** Which configured entry each stored registration is, by entry index. Go
      stores pointers to the entry objects, and a discovery goroutine writes to
      the object it was started for; this map stands in for that identity. */
  type Origins = map<string, nat>

  /** The loop's state: the registry being filled, the default candidate
      (`defaultAuthority`), the indices of entries whose discovery was
      launched, and the origin of every stored registration. */
  datatype LoadState = LoadState(registry: Registry, candidate: Option<Registration>, launched: seq<nat>, origin: Origins)

  /** The outcome of `NewRegistry`: the registry, the entries whose discovery
      was started in launch order, and the origin of every stored registration. */
  datatype Loaded = Loaded(registry: Registry, launched: seq<nat>, origin: Origins)

  /** Entry `e` survives both `Validate` and `Register`. */
  predicate Passes(e: Registration, validate: Registration -> bool)
  {
    validate(e) && Registrable(e)
  }

  /** Entry `j` is a passing entry flagged `Default`. */
  predicate Elected(entries: seq<Registration>, validate: Registration -> bool, j: int)
  {
    0 <= j < |entries| && Passes(entries[j], validate) && entries[j].flags.isDefault
  }

  /** Among the first `n` entries, `i` registered and no later one reused its ID. */
  predicate LastWriter(entries: seq<Registration>, n: int, i: int)
    requires n <= |entries|
  {
    && 0 <= i < n
    && Registrable(entries[i])
    && forall k :: i < k < n && Registrable(entries[k]) ==> EffectiveId(entries[k]) != EffectiveId(entries[i])
  }

  /** The default candidate after a passing entry `a`: a flagged entry
      replaces an absent or unflagged candidate, an unflagged entry only
      fills an absent one, and a flagged candidate is never replaced. */
  function NextCandidate(c: Option<Registration>, a: Registration): Option<Registration>
  {
    if a.flags.isDefault || c.None? then
      if c.None? || !c.value.flags.isDefault then Some(a) else c
    else
      c
  }

  /** One iteration of the loop. Both `Validate` and `Register` run before
      either result is looked at, so an entry that fails validation but
      registers is still stored; it only skips election and discovery. */
  function LoadStep(s: LoadState, e: Registration, i: nat, valid: bool): LoadState
  {
    var res := Register(s.registry, e);
    var s' := s.(registry := res.registry, origin := if res.err.None? then s.origin[res.authority.id := i] else s.origin);
    if !valid || res.err.Some? then
      s'
    else
      s'.(candidate := NextCandidate(s.candidate, res.authority), launched := s.launched + [i])
  }

  /** The loop run over the first `n` entries. */
  function LoadPrefix(entries: seq<Registration>, validate: Registration -> bool, n: nat): LoadState
    requires n <= |entries|
    decreases n
  {
    if n == 0 then
      LoadState(EmptyRegistry, None, [], map[])
    else
      LoadStep(LoadPrefix(entries, validate, n - 1), entries[n - 1], n - 1, validate(entries[n - 1]))
  }

  /** `NewRegistry` from parsed entries: run the loop, then promote the
      candidate only if it is flagged `Default`. */
  function NewRegistry(entries: seq<Registration>, validate: Registration -> bool): Loaded
  {
    var s := LoadPrefix(entries, validate, |entries|);
    var defaultId := if s.candidate.Some? && s.candidate.value.flags.isDefault then s.candidate.value.id else "";
    Loaded(s.registry.(defaultId := defaultId), s.launched, s.origin)
  }

  // ---------------------------------------------------------------------------
  // Loop invariants, stated over a prefix of the entries and the state the
  // loop has reached after it
  // ---------------------------------------------------------------------------

  /** The candidate: while no passing `Default` entry has been seen it is
      absent or unflagged; once one has, it is the first such entry, prepared. */
  ghost predicate CandidateInv(entries: seq<Registration>, validate: Registration -> bool, n: nat, c: Option<Registration>)
    requires n <= |entries|
  {
    && ((forall j :: 0 <= j < n ==> !Elected(entries, validate, j)) ==> c.None? || !c.value.flags.isDefault)
    && (forall j :: 0 <= j < n && Elected(entries, validate, j) && (forall k :: 0 <= k < j ==> !Elected(entries, validate, k)) ==>
          c == Some(Prepare(entries[j]).authority))
  }

  /** The IDs the first `n` entries registered under. */
  ghost function RegisteredIds(entries: seq<Registration>, n: nat): set<string>
    requires n <= |entries|
  {
    set i | 0 <= i < n && Registrable(entries[i]) :: EffectiveId(entries[i])
  }

  /** The map's keys: exactly the IDs some entry so far registered under,
      whether or not it passed `Validate`. */
  ghost predicate KeysInv(entries: seq<Registration>, n: nat, reg: Registry)
    requires n <= |entries|
  {
    reg.authorities.Keys == RegisteredIds(entries, n)
  }

  /** The map's values: each key holds the prepared form of the last entry
      registered under it. */
  ghost predicate LastWriterInv(entries: seq<Registration>, n: nat, reg: Registry)
    requires n <= |entries|
  {
    forall i :: LastWriter(entries, n, i) ==>
      EffectiveId(entries[i]) in reg.authorities && reg.authorities[EffectiveId(entries[i])] == Prepare(entries[i]).authority
  }

  /** Discovery launches: exactly the passing entries so far, each once, in order. */
  ghost predicate LaunchInv(entries: seq<Registration>, validate: Registration -> bool, n: nat, l: seq<nat>)
    requires n <= |entries|
  {
    && (forall i :: i in l <==> 0 <= i < n && Passes(entries[i], validate))
    && (forall p, q :: 0 <= p < q < |l| ==> l[p] < l[q])
  }
}
