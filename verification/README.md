# Authority registry of an OpenID Connect provider, in Dafny

This project models the registry of upstream ("authority") identity providers
that konnect keeps in `identity/authorities/registry.go`. The registry is a map
from authority ID to registration plus the ID of the elected default
authority. It offers four operations:

- `Register` resolves the ID (falling back to the name). It rejects an entry
  with no identifier, with no client ID, or with an unsupported authority type.
  It fills the OIDC defaults and stores the entry, and the last write wins.
- `Get` is a map read in which the empty ID is never found.
- `Lookup` builds an immutable `Details` snapshot. The discovery results are
  copied only once the authority is ready.
- `Default` is `Lookup` of the default ID, with the error dropped.

The bulk load in `NewRegistry` runs `Validate` and `Register` on every
configured entry. It elects a default and launches discovery for each entry
that passes both checks.

The model is functional. Registrations and the registry are immutable
datatypes. Every operation is a pure function that returns the new state
together with its result. The load is a left fold over the entry sequence.
Discovery completion is one atomic update of a registration's discovery block
(readiness, authorization endpoint, validation keys). That makes readiness
one-way by construction. Go stores pointers to the configured entry objects,
and each discovery goroutine writes to its own object. The model keeps that
identity as the index of the configured entry each stored registration came
from. A completion belongs to one launched entry, and it shows in the registry
only while that entry's object is still the one stored under its ID.

Files:

- `wrappers.dfy`: `Option` and `Result`.
- `authorities.dfy`: `Registration`, `Details`, the register errors, and the
  per-entry part of `Register` (`Prepare`: ID fallback, checks, OIDC defaults).
  It also holds the snapshot taken by `Lookup`.
- `registry.dfy`: `Registry`, `Register`, `Get`, `Lookup`, `Default`, and the
  lemmas that relate them.
- `load.dfy`: the validate/register/elect loop of `NewRegistry` as a fold over
  the entries, and the loop invariants.
- `load_properties.dfy`: the proofs about the loop. The loop state is split into
  four folds: the map (`Stored`), the discovery launches (`Launches`), the
  default candidate (`Candidates`) and the origin of each stored registration
  (`OriginsOf`). Each invariant is proved by induction on its
  own fold. On top of them come the election rule, the loaded map contents and
  the discovery launches of `NewRegistry`.
- `discovery.dfy`: discovery completion after the load, and what it can and
  cannot make ready.

Two consequences of the code's order of operations:

- The code calls `Register` before it looks at `Validate`'s result (lines
  65-67). An entry that fails `Validate` but passes `Register`'s checks is
  therefore stored in the map, even though the warning at line 80 says it
  was skipped. It is only kept out of the election and out of discovery.
- Discovery is launched (line 98) only for entries that pass both checks, not
  for every stored entry. Such a stored entry never becomes ready.

Last-write-wins also reaches the default. Say a later entry reuses the elected
ID, even one that failed `Validate` and is not flagged `Default`. It replaces
the stored registration, and `Default()` then describes that later entry.
`RegistryLoadProperties.DefaultShadowedByLaterEntry` proves this for a two-entry load.
The only discovery goroutine started there belongs to the replaced entry, so
the default stays not ready however discovery goes
(`RegistryDiscovery.ShadowedDefaultNeverReady`).

## Model

| member | source | states |
|---|---|---|
| `Authorities.Prepare` | identity/authorities/registry.go:118-148 | The entry succeeds iff it has an ID or a name, a client ID, and the OIDC type. There is one error per failed check, in the code's order, and an unknown type is reported by name. The ID fallback is written into the entry even when a later check fails. On failure nothing else changes. On success every empty OIDC option takes its default and every set one is kept. |
| `Authorities.WithOidcDefaults` | identity/authorities/registry.go:131-144 | Empty scopes, response type, code challenge method and identity claim name get their defaults. Non-empty values are kept unchanged. |
| `Authorities.PrepareIdempotent` | identity/authorities/registry.go:118-144 | Preparing an already accepted entry again changes nothing. |
| `Authorities.SnapshotDescribes` | identity/authorities/registry.go:167-190 | The snapshot copies every static field and the readiness. It carries the discovery results exactly when ready and is never torn. Any Details that describes the registration equals the snapshot. |
| `AuthorityRegistry.Register` | identity/authorities/registry.go:117-155 | The returned entry and error are those of the per-entry checks and defaults (`Prepare`). Success iff the entry is registrable. On success the prepared entry is stored under the effective ID, every other key and the default ID are unchanged, and the key set grows by that ID only. On failure the registry is unchanged. |
| `AuthorityRegistry.Get` | identity/authorities/registry.go:196-207 | The empty ID is not found. Any other ID is found iff it is a key, and then the stored registration is returned. |
| `AuthorityRegistry.Lookup` | identity/authorities/registry.go:159-193 | An unknown or empty ID gives an unknown-authority error naming the ID and no Details. A known ID gives a Details that describes its registration and is untorn. |
| `AuthorityRegistry.Default` | identity/authorities/registry.go:210-213 | With an empty default ID the result is absent, with no error. It is present iff the default ID is a key, and then describes that registration. In a well-formed registry it carries the default ID. |
| `AuthorityRegistry.RegisterPreservesWellFormed` | identity/authorities/registry.go:117-155 | Every stored registration stays under its own non-empty ID, with a client ID and the OIDC type. |
| `AuthorityRegistry.RegisterThenGet` | identity/authorities/registry.go:150-154 | After a successful Register, `Get` and `Lookup` under the effective ID return the prepared entry and its snapshot. |
| `AuthorityRegistry.LastWriteWins` | identity/authorities/registry.go:150-154 | Re-registering under the same ID raises no error and leaves the same registry as registering only the second entry. |
| `AuthorityRegistry.RegisterIdempotent` | identity/authorities/registry.go:117-155 | Registering the same entry twice equals registering it once. |
| `AuthorityRegistry.RejectedNeverStored` | identity/authorities/registry.go:118-148 | A rejected entry is never found afterwards. |
| `RegistryLoadProperties.LoadPrefixParts` | identity/authorities/registry.go:64-98 | After each prefix of the loop, the map is what `Register` alone made of the entries. The launches and the candidate are driven only by the entries that pass both checks. |
| `RegistryLoadProperties.CandidateInvariant` | identity/authorities/registry.go:87-96 | Until a passing `Default` entry is seen, the candidate is absent or unflagged. From then on it is the first such entry. |
| `RegistryLoadProperties.KeysInvariant` | identity/authorities/registry.go:65-67 | After each prefix, a key is stored iff some entry registered under it, whether or not it passed `Validate`. |
| `RegistryLoadProperties.LastWriterInvariant` | identity/authorities/registry.go:65-67 | After each prefix, each stored key holds the prepared form of the last entry that registered under it. |
| `RegistryLoadProperties.ShapeInvariant` | identity/authorities/registry.go:58-67 | The loop never sets the default ID, and the map stays well formed. |
| `RegistryLoadProperties.OriginInvariant` | identity/authorities/registry.go:64-67 | After each prefix, the stored keys are exactly the registered IDs, and each names the last entry registered under it, whose object is the one stored. |
| `RegistryLoadProperties.LaunchInvariant` | identity/authorities/registry.go:79-98 | After each prefix, discovery was launched for exactly the entries passing both checks, in strictly increasing order. |
| `RegistryLoadProperties.DefaultElection` | identity/authorities/registry.go:87-110 | The default ID is non-empty iff some entry passes both checks and is flagged `Default`. It is then the effective ID of the first such entry. |
| `RegistryLoadProperties.LoadedContents` | identity/authorities/registry.go:64-110 | The loaded map holds exactly the IDs some entry registered under, each with its last writer. The registry is well formed, and a non-empty default ID is a key. |
| `RegistryLoadProperties.LoadedOrigins` | identity/authorities/registry.go:64-67 | After the load, every stored key records which entry's object it holds. That is the last entry registered under the key, and every last writer is recorded under its own ID. |
| `RegistryLoadProperties.LoadedLaunches` | identity/authorities/registry.go:79-98 | Discovery is launched once for every entry passing both checks, in entry order, and for no other entry. |
| `RegistryLoadProperties.InvalidButRegisteredEntry` | identity/authorities/registry.go:66-86 | An entry that fails `Validate` but passes `Register` is stored, and as last writer its prepared form is stored. It gets no discovery. Its ID is the default only if some other entry with the same ID was elected. |
| `RegistryLoadProperties.NoDefaultWithoutFlag` | identity/authorities/registry.go:103-110 | With no passing flagged entry, the default ID is empty and `Default()` is absent. |
| `RegistryLoadProperties.DefaultAfterLoad` | identity/authorities/registry.go:210-213 | After the load, `Default()` is present iff an entry was elected. It then carries the default ID and describes the registration stored there. |
| `RegistryLoadProperties.FreshRegistryNotReady` | identity/authorities/registry.go:65-67 | Entries that arrive with the zero discovery block are stored with it. |
| `RegistryLoadProperties.LoadedNotReady` | identity/authorities/registry.go:183-189 | Right after the load, before any discovery completes, every lookup and `Default()` shows the zero discovery block: not ready, no endpoint, no keys. |
| `RegistryLoadProperties.EmptyConfiguration` | identity/authorities/registry.go:43-62 | No entries give an empty registry, no launches and an absent default. |
| `RegistryLoadProperties.FirstOfTwoDefaultsWins` | identity/authorities/registry.go:87-92 | Of two passing flagged entries with different IDs, the first is the default, and `Default()` returns its snapshot. |
| `RegistryLoadProperties.DefaultShadowedByLaterEntry` | identity/authorities/registry.go:64-110 | In a two-entry load, a later entry that reuses the elected ID replaces the stored registration even if it failed `Validate` and is unflagged. `Default()` then describes it, and only the first entry gets discovery. |
| `RegistryDiscovery.CompleteDiscovery` | identity/authorities/registry.go:98 | The goroutine of entry `i` takes effect only if `i` was launched, the registration stored under its ID is still entry `i`'s object, and it is not ready yet. It then writes readiness, endpoint and keys in one step. Otherwise nothing changes. Keys, other registrations, the default ID, launches and origins never change. |
| `RegistryDiscovery.CompleteAll` | identity/authorities/registry.go:98 | Any sequence of completions keeps the key set, the default ID, the launches and the origins. |
| `RegistryDiscovery.CompletionIsFinal` | identity/authorities/registry.go:98 | A second completion for the same entry changes nothing. |
| `RegistryDiscovery.DiscoveryMonotone` | identity/authorities/registry.go:98 | A ready registration stays ready, and only the discovery block of any registration can change. Well-formedness is kept. |
| `RegistryDiscovery.LookupAcrossDiscovery` | identity/authorities/registry.go:183-189 | Before a completion, a lookup of the not-yet-ready registration sees no endpoint and no keys. After it, the lookup sees all three discovery fields together, with the static fields as before. |
| `RegistryDiscovery.UnlaunchedUntouched` | identity/authorities/registry.go:78-98 | A stored registration whose entry got no goroutine is unchanged by every sequence of completions. |
| `RegistryDiscovery.NeverLaunchedNeverReady` | identity/authorities/registry.go:65-98 | An entry that registered, failed `Validate` and is the last entry registered under its ID stays stored and never becomes ready, whatever completions happen. |
| `RegistryDiscovery.ShadowedDefaultNeverReady` | identity/authorities/registry.go:64-110 | In a two-entry load, when the later, unlaunched entry replaces the elected default, `Default()` keeps describing that entry and is never ready. |

## Left out

- Reading the configuration file and unmarshalling YAML (lines 45-56). The load starts from the parsed entry sequence. Read and parse errors are not modelled.
- The body of `Validate`, which is not part of this model. The load takes it as a total function on the raw entry. It is applied before `Register` writes into the entry, as in the code.
- The `Initialize` discovery routine, which is defined in another file of the Go package and is not part of this model. Its successful completion is `RegistryDiscovery.CompleteDiscovery`, one atomic step, at most once per launched entry. Failure or no completion is simply no step.
- The values of `AuthorityTypeOIDC` and of the four OIDC defaults, which are defined in another file of the Go package. They are constants with unspecified values.
- RegistryLoadProperties.LoadedNotReady: completions that happen while the loop is still running (the goroutine of line 98 can finish before `NewRegistry` returns) are not modelled. Completions are applied after the load, so this lemma describes the registry before any discovery completes.
- Origins are recorded by the load only. A `Register` call made after the load is not tracked as a new object, so completions are modelled for the loaded registry only.
- The goroutine launch (line 98) is recorded as the index of the launched entry. The registry's `RWMutex` and the per-registration locks (lines 33, 150-151, 183-190, 202-204) are not modelled. The model is sequential, and discovery completion is atomic by construction.
- The `context.Context` arguments and all logging calls. They carry no control flow.
- Pointer aliasing. The `Details.Registration` back-reference is the registration's ID, and the shared `Scopes` slice is a value.
- Error messages are constructors (`MissingId`, `InvalidClientId`, `UnknownAuthorityType`, `UnknownAuthority`) rather than strings.
