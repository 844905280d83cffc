/** The data model of one upstream authority (identity/authorities/registry.go)
    and the per-entry half of `Register`: identifier fallback, the required
    fields, and the OIDC defaults. */
module Authorities {
  import opened Wrappers

  /** The authority type the registry supports. Its spelling is defined in
      another file of the Go package, so the model keeps it as an unspecified
      string. */
  const AuthorityTypeOIDC: string

  /** The OIDC defaults `Register` fills in; their values are defined in
      another file of the Go package and are left unspecified. */
  const AuthorityDefaultScopes: seq<string>
  const AuthorityDefaultResponseType: string
  const AuthorityDefaultCodeChallengeMethod: string
  const AuthorityDefaultIdentityClaimName: string

  /** Key material fetched by discovery, by key identifier. */
  type ValidationKeys = map<string, seq<bv8>>

  /** The behaviour flags of a registration. */
  datatype Flags = Flags(insecure: bool, isDefault: bool, discover: bool, identityAliasRequired: bool)

  /** The OIDC options `Register` fills with defaults when left empty. */
  datatype OidcOptions = OidcOptions(
    scopes: seq<string>,
    responseType: string,
    codeChallengeMethod: string,
    identityClaimName: string
  )

  /** The fields only discovery writes, kept together so that discovery
      completion is one atomic update. */
  datatype Discovery = Discovery(ready: bool, authorizationEndpoint: string, validationKeys: ValidationKeys)

  /** The zero value of the discovery block: not ready, no endpoint, no keys. */
  const Undiscovered := Discovery(false, "", map[])

  /** One configured authority: static configuration plus the discovery block. */
  datatype Registration = Registration(
    id: string,
    name: string,
    authorityType: string,
    clientId: string,
    clientSecret: string,
    flags: Flags,
    options: OidcOptions,
    discovery: Discovery
  )

  /** The snapshot `Lookup` hands out. The back-reference to the registration
      is kept as the registration's ID. */
  datatype Details = Details(
    id: string,
    name: string,
    authorityType: string,
    clientId: string,
    clientSecret: string,
    insecure: bool,
    scopes: seq<string>,
    responseType: string,
    codeChallengeMethod: string,
    discovery: Discovery,
    registrationId: string
  )

  datatype RegisterError =
    | MissingId                     // "no authority id"
    | InvalidClientId               // "invalid authority client_id"
    | UnknownAuthorityType(t: string) // "unknown authority type: %v"

  /** The ID a registration is stored under: its ID, or its name when the ID is empty. */
  function EffectiveId(a: Registration): string
  {
    if a.id == "" then a.name else a.id
  }

  /** The conditions under which `Register` accepts an entry, read off its three checks. */
  predicate Registrable(a: Registration)
  {
    && (a.id != "" || a.name != "")
    && a.clientId != ""
    && a.authorityType == AuthorityTypeOIDC
  }

  /** `b` differs from `a` at most in the fields `Register` may write. */
  predicate OnlyPreparedFieldsDiffer(a: Registration, b: Registration)
  {
    b == a.(id := b.id, options := b.options)
  }

  /** A string-valued option after defaulting: kept when set, the default when empty. */
  predicate Defaulted(given: string, result: string, default: string)
  {
    (given != "" ==> result == given) && (given == "" ==> result == default)
  }

  /** What `Register` leaves in the entry it was given, and the error it returns. */
  datatype Prepared = Prepared(authority: Registration, err: Option<RegisterError>)

  /** The OIDC branch of `Register`: every empty option takes its default and
      every set one is kept. */
  function WithOidcDefaults(o: OidcOptions): (d: OidcOptions)
    ensures |o.scopes| > 0 ==> d.scopes == o.scopes
    ensures |o.scopes| == 0 ==> d.scopes == AuthorityDefaultScopes
    ensures Defaulted(o.responseType, d.responseType, AuthorityDefaultResponseType)
    ensures Defaulted(o.codeChallengeMethod, d.codeChallengeMethod, AuthorityDefaultCodeChallengeMethod)
    ensures Defaulted(o.identityClaimName, d.identityClaimName, AuthorityDefaultIdentityClaimName)
  {
    OidcOptions(
      if |o.scopes| == 0 then AuthorityDefaultScopes else o.scopes,
      if o.responseType == "" then AuthorityDefaultResponseType else o.responseType,
      if o.codeChallengeMethod == "" then AuthorityDefaultCodeChallengeMethod else o.codeChallengeMethod,
      if o.identityClaimName == "" then AuthorityDefaultIdentityClaimName else o.identityClaimName)
  }

  /** The per-entry work of `Register`, before the map insertion. The ID
      fallback is written into the entry before any check can fail, and the
      OIDC defaults only once every check has passed. */
  function Prepare(a: Registration): (p: Prepared)
    ensures p.err.None? <==> Registrable(a)
    ensures p.err == Some(MissingId) <==> a.id == "" && a.name == ""
    ensures p.err == Some(InvalidClientId) <==> EffectiveId(a) != "" && a.clientId == ""
    ensures (p.err == Some(UnknownAuthorityType(a.authorityType))) <==>
              (EffectiveId(a) != "" && a.clientId != "" && a.authorityType != AuthorityTypeOIDC)
    ensures p.authority.id == EffectiveId(a)
    ensures OnlyPreparedFieldsDiffer(a, p.authority)
    // On failure nothing but the ID fallback has touched the entry.
    ensures p.err.Some? ==> p.authority == a.(id := EffectiveId(a))
    // On success every empty OIDC option holds its default and every set one is kept.
    ensures p.err.None? ==> |a.options.scopes| > 0 ==> p.authority.options.scopes == a.options.scopes
    ensures p.err.None? ==> |a.options.scopes| == 0 ==> p.authority.options.scopes == AuthorityDefaultScopes
    ensures p.err.None? ==> Defaulted(a.options.responseType, p.authority.options.responseType, AuthorityDefaultResponseType)
    ensures p.err.None? ==> Defaulted(a.options.codeChallengeMethod, p.authority.options.codeChallengeMethod, AuthorityDefaultCodeChallengeMethod)
    ensures p.err.None? ==> Defaulted(a.options.identityClaimName, p.authority.options.identityClaimName, AuthorityDefaultIdentityClaimName)
  {
    if a.id == "" && a.name == "" then
      Prepared(a, Some(MissingId))
    else
      var b := if a.id == "" then a.(id := a.name) else a;
      if b.clientId == "" then
        Prepared(b, Some(InvalidClientId))
      else if b.authorityType != AuthorityTypeOIDC then
        Prepared(b, Some(UnknownAuthorityType(b.authorityType)))
      else
        Prepared(b.(options := WithOidcDefaults(b.options)), None)
  }

  /** Preparing an entry a second time changes nothing: the ID is already
      resolved and every option already holds a value. */
  lemma PrepareIdempotent(a: Registration)
    requires Registrable(a)
    ensures Prepare(Prepare(a).authority) == Prepare(a)
  {
  }

  /** The snapshot of a registration, copying discovery results only once it is ready. */
  function Snapshot(a: Registration): Details
  {
    Details(a.id, a.name, a.authorityType, a.clientId, a.clientSecret, a.flags.insecure,
            a.options.scopes, a.options.responseType, a.options.codeChallengeMethod,
            Discovery(a.discovery.ready,
                      if a.discovery.ready then a.discovery.authorizationEndpoint else "",
                      if a.discovery.ready then a.discovery.validationKeys else map[]),
            a.id)
  }

  /** `d` is a faithful snapshot of `a`: every static field copied, readiness
      copied, and the discovery results present exactly when ready. */
  predicate Describes(d: Details, a: Registration)
  {
    && d.id == a.id && d.name == a.name && d.authorityType == a.authorityType
    && d.clientId == a.clientId && d.clientSecret == a.clientSecret
    && d.insecure == a.flags.insecure && d.scopes == a.options.scopes
    && d.responseType == a.options.responseType
    && d.codeChallengeMethod == a.options.codeChallengeMethod
    && d.registrationId == a.id
    && d.discovery.ready == a.discovery.ready
    && (a.discovery.ready ==> d.discovery == a.discovery)
    && (!a.discovery.ready ==> d.discovery == Undiscovered)
  }

  /** A snapshot is never torn: discovery results never appear without readiness. */
  predicate Untorn(d: Details)
  {
    !d.discovery.ready ==> d.discovery == Undiscovered
  }

  /** `Snapshot` meets `Describes`, and `Describes` pins the snapshot down completely. */
  lemma SnapshotDescribes(a: Registration, d: Details)
    ensures Describes(Snapshot(a), a)
    ensures Untorn(Snapshot(a))
    ensures Describes(d, a) ==> d == Snapshot(a)
  {
  }
}
