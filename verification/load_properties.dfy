/** Properties of the bulk load of `NewRegistry`
    (identity/authorities/registry.go): the loop invariants proved by
    induction over the entries, and what they give for the loaded registry. */
module RegistryLoadProperties {
  import opened Wrappers
  import opened Authorities
  import opened AuthorityRegistry
  import opened RegistryLoad

  // ---------------------------------------------------------------------------
  // The parts of the loop state, each as a fold of its own: the map
  // side depends on `Register` only, the launches and the candidate on the
  // entries passing both checks only
  // ---------------------------------------------------------------------------

  /** The registry after the first `n` entries: `Register` applied to each in turn. */
  ghost function Stored(entries: seq<Registration>, n: nat): Registry
    requires n <= |entries|
    decreases n
  {
    if n == 0 then EmptyRegistry else Register(Stored(entries, n - 1), entries[n - 1]).registry
  }

  /** The discovery launches after the first `n` entries. */
  ghost function Launches(entries: seq<Registration>, validate: Registration -> bool, n: nat): seq<nat>
    requires n <= |entries|
    decreases n
  {
    if n == 0 then []
    else if Passes(entries[n - 1], validate) then Launches(entries, validate, n - 1) + [n - 1]
    else Launches(entries, validate, n - 1)
  }

  /** The default candidate after the first `n` entries. */
  ghost function Candidates(entries: seq<Registration>, validate: Registration -> bool, n: nat): Option<Registration>
    requires n <= |entries|
    decreases n
  {
    if n == 0 then None
    else if Passes(entries[n - 1], validate) then NextCandidate(Candidates(entries, validate, n - 1), Prepare(entries[n - 1]).authority)
    else Candidates(entries, validate, n - 1)
  }

  /** The origin of every stored registration after the first `n` entries. */
  ghost function OriginsOf(entries: seq<Registration>, n: nat): Origins
    requires n <= |entries|
    decreases n
  {
    if n == 0 then map[]
    else if Registrable(entries[n - 1]) then OriginsOf(entries, n - 1)[EffectiveId(entries[n - 1]) := n - 1]
    else OriginsOf(entries, n - 1)
  }

  /** The loop state is the four folds side by side. */
  lemma {:induction false} LoadPrefixParts(entries: seq<Registration>, validate: Registration -> bool, n: nat)
    requires n <= |entries|
    ensures LoadPrefix(entries, validate, n).registry == Stored(entries, n)
    ensures LoadPrefix(entries, validate, n).launched == Launches(entries, validate, n)
    ensures LoadPrefix(entries, validate, n).candidate == Candidates(entries, validate, n)
    ensures LoadPrefix(entries, validate, n).origin == OriginsOf(entries, n)
    decreases n
  {
    if n > 0 {
      LoadPrefixParts(entries, validate, n - 1);
    }
  }

  // ---------------------------------------------------------------------------
  // The loop invariants, each by induction on the prefix length
  // ---------------------------------------------------------------------------

  lemma {:induction false} CandidateInvariant(entries: seq<Registration>, validate: Registration -> bool, n: nat)
    requires n <= |entries|
    ensures CandidateInv(entries, validate, n, Candidates(entries, validate, n))
    decreases n
  {
    if n > 0 {
      CandidateInvariant(entries, validate, n - 1);
      var c := Candidates(entries, validate, n - 1);
      var c' := Candidates(entries, validate, n);
      if !Elected(entries, validate, n - 1) {
        // a passing unflagged entry may fill an absent candidate; it stays unflagged
        assert Passes(entries[n - 1], validate) ==> !Prepare(entries[n - 1]).authority.flags.isDefault;
      } else if c.Some? && c.value.flags.isDefault {
        // an earlier entry was elected, so it is still the first one
        var w :| 0 <= w < n - 1 && Elected(entries, validate, w);
        forall j | 0 <= j < n && Elected(entries, validate, j) && (forall k :: 0 <= k < j ==> !Elected(entries, validate, k))
          ensures c' == Some(Prepare(entries[j]).authority)
        {
          assert j <= w;
        }
      } else {
        // no earlier entry was elected, so this one is the first
        forall j | 0 <= j < n && Elected(entries, validate, j) && (forall k :: 0 <= k < j ==> !Elected(entries, validate, k))
          ensures j == n - 1
        {
          assert j < n - 1 ==> Prepare(entries[j]).authority.flags.isDefault;
        }
      }
    }
  }

  /** One more entry adds its effective ID exactly when it registers. */
  lemma RegisteredIdsStep(entries: seq<Registration>, n: nat)
    requires n < |entries|
    ensures RegisteredIds(entries, n + 1) ==
              RegisteredIds(entries, n) + (if Registrable(entries[n]) then {EffectiveId(entries[n])} else {})
  {
    var e := entries[n];
    forall key | key in RegisteredIds(entries, n + 1)
      ensures key in RegisteredIds(entries, n) || (Registrable(e) && key == EffectiveId(e))
    {
      var i :| 0 <= i < n + 1 && Registrable(entries[i]) && EffectiveId(entries[i]) == key;
      if i < n {
        assert key in RegisteredIds(entries, n);
      }
    }
  }

  lemma KeysStep(entries: seq<Registration>, n: nat)
    requires n < |entries|
    requires KeysInv(entries, n, Stored(entries, n))
    ensures KeysInv(entries, n + 1, Stored(entries, n + 1))
  {
    assert Stored(entries, n + 1) == Register(Stored(entries, n), entries[n]).registry;
    RegisteredIdsStep(entries, n);
  }

  lemma LastWriterStep(entries: seq<Registration>, n: nat)
    requires n < |entries|
    requires LastWriterInv(entries, n, Stored(entries, n))
    ensures LastWriterInv(entries, n + 1, Stored(entries, n + 1))
  {
    var m := Register(Stored(entries, n), entries[n]).registry.authorities;
    assert Stored(entries, n + 1).authorities == m;
    forall i | LastWriter(entries, n + 1, i)
      ensures EffectiveId(entries[i]) in m && m[EffectiveId(entries[i])] == Prepare(entries[i]).authority
    {
      if i < n {
        assert LastWriter(entries, n, i);
      }
    }
  }

  lemma {:induction false} KeysInvariant(entries: seq<Registration>, n: nat)
    requires n <= |entries|
    ensures KeysInv(entries, n, Stored(entries, n))
    decreases n
  {
    if n > 0 {
      KeysInvariant(entries, n - 1);
      KeysStep(entries, n - 1);
    }
  }

  lemma {:induction false} LastWriterInvariant(entries: seq<Registration>, n: nat)
    requires n <= |entries|
    ensures LastWriterInv(entries, n, Stored(entries, n))
    decreases n
  {
    if n > 0 {
      LastWriterInvariant(entries, n - 1);
      LastWriterStep(entries, n - 1);
    }
  }

  /** The loop never sets the default ID and keeps the registry well formed. */
  lemma {:induction false} ShapeInvariant(entries: seq<Registration>, n: nat)
    requires n <= |entries|
    ensures Stored(entries, n).defaultId == ""
    ensures WellFormed(Stored(entries, n))
    decreases n
  {
    if n > 0 {
      ShapeInvariant(entries, n - 1);
      RegisterPreservesWellFormed(Stored(entries, n - 1), entries[n - 1]);
    }
  }
  /** Every stored key names the entry whose object it holds: the last entry
      registered under that key. */
  ghost predicate OriginInv(entries: seq<Registration>, n: nat, o: Origins)
    requires n <= |entries|
  {
    && o.Keys == RegisteredIds(entries, n)
    && forall k :: k in o ==> LastWriter(entries, n, o[k]) && EffectiveId(entries[o[k]]) == k
  }

  /** One more entry keeps every stored key pointing at its last writer. */
  lemma OriginValuesStep(entries: seq<Registration>, n: nat, o: Origins, o': Origins)
    requires n < |entries|
    requires o == OriginsOf(entries, n) && o' == OriginsOf(entries, n + 1)
    requires forall k :: k in o ==> LastWriter(entries, n, o[k]) && EffectiveId(entries[o[k]]) == k
    ensures forall k :: k in o' ==> LastWriter(entries, n + 1, o'[k]) && EffectiveId(entries[o'[k]]) == k
  {
    assert o' == if Registrable(entries[n]) then o[EffectiveId(entries[n]) := n] else o;
    forall k | k in o'
      ensures LastWriter(entries, n + 1, o'[k]) && EffectiveId(entries[o'[k]]) == k
    {
      if !(Registrable(entries[n]) && k == EffectiveId(entries[n])) {
        assert o'[k] == o[k];
        assert LastWriter(entries, n, o[k]);
      }
    }
  }

  lemma OriginStep(entries: seq<Registration>, n: nat)
    requires n < |entries|
    requires OriginInv(entries, n, OriginsOf(entries, n))
    ensures OriginInv(entries, n + 1, OriginsOf(entries, n + 1))
  {
    RegisteredIdsStep(entries, n);
    OriginValuesStep(entries, n, OriginsOf(entries, n), OriginsOf(entries, n + 1));
  }

  lemma {:induction false} OriginInvariant(entries: seq<Registration>, n: nat)
    requires n <= |entries|
    ensures OriginInv(entries, n, OriginsOf(entries, n))
    decreases n
  {
    if n > 0 {
      OriginInvariant(entries, n - 1);
      OriginStep(entries, n - 1);
    }
  }


  lemma LaunchStep(entries: seq<Registration>, validate: Registration -> bool, n: nat, l: seq<nat>, l': seq<nat>)
    requires n < |entries|
    requires LaunchInv(entries, validate, n, l)
    requires l' == if Passes(entries[n], validate) then l + [n] else l
    ensures LaunchInv(entries, validate, n + 1, l')
  {
    if Passes(entries[n], validate) {
      forall i ensures i in l' <==> 0 <= i < n + 1 && Passes(entries[i], validate) {
        assert i in l' <==> i in l || i == n;
      }
      forall p, q | 0 <= p < q < |l'| ensures l'[p] < l'[q] {
        if q == |l'| - 1 {
          assert l'[p] in l;
        }
      }
    }
  }

  lemma {:induction false} LaunchInvariant(entries: seq<Registration>, validate: Registration -> bool, n: nat)
    requires n <= |entries|
    ensures LaunchInv(entries, validate, n, Launches(entries, validate, n))
    decreases n
  {
    if n > 0 {
      LaunchInvariant(entries, validate, n - 1);
      LaunchStep(entries, validate, n - 1, Launches(entries, validate, n - 1), Launches(entries, validate, n));
    }
  }

  /** The least elected index, when any exists. */
  lemma LeastElected(entries: seq<Registration>, validate: Registration -> bool, j: int) returns (f: int)
    requires Elected(entries, validate, j)
    ensures Elected(entries, validate, f) && f <= j
    ensures forall k :: 0 <= k < f ==> !Elected(entries, validate, k)
    decreases j
  {
    if exists k :: 0 <= k < j && Elected(entries, validate, k) {
      var k :| 0 <= k < j && Elected(entries, validate, k);
      f := LeastElected(entries, validate, k);
    } else {
      f := j;
    }
  }

  // ---------------------------------------------------------------------------
  // Properties of NewRegistry
  // ---------------------------------------------------------------------------

  /** The default is the first entry that passes both checks and is flagged
      `Default`; with no such entry it stays empty. A later flagged entry,
      and an unflagged first entry, are never promoted. */
  lemma {:induction false} DefaultElection(entries: seq<Registration>, validate: Registration -> bool)
    ensures var d := NewRegistry(entries, validate).registry.defaultId;
            (exists j :: Elected(entries, validate, j)) <==> d != ""
    ensures var d := NewRegistry(entries, validate).registry.defaultId;
            forall j :: Elected(entries, validate, j) && (forall k :: 0 <= k < j ==> !Elected(entries, validate, k)) ==>
              d == EffectiveId(entries[j])
  {
    var n := |entries|;
    LoadPrefixParts(entries, validate, n);
    CandidateInvariant(entries, validate, n);
    var c := Candidates(entries, validate, n);
    var d := NewRegistry(entries, validate).registry.defaultId;
    if exists j :: Elected(entries, validate, j) {
      var j :| Elected(entries, validate, j);
      var f := LeastElected(entries, validate, j);
      assert c == Some(Prepare(entries[f]).authority);
      assert d == EffectiveId(entries[f]);
    } else {
      assert forall j :: 0 <= j < n ==> !Elected(entries, validate, j);
    }
  }

  /** The loaded map: a key is present exactly when some entry registered
      under it (whether or not it passed `Validate`), holding the last such
      entry; the registry is well formed and its default, if any, is stored. */
  lemma LoadedContents(entries: seq<Registration>, validate: Registration -> bool)
    ensures var m := NewRegistry(entries, validate).registry.authorities;
            forall key :: key in m <==> exists i :: 0 <= i < |entries| && Registrable(entries[i]) && EffectiveId(entries[i]) == key
    ensures var m := NewRegistry(entries, validate).registry.authorities;
            forall i :: LastWriter(entries, |entries|, i) ==> m[EffectiveId(entries[i])] == Prepare(entries[i]).authority
    ensures WellFormed(NewRegistry(entries, validate).registry)
    ensures var r := NewRegistry(entries, validate).registry;
            r.defaultId != "" ==> r.defaultId in r.authorities
  {
    LoadPrefixParts(entries, validate, |entries|);
    KeysInvariant(entries, |entries|);
    LastWriterInvariant(entries, |entries|);
    ShapeInvariant(entries, |entries|);
    DefaultElection(entries, validate);
    var r := NewRegistry(entries, validate).registry;
    if r.defaultId != "" {
      var j :| Elected(entries, validate, j);
      var f := LeastElected(entries, validate, j);
      assert r.defaultId == EffectiveId(entries[f]);
    }
  }

  /** Every stored registration is the object of one configured entry: the
      last entry registered under its key. */
  lemma LoadedOrigins(entries: seq<Registration>, validate: Registration -> bool)
    ensures var l := NewRegistry(entries, validate);
            l.origin.Keys == l.registry.authorities.Keys
    ensures var o := NewRegistry(entries, validate).origin;
            forall k :: k in o ==> LastWriter(entries, |entries|, o[k]) && EffectiveId(entries[o[k]]) == k
    ensures var o := NewRegistry(entries, validate).origin;
            forall i :: LastWriter(entries, |entries|, i) ==> EffectiveId(entries[i]) in o && o[EffectiveId(entries[i])] == i
  {
    var n := |entries|;
    LoadPrefixParts(entries, validate, n);
    OriginInvariant(entries, n);
    KeysInvariant(entries, n);
    var o := OriginsOf(entries, n);
    forall i | LastWriter(entries, n, i)
      ensures EffectiveId(entries[i]) in o && o[EffectiveId(entries[i])] == i
    {
      var k := EffectiveId(entries[i]);
      assert k in RegisteredIds(entries, n);
      var j := o[k];
      assert LastWriter(entries, n, j);
      if i < j {
        assert false;
      } else if j < i {
        assert false;
      }
    }
  }

  /** Discovery is launched exactly once for every entry passing both checks,
      in entry order, and for no other entry. */
  lemma LoadedLaunches(entries: seq<Registration>, validate: Registration -> bool)
    ensures var l := NewRegistry(entries, validate).launched;
            forall i :: i in l <==> 0 <= i < |entries| && Passes(entries[i], validate)
    ensures var l := NewRegistry(entries, validate).launched;
            forall p, q :: 0 <= p < q < |l| ==> l[p] < l[q]
  {
    LoadPrefixParts(entries, validate, |entries|);
    LaunchInvariant(entries, validate, |entries|);
  }

  /** An entry that fails `Validate` but passes `Register` is still stored
      (unless a later entry reuses its ID), yet it gets no discovery, and its
      ID becomes the default only through another, elected entry. */
  lemma InvalidButRegisteredEntry(entries: seq<Registration>, validate: Registration -> bool, i: int)
    requires 0 <= i < |entries| && Registrable(entries[i]) && !validate(entries[i])
    ensures EffectiveId(entries[i]) in NewRegistry(entries, validate).registry.authorities
    ensures LastWriter(entries, |entries|, i) ==>
              NewRegistry(entries, validate).registry.authorities[EffectiveId(entries[i])] == Prepare(entries[i]).authority
    ensures i !in NewRegistry(entries, validate).launched
    ensures NewRegistry(entries, validate).registry.defaultId == EffectiveId(entries[i]) ==>
              exists j :: j != i && Elected(entries, validate, j) && EffectiveId(entries[j]) == EffectiveId(entries[i])
  {
    LoadedContents(entries, validate);
    LoadedLaunches(entries, validate);
    DefaultElection(entries, validate);
    var d := NewRegistry(entries, validate).registry.defaultId;
    if d == EffectiveId(entries[i]) {
      var j :| Elected(entries, validate, j);
      var f := LeastElected(entries, validate, j);
      assert d == EffectiveId(entries[f]);
      assert f != i;
    }
  }

  /** With no passing `Default` entry, `Default()` reports nothing, and does
      so without an error. */
  lemma NoDefaultWithoutFlag(entries: seq<Registration>, validate: Registration -> bool)
    requires forall j :: 0 <= j < |entries| ==> !Elected(entries, validate, j)
    ensures NewRegistry(entries, validate).registry.defaultId == ""
    ensures Default(NewRegistry(entries, validate).registry).None?
  {
    DefaultElection(entries, validate);
  }

  /** `Default()` after the load describes the registration stored under the
      elected ID. */
  lemma DefaultAfterLoad(entries: seq<Registration>, validate: Registration -> bool)
    ensures var r := NewRegistry(entries, validate).registry;
            Default(r).Some? <==> exists j :: Elected(entries, validate, j)
    ensures var r := NewRegistry(entries, validate).registry;
            Default(r).Some? ==> Default(r).value.id == r.defaultId && Describes(Default(r).value, r.authorities[r.defaultId])
  {
    DefaultElection(entries, validate);
    LoadedContents(entries, validate);
  }

  /** Entries from configuration carry the zero discovery block, so right after
      the load every lookup sees a not-yet-ready authority with no endpoint
      and no keys. */
  lemma {:induction false} FreshRegistryNotReady(entries: seq<Registration>, n: nat)
    requires n <= |entries|
    requires forall i :: 0 <= i < |entries| ==> entries[i].discovery == Undiscovered
    ensures forall k :: k in Stored(entries, n).authorities ==> Stored(entries, n).authorities[k].discovery == Undiscovered
    decreases n
  {
    if n > 0 {
      FreshRegistryNotReady(entries, n - 1);
      assert Prepare(entries[n - 1]).authority.discovery == entries[n - 1].discovery;
    }
  }

  /** Right after the load, `Default()` (and every lookup) shows an authority
      that is not ready, with no endpoint and no keys. */
  lemma LoadedNotReady(entries: seq<Registration>, validate: Registration -> bool, id: string)
    requires forall i :: 0 <= i < |entries| ==> entries[i].discovery == Undiscovered
    ensures Lookup(NewRegistry(entries, validate).registry, id).Success? ==>
              Lookup(NewRegistry(entries, validate).registry, id).value.discovery == Undiscovered
    ensures Default(NewRegistry(entries, validate).registry).Some? ==>
              Default(NewRegistry(entries, validate).registry).value.discovery == Undiscovered
  {
    LoadPrefixParts(entries, validate, |entries|);
    FreshRegistryNotReady(entries, |entries|);
  }

  /** An empty configuration gives an empty registry, no launches and no default. */
  lemma EmptyConfiguration(validate: Registration -> bool)
    ensures NewRegistry([], validate) == Loaded(EmptyRegistry, [], map[])
    ensures Default(NewRegistry([], validate).registry).None?
  {
  }

  /** Two passing entries both flagged `Default` under different IDs: the
      first is the default and `Default()` returns its details. */
  lemma FirstOfTwoDefaultsWins(a: Registration, b: Registration, validate: Registration -> bool)
    requires Passes(a, validate) && a.flags.isDefault
    requires Passes(b, validate) && b.flags.isDefault
    requires EffectiveId(a) != EffectiveId(b)
    ensures NewRegistry([a, b], validate).registry.defaultId == EffectiveId(a)
    ensures Default(NewRegistry([a, b], validate).registry) == Some(Snapshot(Prepare(a).authority))
  {
    DefaultElection([a, b], validate);
    LoadedContents([a, b], validate);
    assert Elected([a, b], validate, 0);
    assert LastWriter([a, b], 2, 0);
  }

  /** Last-write-wins reaches the default: in a two-entry load, a later entry
      that reuses the elected ID replaces the stored registration, so
      `Default()` describes that later entry even though it is not flagged
      and failed `Validate`. */
  lemma DefaultShadowedByLaterEntry(a: Registration, b: Registration, validate: Registration -> bool)
    requires Passes(a, validate) && a.flags.isDefault
    requires Registrable(b) && !validate(b) && !b.flags.isDefault
    requires EffectiveId(a) == EffectiveId(b)
    ensures NewRegistry([a, b], validate).registry.defaultId == EffectiveId(a)
    ensures NewRegistry([a, b], validate).launched == [0]
    ensures NewRegistry([a, b], validate).registry.authorities[EffectiveId(a)] == Prepare(b).authority
    ensures !NewRegistry([a, b], validate).registry.authorities[EffectiveId(a)].flags.isDefault
    ensures Default(NewRegistry([a, b], validate).registry) == Some(Snapshot(Prepare(b).authority))
  {
    DefaultElection([a, b], validate);
    LoadedContents([a, b], validate);
    LoadedLaunches([a, b], validate);
    assert Elected([a, b], validate, 0);
    assert LastWriter([a, b], 2, 1);
    var l := NewRegistry([a, b], validate).launched;
    assert 0 in l;
    assert forall i :: i in l ==> i == 0;
    assert |l| == 1;
  }
}
