/** The fetch-or-create scans of rest.js: fetchOrCreateAccessPolicy and
    fetchOrCreateAsset return the first listed entity that matches and create
    one only when none does and a name was given. */
module FetchOrCreate {
  import opened MediaTypes

  /** Every policy the client creates lasts three years. */
  const PolicyDurationInMinutes: int := 1576800

  /** The first position of `s` whose element satisfies `p`. */
  function FirstIndex<T>(s: seq<T>, p: T -> bool): (r: Option<nat>)
    ensures r.Some? ==> r.value < |s| && p(s[r.value]) && forall j :: 0 <= j < r.value ==> !p(s[j])
    ensures r.None? ==> forall j :: 0 <= j < |s| ==> !p(s[j])
  {
    if s == [] then None
    else if p(s[0]) then Some(0)
    else match FirstIndex(s[1..], p)
      case None => None
      case Some(k) => Some(k + 1)
  }

  // ---------------------------------------------------------------------------
  // fetchOrCreateAccessPolicy

  /** A listed policy with the requested name and permissions. */
  predicate PolicyMatches(p: AccessPolicy, name: string, policyType: int)
  {
    p.Name == name && p.Permissions == policyType
  }

  function PolicyTest(name: string, policyType: int): AccessPolicy -> bool
  {
    (p: AccessPolicy) => PolicyMatches(p, name, policyType)
  }

  /** The test as written: it compares a `Type` field, while policies are created
      with (and listed with) `Permissions`. */
  predicate PolicyMatchesAsWritten(p: AccessPolicy, name: string, policyType: int)
  {
    p.Name == name && p.Type == Some(policyType)
  }

  function PolicyTestAsWritten(name: string, policyType: int): AccessPolicy -> bool
  {
    (p: AccessPolicy) => PolicyMatchesAsWritten(p, name, policyType)
  }

  /** fetchOrCreateAccessPolicy with the match test `matches`: a failed listing is
      dereferenced and rejects; a matching policy is returned; otherwise a named
      policy is created (the service's reply is `created`) and an unnamed one
      yields null. */
  function FetchOrCreatePolicyWith(matches: AccessPolicy -> bool, name: string, policyType: int,
                                   listing: Option<seq<AccessPolicy>>, created: Option<AccessPolicy>)
    : Exchange<Outcome<Option<AccessPolicy>>>
  {
    match listing
    case None => Exchange(Threw, [GetAccessPolicies])
    case Some(ps) =>
      match FirstIndex(ps, matches)
      case Some(i) => Exchange(Returned(Some(ps[i])), [GetAccessPolicies])
      case None =>
        if name != "" then
          Exchange(Returned(created), [GetAccessPolicies, CreateAccessPolicy(name, PolicyDurationInMinutes, policyType)])
        else Exchange(Returned(None), [GetAccessPolicies])
  }

  /** fetchOrCreateAccessPolicy, matching on the permissions it creates policies with. */
  function FetchOrCreatePolicySpec(name: string, policyType: int, listing: Option<seq<AccessPolicy>>,
                                   created: Option<AccessPolicy>): Exchange<Outcome<Option<AccessPolicy>>>
  {
    FetchOrCreatePolicyWith(PolicyTest(name, policyType), name, policyType, listing, created)
  }

  /** fetchOrCreateAccessPolicy as written, matching on `Type`. */
  function FetchOrCreatePolicyAsWritten(name: string, policyType: int, listing: Option<seq<AccessPolicy>>,
                                        created: Option<AccessPolicy>): Exchange<Outcome<Option<AccessPolicy>>>
  {
    FetchOrCreatePolicyWith(PolicyTestAsWritten(name, policyType), name, policyType, listing, created)
  }

  method FetchOrCreateAccessPolicy(name: string, policyType: int, listing: Option<seq<AccessPolicy>>,
                                   created: Option<AccessPolicy>)
    returns (r: Exchange<Outcome<Option<AccessPolicy>>>)
    ensures r == FetchOrCreatePolicySpec(name, policyType, listing, created)
  {
    if listing.None? {
      return Exchange(Threw, [GetAccessPolicies]);
    }
    var policies := listing.value;
    for i := 0 to |policies|
      invariant forall j :: 0 <= j < i ==> !PolicyMatches(policies[j], name, policyType)
    {
      if policies[i].Name == name && policies[i].Permissions == policyType {
        return Exchange(Returned(Some(policies[i])), [GetAccessPolicies]);
      }
    }
    if name != "" {
      return Exchange(Returned(created), [GetAccessPolicies, CreateAccessPolicy(name, PolicyDurationInMinutes, policyType)]);
    } else {
      return Exchange(Returned(None), [GetAccessPolicies]);
    }
  }

  /** With a matching policy listed, the first one is returned and nothing is created. */
  lemma PolicyReused(name: string, policyType: int, ps: seq<AccessPolicy>, created: Option<AccessPolicy>, i: nat)
    requires i < |ps| && PolicyMatches(ps[i], name, policyType)
    ensures var r := FetchOrCreatePolicySpec(name, policyType, Some(ps), created);
            && r.sent == [GetAccessPolicies]
            && exists k: nat :: k <= i && r.result == Returned(Some(ps[k]))
                                && PolicyMatches(ps[k], name, policyType)
                                && forall j :: 0 <= j < k ==> !PolicyMatches(ps[j], name, policyType)
  {
    var k := FirstIndex(ps, PolicyTest(name, policyType));
    assert k.Some?;
  }

  /** Without a match, a named policy is created for three years with the
      requested permissions, and the service's reply is returned; an empty
      name creates nothing and yields null. */
  lemma PolicyCreated(name: string, policyType: int, ps: seq<AccessPolicy>, created: Option<AccessPolicy>)
    requires forall j :: 0 <= j < |ps| ==> !PolicyMatches(ps[j], name, policyType)
    ensures var r := FetchOrCreatePolicySpec(name, policyType, Some(ps), created);
            && (name != "" ==> r == Exchange(Returned(created),
                                   [GetAccessPolicies, CreateAccessPolicy(name, PolicyDurationInMinutes, policyType)]))
            && (name == "" ==> r == Exchange(Returned(None), [GetAccessPolicies]))
  {
  }

  /** Fetch-or-create is idempotent: once the created policy is listed, a second
      call returns it instead of creating another. */
  lemma {:induction false} PolicyIdempotent(name: string, policyType: int, ps: seq<AccessPolicy>, p: AccessPolicy)
    requires name != ""
    requires FetchOrCreatePolicySpec(name, policyType, Some(ps), Some(p)).sent ==
             [GetAccessPolicies, CreateAccessPolicy(name, PolicyDurationInMinutes, policyType)]
    requires p.Name == name && p.Permissions == policyType
    ensures FetchOrCreatePolicySpec(name, policyType, Some(ps + [p]), None) ==
            Exchange(Returned(Some(p)), [GetAccessPolicies])
  {
    var matches := PolicyTest(name, policyType);
    assert FirstIndex(ps, matches).None?;
    var qs := ps + [p];
    forall j | 0 <= j < |ps| ensures !matches(qs[j]) {
      assert qs[j] == ps[j];
    }
    assert matches(qs[|ps|]);
    assert FirstIndex(qs, matches) == Some(|ps|);
  }

  /** The written test never reuses a policy listed without a `Type` field: it
      creates a new one on every call, even right beside a policy of the same name
      and permissions that the corrected test reuses. */
  lemma PolicyAsWrittenNeverReuses(name: string, policyType: int, ps: seq<AccessPolicy>, created: Option<AccessPolicy>)
    requires name != ""
    requires forall j :: 0 <= j < |ps| ==> ps[j].Type.None?
    ensures FetchOrCreatePolicyAsWritten(name, policyType, Some(ps), created).sent ==
            [GetAccessPolicies, CreateAccessPolicy(name, PolicyDurationInMinutes, policyType)]
  {
  }

  lemma PolicyAsWrittenExample()
    ensures var listed := AccessPolicy("nb:pid:1", "TravUploadPolicy", PolicyDurationInMinutes, 2, None);
            && FetchOrCreatePolicyAsWritten("TravUploadPolicy", 2, Some([listed]), None).sent
               == [GetAccessPolicies, CreateAccessPolicy("TravUploadPolicy", PolicyDurationInMinutes, 2)]
            && FetchOrCreatePolicySpec("TravUploadPolicy", 2, Some([listed]), None)
               == Exchange(Returned(Some(listed)), [GetAccessPolicies])
  {
    var listed := AccessPolicy("nb:pid:1", "TravUploadPolicy", PolicyDurationInMinutes, 2, None);
    PolicyAsWrittenNeverReuses("TravUploadPolicy", 2, [listed], None);
    PolicyReused("TravUploadPolicy", 2, [listed], None, 0);
  }

  // ---------------------------------------------------------------------------
  // fetchOrCreateAsset

  function AssetTest(name: string): Asset -> bool
  {
    (a: Asset) => a.Name == name
  }

  /** fetchOrCreateAsset: a failed listing counts as an empty one; the first asset
      of that name is returned; otherwise a named asset is created (the service's
      reply is `created`) and an unnamed one yields null. */
  function FetchOrCreateAssetSpec(name: string, listing: Option<seq<Asset>>, created: Option<Asset>)
    : Exchange<Option<Asset>>
  {
    var found := if listing.None? then None else FirstIndex(listing.value, AssetTest(name));
    match found
    case Some(i) => Exchange(Some(listing.value[i]), [GetAssets])
    case None =>
      if name != "" then Exchange(created, [GetAssets, CreateAsset(name)])
      else Exchange(None, [GetAssets])
  }

  method FetchOrCreateAsset(name: string, listing: Option<seq<Asset>>, created: Option<Asset>)
    returns (r: Exchange<Option<Asset>>)
    ensures r == FetchOrCreateAssetSpec(name, listing, created)
  {
    if listing.Some? {
      var assets := listing.value;
      for i := 0 to |assets|
        invariant forall j :: 0 <= j < i ==> assets[j].Name != name
      {
        if assets[i].Name == name {
          return Exchange(Some(assets[i]), [GetAssets]);
        }
      }
    }
    if name != "" {
      return Exchange(created, [GetAssets, CreateAsset(name)]);
    } else {
      return Exchange(None, [GetAssets]);
    }
  }

  /** The first asset of the requested name is returned and nothing is created;
      a failed listing behaves like an empty one. */
  lemma AssetReused(name: string, assets: seq<Asset>, created: Option<Asset>, i: nat)
    requires i < |assets| && assets[i].Name == name
    ensures var r := FetchOrCreateAssetSpec(name, Some(assets), created);
            && r.sent == [GetAssets]
            && exists k: nat :: k <= i && r.result == Some(assets[k]) && assets[k].Name == name
                                && forall j :: 0 <= j < k ==> assets[j].Name != name
  {
    var k := FirstIndex(assets, AssetTest(name));
    assert k.Some?;
  }

  lemma AssetFailedListingIsEmpty(name: string, created: Option<Asset>)
    ensures FetchOrCreateAssetSpec(name, None, created) == FetchOrCreateAssetSpec(name, Some([]), created)
    ensures name != "" ==> FetchOrCreateAssetSpec(name, None, created) == Exchange(created, [GetAssets, CreateAsset(name)])
    ensures name == "" ==> FetchOrCreateAssetSpec(name, None, created) == Exchange(None, [GetAssets])
  {
  }

  /** Once the created asset is listed, a second call returns it. */
  lemma {:induction false} AssetIdempotent(name: string, assets: seq<Asset>, a: Asset)
    requires name != "" && a.Name == name
    requires FetchOrCreateAssetSpec(name, Some(assets), Some(a)).sent == [GetAssets, CreateAsset(name)]
    ensures FetchOrCreateAssetSpec(name, Some(assets + [a]), None) == Exchange(Some(a), [GetAssets])
  {
    var matches := AssetTest(name);
    assert FirstIndex(assets, matches).None?;
    var qs := assets + [a];
    forall j | 0 <= j < |assets| ensures !matches(qs[j]) {
      assert qs[j] == assets[j];
    }
    assert matches(qs[|assets|]);
    assert FirstIndex(qs, matches) == Some(|assets|);
  }

  /** fetchOrCreateAccessPolicy lists policies and creates, if anything, only the
      policy it was asked for. */
  lemma PolicyRequests(name: string, policyType: int, listing: Option<seq<AccessPolicy>>, created: Option<AccessPolicy>)
    ensures forall q :: q in FetchOrCreatePolicySpec(name, policyType, listing, created).sent ==>
              q == GetAccessPolicies || q == CreateAccessPolicy(name, PolicyDurationInMinutes, policyType)
  {
  }
}
