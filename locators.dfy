/** Locator selection and eviction (fetchLocator and deleteLocator in rest.js):
    reuse the matching locator that stays valid longest, otherwise make room and
    create a new one. */
module Locators {
  import opened MediaTypes
  import opened RestHelpers

  /** A locator is still worth reusing if it expires more than 24 hours from now. */
  const ValidityMarginMs: int := 86400000
  /** The service allows five locators per asset; at that count one is evicted. */
  const LocatorLimit: nat := 5

  /** What fetchLocator looks for: a policy, an asset (`None` for `undefined`) and
      a locator type. */
  datatype LocatorKey = LocatorKey(policyId: string, assetId: Option<string>, locatorType: int)

  predicate IsMatch(loc: Locator, key: LocatorKey)
  {
    loc.AccessPolicyId == key.policyId && key.assetId == Some(loc.AssetId)
    && loc.Type == key.locatorType
  }

  /** A matching locator that expires after `validDate`. */
  predicate IsValidMatch(loc: Locator, key: LocatorKey, validDate: int)
  {
    IsMatch(loc, key) && loc.ExpirationDateTime > validDate
  }

  /** `i` is the valid match in `ls[..n]` with the greatest expiry, the first one
      listed among equals. */
  predicate IsLatestValid(ls: seq<Locator>, key: LocatorKey, validDate: int, n: nat, i: nat)
    requires n <= |ls|
  {
    && i < n && IsValidMatch(ls[i], key, validDate)
    && (forall j :: 0 <= j < n && IsValidMatch(ls[j], key, validDate) ==>
          ls[j].ExpirationDateTime <= ls[i].ExpirationDateTime)
    && (forall j :: 0 <= j < i && IsValidMatch(ls[j], key, validDate) ==>
          ls[j].ExpirationDateTime < ls[i].ExpirationDateTime)
  }

  /** `i` is the match in `ls[..n]` with the smallest expiry, valid or not, the
      first one listed among equals. */
  predicate IsEarliestMatch(ls: seq<Locator>, key: LocatorKey, n: nat, i: nat)
    requires n <= |ls|
  {
    && i < n && IsMatch(ls[i], key)
    && (forall j :: 0 <= j < n && IsMatch(ls[j], key) ==>
          ls[i].ExpirationDateTime <= ls[j].ExpirationDateTime)
    && (forall j :: 0 <= j < i && IsMatch(ls[j], key) ==>
          ls[i].ExpirationDateTime < ls[j].ExpirationDateTime)
  }

  /** The position of `maxLocator` after the scan has seen `ls[..n]`. */
  function LatestValid(ls: seq<Locator>, key: LocatorKey, validDate: int, n: nat): (r: Option<nat>)
    requires n <= |ls|
    ensures r.Some? ==> IsLatestValid(ls, key, validDate, n, r.value)
    ensures r.None? ==> forall j :: 0 <= j < n ==> !IsValidMatch(ls[j], key, validDate)
  {
    if n == 0 then None
    else
      var prev := LatestValid(ls, key, validDate, n - 1);
      if IsValidMatch(ls[n - 1], key, validDate)
         && (prev.None? || ls[n - 1].ExpirationDateTime > ls[prev.value].ExpirationDateTime)
      then Some(n - 1)
      else prev
  }

  /** The position of `minLocator` after the scan has seen `ls[..n]`. */
  function EarliestMatch(ls: seq<Locator>, key: LocatorKey, n: nat): (r: Option<nat>)
    requires n <= |ls|
    ensures r.Some? ==> IsEarliestMatch(ls, key, n, r.value)
    ensures r.None? ==> forall j :: 0 <= j < n ==> !IsMatch(ls[j], key)
  {
    if n == 0 then None
    else
      var prev := EarliestMatch(ls, key, n - 1);
      if IsMatch(ls[n - 1], key)
         && (prev.None? || ls[n - 1].ExpirationDateTime < ls[prev.value].ExpirationDateTime)
      then Some(n - 1)
      else prev
  }

  /** The latest valid match is well defined: at most one position qualifies. */
  lemma LatestValidUnique(ls: seq<Locator>, key: LocatorKey, validDate: int, i: nat, k: nat)
    requires IsLatestValid(ls, key, validDate, |ls|, i)
    requires IsLatestValid(ls, key, validDate, |ls|, k)
    ensures i == k
  {
  }

  lemma EarliestMatchUnique(ls: seq<Locator>, key: LocatorKey, i: nat, k: nat)
    requires IsEarliestMatch(ls, key, |ls|, i)
    requires IsEarliestMatch(ls, key, |ls|, k)
    ensures i == k
  {
  }

  /** The single pass of fetchLocator over the listing: positions of the latest
      valid match and of the earliest match. */
  method ScanLocators(ls: seq<Locator>, key: LocatorKey, validDate: int)
    returns (maxLocator: Option<nat>, minLocator: Option<nat>)
    ensures maxLocator == LatestValid(ls, key, validDate, |ls|)
    ensures minLocator == EarliestMatch(ls, key, |ls|)
  {
    maxLocator, minLocator := None, None;
    for i := 0 to |ls|
      invariant maxLocator == LatestValid(ls, key, validDate, i)
      invariant minLocator == EarliestMatch(ls, key, i)
    {
      var loc := ls[i];
      if IsMatch(loc, key) {
        var expiry := loc.ExpirationDateTime;
        if expiry > validDate && maxLocator.None? {
          maxLocator := Some(i);
        } else if expiry > validDate && expiry > ls[maxLocator.value].ExpirationDateTime {
          maxLocator := Some(i);
        }
        if minLocator.None? {
          minLocator := Some(i);
        } else if expiry < ls[minLocator.value].ExpirationDateTime {
          minLocator := Some(i);
        }
      }
    }
  }

  // ---------------------------------------------------------------------------
  // deleteLocator

  /** deleteLocator as written: its error handler reads `e.response.status`, which
      throws when the request got no response at all. */
  function DeleteOutcomeAsWritten(reply: HttpReply): Outcome<bool>
  {
    match reply
    case NoResponse => Threw
    case Status(code) => Returned(200 <= code < 300)
  }

  /** deleteLocator as its contract intends: `true` once deleted, `false` on a 404
      or any other failure, including a request that got no response. */
  function DeleteOutcome(reply: HttpReply): bool
  {
    reply.Succeeded()
  }

  /** The two agree whenever the service answers; only a missing response sets
      them apart, where the written version rejects instead of returning false. */
  lemma DeleteLocatorDiscrepancy(reply: HttpReply)
    ensures reply.Status? ==> DeleteOutcomeAsWritten(reply) == Returned(DeleteOutcome(reply))
    ensures reply.NoResponse? ==> DeleteOutcomeAsWritten(reply) == Threw && !DeleteOutcome(reply)
    ensures DeleteOutcome(reply) <==> reply.Status? && 200 <= reply.code < 300
  {
  }

  // ---------------------------------------------------------------------------
  // fetchLocator

  /** fetchLocator at time `now`, given the listing the service returns (`None`
      for a failed listing) and the locator it returns on creation. A failed
      listing, an invalid start time or a failed creation rejects. */
  function FetchLocatorSpec(key: LocatorKey, now: int, listing: Option<seq<Locator>>,
                            created: Option<Locator>): Exchange<Outcome<Locator>>
  {
    match listing
    case None => Exchange(Threw, [GetLocators])
    case Some(ls) =>
      match LatestValid(ls, key, now + ValidityMarginMs, |ls|)
      case Some(i) => Exchange(Returned(ls[i]), [GetLocators])
      case None =>
        var eviction := Eviction(ls, key);
        match LocatorStartTime(now)
        case None => Exchange(Threw, [GetLocators] + eviction)
        case Some(start) =>
          var sent := [GetLocators] + eviction + [CreationRequest(key, start)];
          match created
          case None => Exchange(Threw, sent)
          case Some(loc) => Exchange(Returned(loc), sent)
  }

  /** The delete fetchLocator issues before creating: only when the whole listing
      holds exactly five locators and at least one matches. */
  function Eviction(ls: seq<Locator>, key: LocatorKey): seq<Request>
  {
    if |ls| == LocatorLimit then
      match EarliestMatch(ls, key, |ls|)
      case None => []
      case Some(j) => [DeleteLocator(ls[j].Id)]
    else []
  }

  function CreationRequest(key: LocatorKey, start: string): Request
  {
    CreateLocator(key.policyId, key.assetId, key.locatorType, start,
                  LocatorName(DefaultLocatorName, key.locatorType))
  }

  /** fetchLocator with the corrected deleteLocator: the outcome of the eviction,
      whatever the service answers, does not change what happens next. */
  method FetchLocator(key: LocatorKey, now: int, listing: Option<seq<Locator>>,
                      created: Option<Locator>)
    returns (r: Exchange<Outcome<Locator>>)
    ensures r == FetchLocatorSpec(key, now, listing, created)
  {
    var sent := [GetLocators];
    if listing.None? {
      return Exchange(Threw, sent);
    }
    var ls := listing.value;
    var maxLocator, minLocator := ScanLocators(ls, key, now + ValidityMarginMs);
    if maxLocator.Some? {
      return Exchange(Returned(ls[maxLocator.value]), sent);
    }
    if |ls| == LocatorLimit && minLocator.Some? {
      sent := sent + [DeleteLocator(ls[minLocator.value].Id)];
    }
    assert sent == [GetLocators] + Eviction(ls, key);
    var start := LocatorStartTime(now);
    if start.None? {
      return Exchange(Threw, sent);
    }
    sent := sent + [CreationRequest(key, start.value)];
    if created.None? {
      return Exchange(Threw, sent);
    }
    return Exchange(Returned(created.value), sent);
  }

  /** fetchLocator as written: it awaits deleteLocator as written, so an eviction
      whose request gets no response rejects before any locator is created.
      `deleteReply` is the service's answer to the eviction, if one is sent. */
  function FetchLocatorAsWrittenSpec(key: LocatorKey, now: int, listing: Option<seq<Locator>>,
                                     deleteReply: HttpReply, created: Option<Locator>)
    : Exchange<Outcome<Locator>>
  {
    match listing
    case None => Exchange(Threw, [GetLocators])
    case Some(ls) =>
      match LatestValid(ls, key, now + ValidityMarginMs, |ls|)
      case Some(i) => Exchange(Returned(ls[i]), [GetLocators])
      case None =>
        var eviction := Eviction(ls, key);
        if eviction != [] && DeleteOutcomeAsWritten(deleteReply).Threw? then
          Exchange(Threw, [GetLocators] + eviction)
        else
          match LocatorStartTime(now)
          case None => Exchange(Threw, [GetLocators] + eviction)
          case Some(start) =>
            var sent := [GetLocators] + eviction + [CreationRequest(key, start)];
            match created
            case None => Exchange(Threw, sent)
            case Some(loc) => Exchange(Returned(loc), sent)
  }

  /** The written fetchLocator and the corrected one agree whenever the service
      answers the eviction, or none is sent; when a sent eviction gets no
      response, the written one rejects and creates nothing, while the corrected
      one goes on to create a locator. */
  lemma FetchLocatorDiscrepancy(key: LocatorKey, now: int, ls: seq<Locator>,
                                deleteReply: HttpReply, created: Option<Locator>)
    ensures deleteReply.Status? || Eviction(ls, key) == [] ==>
              FetchLocatorAsWrittenSpec(key, now, Some(ls), deleteReply, created)
                == FetchLocatorSpec(key, now, Some(ls), created)
    ensures deleteReply.NoResponse? && Eviction(ls, key) != []
            && LatestValid(ls, key, now + ValidityMarginMs, |ls|).None? ==>
              && FetchLocatorAsWrittenSpec(key, now, Some(ls), deleteReply, created)
                   == Exchange(Threw, [GetLocators] + Eviction(ls, key))
              && (LocatorStartTime(now).Some? && created.Some? ==>
                    FetchLocatorSpec(key, now, Some(ls), created).result == Returned(created.value))
  {
  }

  // ---------------------------------------------------------------------------
  // Properties of fetchLocator

  /** With a valid match listed, fetchLocator returns the latest valid one (the
      first listed among equals) and neither deletes nor creates anything. */
  lemma ReusesLatestValid(key: LocatorKey, now: int, ls: seq<Locator>, created: Option<Locator>, i: nat)
    requires i < |ls| && IsValidMatch(ls[i], key, now + ValidityMarginMs)
    ensures var r := FetchLocatorSpec(key, now, Some(ls), created);
            && r.sent == [GetLocators]
            && exists k: nat :: IsLatestValid(ls, key, now + ValidityMarginMs, |ls|, k)
                           && r.result == Returned(ls[k])
  {
    var k := LatestValid(ls, key, now + ValidityMarginMs, |ls|).value;
    assert IsLatestValid(ls, key, now + ValidityMarginMs, |ls|, k);
  }

  /** A delete is sent exactly when no valid match exists, the listing holds five
      locators and one of them matches; it names the earliest match. */
  lemma EvictsOnlyWhenFull(key: LocatorKey, now: int, ls: seq<Locator>, created: Option<Locator>, id: string)
    ensures var sent := FetchLocatorSpec(key, now, Some(ls), created).sent;
            DeleteLocator(id) in sent <==>
              && (forall j :: 0 <= j < |ls| ==> !IsValidMatch(ls[j], key, now + ValidityMarginMs))
              && |ls| == LocatorLimit
              && exists k: nat :: IsEarliestMatch(ls, key, |ls|, k) && ls[k].Id == id
  {
    var latest := LatestValid(ls, key, now + ValidityMarginMs, |ls|);
    var earliest := EarliestMatch(ls, key, |ls|);
    DeletesAreEviction(key, now, ls, created, id);
    if latest.None? && |ls| == LocatorLimit && earliest.Some? {
      assert Eviction(ls, key) == [DeleteLocator(ls[earliest.value].Id)];
      forall k: nat | IsEarliestMatch(ls, key, |ls|, k) && ls[k].Id == id
        ensures DeleteLocator(id) in Eviction(ls, key)
      {
        EarliestMatchUnique(ls, key, k, earliest.value);
      }
    } else if latest.Some? {
      assert IsValidMatch(ls[latest.value], key, now + ValidityMarginMs);
    } else {
      assert Eviction(ls, key) == [];
    }
  }

  /** The only deletes fetchLocator sends are its eviction, sent when no valid
      match exists. */
  lemma DeletesAreEviction(key: LocatorKey, now: int, ls: seq<Locator>, created: Option<Locator>, id: string)
    ensures DeleteLocator(id) in FetchLocatorSpec(key, now, Some(ls), created).sent <==>
              LatestValid(ls, key, now + ValidityMarginMs, |ls|).None? && DeleteLocator(id) in Eviction(ls, key)
  {
    var sent := FetchLocatorSpec(key, now, Some(ls), created).sent;
    if LatestValid(ls, key, now + ValidityMarginMs, |ls|).None? {
      var e := Eviction(ls, key);
      match LocatorStartTime(now)
      case None =>
        assert sent == [GetLocators] + e;
      case Some(start) =>
        assert sent == [GetLocators] + e + [CreationRequest(key, start)];
    }
  }

  /** Without a valid match, a locator is created whether or not the eviction
      succeeds, named after its type and starting five minutes before `now`. */
  lemma CreatesWhenNoneValid(key: LocatorKey, now: int, ls: seq<Locator>, created: Option<Locator>)
    requires forall j :: 0 <= j < |ls| ==> !IsValidMatch(ls[j], key, now + ValidityMarginMs)
    requires LocatorStartTime(now).Some?
    ensures var r := FetchLocatorSpec(key, now, Some(ls), created);
            && r.sent[|r.sent| - 1] == CreateLocator(key.policyId, key.assetId, key.locatorType,
                                                      LocatorStartTime(now).value,
                                                      LocatorName(DefaultLocatorName, key.locatorType))
            && (r.result.Returned? <==> created.Some?)
            && (created.Some? ==> r.result.value == created.value)
  {
  }

  /** Where a returned locator comes from: a listed locator valid for another
      24 hours that matches the key, or the one the service just created. */
  predicate LocatorFrom(loc: Locator, key: LocatorKey, now: int, listing: Option<seq<Locator>>,
                        created: Option<Locator>)
  {
    (listing.Some? && loc in listing.value && IsValidMatch(loc, key, now + ValidityMarginMs))
    || created == Some(loc)
  }

  /** fetchLocator never returns a stale, foreign or mismatched listed locator. */
  lemma ReturnedLocatorOrigin(key: LocatorKey, now: int, listing: Option<seq<Locator>>, created: Option<Locator>)
    ensures var r := FetchLocatorSpec(key, now, listing, created);
            r.result.Returned? ==> LocatorFrom(r.result.value, key, now, listing, created)
  {
    if listing.Some? {
      var ls := listing.value;
      var latest := LatestValid(ls, key, now + ValidityMarginMs, |ls|);
      if latest.Some? {
        assert ls[latest.value] in ls;
      }
    }
  }

  /** fetchLocator lists, may delete, and creates only a locator for its key,
      named after the key's type. */
  lemma LocatorRequests(key: LocatorKey, now: int, listing: Option<seq<Locator>>, created: Option<Locator>)
    ensures forall q :: q in FetchLocatorSpec(key, now, listing, created).sent ==>
              q == GetLocators || q.DeleteLocator?
              || (q.CreateLocator? && q.policyId == key.policyId && q.assetId == key.assetId
                  && q.locatorType == key.locatorType && q.locatorName == LocatorName(DefaultLocatorName, key.locatorType))
  {
    if listing.Some? {
      var ls := listing.value;
      assert forall q :: q in Eviction(ls, key) ==> q.DeleteLocator?;
    }
  }
}
