/**
 * The CSR signing reconciler: the guard chain, the decision one reconcile
 * takes, and `Reconcile` itself as a method over the cluster state it reads
 * and patches. Signing, `Get` and `Patch` are oracles passed in by the
 * caller: a signing function, a failure flag for `Get`, and the response
 * to the status patch.
 */
module Controller {
  import opened Wrappers
  import opened GoStrings
  import opened CertificatesApi
  import opened Approval
  import opened Resolver
  import opened Publish

  /** Why the guard chain or the resolver skips a request; none of these is an error. */
  datatype SkipReason = Deleted | NoSignerName | AlreadySigned | NotApproved | IssuerNotFound

  /** The guard chain's verdict. */
  datatype Eligibility = Skip(reason: SkipReason) | Proceed

  /** `csrapi.SignRequest`: the PEM request and the chosen profile. */
  datatype SignRequest = SignRequest(request: string, profile: string)

  /** `issuer.Sign`, reduced to the signed PEM it returns or the error it reports. */
  type Signer = SignRequest -> Result<string, string>

  /**
   * How the status patch went. `AppliedThenFailed` is a patch the API server
   * committed while the client still reported an error (a timeout after the
   * write, a lost response).
   */
  datatype PatchResponse = Applied | Rejected | AppliedThenFailed

  /**
   * What one call of `Reconcile` ends with. Only the three `...Failed`
   * outcomes return an error; `PatchFailed` and `Signed` carry the
   * certificate that was sent in the patch.
   */
  datatype Outcome =
    | Skipped(reason: SkipReason)
    | GetFailed
    | SignFailed
    | PatchFailed(certificate: string)
    | Signed(certificate: string)

  predicate ReturnsError(o: Outcome) {
    o.GetFailed? || o.SignFailed? || o.PatchFailed?
  }

  /** `issuer.Sign` was invoked on the way to this outcome. */
  predicate SignInvoked(o: Outcome) {
    o.SignFailed? || o.PatchFailed? || o.Signed?
  }

  /** An event recorded against an object. */
  datatype Event = Event(object: NamespacedName, eventType: string, reason: string, message: string)

  function SignedEvent(name: NamespacedName): Event {
    Event(name, "Normal", "Signed", "The CSR has been signed")
  }

  /** `Client.Get`: the stored object, `NotFound`, or a transport failure. */
  datatype GetError = NotFound | Unavailable

  function Get(objects: map<NamespacedName, Csr>, name: NamespacedName, unavailable: bool): Result<Csr, GetError> {
    if unavailable then Failure(Unavailable)
    else if name in objects then Success(objects[name])
    else Failure(NotFound)
  }

  // ---------------------------------------------------------------------------
  // The decision, as functions

  /** The `switch` of `Reconcile`: the first guard that matches wins. */
  function Guard(csr: Csr): Eligibility {
    if !IsZero(csr.deletionTimestamp) then Skip(Deleted)
    else if csr.signerName == "" then Skip(NoSignerName)
    else if csr.certificate.Some? then Skip(AlreadySigned)
    else if !IsApproved(csr.conditions) then Skip(NotApproved)
    else Proceed
  }

  /**
   * The outcome of one reconcile of the object fetched as `fetched`, when
   * signing behaves as `sign` and the status patch gets the response `patch`.
   * A `NotFound` fetch continues with the zero-value object.
   */
  function Decide(fetched: Result<Csr, GetError>, authority: Authority, sign: Signer, patch: PatchResponse): Outcome {
    if fetched.Failure? && fetched.error == Unavailable then GetFailed
    else
      var csr := if fetched.Success? then fetched.value else ZeroCsr;
      match Guard(csr)
      case Skip(reason) => Skipped(reason)
      case Proceed =>
        var resolution := FindIssuer(authority, csr.signerName);
        if resolution.issuer.None? then Skipped(IssuerNotFound)
        else
          var signed := sign(SignRequest(csr.request, resolution.profile));
          if signed.Failure? then SignFailed
          else
            var certificate := PublishedCertificate(signed.value, resolution.issuer.value.chainPem);
            if patch == Applied then Signed(certificate) else PatchFailed(certificate)
  }

  /** The cluster state as the reconciler sees it: stored objects and recorded events. */
  datatype ClusterState = ClusterState(objects: map<NamespacedName, Csr>, events: seq<Event>)

  /** One delivery of a reconcile request, with the behaviour of the oracles for that attempt. */
  datatype Delivery = Delivery(name: NamespacedName, getUnavailable: bool, sign: Signer, patch: PatchResponse)

  /** The patch of this outcome reached the stored object. */
  predicate Committed(o: Outcome, patch: PatchResponse) {
    o.Signed? || (o.PatchFailed? && patch == AppliedThenFailed)
  }

  /**
   * The state after reconciling `d`: a committed patch sets the certificate;
   * only a `Signed` outcome also records the event.
   */
  function Step(authority: Authority, s: ClusterState, d: Delivery): ClusterState {
    var outcome := Decide(Get(s.objects, d.name, d.getUnavailable), authority, d.sign, d.patch);
    if Committed(outcome, d.patch) && d.name in s.objects then
      ClusterState(
        s.objects[d.name := s.objects[d.name].(certificate := Some(outcome.certificate))],
        if outcome.Signed? then s.events + [SignedEvent(d.name)] else s.events)
    else s
  }

  /** Reconciling a sequence of deliveries, one after another. */
  function Run(authority: Authority, s: ClusterState, deliveries: seq<Delivery>): ClusterState
    decreases |deliveries|
  {
    if deliveries == [] then s
    else Run(authority, Step(authority, s, deliveries[0]), deliveries[1..])
  }

  // ---------------------------------------------------------------------------
  // The reconciler

  class Reconciler {
    /** The authority's profile-to-issuer table, fixed at start-up. */
    const authority: Authority
    /** The objects the API server stores, reached through the client. */
    var objects: map<NamespacedName, Csr>
    /** The events the event recorder has emitted. */
    var events: seq<Event>

    constructor (authority: Authority, objects: map<NamespacedName, Csr>)
      ensures this.authority == authority && this.objects == objects && events == []
    {
      this.authority := authority;
      this.objects := objects;
      events := [];
    }

    function State(): ClusterState
      reads this
    {
      ClusterState(objects, events)
    }

    /**
     * `Reconcile`. Fetches the object (a `NotFound` leaves the zero value),
     * runs the guard chain, resolves the issuer, signs, builds the published
     * PEM, patches `status.certificate` against a copy taken before the change,
     * and records the `Signed` event only once the patch has succeeded.
     */
    method Reconcile(name: NamespacedName, getUnavailable: bool, sign: Signer, response: PatchResponse)
      returns (outcome: Outcome)
      modifies this
      ensures outcome == Decide(Get(old(objects), name, getUnavailable), authority, sign, response)
      ensures State() == Step(authority, old(State()), Delivery(name, getUnavailable, sign, response))
    {
      var csr := ZeroCsr;
      var fetched := Get(objects, name, getUnavailable);
      if fetched.Failure? && fetched.error != NotFound {
        return GetFailed;
      }
      if fetched.Success? {
        csr := fetched.value;
      }

      if !IsZero(csr.deletionTimestamp) {
        return Skipped(Deleted);
      } else if csr.signerName == "" {
        return Skipped(NoSignerName);
      } else if csr.certificate.Some? {
        return Skipped(AlreadySigned);
      }
      var approved := IsCertificateRequestApproved(csr);
      if !approved {
        return Skipped(NotApproved);
      }

      var resolution := FindIssuer(authority, csr.signerName);
      if resolution.issuer.None? {
        return Skipped(IssuerNotFound);
      }
      var issuer := resolution.issuer.value;
      var signed := sign(SignRequest(csr.request, resolution.profile));
      if signed.Failure? {
        return SignFailed;
      }

      var raw := signed.value;
      if |issuer.chainPem| > 0 {
        raw := TrimSpace(raw) + "\n" + TrimSpace(issuer.chainPem);
      }
      var base := csr;
      csr := csr.(certificate := Some(TrimSpace(raw)));
      var patch := MergeFrom(base, csr);
      assert name in objects && objects[name] == base;
      if response != Rejected {
        objects := objects[name := ServerPatch(objects[name], patch).value];
      }
      if response != Applied {
        return PatchFailed(csr.certificate.value);
      }
      events := events + [SignedEvent(name)];
      outcome := Signed(csr.certificate.value);
    }
  }

  // ---------------------------------------------------------------------------
  // Properties of one reconcile

  /** The guard chain proceeds exactly when no guard matches. */
  lemma GuardProceeds(csr: Csr)
    ensures Guard(csr) == Proceed <==>
      && IsZero(csr.deletionTimestamp) && csr.signerName != ""
      && csr.certificate.None? && CertificateDenied !in Kinds(csr.conditions)
  {
    KindsMembership(csr.conditions, CertificateDenied);
  }

  /** A deleted request is skipped whatever its signer name, conditions or status. */
  lemma DeletedNeverSigned(csr: Csr, authority: Authority, sign: Signer, patch: PatchResponse)
    requires !IsZero(csr.deletionTimestamp)
    ensures Decide(Success(csr), authority, sign, patch) == Skipped(Deleted)
  {
  }

  /**
   * An empty signer name is skipped before the resolver or the signer is
   * reached; a `NotFound` fetch ends the same way, as a no-op success.
   */
  lemma EmptySignerSkipped(csr: Csr, authority: Authority, sign: Signer, patch: PatchResponse)
    requires IsZero(csr.deletionTimestamp) && csr.signerName == ""
    ensures Decide(Success(csr), authority, sign, patch) == Skipped(NoSignerName)
    ensures Decide(Failure(NotFound), authority, sign, patch) == Skipped(NoSignerName)
  {
  }

  /** A request whose certificate is already set, even to an empty value, is not signed again. */
  lemma AlreadySignedSkipped(csr: Csr, authority: Authority, sign: Signer, patch: PatchResponse)
    requires IsZero(csr.deletionTimestamp) && csr.signerName != "" && csr.certificate.Some?
    ensures Decide(Success(csr), authority, sign, patch) == Skipped(AlreadySigned)
  {
  }

  /** Signing is reached exactly when the guard chain proceeds and the signer name resolves. */
  lemma SigningReachedIff(csr: Csr, authority: Authority, sign: Signer, patch: PatchResponse)
    ensures SignInvoked(Decide(Success(csr), authority, sign, patch)) <==>
      && IsZero(csr.deletionTimestamp) && csr.signerName != "" && csr.certificate.None?
      && CertificateDenied !in Kinds(csr.conditions)
      && FindIssuer(authority, csr.signerName).issuer.Some?
  {
    GuardProceeds(csr);
  }

  /**
   * A successful reconcile publishes the certificate built from what the
   * issuer of the named profile signed for this request.
   */
  lemma SignedPublishesIssuerOutput(csr: Csr, authority: Authority, claimed: string, profile: string, sign: Signer)
    requires Guard(csr) == Proceed
    requires csr.signerName == claimed + "/" + profile
    requires '/' !in claimed && '/' !in profile
    requires profile in authority && authority[profile].issuerLabel == claimed
    requires sign(SignRequest(csr.request, profile)).Success?
    ensures Decide(Success(csr), authority, sign, Applied) ==
      Signed(PublishedCertificate(sign(SignRequest(csr.request, profile)).value, authority[profile].chainPem))
  {
    FindIssuerOfPair(authority, claimed, profile);
  }

  /** An unresolved signer name is a skip, not an error: nothing is signed and nothing changes. */
  lemma UnresolvedIsQuietSkip(authority: Authority, s: ClusterState, d: Delivery)
    requires d.name in s.objects && !d.getUnavailable
    requires Guard(s.objects[d.name]) == Proceed
    requires FindIssuer(authority, s.objects[d.name].signerName).issuer.None?
    ensures var o := Decide(Get(s.objects, d.name, d.getUnavailable), authority, d.sign, d.patch);
      o == Skipped(IssuerNotFound) && !ReturnsError(o) && !SignInvoked(o)
    ensures Step(authority, s, d) == s
  {
  }

  /** A signing error is returned, and the certificate, the objects and the events stay as they were. */
  lemma SignErrorChangesNothing(authority: Authority, s: ClusterState, d: Delivery)
    requires d.name in s.objects && !d.getUnavailable
    requires Guard(s.objects[d.name]) == Proceed
    requires var r := FindIssuer(authority, s.objects[d.name].signerName);
      r.issuer.Some? && d.sign(SignRequest(s.objects[d.name].request, r.profile)).Failure?
    ensures var o := Decide(Get(s.objects, d.name, d.getUnavailable), authority, d.sign, d.patch);
      o == SignFailed && ReturnsError(o)
    ensures Step(authority, s, d) == s
  {
  }

  /**
   * When the patch fails the reconcile never ends signed: once signing was
   * attempted an error is returned, and no event is recorded. A rejected
   * patch changes nothing at all.
   */
  lemma PatchFailureRecordsNoEvent(authority: Authority, s: ClusterState, d: Delivery)
    requires d.patch != Applied
    ensures var o := Decide(Get(s.objects, d.name, d.getUnavailable), authority, d.sign, d.patch);
      !o.Signed? && (SignInvoked(o) ==> ReturnsError(o))
    ensures Step(authority, s, d).events == s.events
    ensures d.patch == Rejected ==> Step(authority, s, d) == s
  {
  }

  /**
   * A patch the server committed although the client saw an error: the
   * reconcile returns an error and records no event, yet the certificate is
   * stored, so no later delivery that reads the object as stored signs again,
   * and the object stays signed without a `Signed` event.
   */
  lemma AppliedThenFailedSignsSilently(authority: Authority, s: ClusterState, d: Delivery, again: Delivery)
    requires d.patch == AppliedThenFailed
    requires Decide(Get(s.objects, d.name, d.getUnavailable), authority, d.sign, d.patch).PatchFailed?
    requires again.name == d.name
    ensures var o := Decide(Get(s.objects, d.name, d.getUnavailable), authority, d.sign, d.patch);
      && ReturnsError(o) && d.name in s.objects && s.objects[d.name].certificate.None?
      && Step(authority, s, d) ==
           ClusterState(s.objects[d.name := s.objects[d.name].(certificate := Some(o.certificate))], s.events)
    ensures var t := Step(authority, s, d);
      && Decide(Get(t.objects, again.name, again.getUnavailable), authority, again.sign, again.patch)
           in {GetFailed, Skipped(AlreadySigned)}
      && Step(authority, t, again) == t
  {
    RedeliveryIsNoOp(authority, s, d, again);
  }

  /**
   * Only a patch that reached the server changes the stored objects, and only
   * a `Signed` outcome records an event.
   */
  lemma OnlyCommittedPatchChangesState(authority: Authority, s: ClusterState, d: Delivery)
    ensures var o := Decide(Get(s.objects, d.name, d.getUnavailable), authority, d.sign, d.patch);
      && (!o.Signed? ==> Step(authority, s, d).events == s.events)
      && (!Committed(o, d.patch) ==> Step(authority, s, d) == s)
  {
  }

  /**
   * A `Signed` outcome changes one field of one object: the certificate of
   * the reconciled object goes from unset to the published value, and
   * exactly one `Signed` event is recorded.
   */
  lemma SignedChangesOnlyCertificate(authority: Authority, s: ClusterState, d: Delivery)
    requires Decide(Get(s.objects, d.name, d.getUnavailable), authority, d.sign, d.patch).Signed?
    ensures d.name in s.objects && s.objects[d.name].certificate.None?
    ensures var t := Step(authority, s, d);
      && t.objects.Keys == s.objects.Keys
      && t.objects[d.name].certificate ==
           Some(Decide(Get(s.objects, d.name, d.getUnavailable), authority, d.sign, d.patch).certificate)
      && t.objects[d.name] == s.objects[d.name].(certificate := t.objects[d.name].certificate)
      && (forall n :: n in s.objects && n != d.name ==> t.objects[n] == s.objects[n])
      && t.events == s.events + [SignedEvent(d.name)]
  {
  }

  /**
   * Delivering the same request again after its patch reached the server,
   * whether or not the client saw it succeed, changes nothing, provided the
   * redelivery reads the object as stored.
   */
  lemma RedeliveryIsNoOp(authority: Authority, s: ClusterState, d: Delivery, again: Delivery)
    requires Committed(Decide(Get(s.objects, d.name, d.getUnavailable), authority, d.sign, d.patch), d.patch)
    requires again.name == d.name
    ensures var t := Step(authority, s, d);
      && Decide(Get(t.objects, again.name, again.getUnavailable), authority, again.sign, again.patch)
           in {GetFailed, Skipped(AlreadySigned)}
      && Step(authority, t, again) == t
  {
  }

  /**
   * A redelivery that reads the object as it was before the committed patch
   * (a cache that has not caught up) passes the guard chain again and signs
   * again. Its patch carries no `resourceVersion`; the server refuses it when
   * it would change the populated certificate already stored, so the
   * reconcile returns an error and records no event. Only when the stored
   * value is empty, or the new value equals it, is the patch accepted.
   */
  lemma StaleReadSignsAgain(authority: Authority, s: ClusterState, d: Delivery, again: Delivery)
    requires d.name in s.objects
    requires Committed(Decide(Get(s.objects, d.name, d.getUnavailable), authority, d.sign, d.patch), d.patch)
    requires again.name == d.name
    requires var stale := s.objects[d.name];
      again.sign(SignRequest(stale.request, FindIssuer(authority, stale.signerName).profile)).Success?
    ensures var stale := s.objects[d.name];
      var stored := Step(authority, s, d).objects[d.name];
      var o := Decide(Success(stale), authority, again.sign, Applied);
      && stored.certificate.Some?
      && o.Signed?
      && ServerPatch(stored, MergeFrom(stale, stale.(certificate := Some(o.certificate)))) ==
           (if Populated(stored.certificate) && stored.certificate != Some(o.certificate) then None
            else Some(stored.(certificate := Some(o.certificate))))
      && Decide(Success(stale), authority, again.sign, Rejected) == PatchFailed(o.certificate)
  {
  }

  /**
   * An approved request for `root-ca/web`, against an authority where
   * `root-ca` owns profile `web`, ends signed with the issuer's output,
   * trimmed, and exactly one `Signed` event.
   */
  lemma EndToEndExample(authority: Authority, name: NamespacedName, csr: Csr, signedPem: string, sign: Signer)
    requires authority == map["web" := Issuer("root-ca", "")]
    requires csr == Csr(None, "root-ca" + "/" + "web", csr.request, [Condition(CertificateApproved)], None)
    requires sign(SignRequest(csr.request, "web")) == Success(signedPem)
    ensures Step(authority, ClusterState(map[name := csr], []), Delivery(name, false, sign, Applied)) ==
      ClusterState(map[name := csr.(certificate := Some(TrimSpace(signedPem)))], [SignedEvent(name)])
  {
    assert Guard(csr) == Proceed;
    FindIssuerOfPair(authority, "root-ca", "web");
  }

  // ---------------------------------------------------------------------------
  // Properties of a run

  predicate HasCertificate(s: ClusterState, name: NamespacedName) {
    name in s.objects && s.objects[name].certificate.Some?
  }

  function SignedEventCount(events: seq<Event>, name: NamespacedName): nat {
    if events == [] then 0
    else
      var last := if events[|events| - 1] == SignedEvent(name) then 1 else 0;
      last + SignedEventCount(events[..|events| - 1], name)
  }

  /**
   * Over any sequence of deliveries: the set of objects is unchanged, a
   * published certificate is never overwritten, nothing but certificates
   * changes, and each object gets at most one `Signed` event, only when its
   * certificate goes from unset to set. When no patch is committed behind a
   * reported failure, that event comes with every such write. Every delivery
   * here reads the object as last stored; see `StaleReadSignsAgain` for a
   * read that lags behind.
   */
  lemma {:induction false} RunWritesCertificatesOnce(authority: Authority, s: ClusterState, deliveries: seq<Delivery>)
    ensures var t := Run(authority, s, deliveries);
      && t.objects.Keys == s.objects.Keys
      && (forall n :: n in s.objects ==> t.objects[n] == s.objects[n].(certificate := t.objects[n].certificate))
      && (forall n :: HasCertificate(s, n) ==> t.objects[n].certificate == s.objects[n].certificate)
      && (forall n :: SignedEventCount(s.events, n) <= SignedEventCount(t.events, n) <=
            SignedEventCount(s.events, n) + (if !HasCertificate(s, n) && HasCertificate(t, n) then 1 else 0))
    ensures (forall k :: 0 <= k < |deliveries| ==> deliveries[k].patch != AppliedThenFailed) ==>
      var t := Run(authority, s, deliveries);
      forall n :: SignedEventCount(t.events, n) ==
        SignedEventCount(s.events, n) + (if !HasCertificate(s, n) && HasCertificate(t, n) then 1 else 0)
    decreases |deliveries|
  {
    if deliveries != [] {
      var d := deliveries[0];
      var mid := Step(authority, s, d);
      StepWritesCertificateOnce(authority, s, d);
      RunWritesCertificatesOnce(authority, mid, deliveries[1..]);
      if forall k :: 0 <= k < |deliveries| ==> deliveries[k].patch != AppliedThenFailed {
        assert d.patch != AppliedThenFailed;
        assert forall k :: 0 <= k < |deliveries[1..]| ==> deliveries[1..][k].patch != AppliedThenFailed by {
          forall k | 0 <= k < |deliveries[1..]| ensures deliveries[1..][k].patch != AppliedThenFailed {
            assert deliveries[1..][k] == deliveries[k + 1];
          }
        }
      }
    }
  }

  /** One step of the run invariant above. */
  lemma StepWritesCertificateOnce(authority: Authority, s: ClusterState, d: Delivery)
    ensures var t := Step(authority, s, d);
      && t.objects.Keys == s.objects.Keys
      && (forall n :: n in s.objects ==> t.objects[n] == s.objects[n].(certificate := t.objects[n].certificate))
      && (forall n :: HasCertificate(s, n) ==> t.objects[n].certificate == s.objects[n].certificate)
      && (forall n :: SignedEventCount(s.events, n) <= SignedEventCount(t.events, n) <=
            SignedEventCount(s.events, n) + (if !HasCertificate(s, n) && HasCertificate(t, n) then 1 else 0))
    ensures d.patch != AppliedThenFailed ==>
      var t := Step(authority, s, d);
      forall n :: SignedEventCount(t.events, n) ==
        SignedEventCount(s.events, n) + (if !HasCertificate(s, n) && HasCertificate(t, n) then 1 else 0)
  {
    var t := Step(authority, s, d);
    if t.events != s.events {
      assert t.events[..|t.events| - 1] == s.events;
    }
  }
}
