# kubeca CSR signing reconciler, modelled in Dafny

kubeca is a Kubernetes controller that signs `CertificateSigningRequest`
objects with a configured certificate authority. This project models the
signing decision of its reconciler (`internal/controller/certificatesigningrequest.go`):

- the guard chain of `Reconcile`, evaluated in order, first match wins:
  deleted, empty signer name, certificate already present, denied, proceed;
- `findIssuer`, which splits the signer name `"<issuerLabel>/<profile>"`
  on `/`, requires exactly two tokens, looks the issuer up by profile and
  requires its label to equal the first token;
- `getCertApprovalCondition` and `isCertificateRequestApproved`: a request
  is approved exactly when no condition has type `Denied` (implicit
  approval; the `Approved` flag is computed and ignored);
- the publish step: the stored certificate is the trimmed signed PEM,
  followed by a newline and the issuer's trimmed chain when the chain is
  non-empty; only `status.certificate` is patched, through a merge patch
  against a copy taken before the change, and the `Signed` event is emitted
  only after the patch succeeds.

Files and modules:

| file | module | contents |
|---|---|---|
| `wrappers.dfy` | `Wrappers` | `Option`, `Result` |
| `go_strings.dfy` | `GoStrings` | Go's `strings.Split` (one-rune separator), `Join`, `strings.TrimSpace` with `unicode.IsSpace` |
| `certificates_api.dfy` | `CertificatesApi` | the CSR fields the reconciler touches, as a value; the Go zero value |
| `approval.dfy` | `Approval` | the approval loop and the implicit-approval predicate |
| `resolver.dfy` | `Resolver` | issuers, the profile table, `findIssuer` |
| `publish.dfy` | `Publish` | the published PEM; merge patch and its application |
| `controller.dfy` | `Controller` | guard chain, the decision of one reconcile, the `Reconciler` class, runs of deliveries |

`Reconcile` is a method of the class `Controller.Reconciler`, whose fields
are the authority's profile table, the objects stored by the API server and
the events recorded so far. The Go `csr` is a struct held by value, so it is
a local datatype value that the method reassigns, with `base` as the copy
taken before the certificate is set. The method is proved against the
function `Controller.Decide` (its outcome) and `Controller.Step` (the new
cluster state); `Controller.Run` iterates `Step` over a sequence of
deliveries for the properties of repeated, at-least-once delivery.

The outside world enters as parameters: `sign` is a total function from the
sign request (PEM and profile) to the signed PEM or an error;
`getUnavailable` says that `Get` failed with an error other than
`NotFound`; `response` is how the status patch went: `Applied`, `Rejected`
(the server did not store it), or `AppliedThenFailed` (the server stored it
but the client still got an error, as with a timeout after the write). In
the last case `Reconcile` returns an error and records no event, while the
certificate is stored all the same.

Points where the code departs from its documentation or from the usual reading, which the model follows as written:

- The doc comment of `isCertificateRequestApproved` (lines 137-138) asks for
  an `Approved` condition; the code approves every request without a
  `Denied` condition. `Approval.ImplicitApproval` states the difference.
- The idempotence guard tests `status.certificate` for nil, not for
  emptiness: an empty non-nil certificate also counts as signed.
- A `NotFound` fetch is not an early return: the zero-value object falls
  through to the empty-signer skip, with the same no-op success as a result.
- An error from `Status().Patch` (lines 104-109) does not mean the patch was
  lost. When it was in fact committed, the object stays signed with no
  `Signed` event: every later delivery that reads the stored object stops at
  the already-signed guard. `Controller.AppliedThenFailedSignsSilently`
  states this. A delivery that reads a lagging cached copy signs again
  instead; its patch is then refused by the write-once certificate, unless
  the stored value is empty or equal to the new one
  (`Controller.StaleReadSignsAgain`).
- The latency sample is recorded right after signing and before the patch
  (lines 94 and 104), so a failed patch still records one; the model leaves
  the metric out (see below).

## Model

| member | source | states |
|---|---|---|
| `Controller.Reconciler.Reconcile` | internal/controller/certificatesigningrequest.go:37-116 | the outcome is `Decide` of the fetched object and the oracles; the new objects and events are `Step` of the old ones: a patch that reached the server (`Applied`, or `AppliedThenFailed`) sets one certificate, and only `Applied` appends one `Signed` event |
| `Controller.GuardProceeds` | internal/controller/certificatesigningrequest.go:45-54 | the guard chain lets a request through exactly when it is not deleted, has a signer name, has no certificate and carries no `Denied` condition |
| `Controller.DeletedNeverSigned` | internal/controller/certificatesigningrequest.go:46-47 | a request with a non-zero deletion timestamp is skipped whatever its signer name, conditions and status |
| `Controller.EmptySignerSkipped` | internal/controller/certificatesigningrequest.go:39-49 | an empty signer name is skipped before resolution or signing, and a `NotFound` fetch (zero value) ends in the same skip |
| `Controller.AlreadySignedSkipped` | internal/controller/certificatesigningrequest.go:50-51 | a request whose certificate is set, even to an empty value, is skipped without signing |
| `Controller.SigningReachedIff` | internal/controller/certificatesigningrequest.go:45-78 | the signer is invoked exactly when all guards pass and the signer name resolves |
| `Controller.SignedPublishesIssuerOutput` | internal/controller/certificatesigningrequest.go:70-102 | for a proceeding request naming `label/profile` of a configured issuer, a successful reconcile publishes the certificate built from that issuer's signing of this request under that profile |
| `Controller.UnresolvedIsQuietSkip` | internal/controller/certificatesigningrequest.go:70-71 | a proceeding request whose signer name does not resolve is skipped without an error, without signing and without any change |
| `Controller.SignErrorChangesNothing` | internal/controller/certificatesigningrequest.go:78-83 | a signing error is returned as an error and no object or event changes |
| `Controller.PatchFailureRecordsNoEvent` | internal/controller/certificatesigningrequest.go:104-110 | when the patch fails, the reconcile never ends signed, returns an error once signing was attempted, and records no event; a rejected patch changes nothing at all |
| `Controller.AppliedThenFailedSignsSilently` | internal/controller/certificatesigningrequest.go:104-110 | a patch committed behind a reported error returns an error and records no event, yet stores the certificate on the previously unsigned object; a redelivery that reads the object as stored then ends in a fetch error or an already-signed skip and changes nothing, so no `Signed` event follows as long as reads are fresh |
| `Controller.OnlyCommittedPatchChangesState` | internal/controller/certificatesigningrequest.go:78-115 | only an outcome whose patch reached the server changes the objects, and only a `Signed` outcome records an event |
| `Controller.SignedChangesOnlyCertificate` | internal/controller/certificatesigningrequest.go:101-110 | a signed outcome sets the certificate of the reconciled object from unset to exactly the published value it reports, changes no other field and no other object, and records exactly one `Signed` event |
| `Controller.RedeliveryIsNoOp` | internal/controller/certificatesigningrequest.go:50-51 | delivering the same request again after its patch reached the server, whether the client saw success or an error, ends in a fetch error or an already-signed skip and changes nothing, when the redelivery reads the object as stored |
| `Controller.StaleReadSignsAgain` | internal/controller/certificatesigningrequest.go:50-104 | a redelivery that reads the object as it was before the committed patch passes the guards and signs again; the server refuses its patch when it would change the populated certificate already stored, and the reconcile then returns an error with no event; the patch is accepted only when the stored value is empty or equal to the new one |
| `Controller.EndToEndExample` | internal/controller/certificatesigningrequest.go:70-110 | an approved `root-ca/web` request against an authority where `root-ca` owns `web` ends with the trimmed signed PEM stored and one `Signed` event |
| `Controller.RunWritesCertificatesOnce` | internal/controller/certificatesigningrequest.go:37-116 | over any sequence of deliveries no object appears or disappears, only certificates change, a set certificate is never overwritten, and each object gets at most one `Signed` event, only when its certificate goes from unset to set; when no patch is committed behind a reported error, the event comes with every such write. Every delivery reads the object as last stored |
| `Approval.GetCertApprovalCondition` | internal/controller/certificatesigningrequest.go:145-155 | `approved` is true exactly when some condition has type `Approved`, `denied` exactly when some condition has type `Denied` |
| `Approval.IsCertificateRequestApproved` | internal/controller/certificatesigningrequest.go:139-143 | a request is approved exactly when no condition has type `Denied` |
| `Approval.ApprovalDependsOnKindsOnly` | internal/controller/certificatesigningrequest.go:139-155 | two condition lists with the same set of types get the same verdict: order and count do not matter |
| `Approval.ApprovalMatrix` | internal/controller/certificatesigningrequest.go:139-155 | {} and {Approved} are approved; {Denied} and {Approved, Denied} are not |
| `Approval.ApprovedFlagIgnored` | internal/controller/certificatesigningrequest.go:140-142 | adding an `Approved` condition never changes the verdict |
| `Approval.ImplicitApproval` | internal/controller/certificatesigningrequest.go:137-142 | the code approves what the documented rule approves plus every request with neither condition; the empty list is approved though the documented rule rejects it |
| `Resolver.FindIssuer` | internal/controller/certificatesigningrequest.go:118-128 | a resolved name is exactly the issuer's label, one `/`, and a profile the authority maps to that issuer, with neither part containing `/`; an unresolved name yields `(nil, "")` |
| `Resolver.FindIssuerOfPair` | internal/controller/certificatesigningrequest.go:118-128 | `claimed/profile` resolves to `(authority[profile], profile)` exactly when neither part contains `/` and the issuer owning the profile has the label `claimed`, so a spoofed label is unresolved |
| `Resolver.ResolutionExamples` | internal/controller/certificatesigningrequest.go:118-128 | with `server` owned by `ca-a`, `ca-a/server` resolves and `ca-b/server` does not |
| `GoStrings.Split` | internal/controller/certificatesigningrequest.go:120 | one more token than separators, no token contains the separator, and joining the tokens gives back the input |
| `GoStrings.SplitPair` | internal/controller/certificatesigningrequest.go:120-121 | two separator-free parts joined by one separator split into exactly those two tokens |
| `GoStrings.TrimSpaceIsTrim` | internal/controller/certificatesigningrequest.go:102 | `TrimSpace` returns an infix with only whitespace around it and no whitespace at its ends |
| `GoStrings.TrimOfUnique` | internal/controller/certificatesigningrequest.go:97-102 | there is only one such trimmed infix |
| `GoStrings.TrimSpaceIdempotent` | internal/controller/certificatesigningrequest.go:97-102 | trimming twice is trimming once |
| `GoStrings.TrimSpaceEmpty` | internal/controller/certificatesigningrequest.go:96-102 | `TrimSpace` yields the empty string exactly for all-whitespace input |
| `Publish.PublishedIsTrimmed` | internal/controller/certificatesigningrequest.go:96-102 | the stored certificate neither starts nor ends with whitespace |
| `Publish.PublishedJoinsLeafAndChain` | internal/controller/certificatesigningrequest.go:96-102 | a non-blank leaf and a non-blank chain are stored as trimmed leaf, one newline, trimmed chain |
| `Publish.PublishedBlankChain` | internal/controller/certificatesigningrequest.go:96-102 | an empty or all-whitespace chain stores the trimmed leaf alone |
| `Publish.PublishedBlankLeaf` | internal/controller/certificatesigningrequest.go:96-102 | an all-whitespace leaf with a non-empty chain stores the trimmed chain alone |
| `Publish.PublishedExamples` | internal/controller/certificatesigningrequest.go:96-102 | leaf `LEAF` with chain `CHAIN` stores `LEAF\nCHAIN`; with an empty chain it stores `LEAF` |
| `Publish.PublishedPaddedExamples` | internal/controller/certificatesigningrequest.go:96-102 | leaf `LEAF\n` with chain `\nCHAIN\n` stores `LEAF\nCHAIN`; leaf `  LEAF ` with an empty chain stores `LEAF` |
| `Publish.MergeFromRoundTrip` | internal/controller/certificatesigningrequest.go:101-104 | the patch computed against the snapshot, applied to the snapshot, gives the modified object |
| `Publish.CertificatePatchTouchesOnlyCertificate` | internal/controller/certificatesigningrequest.go:101-104 | setting only the certificate produces a patch that touches only the certificate, so fields changed by others since the snapshot are preserved; the server accepts it unless it would change a populated certificate |
| `Publish.PopulatedCertificateIsWriteOnce` | internal/controller/certificatesigningrequest.go:101-104 | the server refuses exactly the status updates that would change a populated (non-empty) certificate; every accepted update keeps it, and an unpopulated certificate accepts any patch |

## Left out

- Logging (`logger.ContextKV`), the JSON dump of the object, `print.Certificate`: output only.
- The latency metric (`time.Now`, `MeasureSince`): clock and metrics sink. The code records it after signing and before the patch, so it is also recorded when the patch fails.
- The cryptographic `issuer.Sign`: an oracle from the sign request to the signed PEM or an error. The certificate object it also returns is used only for logging.
- The Kubernetes client: `Get` is a map lookup guarded by a failure flag. `Status().Patch` is a map update, steered by the three-way patch response; the server's write-once rule for a populated `status.certificate` (`Publish.ServerPatch`) comes from the field's documentation and the API server's validation, which are not part of this repository. Events are an append-only list.
- `client.MergeFrom` is used without optimistic locking (line 101), so the patch carries no `resourceVersion`. A patch computed from a stale copy is merged into whatever the server holds rather than rejected for staleness; only the write-once certificate can make the server refuse it. `Publish.CertificatePatchTouchesOnlyCertificate` states both. Within `Controller.Run` the copy is never stale, because the model's `Get` reads the objects as last stored and no other writer is modelled (see below).
- Controller.AppliedThenFailedSignsSilently: "no `Signed` event follows" assumes every later `Get` sees the committed patch and the published value is not blank (see "Stale reads" and "Blank published value" below).
- Controller.RedeliveryIsNoOp: "changes nothing" assumes the redelivery's `Get` sees the committed patch and the published value is not blank (see "Stale reads" and "Blank published value" below).
- Controller.RunWritesCertificatesOnce: "never overwritten" and "at most one `Signed` event" assume every `Get` sees the last committed patch and every published value is not blank (see "Stale reads" and "Blank published value" below).
- Stale reads: the reconciler's client comes from `mgr.GetClient()` (internal/controller/controller.go:83), which serves `Get` from an informer cache that can lag behind this reconciler's own patch. The model's `Get` reads the objects as last stored. A retry that reads the lagging copy signs a second time; its patch is refused when it would change the populated certificate, so the retry returns an error and records no event (`Controller.StaleReadSignsAgain`). When the stored certificate is empty, or the second signing reproduces it, the patch is accepted and a second `Signed` event is recorded.
- Blank published value: `status.certificate` is `omitempty`, so a published value that trims to the empty string is dropped from the patch. The object then stays unsigned although the `Signed` event is recorded, and the next delivery signs again. The model stores `Some("")` instead.
- Concurrency, requeue, backoff, leader election and the `ctx` deadline: they belong to controller-runtime. `Controller.Run` covers sequential deliveries by this reconciler only; writes to the objects by other clients between deliveries are not modelled.
- Go strings are bytes: the model works on decoded runes (PEM text is ASCII); `TrimSpace` uses the exact `unicode.IsSpace` set.
- `SetupWithManager` and the commented-out CSR parsing block (lines 57-68): registration and dead code.
- `internal/controller/controller.go`, `cmd/kubeca/main.go`, `cmd/kubecertinit/main.go`, `internal/logr/logr_test.go`, `internal/version/current.go`: start-up, configuration loading, command-line handling, log formatting and a version constant, with no signing decision logic.
