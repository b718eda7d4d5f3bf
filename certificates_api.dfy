/**
 * The slice of the Kubernetes `certificates.k8s.io/v1` CertificateSigningRequest
 * object that the reconciler reads or writes, as a value: Go's
 * `capi.CertificateSigningRequest` is a struct, copied by value.
 */
module CertificatesApi {
  import opened Wrappers

  /** `types.NamespacedName`, the identity a reconcile request carries. */
  datatype NamespacedName = NamespacedName(namespace: string, name: string)

  /**
   * `metav1.Time` as an offset from Go's zero instant; `*metav1.Time` is
   * optional. `IsZero` holds when it is absent (nil) and for the zero instant.
   */
  type Time = int

  predicate IsZero(t: Option<Time>) {
    t.None? || t.value == 0
  }

  /** Condition types are open-ended strings; these two are the ones the reconciler tests. */
  const CertificateApproved: string := "Approved"
  const CertificateDenied: string := "Denied"

  datatype Condition = Condition(kind: string)

  /**
   * `metadata.deletionTimestamp`, `spec.signerName`, `spec.request`,
   * `status.conditions` and `status.certificate`. A nil `[]byte` is `None`;
   * an empty, non-nil one is `Some("")`.
   */
  datatype Csr = Csr(
    deletionTimestamp: Option<Time>,
    signerName: string,
    request: string,
    conditions: seq<Condition>,
    certificate: Option<string>)

  /** The Go zero value `var csr capi.CertificateSigningRequest`. */
  const ZeroCsr: Csr := Csr(None, "", "", [], None)
}
