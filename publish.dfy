/**
 * Publishing a signed certificate: the value stored in `status.certificate`
 * (the trimmed leaf, followed by the issuer's trimmed chain when it has one),
 * and the merge patch computed against a copy of the object taken before the
 * change.
 */
module Publish {
  import opened Wrappers
  import opened GoStrings
  import opened CertificatesApi

  /**
   * The stored certificate for the signed PEM `raw` and the issuer's chain
   * `chainPem`. The test is on the chain's length, so an all-whitespace chain
   * still takes the concatenating branch.
   */
  function PublishedCertificate(raw: string, chainPem: string): string {
    if |chainPem| > 0 then TrimSpace(TrimSpace(raw) + "\n" + TrimSpace(chainPem))
    else TrimSpace(raw)
  }

  /** The published value never starts or ends with whitespace. */
  lemma PublishedIsTrimmed(raw: string, chainPem: string)
    ensures Trimmed(PublishedCertificate(raw, chainPem))
  {
    if |chainPem| > 0 {
      TrimSpaceIdempotent(TrimSpace(raw) + "\n" + TrimSpace(chainPem));
    } else {
      TrimSpaceIdempotent(raw);
    }
  }

  /** Leaf and chain, both non-blank, are joined by exactly one newline, each trimmed. */
  lemma PublishedJoinsLeafAndChain(raw: string, chainPem: string)
    requires !AllSpace(raw) && !AllSpace(chainPem)
    ensures PublishedCertificate(raw, chainPem) == TrimSpace(raw) + "\n" + TrimSpace(chainPem)
  {
    var leaf, chain := TrimSpace(raw), TrimSpace(chainPem);
    TrimSpaceEmpty(raw);
    TrimSpaceEmpty(chainPem);
    TrimSpaceIdempotent(raw);
    TrimSpaceIdempotent(chainPem);
    var joined := leaf + "\n" + chain;
    assert joined[0] == leaf[0] && joined[|joined| - 1] == chain[|chain| - 1];
    TrimSpacePadded("", joined, "");
    assert "" + joined + "" == joined;
  }

  /** A blank chain (empty or all whitespace) publishes the trimmed leaf alone. */
  lemma PublishedBlankChain(raw: string, chainPem: string)
    requires AllSpace(chainPem)
    ensures PublishedCertificate(raw, chainPem) == TrimSpace(raw)
  {
    if |chainPem| > 0 {
      TrimSpaceEmpty(chainPem);
      TrimSpaceIdempotent(raw);
      TrimSpacePadded("", TrimSpace(raw), "\n");
      assert "" + TrimSpace(raw) + "\n" == TrimSpace(raw) + "\n" + TrimSpace(chainPem);
    }
  }

  /** A blank leaf with a non-empty chain publishes the trimmed chain alone. */
  lemma PublishedBlankLeaf(raw: string, chainPem: string)
    requires AllSpace(raw) && |chainPem| > 0
    ensures PublishedCertificate(raw, chainPem) == TrimSpace(chainPem)
  {
    TrimSpaceEmpty(raw);
    TrimSpaceIdempotent(chainPem);
    TrimSpacePadded("\n", TrimSpace(chainPem), "");
    assert "\n" + TrimSpace(chainPem) + "" == TrimSpace(raw) + "\n" + TrimSpace(chainPem);
  }

  /** The worked cases: leaf "LEAF" with chain "CHAIN", and with chain "". */
  lemma PublishedExamples()
    ensures PublishedCertificate("LEAF", "CHAIN") == "LEAF\nCHAIN"
    ensures PublishedCertificate("LEAF", "") == "LEAF"
  {
    assert !IsSpace('L') && !IsSpace('C');
    assert TrimSpace("LEAF") == "LEAF" by {
      TrimSpacePadded("", "LEAF", "");
      assert "" + "LEAF" + "" == "LEAF";
    }
    assert TrimSpace("CHAIN") == "CHAIN" by {
      TrimSpacePadded("", "CHAIN", "");
      assert "" + "CHAIN" + "" == "CHAIN";
    }
    assert !AllSpace("LEAF") by { assert !IsSpace("LEAF"[0]); }
    assert !AllSpace("CHAIN") by { assert !IsSpace("CHAIN"[0]); }
    PublishedJoinsLeafAndChain("LEAF", "CHAIN");
  }

  /** The same leaf and chain, padded with whitespace, publish the same values. */
  lemma PublishedPaddedExamples()
    ensures PublishedCertificate("LEAF\n", "\nCHAIN\n") == "LEAF\nCHAIN"
    ensures PublishedCertificate("  LEAF ", "") == "LEAF"
  {
    assert !IsSpace('L') && !IsSpace('C');
    assert TrimSpace("LEAF\n") == "LEAF" by {
      TrimSpacePadded("", "LEAF", "\n");
      assert "" + "LEAF" + "\n" == "LEAF\n";
    }
    assert TrimSpace("\nCHAIN\n") == "CHAIN" by {
      TrimSpacePadded("\n", "CHAIN", "\n");
      assert "\n" + "CHAIN" + "\n" == "\nCHAIN\n";
    }
    assert TrimSpace("  LEAF ") == "LEAF" by {
      TrimSpacePadded("  ", "LEAF", " ");
      assert "  " + "LEAF" + " " == "  LEAF ";
    }
    assert !AllSpace("LEAF\n") by { assert !IsSpace("LEAF\n"[0]); }
    assert !AllSpace("\nCHAIN\n") by { assert !IsSpace("\nCHAIN\n"[1]); }
    PublishedJoinsLeafAndChain("LEAF\n", "\nCHAIN\n");
  }

  // ---------------------------------------------------------------------------
  // Merge patch against a snapshot

  /** A JSON merge patch over the modelled fields: `Some(v)` sets the field to `v`, `None` leaves it. */
  datatype MergePatch = MergePatch(
    deletionTimestamp: Option<Option<Time>>,
    signerName: Option<string>,
    request: Option<string>,
    conditions: Option<seq<Condition>>,
    certificate: Option<Option<string>>)

  function Diff<T(==)>(before: T, after: T): Option<T> {
    if before == after then None else Some(after)
  }

  function Pick<T>(change: Option<T>, current: T): T {
    if change.Some? then change.value else current
  }

  /** `client.MergeFrom(base)` applied to `modified`: the fields that differ from the snapshot. */
  function MergeFrom(base: Csr, modified: Csr): MergePatch {
    MergePatch(
      Diff(base.deletionTimestamp, modified.deletionTimestamp),
      Diff(base.signerName, modified.signerName),
      Diff(base.request, modified.request),
      Diff(base.conditions, modified.conditions),
      Diff(base.certificate, modified.certificate))
  }

  /** The API server applying a merge patch to the object it currently stores. */
  function ApplyPatch(current: Csr, patch: MergePatch): Csr {
    Csr(
      Pick(patch.deletionTimestamp, current.deletionTimestamp),
      Pick(patch.signerName, current.signerName),
      Pick(patch.request, current.request),
      Pick(patch.conditions, current.conditions),
      Pick(patch.certificate, current.certificate))
  }

  /** `status.certificate` holds a certificate: it is set and non-empty. */
  predicate Populated(certificate: Option<string>) {
    certificate.Some? && |certificate.value| > 0
  }

  /**
   * The API server's status update: the merged object, or `None` when the
   * merge would change a populated certificate, which is immutable once set.
   */
  function ServerPatch(current: Csr, patch: MergePatch): Option<Csr> {
    var merged := ApplyPatch(current, patch);
    if Populated(current.certificate) && merged.certificate != current.certificate then None
    else Some(merged)
  }

  /**
   * A populated certificate is write-once: every accepted update keeps it,
   * and an update is refused only when it would change it. While the
   * certificate is not populated, every patch is accepted as merged.
   */
  lemma PopulatedCertificateIsWriteOnce(current: Csr, patch: MergePatch)
    ensures Populated(current.certificate) && ServerPatch(current, patch).Some? ==>
      ServerPatch(current, patch).value.certificate == current.certificate
    ensures ServerPatch(current, patch).None? <==>
      Populated(current.certificate) && ApplyPatch(current, patch).certificate != current.certificate
    ensures !Populated(current.certificate) ==> ServerPatch(current, patch) == Some(ApplyPatch(current, patch))
  {
  }

  /** Applying the patch to the snapshot it was computed from reproduces the modified object. */
  lemma MergeFromRoundTrip(base: Csr, modified: Csr)
    ensures ApplyPatch(base, MergeFrom(base, modified)) == modified
  {
  }

  /**
   * Setting only the certificate yields a patch that touches only the
   * certificate. Merged into whatever the server holds, it changes that field
   * and preserves every other one, including changes made since the
   * snapshot; the server accepts it unless it would change a populated
   * certificate.
   */
  lemma CertificatePatchTouchesOnlyCertificate(base: Csr, certificate: string, current: Csr)
    ensures var p := MergeFrom(base, base.(certificate := Some(certificate)));
      && p.deletionTimestamp.None? && p.signerName.None? && p.request.None? && p.conditions.None?
      && ApplyPatch(current, p) ==
           (if base.certificate == Some(certificate) then current
            else current.(certificate := Some(certificate)))
      && ServerPatch(current, p) ==
           if Populated(current.certificate) && base.certificate != Some(certificate)
              && current.certificate != Some(certificate)
           then None
           else Some(ApplyPatch(current, p))
  {
  }
}
