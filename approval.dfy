/**
 * Approval of a signing request: `getCertApprovalCondition` scans the
 * conditions once, and `isCertificateRequestApproved` approves implicitly,
 * that is, whenever no `Denied` condition is present.
 */
module Approval {
  import opened CertificatesApi

  /** Some condition of the list has type `kind`. */
  predicate HasCondition(conditions: seq<Condition>, kind: string) {
    exists k :: 0 <= k < |conditions| && conditions[k].kind == kind
  }

  /** The set of condition types present; order and repetition forgotten. */
  function Kinds(conditions: seq<Condition>): set<string> {
    set k | 0 <= k < |conditions| :: conditions[k].kind
  }

  /**
   * The approval rule the code implements: every condition is something
   * other than `Denied`. Whether `Approved` is present plays no part.
   */
  predicate IsApproved(conditions: seq<Condition>) {
    forall k :: 0 <= k < |conditions| ==> conditions[k].kind != CertificateDenied
  }

  /** The rule the doc comment of `isCertificateRequestApproved` describes. */
  predicate ExplicitlyApproved(conditions: seq<Condition>) {
    HasCondition(conditions, CertificateApproved) && !HasCondition(conditions, CertificateDenied)
  }

  /** `getCertApprovalCondition`: one pass over the conditions, setting each flag when its type shows up. */
  method GetCertApprovalCondition(conditions: seq<Condition>) returns (approved: bool, denied: bool)
    ensures approved <==> HasCondition(conditions, CertificateApproved)
    ensures denied <==> HasCondition(conditions, CertificateDenied)
  {
    approved, denied := false, false;
    for i := 0 to |conditions|
      invariant approved <==> HasCondition(conditions[..i], CertificateApproved)
      invariant denied <==> HasCondition(conditions[..i], CertificateDenied)
    {
      var c := conditions[i];
      assert conditions[..i + 1] == conditions[..i] + [c];
      if c.kind == CertificateApproved {
        approved := true;
      }
      if c.kind == CertificateDenied {
        denied := true;
      }
    }
    assert conditions[..|conditions|] == conditions;
  }

  /** `isCertificateRequestApproved`: the `approved` flag is computed and dropped. */
  method IsCertificateRequestApproved(csr: Csr) returns (ok: bool)
    ensures ok <==> IsApproved(csr.conditions)
    ensures ok <==> CertificateDenied !in Kinds(csr.conditions)
  {
    var _, denied := GetCertApprovalCondition(csr.conditions);
    ok := !denied;
    KindsMembership(csr.conditions, CertificateDenied);
  }

  /** A type is among `Kinds` exactly when some condition carries it. */
  lemma KindsMembership(conditions: seq<Condition>, kind: string)
    ensures kind in Kinds(conditions) <==> HasCondition(conditions, kind)
  {
    if HasCondition(conditions, kind) {
      var k :| 0 <= k < |conditions| && conditions[k].kind == kind;
      assert conditions[k].kind in Kinds(conditions);
    }
  }

  /** Approval depends only on which condition types are present: order and count do not matter. */
  lemma ApprovalDependsOnKindsOnly(c1: seq<Condition>, c2: seq<Condition>)
    requires Kinds(c1) == Kinds(c2)
    ensures IsApproved(c1) <==> IsApproved(c2)
  {
    KindsMembership(c1, CertificateDenied);
    KindsMembership(c2, CertificateDenied);
  }

  /** The four rows of the approval matrix over {Approved, Denied}. */
  lemma ApprovalMatrix(conditions: seq<Condition>)
    ensures Kinds(conditions) == {} ==> IsApproved(conditions)
    ensures Kinds(conditions) == {CertificateApproved} ==> IsApproved(conditions)
    ensures Kinds(conditions) == {CertificateDenied} ==> !IsApproved(conditions)
    ensures Kinds(conditions) == {CertificateApproved, CertificateDenied} ==> !IsApproved(conditions)
  {
    KindsMembership(conditions, CertificateDenied);
  }

  /** Adding an `Approved` condition never changes the verdict: the flag is ignored. */
  lemma ApprovedFlagIgnored(conditions: seq<Condition>)
    ensures IsApproved(conditions + [Condition(CertificateApproved)]) <==> IsApproved(conditions)
  {
    var extended := conditions + [Condition(CertificateApproved)];
    if IsApproved(conditions) {
      forall k | 0 <= k < |extended| ensures extended[k].kind != CertificateDenied {
        if k < |conditions| {
          assert extended[k] == conditions[k];
        }
      }
    }
    if IsApproved(extended) {
      forall k | 0 <= k < |conditions| ensures conditions[k].kind != CertificateDenied {
        assert extended[k] == conditions[k];
      }
    }
  }

  /**
   * Implicit approval: the code approves what the documented rule approves,
   * and in addition every request that carries neither condition.
   */
  lemma ImplicitApproval(conditions: seq<Condition>)
    ensures IsApproved(conditions) <==>
      ExplicitlyApproved(conditions)
      || (!HasCondition(conditions, CertificateApproved) && !HasCondition(conditions, CertificateDenied))
    ensures conditions == [] ==> IsApproved(conditions) && !ExplicitlyApproved(conditions)
  {
    if HasCondition(conditions, CertificateDenied) {
      var k :| 0 <= k < |conditions| && conditions[k].kind == CertificateDenied;
    }
  }
}
