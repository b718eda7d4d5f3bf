/**
 * `findIssuer`: the signer name `"<issuerLabel>/<profile>"` selects the
 * issuer that owns `profile`, provided that issuer's label is the one the
 * name claims.
 */
module Resolver {
  import opened Wrappers
  import opened GoStrings

  /** A configured issuer: its `Label()` and its `PEM()` trailing chain (possibly empty). */
  datatype Issuer = Issuer(issuerLabel: string, chainPem: string)

  /** The authority's profile-to-issuer table, as `GetIssuerByProfile` consults it. */
  type Authority = map<string, Issuer>

  /** `GetIssuerByProfile`; its error for an unknown profile is discarded by the caller. */
  function GetIssuerByProfile(authority: Authority, profile: string): Option<Issuer> {
    if profile in authority then Some(authority[profile]) else None
  }

  /** The `(*Issuer, string)` pair `findIssuer` returns; `(nil, "")` when unresolved. */
  datatype Resolution = Resolution(issuer: Option<Issuer>, profile: string)

  const Unresolved := Resolution(None, "")

  /**
   * `findIssuer`. When it resolves, the signer name is exactly the issuer's
   * label, one `/`, and a profile that the authority maps to that issuer;
   * when it does not, the profile is empty.
   */
  function FindIssuer(authority: Authority, signerName: string): (r: Resolution)
    ensures r.issuer.None? ==> r == Unresolved
    ensures r.issuer.Some? ==>
      && r.profile in authority && authority[r.profile] == r.issuer.value
      && signerName == r.issuer.value.issuerLabel + "/" + r.profile
      && '/' !in r.issuer.value.issuerLabel && '/' !in r.profile
  {
    var tokens := Split(signerName, '/');
    if |tokens| == 2 then
      var issuer := GetIssuerByProfile(authority, tokens[1]);
      if issuer.Some? && issuer.value.issuerLabel == tokens[0] then
        SplitTwoTokens(signerName, '/');
        Resolution(issuer, tokens[1])
      else Unresolved
    else Unresolved
  }

  /**
   * Which names of the form `claimed + "/" + profile` resolve: exactly those
   * whose two parts are free of `/` and whose profile belongs to an issuer
   * carrying that very label. A name claiming a label other than that of the
   * issuer owning the profile does not resolve, so profiles cannot be
   * borrowed by spoofing the label.
   */
  lemma {:induction false} FindIssuerOfPair(authority: Authority, claimed: string, profile: string)
    ensures FindIssuer(authority, claimed + "/" + profile) ==
      if '/' !in claimed && '/' !in profile && profile in authority && authority[profile].issuerLabel == claimed
      then Resolution(Some(authority[profile]), profile)
      else Unresolved
  {
    if '/' in claimed || '/' in profile {
      CountConcat(claimed, "/", '/');
      CountConcat(claimed + "/", profile, '/');
      CountPositive(claimed, '/');
      CountPositive(profile, '/');
      assert Count("/", '/') == 1;
    } else {
      SplitPair(claimed, profile, '/');
    }
  }

  /** `ca-a/server` resolves when `server` belongs to issuer `ca-a`; `ca-b/server` does not. */
  lemma ResolutionExamples(authority: Authority)
    requires authority == map["server" := Issuer("ca-a", "")]
    ensures FindIssuer(authority, "ca-a" + "/" + "server") == Resolution(Some(Issuer("ca-a", "")), "server")
    ensures FindIssuer(authority, "ca-b" + "/" + "server") == Unresolved
  {
    FindIssuerOfPair(authority, "ca-a", "server");
    FindIssuerOfPair(authority, "ca-b", "server");
  }
}
