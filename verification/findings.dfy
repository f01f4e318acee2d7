/**
  Audit findings: the fields that correlation and triage depend on, and the stable
  codes of the findings that the policy singles out.
*/
module Findings {
  import Slug

  type Severity = s: int | 0 <= s <= 4
  const INFO: Severity := 0
  const MEDIUM: Severity := 2
  const HIGH: Severity := 3
  const CRITICAL: Severity := 4

  const CATEGORY_TRUST := "trust"
  const CATEGORY_PATH_TRAVERSAL := "path-traversal"
  const CATEGORY_EXFILTRATION := "exfiltration"
  const CATEGORY_EXECUTION := "execution"
  const CATEGORY_OBFUSCATION := "obfuscation"

  const CODE_NETWORK_REVERSE_SHELL := "network-execution-reverse-shell-pattern-detected"
  const CODE_SCRIPT_REMOTE_EXECUTION := "script-execution-script-downloads-and-executes-remote-code"
  const CODE_LOCKFILE_CONTENT_HASH_MISMATCH := "lockfile-integrity-module-content-hash-mismatch"
  const CODE_SYMLINK_ESCAPES_ROOT := "symlink-path-traversal-symlink-points-outside-module-boundary"
  const CODE_ENV_INHERIT_DEFAULT_ALL := "env-exfiltration-command-uses-default-env-inheritance-all-host-variables"
  const CODE_ENV_SENSITIVE_VAR := "env-exfiltration-script-accesses-sensitive-environment-variable"
  const CODE_NETWORK_DNS_EXFILTRATION := "network-exfiltration-possible-dns-exfiltration-pattern"

  const CODE_CREDENTIAL_EXFILTRATION := "correlator-credential-exfiltration"
  const CODE_PATH_SYMLINK_ESCAPE := "correlator-path-symlink-escape"
  const CODE_OBFUSCATED_EXFILTRATION := "correlator-obfuscated-exfiltration"
  const CODE_TRUST_CHAIN_WEAKNESS := "correlator-trust-chain-weakness"
  const CODE_INTERPRETER_TRAVERSAL := "correlator-interpreter-traversal"
  const CODE_MULTIPLE_CATEGORIES := "correlator-multiple-categories"
  const CODE_HIGH_PLUS_OTHER := "correlator-high-plus-other"
  const CODE_MEDIUM_PLUS_MEDIUM := "correlator-medium-plus-medium"

  /** The trust boundary of a finding; Unset is Go's empty kind. */
  datatype SurfaceKind = Unset | RootInvowkfile | LocalModule | VendoredModule | GlobalModule | OtherKind(name: string)

  datatype Finding = Finding(
    code: string,
    severity: Severity,
    category: string,
    surfaceID: string,
    surfaceKey: string,
    surfaceKind: SurfaceKind,
    checker: string,
    filePath: string,
    title: string,
    escalatedFrom: seq<string>,
    escalatedFromCodes: seq<string>)

  function CodeOrDefault(f: Finding): string {
    if f.code != "" then f.code else Slug.SlugOf([f.checker, f.category, f.title], Slug.ToLower)
  }

  /** A finding without a code gets the slugs of its checker, its category and its title, in that order. */
  lemma FallbackCode(f: Finding)
    ensures f.code != "" ==> CodeOrDefault(f) == f.code
    ensures f.code == "" ==>
      CodeOrDefault(f) == Slug.Hyphenated(Slug.SlugOf([f.checker], Slug.ToLower),
                                          Slug.Hyphenated(Slug.SlugOf([f.category], Slug.ToLower),
                                                          Slug.SlugOf([f.title], Slug.ToLower)))
  {
    hide Slug.SlugOf;
    Slug.SlugOfConcat([f.category], [f.title], Slug.ToLower);
    Slug.SlugOfConcat([f.checker], [f.category, f.title], Slug.ToLower);
    assert [f.category] + [f.title] == [f.category, f.title];
    assert [f.checker] + [f.category, f.title] == [f.checker, f.category, f.title];
  }

  function WithCodes(fs: seq<Finding>): (r: seq<Finding>)
    ensures |r| == |fs|
  {
    seq(|fs|, i requires 0 <= i < |fs| => fs[i].(code := CodeOrDefault(fs[i])))
  }

  /** `ensureFindingCodes`: fills the missing codes in place. */
  method EnsureFindingCodes(findings: array<Finding>)
    modifies findings
    ensures findings[..] == WithCodes(old(findings[..]))
  {
    for i := 0 to findings.Length
      invariant forall k :: 0 <= k < i ==> findings[k] == old(findings[k]).(code := CodeOrDefault(old(findings[k])))
      invariant forall k :: i <= k < findings.Length ==> findings[k] == old(findings[k])
    {
      if findings[i].code == "" {
        findings[i] := findings[i].(code := CodeOrDefault(findings[i]));
      }
    }
  }
}
