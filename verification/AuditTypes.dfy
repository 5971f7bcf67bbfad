/** The classifications of event types the audit readers share. */
module AuditTypes {
  import opened TextSearch

  predicate Contains(s: string, part: string) {
    exists i :: 0 <= i <= |s| && OccursAt(s, part, i)
  }

  const FAILURE_WORDS: seq<string> := [
    "fail", "denied", "deny", "block", "reject", "rate_limited", "error", "unjustified",
    "anomaly", "incident", "detection", "containment"]

  predicate IsFailure(kind: string) {
    exists k :: 0 <= k < |FAILURE_WORDS| && Contains(kind, FAILURE_WORDS[k])
  }

  const ADMIN_FAMILIES: seq<string> := [
    "resource", "user", "access_policy", "access_profile", "relay", "license", "integration",
    "cluster", "itdr.rule", "automation"]

  predicate IsAdmin(kind: string) {
    || (exists k :: 0 <= k < |ADMIN_FAMILIES| && ADMIN_FAMILIES[k] + "." <= kind)
    || kind == "access_request.approve" || kind == "access_request.deny"
    || "credential.rotat" <= kind
  }

  /** The part of a type before its first dot. */
  function FamilyOf(kind: string): string {
    var dot := FindChar(kind, '.', 0);
    if dot == -1 then kind else kind[..dot]
  }
}
