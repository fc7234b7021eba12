/** Severity names in central policy's order. */
module Severity {
  import opened Common

  /** `_SEVERITY_RANK`; other names have no rank. */
  function SeverityRank(s: string): (r: Option<nat>)
    ensures r.Some? ==> r.value <= 3
  {
    if s == "low" then Some(0)
    else if s == "medium" then Some(1)
    else if s == "high" then Some(2)
    else if s == "critical" then Some(3)
    else None
  }

  predicate Above(s: string, t: string) {
    SeverityRank(s).Some? && SeverityRank(t).Some? && SeverityRank(s).value > SeverityRank(t).value
  }

  /** From the mildest to the gravest. */
  const SEVERITIES := ["low", "medium", "high", "critical"]

  ghost predicate Graver(s: string, t: string, i: int, j: int) {
    0 <= j < i < |SEVERITIES| && SEVERITIES[i] == s && SEVERITIES[j] == t
  }

  /** One severity is above another exactly when both are named and it stands later in the list. */
  lemma AboveIff(s: string, t: string)
    ensures Above(s, t) <==> exists i, j :: Graver(s, t, i, j)
  {
    SeveritiesRanked();
    if Above(s, t) {
      assert Graver(s, t, SeverityRank(s).value, SeverityRank(t).value);
    }
  }

  lemma SeveritiesRanked()
    ensures forall i :: 0 <= i < |SEVERITIES| ==> SeverityRank(SEVERITIES[i]) == Some(i)
    ensures forall s :: SeverityRank(s).Some? ==> SEVERITIES[SeverityRank(s).value] == s
  {
    assert |"low"| == 3 && |"medium"| == 6 && |"high"| == 4 && |"critical"| == 8;
  }
}
