/** The aggregation half of the scanner wrapper: the folds that turn the
    scanner's parsed JSON report (`Results[].Vulnerabilities[]`) into a
    severity count, a flat CVE list and a total. */
module TrivyScanner {
  import opened Wrappers
  import opened Severity
  import opened ScanResults

  /** One entry of a target's `Vulnerabilities`, every key as read from JSON. */
  datatype Vulnerability = Vulnerability(
    vulnerabilityId: Field<string>,
    pkgName: Field<string>,
    installedVersion: Field<string>,
    fixedVersion: Field<string>,
    severity: Field<string>,
    title: Field<string>,
    description: Field<string>)

  /** One entry of `Results`; `None` when it has no `Vulnerabilities` key. */
  datatype Target = Target(vulnerabilities: Option<seq<Vulnerability>>)

  /** The parsed report; `None` when it has no `Results` key. */
  datatype Report = Report(results: Option<seq<Target>>)

  /** The fixed version recorded when the scanner gives none. */
  const NotFixed: string := "Not Fixed"

  /** How much of a description is kept before the ellipsis. */
  const DescriptionLimit: nat := 200

  const Ellipsis: string := "..."

  function TargetVulnerabilities(t: Target): seq<Vulnerability> {
    t.vulnerabilities.GetOr([])
  }

  /** Every vulnerability of `targets`, target by target, each target's in
      its own order: the nested traversal both folds follow. */
  function Flatten(targets: seq<Target>): (vs: seq<Vulnerability>)
    ensures forall v :: v in vs <==> exists t :: t in targets && v in TargetVulnerabilities(t)
  {
    if targets == [] then []
    else TargetVulnerabilities(targets[0]) + Flatten(targets[1..])
  }

  /** Every vulnerability of the report; a missing `Results` reads as empty. */
  function Vulnerabilities(r: Report): (vs: seq<Vulnerability>)
    ensures forall v :: v in vs <==>
      exists t :: t in r.results.GetOr([]) && v in TargetVulnerabilities(t)
  {
    Flatten(r.results.GetOr([]))
  }

  /** The bucket the counting loop uses: `vuln.get('Severity', 'UNKNOWN')`. */
  function CountingKey(v: Vulnerability): (k: Option<string>)
    ensures v.severity.Absent? ==> k == Some("UNKNOWN")
    ensures k.None? <==> v.severity.Null?
    ensures v.severity.Present? ==> k == Some(v.severity.value)
  {
    v.severity.GetOr("UNKNOWN")
  }

  function CountingKeys(vs: seq<Vulnerability>): (keys: seq<Option<string>>)
    ensures |keys| == |vs|
    ensures forall i :: 0 <= i < |vs| ==> keys[i] == CountingKey(vs[i])
  {
    if vs == [] then [] else CountingKeys(vs[..|vs| - 1]) + [CountingKey(vs[|vs| - 1])]
  }

  /** `_count_vulnerabilities_by_severity`: the five `severity_levels`
      buckets, each the number of vulnerabilities whose severity names it.
      A missing severity counts as UNKNOWN; any other name, and an explicit
      null, is counted nowhere. */
  function CountBySeverity(r: Report): (counts: Summary)
    ensures |counts| == |ScannerLevels|
    ensures forall i :: 0 <= i < |counts| ==>
      counts[i] == (ScannerLevels[i], Occurrences(CountingKeys(Vulnerabilities(r)), ScannerLevels[i]))
  {
    Tally(ScannerLevels, CountingKeys(Vulnerabilities(r)))
  }

  /** `description[:200] + '...'` for a non-empty description, and the
      empty string for a missing, null or empty one. */
  function ShortDescription(d: Field<string>): (s: string)
    ensures |s| <= DescriptionLimit + |Ellipsis|
    ensures s == "" <==> !(d.Present? && d.value != "")
    ensures d.Present? && d.value != "" ==>
      && |s| == (if |d.value| < DescriptionLimit then |d.value| else DescriptionLimit) + |Ellipsis|
      && s[..|s| - |Ellipsis|] == d.value[..|s| - |Ellipsis|]
      && s[|s| - |Ellipsis|..] == Ellipsis
  {
    match d.GetOr("")
    case Some(text) =>
      if text != "" then
        (if |text| < DescriptionLimit then text else text[..DescriptionLimit]) + Ellipsis
      else ""
    case None => ""
  }

  /** The `cve_info` record built for one vulnerability. The id, package and
      versions are read without a default (missing reads as null), the fixed
      version defaults to "Not Fixed" and the title to the empty string (an
      explicit null stays null), the description is shortened, and the
      severity is copied raw: a missing one becomes null, not UNKNOWN. */
  function ToCve(v: Vulnerability): (c: Cve)
    ensures c.id == v.vulnerabilityId.Get() && c.package == v.pkgName.Get() && c.version == v.installedVersion.Get()
    ensures v.fixedVersion.Absent? ==> c.fixedVersion == Some(NotFixed)
    ensures v.fixedVersion.Null? ==> c.fixedVersion.None?
    ensures v.fixedVersion.Present? ==> c.fixedVersion == Some(v.fixedVersion.value)
    ensures v.title.Absent? ==> c.title == Some("")
    ensures v.title.Null? ==> c.title.None?
    ensures v.title.Present? ==> c.title == Some(v.title.value)
    ensures c.severity == (if v.severity.Present? then Present(v.severity.value) else Null)
    ensures c.description == ShortDescription(v.description)
    ensures |c.description| <= DescriptionLimit + |Ellipsis|
  {
    Cve(v.vulnerabilityId.Get(), v.pkgName.Get(), v.installedVersion.Get(),
        v.fixedVersion.GetOr(NotFixed),
        match v.severity.Get() case Some(s) => Present(s) case None => Null,
        v.title.GetOr(""),
        ShortDescription(v.description))
  }

  function ToCves(vs: seq<Vulnerability>): (cves: seq<Cve>)
    ensures |cves| == |vs|
    ensures forall i :: 0 <= i < |vs| ==> cves[i] == ToCve(vs[i])
  {
    if vs == [] then [] else [ToCve(vs[0])] + ToCves(vs[1..])
  }

  /** The nested loop of `_extract_cve_list`, target by target: one entry
      per vulnerability, in traversal order. */
  function ExtractTargets(targets: seq<Target>): (cves: seq<Cve>)
    ensures |cves| == |Flatten(targets)|
    ensures forall i :: 0 <= i < |cves| ==> cves[i] == ToCve(Flatten(targets)[i])
  {
    if targets == [] then []
    else ToCves(TargetVulnerabilities(targets[0])) + ExtractTargets(targets[1..])
  }

  function ExtractCveList(r: Report): (cves: seq<Cve>)
    ensures |cves| == |Vulnerabilities(r)|
    ensures forall i :: 0 <= i < |cves| ==> cves[i] == ToCve(Vulnerabilities(r)[i])
  {
    ExtractTargets(r.results.GetOr([]))
  }

  /** The aggregate keys `_enhance_scan_result` writes for `image`: the
      summary, the CVE list, and a total equal to the number of
      vulnerabilities whose severity was counted. */
  function Enhance(r: Report, image: string): (sr: ScanResult)
    ensures sr.image == Some(image) && sr.tag.None? && sr.excepted.None?
    ensures sr.cveList == Some(ExtractCveList(r))
    ensures sr.severitySummary == Some(CountBySeverity(r))
    ensures TotalMatchesSummary(sr)
    ensures sr.totalVulnerabilities == Some(RecognisedCount(ScannerLevels, CountingKeys(Vulnerabilities(r))))
  {
    var counts := CountBySeverity(r);
    LevelsDistinct();
    SumTally(ScannerLevels, CountingKeys(Vulnerabilities(r)));
    ScanResult(Some(image), None, Some(ExtractCveList(r)), Some(counts), Some(Sum(counts)), None)
  }

  // ---------------------------------------------------------------------
  // Properties of the aggregates

  /** The counts add up to at most the number of vulnerabilities, and to
      exactly that number when every severity is missing or one of the five
      names. */
  lemma CountsBoundedByVulnerabilities(r: Report)
    ensures Sum(CountBySeverity(r)) <= |Vulnerabilities(r)|
    ensures Sum(CountBySeverity(r)) == |Vulnerabilities(r)| <==>
      forall v :: v in Vulnerabilities(r) ==> Recognised(ScannerLevels, CountingKey(v))
  {
    var vs := Vulnerabilities(r);
    var keys := CountingKeys(vs);
    LevelsDistinct();
    SumTally(ScannerLevels, keys);
    RecognisedCountBound(ScannerLevels, keys);
    if forall i :: 0 <= i < |keys| ==> Recognised(ScannerLevels, keys[i]) {
      forall v | v in vs
        ensures Recognised(ScannerLevels, CountingKey(v))
      {
        var i :| 0 <= i < |vs| && vs[i] == v;
        assert keys[i] == CountingKey(v);
      }
    }
  }

  /** The scan result's total equals the length of its CVE list exactly when
      every severity was counted. */
  lemma EnhancedTotalIsLength(r: Report, image: string)
    ensures var sr := Enhance(r, image);
            sr.totalVulnerabilities == Some(|sr.cveList.value|) <==>
              forall v :: v in Vulnerabilities(r) ==> Recognised(ScannerLevels, CountingKey(v))
  {
    CountsBoundedByVulnerabilities(r);
  }

  /** The two folds disagree about a missing severity: the count puts it
      under UNKNOWN, while the CVE list carries a null severity, which the
      exception filter's `get('severity', 'UNKNOWN')` reads as null and then
      drops. */
  lemma MissingSeverityReadsTwoWays(v: Vulnerability)
    requires v.severity.Absent?
    ensures CountingKey(v) == Some("UNKNOWN")
    ensures SeverityKey(ToCve(v)) == None
  {
  }
}
