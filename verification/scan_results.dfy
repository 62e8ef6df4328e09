/** The normalised scan result that flows from the scanner wrapper through
    the exception filter to the threshold gate and the metrics exporter. */
module ScanResults {
  import opened Wrappers
  import opened Severity

  /** One entry of `cve_list`. Every key is present (the scanner wrapper
      writes them all); a value read with `.get(key)` from a missing raw key
      is null, modelled as `None`. `severity` keeps the full absent/null/value
      shape because the exception filter reads it with a default. */
  datatype Cve = Cve(
    id: Option<string>,
    package: Option<string>,
    version: Option<string>,
    fixedVersion: Option<string>,
    severity: Field<string>,
    title: Option<string>,
    description: string)

  /** The CVEs an exception filter moved aside, and how many there were
      (`excepted_cves`, `excepted_count`). */
  datatype Excepted = Excepted(cves: seq<Cve>, count: int)

  /** The keys of a scan result dict the core reads or writes; `None` means
      the key is missing. `image` and `tag` stand for every other key, which
      the filter copies untouched. */
  datatype ScanResult = ScanResult(
    image: Option<string>,
    tag: Option<string>,
    cveList: Option<seq<Cve>>,
    severitySummary: Option<Summary>,
    totalVulnerabilities: Option<int>,
    excepted: Option<Excepted>)

  /** The severity a CVE is bucketed under: `cve.get('severity', 'UNKNOWN')`.
      A missing key reads as UNKNOWN; an explicit null stays `None`. */
  function SeverityKey(c: Cve): (k: Option<string>)
    ensures c.severity.Absent? ==> k == Some("UNKNOWN")
    ensures k.None? <==> c.severity.Null?
    ensures c.severity.Present? ==> k == Some(c.severity.value)
  {
    c.severity.GetOr("UNKNOWN")
  }

  function SeverityKeys(cves: seq<Cve>): (keys: seq<Option<string>>)
    ensures |keys| == |cves|
    ensures forall i :: 0 <= i < |cves| ==> keys[i] == SeverityKey(cves[i])
  {
    if cves == [] then [] else SeverityKeys(cves[..|cves| - 1]) + [SeverityKey(cves[|cves| - 1])]
  }

  /** The aggregates agree: `total_vulnerabilities` is the sum of the
      summary's values. */
  predicate TotalMatchesSummary(r: ScanResult) {
    r.severitySummary.Some? && r.totalVulnerabilities == Some(Sum(r.severitySummary.value))
  }
}
