/** Properties of the stages composed as the CI pipeline runs them: the
    scanner's aggregates, then the exception filter. */
module Pipeline {
  import opened Wrappers
  import opened Severity
  import opened ScanResults
  import opened ExceptionManager
  import opened TrivyScanner
  import opened PrometheusExporter

  /** Three findings, one critical and two high, and a live global exception
      for the critical one: the filter keeps the two high findings in order,
      moves the critical one aside, and rebuilds the summary to two HIGH. */
  lemma FilterExample(a: Cve, b: Cve, c: Cve, x: Record, now: int)
    requires a.id == Some(x.cveId) && b.id.Some? && c.id.Some?
    requires b.id.value != x.cveId && c.id.value != x.cveId
    requires a.severity == Present("CRITICAL") && b.severity == Present("HIGH") && c.severity == Present("HIGH")
    requires x.expiryDate > now
    ensures var r := FilterScanResults(ScanResult(None, None, Some([a, b, c]), None, None, None),
                                       Ledger([x], map[]), None, now);
            && r.cveList == Some([b, c])
            && r.excepted == Some(Excepted([a], 1))
            && r.severitySummary == Some([("CRITICAL", 0), ("HIGH", 2), ("MEDIUM", 0), ("LOW", 0), ("UNKNOWN", 0)])
            && r.totalVulnerabilities == Some(2)
  {
    OneLiveRecord(x, now);
    SplitExample(a, b, c, {x.cveId});
    TwoHighSummary(b, c);
  }

  /** A ledger of one live global record excepts exactly its CVE. */
  lemma OneLiveRecord(x: Record, now: int)
    requires x.expiryDate > now
    ensures ActiveExceptions(Ledger([x], map[]), None, now) == {x.cveId}
  {
    assert x.cveId in ActiveExceptions(Ledger([x], map[]), None, now);
  }

  /** The split of a single CVE. */
  lemma SplitOne(c: Cve, active: set<string>)
    ensures Partition([c], active) == if IsExcepted(c, active) then ([], [c]) else ([c], [])
  {
    assert [c][..0] == [] && [] + [c] == [c];
  }

  /** The split of the example's three CVEs when only the first is excepted. */
  lemma SplitExample(a: Cve, b: Cve, c: Cve, active: set<string>)
    requires IsExcepted(a, active) && !IsExcepted(b, active) && !IsExcepted(c, active)
    ensures Partition([a, b, c], active).0 == [b, c]
    ensures Partition([a, b, c], active).1 == [a]
  {
    SplitOne(a, active);
    var ab := [a, b];
    assert ab[..1] == [a] && ab[1] == b;
    assert [] + [b] == [b];
    var p2 := Partition(ab, active);
    assert p2.0 == [b] && p2.1 == [a];
    var abc := [a, b, c];
    assert abc[..2] == ab && abc[2] == c;
    assert [b] + [c] == [b, c];
  }

  /** The rebuilt summary of two HIGH findings. */
  lemma TwoHighSummary(b: Cve, c: Cve)
    requires b.severity == Present("HIGH") && c.severity == Present("HIGH")
    ensures FilteredSummary([b, c]) == [("CRITICAL", 0), ("HIGH", 2), ("MEDIUM", 0), ("LOW", 0), ("UNKNOWN", 0)]
    ensures RecognisedCount(FilterLevels, SeverityKeys([b, c])) == 2
  {
    var keys := SeverityKeys([b, c]);
    assert keys == [Some("HIGH"), Some("HIGH")];
    assert keys[..1] == [Some("HIGH")] && [Some("HIGH")][..0] == [];
    var s := FilteredSummary([b, c]);
    assert |s| == 5;
    forall i | 0 <= i < 5
      ensures s[i] == [("CRITICAL", 0), ("HIGH", 2), ("MEDIUM", 0), ("LOW", 0), ("UNKNOWN", 0)][i]
    {
      OccurrencesOfPair(Some("HIGH"), FilterLevels[i]);
      assert s[i] == (FilterLevels[i], Occurrences(keys, FilterLevels[i]));
    }
  }

  /** Two equal keys are counted twice under their own level and nowhere else. */
  lemma OccurrencesOfPair(k: Option<string>, level: string)
    ensures Occurrences([k, k], level) == if k == Some(level) then 2 else 0
  {
    var one := if k == Some(level) then 1 else 0;
    assert [k][..0] == [];
    assert Occurrences([k], level) == Occurrences([], level) + one;
    assert [k, k][..1] == [k];
    assert Occurrences([k, k], level) == Occurrences([k], level) + one;
  }

  /** Whatever the report and the ledger, the filtered scan result's total
      is the sum of its summary, and it never exceeds the number of CVEs it
      lists. */
  lemma FilteredScanIsConsistent(report: Report, image: string, l: Ledger, scope: Option<string>, now: int)
    ensures var r := FilterScanResults(Enhance(report, image), l, scope, now);
            && TotalMatchesSummary(r)
            && r.totalVulnerabilities.value <= |r.cveList.value|
  {
    if ActiveExceptions(l, scope, now) != {} {
      FilteredTotalIsLength(Enhance(report, image), l, scope, now);
    } else {
      CountsBoundedByVulnerabilities(report);
    }
  }

  /** Every severity one of the five names: the property both stages need
      for their totals to count every CVE. */
  predicate NamedSeverities(report: Report) {
    forall v :: v in Vulnerabilities(report) ==> v.severity.Present? && v.severity.value in FilterLevels
  }

  /** With named severities, every extracted CVE falls in a filter bucket. */
  lemma ExtractedSeveritiesNamed(report: Report)
    requires NamedSeverities(report)
    ensures forall c :: c in ExtractCveList(report) ==> Recognised(FilterLevels, SeverityKey(c))
  {
    var cves := ExtractCveList(report);
    forall c | c in cves
      ensures Recognised(FilterLevels, SeverityKey(c))
    {
      var i :| 0 <= i < |cves| && cves[i] == c;
      assert Vulnerabilities(report)[i] in Vulnerabilities(report);
    }
  }

  /** When the scanner reports every severity as one of the five names, the
      filtered result's total equals the number of CVEs it keeps. */
  lemma NamedSeveritiesKeepTotalExact(report: Report, image: string, l: Ledger, scope: Option<string>, now: int)
    requires NamedSeverities(report)
    ensures var r := FilterScanResults(Enhance(report, image), l, scope, now);
            r.totalVulnerabilities == Some(|r.cveList.value|)
  {
    if ActiveExceptions(l, scope, now) != {} {
      ExtractedSeveritiesNamed(report);
      NamedKeptTotalExact(Enhance(report, image), l, scope, now);
    } else {
      EnhancedTotalIsLength(report, image);
    }
  }

  /** With an active exception and every listed severity one of the five
      buckets, the filtered total equals the number of CVEs kept. */
  lemma NamedKeptTotalExact(sr: ScanResult, l: Ledger, scope: Option<string>, now: int)
    requires ActiveExceptions(l, scope, now) != {}
    requires forall c :: c in sr.cveList.GetOr([]) ==> Recognised(FilterLevels, SeverityKey(c))
    ensures var r := FilterScanResults(sr, l, scope, now);
            r.totalVulnerabilities == Some(|r.cveList.value|)
  {
    FilteredTotalIsLength(sr, l, scope, now);
    var r := FilterScanResults(sr, l, scope, now);
    forall c | c in r.cveList.value
      ensures Recognised(FilterLevels, SeverityKey(c))
    {
      assert c in sr.cveList.GetOr([]);
    }
  }

  /** The scanner counts a lone finding without a severity as UNKNOWN. */
  lemma MissingSeverityCounted(v: Vulnerability, image: string)
    requires v.severity.Absent?
    ensures Enhance(Report(Some([Target(Some([v]))])), image).totalVulnerabilities == Some(1)
    ensures Enhance(Report(Some([Target(Some([v]))])), image).cveList == Some([ToCve(v)])
  {
    var t := Target(Some([v]));
    var report := Report(Some([t]));
    assert [t][1..] == [] && [v] + [] == [v];
    assert Flatten([t]) == [v];
    var keys := CountingKeys([v]);
    assert keys == [Some("UNKNOWN")];
    assert keys[..0] == [];
    assert RecognisedCount(ScannerLevels, keys) == 1;
    var cves := ExtractCveList(report);
    assert |cves| == 1 && cves[0] == ToCve(v);
    assert cves == [ToCve(v)];
  }

  /** A finding without a severity is counted (as UNKNOWN) by the scanner
      but vanishes from the counts once any exception is active: the
      filtered result still lists it, yet its total is zero. */
  lemma MissingSeverityLostAfterFilter(v: Vulnerability, x: Record, image: string, now: int)
    requires v.severity.Absent?
    requires v.vulnerabilityId != Present(x.cveId)
    requires x.expiryDate > now
    ensures var sr := Enhance(Report(Some([Target(Some([v]))])), image);
            var r := FilterScanResults(sr, Ledger([x], map[]), None, now);
            && sr.totalVulnerabilities == Some(1)
            && r.cveList == Some([ToCve(v)])
            && r.totalVulnerabilities == Some(0)
  {
    MissingSeverityCounted(v, image);
    var c := ToCve(v);
    assert c.id != Some(x.cveId);
    LoneUncountedSurvives(Enhance(Report(Some([Target(Some([v]))])), image), c, x, now);
  }

  /** A result listing one CVE with a null severity, filtered by one live
      exception for another id: the CVE stays and the total is zero. */
  lemma LoneUncountedSurvives(sr: ScanResult, c: Cve, x: Record, now: int)
    requires sr.cveList == Some([c]) && c.severity.Null? && c.id != Some(x.cveId)
    requires x.expiryDate > now
    ensures FilterScanResults(sr, Ledger([x], map[]), None, now).cveList == Some([c])
    ensures FilterScanResults(sr, Ledger([x], map[]), None, now).totalVulnerabilities == Some(0)
  {
    OneLiveRecord(x, now);
    NullSeverityKeptUncounted(c, {x.cveId});
  }

  /** A lone CVE with a null severity that no active exception covers is
      kept, but counted in no bucket. */
  lemma NullSeverityKeptUncounted(c: Cve, active: set<string>)
    requires c.severity.Null? && !IsExcepted(c, active)
    ensures Partition([c], active).0 == [c]
    ensures RecognisedCount(FilterLevels, SeverityKeys([c])) == 0
  {
    SplitOne(c, active);
    var keys := SeverityKeys([c]);
    assert keys == [None];
    assert keys[..0] == [];
  }

  /** The keys the metrics exporter reads, as a scan result holds them: the
      image and tag as given, and no flat per-severity count keys at all,
      since the scanner and the filter write only `severity_summary`. */
  function MetricsInputOf(sr: ScanResult): (m: MetricsInput)
    ensures m.image.Get() == sr.image && m.tag.Get() == sr.tag
    ensures !m.image.Null? && !m.tag.Null?
    ensures m.criticalCount.Absent? && m.highCount.Absent? && m.mediumCount.Absent? && m.lowCount.Absent?
  {
    MetricsInput(
      match sr.image case Some(i) => Present(i) case None => Absent,
      match sr.tag case Some(t) => Present(t) case None => Absent,
      Absent, Absent, Absent, Absent)
  }

  /** The result after the exception filter, pushed as it is: the filter
      keeps the image and tag and writes only `severity_summary`, so the
      gauges still carry the sanitised image name, the tag "latest" and 0
      for every count, whether or not any exception applied. */
  lemma FilteredResultPushesZeroes(report: Report, image: string, l: Ledger, scope: Option<string>, now: int)
    ensures GaugeValues(MetricsInputOf(FilterScanResults(Enhance(report, image), l, scope, now)))
         == Some(Gauges(SanitiseLabel(image), "latest", 0, 0, 0, 0, 0))
  {
    var sr := FilterScanResults(Enhance(report, image), l, scope, now);
    assert sr.image == Some(image) && sr.tag.None?;
    assert MetricsInputOf(sr) == MetricsInput(Present(image), Absent, Absent, Absent, Absent, Absent);
    ImageOnlyGauges(image);
  }

  /** The scanner's own result, pushed as it is: labelled with the
      sanitised image name and the tag "latest", and every count 0 however
      many vulnerabilities were found. */
  lemma ScannerResultPushesZeroes(report: Report, image: string)
    ensures GaugeValues(MetricsInputOf(Enhance(report, image)))
         == Some(Gauges(SanitiseLabel(image), "latest", 0, 0, 0, 0, 0))
  {
    var sr := Enhance(report, image);
    assert MetricsInputOf(sr) == MetricsInput(Present(image), Absent, Absent, Absent, Absent, Absent);
    ImageOnlyGauges(image);
  }

  /** The gauges of an input that names only the image. */
  lemma ImageOnlyGauges(image: string)
    ensures GaugeValues(MetricsInput(Present(image), Absent, Absent, Absent, Absent, Absent))
         == Some(Gauges(SanitiseLabel(image), "latest", 0, 0, 0, 0, 0))
  {
    LatestIsValid();
  }

  lemma LatestIsValid()
    ensures SanitiseLabel("latest") == "latest"
  {
    SanitiseKeepsValidLabels("latest");
  }
}
