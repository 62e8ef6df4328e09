/** The pure part of the metrics exporter: cleaning up the push-gateway
    URL, sanitising label values, and the gauge values it sets. */
module PrometheusExporter {
  import opened Wrappers

  /** The path the constructor strips from the end of a gateway URL. */
  const MetricsPath: string := "/metrics"

  predicate EndsWith(s: string, suffix: string) {
    |suffix| <= |s| && s[|s| - |suffix|..] == suffix
  }

  predicate AllSlashes(s: string) {
    forall i :: 0 <= i < |s| ==> s[i] == '/'
  }

  /** `s.rstrip('/')`: the longest prefix of `s` that does not end in '/'. */
  function StripSlashes(s: string): (r: string)
    ensures |r| <= |s| && r == s[..|r|]
    ensures !EndsWith(r, "/")
    ensures AllSlashes(s[|r|..])
  {
    if s == [] || s[|s| - 1] != '/' then s
    else
      var r := StripSlashes(s[..|s| - 1]);
      assert s[..|s| - 1][..|r|] == s[..|r|];
      assert s[|r|..] == s[..|s| - 1][|r|..] + ['/'];
      r
  }

  /** The constructor's clean-up of the gateway URL. A missing or empty URL
      is kept as it is. Otherwise trailing slashes are stripped, and then
      one trailing "/metrics", if present, is removed. */
  function NormaliseGatewayUrl(url: Option<string>): (r: Option<string>)
    ensures url.None? ==> r == None
    ensures url == Some("") ==> r == Some("")
    ensures r.Some? ==> url.Some? && |r.value| <= |url.value| && r.value == url.value[..|r.value|]
    ensures url.Some? && url.value != "" ==>
      && r.Some?
      && var dropped := url.value[|r.value|..];
         || (AllSlashes(dropped) && !EndsWith(r.value, "/") && !EndsWith(r.value, MetricsPath))
         || (|dropped| >= |MetricsPath| && dropped[..|MetricsPath|] == MetricsPath && AllSlashes(dropped[|MetricsPath|..]))
  {
    match url
    case None => None
    case Some(u) =>
      if u == "" then url
      else
        var t := StripSlashes(u);
        if EndsWith(t, MetricsPath) then
          var r := t[..|t| - |MetricsPath|];
          assert u[|r|..] == t[|r|..] + u[|t|..];
          Some(r)
        else Some(t)
  }

  /** A character the label pattern `[a-zA-Z0-9_]` accepts. */
  predicate LabelChar(c: char) {
    'a' <= c <= 'z' || 'A' <= c <= 'Z' || '0' <= c <= '9' || c == '_'
  }

  /** `re.sub(r'[^a-zA-Z0-9_]', '_', s)`: every other character becomes an
      underscore, one for one. */
  function SanitiseLabel(s: string): (r: string)
    ensures |r| == |s|
    ensures forall i :: 0 <= i < |r| ==> LabelChar(r[i])
    ensures forall i :: 0 <= i < |s| && LabelChar(s[i]) ==> r[i] == s[i]
    ensures forall i :: 0 <= i < |s| && !LabelChar(s[i]) ==> r[i] == '_'
  {
    if s == [] then [] else [if LabelChar(s[0]) then s[0] else '_'] + SanitiseLabel(s[1..])
  }

  /** The keys `export_scan_metrics` reads from its input. */
  datatype MetricsInput = MetricsInput(
    image: Field<string>,
    tag: Field<string>,
    criticalCount: Field<int>,
    highCount: Field<int>,
    mediumCount: Field<int>,
    lowCount: Field<int>)

  /** The label values and the five severity gauges set for one push. */
  datatype Gauges = Gauges(image: string, tag: string, critical: int, high: int, medium: int, low: int, total: int)

  /** The count read for one severity: a missing key reads as 0. */
  function CountOf(f: Field<int>): Option<int> {
    f.GetOr(0)
  }

  /** The gauge values of one push, or `None` where the exporter would raise
      a TypeError: an explicit null image or tag cannot be sanitised, and an
      explicit null count cannot be added. The image defaults to "unknown"
      and the tag to "latest"; the total covers the four named severities
      only, never UNKNOWN. */
  function GaugeValues(m: MetricsInput): (g: Option<Gauges>)
    ensures g.Some? <==>
      !m.image.Null? && !m.tag.Null? &&
      !m.criticalCount.Null? && !m.highCount.Null? && !m.mediumCount.Null? && !m.lowCount.Null?
    ensures g.Some? ==>
      && g.value.image == SanitiseLabel(if m.image.Present? then m.image.value else "unknown")
      && g.value.tag == SanitiseLabel(if m.tag.Present? then m.tag.value else "latest")
      && (m.criticalCount.Absent? ==> g.value.critical == 0)
      && (m.criticalCount.Present? ==> g.value.critical == m.criticalCount.value)
      && (m.highCount.Absent? ==> g.value.high == 0)
      && (m.highCount.Present? ==> g.value.high == m.highCount.value)
      && (m.mediumCount.Absent? ==> g.value.medium == 0)
      && (m.mediumCount.Present? ==> g.value.medium == m.mediumCount.value)
      && (m.lowCount.Absent? ==> g.value.low == 0)
      && (m.lowCount.Present? ==> g.value.low == m.lowCount.value)
      && g.value.total == g.value.critical + g.value.high + g.value.medium + g.value.low
  {
    match (m.image.GetOr("unknown"), m.tag.GetOr("latest"))
    case (Some(image), Some(tag)) =>
      (match (CountOf(m.criticalCount), CountOf(m.highCount), CountOf(m.mediumCount), CountOf(m.lowCount))
       case (Some(c), Some(h), Some(md), Some(l)) =>
         Some(Gauges(SanitiseLabel(image), SanitiseLabel(tag), c, h, md, l, c + h + md + l))
       case _ => None)
    case _ => None
  }

  // ---------------------------------------------------------------------
  // Properties

  /** Sanitising a sanitised label changes nothing. */
  lemma SanitiseIdempotent(s: string)
    ensures SanitiseLabel(SanitiseLabel(s)) == SanitiseLabel(s)
  {
    var once := SanitiseLabel(s);
    var twice := SanitiseLabel(once);
    assert forall i :: 0 <= i < |twice| ==> twice[i] == once[i];
  }

  /** A label already made of allowed characters is left as it is. */
  lemma SanitiseKeepsValidLabels(s: string)
    requires forall i :: 0 <= i < |s| ==> LabelChar(s[i])
    ensures SanitiseLabel(s) == s
  {
  }

  /** The usual shape: a trailing "/metrics/" is removed entirely. */
  lemma TrailingMetricsRemoved(host: string)
    ensures NormaliseGatewayUrl(Some(host + "/metrics/")) == Some(host)
  {
    var u := host + "/metrics/";
    assert u[|u| - 1] == '/';
    assert u[..|u| - 1] == host + MetricsPath;
    var t := host + MetricsPath;
    assert t[|t| - 1] == 's';
    assert StripSlashes(u) == t;
    assert EndsWith(t, MetricsPath);
    assert t[..|t| - |MetricsPath|] == host;
  }

  /** The "/metrics" removal happens once only: "x/metrics/metrics" becomes
      "x/metrics", so the clean-up is not idempotent. */
  lemma MetricsRemovedOnce(host: string)
    ensures NormaliseGatewayUrl(Some(host + MetricsPath + MetricsPath)) == Some(host + MetricsPath)
  {
    var u := host + MetricsPath + MetricsPath;
    assert u[|u| - 1] == 's';
    assert EndsWith(u, MetricsPath);
    assert u[..|u| - |MetricsPath|] == host + MetricsPath;
  }
}
