/** The threshold gate: a severity summary checked against a per-severity
    policy, and the process exit code the CI step derives from the verdict. */
module ThresholdChecker {
  import opened Wrappers
  import opened Severity

  /** The ceiling used when a configured severity gives no `max_allowed`. */
  const DefaultMaxAllowed: int := 999

  /** The action used when a configured severity gives no `action`. */
  const DefaultAction: string := "log"

  /** One configured severity. A missing `max_allowed` is `None`; `action`
      keeps the missing/null/value shape, because `threshold.get('action',
      'log')` substitutes the default only for a missing key. */
  datatype Threshold = Threshold(maxAllowed: Option<int>, action: Field<string>)

  /** The `thresholds` section, keyed by lower-case severity name. */
  type Thresholds = map<string, Threshold>

  /** A violation's `action` is `None` when the policy gives an explicit
      null action. */
  datatype Violation = Violation(severity: string, count: int, maxAllowed: int, action: Option<string>)

  datatype Verdict = Verdict(passed: bool, violations: seq<Violation>, actions: seq<Option<string>>)

  function EffectiveMax(t: Threshold): (m: int)
    ensures t.maxAllowed.None? ==> m == 999
    ensures t.maxAllowed.Some? ==> m == t.maxAllowed.value
  {
    t.maxAllowed.GetOr(DefaultMaxAllowed)
  }

  function EffectiveAction(t: Threshold): (a: Option<string>)
    ensures t.action.Absent? ==> a == Some("log")
    ensures a.None? <==> t.action.Null?
    ensures t.action.Present? ==> a == Some(t.action.value)
  {
    t.action.GetOr(DefaultAction)
  }

  /** ASCII lower-casing of one character. */
  function LowerChar(c: char): char {
    if 'A' <= c <= 'Z' then (c as int - 'A' as int + 'a' as int) as char else c
  }

  /** `str.lower()`, on ASCII letters. */
  function Lower(s: string): (r: string)
    ensures |r| == |s|
    ensures forall i :: 0 <= i < |s| ==> r[i] == LowerChar(s[i])
  {
    if s == [] then [] else [LowerChar(s[0])] + Lower(s[1..])
  }

  /** A summary entry breaks the policy: its lower-cased name is configured
      and its count is strictly above the effective ceiling. */
  predicate Violates(entry: (string, int), thresholds: Thresholds) {
    Lower(entry.0) in thresholds && entry.1 > EffectiveMax(thresholds[Lower(entry.0)])
  }

  /** The violation record a breaking entry produces. */
  function ViolationOf(entry: (string, int), thresholds: Thresholds): Violation
    requires Lower(entry.0) in thresholds
  {
    var t := thresholds[Lower(entry.0)];
    Violation(entry.0, entry.1, EffectiveMax(t), EffectiveAction(t))
  }

  /** The loop over the summary's entries in order, appending a violation
      and its action for every entry that breaks the policy. */
  function CheckEntries(entries: Summary, thresholds: Thresholds): (v: Verdict)
    ensures |v.actions| == |v.violations|
    ensures forall i :: 0 <= i < |v.violations| ==> v.actions[i] == v.violations[i].action
    ensures v.passed <==> v.violations == []
    ensures forall x :: x in v.violations ==>
      && (x.severity, x.count) in entries
      && Violates((x.severity, x.count), thresholds)
      && x == ViolationOf((x.severity, x.count), thresholds)
    ensures forall e :: e in entries && Violates(e, thresholds) ==> ViolationOf(e, thresholds) in v.violations
  {
    if entries == [] then Verdict(true, [], [])
    else
      var init := entries[..|entries| - 1];
      var e := entries[|entries| - 1];
      assert entries == init + [e];
      var prev := CheckEntries(init, thresholds);
      if Violates(e, thresholds) then
        var x := ViolationOf(e, thresholds);
        Verdict(false, prev.violations + [x], prev.actions + [x.action])
      else prev
  }

  /** `ThresholdChecker.check`: a missing `severity_summary` checks as an
      empty one. */
  function Check(summary: Option<Summary>, thresholds: Thresholds): (v: Verdict)
    ensures v.passed <==> forall e :: e in summary.GetOr([]) ==> !Violates(e, thresholds)
    ensures forall x :: x in v.violations ==>
      && Lower(x.severity) in thresholds
      && x.count > x.maxAllowed
      && x.maxAllowed == EffectiveMax(thresholds[Lower(x.severity)])
      && x.action == EffectiveAction(thresholds[Lower(x.severity)])
  {
    var v := CheckEntries(summary.GetOr([]), thresholds);
    assert !v.passed ==> v.violations[0] in v.violations;
    v
  }

  /** The exit code at the end of the CLI: 1 when any action is `block`;
      `warn` alone, like `log` or a null action, lets the build pass. */
  function ExitCode(actions: seq<Option<string>>): (code: int)
    ensures code == 0 || code == 1
    ensures code == 1 <==> exists i :: 0 <= i < |actions| && actions[i] == Some("block")
  {
    if Some("block") in actions then 1
    else if Some("warn") in actions then 0
    else 0
  }

  // ---------------------------------------------------------------------
  // Properties of the verdict

  /** Violations come out in the summary's order: checking a concatenation
      checks each part in turn. */
  lemma {:induction false} CheckKeepsOrder(a: Summary, b: Summary, thresholds: Thresholds)
    ensures CheckEntries(a + b, thresholds).violations
         == CheckEntries(a, thresholds).violations + CheckEntries(b, thresholds).violations
    ensures CheckEntries(a + b, thresholds).actions
         == CheckEntries(a, thresholds).actions + CheckEntries(b, thresholds).actions
    decreases |b|
  {
    if b == [] {
      assert a + b == a;
    } else {
      var binit := b[..|b| - 1];
      assert (a + b)[..|a + b| - 1] == a + binit;
      assert (a + b)[|a + b| - 1] == b[|b| - 1];
      CheckKeepsOrder(a, binit, thresholds);
    }
  }

  /** A count equal to its ceiling is not a violation: the comparison is
      strict. */
  lemma BoundaryIsNotViolation(severity: string, max: int, action: Field<string>)
    ensures Check(Some([(severity, max)]), map[Lower(severity) := Threshold(Some(max), action)]).passed
  {
  }

  /** A severity the policy does not configure never fails the gate, however
      high its count. */
  lemma UnconfiguredNeverViolates(severity: string, count: int, thresholds: Thresholds)
    requires Lower(severity) !in thresholds
    ensures Check(Some([(severity, count)]), thresholds) == Verdict(true, [], [])
  {
  }

  /** A configured severity with neither key set is held to 999 and, when
      it breaks that, reports the `log` action. */
  lemma MissingSettingsDefault(severity: string, count: int)
    ensures var v := Check(Some([(severity, count)]), map[Lower(severity) := Threshold(None, Absent)]);
            && (v.passed <==> count <= 999)
            && (!v.passed ==> v.violations == [Violation(severity, count, 999, Some("log"))] && v.actions == [Some("log")])
  {
    CheckSingle((severity, count), map[Lower(severity) := Threshold(None, Absent)]);
  }

  /** An explicit null action is not replaced by `log`: the violation and
      the action list carry null, and the build is not blocked. */
  lemma NullActionNeverBlocks(severity: string, count: int, max: Option<int>)
    requires count > max.GetOr(DefaultMaxAllowed)
    ensures var v := Check(Some([(severity, count)]), map[Lower(severity) := Threshold(max, Null)]);
            && !v.passed
            && v.violations == [Violation(severity, count, max.GetOr(DefaultMaxAllowed), None)]
            && v.actions == [None]
            && ExitCode(v.actions) == 0
  {
    CheckSingle((severity, count), map[Lower(severity) := Threshold(max, Null)]);
  }

  /** A zero count never fails the gate while every configured ceiling is
      non-negative; a negative `max_allowed` is the only way it can. */
  lemma ZeroCountNeverViolates(severity: string, thresholds: Thresholds)
    ensures Check(Some([(severity, 0)]), thresholds).passed <==>
      (Lower(severity) in thresholds ==> EffectiveMax(thresholds[Lower(severity)]) >= 0)
  {
    CheckSingle((severity, 0), thresholds);
  }

  /** The build fails exactly when some violation carries the `block`
      action; in particular a passing verdict always exits 0. */
  lemma ExitCodeOfVerdict(summary: Option<Summary>, thresholds: Thresholds)
    ensures var v := Check(summary, thresholds);
            && (ExitCode(v.actions) == 1 <==> exists x :: x in v.violations && x.action == Some("block"))
            && (v.passed ==> ExitCode(v.actions) == 0)
  {
    var v := Check(summary, thresholds);
    if exists x :: x in v.violations && x.action == Some("block") {
      var x :| x in v.violations && x.action == Some("block");
      var i :| 0 <= i < |v.violations| && v.violations[i] == x;
      assert v.actions[i] == Some("block");
    }
  }

  lemma LowerCritical()
    ensures Lower("CRITICAL") == "critical"
  {
    var r := Lower("CRITICAL");
    assert |r| == 8;
    forall i | 0 <= i < 8
      ensures r[i] == "critical"[i]
    {
      assert r[i] == LowerChar("CRITICAL"[i]);
    }
  }

  lemma LowerHigh()
    ensures Lower("HIGH") == "high"
  {
    var r := Lower("HIGH");
    forall i | 0 <= i < 4
      ensures r[i] == "high"[i]
    {
      assert r[i] == LowerChar("HIGH"[i]);
    }
  }

  /** The verdict on a one-entry summary. */
  lemma CheckSingle(e: (string, int), thresholds: Thresholds)
    ensures CheckEntries([e], thresholds)
         == if Violates(e, thresholds) then Verdict(false, [ViolationOf(e, thresholds)], [ViolationOf(e, thresholds).action])
            else Verdict(true, [], [])
  {
    assert [e][..0] == [];
  }

  /** The policy `critical: max 0, block` and `high: max 5, warn`. */
  function ExamplePolicy(): Thresholds {
    map["critical" := Threshold(Some(0), Present("block")), "high" := Threshold(Some(5), Present("warn"))]
  }

  /** What the example policy makes of one entry named `name`. */
  lemma ExampleEntry(name: string, key: string, count: int, max: int, action: string) returns (x: Violation)
    requires key in ExamplePolicy() && ExamplePolicy()[key] == Threshold(Some(max), Present(action))
    requires Lower(name) == key
    requires count > max
    ensures Violates((name, count), ExamplePolicy())
    ensures x == ViolationOf((name, count), ExamplePolicy()) == Violation(name, count, max, Some(action))
  {
    x := ViolationOf((name, count), ExamplePolicy());
  }

  /** The example policy against one critical and ten high findings: two
      violations in summary order, and `block` fails the build even though
      `warn` is also present. The summary's names may be spelled in any
      case. */
  lemma BlockOutranksWarn(critical: string, high: string)
    requires Lower(critical) == "critical" && Lower(high) == "high"
    ensures var v := Check(Some([(critical, 1), (high, 10)]), ExamplePolicy());
            && !v.passed
            && v.violations == [Violation(critical, 1, 0, Some("block")), Violation(high, 10, 5, Some("warn"))]
            && ExitCode(v.actions) == 1
  {
    var v := ExampleVerdict(critical, high);
    assert v.actions[0] == Some("block");
  }

  /** The example's verdict, entry by entry. */
  lemma ExampleVerdict(critical: string, high: string) returns (v: Verdict)
    requires Lower(critical) == "critical" && Lower(high) == "high"
    ensures v == CheckEntries([(critical, 1), (high, 10)], ExamplePolicy())
    ensures v == Verdict(false, [Violation(critical, 1, 0, Some("block")), Violation(high, 10, 5, Some("warn"))],
                         [Some("block"), Some("warn")])
  {
    var p := ExamplePolicy();
    var a := ExampleEntry(critical, "critical", 1, 0, "block");
    var b := ExampleEntry(high, "high", 10, 5, "warn");
    v := CheckPair((critical, 1), (high, 10), p);
  }

  /** The verdict on a two-entry summary whose entries both break the
      policy. */
  lemma CheckPair(e1: (string, int), e2: (string, int), thresholds: Thresholds) returns (v: Verdict)
    requires Violates(e1, thresholds) && Violates(e2, thresholds)
    ensures v == CheckEntries([e1, e2], thresholds)
    ensures v == Verdict(false, [ViolationOf(e1, thresholds), ViolationOf(e2, thresholds)],
                         [ViolationOf(e1, thresholds).action, ViolationOf(e2, thresholds).action])
  {
    var x1, x2 := ViolationOf(e1, thresholds), ViolationOf(e2, thresholds);
    CheckSingle(e1, thresholds);
    var first := CheckEntries([e1], thresholds);
    assert [e1, e2][..1] == [e1];
    v := CheckEntries([e1, e2], thresholds);
    assert v == Verdict(false, first.violations + [x2], first.actions + [x2.action]);
    assert [x1] + [x2] == [x1, x2];
    assert [x1.action] + [x2.action] == [x1.action, x2.action];
  }

  /** The example with the summary's own upper-case names. */
  lemma BlockOutranksWarnUpperCase()
    ensures var v := Check(Some([("CRITICAL", 1), ("HIGH", 10)]), ExamplePolicy());
            && v.violations == [Violation("CRITICAL", 1, 0, Some("block")), Violation("HIGH", 10, 5, Some("warn"))]
            && ExitCode(v.actions) == 1
  {
    LowerCritical();
    LowerHigh();
    BlockOutranksWarn("CRITICAL", "HIGH");
  }
}
