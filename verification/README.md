# Scan-policy core of a container vulnerability pipeline, in Dafny

This project models the policy layer of a CI pipeline that scans container
images with Trivy, and it proves properties of that model. The layer has
five parts:

- **Exception ledger and result filter** (`ExceptionManager`). The ledger holds
  time-bound CVE exceptions, either global or for one image. The filter moves
  excepted CVEs out of a scan result and rebuilds the severity summary and
  the total from what is left.
- **Threshold gate** (`ThresholdChecker`). It checks a severity summary against
  a per-severity policy and returns a verdict with ordered violations and a
  parallel action list. The CI exit code is derived from that action list.
- **Resilience layer** (`RetryHandler`, `CircuitBreaker`). Retry with
  exponential backoff, and the circuit breaker's `call` as a step function.
- **Scan aggregation** (`TrivyScanner`). The folds over the scanner's
  `Results[].Vulnerabilities[]` report: the per-severity count, the flat CVE
  list, and the total.
- **Metrics normalisation** (`PrometheusExporter`). Push-gateway URL clean-up,
  label sanitising, and the gauge values with their defaults.

Shared pieces:

- `Wrappers` defines `Option`, and `Field`, which tells a missing JSON key
  apart from an explicit null. This matters because `d.get(k, default)`
  substitutes the default only for a missing key.
- `Seqs` defines an order-preserving filter, the shape of the list
  comprehensions in the ledger code.
- `Severity` defines the ordered severity summary (a Python dict keeps
  insertion order), the tally fold that both the scanner and the filter use,
  and its sum.
- `ScanResults` defines the scan-result record the stages pass along.
- `Pipeline` states properties of the scanner and the filter composed.

Inputs the code reads from the environment are explicit parameters here:

- Time is an integer clock in seconds, passed as `now`.
- The sha256 fingerprint is a function parameter applied to the CVE id
  followed by the reason.
- The retried operation is a function from attempt number to outcome, and
  sleeping is recorded as a sequence of delays.
- The breaker's clock reading and the operation's outcome are arguments of
  each step. `now` is the time at the end of the call: it is compared with
  the last failure time in the open check and recorded after a failing call,
  as if the operation took no time.

## Behaviour worth knowing

- **Closed-state success.** A success while the breaker is closed does not
  reset the failure count; only a half-open success does. Failures that are
  not consecutive therefore still open the breaker
  (`CircuitBreaker.ScatteredFailuresTrip`).
- **Total versus CVE count.** A scan result's total can be smaller than its
  number of CVEs. They agree exactly when every severity is counted. For the
  scanner's result that means a missing severity or one of the five names;
  after filtering it means one of the five names:
  - The scanner counts a vulnerability with no `Severity` key as UNKNOWN.
  - Its CVE list copies that severity as null, and the filter then drops it
    from the rebuilt summary.
  - So the filtered total can fall below the number of CVEs listed
    (`Pipeline.MissingSeverityLostAfterFilter`). The exact equality holds
    when all severities are named (`Pipeline.NamedSeveritiesKeepTotalExact`).
- **Exit code.** The verdict carries no single action. The exit code is 1
  when `block` is among the actions and 0 otherwise, so `warn` and `log`
  never fail the build.
- **Null action.** An explicit null `action` is not replaced by `log`: the
  violation and the action list carry null, and the build is not blocked
  (`ThresholdChecker.NullActionNeverBlocks`).
- **Interrupts.** Retry and the breaker catch only `Exception`. A
  `KeyboardInterrupt` or `SystemExit` passes straight through: no retry, no
  sleep, and no failure bookkeeping. A breaker probing after its timeout is
  then left half-open, and its next call runs the operation whatever the
  clock says (`CircuitBreaker.InterruptedProbe`).
- **Metrics from a scan result.** The exporter reads flat `critical_count`,
  `high_count`, `medium_count` and `low_count` keys, which neither the
  scanner nor the filter writes. A scan result pushed as it is therefore
  reports 0 for every severity and for the total, whatever was found, both
  before and after the exception filter (`Pipeline.ScannerResultPushesZeroes`,
  `Pipeline.FilteredResultPushesZeroes`).
- **Malformed expiry dates.** A malformed expiry date makes the code raise
  rather than treat the record as expired. Dates are integers here, so that
  path does not arise.

## Model

| member | source | states |
|---|---|---|
| Seqs.Filter | scanner/exception_manager.py:54-57 | the kept list is no longer than the input and holds exactly the input elements that satisfy the predicate |
| Seqs.FilterCount | scanner/exception_manager.py:54-57 | every occurrence of a selected value is kept and every occurrence of any other value is dropped |
| Seqs.FilterConcat | scanner/exception_manager.py:54-57 | selection distributes over concatenation, so the survivors keep their relative order |
| Seqs.FilterIdempotent | scanner/exception_manager.py:131-134 | selecting twice with the same predicate gives the same list as selecting once |
| ScanResults.SeverityKey | scanner/exception_manager.py:116 | the filter buckets a CVE by its severity; a missing key reads as "UNKNOWN", an explicit null reads as no severity at all (and only then), a present value as itself |
| Severity.Tally | scanner/exception_manager.py:114-118 | the summary has one entry per level, in level order, each holding the number of keys that name that level |
| Severity.SumTally | scanner/exception_manager.py:120-121 | over distinct levels, the sum of the tally equals the number of keys that name some level; other keys are silently dropped |
| Severity.RecognisedCountBound | scanner/trivy_scanner.py:111-117 | at most every key is counted, and all are counted exactly when each one names a level |
| ExceptionManager.AddException | scanner/exception_manager.py:27-48 | the new record carries the given id, reason and approver; its expiry is now plus the given days; its hash is the fingerprint of id followed by reason. It is appended to the global list when the image is falsy, otherwise to that image's list, which is created if missing. Every other list is unchanged |
| ExceptionManager.AddedIsActive | scanner/exception_manager.py:31-45 | a record added with a positive lifetime is active at the moment of adding, for the image it was added under |
| ExceptionManager.AddTwiceKeepsBoth | scanner/exception_manager.py:40-45 | adding the same CVE and reason twice leaves two identical records; there is no de-duplication |
| ExceptionManager.FingerprintSeesConcatenation | scanner/exception_manager.py:37 | ("CVE-1", "23") and ("CVE-12", "3") get the same hash, because only the concatenation is fingerprinted |
| ExceptionManager.RemoveException | scanner/exception_manager.py:50-66 | every record with the hash is dropped from the global list and from every image list, every other record keeps its multiplicity and its order, and no image key is removed |
| ExceptionManager.RemoveUndoesAdd | scanner/exception_manager.py:50-64 | removing by the hash of a record just added equals removing that hash from the original ledger, so earlier records with the same hash go too; an image key the add created stays behind, empty |
| ExceptionManager.RemoveInvertsFreshAdd | scanner/exception_manager.py:27-64 | when no record already carries the new record's hash, removing by it restores every list of the original ledger; an image key the add created stays behind, empty |
| ExceptionManager.RemoveAbsentIsNoOp | scanner/exception_manager.py:50-64 | removing a hash that no record carries leaves the ledger unchanged |
| ExceptionManager.RemoveKeepsOrder | scanner/exception_manager.py:54-64 | removal from a concatenation is the concatenation of the removals, in the global list and in an image list, so survivors keep their order |
| ExceptionManager.KeepInEach | scanner/exception_manager.py:59-64 | the per-image rewrite (also used by the sweep at lines 137-141) keeps every image key and replaces each list by the selection of its own records |
| ExceptionManager.LiveIds | scanner/exception_manager.py:75-78 | an id is collected exactly when some record of the list with that id expires strictly after now |
| ExceptionManager.ActiveExceptions | scanner/exception_manager.py:68-87 | an id is active exactly when a live global record names it, or when the image is truthy, is a key, and a live record under exactly that key names it |
| ExceptionManager.ActiveAntitone | scanner/exception_manager.py:76-85 | for t1 <= t2 the active set at t2 is contained in the active set at t1 |
| ExceptionManager.ExpiringNowIsInactive | scanner/exception_manager.py:76-78 | a record whose expiry equals now excepts nothing, because the comparison is strict |
| ExceptionManager.CleanupExpired | scanner/exception_manager.py:125-143 | each list keeps exactly its records that expire after now, in their order and with their multiplicities, and every image key stays |
| ExceptionManager.CleanupIdempotent | scanner/exception_manager.py:131-141 | a second sweep at the same time changes nothing |
| ExceptionManager.CleanupKeepsActive | scanner/exception_manager.py:125-141 | a sweep at now leaves the active set at now, and at every later time, unchanged |
| ExceptionManager.IsExcepted | scanner/exception_manager.py:102 | a CVE counts as excepted only if its id is present and among the active ids; a null id, or an empty active set, never excepts |
| ExceptionManager.Partition | scanner/exception_manager.py:101-105 | every kept CVE comes from the input and is not excepted; every excepted CVE comes from the input and is excepted |
| ExceptionManager.PartitionCount | scanner/exception_manager.py:101-105 | together the two sides hold exactly the input, as a multiset |
| ExceptionManager.PartitionIsFilter | scanner/exception_manager.py:101-105 | the kept side is the order-preserving selection of the CVEs no active exception covers, and the excepted side that of the CVEs one does |
| ExceptionManager.PartitionKeepsOrder | scanner/exception_manager.py:101-105 | splitting a concatenation splits each part, so both sides keep the input order |
| ExceptionManager.FilteredSummary | scanner/exception_manager.py:114-118 | the rebuilt summary has the five levels in order, each counting the CVEs whose severity, read with the UNKNOWN default, names it |
| ExceptionManager.FilterScanResults | scanner/exception_manager.py:89-123 | with no active exception the result is returned as given. Otherwise: the kept and the excepted CVEs are the order-preserving selections of the input CVEs not covered and covered by an active exception, so their multisets add up to the input; excepted CVEs are exactly the active ones; the excepted count is their number; the summary has the five levels, each counting kept CVEs of that severity; the total counts the kept CVEs whose severity is one of the five; other keys are copied |
| ExceptionManager.FilteredTotalIsLength | scanner/exception_manager.py:113-121 | after filtering, the total is the sum of the summary and at most the number of kept CVEs, and it equals that number exactly when every kept severity is one of the five |
| ExceptionManager.KeptCount | scanner/exception_manager.py:115-118 | the number of CVEs whose severity names a bucket is at most the list length, and equals it exactly when every severity does |
| ThresholdChecker.Lower | scripts/threshold_checker.py:28 | lower-casing keeps the length and maps each ASCII capital to its small letter, leaving other characters alone |
| ThresholdChecker.EffectiveMax | scripts/threshold_checker.py:31 | an unset `max_allowed` reads as 999; a set one is used as it is |
| ThresholdChecker.EffectiveAction | scripts/threshold_checker.py:39-42 | a missing `action` reads as "log"; an explicit null reads as no action (and only then); a present one as itself |
| ThresholdChecker.Violates | scripts/threshold_checker.py:28-33 | an entry breaks the policy when its lower-cased name is configured and its count is strictly above the configured ceiling, 999 when missing |
| ThresholdChecker.ViolationOf | scripts/threshold_checker.py:30-40 | the violation keeps the entry's name as written and its count, with the effective ceiling and the action read with the log default |
| ThresholdChecker.CheckEntries | scripts/threshold_checker.py:27-42 | actions run parallel to violations; the verdict passes exactly when there are none; every violation comes from a breaking entry with its effective ceiling and action; every breaking entry yields its violation |
| ThresholdChecker.Check | scripts/threshold_checker.py:20-44 | passes exactly when no summary entry breaks the policy (a missing summary reads as empty); each violation's lower-cased name is configured, its count is above its ceiling, and its ceiling and action default to 999 and log when missing |
| ThresholdChecker.CheckKeepsOrder | scripts/threshold_checker.py:27-42 | violations and actions come out in summary order: checking a concatenation concatenates the two checks |
| ThresholdChecker.BoundaryIsNotViolation | scripts/threshold_checker.py:33 | a count equal to its ceiling passes, because the comparison is strict |
| ThresholdChecker.UnconfiguredNeverViolates | scripts/threshold_checker.py:29 | a severity the policy does not configure passes whatever its count |
| ThresholdChecker.MissingSettingsDefault | scripts/threshold_checker.py:31-42 | a configured severity with neither key set fails exactly above 999, and then reports the log action |
| ThresholdChecker.NullActionNeverBlocks | scripts/threshold_checker.py:33-42 | a breaking entry whose action is an explicit null yields a violation and an action that are null, and exit code 0 |
| ThresholdChecker.ZeroCountNeverViolates | scripts/threshold_checker.py:31-33 | a zero count passes exactly when its ceiling, if configured, is not negative |
| ThresholdChecker.ExitCode | scripts/threshold_checker.py:79-84 | the exit code is 0 or 1, and it is 1 exactly when some action is block; a null action is not block |
| ThresholdChecker.ExitCodeOfVerdict | scripts/threshold_checker.py:63-84 | the build fails exactly when some violation carries block, and a passing verdict exits 0 |
| ThresholdChecker.BlockOutranksWarn | scripts/threshold_checker.py:27-84 | policy critical max 0 block and high max 5 warn, against one critical and ten high in any letter case: two violations in summary order, and exit code 1 even though warn is present |
| ThresholdChecker.BlockOutranksWarnUpperCase | scripts/threshold_checker.py:27-84 | the same example with the names spelled CRITICAL and HIGH |
| RetryHandler.RetryWithBackoff | scanner/retry_handler.py:27-49 | one to max_retries + 1 calls; every call before the last raised an `Exception`; the outcome is the last call's, unchanged; a caught failure outcome means all max_retries + 1 calls were made; an interrupt on the first call stops at once without sleeping; one sleep between consecutive calls and none after the last, the k-th sleep being the k-th backoff delay |
| RetryHandler.Delay | scanner/retry_handler.py:28-43 | the first delay is the initial delay and every later one is within max_delay |
| RetryHandler.NextDelay | scanner/retry_handler.py:43 | the next delay is the smaller of the previous delay times the factor and max_delay |
| RetryHandler.DelayCapped | scanner/retry_handler.py:43 | every delay after the first is at most max_delay |
| RetryHandler.DelaysNonDecreasing | scanner/retry_handler.py:28-43 | with a factor of at least one and a first delay within the cap, the delays never shrink and stay within the cap |
| RetryHandler.DefaultDelays | scanner/retry_handler.py:12-43 | under the default policy the three sleeps are 1, 2 and 4 seconds |
| CircuitBreaker.Call | scanner/retry_handler.py:64-92 | an open breaker within the recovery timeout rejects without invoking and without changing state; the operation is invoked exactly when the breaker is not open or the timeout has passed; a success returns the value, resets a half-open or open breaker to closed with count 0, and leaves a closed breaker as it was; an open breaker with no failure time fails on the subtraction and changes nothing; a failure re-raises the error, adds one to the count, records now, opens when the count reaches the threshold and otherwise stays closed or half-open as it was (an open breaker having become half-open); an interrupt re-raises with no bookkeeping, leaving a probing breaker half-open |
| CircuitBreaker.Valid | scanner/retry_handler.py:57-92 | between calls the count is not negative, and a breaker that is open or half-open has reached the threshold and recorded a failure time |
| CircuitBreaker.CallPreservesValid | scanner/retry_handler.py:64-92 | from a valid breaker a call leaves a valid one (count not negative; open or half-open only at or above the threshold and with a failure time) and never reads a missing failure time |
| CircuitBreaker.OnlyInterruptsLeaveHalfOpen | scanner/retry_handler.py:67-92 | a call from a valid closed or open breaker leaves it half-open only when it was open and the probe was interrupted |
| CircuitBreaker.InterruptedProbe | scanner/retry_handler.py:67-82 | an interrupted probe of an open default breaker leaves it half-open with count and failure time unchanged; the next call runs the operation at any clock reading, and a success closes it |
| CircuitBreaker.ReplayPreservesValid | scanner/retry_handler.py:57-92 | validity holds after any sequence of calls |
| CircuitBreaker.InitialIsValid | scanner/retry_handler.py:57-62 | a fresh breaker is valid |
| CircuitBreaker.TripAndRecover | scanner/retry_handler.py:57-92 | five failures open a default breaker; a call 60 seconds later is rejected without invoking; a successful probe 61 seconds later closes it with count 0 |
| CircuitBreaker.ScatteredFailuresTrip | scanner/retry_handler.py:74-92 | four failures, a success, then one failure open a default breaker, because a closed-state success does not reset the count |
| TrivyScanner.Flatten | scanner/trivy_scanner.py:111-112 | a vulnerability is traversed exactly when it belongs to some target's list, where a missing list reads as empty |
| TrivyScanner.Vulnerabilities | scanner/trivy_scanner.py:111-112 | a vulnerability is in the report exactly when it is in some target's list, with a missing Results or Vulnerabilities list read as empty |
| TrivyScanner.CountBySeverity | scanner/trivy_scanner.py:107-117 | one bucket per severity level, in level order, each holding the number of vulnerabilities whose severity names it; a missing severity counts as UNKNOWN |
| TrivyScanner.CountingKey | scanner/trivy_scanner.py:113 | the counting loop buckets a vulnerability by `Severity`; a missing key reads as "UNKNOWN", an explicit null as no severity (and only then), a present value as itself |
| TrivyScanner.ShortDescription | scanner/trivy_scanner.py:132 | empty exactly when the description is missing, null or empty; otherwise the first 200 characters (or all, if shorter) followed by "...", so at most 203 characters |
| TrivyScanner.ToCve | scanner/trivy_scanner.py:125-133 | id, package and version read null when missing; the fixed version and title are copied when present, stay null when null, and default to "Not Fixed" and "" when missing; the description is the shortened description; the severity is copied raw, so a missing one becomes null |
| TrivyScanner.ExtractTargets | scanner/trivy_scanner.py:123-134 | the nested loop yields one CVE per vulnerability of the given targets, in traversal order, each the conversion of the vulnerability in the same position |
| TrivyScanner.ExtractCveList | scanner/trivy_scanner.py:119-136 | one CVE per vulnerability, built from it, in nested traversal order |
| TrivyScanner.Enhance | scanner/trivy_scanner.py:84-105 | the result carries the image, the CVE list and the severity counts, and its total is the sum of the counts, which is the number of vulnerabilities whose severity was counted |
| TrivyScanner.CountsBoundedByVulnerabilities | scanner/trivy_scanner.py:111-117 | the counts sum to at most the number of vulnerabilities, with equality exactly when every severity is missing or one of the five names |
| TrivyScanner.EnhancedTotalIsLength | scanner/trivy_scanner.py:98-100 | the total equals the CVE list's length exactly when every severity was counted |
| TrivyScanner.MissingSeverityReadsTwoWays | scanner/trivy_scanner.py:113-130 | a missing severity is counted as UNKNOWN but reaches the CVE list as null, which the exception filter's lookup reads as null |
| PrometheusExporter.StripSlashes | metrics/prometheus_exporter.py:20 | the result is a prefix of the input, does not end in '/', and what was cut off is all slashes |
| PrometheusExporter.NormaliseGatewayUrl | metrics/prometheus_exporter.py:16-25 | a missing URL stays missing and an empty one stays empty; otherwise the result is a prefix of the input, and the part removed is either only slashes (leaving a URL that ends in neither '/' nor "/metrics") or "/metrics" followed only by slashes |
| PrometheusExporter.TrailingMetricsRemoved | metrics/prometheus_exporter.py:18-23 | host + "/metrics/" normalises to host |
| PrometheusExporter.MetricsRemovedOnce | metrics/prometheus_exporter.py:22-23 | host + "/metrics/metrics" normalises to host + "/metrics": the removal happens once, so the clean-up is not idempotent |
| PrometheusExporter.SanitiseLabel | metrics/prometheus_exporter.py:36-37 | same length as the input; every character is in [a-zA-Z0-9_]; allowed characters are kept in place and every other character becomes '_' |
| PrometheusExporter.SanitiseIdempotent | metrics/prometheus_exporter.py:36-37 | sanitising twice equals sanitising once |
| PrometheusExporter.SanitiseKeepsValidLabels | metrics/prometheus_exporter.py:36-37 | a label made only of allowed characters is unchanged |
| PrometheusExporter.GaugeValues | metrics/prometheus_exporter.py:32-89 | values exist exactly when no input key is an explicit null; the image and tag labels are the sanitised values, defaulting to "unknown" and "latest"; each count is the given one, or 0 when missing; the total is critical + high + medium + low |
| Pipeline.FilterExample | scanner/exception_manager.py:89-123 | critical A and high B and C, with a live exception for A: the filter keeps [B, C], excepts [A] with count 1, and rebuilds the summary to HIGH 2 with total 2 |
| Pipeline.FilteredScanIsConsistent | scanner/exception_manager.py:113-121 | for any report and ledger, the filtered scanner result has a total equal to its summary's sum and at most the number of CVEs it lists |
| Pipeline.NamedSeveritiesKeepTotalExact | scanner/exception_manager.py:113-121 | when every vulnerability names one of the five severities, the filtered scanner result's total equals the number of CVEs it keeps |
| Pipeline.NamedKeptTotalExact | scanner/exception_manager.py:101-121 | with an active exception and every listed severity one of the five, the filtered total equals the number of CVEs kept |
| Pipeline.MissingSeverityCounted | scanner/trivy_scanner.py:111-115 | a lone vulnerability without a severity is counted by the scanner (total 1) and listed once |
| Pipeline.MissingSeverityLostAfterFilter | scanner/exception_manager.py:115-121 | that same vulnerability, once an unrelated exception is active, stays listed after filtering but the total drops to 0 |
| Pipeline.MetricsInputOf | metrics/prometheus_exporter.py:32-88 | the keys the exporter reads from a scan result: image and tag are read back as the result holds them and are never null, and the four flat count keys are always missing |
| Pipeline.FilteredResultPushesZeroes | metrics/prometheus_exporter.py:32-95 | the scanner's result after the exception filter, whatever the ledger, scope and time, is pushed with the sanitised image name, the tag "latest" and 0 for every severity and for the total, since the filter keeps image and tag and writes no flat count keys |
| Pipeline.ScannerResultPushesZeroes | metrics/prometheus_exporter.py:32-89 | the scanner's result pushed as it is gets the sanitised image label, tag "latest", and all counts 0 |
| Pipeline.ImageOnlyGauges | metrics/prometheus_exporter.py:32-89 | an input naming only the image gets its sanitised label, tag "latest" and all counts 0 |
| Pipeline.NullSeverityKeptUncounted | scanner/exception_manager.py:101-118 | a lone CVE with a null severity and no covering exception is kept but counted in no bucket |

## Left out

- File I/O: loading and saving the ledger as YAML, reading the policy and the scan results, writing the check results, argument parsing, and printing. The ledger is the in-memory state between a load and a save. The `{}` ledger that an empty file yields is not modelled.
- Clocks and date parsing: `datetime.now()`, `time.time()` and ISO 8601 parsing. Time is an integer number of seconds supplied by the caller, and the two clock readings in `add_exception` are one instant.
- ExceptionManager.ActiveExceptions: does not model a record whose expiry date is missing or malformed, where the code raises; every record has an integer expiry.
- ExceptionManager.AddException: sha256 and the 8-character truncation are replaced by an arbitrary function of the concatenated text. Only properties that hold for every such function are proved, so hash collisions between different texts are not excluded. The expiry is computed on unbounded integers: in the code, `timedelta(days=expiry_days)` raises OverflowError when `|expiry_days|` exceeds 999999999, and the addition raises when the date leaves years 1 to 9999 (for example 3000000 days from now); then nothing is appended or saved.
- ExceptionManager.AddedIsActive: holds for every expiry, including those for which the code would raise OverflowError before the record exists (see the line above).
- ExceptionManager.FilterScanResults: a CVE without an `id` key, where the code raises KeyError, is not modelled; every CVE record carries an id, possibly null. An explicit null `cve_list`, where the code raises TypeError, is not modelled either; a missing one reads as empty.
- ThresholdChecker.Check: an explicit null `max_allowed` (TypeError at the comparison), a policy entry that is not a mapping, an explicit null `severity_summary` (AttributeError on `.items()`), and a null or non-numeric count (TypeError at the comparison) make the code raise and are not modelled; a ceiling here is missing or an integer, the summary missing or a list of name and integer count pairs.
- ThresholdChecker.Lower: only ASCII letters are lower-cased; `str.lower` on other scripts is not modelled.
- RetryHandler.RetryWithBackoff: delays are exact reals rather than floating-point numbers, and sleeping and logging are not performed. A negative `max_retries` makes the loop run no call and reach `raise None`, which raises TypeError; it is excluded by the type.
- CircuitBreaker.Call: the clock is an integer, while the code subtracts float timestamps. The code reads the clock twice, before the open check and after a failing call; the model uses one reading, the time at the end of the call. Logging is not modelled, and neither are calls from several threads sharing one breaker.
- TrivyScanner.Enhance: the timestamp, scanner name and version, raw result and status keys are not modelled; the version query runs an external process. Pulling the image and running the scanner are external processes and are not modelled either.
- TrivyScanner.Vulnerabilities: an explicit null `Results` or `Vulnerabilities` value, where the code raises TypeError, is not modelled; a missing key reads as empty.
- PrometheusExporter.GaugeValues: counts are integers; the gauge objects, the registry, the timestamp and duration gauges, and the push to the gateway with its fallback are not modelled.
- The rescan scheduler, Slack notification, report rendering and the thin CLI wrappers are outside this core.
