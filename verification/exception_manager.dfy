/** The exception ledger: time-bound approvals that exclude a CVE from
    gating, either for every image or for one image reference, and the
    filter that re-derives a scan result's severity picture from it.

    Time is an integer clock in seconds, passed in as `now`. The ledger is
    the in-memory state between a load and a persist; every mutation below
    is followed by a persist in the running system. */
module ExceptionManager {
  import opened Wrappers
  import opened Seqs
  import opened Severity
  import opened ScanResults

  /** `timedelta(days=n)` advances the clock by `n * SecondsPerDay`. */
  const SecondsPerDay: int := 86400

  /** The default lifetime of an exception, in days. */
  const DefaultExpiryDays: int := 30

  /** One exception record. `hash` is the 8-hex-digit fingerprint of the
      CVE id followed by the reason. */
  datatype Record = Record(
    cveId: string,
    reason: string,
    addedDate: int,
    expiryDate: int,
    approvedBy: Option<string>,
    hash: string)

  /** The `global` list and the `image_specific` map of per-image lists. */
  datatype Ledger = Ledger(global: seq<Record>, imageSpecific: map<string, seq<Record>>)

  /** Python truthiness of an optional image reference: `None` and the empty
      string are both falsy. */
  predicate Truthy(image: Option<string>) {
    image.Some? && image.value != ""
  }

  /** A record is in force strictly before its expiry instant. */
  predicate Live(x: Record, now: int) {
    x.expiryDate > now
  }

  function LiveAt(now: int): Record -> bool {
    (x: Record) => Live(x, now)
  }

  function HashIsNot(h: string): Record -> bool {
    (x: Record) => x.hash != h
  }

  /** Applies the same selection to every image list, keeping every key. */
  function KeepInEach(m: map<string, seq<Record>>, p: Record -> bool): (r: map<string, seq<Record>>)
    ensures r.Keys == m.Keys
    ensures forall k :: k in m ==> r[k] == Filter(m[k], p)
  {
    map k | k in m :: Filter(m[k], p)
  }

  /** Per image, the selection keeps exactly the occurrences of the records
      that satisfy `p`. */
  lemma KeepInEachCount(m: map<string, seq<Record>>, p: Record -> bool)
    ensures forall k, x :: k in m ==>
      multiset(KeepInEach(m, p)[k])[x] == if p(x) then multiset(m[k])[x] else 0
  {
    forall k | k in m
      ensures forall x :: multiset(KeepInEach(m, p)[k])[x] == if p(x) then multiset(m[k])[x] else 0
    {
      FilterCount(m[k], p);
    }
  }

  lemma KeepInEachIdempotent(m: map<string, seq<Record>>, p: Record -> bool)
    ensures KeepInEach(KeepInEach(m, p), p) == KeepInEach(m, p)
  {
    var once := KeepInEach(m, p);
    forall k | k in once
      ensures KeepInEach(once, p)[k] == once[k]
    {
      FilterIdempotent(m[k], p);
    }
  }

  /** The list held under `image`, or the empty list when it is not a key. */
  function ImageRecords(l: Ledger, image: string): seq<Record> {
    if image in l.imageSpecific then l.imageSpecific[image] else []
  }

  /** Some live record of `recs` excepts `id`. */
  ghost predicate Excepts(recs: seq<Record>, id: string, now: int) {
    exists x :: x in recs && Live(x, now) && x.cveId == id
  }

  /** The new ledger and the record that `add_exception` returns. */
  datatype Added = Added(ledger: Ledger, record: Record)

  /** Appends one record: to the global list when `image` is falsy,
      otherwise to the list under `image`, creating it when missing. There is
      no de-duplication. `fingerprint` stands for the truncated sha256 digest
      and sees only the concatenation of CVE id and reason. */
  function AddException(l: Ledger, cveId: string, reason: string, expiryDays: int,
                        image: Option<string>, approvedBy: Option<string>,
                        now: int, fingerprint: string -> string): (r: Added)
    ensures r.record.cveId == cveId && r.record.reason == reason && r.record.approvedBy == approvedBy
    ensures r.record.addedDate == now
    ensures r.record.expiryDate == now + expiryDays * SecondsPerDay
    ensures r.record.hash == fingerprint(cveId + reason)
    ensures !Truthy(image) ==>
      r.ledger.global == l.global + [r.record] && r.ledger.imageSpecific == l.imageSpecific
    ensures Truthy(image) ==>
      && r.ledger.global == l.global
      && r.ledger.imageSpecific.Keys == l.imageSpecific.Keys + {image.value}
      && r.ledger.imageSpecific[image.value] == ImageRecords(l, image.value) + [r.record]
      && forall k :: k in l.imageSpecific && k != image.value ==>
           r.ledger.imageSpecific[k] == l.imageSpecific[k]
  {
    var rec := Record(cveId, reason, now, now + expiryDays * SecondsPerDay,
                      approvedBy, fingerprint(cveId + reason));
    if Truthy(image) then
      Added(l.(imageSpecific := l.imageSpecific[image.value := ImageRecords(l, image.value) + [rec]]), rec)
    else
      Added(l.(global := l.global + [rec]), rec)
  }

  /** Drops every record whose hash is `h`, from the global list and from
      every image list, keeping each list (and each image key) otherwise
      intact, survivors in their original order. */
  function RemoveException(l: Ledger, h: string): (r: Ledger)
    ensures r.imageSpecific.Keys == l.imageSpecific.Keys
    ensures r.global == Filter(l.global, HashIsNot(h))
    ensures forall k :: k in l.imageSpecific ==> r.imageSpecific[k] == Filter(l.imageSpecific[k], HashIsNot(h))
    ensures forall x :: multiset(r.global)[x] == if x.hash == h then 0 else multiset(l.global)[x]
    ensures forall k, x :: k in l.imageSpecific ==>
      multiset(r.imageSpecific[k])[x] == if x.hash == h then 0 else multiset(l.imageSpecific[k])[x]
  {
    FilterCount(l.global, HashIsNot(h));
    KeepInEachCount(l.imageSpecific, HashIsNot(h));
    Ledger(Filter(l.global, HashIsNot(h)), KeepInEach(l.imageSpecific, HashIsNot(h)))
  }

  /** The ids of the live records of `recs`, gathered one record at a time
      into a set. */
  function LiveIds(recs: seq<Record>, now: int): (ids: set<string>)
    ensures forall id :: id in ids <==> Excepts(recs, id, now)
  {
    if recs == [] then {}
    else
      var init := recs[..|recs| - 1];
      var x := recs[|recs| - 1];
      assert recs == init + [x];
      LiveIds(init, now) + (if Live(x, now) then {x.cveId} else {})
  }

  /** The CVE ids excepted at `now`: those of live global records, plus,
      when `image` is truthy and a key, those of live records under exactly
      that key. */
  function ActiveExceptions(l: Ledger, image: Option<string>, now: int): (ids: set<string>)
    ensures forall id :: id in ids <==>
      || Excepts(l.global, id, now)
      || (Truthy(image) && image.value in l.imageSpecific && Excepts(l.imageSpecific[image.value], id, now))
  {
    LiveIds(l.global, now) +
      (if Truthy(image) && image.value in l.imageSpecific then LiveIds(l.imageSpecific[image.value], now) else {})
  }

  /** Keeps exactly the live records in every list, in their order; image
      keys stay, even when their list empties. */
  function CleanupExpired(l: Ledger, now: int): (r: Ledger)
    ensures r.imageSpecific.Keys == l.imageSpecific.Keys
    ensures r.global == Filter(l.global, LiveAt(now))
    ensures forall k :: k in l.imageSpecific ==> r.imageSpecific[k] == Filter(l.imageSpecific[k], LiveAt(now))
    ensures forall x :: multiset(r.global)[x] == if Live(x, now) then multiset(l.global)[x] else 0
    ensures forall k, x :: k in l.imageSpecific ==>
      multiset(r.imageSpecific[k])[x] == if Live(x, now) then multiset(l.imageSpecific[k])[x] else 0
  {
    FilterCount(l.global, LiveAt(now));
    KeepInEachCount(l.imageSpecific, LiveAt(now));
    Ledger(Filter(l.global, LiveAt(now)), KeepInEach(l.imageSpecific, LiveAt(now)))
  }

  /** A CVE id that some active exception covers (`cve['id'] in active`);
      a null id never is. */
  function IsExcepted(c: Cve, active: set<string>): (b: bool)
    ensures b ==> c.id.Some? && c.id.value in active
    ensures c.id.None? || active == {} ==> !b
  {
    c.id.Some? && c.id.value in active
  }

  function NotExceptedBy(active: set<string>): Cve -> bool {
    (c: Cve) => !IsExcepted(c, active)
  }

  function ExceptedBy(active: set<string>): Cve -> bool {
    (c: Cve) => IsExcepted(c, active)
  }

  /** The loop that sends each CVE, in order, to the excepted list when an
      active exception covers its id and to the kept list otherwise. */
  function Partition(cves: seq<Cve>, active: set<string>): (p: (seq<Cve>, seq<Cve>))
    ensures forall c :: c in p.0 ==> c in cves && !IsExcepted(c, active)
    ensures forall c :: c in p.1 ==> c in cves && IsExcepted(c, active)
  {
    if cves == [] then ([], [])
    else
      var init := cves[..|cves| - 1];
      var c := cves[|cves| - 1];
      assert cves == init + [c];
      var prev := Partition(init, active);
      if IsExcepted(c, active) then (prev.0, prev.1 + [c]) else (prev.0 + [c], prev.1)
  }

  /** Every CVE goes to exactly one side, as often as it occurs. */
  lemma {:induction false} PartitionCount(cves: seq<Cve>, active: set<string>)
    ensures multiset(Partition(cves, active).0) + multiset(Partition(cves, active).1) == multiset(cves)
    decreases |cves|
  {
    if cves != [] {
      var init := cves[..|cves| - 1];
      assert cves == init + [cves[|cves| - 1]];
      PartitionCount(init, active);
    }
  }

  /** The loop is two order-preserving selections: the kept side is the
      list comprehension of the CVEs no active exception covers, the
      excepted side that of the CVEs one does. */
  lemma {:induction false} PartitionIsFilter(cves: seq<Cve>, active: set<string>)
    ensures Partition(cves, active).0 == Filter(cves, NotExceptedBy(active))
    ensures Partition(cves, active).1 == Filter(cves, ExceptedBy(active))
    decreases |cves|
  {
    if cves != [] {
      var init := cves[..|cves| - 1];
      var c := cves[|cves| - 1];
      assert cves == init + [c];
      PartitionIsFilter(init, active);
      FilterConcat(init, [c], NotExceptedBy(active));
      FilterConcat(init, [c], ExceptedBy(active));
      FilterSingle(c, NotExceptedBy(active));
      FilterSingle(c, ExceptedBy(active));
    }
  }

  /** The severity summary the filter rebuilds from the kept CVEs. */
  function FilteredSummary(kept: seq<Cve>): (s: Summary)
    ensures |s| == |FilterLevels|
    ensures forall i :: 0 <= i < |s| ==> s[i] == (FilterLevels[i], Occurrences(SeverityKeys(kept), FilterLevels[i]))
  {
    Tally(FilterLevels, SeverityKeys(kept))
  }

  /** With no active exception the scan result comes back untouched (no
      `excepted_cves` key is added). Otherwise the CVE list is split into
      kept and excepted CVEs, and the summary and total are rebuilt from the
      kept CVEs alone; every other key is copied. */
  function FilterScanResults(sr: ScanResult, l: Ledger, image: Option<string>, now: int): (r: ScanResult)
    ensures ActiveExceptions(l, image, now) == {} ==> r == sr
    ensures ActiveExceptions(l, image, now) != {} ==>
      var active := ActiveExceptions(l, image, now);
      && r.image == sr.image && r.tag == sr.tag
      && r.cveList.Some? && r.excepted.Some?
      && r.cveList.value == Filter(sr.cveList.GetOr([]), NotExceptedBy(active))
      && r.excepted.value.cves == Filter(sr.cveList.GetOr([]), ExceptedBy(active))
      && multiset(r.cveList.value) + multiset(r.excepted.value.cves) == multiset(sr.cveList.GetOr([]))
      && (forall c :: c in r.excepted.value.cves ==> IsExcepted(c, active))
      && (forall c :: c in r.cveList.value ==> !IsExcepted(c, active))
      && r.excepted.value.count == |r.excepted.value.cves|
      && r.severitySummary.Some?
      && |r.severitySummary.value| == |FilterLevels|
      && (forall i :: 0 <= i < |FilterLevels| ==>
            r.severitySummary.value[i] == (FilterLevels[i], Occurrences(SeverityKeys(r.cveList.value), FilterLevels[i])))
      && r.totalVulnerabilities == Some(RecognisedCount(FilterLevels, SeverityKeys(r.cveList.value)))
  {
    var active := ActiveExceptions(l, image, now);
    if active == {} then sr
    else
      var p := Partition(sr.cveList.GetOr([]), active);
      PartitionCount(sr.cveList.GetOr([]), active);
      PartitionIsFilter(sr.cveList.GetOr([]), active);
      var summary := FilteredSummary(p.0);
      LevelsDistinct();
      SumTally(FilterLevels, SeverityKeys(p.0));
      sr.(cveList := Some(p.0),
          excepted := Some(Excepted(p.1, |p.1|)),
          severitySummary := Some(summary),
          totalVulnerabilities := Some(Sum(summary)))
  }

  // ---------------------------------------------------------------------
  // Properties relating several operations

  /** A record added with a positive lifetime is active at the moment it is
      added, for the image it was added under (or for every image when it was
      added globally). */
  lemma AddedIsActive(l: Ledger, cveId: string, reason: string, expiryDays: int,
                      image: Option<string>, approvedBy: Option<string>,
                      now: int, fingerprint: string -> string)
    requires expiryDays > 0
    ensures cveId in ActiveExceptions(AddException(l, cveId, reason, expiryDays, image, approvedBy, now, fingerprint).ledger, image, now)
  {
    var a := AddException(l, cveId, reason, expiryDays, image, approvedBy, now, fingerprint);
    if Truthy(image) {
      assert a.record in a.ledger.imageSpecific[image.value];
    } else {
      assert a.record in a.ledger.global;
    }
  }

  /** Adding the same CVE and reason twice keeps two entries: the ledger
      does not de-duplicate. */
  lemma {:induction false} AddTwiceKeepsBoth(l: Ledger, cveId: string, reason: string, expiryDays: int,
                                             approvedBy: Option<string>, now: int, fingerprint: string -> string)
    ensures var once := AddException(l, cveId, reason, expiryDays, None, approvedBy, now, fingerprint);
            var twice := AddException(once.ledger, cveId, reason, expiryDays, None, approvedBy, now, fingerprint);
            |twice.ledger.global| == |l.global| + 2 && twice.record == once.record
            && multiset(twice.ledger.global)[once.record] == multiset(l.global)[once.record] + 2
  {
  }

  /** The fingerprint sees only the concatenation of id and reason, so two
      different (id, reason) pairs that concatenate to the same text share a
      removal key. */
  lemma FingerprintSeesConcatenation(l: Ledger, now: int, fingerprint: string -> string)
    ensures AddException(l, "CVE-1", "23", DefaultExpiryDays, None, None, now, fingerprint).record.hash
         == AddException(l, "CVE-12", "3", DefaultExpiryDays, None, None, now, fingerprint).record.hash
  {
    assert "CVE-1" + "23" == "CVE-12" + "3";
  }

  /** Removing by the hash of a record just added gives what removing that
      hash from the original ledger gives: the new record goes, and so does
      every earlier record with the same hash. An image key the add created
      stays behind with an empty list. */
  lemma RemoveUndoesAdd(l: Ledger, cveId: string, reason: string, expiryDays: int,
                        image: Option<string>, approvedBy: Option<string>,
                        now: int, fingerprint: string -> string)
    ensures var a := AddException(l, cveId, reason, expiryDays, image, approvedBy, now, fingerprint);
            var h := a.record.hash;
            var undone := RemoveException(a.ledger, h);
            var direct := RemoveException(l, h);
            && undone.global == direct.global
            && undone.imageSpecific.Keys == a.ledger.imageSpecific.Keys
            && (forall k :: k in l.imageSpecific ==> undone.imageSpecific[k] == direct.imageSpecific[k])
            && (forall k :: k in undone.imageSpecific && k !in l.imageSpecific ==> undone.imageSpecific[k] == [])
  {
    var a := AddException(l, cveId, reason, expiryDays, image, approvedBy, now, fingerprint);
    var h := a.record.hash;
    if Truthy(image) {
      RemoveAppended(ImageRecords(l, image.value), a.record);
    } else {
      RemoveAppended(l.global, a.record);
    }
  }

  lemma RemoveAppended(recs: seq<Record>, x: Record)
    ensures Filter(recs + [x], HashIsNot(x.hash)) == Filter(recs, HashIsNot(x.hash))
  {
    var p := HashIsNot(x.hash);
    FilterConcat(recs, [x], p);
    assert Filter([x], p) == [];
  }

  /** When no record of the ledger already carries the new record's hash,
      removing by that hash restores every list of the original ledger; an
      image key the add created stays behind, empty. */
  lemma RemoveInvertsFreshAdd(l: Ledger, cveId: string, reason: string, expiryDays: int,
                              image: Option<string>, approvedBy: Option<string>,
                              now: int, fingerprint: string -> string)
    requires forall x :: x in l.global ==> x.hash != fingerprint(cveId + reason)
    requires forall k, x :: k in l.imageSpecific && x in l.imageSpecific[k] ==> x.hash != fingerprint(cveId + reason)
    ensures var a := AddException(l, cveId, reason, expiryDays, image, approvedBy, now, fingerprint);
            var undone := RemoveException(a.ledger, a.record.hash);
            && undone.global == l.global
            && undone.imageSpecific.Keys == a.ledger.imageSpecific.Keys
            && (forall k :: k in l.imageSpecific ==> undone.imageSpecific[k] == l.imageSpecific[k])
            && (forall k :: k in undone.imageSpecific && k !in l.imageSpecific ==> undone.imageSpecific[k] == [])
  {
    RemoveUndoesAdd(l, cveId, reason, expiryDays, image, approvedBy, now, fingerprint);
    RemoveAbsentIsNoOp(l, fingerprint(cveId + reason));
  }

  /** Removing a hash no record carries changes nothing. */
  lemma RemoveAbsentIsNoOp(l: Ledger, h: string)
    requires forall x :: x in l.global ==> x.hash != h
    requires forall k, x :: k in l.imageSpecific && x in l.imageSpecific[k] ==> x.hash != h
    ensures RemoveException(l, h) == l
  {
    var r := RemoveException(l, h);
    FilterKeepsAll(l.global, HashIsNot(h));
    forall k | k in l.imageSpecific
      ensures r.imageSpecific[k] == l.imageSpecific[k]
    {
      FilterKeepsAll(l.imageSpecific[k], HashIsNot(h));
    }
  }

  /** Removal keeps the surviving records of every list in their original
      order: removing from a concatenation removes from each part, in the
      global list and in an image list alike. */
  lemma RemoveKeepsOrder(a: seq<Record>, b: seq<Record>, image: string, h: string)
    ensures RemoveException(Ledger(a + b, map[]), h).global
         == RemoveException(Ledger(a, map[]), h).global + RemoveException(Ledger(b, map[]), h).global
    ensures RemoveException(Ledger([], map[image := a + b]), h).imageSpecific[image]
         == RemoveException(Ledger([], map[image := a]), h).imageSpecific[image]
          + RemoveException(Ledger([], map[image := b]), h).imageSpecific[image]
  {
    FilterConcat(a, b, HashIsNot(h));
  }

  /** Exceptions only expire: the active set at a later time is contained in
      the active set at an earlier time. */
  lemma ActiveAntitone(l: Ledger, image: Option<string>, t1: int, t2: int)
    requires t1 <= t2
    ensures ActiveExceptions(l, image, t2) <= ActiveExceptions(l, image, t1)
  {
  }

  /** A record expiring exactly at `now` no longer excepts anything. */
  lemma ExpiringNowIsInactive(x: Record, image: Option<string>)
    ensures ActiveExceptions(Ledger([x], map[]), image, x.expiryDate) == {}
  {
  }

  /** A second sweep at the same time removes nothing more. */
  lemma CleanupIdempotent(l: Ledger, now: int)
    ensures CleanupExpired(CleanupExpired(l, now), now) == CleanupExpired(l, now)
  {
    FilterIdempotent(l.global, LiveAt(now));
    KeepInEachIdempotent(l.imageSpecific, LiveAt(now));
  }

  /** Sweeping at `now` changes no active set at `now` or any later time:
      it only drops records that could never be active again. */
  lemma CleanupKeepsActive(l: Ledger, image: Option<string>, now: int, t: int)
    requires now <= t
    ensures ActiveExceptions(CleanupExpired(l, now), image, t) == ActiveExceptions(l, image, t)
  {
    var c := CleanupExpired(l, now);
    forall id
      ensures Excepts(c.global, id, t) <==> Excepts(l.global, id, t)
    {
      if Excepts(l.global, id, t) {
        var x :| x in l.global && Live(x, t) && x.cveId == id;
        assert multiset(c.global)[x] == multiset(l.global)[x];
        assert x in c.global;
      }
    }
    if Truthy(image) && image.value in l.imageSpecific {
      var k := image.value;
      forall id
        ensures Excepts(c.imageSpecific[k], id, t) <==> Excepts(l.imageSpecific[k], id, t)
      {
        if Excepts(l.imageSpecific[k], id, t) {
          var x :| x in l.imageSpecific[k] && Live(x, t) && x.cveId == id;
          assert multiset(c.imageSpecific[k])[x] == multiset(l.imageSpecific[k])[x];
          assert x in c.imageSpecific[k];
        }
      }
    }
  }

  /** The split keeps the input order in both halves: splitting a
      concatenation splits each part. */
  lemma {:induction false} PartitionKeepsOrder(a: seq<Cve>, b: seq<Cve>, active: set<string>)
    ensures Partition(a + b, active).0 == Partition(a, active).0 + Partition(b, active).0
    ensures Partition(a + b, active).1 == Partition(a, active).1 + Partition(b, active).1
    decreases |b|
  {
    if b == [] {
      assert a + b == a;
    } else {
      var binit := b[..|b| - 1];
      assert (a + b)[..|a + b| - 1] == a + binit;
      assert (a + b)[|a + b| - 1] == b[|b| - 1];
      PartitionKeepsOrder(a, binit, active);
    }
  }

  /** After filtering, the total equals the number of kept CVEs exactly when
      every kept CVE's severity is one of the five buckets; a null or
      unrecognised severity is dropped from the summary and the total. */
  lemma FilteredTotalIsLength(sr: ScanResult, l: Ledger, image: Option<string>, now: int)
    requires ActiveExceptions(l, image, now) != {}
    ensures var r := FilterScanResults(sr, l, image, now);
            && TotalMatchesSummary(r)
            && r.totalVulnerabilities.value <= |r.cveList.value|
            && (r.totalVulnerabilities == Some(|r.cveList.value|) <==>
                  forall c :: c in r.cveList.value ==> Recognised(FilterLevels, SeverityKey(c)))
  {
    var r := FilterScanResults(sr, l, image, now);
    LevelsDistinct();
    SumTally(FilterLevels, SeverityKeys(r.cveList.value));
    KeptCount(r.cveList.value);
  }

  /** The number of CVEs in a list whose severity names a bucket: at most
      its length, and exactly its length when every severity does. */
  lemma KeptCount(kept: seq<Cve>)
    ensures RecognisedCount(FilterLevels, SeverityKeys(kept)) <= |kept|
    ensures RecognisedCount(FilterLevels, SeverityKeys(kept)) == |kept| <==>
      forall c :: c in kept ==> Recognised(FilterLevels, SeverityKey(c))
  {
    var keys := SeverityKeys(kept);
    RecognisedCountBound(FilterLevels, keys);
    if forall i :: 0 <= i < |keys| ==> Recognised(FilterLevels, keys[i]) {
      forall c | c in kept
        ensures Recognised(FilterLevels, SeverityKey(c))
      {
        var i :| 0 <= i < |kept| && kept[i] == c;
        assert keys[i] == SeverityKey(c);
      }
    }
  }
}
