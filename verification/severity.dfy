/** Severity buckets, and the per-severity tally that both the scanner
    wrapper and the exception filter compute from scratch. */
module Severity {
  import opened Wrappers

  /** A severity summary: (severity name, count) pairs, in the insertion
      order of the Python dict they stand for. */
  type Summary = seq<(string, int)>

  /** The buckets, in order, of the summary the exception filter rebuilds. */
  const FilterLevels: seq<string> := ["CRITICAL", "HIGH", "MEDIUM", "LOW", "UNKNOWN"]

  /** The buckets, in order, of the scanner wrapper's `severity_levels`. */
  const ScannerLevels: seq<string> := ["UNKNOWN", "LOW", "MEDIUM", "HIGH", "CRITICAL"]

  predicate Distinct(s: seq<string>) {
    forall i, j :: 0 <= i < j < |s| ==> s[i] != s[j]
  }

  /** No two entries of the summary share a name, as with the keys of a dict. */
  predicate DistinctNames(s: Summary) {
    forall i, j :: 0 <= i < j < |s| ==> s[i].0 != s[j].0
  }

  predicate HasName(s: Summary, name: string) {
    exists i :: 0 <= i < |s| && s[i].0 == name
  }

  lemma LevelsDistinct()
    ensures Distinct(FilterLevels) && Distinct(ScannerLevels)
  {
  }

  /** The severity key names one of the buckets (`if severity in counts`). */
  predicate Recognised(levels: seq<string>, key: Option<string>) {
    key.Some? && key.value in levels
  }

  /** How many of `keys` name `level`. */
  function Occurrences(keys: seq<Option<string>>, level: string): nat
  {
    if keys == [] then 0
    else Occurrences(keys[..|keys| - 1], level) + (if keys[|keys| - 1] == Some(level) then 1 else 0)
  }

  /** How many of `keys` name one of `levels`. */
  function RecognisedCount(levels: seq<string>, keys: seq<Option<string>>): nat
  {
    if keys == [] then 0
    else RecognisedCount(levels, keys[..|keys| - 1]) + (if Recognised(levels, keys[|keys| - 1]) then 1 else 0)
  }

  /** `{level: 0 for level in levels}` */
  function Zeroes(levels: seq<string>): (s: Summary)
    ensures |s| == |levels|
    ensures forall i :: 0 <= i < |s| ==> s[i] == (levels[i], 0)
  {
    if levels == [] then [] else [(levels[0], 0)] + Zeroes(levels[1..])
  }

  /** `if key in counts: counts[key] += 1` */
  function Bump(s: Summary, key: Option<string>): (r: Summary)
    ensures |r| == |s|
    ensures forall i :: 0 <= i < |s| ==>
      r[i] == (if key == Some(s[i].0) then (s[i].0, s[i].1 + 1) else s[i])
  {
    if s == [] then []
    else [if key == Some(s[0].0) then (s[0].0, s[0].1 + 1) else s[0]] + Bump(s[1..], key)
  }

  /** The loop that starts every bucket of `levels` at zero and adds one to
      the bucket each key names, skipping keys that name none. Each bucket
      ends up holding the number of keys that name it. */
  function Tally(levels: seq<string>, keys: seq<Option<string>>): (s: Summary)
    ensures |s| == |levels|
    ensures forall i :: 0 <= i < |s| ==> s[i] == (levels[i], Occurrences(keys, levels[i]))
  {
    if keys == [] then Zeroes(levels)
    else
      var init := keys[..|keys| - 1];
      var key := keys[|keys| - 1];
      assert forall l :: Occurrences(keys, l) == Occurrences(init, l) + (if key == Some(l) then 1 else 0);
      var prev := Tally(levels, init);
      assert forall i :: 0 <= i < |prev| ==> prev[i].0 == levels[i] && prev[i].1 == Occurrences(init, levels[i]);
      Bump(prev, key)
  }

  /** `sum(summary.values())` */
  function Sum(s: Summary): int
  {
    if s == [] then 0 else s[0].1 + Sum(s[1..])
  }

  lemma {:induction false} SumOfZeroes(s: Summary)
    requires forall i :: 0 <= i < |s| ==> s[i].1 == 0
    ensures Sum(s) == 0
    decreases |s|
  {
    if s != [] {
      SumOfZeroes(s[1..]);
    }
  }

  /** Bumping a summary with distinct names adds one to its sum exactly when
      the key names one of its entries. */
  lemma {:induction false} SumBump(s: Summary, key: Option<string>)
    requires DistinctNames(s)
    ensures Sum(Bump(s, key)) == Sum(s) + (if key.Some? && HasName(s, key.value) then 1 else 0)
    decreases |s|
  {
    if s != [] {
      var b := Bump(s, key);
      assert b[1..] == Bump(s[1..], key);
      SumBump(s[1..], key);
      if key.Some? {
        if key.value == s[0].0 {
          assert forall i :: 0 <= i < |s[1..]| ==> s[1..][i].0 != key.value by {
            forall i | 0 <= i < |s[1..]|
              ensures s[1..][i].0 != key.value
            {
              assert s[1..][i] == s[i + 1];
            }
          }
        } else {
          assert HasName(s, key.value) <==> HasName(s[1..], key.value) by {
            if HasName(s, key.value) {
              var i :| 0 <= i < |s| && s[i].0 == key.value;
              assert s[1..][i - 1].0 == key.value;
            }
            if HasName(s[1..], key.value) {
              var i :| 0 <= i < |s[1..]| && s[1..][i].0 == key.value;
              assert s[i + 1].0 == key.value;
            }
          }
        }
      }
    }
  }

  /** The sum of a tally over distinct buckets is the number of keys that
      name some bucket: keys naming none are silently dropped. */
  lemma {:induction false} SumTally(levels: seq<string>, keys: seq<Option<string>>)
    requires Distinct(levels)
    ensures Sum(Tally(levels, keys)) == RecognisedCount(levels, keys)
    decreases |keys|
  {
    var t := Tally(levels, keys);
    if keys == [] {
      SumOfZeroes(t);
    } else {
      var prev := Tally(levels, keys[..|keys| - 1]);
      var key := keys[|keys| - 1];
      SumTally(levels, keys[..|keys| - 1]);
      SumBump(prev, key);
      if key.Some? {
        assert HasName(prev, key.value) <==> key.value in levels by {
          if key.value in levels {
            var i :| 0 <= i < |levels| && levels[i] == key.value;
            assert prev[i].0 == key.value;
          }
        }
      }
    }
  }

  /** At most every key is counted, and all of them are exactly when every
      key names a bucket. */
  lemma {:induction false} RecognisedCountBound(levels: seq<string>, keys: seq<Option<string>>)
    ensures RecognisedCount(levels, keys) <= |keys|
    ensures RecognisedCount(levels, keys) == |keys| <==>
      forall i :: 0 <= i < |keys| ==> Recognised(levels, keys[i])
    decreases |keys|
  {
    if keys != [] {
      var init := keys[..|keys| - 1];
      RecognisedCountBound(levels, init);
      assert forall i :: 0 <= i < |init| ==> init[i] == keys[i];
    }
  }
}
