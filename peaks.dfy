// Running peaks with the time they were reached.
//
// Every "high" the analyser keeps (load, CPU, memory, instance count) is a
// value paired with a time, replaced only when a new value is STRICTLY
// greater. This module states once what such a running peak ends up being:
// the largest value seen (or the initial sentinel), stamped with the time of
// the FIRST observation that reached it.

module Peaks {
  import opened LineClassifier

  /** A value with the log time it was observed at (nil before any header). */
  datatype Reading = Reading(value: real, time: Option<string>)

  /** The sentinel every peak starts from: -1.0 at no time. */
  const NoReading := Reading(-1.0, None)

  /** One strict-greater update of a running peak. */
  function Bump(best: Reading, x: Reading): Reading {
    if x.value > best.value then x else best
  }

  /** The running peak after observing `xs` in order, starting from `init`. */
  function RunMax(init: Reading, xs: seq<Reading>): Reading
    decreases |xs|
  {
    if xs == [] then init else Bump(RunMax(init, xs[..|xs| - 1]), xs[|xs| - 1])
  }

  /** `r` is the largest of `init` and `xs`; if some observation exceeds
      `init`, `r` is the first observation that reaches the maximum,
      otherwise it is `init` itself. */
  ghost predicate IsFirstPeak(init: Reading, xs: seq<Reading>, r: Reading) {
    && init.value <= r.value
    && (forall i :: 0 <= i < |xs| ==> xs[i].value <= r.value)
    && if forall i :: 0 <= i < |xs| ==> xs[i].value <= init.value then r == init
       else exists i :: 0 <= i < |xs| && r == xs[i] && forall j :: 0 <= j < i ==> xs[j].value < xs[i].value
  }

  lemma RunMaxSnoc(init: Reading, xs: seq<Reading>, x: Reading)
    ensures RunMax(init, xs + [x]) == Bump(RunMax(init, xs), x)
  {
    assert (xs + [x])[..|xs|] == xs;
  }

  /** The strict-greater running peak is the first maximum. */
  lemma {:induction false} RunMaxIsFirstPeak(init: Reading, xs: seq<Reading>)
    ensures IsFirstPeak(init, xs, RunMax(init, xs))
    decreases |xs|
  {
    if xs != [] {
      var n := |xs|;
      var ys, x := xs[..n - 1], xs[n - 1];
      assert xs == ys + [x];
      var m := RunMax(init, ys);
      RunMaxIsFirstPeak(init, ys);
      if x.value > m.value {
        assert forall j :: 0 <= j < n - 1 ==> xs[j].value < xs[n - 1].value by {
          forall j | 0 <= j < n - 1 ensures xs[j].value < xs[n - 1].value {
            assert xs[j] == ys[j];
          }
        }
        assert RunMax(init, xs) == xs[n - 1];
      } else {
        assert RunMax(init, xs) == m;
        if exists i :: 0 <= i < n - 1 && ys[i].value > init.value {
          var i :| 0 <= i < n - 1 && m == ys[i] && forall j :: 0 <= j < i ==> ys[j].value < ys[i].value;
          assert xs[i] == ys[i];
          assert forall j :: 0 <= j < i ==> xs[j] == ys[j];
        } else {
          forall i | 0 <= i < n ensures xs[i].value <= init.value {
            if i < n - 1 { assert xs[i] == ys[i]; }
          }
        }
      }
    }
  }

  /** The first-peak description leaves no choice: it fixes the reading. */
  lemma FirstPeakUnique(init: Reading, xs: seq<Reading>, r1: Reading, r2: Reading)
    requires IsFirstPeak(init, xs, r1) && IsFirstPeak(init, xs, r2)
    ensures r1 == r2
  {
    if !(forall i :: 0 <= i < |xs| ==> xs[i].value <= init.value) {
      var i1 :| 0 <= i1 < |xs| && r1 == xs[i1] && forall j :: 0 <= j < i1 ==> xs[j].value < xs[i1].value;
      var i2 :| 0 <= i2 < |xs| && r2 == xs[i2] && forall j :: 0 <= j < i2 ==> xs[j].value < xs[i2].value;
      assert xs[i1].value == xs[i2].value;
    }
  }

  /** Together: a reading is the running peak exactly when it is the first maximum. */
  lemma RunMaxCharacterized(init: Reading, xs: seq<Reading>, r: Reading)
    ensures IsFirstPeak(init, xs, r) <==> r == RunMax(init, xs)
  {
    RunMaxIsFirstPeak(init, xs);
    if IsFirstPeak(init, xs, r) {
      FirstPeakUnique(init, xs, r, RunMax(init, xs));
    }
  }
}
