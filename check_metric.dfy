/**
 * The Graphite probe: from a decoded render response it picks the single
 * sample to judge, namely the latest non-null datapoint of the first target
 * that has one, labelled with the last dot-separated segment of the
 * target's name.
 */
module CheckMetric {
  import opened Wrappers
  import opened PyStr
  import opened NagiosPlugin

  /** One entry of a target's `datapoints`: `[value-or-null, timestamp]`. */
  datatype Point<V> = Point(value: Option<V>, timestamp: int)

  /** One element of the render response: a target name and its datapoints, oldest first. */
  datatype Series<V> = Series(target: string, datapoints: seq<Point<V>>)

  /** The context name under which the probe's metric is judged. */
  const Context := "Graphite"

  /**
   * `target.split('.')[-1]`: the part of the target after its last `.`,
   * or the whole target when it has no `.`.
   */
  function ShortName(target: string): (name: string)
    ensures '.' !in name
    ensures |name| <= |target| && target[|target| - |name|..] == name
    ensures '.' !in target ==> name == target
    ensures '.' in target ==> |name| < |target| && target[|target| - |name| - 1] == '.'
  {
    LastPiece(target, '.');
    var pieces := SplitOn(target, '.');
    pieces[|pieces| - 1]
  }

  /**
   * The contract of `ShortName` pins the name down: any dot-free suffix of
   * the target that is the whole target or follows a `.` is the short name.
   */
  lemma ShortNameUnique(target: string, name: string)
    requires '.' !in name
    requires |name| <= |target| && target[|target| - |name|..] == name
    requires '.' !in target ==> name == target
    requires '.' in target ==> |name| < |target| && target[|target| - |name| - 1] == '.'
    ensures ShortName(target) == name
  {
  }

  /** A Graphite path is named by its last component: `carbon.agents.cpuUsage` gives `cpuUsage`. */
  lemma ShortNameExample()
    ensures ShortName("carbon.agents.cpuUsage") == "cpuUsage"
  {
    var target := "carbon.agents.cpuUsage";
    assert target[13] == '.';
    assert target[|target| - 8..] == "cpuUsage";
    ShortNameUnique(target, "cpuUsage");
  }

  /** A series has a value when some datapoint is not null. */
  predicate HasValue<V>(s: Series<V>)
  {
    exists j :: 0 <= j < |s.datapoints| && s.datapoints[j].value.Some?
  }

  /** The value of the latest non-null datapoint, scanning from the newest back. */
  function LatestValue<V>(points: seq<Point<V>>): Option<V>
  {
    if points == [] then None
    else if points[|points| - 1].value.Some? then points[|points| - 1].value
    else LatestValue(points[..|points| - 1])
  }

  /**
   * What `Graphite.probe` returns for a render response: a one-element list
   * from the first target with a value, or the empty list.
   */
  function Reduce<V>(response: seq<Series<V>>): seq<Metric<V>>
  {
    if response == [] then []
    else match LatestValue(response[0].datapoints)
      case Some(v) => [Metric(ShortName(response[0].target), v, Context)]
      case None => Reduce(response[1..])
  }

  /**
   * `Graphite.probe` on the result of `retrieve_metric`: targets in
   * response order, each target's datapoints from last to first, returning
   * at the first non-null value.
   */
  method Probe<V>(response: seq<Series<V>>) returns (metrics: seq<Metric<V>>)
    ensures metrics == Reduce(response)
  {
    var i := 0;
    while i < |response|
      invariant 0 <= i <= |response|
      invariant Reduce(response[i..]) == Reduce(response)
    {
      var points := response[i].datapoints;
      var j := |points|;
      assert points[..j] == points;
      while j > 0
        invariant 0 <= j <= |points|
        invariant LatestValue(points[..j]) == LatestValue(points)
      {
        var point := points[j - 1];
        assert points[..j][..j - 1] == points[..j - 1];
        if point.value.Some? {
          assert response[i..][0] == response[i];
          return [Metric(ShortName(response[i].target), point.value.value, Context)];
        }
        j := j - 1;
      }
      assert response[i..][0] == response[i] && response[i..][1..] == response[i + 1..];
      i := i + 1;
    }
    return [];
  }

  // ---------------------------------------------------------------------
  // Properties of the reduction
  // ---------------------------------------------------------------------

  /** There is no latest value exactly when every datapoint is null. */
  lemma {:induction false} LatestValueNone<V>(points: seq<Point<V>>)
    ensures LatestValue(points).None? <==> forall j :: 0 <= j < |points| ==> points[j].value.None?
  {
    if points != [] {
      var front := points[..|points| - 1];
      LatestValueNone(front);
      forall j | 0 <= j < |front| ensures front[j] == points[j] { }
    }
  }

  /** The latest value is that of a non-null datapoint after which every datapoint is null. */
  lemma {:induction false} LatestValueAt<V>(points: seq<Point<V>>, j: nat)
    requires j < |points| && points[j].value.Some?
    requires forall m :: j < m < |points| ==> points[m].value.None?
    ensures LatestValue(points) == points[j].value
  {
    if j < |points| - 1 {
      var front := points[..|points| - 1];
      LatestValueAt(front, j);
    }
  }

  /** A latest value, when there is one, comes from such a datapoint. */
  lemma {:induction false} LatestValueSome<V>(points: seq<Point<V>>)
    requires LatestValue(points).Some?
    ensures exists j :: (0 <= j < |points| && points[j].value == LatestValue(points)
      && forall m :: j < m < |points| ==> points[m].value.None?)
  {
    var n := |points| - 1;
    if points[n].value.None? {
      var front := points[..n];
      LatestValueSome(front);
      var j :| 0 <= j < |front| && front[j].value == LatestValue(front)
        && forall m :: j < m < |front| ==> front[m].value.None?;
      assert points[j] == front[j];
      assert forall m :: j < m < |points| ==> points[m].value.None? by {
        forall m | j < m < |points| ensures points[m].value.None? {
          if m < n { assert points[m] == front[m]; }
        }
      }
    }
  }

  /** A series has a latest value exactly when it has a non-null datapoint. */
  lemma HasValueLatest<V>(s: Series<V>)
    ensures HasValue(s) <==> LatestValue(s.datapoints).Some?
  {
    LatestValueNone(s.datapoints);
  }

  /** The probe never returns more than one metric. */
  lemma {:induction false} ReduceAtMostOne<V>(response: seq<Series<V>>)
    ensures |Reduce(response)| <= 1
  {
    if response != [] && LatestValue(response[0].datapoints).None? {
      ReduceAtMostOne(response[1..]);
    }
  }

  /**
   * The probe returns the empty list (no data) exactly when no target has
   * a non-null datapoint, in particular when there are no targets.
   */
  lemma {:induction false} ReduceNoData<V>(response: seq<Series<V>>)
    ensures Reduce(response) == [] <==> forall i :: 0 <= i < |response| ==> !HasValue(response[i])
  {
    if response != [] {
      HasValueLatest(response[0]);
      ReduceNoData(response[1..]);
      if LatestValue(response[0].datapoints).None? {
        forall i | 0 < i < |response| ensures response[i] == response[1..][i - 1] { }
      }
    }
  }

  /**
   * Targets without a non-null datapoint (all null or empty) in front of
   * the response do not affect the result.
   */
  lemma {:induction false} ReduceSkipsEmpty<V>(skipped: seq<Series<V>>, rest: seq<Series<V>>)
    requires forall i :: 0 <= i < |skipped| ==> !HasValue(skipped[i])
    ensures Reduce(skipped + rest) == Reduce(rest)
  {
    if skipped == [] {
      assert skipped + rest == rest;
    } else {
      HasValueLatest(skipped[0]);
      assert (skipped + rest)[0] == skipped[0];
      assert (skipped + rest)[1..] == skipped[1..] + rest;
      ReduceSkipsEmpty(skipped[1..], rest);
    }
  }

  /**
   * When the probe returns a metric, it comes from target `i`, the first
   * with a non-null datapoint, and carries the value of that target's
   * datapoint `j`, the last non-null one: every later datapoint is null.
   */
  lemma ReduceSelects<V>(response: seq<Series<V>>, i: nat, j: nat)
    requires i < |response|
    requires forall k :: 0 <= k < i ==> !HasValue(response[k])
    requires j < |response[i].datapoints| && response[i].datapoints[j].value.Some?
    requires forall m :: j < m < |response[i].datapoints| ==> response[i].datapoints[m].value.None?
    ensures Reduce(response) == [Metric(ShortName(response[i].target), response[i].datapoints[j].value.value, Context)]
  {
    HasValueLatest(response[i]);
    ReduceSkipsEmpty(response[..i], response[i..]);
    assert response[..i] + response[i..] == response;
    LatestValueAt(response[i].datapoints, j);
    assert response[i..][0] == response[i];
  }

  /**
   * Conversely, a returned metric names some target `i` and datapoint `j`
   * meeting the conditions of `ReduceSelects`.
   */
  lemma {:induction false} ReduceChosen<V>(response: seq<Series<V>>)
    requires Reduce(response) != []
    ensures exists i, j :: (0 <= i < |response| && (forall k :: 0 <= k < i ==> !HasValue(response[k]))
      && 0 <= j < |response[i].datapoints| && response[i].datapoints[j].value.Some?
      && (forall m :: j < m < |response[i].datapoints| ==> response[i].datapoints[m].value.None?)
      && Reduce(response) == [Metric(ShortName(response[i].target), response[i].datapoints[j].value.value, Context)])
  {
    var points := response[0].datapoints;
    HasValueLatest(response[0]);
    if LatestValue(points).Some? {
      LatestValueSome(points);
      var j :| 0 <= j < |points| && points[j].value == LatestValue(points)
        && forall m :: j < m < |points| ==> points[m].value.None?;
      ReduceSelects(response, 0, j);
      assert Reduce(response) == [Metric(ShortName(response[0].target), points[j].value.value, Context)];
    } else {
      var rest := response[1..];
      ReduceChosen(rest);
      var i, j :| 0 <= i < |rest| && (forall k :: 0 <= k < i ==> !HasValue(rest[k]))
        && 0 <= j < |rest[i].datapoints| && rest[i].datapoints[j].value.Some?
        && (forall m :: j < m < |rest[i].datapoints| ==> rest[i].datapoints[m].value.None?)
        && Reduce(rest) == [Metric(ShortName(rest[i].target), rest[i].datapoints[j].value.value, Context)];
      assert forall k :: 0 <= k < i + 1 ==> !HasValue(response[k]) by {
        forall k | 0 <= k < i + 1 ensures !HasValue(response[k]) {
          if k > 0 { assert response[k] == rest[k - 1]; }
        }
      }
      assert response[i + 1] == rest[i];
    }
  }

  /** Once a target with a non-null datapoint is reached, the targets after it are ignored. */
  lemma ReduceIgnoresLater<V>(s: Series<V>, later: seq<Series<V>>)
    requires HasValue(s)
    ensures Reduce([s] + later) == Reduce([s])
  {
    HasValueLatest(s);
    assert ([s] + later)[0] == s;
  }

  /** The values of a list of datapoints, with the timestamps dropped. */
  function Values<V>(points: seq<Point<V>>): seq<Option<V>>
  {
    seq(|points|, k requires 0 <= k < |points| => points[k].value)
  }

  /** Timestamps never influence the latest value. */
  lemma {:induction false} LatestValueIgnoresTimestamps<V>(a: seq<Point<V>>, b: seq<Point<V>>)
    requires Values(a) == Values(b)
    ensures LatestValue(a) == LatestValue(b)
  {
    if a != [] {
      var n := |a| - 1;
      assert a[n].value == Values(a)[n] == Values(b)[n] == b[n].value;
      assert Values(a[..n]) == Values(b[..n]) by {
        forall k | 0 <= k < n ensures Values(a[..n])[k] == Values(b[..n])[k] {
          assert Values(a)[k] == Values(b)[k];
        }
      }
      LatestValueIgnoresTimestamps(a[..n], b[..n]);
    }
  }

  /**
   * Timestamps never influence the result: responses with the same targets
   * and the same values in the same places give the same metrics.
   */
  lemma {:induction false} ReduceIgnoresTimestamps<V>(a: seq<Series<V>>, b: seq<Series<V>>)
    requires |a| == |b|
    requires forall i :: 0 <= i < |a| ==> a[i].target == b[i].target && Values(a[i].datapoints) == Values(b[i].datapoints)
    ensures Reduce(a) == Reduce(b)
  {
    if a != [] {
      LatestValueIgnoresTimestamps(a[0].datapoints, b[0].datapoints);
      ReduceIgnoresTimestamps(a[1..], b[1..]);
    }
  }
}
