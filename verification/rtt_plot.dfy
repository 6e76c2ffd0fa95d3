/**
  The data side of `plot_ping_rtt` (plot_ping.py:24-45): the parsed samples
  become an x-axis of elapsed "seconds" and a y-axis of RTTs.  The x
  column is shifted so the first sample sits at 0 and divided by `freq`,
  a display divisor rather than a measured rate.  The figure, axes, ticks,
  labels and title are matplotlib calls and are not modelled.
 */
module RttPlot {
  import opened Wrappers
  import opened PingLog

  /** Why the axis cannot be built: `xaxis[0]` of an empty list, or division by a zero `freq`. */
  datatype AxisError = EmptySeries | ZeroFrequency

  /** One plotted point: elapsed time on the x-axis, RTT on the y-axis. */
  datatype Point<R> = Point(time: real, rtt: R)

  /** `col(0, data)` converted to floats: the sample indices. */
  function IndexColumn<R>(samples: seq<Sample<R>>): seq<real>
  {
    seq(|samples|, i requires 0 <= i < |samples| => samples[i].index as real)
  }

  /** `col(1, data)`: the round-trip times, in sample order. */
  function RttColumn<R>(samples: seq<Sample<R>>): seq<R>
  {
    seq(|samples|, i requires 0 <= i < |samples| => samples[i].rtt)
  }

  /**
    Lines 31-33: `start_time = xaxis[0]`, then every x becomes
    `(x - start_time) / freq`.  The result starts at 0 and multiplying back
    by `freq` and adding the start recovers each original x.
   */
  function TimeAxis(xs: seq<real>, freq: real): (axis: Result<seq<real>, AxisError>)
    ensures axis == Failure(EmptySeries) <==> |xs| == 0
    ensures axis == Failure(ZeroFrequency) <==> |xs| > 0 && freq == 0.0
    ensures axis.Success? ==>
      && |axis.value| == |xs|
      && axis.value[0] == 0.0
      && forall i :: 0 <= i < |xs| ==> xs[0] + axis.value[i] * freq == xs[i]
  {
    if |xs| == 0 then Failure(EmptySeries)
    else if freq == 0.0 then Failure(ZeroFrequency)
    else Success(seq(|xs|, i requires 0 <= i < |xs| => (xs[i] - xs[0]) / freq))
  }

  /**
    The points `plot_ping_rtt` draws for a log: the parse, its index column
    turned into elapsed time, paired with the RTT column.
   */
  function PlotPoints<R>(lines: seq<string>, toFloat: string -> Option<R>, freq: real): (points: Result<seq<Point<R>>, AxisError>)
    ensures points == Failure(EmptySeries) <==> |ParsePing(lines, toFloat)| == 0
    ensures points == Failure(ZeroFrequency) <==> |ParsePing(lines, toFloat)| > 0 && freq == 0.0
    ensures points.Success? ==>
      var samples := ParsePing(lines, toFloat);
      && |points.value| == |samples|
      && forall i :: 0 <= i < |samples| ==> points.value[i] == Point(i as real / freq, samples[i].rtt)
  {
    var samples := ParsePing(lines, toFloat);
    var ys := RttColumn(samples);
    match TimeAxis(IndexColumn(samples), freq)
    case Failure(e) => Failure(e)
    case Success(xs) => Success(seq(|samples|, i requires 0 <= i < |samples| => Point(xs[i], ys[i])))
  }

  /** With a positive divisor, increasing x values stay increasing after normalisation. */
  lemma TimeAxisKeepsOrder(xs: seq<real>, freq: real)
    requires freq > 0.0
    requires forall i, j :: 0 <= i < j < |xs| ==> xs[i] < xs[j]
    ensures TimeAxis(xs, freq).Success? ==>
      forall i, j :: 0 <= i < j < |xs| ==> TimeAxis(xs, freq).value[i] < TimeAxis(xs, freq).value[j]
  {
    if |xs| > 0 {
      var axis := TimeAxis(xs, freq).value;
      forall i, j | 0 <= i < j < |xs|
        ensures axis[i] < axis[j]
      {
        assert axis[i] * freq < axis[j] * freq;
      }
    }
  }

  /** Samples with indices 0 and 20 and `freq = 10` are drawn at 0.0 and 2.0 seconds. */
  lemma TimeAxisExample()
    ensures TimeAxis([0.0, 20.0], 10.0) == Success([0.0, 2.0])
  {
    var axis := TimeAxis([0.0, 20.0], 10.0).value;
    assert axis[1] == (20.0 - 0.0) / 10.0 == 2.0;
    assert axis == [0.0, 2.0];
  }
}
