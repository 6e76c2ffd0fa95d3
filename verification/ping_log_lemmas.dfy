/**
  What `parse_ping` promises its caller: contiguous indices, skipped
  non-reply lines, truncation at the first failing reply, the length
  bounds and prefix-monotonicity.  The `Scan…` lemmas hold for any
  per-line reader; the `Parse…` lemmas instantiate them with the reader
  of plot_ping.py.
 */
module PingLogLemmas {
  import opened Wrappers
  import opened PingLog

  /** Stopping is decided line by line: by the head, or else by the tail. */
  lemma StopsUnfold<R>(lines: seq<string>, extract: string -> Option<R>)
    requires |lines| > 0
    ensures Stops(lines, extract) <==>
      (IsReply(lines[0]) && extract(lines[0]).None?) || Stops(lines[1..], extract)
  {
    if Stops(lines[1..], extract) {
      var k :| 0 <= k < |lines[1..]| && IsReply(lines[1..][k]) && extract(lines[1..][k]).None?;
      assert lines[k + 1] == lines[1..][k];
    }
    if Stops(lines, extract) && !(IsReply(lines[0]) && extract(lines[0]).None?) {
      var k :| 0 <= k < |lines| && IsReply(lines[k]) && extract(lines[k]).None?;
      assert k > 0 && lines[1..][k - 1] == lines[k];
    }
  }

  /**
    The result is the longest run of leading reply lines that the reader
    accepts: sample i holds the value read from the i-th reply, and the
    reply right after the last sample (if any) is the one it rejected.
   */
  lemma {:induction false} ScanIsSuccessfulPrefix<R>(lines: seq<string>, extract: string -> Option<R>, next: nat)
    ensures |Scan(lines, extract, next)| <= |Replies(lines)|
    ensures var samples := Scan(lines, extract, next);
      var replies := Replies(lines);
      && (forall i :: 0 <= i < |samples| ==> extract(replies[i]) == Some(samples[i].rtt))
      && (|samples| < |replies| ==> extract(replies[|samples|]).None?)
    decreases |lines|
  {
    ScanNumbering(lines, extract, next);
    if |lines| > 0 {
      var rest := lines[1..];
      if !IsReply(lines[0]) {
        assert Scan(lines, extract, next) == Scan(rest, extract, next);
        assert Replies(lines) == Replies(rest);
        ScanIsSuccessfulPrefix(rest, extract, next);
      } else {
        var replies := Replies(lines);
        assert replies == [lines[0]] + Replies(rest);
        match extract(lines[0])
        case None =>
          assert Scan(lines, extract, next) == [];
        case Some(rtt) =>
          var samples := Scan(lines, extract, next);
          var tail := Scan(rest, extract, next + 1);
          assert samples == [Sample(next, rtt)] + tail;
          ScanIsSuccessfulPrefix(rest, extract, next + 1);
          forall i | 1 <= i < |samples|
            ensures extract(replies[i]) == Some(samples[i].rtt)
          {
            assert samples[i] == tail[i - 1];
            assert replies[i] == Replies(rest)[i - 1];
          }
          if |samples| < |replies| {
            assert replies[|samples|] == Replies(rest)[|tail|];
          }
      }
    }
  }

  /** Every reply is consumed exactly when no reply is rejected. */
  lemma {:induction false} ScanLength<R>(lines: seq<string>, extract: string -> Option<R>, next: nat)
    ensures |Scan(lines, extract, next)| == |Replies(lines)| <==> !Stops(lines, extract)
    decreases |lines|
  {
    if |lines| > 0 {
      var rest := lines[1..];
      StopsUnfold(lines, extract);
      if !IsReply(lines[0]) {
        assert Scan(lines, extract, next) == Scan(rest, extract, next);
        assert Replies(lines) == Replies(rest);
        ScanLength(rest, extract, next);
      } else {
        assert Replies(lines) == [lines[0]] + Replies(rest);
        match extract(lines[0])
        case None =>
          assert Scan(lines, extract, next) == [];
        case Some(rtt) =>
          assert Scan(lines, extract, next) == [Sample(next, rtt)] + Scan(rest, extract, next + 1);
          ScanLength(rest, extract, next + 1);
      }
    }
  }

  /** Scanning a concatenation: the second part is reached only if the first did not stop. */
  lemma ScanAppend<R>(front: seq<string>, back: seq<string>, extract: string -> Option<R>, next: nat)
    ensures Stops(front, extract) ==> Scan(front + back, extract, next) == Scan(front, extract, next)
    ensures !Stops(front, extract) ==>
      var head := Scan(front, extract, next);
      Scan(front + back, extract, next) == head + Scan(back, extract, next + |head|)
  {
    if Stops(front, extract) {
      ScanAppendStopped(front, back, extract, next);
    } else {
      ScanAppendRuns(front, back, extract, next);
    }
  }

  /** Once the first part stops the scan, the second part is never reached. */
  lemma {:induction false} ScanAppendStopped<R>(front: seq<string>, back: seq<string>, extract: string -> Option<R>, next: nat)
    requires Stops(front, extract)
    ensures Scan(front + back, extract, next) == Scan(front, extract, next)
    decreases |front|
  {
    var lines := front + back;
    var rest := front[1..];
    assert lines[0] == front[0] && lines[1..] == rest + back;
    StopsUnfold(front, extract);
    if !IsReply(front[0]) {
      ScanAppendStopped(rest, back, extract, next);
    } else if extract(front[0]).Some? {
      ScanAppendStopped(rest, back, extract, next + 1);
    }
  }

  /** If the first part does not stop the scan, the second continues the numbering where it ended. */
  lemma {:induction false} ScanAppendRuns<R>(front: seq<string>, back: seq<string>, extract: string -> Option<R>, next: nat)
    requires !Stops(front, extract)
    ensures var head := Scan(front, extract, next);
      Scan(front + back, extract, next) == head + Scan(back, extract, next + |head|)
    decreases |front|
  {
    if |front| == 0 {
      assert front + back == back;
    } else {
      var lines := front + back;
      var rest := front[1..];
      assert lines[0] == front[0] && lines[1..] == rest + back;
      StopsUnfold(front, extract);
      if !IsReply(front[0]) {
        assert Scan(lines, extract, next) == Scan(rest + back, extract, next);
        assert Scan(front, extract, next) == Scan(rest, extract, next);
        ScanAppendRuns(rest, back, extract, next);
      } else {
        var rtt := extract(front[0]).value;
        var first := [Sample(next, rtt)];
        var head := Scan(rest, extract, next + 1);
        var tail := Scan(back, extract, next + 1 + |head|);
        ScanAppendRuns(rest, back, extract, next + 1);
        assert Scan(front, extract, next) == first + head;
        assert extract(lines[0]) == Some(rtt);
        assert Scan(lines, extract, next) == first + Scan(rest + back, extract, next + 1);
        assert Scan(rest + back, extract, next + 1) == head + tail;
        assert first + (head + tail) == (first + head) + tail;
        assert |Scan(front, extract, next)| == 1 + |head|;
      }
    }
  }

  /** A non-reply line, wherever it stands, adds no sample, takes no index and does not stop the scan. */
  lemma {:induction false} ScanSkipsNonReply<R>(front: seq<string>, line: string, back: seq<string>,
                                                extract: string -> Option<R>, next: nat)
    requires !IsReply(line)
    ensures Scan(front + [line] + back, extract, next) == Scan(front + back, extract, next)
    decreases |front|
  {
    if |front| == 0 {
      assert front + [line] + back == [line] + back;
      assert ([line] + back)[1..] == back;
      assert front + back == back;
    } else {
      var rest := front[1..];
      assert (front + [line] + back)[0] == front[0] == (front + back)[0];
      assert (front + [line] + back)[1..] == rest + [line] + back;
      assert (front + back)[1..] == rest + back;
      if !IsReply(front[0]) {
        ScanSkipsNonReply(rest, line, back, extract, next);
      } else if extract(front[0]).Some? {
        ScanSkipsNonReply(rest, line, back, extract, next + 1);
      }
    }
  }

  /** Only the reply lines matter: scanning them alone gives the same result. */
  lemma {:induction false} ScanOfRepliesOnly<R>(lines: seq<string>, extract: string -> Option<R>, next: nat)
    ensures Scan(Replies(lines), extract, next) == Scan(lines, extract, next)
    decreases |lines|
  {
    if |lines| > 0 {
      var rest := lines[1..];
      if !IsReply(lines[0]) {
        assert Replies(lines) == Replies(rest);
        assert Scan(lines, extract, next) == Scan(rest, extract, next);
        ScanOfRepliesOnly(rest, extract, next);
      } else {
        var replies := Replies(lines);
        assert replies == [lines[0]] + Replies(rest);
        assert replies[0] == lines[0] && replies[1..] == Replies(rest);
        match extract(lines[0])
        case None =>
          assert Scan(replies, extract, next) == [] == Scan(lines, extract, next);
        case Some(rtt) =>
          assert Scan(replies, extract, next) == [Sample(next, rtt)] + Scan(Replies(rest), extract, next + 1);
          assert Scan(lines, extract, next) == [Sample(next, rtt)] + Scan(rest, extract, next + 1);
          ScanOfRepliesOnly(rest, extract, next + 1);
      }
    }
  }

  /**
    A reply line the reader rejects ends the scan: nothing after it
    contributes, even well-formed replies.
   */
  lemma {:induction false} ScanTruncatesAtFailure<R>(front: seq<string>, bad: string, back: seq<string>,
                                                     extract: string -> Option<R>, next: nat)
    requires IsReply(bad) && extract(bad).None?
    ensures Scan(front + [bad] + back, extract, next) == Scan(front, extract, next)
    decreases |front|
  {
    if |front| == 0 {
      assert front + [bad] + back == [bad] + back;
    } else {
      var rest := front[1..];
      assert (front + [bad] + back)[0] == front[0];
      assert (front + [bad] + back)[1..] == rest + [bad] + back;
      if !IsReply(front[0]) {
        ScanTruncatesAtFailure(rest, bad, back, extract, next);
      } else if extract(front[0]).Some? {
        ScanTruncatesAtFailure(rest, bad, back, extract, next + 1);
      }
    }
  }

  // The same facts for `parse_ping` itself.

  /** Sample i of `parse_ping` carries index i and the RTT of the i-th reply; the scan ends at the first failure. */
  lemma ParseIsSuccessfulPrefix<R>(lines: seq<string>, toFloat: string -> Option<R>)
    ensures var samples := ParsePing(lines, toFloat);
      var replies := Replies(lines);
      && (forall i :: 0 <= i < |samples| ==>
            samples[i].index == i && ExtractRtt(replies[i], toFloat) == Some(samples[i].rtt))
      && (|samples| < |replies| ==> ExtractRtt(replies[|samples|], toFloat).None?)
  {
    ScanIsSuccessfulPrefix(lines, RttReader(toFloat), 0);
  }

  /** `parse_ping` yields one sample per reply line exactly when no reply line fails. */
  lemma ParseLength<R>(lines: seq<string>, toFloat: string -> Option<R>)
    ensures |ParsePing(lines, toFloat)| <= |Replies(lines)|
    ensures |ParsePing(lines, toFloat)| == |Replies(lines)| <==>
      forall k :: 0 <= k < |lines| && IsReply(lines[k]) ==> ExtractRtt(lines[k], toFloat).Some?
  {
    ScanLength(lines, RttReader(toFloat), 0);
  }

  /** `parse_ping` of a log is a prefix of `parse_ping` of any extension, and equal once a reply failed. */
  lemma ParsePrefix<R>(front: seq<string>, back: seq<string>, toFloat: string -> Option<R>)
    ensures ParsePing(front, toFloat) <= ParsePing(front + back, toFloat)
    ensures (exists k :: 0 <= k < |front| && IsReply(front[k]) && ExtractRtt(front[k], toFloat).None?) ==>
      ParsePing(front + back, toFloat) == ParsePing(front, toFloat)
  {
    ScanAppend(front, back, RttReader(toFloat), 0);
  }

  /** Removing a non-reply line anywhere does not change the parse. */
  lemma ParseSkipsNonReply<R>(front: seq<string>, line: string, back: seq<string>, toFloat: string -> Option<R>)
    requires !IsReply(line)
    ensures ParsePing(front + [line] + back, toFloat) == ParsePing(front + back, toFloat)
  {
    ScanSkipsNonReply(front, line, back, RttReader(toFloat), 0);
  }

  /** Parsing only the reply lines gives the same samples. */
  lemma ParseOfRepliesOnly<R>(lines: seq<string>, toFloat: string -> Option<R>)
    ensures ParsePing(Replies(lines), toFloat) == ParsePing(lines, toFloat)
  {
    ScanOfRepliesOnly(lines, RttReader(toFloat), 0);
  }

  /** `parse_ping` ignores everything from the first failing reply on. */
  lemma ParseTruncatesAtFailure<R>(front: seq<string>, bad: string, back: seq<string>, toFloat: string -> Option<R>)
    requires IsReply(bad) && ExtractRtt(bad, toFloat).None?
    ensures ParsePing(front + [bad] + back, toFloat) == ParsePing(front, toFloat)
  {
    ScanTruncatesAtFailure(front, bad, back, RttReader(toFloat), 0);
  }
}
