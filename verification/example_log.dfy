/** The shape of a short `ping` run, parsed end to end. */
module ExampleLog {
  import opened Wrappers
  import opened Text
  import opened PingLog
  import opened PingLogLemmas
  import opened Extraction

  /** Text appended after a reply's start keeps it a reply. */
  lemma ReplyExtended(front: string, rest: string)
    requires IsReply(front)
    ensures IsReply(front + rest)
  {
    var i: nat :| OccursAt(front, Marker, i);
    assert (front + rest)[i..i + |Marker|] == front[i..i + |Marker|];
    assert OccursAt(front + rest, Marker, i);
  }

  /** Two replies that both extract give samples 0 and 1, in order. */
  lemma ParseTwoReplies<R>(first: string, second: string, toFloat: string -> Option<R>)
    requires IsReply(first) && IsReply(second)
    requires ExtractRtt(first, toFloat).Some? && ExtractRtt(second, toFloat).Some?
    ensures ParsePing([first, second], toFloat)
         == [Sample(0, ExtractRtt(first, toFloat).value), Sample(1, ExtractRtt(second, toFloat).value)]
  {
    var reader := RttReader(toFloat);
    assert [first, second][1..] == [second];
    assert [second][1..] == [];
    assert Scan([second], reader, 1) == [Sample(1, ExtractRtt(second, toFloat).value)] + Scan([], reader, 2);
    assert Scan([first, second], reader, 0) == [Sample(0, ExtractRtt(first, toFloat).value)] + Scan([second], reader, 1);
  }

  /** Lines without the marker before and after the replies change nothing. */
  lemma ParseSkipsFraming<R>(banner: string, replies: seq<string>, summary: string, totals: string,
                             toFloat: string -> Option<R>)
    requires !IsReply(banner) && !IsReply(summary) && !IsReply(totals)
    ensures ParsePing([banner] + replies + [summary, totals], toFloat) == ParsePing(replies, toFloat)
  {
    var tail := replies + [summary, totals];
    ParseSkipsNonReply([], banner, tail, toFloat);
    assert [] + [banner] + tail == [banner] + replies + [summary, totals] && [] + tail == tail;
    ParseSkipsNonReply(replies, summary, [totals], toFloat);
    assert replies + [summary] + [totals] == tail;
    ParseSkipsNonReply(replies, totals, [], toFloat);
    assert replies + [totals] + [] == replies + [totals];
    assert replies + [] == replies;
  }

  /**
    A banner, two replies taking 10.0 and 20.0 ms, and two summary lines
    (any lines without the marker): the replies give samples 0 and 1 and
    the other lines are skipped.
   */
  lemma ParsePingRun<R>(banner: string, reply0: string, reply1: string, summary: string, totals: string,
                        toFloat: string -> Option<R>)
    requires !IsReply(banner) && !IsReply(summary) && !IsReply(totals)
    requires IsReply(reply0) && IsReply(reply1)
    requires toFloat("10.0").Some? && toFloat("20.0").Some?
    ensures ParsePing([banner, reply0 + " time=10.0 ms\n", reply1 + " time=20.0 ms\n", summary, totals], toFloat)
         == [Sample(0, toFloat("10.0").value), Sample(1, toFloat("20.0").value)]
  {
    var first, second := reply0 + " time=10.0 ms\n", reply1 + " time=20.0 ms\n";
    ReplyExtended(reply0, " time=10.0 ms\n");
    ReplyExtended(reply1, " time=20.0 ms\n");
    assert first == reply0 + " time=" + "10.0" + " ms\n";
    assert second == reply1 + " time=" + "20.0" + " ms\n";
    TimeFieldIsRead(reply0, "10.0");
    TimeFieldIsRead(reply1, "20.0");
    ParseTwoReplies(first, second, toFloat);
    ParseSkipsFraming(banner, [first, second], summary, totals, toFloat);
    assert [banner] + [first, second] + [summary, totals] == [banner, first, second, summary, totals];
  }

  /** A line without the letter `f` cannot contain "bytes from". */
  lemma WithoutFNoReply(line: string)
    requires 'f' !in line
    ensures !IsReply(line)
  {
    assert Marker[6] == 'f';
  }

  /** A line made of a head, the marker and a tail is a reply. */
  lemma MarkerBetween(head: string, tail: string)
    ensures IsReply(head + Marker + tail)
  {
    assert (head + Marker + tail)[|head|..|head| + |Marker|] == Marker;
    assert OccursAt(head + Marker + tail, Marker, |head|);
  }

  // The lines of a two-probe `ping` run.  Each is written in short pieces,
  // so that the facts below can be checked piece by piece.

  /** The banner `ping` prints first. */
  const Banner: string := "PING exa" + "mple (1." + "2.3.4): 5" + "6 data bytes\n"

  /** The first reply before its time field, and the whole line. */
  const Reply0Head: string := "64 bytes from" + " 1.2.3.4: icmp_seq=0 ttl=64"
  const Reply0: string := Reply0Head + " time=10.0 ms\n"

  /** The second reply before its time field, and the whole line. */
  const Reply1Head: string := "64 bytes from" + " 1.2.3.4: icmp_seq=1 ttl=64"
  const Reply1: string := Reply1Head + " time=20.0 ms\n"

  /** The two statistics lines `ping` prints last. */
  const Summary: string := "--- 1.2" + ".3.4 pin" + "g statis" + "tics ---\n"
  const Totals: string := "2 packet" + "s transm" + "itted, 2" + " packets" + " receive" + "d, 0.0% " + "packet l" + "oss\n"

  /** The banner is not a reply. */
  lemma BannerIsNotReply()
    ensures !IsReply(Banner)
  {
    assert 'f' !in "PING exa" && 'f' !in "mple (1." && 'f' !in "2.3.4): 5" && 'f' !in "6 data bytes\n";
    WithoutFNoReply(Banner);
  }

  /** The first statistics line is not a reply. */
  lemma SummaryIsNotReply()
    ensures !IsReply(Summary)
  {
    assert 'f' !in "--- 1.2" && 'f' !in ".3.4 pin" && 'f' !in "g statis" && 'f' !in "tics ---\n";
    WithoutFNoReply(Summary);
  }

  /** The second statistics line is not a reply. */
  lemma TotalsIsNotReply()
    ensures !IsReply(Totals)
  {
    assert 'f' !in "2 packet" && 'f' !in "s transm" && 'f' !in "itted, 2" && 'f' !in " packets";
    assert 'f' !in " receive" && 'f' !in "d, 0.0% " && 'f' !in "packet l" && 'f' !in "oss\n";
    WithoutFNoReply(Totals);
  }

  /** "64 bytes from" is the marker after "64 ". */
  lemma ReplyStart()
    ensures "64 bytes from" == "64 " + Marker
  {
  }

  /** Both reply heads carry the marker. */
  lemma ReplyHeadsAreReplies()
    ensures IsReply(Reply0Head) && IsReply(Reply1Head)
  {
    ReplyStart();
    MarkerBetween("64 ", " 1.2.3.4: icmp_seq=0 ttl=64");
    MarkerBetween("64 ", " 1.2.3.4: icmp_seq=1 ttl=64");
  }

  /** The literal five-line log of a two-probe run parses to the samples (0, 10.0) and (1, 20.0). */
  lemma ParseLiteralRun<R>(toFloat: string -> Option<R>)
    requires toFloat("10.0").Some? && toFloat("20.0").Some?
    ensures ParsePing([Banner, Reply0, Reply1, Summary, Totals], toFloat)
         == [Sample(0, toFloat("10.0").value), Sample(1, toFloat("20.0").value)]
  {
    BannerIsNotReply();
    SummaryIsNotReply();
    TotalsIsNotReply();
    ReplyHeadsAreReplies();
    ParsePingRun(Banner, Reply0Head, Reply1Head, Summary, Totals, toFloat);
  }
}
