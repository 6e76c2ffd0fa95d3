/**
  The ping-log parser `parse_ping` (plot_ping.py:7-22).

  The log is the sequence of its lines, each still carrying its trailing
  newline.  A line is a reply when it contains "bytes from"; other lines
  are passed over.  From a reply the parser takes the second-to-last
  space-separated field, the second `=`-separated piece of that field, and
  hands it to `float()`.  The first reply on which any of this fails ends
  the scan; the samples gathered so far are the result.

  `float()` is a parameter `toFloat: string -> Option<R>` with `R` left
  abstract: None stands for the exception it raises.
 */
module PingLog {
  import opened Wrappers
  import opened Text

  /** The substring that marks a probe reply. */
  const Marker: string := "bytes from"

  /** One probe: its position among the parsed replies and its round-trip time. */
  datatype Sample<R> = Sample(index: nat, rtt: R)

  /** `'bytes from' in line`. */
  predicate IsReply(line: string)
  {
    Contains(line, Marker)
  }

  /** The reply lines of a log, in order. */
  function Replies(lines: seq<string>): (replies: seq<string>)
    ensures |replies| <= |lines|
    ensures forall i :: 0 <= i < |replies| ==> IsReply(replies[i])
  {
    if |lines| == 0 then []
    else (if IsReply(lines[0]) then [lines[0]] else []) + Replies(lines[1..])
  }

  /** Filtering a single line keeps it exactly when it is a reply. */
  lemma RepliesOfOne(line: string)
    ensures Replies([line]) == if IsReply(line) then [line] else []
  {
  }

  /** The filter distributes over concatenation, so it keeps the replies in their order. */
  lemma {:induction false} RepliesAppend(front: seq<string>, back: seq<string>)
    ensures Replies(front + back) == Replies(front) + Replies(back)
    decreases |front|
  {
    if |front| == 0 {
      assert front + back == back;
    } else {
      assert (front + back)[0] == front[0];
      assert (front + back)[1..] == front[1..] + back;
      RepliesAppend(front[1..], back);
    }
  }

  /** A line is among the replies exactly when it is a line of the log and a reply. */
  lemma {:induction false} RepliesMembers(lines: seq<string>, line: string)
    ensures line in Replies(lines) <==> line in lines && IsReply(line)
    decreases |lines|
  {
    if |lines| > 0 {
      RepliesMembers(lines[1..], line);
      assert lines == [lines[0]] + lines[1..];
    }
  }

  /**
    The text handed to `float()`: `line.split(' ')[-2].split('=')[1]`, or
    None where Python raises IndexError (fewer than two fields, or a field
    without `=`).
   */
  function RttText(line: string): (text: Option<string>)
    ensures text.Some? ==> ' ' !in text.value && '=' !in text.value
  {
    var fields := Split(line, ' ');
    if |fields| < 2 then None
    else
      var parts := Split(fields[|fields| - 2], '=');
      SplitKeepsAbsent(fields[|fields| - 2], '=', ' ');
      if |parts| < 2 then None else Some(parts[1])
  }

  /** The round-trip time of a reply line, or None where the `try` block raises. */
  function ExtractRtt<R>(line: string, toFloat: string -> Option<R>): Option<R>
  {
    match RttText(line)
    case None => None
    case Some(text) => toFloat(text)
  }

  /** The body of the `try` block as a per-line reader, as `Scan` consumes it. */
  function RttReader<R>(toFloat: string -> Option<R>): string -> Option<R>
  {
    line => ExtractRtt(line, toFloat)
  }

  /** Some reply line of the log fails extraction, so the scan stops there. */
  predicate Stops<R>(lines: seq<string>, extract: string -> Option<R>)
  {
    exists k :: 0 <= k < |lines| && IsReply(lines[k]) && extract(lines[k]).None?
  }

  /**
    The scan loop from the point where `num == next`: skip non-replies,
    append a sample per reply that `extract` reads, stop at the first reply
    it cannot read.
   */
  function Scan<R>(lines: seq<string>, extract: string -> Option<R>, next: nat): seq<Sample<R>>
  {
    if |lines| == 0 then []
    else if !IsReply(lines[0]) then Scan(lines[1..], extract, next)
    else
      match extract(lines[0])
      case None => []
      case Some(rtt) => [Sample(next, rtt)] + Scan(lines[1..], extract, next + 1)
  }

  /**
    Scanning from `next` numbers the samples `next`, `next + 1`, … and
    gives at most one sample per reply line.
   */
  lemma {:induction false} ScanNumbering<R>(lines: seq<string>, extract: string -> Option<R>, next: nat)
    ensures var samples := Scan(lines, extract, next);
      && |samples| <= |Replies(lines)|
      && forall i :: 0 <= i < |samples| ==> samples[i].index == next + i
    decreases |lines|
  {
    if |lines| > 0 {
      var rest := lines[1..];
      if !IsReply(lines[0]) {
        assert Scan(lines, extract, next) == Scan(rest, extract, next);
        assert Replies(lines) == Replies(rest);
        ScanNumbering(rest, extract, next);
      } else if extract(lines[0]).Some? {
        var tail := Scan(rest, extract, next + 1);
        assert Scan(lines, extract, next) == [Sample(next, extract(lines[0]).value)] + tail;
        assert Replies(lines) == [lines[0]] + Replies(rest);
        ScanNumbering(rest, extract, next + 1);
      }
    }
  }

  /** `parse_ping` on the lines of a file. */
  function ParsePing<R>(lines: seq<string>, toFloat: string -> Option<R>): (samples: seq<Sample<R>>)
    ensures |samples| <= |Replies(lines)|
    ensures forall i :: 0 <= i < |samples| ==> samples[i].index == i
  {
    ScanNumbering(lines, RttReader(toFloat), 0);
    Scan(lines, RttReader(toFloat), 0)
  }

  /** The loop of `parse_ping` as written, with `continue` and `break`. */
  method ParsePingLoop<R>(lines: seq<string>, toFloat: string -> Option<R>) returns (ret: seq<Sample<R>>)
    ensures ret == ParsePing(lines, toFloat)
    ensures forall i :: 0 <= i < |ret| ==> ret[i].index == i
  {
    ghost var reader := RttReader(toFloat);
    ret := [];
    var num: nat := 0;
    var i := 0;
    while i < |lines|
      invariant 0 <= i <= |lines|
      invariant num == |ret|
      invariant ret + Scan(lines[i..], reader, num) == ParsePing(lines, toFloat)
    {
      var line := lines[i];
      ghost var rest := lines[i..];
      assert rest[0] == line && rest[1..] == lines[i + 1..];
      if !IsReply(line) {
        assert Scan(rest, reader, num) == Scan(lines[i + 1..], reader, num);
        i := i + 1;
        continue;
      }
      var rtt := ExtractRtt(line, toFloat);
      if rtt.None? {
        assert Scan(rest, reader, num) == [];
        break;
      }
      var sample := Sample(num, rtt.value);
      assert Scan(rest, reader, num) == [sample] + Scan(lines[i + 1..], reader, num + 1);
      assert ret + [sample] + Scan(lines[i + 1..], reader, num + 1)
          == ret + ([sample] + Scan(lines[i + 1..], reader, num + 1));
      ret := ret + [sample];
      num := num + 1;
      i := i + 1;
    }
    if i == |lines| {
      assert ret + Scan(lines[i..], reader, num) == ret;
    }
  }
}
