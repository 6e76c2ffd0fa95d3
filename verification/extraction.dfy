/**
  Which text of a reply line `parse_ping` reads as the round-trip time
  (plot_ping.py:15-17), stated independently of `split`: by the positions
  of the spaces and equals signs in the line.
 */
module Extraction {
  import opened Wrappers
  import opened Text
  import opened PingLog

  /**
    The field `split(' ')[-2]` located by positions: it ends at the last
    space and starts after the space before it (or at the start of the
    line).  None when the line has no space.
   */
  function TokenBeforeLastSpace(line: string): Option<string>
  {
    match FindLast(line, ' ')
    case None => None
    case Some(j) =>
      var start := match FindLast(line[..j], ' ') case None => 0 case Some(i) => i + 1;
      Some(line[start..j])
  }

  /**
    The piece `split('=')[1]` located by positions: it starts after the
    first `=` and runs to the next `=` (or the end).  None without `=`.
   */
  function ValueAfterEquals(token: string): Option<string>
  {
    match FindFirst(token, '=')
    case None => None
    case Some(k) =>
      var value := token[k + 1..];
      var end := match FindFirst(value, '=') case None => |value| case Some(m) => m;
      Some(value[..end])
  }

  /** The RTT text located by positions alone, without splitting the line. */
  function RttTextByPosition(line: string): Option<string>
  {
    match TokenBeforeLastSpace(line)
    case None => None
    case Some(token) => ValueAfterEquals(token)
  }

  /** The field `split(' ')[-2]` exists exactly when the line has a space, and is the positional token. */
  lemma SecondToLastField(line: string)
    ensures var fields := Split(line, ' ');
      && (TokenBeforeLastSpace(line).None? <==> |fields| < 2)
      && (TokenBeforeLastSpace(line).Some? ==> fields[|fields| - 2] == TokenBeforeLastSpace(line).value)
  {
    SplitAtLast(line, ' ');
    match FindLast(line, ' ')
    case None =>
    case Some(j) =>
      var head := line[..j];
      SplitAtLast(head, ' ');
      match FindLast(head, ' ')
      case None =>
        assert head == line[0..j];
      case Some(i) =>
        assert head[i + 1..] == line[i + 1..j];
  }

  /** Piece `[1]` of `split('=')` exists exactly when the token has an `=`, and is the positional value. */
  lemma SecondPiece(token: string)
    ensures var parts := Split(token, '=');
      && (ValueAfterEquals(token).None? <==> |parts| < 2)
      && (ValueAfterEquals(token).Some? ==> parts[1] == ValueAfterEquals(token).value)
  {
    SplitAtFirst(token, '=');
    match FindFirst(token, '=')
    case None =>
    case Some(k) =>
      var value := token[k + 1..];
      SplitAtFirst(value, '=');
      if FindFirst(value, '=').None? {
        assert value[..|value|] == value;
      }
  }

  /** The split-based extraction of plot_ping.py:15-16 agrees with the positional description. */
  lemma RttTextMatchesPositions(line: string)
    ensures RttText(line) == RttTextByPosition(line)
  {
    SecondToLastField(line);
    match TokenBeforeLastSpace(line)
    case None =>
    case Some(token) =>
      SecondPiece(token);
  }

  /**
    The marker holds a space, so a reply line always has the two fields
    that `[-2]` needs; it fails only when that field has no `=`.
   */
  lemma ReplyFailsOnlyWithoutEquals(line: string)
    requires IsReply(line)
    ensures |Split(line, ' ')| >= 2
    ensures var fields := Split(line, ' ');
      RttText(line).None? <==> '=' !in fields[|fields| - 2]
  {
    ReplyHasSpace(line);
    SplitCount(line, ' ');
    assert Count(line, ' ') > 0;
    var fields := Split(line, ' ');
    var token := fields[|fields| - 2];
    SplitCount(token, '=');
    assert RttText(line).None? <==> |Split(token, '=')| < 2;
  }

  /** The marker "bytes from" holds a space, so every reply line does. */
  lemma ReplyHasSpace(line: string)
    requires IsReply(line)
    ensures ' ' in line
  {
    var i: nat :| OccursAt(line, Marker, i);
    assert line[i + 5] == line[i..i + |Marker|][5] == ' ';
  }

  /** A line whose positional RTT text the converter accepts is read as exactly that value. */
  lemma ExtractRttByPosition<R>(line: string, toFloat: string -> Option<R>)
    ensures ExtractRtt(line, toFloat).Some? <==>
      RttTextByPosition(line).Some? && toFloat(RttTextByPosition(line).value).Some?
    ensures ExtractRtt(line, toFloat).Some? ==>
      ExtractRtt(line, toFloat) == toFloat(RttTextByPosition(line).value)
  {
    RttTextMatchesPositions(line);
  }

  /** The field `split(' ')[-2]` of a line ending in " token last" is `token`. */
  lemma SecondToLastOfLineEnd(front: string, token: string, last: string)
    requires ' ' !in token && ' ' !in last
    ensures var fields := Split(front + " " + token + " " + last, ' ');
      |fields| >= 2 && fields[|fields| - 2] == token
  {
    var head := front + " " + token;
    assert front + " " + token + " " + last == head + [' '] + last;
    assert head == front + [' '] + token;
    SplitConcat(head, last, ' ');
    SplitConcat(front, token, ' ');
    SplitNoSep(token, ' ');
    SplitNoSep(last, ' ');
  }

  /** A reply whose last two fields are `key=value` and a unit is read as `value`. */
  lemma RttTextOfKeyValue(front: string, key: string, value: string, last: string)
    requires ' ' !in key && ' ' !in value && ' ' !in last
    requires '=' !in key && '=' !in value
    ensures RttText(front + " " + key + "=" + value + " " + last) == Some(value)
  {
    var token := key + "=" + value;
    assert front + " " + key + "=" + value + " " + last == front + " " + token + " " + last;
    SecondToLastOfLineEnd(front, token, last);
    assert token == key + ['='] + value;
    SplitConcat(key, value, '=');
    SplitNoSep(key, '=');
    SplitNoSep(value, '=');
  }

  /** When the second-to-last field has no `=`, the line yields nothing. */
  lemma RttTextWithoutEquals(front: string, token: string, last: string)
    requires ' ' !in token && ' ' !in last && '=' !in token
    ensures RttText(front + " " + token + " " + last).None?
  {
    SecondToLastOfLineEnd(front, token, last);
    SplitNoSep(token, '=');
  }

  /** Whatever precedes it, a line ending in "time=<value> ms" yields `<value>`. */
  lemma TimeFieldIsRead(front: string, value: string)
    requires ' ' !in value && '=' !in value
    ensures RttText(front + " time=" + value + " ms\n") == Some(value)
  {
    assert front + " time=" + value + " ms\n" == front + " " + "time" + "=" + value + " " + "ms\n";
    RttTextOfKeyValue(front, "time", value, "ms\n");
  }

  /**
    A duplicate reply ("... time=0.040 ms (DUP!)") has "ms" as its
    second-to-last field, so extraction fails and, being a reply line, it
    ends the scan.
   */
  lemma DuplicateReplyStopsScan<R>(front: string, toFloat: string -> Option<R>)
    ensures ExtractRtt(front + " time=0.040 ms (DUP!)\n", toFloat).None?
  {
    assert front + " time=0.040 ms (DUP!)\n" == (front + " time=0.040") + " " + "ms" + " " + "(DUP!)\n";
    RttTextWithoutEquals(front + " time=0.040", "ms", "(DUP!)\n");
  }
}
