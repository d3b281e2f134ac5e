/** Commit records of `git log --pretty=format:%H|%ad|%an|%s`:
    `parse_commit_line`, and the two ways the log output is turned into a
    list of commits (`get_file_history` and `get_line_history`). */
module Commits {
  import opened Wrappers
  import opened Text

  datatype CommitInfo = CommitInfo(hash: string, date: string, author: string, message: string)

  /** `hash|date|author|message`, the shape git prints a record in. */
  function Record(c: CommitInfo): string {
    c.hash + "|" + c.date + "|" + c.author + "|" + c.message
  }

  predicate PipeFree(c: CommitInfo) {
    '|' !in c.hash && '|' !in c.date && '|' !in c.author && '|' !in c.message
  }

  /** Splits on every `|`; a line with fewer than four pieces is no record,
      otherwise the first four pieces are the fields and any further pieces
      are dropped (a message containing `|` keeps only its first part). */
  function ParseCommitLine(line: string): (r: Option<CommitInfo>)
    ensures r.None? <==> CountOf(line, '|') < 3
    ensures r.Some? ==> PipeFree(r.value)
  {
    var parts := Split(line, '|');
    SplitLength(line, '|');
    if |parts| >= 4 then Some(CommitInfo(parts[0], parts[1], parts[2], parts[3])) else None
  }

  lemma SplitFirst(w: string, rest: string, sep: char)
    requires sep !in w
    ensures Split(w + [sep] + rest, sep) == [w] + Split(rest, sep)
  {
    SplitAtSeparator(w, rest, sep);
    SplitNoSeparator(w, sep);
  }

  lemma SplitThreeFields(h: string, d: string, a: string, x: string)
    requires '|' !in h && '|' !in d && '|' !in a
    ensures Split(h + "|" + d + "|" + a + "|" + x, '|') == [h, d, a] + Split(x, '|')
  {
    var ax := a + ['|'] + x;
    var dax := d + ['|'] + ax;
    assert h + "|" + d + "|" + a + "|" + x == h + ['|'] + dax;
    SplitFirst(h, dax, '|');
    SplitFirst(d, ax, '|');
    SplitFirst(a, x, '|');
  }

  /** A record whose fields hold no `|` parses back to its fields, and
      whatever follows a fourth `|` is ignored: `h|d|a|fix|the|bug` has
      message `fix`. */
  lemma ParseRecordDropsExtraFields(c: CommitInfo, tail: string)
    requires PipeFree(c)
    ensures ParseCommitLine(Record(c)) == Some(c)
    ensures ParseCommitLine(Record(c) + "|" + tail) == Some(c)
  {
    SplitThreeFields(c.hash, c.date, c.author, c.message);
    SplitNoSeparator(c.message, '|');
    var t := c.message + "|" + tail;
    SplitThreeFields(c.hash, c.date, c.author, t);
    assert Record(c) + "|" + tail == c.hash + "|" + c.date + "|" + c.author + "|" + t;
    SplitFirst(c.message, tail, '|');
  }

  lemma RegroupFields(a: string, b: string, c: string, d: string, x: string)
    ensures a + "|" + (b + "|" + (c + "|" + (d + x))) == (a + "|" + b + "|" + c + "|" + d) + x
  {
  }

  lemma PrefixThen(r: string, x: string)
    ensures (r + x)[..|r|] == r
    ensures x != [] ==> (r + x)[|r|] == x[0]
  {
  }

  /** Joining four or more pieces gives the record of the first four, then
      the rest behind a `|`. */
  lemma JoinFourFields(parts: seq<string>)
    requires |parts| >= 4
    ensures var r := parts[0] + "|" + parts[1] + "|" + parts[2] + "|" + parts[3];
      Join(parts, '|') == r + (if |parts| == 4 then "" else "|" + Join(parts[4..], '|'))
  {
    var x := if |parts| == 4 then "" else "|" + Join(parts[4..], '|');
    var j3 := Join(parts[3..], '|');
    if |parts| == 4 {
      assert j3 == parts[3] + x;
    } else {
      JoinAfter(parts, 3);
      assert j3 == parts[3] + x;
    }
    JoinAfter(parts, 2);
    JoinAfter(parts, 1);
    JoinAfter(parts, 0);
    assert parts[0..] == parts;
    RegroupFields(parts[0], parts[1], parts[2], parts[3], x);
  }

  lemma JoinAfter(parts: seq<string>, i: nat)
    requires i + 1 < |parts|
    ensures Join(parts[i..], '|') == parts[i] + "|" + Join(parts[i + 1..], '|')
  {
    assert parts[i..][0] == parts[i] && parts[i..][1..] == parts[i + 1..];
  }

  /** The parsed fields are the start of the line, up to the fourth `|`. */
  lemma ParsedFieldsStartLine(line: string)
    requires ParseCommitLine(line).Some?
    ensures var c := ParseCommitLine(line).value;
      var n := |Record(c)|;
      n <= |line| && line[..n] == Record(c) && (n == |line| || line[n] == '|')
  {
    var parts := Split(line, '|');
    JoinSplit(line, '|');
    var c := ParseCommitLine(line).value;
    assert Record(c) == parts[0] + "|" + parts[1] + "|" + parts[2] + "|" + parts[3];
    JoinFourFields(parts);
    var x := if |parts| == 4 then "" else "|" + Join(parts[4..], '|');
    assert line == Record(c) + x;
    PrefixThen(Record(c), x);
  }

  /** `lines().filter_map(parse_commit_line)` (`get_file_history`). */
  function ParseRecords(lines: seq<string>): (cs: seq<CommitInfo>)
    ensures |cs| <= |lines|
    ensures forall k :: 0 <= k < |cs| ==> PipeFree(cs[k])
  {
    if lines == [] then []
    else match ParseCommitLine(lines[0])
      case Some(c) => [c] + ParseRecords(lines[1..])
      case None => ParseRecords(lines[1..])
  }

  /** The commit list of one `git log` output. */
  function FileHistory(output: string): seq<CommitInfo> {
    ParseRecords(Lines(output))
  }

  function Records(cs: seq<CommitInfo>): seq<string> {
    if cs == [] then [] else [Record(cs[0])] + Records(cs[1..])
  }

  predicate Printable(c: CommitInfo) {
    PipeFree(c) && '\n' !in Record(c) && (c.message == [] || c.message[|c.message| - 1] != '\r')
  }

  /** A log printed one record per line parses back to the same commits, in order. */
  lemma {:induction false} FileHistoryRoundTrip(cs: seq<CommitInfo>)
    requires forall k :: 0 <= k < |cs| ==> Printable(cs[k])
    ensures FileHistory(Terminated(Records(cs))) == cs
  {
    RecordsPrintable(cs);
    LinesOfTerminated(Records(cs));
    ParseRecordsOfRecords(cs);
  }

  lemma {:induction false} RecordsAt(cs: seq<CommitInfo>)
    ensures |Records(cs)| == |cs|
    ensures forall k :: 0 <= k < |cs| ==> Records(cs)[k] == Record(cs[k])
  {
    if cs != [] {
      RecordsAt(cs[1..]);
    }
  }

  /** A printable record never ends in a carriage return: it ends in its
      message, or in the `|` before an empty message. */
  lemma RecordEnd(c: CommitInfo)
    requires Printable(c)
    ensures Record(c) != [] && Record(c)[|Record(c)| - 1] != '\r'
  {
    var r := Record(c);
    if c.message == [] {
      assert r[|r| - 1] == '|';
    } else {
      assert r[|r| - 1] == c.message[|c.message| - 1];
    }
  }

  lemma RecordsPrintable(cs: seq<CommitInfo>)
    requires forall k :: 0 <= k < |cs| ==> Printable(cs[k])
    ensures |Records(cs)| == |cs|
    ensures forall k :: 0 <= k < |cs| ==> Records(cs)[k] == Record(cs[k])
    ensures forall k :: 0 <= k < |cs| ==> '\n' !in Records(cs)[k]
    ensures forall k :: 0 <= k < |cs| ==> Records(cs)[k] == [] || Records(cs)[k][|Records(cs)[k]| - 1] != '\r'
  {
    RecordsAt(cs);
    forall k | 0 <= k < |cs| ensures Records(cs)[k][|Records(cs)[k]| - 1] != '\r' {
      RecordEnd(cs[k]);
    }
  }

  lemma {:induction false} ParseRecordsOfRecords(cs: seq<CommitInfo>)
    requires forall k :: 0 <= k < |cs| ==> PipeFree(cs[k])
    ensures ParseRecords(Records(cs)) == cs
  {
    if cs != [] {
      ParseRecordDropsExtraFields(cs[0], "");
      assert Records(cs)[1..] == Records(cs[1..]);
      ParseRecordsOfRecords(cs[1..]);
    }
  }

  lemma {:induction false} CountOfAbsent(s: string, c: char)
    requires c !in s
    ensures CountOf(s, c) == 0
  {
    if s != [] {
      assert c !in s[1..];
      CountOfAbsent(s[1..], c);
    }
  }

  /** `get_line_history` collects records with a loop that first skips every
      line without a `|`; that guard changes nothing, so the result is the
      same commit list `get_file_history` builds. */
  method CollectLineHistory(output: string) returns (commits: seq<CommitInfo>)
    ensures commits == FileHistory(output)
  {
    var lines := Lines(output);
    commits := [];
    var i := 0;
    while i < |lines|
      invariant i <= |lines|
      invariant commits + ParseRecords(lines[i..]) == ParseRecords(lines)
    {
      var line := lines[i];
      assert lines[i..][0] == line && lines[i..][1..] == lines[i + 1..];
      if '|' in line {
        var parsed := ParseCommitLine(line);
        if parsed.Some? {
          commits := commits + [parsed.value];
        }
      } else {
        CountOfAbsent(line, '|');
      }
      i := i + 1;
    }
  }
}
