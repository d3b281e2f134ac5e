/** `parse_blame_output`: the text of `git blame --line-porcelain` to one
    attributed row per line of the file. */
module Blame {
  import opened Wrappers
  import opened Text
  import opened Dates
  import opened Authors

  datatype BlameLine = BlameLine(lineNumber: nat, author: string, date: string, commitHash: string, content: string)

  // ---------------------------------------------------------------------------
  // Byte lengths: `str::len()` and `&s[..7]` count UTF-8 bytes
  // ---------------------------------------------------------------------------

  function Utf8Width(c: char): nat {
    if c as int < 0x80 then 1 else if c as int < 0x800 then 2 else if c as int < 0x10000 then 3 else 4
  }

  function ByteLength(s: string): nat {
    if s == [] then 0 else Utf8Width(s[0]) + ByteLength(s[1..])
  }

  predicate IsAscii(s: string) {
    forall k :: 0 <= k < |s| ==> s[k] as int < 0x80
  }

  /** How many characters of `s` make up exactly its first `n` bytes; None when
      byte `n` falls inside a character or past the end (where `&s[..n]` panics). */
  function CharsInBytes(s: string, n: nat): (r: Option<nat>)
    ensures r.Some? ==> r.value <= |s| && ByteLength(s[..r.value]) == n
  {
    if n == 0 then Some(0)
    else if s == [] || Utf8Width(s[0]) > n then None
    else match CharsInBytes(s[1..], n - Utf8Width(s[0]))
      case None => None
      case Some(k) => assert s[..k + 1][1..] == s[1..][..k]; Some(k + 1)
  }

  /** The converse: whenever the first `k` characters make up exactly `n`
      bytes, the cut is found, and at `k`. */
  lemma {:induction false} CharsInBytesAtBoundary(s: string, n: nat, k: nat)
    requires k <= |s| && ByteLength(s[..k]) == n
    ensures CharsInBytes(s, n) == Some(k)
    decreases k
  {
    if k > 0 {
      assert s[..k][0] == s[0] && s[..k][1..] == s[1..][..k - 1];
      CharsInBytesAtBoundary(s[1..], n - Utf8Width(s[0]), k - 1);
    }
  }

  lemma {:induction false} AsciiBytes(s: string, n: nat)
    requires IsAscii(s) && n <= |s|
    ensures ByteLength(s) == |s|
    ensures CharsInBytes(s, n) == Some(n)
  {
    if s != [] {
      AsciiBytes(s[1..], if n == 0 then 0 else n - 1);
    }
  }

  // ---------------------------------------------------------------------------
  // The porcelain records
  // ---------------------------------------------------------------------------

  /** A record begins at a line of at least three tokens whose first token
      (the commit id) is at least 7 bytes long. */
  predicate IsHeader(line: string) {
    var parts := Tokens(line);
    |parts| >= 3 && ByteLength(parts[0]) >= 7
  }

  /** `&commit_hash[..7]`: the first 7 bytes of the commit id. */
  function ShortHash(id: string): string {
    match CharsInBytes(id, 7)
    case Some(k) => id[..k]
    case None => id
  }

  /** The short hash is a prefix of the id, 7 bytes long whenever byte 7
      falls on a character boundary. */
  lemma ShortHashIsPrefix(id: string)
    ensures var r := ShortHash(id);
      |r| <= |id| && r == id[..|r|] && (CharsInBytes(id, 7).Some? ==> ByteLength(r) == 7)
  {
  }

  /** What the metadata lines of one record set, and how many lines were read. */
  datatype Meta = Meta(author: string, date: string, content: string, consumed: nat)

  function Skipped(m: Meta, lines: nat): Meta {
    m.(consumed := m.consumed + lines)
  }

  /** An `author-time` value: a valid `i64` becomes a coarse date, anything
      else leaves the date as it was. */
  function AuthorTime(value: string, date: string): string {
    match ParseI64(value)
    case Some(t) => FormatTimestamp(t)
    case None => date
  }

  /** The inner loop: `author ` and `author-time ` lines update the fields, the
      first tab-prefixed line is the content and ends the record, every other
      line (summary, filename, committer ...) is skipped. Without a content
      line the record runs to the end of the text with empty content. */
  function ReadMeta(lines: seq<string>, author: string, date: string): (m: Meta)
    ensures m.consumed <= |lines|
    ensures lines != [] ==> m.consumed >= 1
  {
    if lines == [] then Meta(author, date, "", 0)
    else
      var line := lines[0];
      if StartsWith(line, "author ") then Skipped(ReadMeta(lines[1..], line[7..], date), 1)
      else if StartsWith(line, "author-time ") then Skipped(ReadMeta(lines[1..], author, AuthorTime(line[12..], date)), 1)
      else if StartsWith(line, "\t") then Meta(author, date, line[1..], 1)
      else Skipped(ReadMeta(lines[1..], author, date), 1)
  }

  function HeaderRecord(header: string, m: Meta): BlameLine
    requires IsHeader(header)
  {
    var parts := Tokens(header);
    BlameLine(ParseUsize(parts[2]).GetOr(0), AbbreviateAuthor(m.author), m.date, ShortHash(parts[0]), m.content)
  }

  /** The outer loop: a header line starts a record that takes its metadata
      lines with it; any other line is passed over. */
  function ParseLines(lines: seq<string>): seq<BlameLine>
    decreases |lines|
  {
    if lines == [] then []
    else if IsHeader(lines[0]) then
      var m := ReadMeta(lines[1..], "", "");
      [HeaderRecord(lines[0], m)] + ParseLines(lines[1 + m.consumed..])
    else ParseLines(lines[1..])
  }

  /** Every header the outer loop meets has a character boundary at byte 7,
      so `&commit_hash[..7]` does not panic. */
  predicate HashesCut(lines: seq<string>)
    decreases |lines|
  {
    if lines == [] then true
    else if IsHeader(lines[0]) then
      CharsInBytes(Tokens(lines[0])[0], 7).Some?
      && HashesCut(lines[1 + ReadMeta(lines[1..], "", "").consumed..])
    else HashesCut(lines[1..])
  }

  /** The outer loop at a header line i whose record ends before line `next`. */
  lemma ParseHeaderAt(lines: seq<string>, i: nat, m: Meta, next: nat)
    requires i < |lines| && IsHeader(lines[i])
    requires m == ReadMeta(lines[i + 1..], "", "") && next == i + 1 + m.consumed
    ensures next <= |lines|
    ensures ParseLines(lines[i..]) == [HeaderRecord(lines[i], m)] + ParseLines(lines[next..])
    ensures HashesCut(lines[i..]) ==> CharsInBytes(Tokens(lines[i])[0], 7).Some? && HashesCut(lines[next..])
  {
    assert lines[i..][0] == lines[i] && lines[i..][1..] == lines[i + 1..];
    assert lines[i..][1 + m.consumed..] == lines[next..];
  }

  /** The outer loop passes over a line i that is no header. */
  lemma ParseOtherAt(lines: seq<string>, i: nat)
    requires i < |lines| && !IsHeader(lines[i])
    ensures ParseLines(lines[i..]) == ParseLines(lines[i + 1..])
    ensures HashesCut(lines[i..]) == HashesCut(lines[i + 1..])
  {
    assert lines[i..][0] == lines[i] && lines[i..][1..] == lines[i + 1..];
  }

  /** One line of the inner loop: what ReadMeta makes of line i. */
  lemma ReadMetaAt(lines: seq<string>, i: nat, author: string, date: string)
    requires i < |lines|
    ensures var line := lines[i];
      ReadMeta(lines[i..], author, date)
      == if StartsWith(line, "author ") then Skipped(ReadMeta(lines[i + 1..], line[7..], date), 1)
         else if StartsWith(line, "author-time ") then Skipped(ReadMeta(lines[i + 1..], author, AuthorTime(line[12..], date)), 1)
         else if StartsWith(line, "\t") then Meta(author, date, line[1..], 1)
         else Skipped(ReadMeta(lines[i + 1..], author, date), 1)
  {
    assert lines[i..][0] == lines[i] && lines[i..][1..] == lines[i + 1..];
  }

  /** The inner loop of `parse_blame_output`: reads the metadata lines of one
      record, from `start` up to and including its content line. */
  method ReadRecordMeta(lines: seq<string>, start: nat) returns (author: string, date: string, content: string, next: nat)
    requires start <= |lines|
    ensures start <= next <= |lines|
    ensures ReadMeta(lines[start..], "", "") == Meta(author, date, content, next - start)
  {
    author, date, content := "", "", "";
    next := start;
    while next < |lines|
      invariant start <= next <= |lines|
      invariant content == ""
      invariant Skipped(ReadMeta(lines[next..], author, date), next - start) == ReadMeta(lines[start..], "", "")
    {
      var infoLine := lines[next];
      ReadMetaAt(lines, next, author, date);
      ghost var m := ReadMeta(lines[next..], author, date);
      next := next + 1;
      if StartsWith(infoLine, "author ") {
        author := infoLine[7..];
        assert m == Skipped(ReadMeta(lines[next..], author, date), 1);
      } else if StartsWith(infoLine, "author-time ") {
        ghost var newDate := AuthorTime(infoLine[12..], date);
        var timestamp := ParseI64(infoLine[12..]);
        if timestamp.Some? {
          date := FormatTimestamp(timestamp.value);
        }
        assert date == newDate;
        assert m == Skipped(ReadMeta(lines[next..], author, date), 1);
      } else if StartsWith(infoLine, "\t") {
        content := infoLine[1..];
        assert m == Meta(author, date, content, 1);
        break;
      } else {
        assert m == Skipped(ReadMeta(lines[next..], author, date), 1);
      }
    }
  }

  /** `parse_blame_output`: one row per record, in the order of the text. */
  method ParseBlameOutput(blameText: string) returns (blameLines: seq<BlameLine>)
    requires HashesCut(Lines(blameText))
    ensures blameLines == ParseLines(Lines(blameText))
  {
    var lines := Lines(blameText);
    blameLines := [];
    var i := 0;
    while i < |lines|
      invariant i <= |lines|
      invariant HashesCut(lines[i..])
      invariant blameLines + ParseLines(lines[i..]) == ParseLines(lines)
    {
      var parts := Tokens(lines[i]);
      if |parts| >= 3 && ByteLength(parts[0]) >= 7 {
        var commitHash := parts[0];
        var lineNumber := ParseUsize(parts[2]).GetOr(0);
        var author, date, content, next := ReadRecordMeta(lines, i + 1);
        ParseHeaderAt(lines, i, Meta(author, date, content, next - (i + 1)), next);
        var cut := CharsInBytes(commitHash, 7).value;
        var row := BlameLine(lineNumber, AbbreviateAuthor(author), date, commitHash[..cut], content);
        assert row == HeaderRecord(lines[i], Meta(author, date, content, next - (i + 1)));
        blameLines := blameLines + [row];
        i := next;
      } else {
        ParseOtherAt(lines, i);
        i := i + 1;
      }
    }
    assert lines[i..] == [];
  }

  // ---------------------------------------------------------------------------
  // What each record is made of
  // ---------------------------------------------------------------------------

  /** The content of the first tab-prefixed line, without its tab; empty if none. */
  function FirstTabContent(lines: seq<string>): string {
    if lines == [] then ""
    else if StartsWith(lines[0], "\t") then lines[0][1..]
    else FirstTabContent(lines[1..])
  }

  lemma {:induction false} ReadMetaContent(lines: seq<string>, author: string, date: string)
    ensures ReadMeta(lines, author, date).content == FirstTabContent(lines)
  {
    if lines != [] {
      var line := lines[0];
      if StartsWith(line, "author ") {
        assert line[0] == 'a';
        ReadMetaContent(lines[1..], line[7..], date);
      } else if StartsWith(line, "author-time ") {
        assert line[0] == 'a';
        ReadMetaContent(lines[1..], author, AuthorTime(line[12..], date));
      } else if !StartsWith(line, "\t") {
        ReadMetaContent(lines[1..], author, date);
      }
    }
  }

  function Shift(s: seq<nat>, d: nat): (r: seq<nat>)
    ensures |r| == |s|
    ensures forall k :: 0 <= k < |s| ==> r[k] == s[k] + d
  {
    if s == [] then [] else [s[0] + d] + Shift(s[1..], d)
  }

  /** Positions of the header lines that begin records. */
  function RecordStarts(lines: seq<string>): seq<nat>
    decreases |lines|
  {
    if lines == [] then []
    else if IsHeader(lines[0]) then
      var m := ReadMeta(lines[1..], "", "");
      [0] + Shift(RecordStarts(lines[1 + m.consumed..]), 1 + m.consumed)
    else Shift(RecordStarts(lines[1..]), 1)
  }

  /** What a row takes from the header line at `start`: its short hash is the
      first 7 bytes of the header's first token, its line number the third
      token (0 when that is no `usize`), its content the first tab line after
      the header (empty when there is none). */
  predicate RowFromHeader(lines: seq<string>, start: nat, row: BlameLine) {
    start < |lines| && IsHeader(lines[start])
    && row.commitHash == ShortHash(Tokens(lines[start])[0])
    && row.lineNumber == ParseUsize(Tokens(lines[start])[2]).GetOr(0)
    && row.content == FirstTabContent(lines[start + 1..])
  }

  lemma RowFromHeaderShifted(lines: seq<string>, d: nat, start: nat, row: BlameLine)
    requires d <= |lines| && RowFromHeader(lines[d..], start, row)
    ensures RowFromHeader(lines, start + d, row)
  {
    assert lines[d..][start] == lines[start + d];
    assert lines[d..][start + 1..] == lines[start + d + 1..];
  }

  /** Row k comes from the header at starts[k], and the starts strictly increase. */
  predicate RowsFrom(lines: seq<string>, starts: seq<nat>, recs: seq<BlameLine>)
    decreases |starts|
  {
    |starts| == |recs|
    && (starts != [] ==>
          RowFromHeader(lines, starts[0], recs[0])
          && (|starts| > 1 ==> starts[0] < starts[1])
          && RowsFrom(lines, starts[1..], recs[1..]))
  }

  /** Any one row of RowsFrom. */
  lemma {:induction false} RowsFromAt(lines: seq<string>, starts: seq<nat>, recs: seq<BlameLine>, k: nat)
    requires RowsFrom(lines, starts, recs) && k < |starts|
    ensures RowFromHeader(lines, starts[k], recs[k])
    ensures k > 0 ==> starts[k - 1] < starts[k]
    decreases k
  {
    if k > 0 {
      RowsFromAt(lines, starts[1..], recs[1..], k - 1);
    }
  }

  /** Rows read from `lines[d..]` are rows of `lines` once their starts are
      shifted by d, and then start at d or later. */
  lemma {:induction false} RowsShifted(lines: seq<string>, d: nat, starts: seq<nat>, recs: seq<BlameLine>)
    requires d <= |lines| && RowsFrom(lines[d..], starts, recs)
    ensures RowsFrom(lines, Shift(starts, d), recs)
    ensures starts != [] ==> Shift(starts, d)[0] >= d
    decreases |starts|
  {
    if starts != [] {
      RowFromHeaderShifted(lines, d, starts[0], recs[0]);
      RowsShifted(lines, d, starts[1..], recs[1..]);
      assert Shift(starts, d)[1..] == Shift(starts[1..], d);
    }
  }

  /** A row from the first line put in front of rows from later lines. */
  lemma RowsConsed(lines: seq<string>, row: BlameLine, starts: seq<nat>, recs: seq<BlameLine>)
    requires RowFromHeader(lines, 0, row) && RowsFrom(lines, starts, recs)
    requires starts != [] ==> starts[0] >= 1
    ensures RowsFrom(lines, [0] + starts, [row] + recs)
  {
    assert ([0] + starts)[1..] == starts && ([row] + recs)[1..] == recs;
  }

  /** Row k comes from the header at RecordStarts(lines)[k], and the starts
      strictly increase. */
  lemma {:induction false} RecordsFromHeaders(lines: seq<string>)
    ensures RowsFrom(lines, RecordStarts(lines), ParseLines(lines))
    decreases |lines|, 1
  {
    if lines != [] {
      if IsHeader(lines[0]) {
        RecordsFromHeader(lines);
      } else {
        RecordsFromOther(lines);
      }
    }
  }

  /** Where the records start, seen from a header line. */
  lemma StartsAtHeader(lines: seq<string>, d: nat)
    requires lines != [] && IsHeader(lines[0]) && d == 1 + ReadMeta(lines[1..], "", "").consumed
    ensures d <= |lines| && RecordStarts(lines) == [0] + Shift(RecordStarts(lines[d..]), d)
  {
  }

  /** The rows, seen from a header line. */
  lemma RowsAtHeader(lines: seq<string>, m: Meta, d: nat)
    requires lines != [] && IsHeader(lines[0])
    requires m == ReadMeta(lines[1..], "", "") && d == 1 + m.consumed
    ensures d <= |lines| && ParseLines(lines) == [HeaderRecord(lines[0], m)] + ParseLines(lines[d..])
  {
    ParseHeaderAt(lines, 0, m, d);
    assert lines[0..] == lines;
  }

  /** The row of a header line is made from that header. */
  lemma RowAtHeader(lines: seq<string>, m: Meta)
    requires lines != [] && IsHeader(lines[0]) && m == ReadMeta(lines[1..], "", "")
    ensures RowFromHeader(lines, 0, HeaderRecord(lines[0], m))
  {
    ReadMetaContent(lines[1..], "", "");
  }

  /** RecordsFromHeaders when the first line is a header. */
  lemma {:induction false} RecordsFromHeader(lines: seq<string>)
    requires lines != [] && IsHeader(lines[0])
    ensures RowsFrom(lines, RecordStarts(lines), ParseLines(lines))
    decreases |lines|, 0
  {
    var m := ReadMeta(lines[1..], "", "");
    var d := 1 + m.consumed;
    StartsAtHeader(lines, d);
    RowsAtHeader(lines, m, d);
    RowAtHeader(lines, m);
    var rest := lines[d..];
    RecordsFromHeaders(rest);
    RowsShifted(lines, d, RecordStarts(rest), ParseLines(rest));
    RowsConsed(lines, HeaderRecord(lines[0], m), Shift(RecordStarts(rest), d), ParseLines(rest));
  }

  /** RecordsFromHeaders when the first line is no header. */
  lemma {:induction false} RecordsFromOther(lines: seq<string>)
    requires lines != [] && !IsHeader(lines[0])
    ensures RowsFrom(lines, RecordStarts(lines), ParseLines(lines))
    decreases |lines|, 0
  {
    var rest := lines[1..];
    assert RecordStarts(lines) == Shift(RecordStarts(rest), 1) && ParseLines(lines) == ParseLines(rest);
    RecordsFromHeaders(rest);
    RowsShifted(lines, 1, RecordStarts(rest), ParseLines(rest));
  }

  /** A header whose record has no content line still yields a row, with
      empty content; it takes every remaining line with it. */
  lemma {:induction false} TruncatedRecord(header: string, rest: seq<string>)
    requires IsHeader(header)
    requires forall k :: 0 <= k < |rest| ==> !StartsWith(rest[k], "\t")
    ensures |ParseLines([header] + rest)| == 1
    ensures ParseLines([header] + rest)[0].content == ""
    ensures ParseLines([header] + rest)[0].commitHash == ShortHash(Tokens(header)[0])
  {
    NoContentLine(rest, "", "");
    assert ([header] + rest)[1..] == rest;
  }

  lemma {:induction false} NoContentLine(lines: seq<string>, author: string, date: string)
    requires forall k :: 0 <= k < |lines| ==> !StartsWith(lines[k], "\t")
    ensures ReadMeta(lines, author, date).consumed == |lines|
    ensures ReadMeta(lines, author, date).content == ""
  {
    if lines != [] {
      var line := lines[0];
      if StartsWith(line, "author ") {
        NoContentLine(lines[1..], line[7..], date);
      } else if StartsWith(line, "author-time ") {
        NoContentLine(lines[1..], author, AuthorTime(line[12..], date));
      } else {
        NoContentLine(lines[1..], author, date);
      }
    }
  }

  // ---------------------------------------------------------------------------
  // Round trip: the blocks git prints parse back to the rows they describe
  // ---------------------------------------------------------------------------

  /** One `--line-porcelain` block: header `<id> <source line> <final line>
      [<group size>]`, `author`, `author-time`, further metadata lines, and the
      tab-prefixed content. */
  datatype PorcelainBlock = PorcelainBlock(
    id: string, sourceLine: nat, finalLine: nat, groupSize: Option<nat>,
    author: string, authorTime: nat, otherMeta: seq<string>, content: string)

  function GroupSuffix(groupSize: Option<nat>): string {
    match groupSize
    case Some(n) => " " + Decimal(n)
    case None => ""
  }

  function HeaderLine(b: PorcelainBlock): string {
    b.id + " " + (Decimal(b.sourceLine) + " " + (Decimal(b.finalLine) + GroupSuffix(b.groupSize)))
  }

  function BlockLines(b: PorcelainBlock): seq<string> {
    [HeaderLine(b)] + (["author " + b.author] + (["author-time " + Decimal(b.authorTime)] + (b.otherMeta + ["\t" + b.content])))
  }

  function BlocksLines(bs: seq<PorcelainBlock>): seq<string> {
    if bs == [] then [] else BlockLines(bs[0]) + BlocksLines(bs[1..])
  }

  /** A metadata line the parser skips. */
  predicate Inert(line: string) {
    !StartsWith(line, "author ") && !StartsWith(line, "author-time ") && !StartsWith(line, "\t")
  }

  predicate WellFormedBlock(b: PorcelainBlock) {
    IsWord(b.id) && IsAscii(b.id) && |b.id| >= 7
    && b.finalLine <= USIZE_MAX && b.authorTime <= I64_MAX
    && forall k :: 0 <= k < |b.otherMeta| ==> Inert(b.otherMeta[k])
  }

  /** The row a block stands for. */
  function BlockRow(b: PorcelainBlock): BlameLine
    requires WellFormedBlock(b)
  {
    BlameLine(b.finalLine, AbbreviateAuthor(b.author), FormatTimestamp(b.authorTime), b.id[..7], b.content)
  }

  function BlockRows(bs: seq<PorcelainBlock>): seq<BlameLine>
    requires forall k :: 0 <= k < |bs| ==> WellFormedBlock(bs[k])
  {
    if bs == [] then [] else [BlockRow(bs[0])] + BlockRows(bs[1..])
  }

  lemma HeaderTokens(b: PorcelainBlock)
    requires IsWord(b.id)
    ensures var t := Tokens(HeaderLine(b));
      |t| >= 3 && t[0] == b.id && t[1] == Decimal(b.sourceLine) && t[2] == Decimal(b.finalLine)
  {
    var last := Decimal(b.finalLine) + GroupSuffix(b.groupSize);
    assert |Tokens(last)| >= 1 && Tokens(last)[0] == Decimal(b.finalLine) by {
      DecimalIsWord(b.finalLine);
      if b.groupSize.Some? {
        assert last == Decimal(b.finalLine) + " " + Decimal(b.groupSize.value);
        TokensOfSpaced(Decimal(b.finalLine), Decimal(b.groupSize.value));
      } else {
        assert last == Decimal(b.finalLine);
        TokensOfWord(Decimal(b.finalLine));
      }
    }
    var mid := Decimal(b.sourceLine) + " " + last;
    assert Tokens(mid) == [Decimal(b.sourceLine)] + Tokens(last) by {
      DecimalIsWord(b.sourceLine);
      TokensOfSpaced(Decimal(b.sourceLine), last);
    }
    assert Tokens(HeaderLine(b)) == [b.id] + Tokens(mid) by {
      assert HeaderLine(b) == b.id + " " + mid;
      TokensOfSpaced(b.id, mid);
    }
  }

  lemma ReadAuthorLine(author: string, rest: seq<string>, old_author: string, date: string)
    ensures ReadMeta(["author " + author] + rest, old_author, date) == Skipped(ReadMeta(rest, author, date), 1)
  {
    var line := "author " + author;
    assert StartsWith(line, "author ") && line[7..] == author;
    assert (["author " + author] + rest)[1..] == rest;
  }

  lemma ReadTimeLine(t: nat, rest: seq<string>, author: string, date: string)
    requires t <= I64_MAX
    ensures ReadMeta(["author-time " + Decimal(t)] + rest, author, date) == Skipped(ReadMeta(rest, author, FormatTimestamp(t)), 1)
  {
    var line := "author-time " + Decimal(t);
    assert line[6] == '-';
    assert !StartsWith(line, "author ");
    assert StartsWith(line, "author-time ") && line[12..] == Decimal(t);
    ParseI64Decimal(t);
    assert (["author-time " + Decimal(t)] + rest)[1..] == rest;
  }

  lemma {:induction false} ReadInertLines(inert: seq<string>, rest: seq<string>, author: string, date: string)
    requires forall k :: 0 <= k < |inert| ==> Inert(inert[k])
    ensures ReadMeta(inert + rest, author, date) == Skipped(ReadMeta(rest, author, date), |inert|)
  {
    if inert == [] {
      assert inert + rest == rest;
    } else {
      assert (inert + rest)[0] == inert[0] && (inert + rest)[1..] == inert[1..] + rest;
      ReadInertLines(inert[1..], rest, author, date);
    }
  }

  lemma ReadContentLine(content: string, rest: seq<string>, author: string, date: string)
    ensures ReadMeta(["\t" + content] + rest, author, date) == Meta(author, date, content, 1)
  {
    var line := "\t" + content;
    assert line[0] == '\t' && line[1..] == content;
    assert !StartsWith(line, "author ") && !StartsWith(line, "author-time ");
  }

  /** Reading one block's metadata gives its author, its formatted time and its content. */
  lemma ReadBlockMeta(b: PorcelainBlock, rest: seq<string>)
    requires WellFormedBlock(b)
    ensures ReadMeta((BlockLines(b) + rest)[1..], "", "")
         == Meta(b.author, FormatTimestamp(b.authorTime), b.content, |BlockLines(b)| - 1)
  {
    var tab := ["\t" + b.content] + rest;
    var afterTime := b.otherMeta + tab;
    var afterAuthor := ["author-time " + Decimal(b.authorTime)] + afterTime;
    var afterHeader := ["author " + b.author] + afterAuthor;
    assert (BlockLines(b) + rest)[1..] == afterHeader;
    ReadContentLine(b.content, rest, b.author, FormatTimestamp(b.authorTime));
    ReadInertLines(b.otherMeta, tab, b.author, FormatTimestamp(b.authorTime));
    ReadTimeLine(b.authorTime, afterTime, b.author, "");
    ReadAuthorLine(b.author, afterAuthor, "", "");
  }

  /** One block followed by anything: one row for the block, then the rest. */
  lemma ParseBlock(b: PorcelainBlock, rest: seq<string>)
    requires WellFormedBlock(b)
    ensures ParseLines(BlockLines(b) + rest) == [BlockRow(b)] + ParseLines(rest)
    ensures HashesCut(BlockLines(b) + rest) == HashesCut(rest)
  {
    var lines := BlockLines(b) + rest;
    assert lines[0] == HeaderLine(b);
    HeaderTokens(b);
    var parts := Tokens(HeaderLine(b));
    assert parts[0] == b.id && parts[2] == Decimal(b.finalLine);
    AsciiBytes(b.id, 7);
    assert IsHeader(lines[0]);
    ReadBlockMeta(b, rest);
    assert lines[1 + (|BlockLines(b)| - 1)..] == rest;
    ParseUsizeDecimal(b.finalLine);
  }

  /** Blocks printed one after another parse back to their rows, in order,
      and the parser never cuts a commit id inside a character. */
  lemma {:induction false} ParseBlocks(bs: seq<PorcelainBlock>)
    requires forall k :: 0 <= k < |bs| ==> WellFormedBlock(bs[k])
    ensures ParseLines(BlocksLines(bs)) == BlockRows(bs)
    ensures HashesCut(BlocksLines(bs))
  {
    if bs != [] {
      ParseBlocks(bs[1..]);
      ParseBlock(bs[0], BlocksLines(bs[1..]));
    }
  }

  /** A line that starts with neither `a` nor a tab is skipped. */
  lemma InertLine(line: string)
    requires line != [] && line[0] != 'a' && line[0] != '\t'
    ensures Inert(line)
  {
    if |line| >= 7 {
      assert line[..7][0] == line[0];
    }
    if |line| >= 12 {
      assert line[..12][0] == line[0];
    }
    assert line[..1][0] == line[0];
  }

  function JaneDoe(): PorcelainBlock {
    PorcelainBlock("abcdef1", 10, 5, Some(3), "Jane Doe", 0, ["summary init"], "hello")
  }

  lemma JaneDoeLines()
    ensures BlockLines(JaneDoe()) + [] == ["abcdef1 10 5 3", "author Jane Doe", "author-time 0", "summary init", "\thello"]
  {
    var b := JaneDoe();
    assert DigitChar(0) == '0' && DigitChar(1) == '1' && DigitChar(3) == '3' && DigitChar(5) == '5';
    assert Decimal(10) == "10" && Decimal(5) == "5" && Decimal(3) == "3" && Decimal(0) == "0";
    assert GroupSuffix(b.groupSize) == " 3";
    assert HeaderLine(b) == "abcdef1" + " " + ("10" + " " + ("5" + " 3"));
    assert HeaderLine(b) == "abcdef1 10 5 3";
    assert "author " + b.author == "author Jane Doe";
    assert "author-time " + Decimal(b.authorTime) == "author-time 0";
    assert "\t" + b.content == "\thello";
    assert b.otherMeta + ["\thello"] == ["summary init", "\thello"];
  }

  lemma EpochDate()
    ensures FormatTimestamp(0) == "1970-01-01"
  {
    assert CoarseDateOf(0) == CoarseDate(1970, 1, 1);
    assert DigitChar(0) == '0' && DigitChar(1) == '1' && DigitChar(7) == '7' && DigitChar(9) == '9';
    assert Decimal(1970) == "1970" && Decimal(1) == "1";
    assert ZeroPad("1970", 4) == "1970";
    assert ZeroPad("1", 2) == ZeroPad("01", 2) == "01";
    assert FormatDate(CoarseDate(1970, 1, 1)) == "1970" + "-" + "01" + "-" + "01";
  }

  lemma JaneDoeWellFormed()
    ensures WellFormedBlock(JaneDoe())
  {
    InertLine("summary init");
    assert IsWord("abcdef1") && IsAscii("abcdef1");
  }

  lemma AbbreviateJaneDoe()
    ensures AbbreviateAuthor("Jane Doe") == "Jane D."
  {
    assert IsWord("Jane") && IsWord("Doe");
    assert "Jane" + " " + "Doe" + "" == "Jane Doe";
    AbbreviateFullName("Jane", "Doe", "");
    assert "Jane" + " " + ["Doe"[0]] + "." == "Jane D.";
  }

  lemma JaneDoeRow()
    ensures WellFormedBlock(JaneDoe())
    ensures BlockRow(JaneDoe()) == BlameLine(5, "Jane D.", "1970-01-01", "abcdef1", "hello")
  {
    JaneDoeWellFormed();
    AbbreviateJaneDoe();
    EpochDate();
    assert "abcdef1"[..7] == "abcdef1";
  }

  /** The block `abcdef1 10 5 3` / `author Jane Doe` / `author-time 0` /
      `summary init` / TAB `hello` is line 5 by "Jane D.", dated 1970-01-01,
      commit `abcdef1`, content `hello`. */
  lemma JaneDoeBlock()
    ensures ParseLines(["abcdef1 10 5 3", "author Jane Doe", "author-time 0", "summary init", "\thello"])
         == [BlameLine(5, "Jane D.", "1970-01-01", "abcdef1", "hello")]
  {
    JaneDoeLines();
    JaneDoeRow();
    ParseBlock(JaneDoe(), []);
  }
}
