/** `parse_diff_output`: the changed lines of a unified diff, numbered on the
    new side of each hunk. */
module Diff {
  import opened Wrappers
  import opened Text

  datatype ChangeKind = Added | Removed | Modified

  datatype LineChange = LineChange(lineNumber: nat, kind: ChangeKind, content: string)

  // ---------------------------------------------------------------------------
  // The hunk header `@@ -old_start[,old_count] +new_start[,new_count] @@ context`
  // ---------------------------------------------------------------------------

  /** Where the code as written ends the number after the `+`: at the first
      `,`, or failing that at the first space. */
  function AsWrittenEnd(after: string): (r: Option<nat>)
    ensures r.Some? ==> r.value < |after| && (after[r.value] == ',' || after[r.value] == ' ')
  {
    match IndexOf(after, ',')
    case Some(comma) => Some(comma)
    case None => IndexOf(after, ' ')
  }

  /** The new-side start of a hunk header, as the code reads it: after the
      first `+`, up to the first `,` from there on, or failing that the first
      space; an unparseable number gives 1, and a header with no `+`, or with
      neither a `,` nor a space after it, leaves the counter as it was. */
  function HunkStartAsWritten(line: string, counter: nat): (r: nat)
    ensures '+' !in line ==> r == counter
  {
    match IndexOf(line, '+')
    case None => counter
    case Some(plus) =>
      match AsWrittenEnd(line[plus..])
      case Some(end) =>
        assert line[plus..][0] == '+';
        ParseUsize(line[plus + 1..plus + end]).GetOr(1)
      case None => counter
  }

  /** The first position of a `,` or a space. */
  function NumberEnd(s: string): (r: Option<nat>)
    ensures r.None? <==> (',' !in s && ' ' !in s)
    ensures r.Some? ==> r.value < |s| && (s[r.value] == ',' || s[r.value] == ' ')
                        && ',' !in s[..r.value] && ' ' !in s[..r.value]
  {
    if s == [] then None
    else if s[0] == ',' || s[0] == ' ' then Some(0)
    else match NumberEnd(s[1..])
      case None => None
      case Some(k) => assert s[..k + 1] == [s[0]] + s[1..][..k]; Some(k + 1)
  }

  /** The new-side start of a hunk header: the number after the first `+`,
      ending at whichever of `,` and space comes first. */
  function HunkStart(line: string, counter: nat): (r: nat)
    ensures '+' !in line ==> r == counter
  {
    match IndexOf(line, '+')
    case None => counter
    case Some(plus) =>
      var number := line[plus + 1..];
      match NumberEnd(number)
      case Some(end) => ParseUsize(number[..end]).GetOr(1)
      case None => counter
  }

  lemma DigitsHaveNoMarks(s: string)
    requires AllDigits(s)
    ensures '+' !in s && ',' !in s && ' ' !in s
  {
    forall k | 0 <= k < |s| ensures s[k] != '+' && s[k] != ',' && s[k] != ' ' {
      assert IsDigit(s[k]);
    }
  }

  lemma NumberEndAt(s: string, i: nat)
    requires i < |s| && (s[i] == ',' || s[i] == ' ') && ',' !in s[..i] && ' ' !in s[..i]
    ensures NumberEnd(s) == Some(i)
  {
    assert s[i] in s;
  }

  /** A header line split where the code finds its `+`: what comes before it
      holds no `+`, and the new-side start follows it. */
  lemma PlusAt(before: string, digits: string, tail: string)
    requires '+' !in before
    ensures var line := before + "+" + digits + tail;
      IndexOf(line, '+') == Some(|before|) && line[|before|..] == "+" + digits + tail
      && line[|before| + 1..] == digits + tail
  {
    var line := before + "+" + digits + tail;
    assert line[|before|] == '+' && line[..|before|] == before;
    IndexOfAt(line, '+', |before|);
    assert line[|before|..] == "+" + digits + tail;
  }

  /** Read the corrected way, the start is the digits after the `+`, whether a
      `,` or a space ends them. */
  lemma HunkStartAt(before: string, digits: string, tail: string, counter: nat)
    requires '+' !in before && AllDigits(digits)
    requires tail != [] && (tail[0] == ',' || tail[0] == ' ')
    ensures HunkStart(before + "+" + digits + tail, counter) == ParseUsize(digits).GetOr(1)
  {
    PlusAt(before, digits, tail);
    var number := digits + tail;
    DigitsHaveNoMarks(digits);
    assert number[..|digits|] == digits && number[|digits|] == tail[0];
    NumberEndAt(number, |digits|);
  }

  /** As written, the number runs from the `+` to the first `,` after it. */
  lemma HunkStartAsWrittenAtComma(before: string, number: string, tail: string, counter: nat)
    requires '+' !in before && ',' !in number
    requires tail != [] && tail[0] == ','
    ensures HunkStartAsWritten(before + "+" + number + tail, counter) == ParseUsize(number).GetOr(1)
  {
    var line := before + "+" + number + tail;
    PlusAt(before, number, tail);
    var after := "+" + number + tail;
    assert after[1 + |number|] == ',' && after[..1 + |number|] == "+" + number;
    IndexOfAt(after, ',', 1 + |number|);
    assert AsWrittenEnd(after) == Some(1 + |number|);
    assert line[|before| + 1..|before| + 1 + |number|] == number;
  }

  lemma NotANumber(s: string, i: nat)
    requires 1 <= i < |s| && !IsDigit(s[i])
    ensures ParseUsize(s) == None
  {
    var digits := if |s| > 0 && s[0] == '+' then s[1..] else s;
    if s[0] == '+' {
      assert digits[i - 1] == s[i];
    } else {
      assert digits[i] == s[i];
    }
  }

  /** As written, a space after the digits with a `,` somewhere later makes
      the code read up to that `,`, across the space: the start becomes 1. */
  lemma HunkStartAsWrittenPastSpace(before: string, digits: string, tail: string, counter: nat)
    requires '+' !in before && AllDigits(digits) && digits != []
    requires tail != [] && tail[0] == ' ' && ',' in tail
    ensures HunkStartAsWritten(before + "+" + digits + tail, counter) == 1
  {
    DigitsHaveNoMarks(digits);
    var j := IndexOf(tail, ',').value;
    var number := digits + tail[..j];
    assert ',' !in number;
    assert tail == tail[..j] + tail[j..];
    assert before + "+" + digits + tail == before + "+" + number + tail[j..];
    HunkStartAsWrittenAtComma(before, number, tail[j..], counter);
    assert j > 0 && number[|digits|] == ' ';
    NotANumber(number, |digits|);
  }

  function CountSuffix(count: Option<nat>): string {
    match count
    case Some(n) => "," + Decimal(n)
    case None => ""
  }

  /** The header git prints for a hunk. */
  function HunkHeader(oldStart: nat, oldCount: Option<nat>, newStart: nat, newCount: Option<nat>, context: string): string {
    "@@ -" + Decimal(oldStart) + CountSuffix(oldCount) + " " + "+" + Decimal(newStart) + (CountSuffix(newCount) + " @@" + context)
  }

  /** The text before the new side of a header holds no `+`. */
  lemma OldSideHasNoPlus(oldStart: nat, oldCount: Option<nat>)
    ensures '+' !in "@@ -" + Decimal(oldStart) + CountSuffix(oldCount) + " "
  {
    DigitsHaveNoMarks(Decimal(oldStart));
    if oldCount.Some? {
      DigitsHaveNoMarks(Decimal(oldCount.value));
    }
  }

  /** Read the corrected way, every header gives back its new-side start. */
  lemma HunkStartReadsHeader(oldStart: nat, oldCount: Option<nat>, newStart: nat, newCount: Option<nat>, context: string, counter: nat)
    requires newStart <= USIZE_MAX
    ensures HunkStart(HunkHeader(oldStart, oldCount, newStart, newCount, context), counter) == newStart
  {
    OldSideHasNoPlus(oldStart, oldCount);
    var tail := CountSuffix(newCount) + " @@" + context;
    assert tail[0] == ',' || tail[0] == ' ';
    HunkStartAt("@@ -" + Decimal(oldStart) + CountSuffix(oldCount) + " ", Decimal(newStart), tail, counter);
    ParseUsizeDecimal(newStart);
  }

  /** When the header gives a new-side count, the code as written reads the
      start correctly too. */
  lemma HunkStartAsWrittenWithCount(oldStart: nat, oldCount: Option<nat>, newStart: nat, newCount: nat, context: string, counter: nat)
    requires newStart <= USIZE_MAX
    ensures HunkStartAsWritten(HunkHeader(oldStart, oldCount, newStart, Some(newCount), context), counter) == newStart
  {
    OldSideHasNoPlus(oldStart, oldCount);
    var tail := CountSuffix(Some(newCount)) + " @@" + context;
    assert tail[0] == ',';
    DigitsHaveNoMarks(Decimal(newStart));
    HunkStartAsWrittenAtComma("@@ -" + Decimal(oldStart) + CountSuffix(oldCount) + " ", Decimal(newStart), tail, counter);
    ParseUsizeDecimal(newStart);
  }

  /** The code as written misreads a header that omits the new-side count
      (git does so for a one-line hunk) when its function context holds a
      comma: the `,` found is in the context, and the start becomes 1. */
  lemma HunkStartAsWrittenMisreadsContext(oldStart: nat, oldCount: Option<nat>, newStart: nat, context: string, counter: nat)
    requires ',' in context
    ensures HunkStartAsWritten(HunkHeader(oldStart, oldCount, newStart, None, context), counter) == 1
  {
    OldSideHasNoPlus(oldStart, oldCount);
    var tail := CountSuffix(None) + " @@" + context;
    assert tail == " @@" + context;
    assert ',' in tail by {
      var j := IndexOf(context, ',').value;
      assert tail[3 + j] == ',';
    }
    HunkStartAsWrittenPastSpace("@@ -" + Decimal(oldStart) + CountSuffix(oldCount) + " ", Decimal(newStart), tail, counter);
  }

  /** The one-line hunk of `fn f(a, b)` starting at new line 5. */
  lemma OneLineHunkExample()
    ensures HunkStartAsWritten("@@ -4 +5 @@ fn f(a, b)", 0) == 1
    ensures HunkStart("@@ -4 +5 @@ fn f(a, b)", 0) == 5
  {
    assert DigitChar(4) == '4' && DigitChar(5) == '5';
    assert Decimal(4) == "4" && Decimal(5) == "5";
    assert HunkHeader(4, None, 5, None, " fn f(a, b)") == "@@ -4 +5 @@ fn f(a, b)";
    assert " fn f(a, b)"[7] == ',';
    HunkStartAsWrittenMisreadsContext(4, None, 5, " fn f(a, b)", 0);
    HunkStartReadsHeader(4, None, 5, None, " fn f(a, b)", 0);
  }

  /** As written, when no `,` follows the `+` at all, the number runs to the
      first space after it. */
  lemma HunkStartAsWrittenAtSpace(before: string, digits: string, tail: string, counter: nat)
    requires '+' !in before && AllDigits(digits)
    requires tail != [] && tail[0] == ' ' && ',' !in tail
    ensures HunkStartAsWritten(before + "+" + digits + tail, counter) == ParseUsize(digits).GetOr(1)
  {
    var line := before + "+" + digits + tail;
    PlusAt(before, digits, tail);
    var after := "+" + digits + tail;
    assert AsWrittenEnd(after) == Some(1 + |digits|) by {
      DigitsHaveNoMarks(digits);
      NotInEither(',', "+" + digits, tail);
      assert after == ("+" + digits) + tail;
      assert IndexOf(after, ',') == None;
      assert after[1 + |digits|] == ' ' && after[..1 + |digits|] == "+" + digits;
      IndexOfAt(after, ' ', 1 + |digits|);
    }
    assert line[|before| + 1..|before| + 1 + |digits|] == digits;
  }

  lemma NotInEither(c: char, a: string, b: string)
    requires c !in a && c !in b
    ensures c !in a + b
  {
  }

  /** Which way a hunk header's new-side start is read: as the code is
      written, or the corrected way. */
  datatype Reader = AsWritten | Corrected

  function HeaderStart(reader: Reader, line: string, counter: nat): nat {
    match reader
    case AsWritten => HunkStartAsWritten(line, counter)
    case Corrected => HunkStart(line, counter)
  }

  /** Every header git prints, read both ways: the corrected reader always
      gives the new-side start; the code as written gives it too, except for
      a header without a new-side count whose context holds a comma, where
      it gives 1. */
  lemma HeaderStartOfHunk(reader: Reader, oldStart: nat, oldCount: Option<nat>, newStart: nat, newCount: Option<nat>,
                          context: string, counter: nat)
    requires newStart <= USIZE_MAX
    ensures HeaderStart(reader, HunkHeader(oldStart, oldCount, newStart, newCount, context), counter)
         == if reader == AsWritten && newCount.None? && ',' in context then 1 else newStart
  {
    if reader == Corrected {
      HunkStartReadsHeader(oldStart, oldCount, newStart, newCount, context, counter);
    } else if newCount.Some? {
      HunkStartAsWrittenWithCount(oldStart, oldCount, newStart, newCount.value, context, counter);
    } else if ',' in context {
      HunkStartAsWrittenMisreadsContext(oldStart, oldCount, newStart, context, counter);
    } else {
      OldSideHasNoPlus(oldStart, oldCount);
      var tail := " @@" + context;
      assert HunkHeader(oldStart, oldCount, newStart, newCount, context)
          == "@@ -" + Decimal(oldStart) + CountSuffix(oldCount) + " " + "+" + Decimal(newStart) + tail;
      assert ',' !in tail by {
        forall k | 0 <= k < |tail| ensures tail[k] != ',' {
          if k >= 3 {
            assert tail[k] == context[k - 3];
          }
        }
      }
      HunkStartAsWrittenAtSpace("@@ -" + Decimal(oldStart) + CountSuffix(oldCount) + " ", Decimal(newStart), tail, counter);
      ParseUsizeDecimal(newStart);
    }
  }

  /** A header both readers read the same way, whatever the counter. */
  ghost predicate ReadAlike(line: string) {
    forall counter: nat :: HunkStartAsWritten(line, counter) == HunkStart(line, counter)
  }

  /** Every header with a new-side count, or with a comma-free context, is
      read alike. */
  lemma HunkHeaderReadAlike(oldStart: nat, oldCount: Option<nat>, newStart: nat, newCount: Option<nat>, context: string)
    requires newStart <= USIZE_MAX
    requires newCount.Some? || ',' !in context
    ensures ReadAlike(HunkHeader(oldStart, oldCount, newStart, newCount, context))
  {
    var header := HunkHeader(oldStart, oldCount, newStart, newCount, context);
    forall counter: nat ensures HunkStartAsWritten(header, counter) == HunkStart(header, counter) {
      HeaderStartOfHunk(AsWritten, oldStart, oldCount, newStart, newCount, context, counter);
      HeaderStartOfHunk(Corrected, oldStart, oldCount, newStart, newCount, context, counter);
    }
  }

  // ---------------------------------------------------------------------------
  // The body
  // ---------------------------------------------------------------------------

  predicate IsAddedLine(line: string) {
    StartsWith(line, "+") && !StartsWith(line, "+++")
  }

  predicate IsRemovedLine(line: string) {
    StartsWith(line, "-") && !StartsWith(line, "---")
  }

  predicate IsBoundary(line: string) {
    StartsWith(line, "commit ") || StartsWith(line, "diff --git")
  }

  /** What one line does: the changes it emits, whether a hunk has been
      entered, the new-side line number after it, and whether it ends the diff. */
  datatype Effect = Effect(emitted: seq<LineChange>, inDiff: bool, counter: nat, stop: bool)

  /** One turn of the loop: a hunk header enters the diff and restarts the
      counter; before the first header every line is ignored; inside, a
      `commit ` or `diff --git` line stops, an added line is emitted at the
      counter and advances it, a removed line is emitted without advancing,
      a context line only advances, and anything else is ignored. */
  function LineEffect(line: string, inDiff: bool, counter: nat, reader: Reader): Effect {
    if StartsWith(line, "@@") then Effect([], true, HeaderStart(reader, line, counter), false)
    else if !inDiff then Effect([], false, counter, false)
    else if IsBoundary(line) then Effect([], true, counter, true)
    else if IsAddedLine(line) then Effect([LineChange(counter, Added, line[1..])], true, counter + 1, false)
    else if IsRemovedLine(line) then Effect([LineChange(counter, Removed, line[1..])], true, counter, false)
    else if StartsWith(line, " ") then Effect([], true, counter + 1, false)
    else Effect([], true, counter, false)
  }

  /** The changes from the remaining lines, given whether a hunk header has
      been seen and the current new-side line number. */
  function DiffFrom(lines: seq<string>, inDiff: bool, counter: nat, reader: Reader): seq<LineChange> {
    if lines == [] then []
    else
      var e := LineEffect(lines[0], inDiff, counter, reader);
      if e.stop then [] else e.emitted + DiffFrom(lines[1..], e.inDiff, e.counter, reader)
  }

  /** At most one change per line, and never a `Modified` one: the parser only
      reports additions and removals. */
  lemma {:induction false} DiffFromShape(lines: seq<string>, inDiff: bool, counter: nat, reader: Reader)
    ensures |DiffFrom(lines, inDiff, counter, reader)| <= |lines|
    ensures forall k :: 0 <= k < |DiffFrom(lines, inDiff, counter, reader)| ==> DiffFrom(lines, inDiff, counter, reader)[k].kind in {Added, Removed}
  {
    if lines != [] {
      var e := LineEffect(lines[0], inDiff, counter, reader);
      if !e.stop {
        DiffFromShape(lines[1..], e.inDiff, e.counter, reader);
        var r := DiffFrom(lines, inDiff, counter, reader);
        assert r == e.emitted + DiffFrom(lines[1..], e.inDiff, e.counter, reader);
        assert |e.emitted| <= 1 && forall k :: 0 <= k < |e.emitted| ==> e.emitted[k].kind in {Added, Removed};
      }
    }
  }

  /** The changes of a whole diff text, as the code reads it. */
  function Changes(diffText: string): seq<LineChange> {
    DiffFrom(Lines(diffText), false, 0, AsWritten)
  }

  /** The changes of a whole diff text, with hunk headers read the corrected way. */
  function CorrectedChanges(diffText: string): seq<LineChange> {
    DiffFrom(Lines(diffText), false, 0, Corrected)
  }

  /** The two readers give the same changes whenever every header line is
      read alike. */
  lemma {:induction false} ReadersAgree(lines: seq<string>, inDiff: bool, counter: nat)
    requires forall k :: 0 <= k < |lines| && StartsWith(lines[k], "@@") ==> ReadAlike(lines[k])
    ensures DiffFrom(lines, inDiff, counter, AsWritten) == DiffFrom(lines, inDiff, counter, Corrected)
  {
    if lines != [] {
      var e := LineEffect(lines[0], inDiff, counter, AsWritten);
      assert e == LineEffect(lines[0], inDiff, counter, Corrected) by {
        if StartsWith(lines[0], "@@") {
          assert ReadAlike(lines[0]);
          assert HunkStartAsWritten(lines[0], counter) == HunkStart(lines[0], counter);
        }
      }
      forall k | 0 <= k < |lines| - 1 && StartsWith(lines[1..][k], "@@") ensures ReadAlike(lines[1..][k]) {
        assert lines[1..][k] == lines[k + 1];
      }
      ReadersAgree(lines[1..], e.inDiff, e.counter);
    }
  }

  /** A diff whose headers all carry new-side counts, or comma-free contexts,
      gives the same changes both ways. */
  lemma ChangesAgree(diffText: string)
    requires forall k :: 0 <= k < |Lines(diffText)| && StartsWith(Lines(diffText)[k], "@@") ==> ReadAlike(Lines(diffText)[k])
    ensures Changes(diffText) == CorrectedChanges(diffText)
  {
    ReadersAgree(Lines(diffText), false, 0);
  }

  /** One turn of the loop that does not stop keeps the changes so far plus
      the changes still to come equal to the changes of the whole diff. */
  lemma DiffStep(lines: seq<string>, i: nat, inDiff: bool, counter: nat, changes: seq<LineChange>, total: seq<LineChange>)
    requires i < |lines|
    requires changes + DiffFrom(lines[i..], inDiff, counter, AsWritten) == total
    ensures var e := LineEffect(lines[i], inDiff, counter, AsWritten);
      if e.stop then changes == total
      else (changes + e.emitted) + DiffFrom(lines[i + 1..], e.inDiff, e.counter, AsWritten) == total
  {
    assert lines[i..][0] == lines[i] && lines[i..][1..] == lines[i + 1..];
    var e := LineEffect(lines[i], inDiff, counter, AsWritten);
    if e.stop {
      assert changes + [] == changes;
    } else {
      assert changes + (e.emitted + DiffFrom(lines[i + 1..], e.inDiff, e.counter, AsWritten))
          == (changes + e.emitted) + DiffFrom(lines[i + 1..], e.inDiff, e.counter, AsWritten);
    }
  }

  /** `parse_diff_output`: the header's new-side start is read as the code
      reads it, from after the first `+` to the first `,` after it, or
      failing that to the first space. */
  method ParseDiffOutput(diffText: string) returns (changes: seq<LineChange>)
    ensures changes == Changes(diffText)
  {
    var lines := Lines(diffText);
    changes := [];
    var inDiff := false;
    var lineNumber := 0;
    var i := 0;
    while i < |lines|
      invariant i <= |lines|
      invariant changes + DiffFrom(lines[i..], inDiff, lineNumber, AsWritten) == DiffFrom(lines, false, 0, AsWritten)
    {
      var line := lines[i];
      DiffStep(lines, i, inDiff, lineNumber, changes, DiffFrom(lines, false, 0, AsWritten));
      ghost var e := LineEffect(line, inDiff, lineNumber, AsWritten);
      ghost var before := changes;
      if StartsWith(line, "@@") {
        inDiff := true;
        lineNumber := HunkStartAsWritten(line, lineNumber);
      } else if !inDiff {
      } else if StartsWith(line, "commit ") || StartsWith(line, "diff --git") {
        break;
      } else if StartsWith(line, "+") && !StartsWith(line, "+++") {
        changes := changes + [LineChange(lineNumber, Added, line[1..])];
        lineNumber := lineNumber + 1;
      } else if StartsWith(line, "-") && !StartsWith(line, "---") {
        changes := changes + [LineChange(lineNumber, Removed, line[1..])];
      } else if StartsWith(line, " ") {
        lineNumber := lineNumber + 1;
      }
      assert !e.stop && changes == before + e.emitted && inDiff == e.inDiff && lineNumber == e.counter;
      i := i + 1;
    }
    if i == |lines| {
      assert lines[i..] == [];
      assert changes + [] == changes;
    }
  }

  // ---------------------------------------------------------------------------
  // Properties
  // ---------------------------------------------------------------------------

  /** Everything before the first hunk header is ignored. */
  lemma {:induction false} IgnoresPreamble(preamble: seq<string>, rest: seq<string>, counter: nat, reader: Reader)
    requires forall k :: 0 <= k < |preamble| ==> !StartsWith(preamble[k], "@@")
    ensures DiffFrom(preamble + rest, false, counter, reader) == DiffFrom(rest, false, counter, reader)
  {
    if preamble == [] {
      assert preamble + rest == rest;
    } else {
      assert (preamble + rest)[0] == preamble[0] && (preamble + rest)[1..] == preamble[1..] + rest;
      IgnoresPreamble(preamble[1..], rest, counter, reader);
    }
  }

  /** A hunk line: neither a header nor a boundary. */
  predicate IsBodyLine(line: string) {
    !StartsWith(line, "@@") && !IsBoundary(line)
  }

  /** Lines that advance the new-side line number: added and context lines. */
  predicate Advances(line: string) {
    IsAddedLine(line) || (!IsRemovedLine(line) && StartsWith(line, " "))
  }

  /** How far a hunk's lines move the new-side line number. */
  function NewSideCount(body: seq<string>): nat {
    if body == [] then 0 else (if Advances(body[0]) then 1 else 0) + NewSideCount(body[1..])
  }

  /** Inside a hunk, a body line never stops the diff, and moves the counter
      by one exactly when it is an added or context line. */
  lemma BodyLineEffect(line: string, counter: nat, reader: Reader)
    requires IsBodyLine(line)
    ensures var e := LineEffect(line, true, counter, reader);
      !e.stop && e.inDiff && e.counter == counter + (if Advances(line) then 1 else 0)
  {
    if IsAddedLine(line) {
      assert line[..1] == "+";
      assert !StartsWith(line, "-");
    }
  }

  /** A line that does not stop the diff contributes its changes, then the
      rest follows from the state it leaves. */
  lemma DiffFromContinues(line: string, rest: seq<string>, inDiff: bool, counter: nat, reader: Reader, e: Effect)
    requires e == LineEffect(line, inDiff, counter, reader) && !e.stop
    ensures DiffFrom([line] + rest, inDiff, counter, reader) == e.emitted + DiffFrom(rest, e.inDiff, e.counter, reader)
  {
    assert ([line] + rest)[0] == line && ([line] + rest)[1..] == rest;
  }

  lemma Regroup(x: seq<LineChange>, a: seq<LineChange>, t: seq<LineChange>)
    ensures x + (a + t) == (x + a) + t
  {
  }

  /** Inside a hunk, the changes of a stretch of body lines are followed by
      those of the rest, numbered from where the stretch left the counter. */
  lemma {:induction false} BodyAppend(body: seq<string>, rest: seq<string>, counter: nat, reader: Reader)
    requires forall k :: 0 <= k < |body| ==> IsBodyLine(body[k])
    ensures DiffFrom(body + rest, true, counter, reader)
         == DiffFrom(body, true, counter, reader) + DiffFrom(rest, true, counter + NewSideCount(body), reader)
  {
    if body == [] {
      assert body + rest == rest;
    } else {
      var line, more := body[0], body[1..];
      var e := LineEffect(line, true, counter, reader);
      assert !e.stop && e.inDiff && counter + NewSideCount(body) == e.counter + NewSideCount(more) by {
        BodyLineEffect(line, counter, reader);
      }
      var x, a, t := e.emitted, DiffFrom(more, true, e.counter, reader), DiffFrom(rest, true, e.counter + NewSideCount(more), reader);
      assert DiffFrom(body + rest, true, counter, reader) == x + (a + t) by {
        assert body + rest == [line] + (more + rest);
        DiffFromContinues(line, more + rest, true, counter, reader, e);
        assert forall k :: 0 <= k < |more| ==> IsBodyLine(more[k]) by {
          forall k | 0 <= k < |more| ensures IsBodyLine(more[k]) {
            assert more[k] == body[k + 1];
          }
        }
        BodyAppend(more, rest, e.counter, reader);
      }
      assert DiffFrom(body, true, counter, reader) == x + a by {
        assert body == [line] + more;
        DiffFromContinues(line, more, true, counter, reader, e);
      }
      Regroup(x, a, t);
    }
  }

  lemma BoundaryStops(boundary: string, rest: seq<string>, counter: nat, reader: Reader)
    requires IsBoundary(boundary)
    ensures DiffFrom([boundary] + rest, true, counter, reader) == []
  {
    assert !StartsWith(boundary, "@@") by {
      FirstOfPrefix(boundary, "@@");
      FirstOfPrefix(boundary, "commit ");
      FirstOfPrefix(boundary, "diff --git");
    }
    assert LineEffect(boundary, true, counter, reader) == Effect([], true, counter, true);
    assert ([boundary] + rest)[0] == boundary;
  }

  /** A boundary line inside a hunk ends the diff: nothing after it counts. */
  lemma StopsAtBoundary(body: seq<string>, boundary: string, rest: seq<string>, counter: nat, reader: Reader)
    requires forall k :: 0 <= k < |body| ==> IsBodyLine(body[k])
    requires IsBoundary(boundary)
    ensures DiffFrom(body + [boundary] + rest, true, counter, reader) == DiffFrom(body, true, counter, reader)
  {
    var after := counter + NewSideCount(body);
    BoundaryStops(boundary, rest, after, reader);
    assert body + [boundary] + rest == body + ([boundary] + rest);
    assert DiffFrom(body + ([boundary] + rest), true, counter, reader)
        == DiffFrom(body, true, counter, reader) + DiffFrom([boundary] + rest, true, after, reader) by {
      BodyAppend(body, [boundary] + rest, counter, reader);
    }
    assert DiffFrom(body, true, counter, reader) + [] == DiffFrom(body, true, counter, reader);
  }

  lemma FirstOfPrefix(s: string, prefix: string)
    ensures prefix != [] && StartsWith(s, prefix) ==> s[0] == prefix[0]
  {
    if prefix != [] && StartsWith(s, prefix) {
      assert s[..|prefix|][0] == s[0];
    }
  }

  /** A line of one marker character followed by text is no header and no boundary. */
  lemma MarkedLine(mark: char, text: string)
    requires mark == '+' || mark == '-' || mark == ' '
    ensures var line := [mark] + text;
      !StartsWith(line, "@@") && !IsBoundary(line) && line[1..] == text
      && StartsWith(line, [mark])
  {
    var line := [mark] + text;
    FirstOfPrefix(line, "@@");
    FirstOfPrefix(line, "commit ");
    FirstOfPrefix(line, "diff --git");
    assert line[..1] == [mark];
  }

  lemma AddedLineEffect(text: string, counter: nat, reader: Reader)
    requires !StartsWith(text, "++")
    ensures LineEffect("+" + text, true, counter, reader) == Effect([LineChange(counter, Added, text)], true, counter + 1, false)
  {
    var line := "+" + text;
    MarkedLine('+', text);
    if |line| >= 3 {
      assert line[..3] == "+" + text[..2];
    }
  }

  lemma RemovedLineEffect(text: string, counter: nat, reader: Reader)
    requires !StartsWith(text, "--")
    ensures LineEffect("-" + text, true, counter, reader) == Effect([LineChange(counter, Removed, text)], true, counter, false)
  {
    var line := "-" + text;
    MarkedLine('-', text);
    FirstOfPrefix(line, "+");
    if |line| >= 3 {
      assert line[..3] == "-" + text[..2];
    }
  }

  lemma ContextLineEffect(text: string, counter: nat, reader: Reader)
    ensures LineEffect(" " + text, true, counter, reader) == Effect([], true, counter + 1, false)
  {
    var line := " " + text;
    MarkedLine(' ', text);
    FirstOfPrefix(line, "+");
    FirstOfPrefix(line, "-");
  }

  lemma HeaderStartsWithMarker(oldStart: nat, oldCount: Option<nat>, newStart: nat, newCount: Option<nat>, context: string)
    ensures StartsWith(HunkHeader(oldStart, oldCount, newStart, newCount, context), "@@")
  {
    var header := HunkHeader(oldStart, oldCount, newStart, newCount, context);
    assert header[0] == '@' && header[1] == '@';
  }

  /** The line number a printed header leaves the counter at: its new-side
      start, except where the code as written misreads the header. */
  function StartAfter(reader: Reader, newStart: nat, newCount: Option<nat>, context: string): nat {
    if reader == AsWritten && newCount.None? && ',' in context then 1 else newStart
  }

  /** A hunk header, inside or outside a diff, enters the diff, emits nothing,
      and sets the counter to the new-side start it reads. */
  lemma HeaderLineEffect(reader: Reader, oldStart: nat, oldCount: Option<nat>, newStart: nat, newCount: Option<nat>,
                         context: string, inDiff: bool, counter: nat)
    requires newStart <= USIZE_MAX
    ensures LineEffect(HunkHeader(oldStart, oldCount, newStart, newCount, context), inDiff, counter, reader)
         == Effect([], true, StartAfter(reader, newStart, newCount, context), false)
  {
    HeaderStartsWithMarker(oldStart, oldCount, newStart, newCount, context);
    HeaderStartOfHunk(reader, oldStart, oldCount, newStart, newCount, context, counter);
  }

  /** A line read as a header, at the start of a diff, leaves the counter at s. */
  lemma HeaderThen(header: string, rest: seq<string>, reader: Reader, s: nat)
    requires LineEffect(header, false, 0, reader) == Effect([], true, s, false)
    ensures DiffFrom([header] + rest, false, 0, reader) == DiffFrom(rest, true, s, reader)
  {
    DiffFromContinues(header, rest, false, 0, reader, Effect([], true, s, false));
  }

  lemma SixLines(x0: string, x1: string, x2: string, x3: string, x4: string, x5: string)
    ensures [x0] + ([x1] + ([x2] + ([x3] + ([x4] + [x5])))) == [x0, x1, x2, x3, x4, x5]
  {
  }

  /** The body of the hunk in SmallHunkExample, entered with the counter at s. */
  lemma SmallHunkBody(reader: Reader, s: nat, a: string, b: string, c: string, d: string, e: string)
    requires !StartsWith(b, "++") && !StartsWith(c, "--") && !StartsWith(d, "++")
    ensures DiffFrom([" " + a] + (["+" + b] + (["-" + c] + (["+" + d] + [" " + e]))), true, s, reader)
         == [LineChange(s + 1, Added, b), LineChange(s + 2, Removed, c), LineChange(s + 2, Added, d)]
  {
    var ab, rc, ad := LineChange(s + 1, Added, b), LineChange(s + 2, Removed, c), LineChange(s + 2, Added, d);
    var l5 := [" " + e];
    var l4 := ["+" + d] + l5;
    var l3 := ["-" + c] + l4;
    var l2 := ["+" + b] + l3;
    var l1 := [" " + a] + l2;
    assert DiffFrom(l5, true, s + 3, reader) == [] by {
      ContextLineEffect(e, s + 3, reader);
      DiffFromContinues(" " + e, [], true, s + 3, reader, Effect([], true, s + 4, false));
      assert [" " + e] + [] == l5;
    }
    assert DiffFrom(l4, true, s + 2, reader) == [ad] by {
      AddedLineEffect(d, s + 2, reader);
      DiffFromContinues("+" + d, l5, true, s + 2, reader, Effect([ad], true, s + 3, false));
      assert [ad] + [] == [ad];
    }
    assert DiffFrom(l3, true, s + 2, reader) == [rc, ad] by {
      RemovedLineEffect(c, s + 2, reader);
      DiffFromContinues("-" + c, l4, true, s + 2, reader, Effect([rc], true, s + 2, false));
    }
    assert DiffFrom(l2, true, s + 1, reader) == [ab, rc, ad] by {
      AddedLineEffect(b, s + 1, reader);
      DiffFromContinues("+" + b, l3, true, s + 1, reader, Effect([ab], true, s + 2, false));
    }
    ContextLineEffect(a, s, reader);
    DiffFromContinues(" " + a, l2, true, s, reader, Effect([], true, s + 1, false));
    assert [] + [ab, rc, ad] == [ab, rc, ad];
  }

  /** A hunk with new-side start n followed by a context line, an added line,
      a removed line, an added line and a context line. Counting from the
      start s the header is read as (n, or 1 where the code as written
      misreads it), the first added line is new line s + 1, the removed line
      is reported at s + 2, and the second added line is new line s + 2. */
  lemma SmallHunkExample(reader: Reader, oldStart: nat, oldCount: Option<nat>, n: nat, newCount: Option<nat>, context: string,
                         a: string, b: string, c: string, d: string, e: string)
    requires n <= USIZE_MAX
    requires !StartsWith(b, "++") && !StartsWith(c, "--") && !StartsWith(d, "++")
    ensures var s := StartAfter(reader, n, newCount, context);
      DiffFrom([HunkHeader(oldStart, oldCount, n, newCount, context), " " + a, "+" + b, "-" + c, "+" + d, " " + e], false, 0, reader)
         == [LineChange(s + 1, Added, b), LineChange(s + 2, Removed, c), LineChange(s + 2, Added, d)]
  {
    var s := StartAfter(reader, n, newCount, context);
    var header := HunkHeader(oldStart, oldCount, n, newCount, context);
    var l1 := [" " + a] + (["+" + b] + (["-" + c] + (["+" + d] + [" " + e])));
    var changes := [LineChange(s + 1, Added, b), LineChange(s + 2, Removed, c), LineChange(s + 2, Added, d)];
    HeaderLineEffect(reader, oldStart, oldCount, n, newCount, context, false, 0);
    assert DiffFrom([header] + l1, false, 0, reader) == changes by {
      SmallHunkBody(reader, s, a, b, c, d, e);
      HeaderThen(header, l1, reader, s);
      assert [] + changes == changes;
    }
    SixLines(header, " " + a, "+" + b, "-" + c, "+" + d, " " + e);
  }
}
