/** The state behind `run_interactive_viewer`: which version is shown, how far
    it is scrolled, which blame rows fall in the requested line range, which
    of them are drawn, how a long line is wrapped, and how each input event
    moves the state. Drawing itself is not modelled. */
module Viewer {
  import opened Text
  import opened Blame
  import opened Versions

  // ---------------------------------------------------------------------------
  // The rows of a version
  // ---------------------------------------------------------------------------

  /** The blame rows whose line number lies in `startLine..=endLine`, in their order. */
  function FilterRows(lines: seq<BlameLine>, startLine: nat, endLine: nat): (r: seq<BlameLine>)
    ensures |r| <= |lines|
    ensures forall k :: 0 <= k < |r| ==> startLine <= r[k].lineNumber <= endLine
  {
    if lines == [] then []
    else (if startLine <= lines[0].lineNumber <= endLine then [lines[0]] else []) + FilterRows(lines[1..], startLine, endLine)
  }

  /** A row is kept exactly when it is a row of the version and its line
      number is in the range. */
  lemma {:induction false} FilterMembers(lines: seq<BlameLine>, startLine: nat, endLine: nat, x: BlameLine)
    ensures x in FilterRows(lines, startLine, endLine) <==> x in lines && startLine <= x.lineNumber <= endLine
  {
    if lines != [] {
      FilterMembers(lines[1..], startLine, endLine, x);
      assert lines == [lines[0]] + lines[1..];
    }
  }

  /** Filtering keeps the order: the rows of two stretches of the file follow each other. */
  lemma {:induction false} FilterAppend(a: seq<BlameLine>, b: seq<BlameLine>, startLine: nat, endLine: nat)
    ensures FilterRows(a + b, startLine, endLine) == FilterRows(a, startLine, endLine) + FilterRows(b, startLine, endLine)
  {
    if a == [] {
      assert a + b == b;
    } else {
      assert (a + b)[0] == a[0] && (a + b)[1..] == a[1..] + b;
      FilterAppend(a[1..], b, startLine, endLine);
    }
  }

  /** A range that covers every line number keeps the whole version. */
  lemma {:induction false} FilterWholeFile(lines: seq<BlameLine>, startLine: nat, endLine: nat)
    requires forall k :: 0 <= k < |lines| ==> startLine <= lines[k].lineNumber <= endLine
    ensures FilterRows(lines, startLine, endLine) == lines
  {
    if lines != [] {
      FilterWholeFile(lines[1..], startLine, endLine);
    }
  }

  /** The number of rows in range, version by version; versions do not
      change while the viewer runs, so neither do these counts. */
  function RowCounts(versions: seq<FileVersion>, startLine: nat, endLine: nat): (counts: seq<nat>)
    ensures |counts| == |versions|
  {
    seq(|versions|, k requires 0 <= k < |versions| => |FilterRows(versions[k].blameLines, startLine, endLine)|)
  }

  // ---------------------------------------------------------------------------
  // Scrolling bounds
  // ---------------------------------------------------------------------------

  /** `usize::saturating_sub`. */
  function SaturatingSub(a: nat, b: nat): nat {
    if a >= b then a - b else 0
  }

  /** The largest offset the scroll keys move to: `rows.saturating_sub(content_height)`. */
  function MaxScroll(rows: nat, contentHeight: nat): nat {
    SaturatingSub(rows, contentHeight)
  }

  predicate InBounds(scroll: nat, rows: nat, contentHeight: nat) {
    scroll <= MaxScroll(rows, contentHeight)
  }

  // ---------------------------------------------------------------------------
  // Input events and one turn of the loop
  // ---------------------------------------------------------------------------

  datatype KeyCode = Char(c: char) | Left | Right | Up | Down | PageUp | PageDown | Home | End | OtherKey
  datatype KeyEventKind = Press | Repeat | Release
  datatype MouseEventKind = ScrollUp | ScrollDown | OtherMouse
  datatype Event = Key(code: KeyCode, kind: KeyEventKind) | Mouse(mouse: MouseEventKind) | OtherEvent

  /** The terminal height read before drawing, then the event read after it. */
  datatype Input = Input(terminalHeight: nat, event: Event)

  datatype ViewerState = ViewerState(version: nat, scroll: nat)
  datatype Outcome = Continue(state: ViewerState) | Quit

  /** One event: `q` quits; Left and Right move one version and go back to
      the top; the scroll keys and the mouse wheel move the offset. Only key
      presses count; releases, repeats and other events change nothing. */
  function Step(s: ViewerState, event: Event, versionCount: nat, rows: nat, contentHeight: nat): (o: Outcome)
    requires s.version < versionCount
    ensures o.Continue? ==> o.state.version < versionCount
  {
    match event
    case Key(code, kind) =>
      if kind != Press then Continue(s)
      else (
        match code
        case Char(c) => if c == 'q' then Quit else Continue(s)
        case Left => if s.version > 0 then Continue(ViewerState(s.version - 1, 0)) else Continue(s)
        case Right => if s.version < versionCount - 1 then Continue(ViewerState(s.version + 1, 0)) else Continue(s)
        case Up => if s.scroll > 0 then Continue(s.(scroll := s.scroll - 1)) else Continue(s)
        case Down => if s.scroll + contentHeight < rows then Continue(s.(scroll := s.scroll + 1)) else Continue(s)
        case PageUp => Continue(s.(scroll := SaturatingSub(s.scroll, contentHeight / 2)))
        case PageDown => Continue(s.(scroll := Min(s.scroll + contentHeight / 2, MaxScroll(rows, contentHeight))))
        case Home => Continue(s.(scroll := 0))
        case End => Continue(s.(scroll := MaxScroll(rows, contentHeight)))
        case OtherKey => Continue(s))
    case Mouse(kind) =>
      (match kind
       case ScrollUp => Continue(s.(scroll := SaturatingSub(s.scroll, 3)))
       case ScrollDown =>
         if s.scroll + contentHeight + 3 <= rows then Continue(s.(scroll := s.scroll + 3))
         else Continue(s.(scroll := MaxScroll(rows, contentHeight)))
       case OtherMouse => Continue(s))
    case OtherEvent => Continue(s)
  }

  /** Left at the first version and Right at the last do nothing: the
      version and the scroll offset are kept. */
  lemma EdgeVersionsStay(scroll: nat, versionCount: nat, rows: nat, contentHeight: nat)
    requires versionCount > 0
    ensures Step(ViewerState(0, scroll), Key(Left, Press), versionCount, rows, contentHeight)
         == Continue(ViewerState(0, scroll))
    ensures Step(ViewerState(versionCount - 1, scroll), Key(Right, Press), versionCount, rows, contentHeight)
         == Continue(ViewerState(versionCount - 1, scroll))
  {
  }

  /** Only `q` quits; a change of version goes back to the top; and from an
      offset within the rows of the version shown, no event moves it past
      the bottom. */
  lemma StepKeepsState(s: ViewerState, event: Event, versionCount: nat, rows: nat, contentHeight: nat)
    requires s.version < versionCount
    ensures var o := Step(s, event, versionCount, rows, contentHeight);
      (o.Quit? <==> event == Key(Char('q'), Press))
      && (o.Continue? && o.state.version != s.version ==> o.state.scroll == 0)
      && (o.Continue? && o.state.version == s.version && InBounds(s.scroll, rows, contentHeight)
          ==> InBounds(o.state.scroll, rows, contentHeight))
  {
  }

  /** Left then Right comes back to the same version, at the top. */
  lemma LeftThenRight(s: ViewerState, versionCount: nat, rows: nat, rows2: nat, contentHeight: nat)
    requires 0 < s.version < versionCount
    ensures var o := Step(s, Key(Left, Press), versionCount, rows, contentHeight);
      o.Continue? && o.state.version == s.version - 1
      && Step(o.state, Key(Right, Press), versionCount, rows2, contentHeight) == Continue(ViewerState(s.version, 0))
  {
  }

  /** Right then Left comes back to the same version, at the top. */
  lemma RightThenLeft(s: ViewerState, versionCount: nat, rows: nat, rows2: nat, contentHeight: nat)
    requires s.version + 1 < versionCount
    ensures var o := Step(s, Key(Right, Press), versionCount, rows, contentHeight);
      o.Continue? && o.state.version == s.version + 1
      && Step(o.state, Key(Left, Press), versionCount, rows2, contentHeight) == Continue(ViewerState(s.version, 0))
  {
  }

  /** The three ways down (Down, PageDown and the wheel) are written
      differently but follow one rule from an in-bounds offset: move by 1,
      half a page or 3 rows, and stop at the bottom. */
  lemma DownMovesClamp(s: ViewerState, versionCount: nat, rows: nat, contentHeight: nat)
    requires s.version < versionCount && InBounds(s.scroll, rows, contentHeight)
    ensures Step(s, Key(Down, Press), versionCount, rows, contentHeight)
         == Continue(s.(scroll := Min(s.scroll + 1, MaxScroll(rows, contentHeight))))
    ensures Step(s, Key(PageDown, Press), versionCount, rows, contentHeight)
         == Continue(s.(scroll := Min(s.scroll + contentHeight / 2, MaxScroll(rows, contentHeight))))
    ensures Step(s, Mouse(ScrollDown), versionCount, rows, contentHeight)
         == Continue(s.(scroll := Min(s.scroll + 3, MaxScroll(rows, contentHeight))))
  {
  }

  /** End moves to the last offset and Home to the first, on the same version;
      after End no way down moves any further, after Home no way up does. */
  lemma EndIsBottomHomeIsTop(s: ViewerState, versionCount: nat, rows: nat, contentHeight: nat)
    requires s.version < versionCount
    ensures Step(s, Key(End, Press), versionCount, rows, contentHeight) == Continue(s.(scroll := MaxScroll(rows, contentHeight)))
    ensures Step(s, Key(Home, Press), versionCount, rows, contentHeight) == Continue(s.(scroll := 0))
    ensures var bottom := Step(s, Key(End, Press), versionCount, rows, contentHeight).state;
      Step(bottom, Key(Down, Press), versionCount, rows, contentHeight) == Continue(bottom)
      && Step(bottom, Key(PageDown, Press), versionCount, rows, contentHeight) == Continue(bottom)
      && Step(bottom, Mouse(ScrollDown), versionCount, rows, contentHeight) == Continue(bottom)
    ensures var top := Step(s, Key(Home, Press), versionCount, rows, contentHeight).state;
      Step(top, Key(Up, Press), versionCount, rows, contentHeight) == Continue(top)
      && Step(top, Key(PageUp, Press), versionCount, rows, contentHeight) == Continue(top)
      && Step(top, Mouse(ScrollUp), versionCount, rows, contentHeight) == Continue(top)
  {
  }

  // ---------------------------------------------------------------------------
  // The event loop
  // ---------------------------------------------------------------------------

  predicate Tall(inputs: seq<Input>) {
    forall k :: 0 <= k < |inputs| ==> inputs[k].terminalHeight >= 3
  }

  /** The state the loop ends in: at `q`, or when no event is left. Each turn
      uses the row count of the version shown and the content height of the
      terminal size read in that turn. */
  function Run(counts: seq<nat>, s: ViewerState, inputs: seq<Input>): (r: ViewerState)
    requires s.version < |counts| && Tall(inputs)
    ensures r.version < |counts|
    decreases |inputs|
  {
    if inputs == [] then s
    else
      match Step(s, inputs[0].event, |counts|, counts[s.version], inputs[0].terminalHeight - 3)
      case Quit => s
      case Continue(next) => Run(counts, next, inputs[1..])
  }

  lemma RunAt(counts: seq<nat>, s: ViewerState, inputs: seq<Input>, i: nat)
    requires s.version < |counts| && Tall(inputs) && i < |inputs|
    ensures Tall(inputs[i..]) && Tall(inputs[i + 1..])
    ensures var o := Step(s, inputs[i].event, |counts|, counts[s.version], inputs[i].terminalHeight - 3);
      (o.Quit? ==> Run(counts, s, inputs[i..]) == s)
      && (o.Continue? ==> Run(counts, s, inputs[i..]) == Run(counts, o.state, inputs[i + 1..]))
  {
    assert inputs[i..][0] == inputs[i] && inputs[i..][1..] == inputs[i + 1..];
  }

  /** The event handling of one turn of the loop: `quit` when the loop
      returns, else the version and offset it goes on with. */
  method HandleEvent(event: Event, currentVersion: nat, scrollOffset: nat, versionCount: nat, rows: nat, contentHeight: nat)
    returns (quit: bool, version: nat, scroll: nat)
    requires currentVersion < versionCount
    ensures Step(ViewerState(currentVersion, scrollOffset), event, versionCount, rows, contentHeight)
         == if quit then Quit else Continue(ViewerState(version, scroll))
  {
    quit, version, scroll := false, currentVersion, scrollOffset;
    match event {
      case Key(code, kind) =>
        if kind == Press {
          match code {
            case Char(c) =>
              if c == 'q' {
                quit := true;
              }
            case Left =>
              if version > 0 {
                version := version - 1;
                scroll := 0;
              }
            case Right =>
              if version < versionCount - 1 {
                version := version + 1;
                scroll := 0;
              }
            case Up =>
              if scroll > 0 {
                scroll := scroll - 1;
              }
            case Down =>
              if scroll + contentHeight < rows {
                scroll := scroll + 1;
              }
            case PageUp =>
              scroll := SaturatingSub(scroll, contentHeight / 2);
            case PageDown =>
              scroll := Min(scroll + contentHeight / 2, SaturatingSub(rows, contentHeight));
            case Home =>
              scroll := 0;
            case End =>
              scroll := SaturatingSub(rows, contentHeight);
            case OtherKey =>
          }
        }
      case Mouse(kind) =>
        match kind {
          case ScrollUp =>
            scroll := SaturatingSub(scroll, 3);
          case ScrollDown =>
            if scroll + contentHeight + 3 <= rows {
              scroll := scroll + 3;
            } else {
              scroll := SaturatingSub(rows, contentHeight);
            }
          case OtherMouse =>
        }
      case OtherEvent =>
    }
  }

  /** The viewer loop over a finite stream of inputs; it starts at the first
      version, at the top. */
  method RunViewer(versions: seq<FileVersion>, startLine: nat, endLine: nat, inputs: seq<Input>) returns (final: ViewerState)
    requires |versions| > 0 && Tall(inputs)
    ensures final == Run(RowCounts(versions, startLine, endLine), ViewerState(0, 0), inputs)
  {
    ghost var counts := RowCounts(versions, startLine, endLine);
    var currentVersion: nat := 0;
    var scrollOffset: nat := 0;
    var i := 0;
    while i < |inputs|
      invariant i <= |inputs| && currentVersion < |versions|
      invariant Run(counts, ViewerState(currentVersion, scrollOffset), inputs[i..]) == Run(counts, ViewerState(0, 0), inputs)
    {
      var contentHeight := inputs[i].terminalHeight - 3;
      var filteredLines := FilterRows(versions[currentVersion].blameLines, startLine, endLine);
      assert |filteredLines| == counts[currentVersion];
      RunAt(counts, ViewerState(currentVersion, scrollOffset), inputs, i);
      var quit, version, scroll := HandleEvent(inputs[i].event, currentVersion, scrollOffset, |versions|, |filteredLines|, contentHeight);
      if quit {
        return ViewerState(currentVersion, scrollOffset);
      }
      currentVersion, scrollOffset := version, scroll;
      i := i + 1;
    }
    assert inputs[i..] == [];
    return ViewerState(currentVersion, scrollOffset);
  }

  /** A terminal that is never resized. */
  predicate SameHeight(inputs: seq<Input>, height: nat) {
    forall k :: 0 <= k < |inputs| ==> inputs[k].terminalHeight == height
  }

  /** One event keeps the offset within the rows of whichever version it leaves shown. */
  lemma StepKeepsBounds(counts: seq<nat>, s: ViewerState, event: Event, contentHeight: nat)
    requires s.version < |counts| && InBounds(s.scroll, counts[s.version], contentHeight)
    ensures var o := Step(s, event, |counts|, counts[s.version], contentHeight);
      o.Continue? ==> InBounds(o.state.scroll, counts[o.state.version], contentHeight)
  {
    StepKeepsState(s, event, |counts|, counts[s.version], contentHeight);
  }

  /** With a terminal whose height does not change, the offset never passes
      the bottom of the version shown. */
  lemma {:induction false} RunKeepsScrollInBounds(counts: seq<nat>, s: ViewerState, inputs: seq<Input>, height: nat)
    requires s.version < |counts| && height >= 3 && SameHeight(inputs, height)
    requires InBounds(s.scroll, counts[s.version], height - 3)
    ensures var r := Run(counts, s, inputs);
      InBounds(r.scroll, counts[r.version], height - 3)
    decreases |inputs|
  {
    if inputs != [] {
      assert inputs[0].terminalHeight == height;
      assert SameHeight(inputs[1..], height) by {
        forall k | 0 <= k < |inputs| - 1 ensures inputs[1..][k].terminalHeight == height {
          assert inputs[1..][k] == inputs[k + 1];
        }
      }
      var o := Step(s, inputs[0].event, |counts|, counts[s.version], height - 3);
      StepKeepsBounds(counts, s, inputs[0].event, height - 3);
      if o.Continue? {
        RunKeepsScrollInBounds(counts, o.state, inputs[1..], height);
        assert Run(counts, s, inputs) == Run(counts, o.state, inputs[1..]);
      } else {
        assert Run(counts, s, inputs) == s;
      }
    }
  }

  // ---------------------------------------------------------------------------
  // The rows drawn
  // ---------------------------------------------------------------------------

  /** `display_end`: rows `scroll..display_end` are drawn. The offset plus
      height minus one must not wrap below zero. */
  function DisplayEnd(scroll: nat, contentHeight: nat, rows: nat): nat
    requires scroll + contentHeight >= 1
  {
    Min(scroll + contentHeight - 1, rows)
  }

  /** The filtered rows drawn in one frame: a stretch starting at the offset,
      never running past the last row, and one shorter than the content height. */
  function Shown(rows: seq<BlameLine>, scroll: nat, contentHeight: nat): (r: seq<BlameLine>)
    requires scroll + contentHeight >= 1
    ensures r == [] || (scroll + |r| <= |rows| && r == rows[scroll..scroll + |r|])
    ensures |r| + 1 <= contentHeight || r == []
  {
    var end := DisplayEnd(scroll, contentHeight, |rows|);
    if scroll < end then rows[scroll..end] else []
  }

  /** Drawing stops one row short of the content height while the scroll
      keys stop at `rows - content_height`, so at a fixed terminal height,
      once the rows fill the window, the last row is never drawn at any
      offset the keys can reach. */
  lemma LastRowNeverShown(rows: seq<BlameLine>, scroll: nat, contentHeight: nat)
    requires 1 <= contentHeight <= |rows|
    requires InBounds(scroll, |rows|, contentHeight)
    ensures scroll + |Shown(rows, scroll, contentHeight)| < |rows|
  {
  }

  /** A terminal one row taller than the one the offset was clamped for
      draws the last row: the clamp of the smaller height is past the bound
      of the larger, and the frame reaches the end. */
  lemma LastRowShownAfterGrowing(rows: seq<BlameLine>, contentHeight: nat)
    requires 1 <= contentHeight < |rows|
    ensures var scroll := MaxScroll(|rows|, contentHeight);
      var r := Shown(rows, scroll, contentHeight + 1);
      r != [] && r[|r| - 1] == rows[|rows| - 1] && !InBounds(scroll, |rows|, contentHeight + 1)
  {
    var scroll := |rows| - contentHeight;
    assert DisplayEnd(scroll, contentHeight + 1, |rows|) == |rows|;
    var r := Shown(rows, scroll, contentHeight + 1);
    assert r == rows[scroll..] && |r| == contentHeight;
    assert r[|r| - 1] == rows[scroll + contentHeight - 1];
    assert MaxScroll(|rows|, contentHeight + 1) < scroll;
  }

  /** How many rows a frame draws: one fewer than the content height, or
      the rows left below the offset when there are fewer. */
  lemma ShownLength(rows: seq<BlameLine>, scroll: nat, contentHeight: nat)
    requires 1 <= contentHeight && scroll < |rows|
    ensures |Shown(rows, scroll, contentHeight)| == Min(contentHeight - 1, |rows| - scroll)
  {
  }

  /** Below the fill point every row is drawn from the top. */
  lemma ShortVersionShownWhole(rows: seq<BlameLine>, contentHeight: nat)
    requires |rows| < contentHeight
    ensures Shown(rows, 0, contentHeight) == rows
  {
  }

  // ---------------------------------------------------------------------------
  // Wrapping long lines
  // ---------------------------------------------------------------------------

  /** Where the next wrapped piece of `remaining` ends: a full width, unless
      the rest is longer than that and the last space of the width-long
      chunk lies past two thirds of it, in which case the piece ends there. */
  function SplitPoint(remaining: string, width: nat): (p: nat)
    requires remaining != []
    ensures p <= Min(width, |remaining|) && (width > 0 ==> 0 < p)
    ensures p < Min(width, |remaining|) ==>
              width < |remaining| && remaining[p] == ' ' && ' ' !in remaining[p + 1..width] && p > width * 2 / 3
  {
    var chunkSize := Min(width, |remaining|);
    if chunkSize < |remaining| then
      match LastIndexOf(remaining[..chunkSize], ' ')
      case Some(space) =>
        assert remaining[..chunkSize][space + 1..] == remaining[space + 1..width];
        if space > chunkSize * 2 / 3 then space else chunkSize
      case None => chunkSize
    else chunkSize
  }

  /** The converse: when the rest is longer than the width and the chunk
      holds a space past two thirds of it, the piece ends at a space, at or
      after that one, and so at the last space of the chunk. */
  lemma SplitAtLateSpace(remaining: string, width: nat, j: nat)
    requires width < |remaining| && width * 2 / 3 < j < width && remaining[j] == ' '
    ensures var p := SplitPoint(remaining, width);
      j <= p < width && remaining[p] == ' ' && ' ' !in remaining[p + 1..width]
  {
    var chunk := remaining[..width];
    assert chunk[j] == ' ';
  }

  /** At a content width of 0 a piece is empty, and when the text starts
      with a character that is not whitespace the trimmed rest is the text
      itself: the wrapping loop prints an empty line and starts over with
      the same text, for ever. */
  lemma ZeroWidthMakesNoProgress(remaining: string)
    requires remaining != [] && !IsWhitespace(remaining[0])
    ensures var p := SplitPoint(remaining, 0);
      p == 0 && remaining[..p] == [] && TrimStart(remaining[p..]) == remaining
  {
    assert remaining[0..] == remaining;
  }

  /** The pieces of a line longer than the width: each piece is taken with
      `SplitPoint` and the whitespace after it is dropped. */
  function Chunks(remaining: string, width: nat): seq<string>
    requires width > 0
    decreases |remaining|
  {
    if remaining == [] then []
    else
      var p := SplitPoint(remaining, width);
      [remaining[..p]] + Chunks(TrimStart(remaining[p..]), width)
  }

  predicate Fits(lines: seq<string>, width: nat) {
    forall k :: 0 <= k < |lines| ==> 0 < |lines[k]| <= width
  }

  predicate CleanStarts(lines: seq<string>) {
    forall k :: 1 <= k < |lines| ==> lines[k] != [] && !IsWhitespace(lines[k][0])
  }

  /** Every piece holds at least one character and at most the width, and
      every piece after the first starts with a character that is not
      whitespace. */
  lemma {:induction false} ChunksFit(remaining: string, width: nat)
    requires width > 0
    ensures Fits(Chunks(remaining, width), width) && CleanStarts(Chunks(remaining, width))
    decreases |remaining|
  {
    if remaining != [] {
      var p := SplitPoint(remaining, width);
      var rest := TrimStart(remaining[p..]);
      var tail := Chunks(rest, width);
      assert tail != [] ==> tail[0] != [] && tail[0][0] == rest[0] by {
        if rest != [] {
          var q := SplitPoint(rest, width);
          assert tail[0] == rest[..q];
        }
      }
      var cs := [remaining[..p]] + tail;
      assert Chunks(remaining, width) == cs;
      ChunksFit(rest, width);
      PiecesFit(remaining[..p], tail, width);
    }
  }

  /** A first piece in front of pieces that fit and start clean. */
  lemma PiecesFit(first: string, tail: seq<string>, width: nat)
    requires 0 < |first| <= width && Fits(tail, width) && CleanStarts(tail)
    requires tail != [] ==> tail[0] != [] && !IsWhitespace(tail[0][0])
    ensures Fits([first] + tail, width) && CleanStarts([first] + tail)
  {
    var cs := [first] + tail;
    forall k | 1 <= k < |cs| ensures cs[k] == tail[k - 1] {
    }
  }

  /** The screen lines one blame row's content takes: the content itself when
      it fits the width, its pieces otherwise. */
  function Wrap(content: string, width: nat): seq<string>
    requires width > 0
  {
    if |content| <= width then [content] else Chunks(content, width)
  }

  /** Every screen line fits the width and there is at least one; a content
      that does not fit is cut into pieces of which the first starts the
      content. */
  lemma WrapFits(content: string, width: nat)
    requires width > 0
    ensures |Wrap(content, width)| >= 1
    ensures |content| <= width ==> Wrap(content, width) == [content]
    ensures |content| > width ==> Fits(Wrap(content, width), width) && CleanStarts(Wrap(content, width))
    ensures |content| > width ==> Wrap(content, width)[0] == content[..|Wrap(content, width)[0]|]
  {
    if |content| > width {
      var p := SplitPoint(content, width);
      assert Chunks(content, width) == [content[..p]] + Chunks(TrimStart(content[p..]), width);
      ChunksFit(content, width);
    }
  }

  /** One turn's break position: the width or the rest of the text, pulled
      back to the last space of the chunk when that lies past two thirds. */
  method NextSplit(remaining: string, width: nat) returns (splitPos: nat)
    requires remaining != []
    ensures splitPos == SplitPoint(remaining, width)
  {
    var chunkSize := Min(width, |remaining|);
    splitPos := chunkSize;
    if splitPos < |remaining| {
      var found := LastIndexOf(remaining[..chunkSize], ' ');
      if found.Some? && found.value > chunkSize * 2 / 3 {
        splitPos := found.value;
      }
    }
  }

  /** The wrapping loop: `remaining` shrinks by a piece and the whitespace
      after it each turn. */
  method WrapContent(content: string, width: nat) returns (lines: seq<string>)
    requires width > 0
    ensures lines == Wrap(content, width)
  {
    if |content| <= width {
      return [content];
    }
    lines := [];
    var remaining := content;
    while remaining != []
      invariant lines + Chunks(remaining, width) == Chunks(content, width)
      decreases |remaining|
    {
      var splitPos := NextSplit(remaining, width);
      var chunk := remaining[..splitPos];
      var rest := TrimStart(remaining[splitPos..]);
      ChunksStep(lines, remaining, width);
      remaining := rest;
      lines := lines + [chunk];
    }
    assert lines + [] == lines;
  }

  lemma ChunksStep(lines: seq<string>, remaining: string, width: nat)
    requires width > 0 && remaining != []
    ensures var p := SplitPoint(remaining, width);
      lines + Chunks(remaining, width) == (lines + [remaining[..p]]) + Chunks(TrimStart(remaining[p..]), width)
  {
  }

  /** The characters of a text that are not whitespace. */
  function NonBlank(s: string): string {
    if s == [] then [] else (if IsWhitespace(s[0]) then [] else [s[0]]) + NonBlank(s[1..])
  }

  function Concat(parts: seq<string>): string {
    if parts == [] then [] else parts[0] + Concat(parts[1..])
  }

  lemma {:induction false} NonBlankAppend(a: string, b: string)
    ensures NonBlank(a + b) == NonBlank(a) + NonBlank(b)
  {
    if a == [] {
      assert a + b == b;
    } else {
      assert (a + b)[0] == a[0] && (a + b)[1..] == a[1..] + b;
      NonBlankAppend(a[1..], b);
    }
  }

  lemma {:induction false} NonBlankTrimStart(s: string)
    ensures NonBlank(TrimStart(s)) == NonBlank(s)
  {
    if s != [] && IsWhitespace(s[0]) {
      NonBlankTrimStart(s[1..]);
    }
  }

  lemma {:induction false} ChunksKeepText(remaining: string, width: nat)
    requires width > 0
    ensures NonBlank(Concat(Chunks(remaining, width))) == NonBlank(remaining)
    decreases |remaining|
  {
    if remaining != [] {
      var p := SplitPoint(remaining, width);
      assert remaining[..p] + remaining[p..] == remaining;
      var rest := TrimStart(remaining[p..]);
      ChunksKeepText(rest, width);
      NonBlankTrimStart(remaining[p..]);
      NonBlankAppend(remaining[..p], Concat(Chunks(rest, width)));
      NonBlankAppend(remaining[..p], remaining[p..]);
    }
  }

  /** Wrapping loses no text: only whitespace at the breaks is dropped. */
  lemma WrapKeepsText(content: string, width: nat)
    requires width > 0
    ensures NonBlank(Concat(Wrap(content, width))) == NonBlank(content)
  {
    if |content| <= width {
      assert Concat([content]) == content + Concat([]);
      assert content + [] == content;
    } else {
      ChunksKeepText(content, width);
    }
  }
}
