/** `parse_file_range`: the `lines` argument `path:start-end`. */
module Ranges {
  import opened Wrappers
  import opened Text

  datatype FileRange = FileRange(path: string, start: nat, end: nat)

  /** Splits at the LAST colon; the range part holds `start-end` (split at its
      first dash) or a single line number. Unparseable numbers fall back: the
      start to 1, the end to the start. Without a colon, the whole argument is
      the path and the range is 1 to `usize::MAX`. */
  function ParseFileRange(arg: string): (r: FileRange)
    ensures r.start <= USIZE_MAX && r.end <= USIZE_MAX
    ensures ':' !in arg ==> r == FileRange(arg, 1, USIZE_MAX)
    ensures ':' in arg ==> |r.path| < |arg| && arg[..|r.path|] == r.path
                           && arg[|r.path|] == ':' && ':' !in arg[|r.path| + 1..]
  {
    match LastIndexOf(arg, ':')
    case None => FileRange(arg, 1, USIZE_MAX)
    case Some(colon) =>
      var path := arg[..colon];
      var rangePart := arg[colon + 1..];
      match IndexOf(rangePart, '-')
      case Some(dash) =>
        var start := ParseUsize(rangePart[..dash]).GetOr(1);
        var end := ParseUsize(rangePart[dash + 1..]).GetOr(start);
        FileRange(path, start, end)
      case None =>
        var line := ParseUsize(rangePart).GetOr(1);
        FileRange(path, line, line)
  }

  lemma DigitsHaveNoColonOrDash(s: string)
    requires AllDigits(s)
    ensures ':' !in s && '-' !in s
  {
    forall k | 0 <= k < |s| ensures s[k] != ':' && s[k] != '-' {
      assert IsDigit(s[k]);
    }
  }

  /** The colon found is the one after the path, whatever colons the path holds. */
  lemma LastColonAfterPath(path: string, rangePart: string)
    requires ':' !in rangePart
    ensures LastIndexOf(path + ":" + rangePart, ':') == Some(|path|)
    ensures (path + ":" + rangePart)[..|path|] == path
    ensures (path + ":" + rangePart)[|path| + 1..] == rangePart
  {
    var arg := path + ":" + rangePart;
    assert arg[|path|] == ':';
    assert arg[|path| + 1..] == rangePart;
    LastIndexOfAt(arg, ':', |path|);
  }

  /** A range `digits-rest` splits at the dash right after the digits. */
  lemma DashAfterDigits(digits: string, rest: string)
    requires AllDigits(digits)
    ensures IndexOf(digits + "-" + rest, '-') == Some(|digits|)
    ensures (digits + "-" + rest)[..|digits|] == digits
    ensures (digits + "-" + rest)[|digits| + 1..] == rest
  {
    var r := digits + "-" + rest;
    DigitsHaveNoColonOrDash(digits);
    assert r[..|digits|] == digits;
    assert r[|digits| + 1..] == rest;
    IndexOfAt(r, '-', |digits|);
  }

  /** Any `path:x-y` whose range part holds no other colon: the start is x,
      or 1 when x does not parse; the end is y, or the start when y does not
      parse. */
  lemma ParseRangeWithDash(path: string, x: string, y: string)
    requires ':' !in x && ':' !in y && '-' !in x
    ensures var start := ParseUsize(x).GetOr(1);
      ParseFileRange(path + ":" + x + "-" + y) == FileRange(path, start, ParseUsize(y).GetOr(start))
  {
    var rangePart := x + "-" + y;
    assert ':' !in rangePart by {
      assert rangePart == x + ("-" + y);
    }
    assert path + ":" + x + "-" + y == path + ":" + rangePart;
    LastColonAfterPath(path, rangePart);
    assert rangePart[|x|] == '-' && rangePart[..|x|] == x && rangePart[|x| + 1..] == y;
    IndexOfAt(rangePart, '-', |x|);
  }

  /** Any `path:x` whose range part holds no colon and no dash traces the
      single line x, or line 1 when x does not parse. */
  lemma ParseRangeNoDash(path: string, x: string)
    requires ':' !in x && '-' !in x
    ensures var line := ParseUsize(x).GetOr(1);
      ParseFileRange(path + ":" + x) == FileRange(path, line, line)
  {
    LastColonAfterPath(path, x);
  }

  /** `path:a-b` gives back path, a and b. */
  lemma ParseRangeRoundTrip(path: string, a: nat, b: nat)
    requires a <= USIZE_MAX && b <= USIZE_MAX
    ensures ParseFileRange(path + ":" + Decimal(a) + "-" + Decimal(b)) == FileRange(path, a, b)
  {
    var rangePart := Decimal(a) + ("-" + Decimal(b));
    DigitsHaveNoColonOrDash(Decimal(a));
    DigitsHaveNoColonOrDash(Decimal(b));
    assert ':' !in "-";
    assert path + ":" + Decimal(a) + "-" + Decimal(b) == path + ":" + rangePart;
    LastColonAfterPath(path, rangePart);
    assert rangePart == Decimal(a) + "-" + Decimal(b);
    DashAfterDigits(Decimal(a), Decimal(b));
    ParseUsizeDecimal(a);
    ParseUsizeDecimal(b);
  }

  /** `path:n` traces the single line n. */
  lemma ParseSingleLine(path: string, n: nat)
    requires n <= USIZE_MAX
    ensures ParseFileRange(path + ":" + Decimal(n)) == FileRange(path, n, n)
  {
    DigitsHaveNoColonOrDash(Decimal(n));
    LastColonAfterPath(path, Decimal(n));
    ParseUsizeDecimal(n);
  }

  /** `path:a-` (no end) traces only line a. */
  lemma ParseRangeWithoutEnd(path: string, a: nat)
    requires a <= USIZE_MAX
    ensures ParseFileRange(path + ":" + Decimal(a) + "-") == FileRange(path, a, a)
  {
    var arg := path + ":" + Decimal(a) + "-";
    var rangePart := Decimal(a) + "-";
    DigitsHaveNoColonOrDash(Decimal(a));
    assert ':' !in "-";
    assert arg == path + ":" + rangePart;
    LastColonAfterPath(path, rangePart);
    assert rangePart == Decimal(a) + "-" + "";
    DashAfterDigits(Decimal(a), "");
    ParseUsizeDecimal(a);
    assert ParseUsize("") == None;
    assert ParseFileRange(arg) == FileRange(path, ParseUsize(Decimal(a)).GetOr(1), ParseUsize("").GetOr(ParseUsize(Decimal(a)).GetOr(1)));
  }

  /** `path:-` falls back to line 1. */
  lemma ParseRangeDashOnly(path: string)
    ensures ParseFileRange(path + ":" + "-") == FileRange(path, 1, 1)
  {
    var arg := path + ":" + "-";
    assert LastIndexOf(arg, ':') == Some(|path|) && arg[..|path|] == path && arg[|path| + 1..] == "-" by {
      LastColonAfterPath(path, "-");
    }
    assert IndexOf("-", '-') == Some(0) && "-"[..0] == "" && "-"[1..] == "" by {
      IndexOfAt("-", '-', 0);
    }
    assert ParseUsize("") == None;
  }

  /** `path:` falls back to line 1. */
  lemma ParseRangeEmpty(path: string)
    ensures ParseFileRange(path + ":") == FileRange(path, 1, 1)
  {
    var arg := path + ":";
    assert LastIndexOf(arg, ':') == Some(|path|) && arg[..|path|] == path && arg[|path| + 1..] == "" by {
      LastColonAfterPath(path, "");
      assert arg == path + ":" + "";
    }
    assert IndexOf("", '-') == None;
    assert ParseUsize("") == None;
  }
}
