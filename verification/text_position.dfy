/** Conversions between a character index and a (line, column) position in
    src/utils.rs. Both count characters the way the compiler does: carriage
    returns are skipped, every other character (newlines included) counts
    once. */
module TextPositions {
  import opened Models

  /** The characters both conversions count: `s` without carriage returns. */
  function Logical(s: string): (t: string)
    ensures |t| == NonCrCount(s)
    ensures forall i :: 0 <= i < |t| ==> t[i] != '\r'
  {
    if |s| == 0 then []
    else (if s[0] == '\r' then [] else [s[0]]) + Logical(s[1..])
  }

  /** The number of newline characters. */
  function Newlines(s: string): nat {
    if |s| == 0 then 0 else (if s[0] == '\n' then 1 else 0) + Newlines(s[1..])
  }

  /** The number of non-CR characters before the first newline. */
  function FirstLineLength(s: string): nat {
    if |s| == 0 || s[0] == '\n' then 0
    else (if s[0] == '\r' then 0 else 1) + FirstLineLength(s[1..])
  }

  // ---------------------------------------------------------------------------
  // index_to_line_char.

  /** The character loop of `index_to_line_char`, with `k` characters still to
      pass before the target and `(line, col)` the position reached so far. */
  function Walk(s: string, k: nat, line: nat, col: nat): (w: (nat, nat))
    ensures line <= w.0 <= line + k
    ensures w.1 <= col + k
  {
    if |s| == 0 then (line, col)
    else if s[0] == '\r' then Walk(s[1..], k, line, col)
    else if k == 0 then (line, col)
    else if s[0] == '\n' then Walk(s[1..], k - 1, line + 1, 0)
    else Walk(s[1..], k - 1, line, col + 1)
  }

  /** `index_to_line_char(s, idx)`. The source splits the scan at newlines and
      can stop early; both only make the same character loop faster. */
  function IndexToLineChar(s: string, idx: Loc): (r: (u32, u32))
    ensures r.0 <= idx && r.1 <= idx
  {
    Walk(s, idx, 0, 0)
  }

  // ---------------------------------------------------------------------------
  // line_char_to_index.

  /** The column loop of `line_char_to_index` on the target line: count
      characters until `column` of them are passed or the line ends. */
  function ScanColumn(s: string, column: nat): (n: nat)
    ensures n <= NonCrCount(s) && n <= column
  {
    if |s| == 0 then 0
    else if s[0] == '\r' then ScanColumn(s[1..], column)
    else if column == 0 || s[0] == '\n' then 0
    else 1 + ScanColumn(s[1..], column - 1)
  }

  /** The line loop of `line_char_to_index`: count every character of the
      `line` lines still to skip (their newlines included), then the column. */
  function ScanLines(s: string, line: nat, column: nat): (n: nat)
    ensures n <= NonCrCount(s)
  {
    if |s| == 0 then 0
    else if s[0] == '\r' then ScanLines(s[1..], line, column)
    else if line == 0 then ScanColumn(s, column)
    else 1 + ScanLines(s[1..], if s[0] == '\n' then line - 1 else line, column)
  }

  /** `line_char_to_index(s, line, column)`. */
  function LineCharToIndex(s: string, line: u32, column: u32): (n: nat)
    ensures n <= NonCrCount(s)
  {
    ScanLines(s, line, column)
  }

  // ---------------------------------------------------------------------------
  // Properties.

  /** Where a walk starts only shifts where it ends: lines add up, and the
      starting column survives only while no newline has been passed. */
  lemma {:induction false} WalkShift(s: string, k: nat, line: nat, col: nat)
    ensures var w0 := Walk(s, k, 0, 0);
      Walk(s, k, line, col) == (line + w0.0, if w0.0 == 0 then col + w0.1 else w0.1)
    decreases |s|
  {
    if |s| == 0 {
    } else if s[0] == '\r' {
      WalkShift(s[1..], k, line, col);
    } else if k == 0 {
    } else if s[0] == '\n' {
      WalkShift(s[1..], k - 1, line + 1, 0);
      WalkShift(s[1..], k - 1, 1, 0);
    } else {
      WalkShift(s[1..], k - 1, line, col + 1);
      WalkShift(s[1..], k - 1, 0, 1);
    }
  }

  /** Scanning back to where a walk of `k` characters ended counts those `k`
      characters, or all of them when fewer are left. */
  ghost predicate WalkReturns(s: string, k: nat) {
    var w := Walk(s, k, 0, 0);
    ScanLines(s, w.0, w.1) == if k <= NonCrCount(s) then k else NonCrCount(s)
  }

  lemma {:induction false} WalkRoundTrip(s: string, k: nat)
    ensures WalkReturns(s, k)
    decreases |s|
  {
    if |s| == 0 {
    } else if s[0] == '\r' {
      WalkRoundTrip(s[1..], k);
    } else if k == 0 {
    } else if s[0] == '\n' {
      WalkRoundTrip(s[1..], k - 1);
      WalkReturnsNewline(s, k);
    } else {
      WalkRoundTrip(s[1..], k - 1);
      WalkReturnsPlain(s, k);
    }
  }

  /** The step of `WalkRoundTrip` over a leading newline. */
  lemma WalkReturnsNewline(s: string, k: nat)
    requires |s| > 0 && s[0] == '\n' && k > 0
    requires WalkReturns(s[1..], k - 1)
    ensures WalkReturns(s, k)
  {
    WalkShift(s[1..], k - 1, 1, 0);
  }

  /** The step of `WalkRoundTrip` over a leading character that is neither a
      newline nor a carriage return. */
  lemma WalkReturnsPlain(s: string, k: nat)
    requires |s| > 0 && s[0] != '\n' && s[0] != '\r' && k > 0
    requires WalkReturns(s[1..], k - 1)
    ensures WalkReturns(s, k)
  {
    WalkShift(s[1..], k - 1, 0, 1);
    var w1 := Walk(s[1..], k - 1, 0, 0);
    if w1.0 == 0 {
      ScanLinesOnFirstLine(s[1..], w1.1);
    }
  }

  lemma {:induction false} ScanLinesOnFirstLine(s: string, column: nat)
    ensures ScanLines(s, 0, column) == ScanColumn(s, column)
    decreases |s|
  {
    if |s| > 0 && s[0] == '\r' {
      ScanLinesOnFirstLine(s[1..], column);
    }
  }

  /** `line_char_to_index` inverts `index_to_line_char`: every index up to the
      number of counted characters comes back unchanged, and larger ones come
      back as that number. */
  lemma LineCharToIndexRoundTrip(s: string, idx: Loc)
    ensures var (line, column) := IndexToLineChar(s, idx);
      LineCharToIndex(s, line, column) == if idx <= NonCrCount(s) then idx else NonCrCount(s)
  {
    WalkRoundTrip(s, idx);
  }

  lemma {:induction false} WalkIgnoresCr(s: string, k: nat, line: nat, col: nat)
    ensures Walk(s, k, line, col) == Walk(Logical(s), k, line, col)
    decreases |s|
  {
    if |s| > 0 {
      var t := Logical(s);
      if s[0] == '\r' {
        assert t == Logical(s[1..]);
        WalkIgnoresCr(s[1..], k, line, col);
      } else {
        assert t[0] == s[0] && t[1..] == Logical(s[1..]);
        if k > 0 {
          WalkIgnoresCr(s[1..], k - 1, if s[0] == '\n' then line + 1 else line,
                        if s[0] == '\n' then 0 else col + 1);
        }
      }
    }
  }

  /** Carriage returns do not move a position. */
  lemma IndexToLineCharIgnoresCr(s: string, idx: Loc)
    ensures IndexToLineChar(s, idx) == IndexToLineChar(Logical(s), idx)
  {
    WalkIgnoresCr(s, idx, 0, 0);
  }

  lemma {:induction false} ScanColumnIgnoresCr(s: string, column: nat)
    ensures ScanColumn(s, column) == ScanColumn(Logical(s), column)
    decreases |s|
  {
    if |s| > 0 {
      var t := Logical(s);
      if s[0] == '\r' {
        assert t == Logical(s[1..]);
        ScanColumnIgnoresCr(s[1..], column);
      } else {
        assert t[0] == s[0] && t[1..] == Logical(s[1..]);
        if column > 0 {
          ScanColumnIgnoresCr(s[1..], column - 1);
        }
      }
    }
  }

  lemma {:induction false} ScanLinesIgnoresCr(s: string, line: nat, column: nat)
    ensures ScanLines(s, line, column) == ScanLines(Logical(s), line, column)
    decreases |s|
  {
    if |s| > 0 {
      var t := Logical(s);
      if s[0] == '\r' {
        assert t == Logical(s[1..]);
        ScanLinesIgnoresCr(s[1..], line, column);
      } else {
        assert t[0] == s[0] && t[1..] == Logical(s[1..]);
        if line == 0 {
          ScanColumnIgnoresCr(s, column);
        } else {
          ScanLinesIgnoresCr(s[1..], if s[0] == '\n' then line - 1 else line, column);
        }
      }
    }
  }

  /** Carriage returns do not move an index. */
  lemma LineCharToIndexIgnoresCr(s: string, line: u32, column: u32)
    ensures LineCharToIndex(s, line, column) == LineCharToIndex(Logical(s), line, column)
  {
    ScanLinesIgnoresCr(s, line, column);
  }

  lemma {:induction false} ScanLinesPastEnd(s: string, line: nat, column: nat)
    requires line > Newlines(s)
    ensures ScanLines(s, line, column) == NonCrCount(s)
    decreases |s|
  {
    if |s| > 0 {
      ScanLinesPastEnd(s[1..], if s[0] == '\n' then line - 1 else line, column);
    }
  }

  /** A line beyond the last one gives the number of counted characters. */
  lemma LineCharToIndexPastLastLine(s: string, line: u32, column: u32)
    requires line > Newlines(s)
    ensures LineCharToIndex(s, line, column) == NonCrCount(s)
  {
    ScanLinesPastEnd(s, line, column);
  }

  lemma {:induction false} ScanColumnClamps(s: string, column: nat)
    ensures ScanColumn(s, column) == if column <= FirstLineLength(s) then column else FirstLineLength(s)
    decreases |s|
  {
    if |s| > 0 && s[0] != '\n' {
      if s[0] == '\r' {
        ScanColumnClamps(s[1..], column);
      } else if column > 0 {
        ScanColumnClamps(s[1..], column - 1);
      }
    }
  }

  /** On the first line a column past the line's end stops at its newline. */
  lemma LineCharToIndexFirstLine(s: string, column: u32)
    ensures LineCharToIndex(s, 0, column) == if column <= FirstLineLength(s) then column else FirstLineLength(s)
  {
    ScanLinesOnFirstLine(s, column);
    ScanColumnClamps(s, column);
  }

  /** Skipping `line` whole lines counts every character of them. */
  lemma {:induction false} ScanLinesSkip(pre: string, rest: string, line: nat, column: nat)
    requires Newlines(pre) == line
    requires |pre| == 0 || pre[|pre| - 1] == '\n'
    ensures ScanLines(pre + rest, line, column) == NonCrCount(pre) + ScanLines(rest, 0, column)
    decreases |pre|
  {
    if |pre| == 0 {
      assert pre + rest == rest;
    } else {
      var front := pre[..|pre| - 1];
      assert pre == front + ['\n'];
      NewlinesSnoc(front, '\n');
      var s := pre + rest;
      assert s[0] == pre[0] && s[1..] == pre[1..] + rest;
      ScanLinesSkip(pre[1..], rest, if pre[0] == '\n' then line - 1 else line, column);
    }
  }

  /** Every line up to the last one starts somewhere: after exactly `line`
      newlines, or at the start of the text for line 0. */
  lemma {:induction false} LineStartSplit(s: string, line: nat) returns (pre: string, rest: string)
    requires line <= Newlines(s)
    ensures s == pre + rest && Newlines(pre) == line
    ensures |pre| == 0 || pre[|pre| - 1] == '\n'
    decreases |s|
  {
    if line == 0 {
      pre, rest := [], s;
    } else {
      var c := s[0];
      var p', r' := LineStartSplit(s[1..], if c == '\n' then line - 1 else line);
      pre, rest := [c] + p', r';
      assert s == [c] + s[1..];
      assert pre + rest == [c] + (p' + r');
      assert |pre| > 0 && pre[0] == c && pre[1..] == p';
      if |p'| > 0 {
        assert pre[|pre| - 1] == p'[|p'| - 1];
      }
    }
  }

  /** On any line, a column past the line's end stops at its newline: with the
      text split after the line's `line` preceding newlines, the index is the
      count of what precedes plus the column, clamped at the line's length. */
  lemma LineCharToIndexOnLine(s: string, pre: string, rest: string, line: u32, column: u32)
    requires s == pre + rest
    requires Newlines(pre) == line as int
    requires |pre| == 0 || pre[|pre| - 1] == '\n'
    ensures LineCharToIndex(s, line, column) ==
      NonCrCount(pre) + if column as int <= FirstLineLength(rest) then column as int else FirstLineLength(rest)
  {
    ScanLinesSkip(pre, rest, line, column);
    ScanLinesOnFirstLine(rest, column);
    ScanColumnClamps(rest, column);
  }

  lemma {:induction false} WalkCountsNewlines(t: string, k: nat)
    requires forall i :: 0 <= i < |t| ==> t[i] != '\r'
    ensures Walk(t, k, 0, 0).0 == Newlines(t[..if k <= |t| then k else |t|])
    decreases |t|
  {
    if |t| > 0 && k > 0 {
      var m := if k <= |t| then k else |t|;
      assert t[..m][0] == t[0] && t[..m][1..] == t[1..][..m - 1];
      WalkCountsNewlines(t[1..], k - 1);
      if t[0] == '\n' {
        WalkShift(t[1..], k - 1, 1, 0);
      } else {
        WalkShift(t[1..], k - 1, 0, 1);
      }
    } else if |t| > 0 {
      assert t[..0] == [];
    }
  }

  /** The line of an index is the number of newlines before it. */
  lemma IndexToLineCharLine(s: string, idx: Loc)
    ensures var t := Logical(s);
      IndexToLineChar(s, idx).0 == Newlines(t[..if idx <= |t| then idx else |t|])
  {
    IndexToLineCharIgnoresCr(s, idx);
    WalkCountsNewlines(Logical(s), idx);
  }

  /** The number of characters after the last newline of `u`, all of `u`
      when it has none: the length of its last, unfinished line. */
  function LineTail(u: string): (n: nat)
    ensures n <= |u|
  {
    if |u| == 0 || u[|u| - 1] == '\n' then 0 else 1 + LineTail(u[..|u| - 1])
  }

  lemma {:induction false} NewlinesSnoc(u: string, c: char)
    ensures Newlines(u + [c]) == Newlines(u) + (if c == '\n' then 1 else 0)
    decreases |u|
  {
    if |u| > 0 {
      assert (u + [c])[0] == u[0] && (u + [c])[1..] == u[1..] + [c];
      NewlinesSnoc(u[1..], c);
    } else {
      assert u + [c] == [c];
    }
  }

  /** A character put in front of `u` lengthens its last line only when `u`
      has no newline and the character is not one. */
  lemma {:induction false} LineTailCons(c: char, u: string)
    ensures LineTail([c] + u) ==
      if c == '\n' || Newlines(u) > 0 then LineTail(u) else 1 + LineTail(u)
    decreases |u|
  {
    var v := [c] + u;
    if |u| > 0 {
      var u' := u[..|u| - 1];
      assert u == u' + [u[|u| - 1]];
      NewlinesSnoc(u', u[|u| - 1]);
      assert v[|v| - 1] == u[|u| - 1] && v[..|v| - 1] == [c] + u';
      LineTailCons(c, u');
    }
  }

  /** The column a walk of `k` characters reaches is the length of the last
      line among those characters. */
  ghost predicate ColumnCounts(t: string, k: nat) {
    Walk(t, k, 0, 0).1 == LineTail(t[..if k <= |t| then k else |t|])
  }

  lemma {:induction false} WalkCountsColumn(t: string, k: nat)
    requires forall i :: 0 <= i < |t| ==> t[i] != '\r'
    ensures ColumnCounts(t, k)
    decreases |t|
  {
    if |t| > 0 && k > 0 {
      WalkCountsColumn(t[1..], k - 1);
      ColumnStep(t, k);
    } else if |t| > 0 {
      assert t[..0] == [];
    }
  }

  /** The step of `WalkCountsColumn` over a leading character. */
  lemma ColumnStep(t: string, k: nat)
    requires forall i :: 0 <= i < |t| ==> t[i] != '\r'
    requires |t| > 0 && k > 0
    requires ColumnCounts(t[1..], k - 1)
    ensures ColumnCounts(t, k)
  {
    var rest := t[1..];
    var m := if k - 1 <= |rest| then k - 1 else |rest|;
    var u := rest[..m];
    assert t[..if k <= |t| then k else |t|] == [t[0]] + u;
    WalkCountsNewlines(rest, k - 1);
    if t[0] == '\n' {
      WalkShift(rest, k - 1, 1, 0);
    } else {
      WalkShift(rest, k - 1, 0, 1);
    }
    LineTailCons(t[0], u);
  }

  /** The column of an index is the number of characters since the last
      newline before it (carriage returns not counted). */
  lemma IndexToLineCharColumn(s: string, idx: Loc)
    ensures var t := Logical(s);
      IndexToLineChar(s, idx).1 == LineTail(t[..if idx <= |t| then idx else |t|])
  {
    IndexToLineCharIgnoresCr(s, idx);
    WalkCountsColumn(Logical(s), idx);
  }

  lemma {:induction false} NewlinesLogical(s: string)
    ensures Newlines(Logical(s)) == Newlines(s)
    decreases |s|
  {
    if |s| > 0 {
      var t := Logical(s);
      NewlinesLogical(s[1..]);
      if s[0] == '\r' {
        assert t == Logical(s[1..]);
      } else {
        assert |t| > 0 && t[0] == s[0] && t[1..] == Logical(s[1..]);
      }
    }
  }

  /** An index at or past the last counted character gives the final
      position: the line after every newline, and the length of the last line. */
  lemma IndexToLineCharPastEnd(s: string, idx: Loc)
    requires idx as int >= NonCrCount(s)
    ensures IndexToLineChar(s, idx) == (Newlines(s), LineTail(Logical(s)))
  {
    var t := Logical(s);
    IndexToLineCharLine(s, idx);
    IndexToLineCharColumn(s, idx);
    assert t[..|t|] == t;
    NewlinesLogical(s);
  }

  /** A stretch without line ends moves only the column. */
  lemma {:induction false} WalkPlain(a: string, b: string, k: nat, line: nat, col: nat)
    requires forall i :: 0 <= i < |a| ==> a[i] != '\n' && a[i] != '\r'
    requires |a| <= k
    ensures Walk(a + b, k, line, col) == Walk(b, k - |a|, line, col + |a|)
    decreases |a|
  {
    if |a| > 0 {
      assert (a + b)[0] == a[0] && (a + b)[1..] == a[1..] + b;
      WalkPlain(a[1..], b, k - 1, line, col + 1);
    } else {
      assert a + b == b;
    }
  }

  /** A line end (LF or CRLF) followed by a stretch without line ends starts
      a new line and moves its column across the stretch. */
  lemma WalkLineThenPlain(s: string, eol: string, a: string, rest: string, k: nat, line: nat, col: nat)
    requires eol == "\n" || eol == "\r\n"
    requires forall i :: 0 <= i < |a| ==> a[i] != '\n' && a[i] != '\r'
    requires s == eol + a + rest && |a| < k
    ensures Walk(s, k, line, col) == Walk(rest, k - 1 - |a|, line + 1, |a|)
  {
    var tail := a + rest;
    assert s == eol + tail;
    if eol == "\r\n" {
      assert s[0] == '\r' && s[1..] == "\n" + tail;
    }
    assert ("\n" + tail)[0] == '\n' && ("\n" + tail)[1..] == tail;
    WalkPlain(a, rest, k - 1, line + 1, 0);
  }

  /** A stretch without line ends at the start of the text. */
  lemma WalkPlainPrefix(s: string, a: string, rest: string, k: nat)
    requires forall i :: 0 <= i < |a| ==> a[i] != '\n' && a[i] != '\r'
    requires s == a + rest && |a| <= k
    ensures Walk(s, k, 0, 0) == Walk(rest, k - |a|, 0, |a|)
  {
    WalkPlain(a, rest, k, 0, 0);
  }

  /** The first two lines of the example below: "abc" then "de". */
  lemma MixedLineEndsFirstLines(s: string, rest: string)
    requires s == "abc\nde\r\nfgh\r\nij\n" && rest == "\r\nfgh\r\nij\n"
    ensures Walk(s, 14, 0, 0) == Walk(rest, 8, 1, 2)
  {
    var mid := "\nde" + rest;
    assert s == "abc" + mid;
    WalkPlainPrefix(s, "abc", mid, 14);
    MixedLineEndsSecondLine(mid, rest);
  }

  /** The second line of the example below: "de" after an LF. */
  lemma MixedLineEndsSecondLine(mid: string, rest: string)
    requires mid == "\nde" + rest
    ensures Walk(mid, 11, 0, 3) == Walk(rest, 8, 1, 2)
  {
    WalkLineThenPlain(mid, "\n", "de", rest, 11, 0, 3);
  }

  /** The last lines of the example below: "fgh", "ij" and the final newline. */
  lemma MixedLineEndsLastLines(rest: string)
    requires rest == "\r\nfgh\r\nij\n"
    ensures Walk(rest, 8, 1, 2) == (4, 0)
  {
    WalkLineThenPlain(rest, "\r\n", "fgh", "\r\nij\n", 8, 1, 2);
    WalkLineThenPlain("\r\nij\n", "\r\n", "ij", "\n", 4, 2, 3);
    WalkLineThenPlain("\n", "\n", "", "", 1, 3, 2);
  }

  /** The source's own example, where CRLF and LF line ends mix: the index
      just past the final newline is on line 4, column 0. */
  lemma MixedLineEndsExample(s: string)
    requires s == "abc\nde\r\nfgh\r\nij\n"
    ensures IndexToLineChar(s, 14) == (4, 0)
  {
    MixedLineEndsFirstLines(s, "\r\nfgh\r\nij\n");
    MixedLineEndsLastLines("\r\nfgh\r\nij\n");
  }

  /** A run of characters that are neither newlines nor carriage returns adds
      to the first line and to the count, and no newline. */
  lemma {:induction false} PlainRun(a: string, b: string)
    requires forall i :: 0 <= i < |a| ==> a[i] != '\n' && a[i] != '\r'
    ensures Newlines(a + b) == Newlines(b)
    ensures NonCrCount(a + b) == |a| + NonCrCount(b)
    ensures |b| > 0 && b[0] == '\n' ==> FirstLineLength(a + b) == |a|
  {
    if |a| == 0 {
      assert a + b == b;
    } else {
      assert (a + b)[0] == a[0] && (a + b)[1..] == a[1..] + b;
      PlainRun(a[1..], b);
    }
  }

  /** The source's example: a column past the end of the first line stops at
      its newline. */
  lemma LineEndExample(s: string)
    requires s == "a\nb\nc"
    ensures LineCharToIndex(s, 0, 10) == 1
  {
    assert s == "a" + "\nb\nc";
    PlainRun("a", "\nb\nc");
    LineCharToIndexFirstLine(s, 10);
  }

  /** The source's example: a line past the last one gives the whole count. */
  lemma PastEndExample(s: string)
    requires s == "a\nb\nc"
    ensures LineCharToIndex(s, 10, 0) == 5
  {
    assert '\r' !in s;
    CountWithoutCr(s);
    LineCharToIndexPastLastLine(s, 10, 0);
  }

  /** Without carriage returns every character counts, and there are at most
      as many newlines as characters. */
  lemma {:induction false} CountWithoutCr(s: string)
    requires '\r' !in s
    ensures NonCrCount(s) == |s| && Newlines(s) <= |s|
  {
    if |s| > 0 {
      assert '\r' !in s[1..] by {
        assert forall i :: 0 <= i < |s[1..]| ==> s[1..][i] == s[i + 1];
      }
      CountWithoutCr(s[1..]);
    }
  }

  /** The source's example on two words: column 10 of line 0 stops at the
      newline, and line 10 is past the last line, giving the whole count. */
  lemma TwoWordsExample(t: string)
    requires t == "hello\nworld"
    ensures LineCharToIndex(t, 0, 10) == 5
    ensures LineCharToIndex(t, 10, 0) == 11
  {
    var world := "world";
    WorldCounts(world);
    assert t == "hello" + ("\n" + world);
    PlainRun("hello", "\n" + world);
    assert ("\n" + world)[1..] == world;
    LineCharToIndexFirstLine(t, 10);
    LineCharToIndexPastLastLine(t, 10, 0);
  }

  lemma WorldCounts(world: string)
    requires world == "world"
    ensures Newlines(world) == 0 && NonCrCount(world) == 5
  {
    PlainRun(world, []);
    assert world + [] == world;
  }
}
