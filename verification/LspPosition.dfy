/** Editor positions and byte offsets, as the language server converts between them. */
module LspPosition {
  import opened Wrappers
  import opened Bytes
  import opened Utf8
  import opened Offsets

  type u32 = x: int | 0 <= x < U32_SIZE

  /** What stops the program in a build that checks for it: a column counted below zero. */
  datatype Fault = ColumnUnderflow

  datatype Position = Position(line: u32, character: u32)

  // ----- lines -----

  function FirstNewline(s: string): (k: nat)
    ensures k <= |s| && (k < |s| ==> s[k] == '\n') && forall i :: 0 <= i < k ==> s[i] != '\n'
  {
    if s == "" || s[0] == '\n' then 0 else 1 + FirstNewline(s[1..])
  }

  function StripReturn(s: string): string {
    if s != "" && s[|s| - 1] == '\r' then s[..|s| - 1] else s
  }

  /** The lines of a text: each without its line ending, and nothing after the last ending. */
  function Lines(s: string): seq<string>
    decreases |s|
  {
    if s == "" then []
    else
      var k := FirstNewline(s);
      if k == |s| then [s] else [StripReturn(s[..k])] + Lines(s[k + 1..])
  }

  ghost function Newlines(s: string): nat {
    if s == "" then 0 else Newlines(s[..|s| - 1]) + if s[|s| - 1] == '\n' then 1 else 0
  }

  /** The text after the last line feed. */
  ghost function SinceNewline(s: string): (t: string)
    ensures |t| <= |s|
  {
    if s == "" || s[|s| - 1] == '\n' then "" else SinceNewline(s[..|s| - 1]) + [s[|s| - 1]]
  }

  lemma {:induction false} SinceIs(s: string)
    ensures var t := SinceNewline(s);
            t == s[|s| - |t|..] && '\n' !in t && (|t| < |s| ==> s[|s| - |t| - 1] == '\n')
  {
    if s != "" && s[|s| - 1] != '\n' {
      var init := s[..|s| - 1];
      SinceIs(init);
      var t := SinceNewline(init);
      assert s[|s| - |t| - 1..] == init[|init| - |t|..] + [s[|s| - 1]];
    }
  }

  lemma {:induction false} NewlinesConcat(s: string, t: string)
    ensures Newlines(s + t) == Newlines(s) + Newlines(t)
  {
    if t == "" {
      assert s + t == s;
    } else {
      assert (s + t)[..|s + t| - 1] == s + t[..|t| - 1];
      NewlinesConcat(s, t[..|t| - 1]);
    }
  }

  lemma {:induction false} NoNewlines(s: string)
    ensures Newlines(s) == 0 <==> '\n' !in s
    ensures Newlines(s) <= |s|
  {
    if s != "" {
      NoNewlines(s[..|s| - 1]);
      assert s == s[..|s| - 1] + [s[|s| - 1]];
    }
  }

  ghost predicate Unterminated(s: string) {
    s != "" && s[|s| - 1] != '\n'
  }

  lemma FirstLine(s: string, k: nat)
    requires k < |s| && s[k] == '\n' && forall i :: 0 <= i < k ==> s[i] != '\n'
    ensures Newlines(s) == 1 + Newlines(s[k + 1..])
  {
    var head := s[..k + 1];
    assert s == head + s[k + 1..] && head[..k] == s[..k];
    NewlinesConcat(head, s[k + 1..]);
    NoNewlines(s[..k]);
  }

  /** Lines are counted by line feeds. */
  lemma {:induction false} LineCount(s: string)
    ensures |Lines(s)| == Newlines(s) + if Unterminated(s) then 1 else 0
    decreases |s|
  {
    hide FirstNewline, Newlines;
    if s == "" {
      NoNewlines(s);
    } else {
      var k := FirstNewline(s);
      if k == |s| {
        NoNewlines(s);
      } else {
        LineCount(s[k + 1..]);
        FirstLine(s, k);
      }
    }
  }

  /** An unterminated last line is kept whole. */
  lemma {:induction false} LastLine(s: string)
    requires Unterminated(s)
    ensures Lines(s) != [] && Lines(s)[|Lines(s)| - 1] == SinceNewline(s)
    decreases |s|
  {
    hide FirstNewline, SinceNewline;
    var k := FirstNewline(s);
    if k == |s| {
      WholeLine(s);
    } else {
      LastLine(s[k + 1..]);
      assert s == s[..k + 1] + s[k + 1..];
      SinceInTail(s[..k + 1], s[k + 1..]);
    }
  }

  lemma {:induction false} WholeLine(s: string)
    requires '\n' !in s
    ensures SinceNewline(s) == s
  {
    if s != "" {
      assert s == s[..|s| - 1] + [s[|s| - 1]];
      WholeLine(s[..|s| - 1]);
    }
  }

  lemma {:induction false} SinceInTail(head: string, tail: string)
    requires head != "" && head[|head| - 1] == '\n'
    ensures SinceNewline(head + tail) == SinceNewline(tail)
  {
    if tail == "" {
      assert head + tail == head;
    } else {
      assert (head + tail)[..|head + tail| - 1] == head + tail[..|tail| - 1];
      SinceInTail(head, tail[..|tail| - 1]);
    }
  }

  // ----- from an offset to a position -----

  /** A cast to 32 bits. */
  function Low32(n: nat): (r: u32)
    ensures n < U32_SIZE ==> r == n
  {
    n % U32_SIZE
  }

  /** The position just after a text. */
  function PosAfter(before: string): Position {
    var lines := Lines(before);
    if before == "" then Position(0, 0)
    else if before[|before| - 1] == '\n' || lines == [] then Position(Low32(|lines|), 0)
    else Position(Low32(|lines| - 1), Low32(ByteLen(lines[|lines| - 1])))
  }

  function OffsetToPos(offset: nat, src: string): Option<Position> {
    match IndexAt(src, offset)
    case None => None
    case Some(i) => Some(PosAfter(src[..i]))
  }

  lemma PosAfterIs(before: string)
    ensures PosAfter(before) == Position(Low32(Newlines(before)), Low32(ByteLen(SinceNewline(before))))
  {
    hide Lines, ByteLen, Newlines, SinceNewline, Low32;
    LineCount(before);
    if Unterminated(before) {
      LastLine(before);
    } else {
      AtLineStart(before);
    }
  }

  /** A position counts the line feeds before the offset and the bytes since the last of them, both cast to 32 bits. */
  lemma PosIs(src: string, i: nat)
    requires i <= |src|
    ensures OffsetToPos(ByteLen(src[..i]), src)
         == Some(Position(Low32(Newlines(src[..i])), Low32(ByteLen(SinceNewline(src[..i])))))
  {
    hide IndexAt, ByteLen, Newlines, SinceNewline, PosAfter, Low32;
    IndexAtComplete(src, i);
    PosAfterIs(src[..i]);
  }

  lemma AtLineStart(s: string)
    requires !Unterminated(s)
    ensures SinceNewline(s) == "" && ByteLen("") == 0 && (s == "" ==> Newlines(s) == 0)
  {
  }

  /** Only offsets between characters have a position. */
  lemma PosExists(src: string, offset: nat)
    ensures OffsetToPos(offset, src).Some? <==> exists i :: 0 <= i <= |src| && ByteLen(src[..i]) == offset
  {
    hide IndexAt, ByteLen, PosAfter;
    IndexAtSound(src, offset);
    if i :| 0 <= i <= |src| && ByteLen(src[..i]) == offset {
      IndexAtComplete(src, i);
    }
  }

  // ----- from a position to an offset -----

  /** Line `line` starts after `k` characters. */
  ghost predicate StartsLine(src: string, line: nat, k: nat) {
    k <= |src| && Newlines(src[..k]) == line && (k == 0 || src[k - 1] == '\n')
  }

  /** The column counter at the character `k` of a scan that began its line at `start`: it goes on past line ends, and
      wraps around at zero. */
  ghost function Column(src: string, pos: Position, start: nat, k: nat): u32
    requires start <= k <= |src|
  {
    (pos.character - ByteLen(src[start..k])) % U32_SIZE
  }

  /** The scan for the position stops at the character `k`: the first of its line at which the column is zero. */
  ghost predicate StopsAt(src: string, pos: Position, start: nat, k: nat) {
    && start <= k < |src| && StartsLine(src, pos.line, start)
    && Column(src, pos, start, k) == 0
    && (forall j :: start <= j < k ==> Column(src, pos, start, j) != 0)
  }

  ghost predicate PointsAt(src: string, pos: Position, k: nat) {
    exists start: nat :: StopsAt(src, pos, start, k)
  }

  lemma StartUnique(src: string, line: nat, k: nat, m: nat)
    requires StartsLine(src, line, k) && StartsLine(src, line, m)
    ensures k == m
  {
    if k < m {
      LaterStart(src, k, m);
    } else if m < k {
      LaterStart(src, m, k);
    }
  }

  lemma LaterStart(src: string, lo: nat, hi: nat)
    requires lo < hi <= |src| && src[hi - 1] == '\n'
    ensures Newlines(src[..lo]) < Newlines(src[..hi])
  {
    assert src[..hi] == src[..lo] + src[lo..hi];
    NewlinesConcat(src[..lo], src[lo..hi]);
    NoNewlines(src[lo..hi]);
    assert src[lo..hi][hi - lo - 1] == '\n';
  }

  lemma PointUnique(src: string, pos: Position, k: nat, m: nat)
    requires PointsAt(src, pos, k) && PointsAt(src, pos, m)
    ensures k == m
  {
    hide StartsLine, Column;
    var s: nat :| StopsAt(src, pos, s, k);
    var t: nat :| StopsAt(src, pos, t, m);
    StartUnique(src, pos.line, s, t);
  }

  ghost function Offset(pos: Position, src: string): (r: Option<nat>)
    ensures forall k: nat :: PointsAt(src, pos, k) ==> k <= |src| && r == Some(ByteLen(src[..k]))
    ensures r.Some? ==> exists k: nat :: PointsAt(src, pos, k)
  {
    if k: nat :| PointsAt(src, pos, k) then
      assert forall m: nat :: PointsAt(src, pos, m) ==> m == k by {
        forall m: nat | PointsAt(src, pos, m) ensures m == k { PointUnique(src, pos, k, m); }
      }
      Some(ByteLen(src[..k]))
    else None
  }

  lemma LengthDecides(src: string, s: nat, k: nat, m: nat)
    requires s <= k <= |src| && s <= m <= |src| && ByteLen(src[s..k]) == ByteLen(src[s..m])
    ensures k == m
  {
    hide ByteLen;
    ByteLenSplit(src, s, k);
    ByteLenSplit(src, s, m);
    if k <= m {
      ByteLenSplit(src, k, m);
    } else {
      ByteLenSplit(src, m, k);
    }
  }

  /** Where the line of the character at `i` starts, and how its column is counted. */
  lemma LineOf(src: string, i: nat)
    requires i <= |src|
    ensures var start := i - |SinceNewline(src[..i])|;
            && StartsLine(src, Newlines(src[..i]), start)
            && src[start..i] == SinceNewline(src[..i])
  {
    hide Newlines, SinceNewline;
    var t := SinceNewline(src[..i]);
    SinceIs(src[..i]);
    var start := i - |t|;
    assert src[..i] == src[..start] + t;
    NewlinesConcat(src[..start], t);
    NoNewlines(t);
  }

  lemma LineNumber(src: string, line: nat, k: nat)
    requires StartsLine(src, line, k)
    ensures k <= |src| && Newlines(src[..k]) == line && (k == 0 || src[k - 1] == '\n')
  {
  }

  lemma LineMovesOn(src: string, start: nat, end: nat, k: nat)
    requires start <= end < k <= |src| && src[end] == '\n'
    ensures Newlines(src[..start]) < Newlines(src[..k])
  {
    LaterStart(src, start, end + 1);
    assert src[..k] == src[..end + 1] + src[end + 1..k];
    NewlinesConcat(src[..end + 1], src[end + 1..k]);
  }

  lemma SameLine(src: string, start: nat, k: nat)
    requires start <= k <= |src| && (start == 0 || src[start - 1] == '\n') && '\n' !in src[start..k]
    ensures Newlines(src[..k]) == Newlines(src[..start]) && SinceNewline(src[..k]) == src[start..k]
  {
    assert src[..k] == src[..start] + src[start..k];
    NewlinesConcat(src[..start], src[start..k]);
    NoNewlines(src[start..k]);
    WholeLine(src[start..k]);
    if start > 0 {
      SinceInTail(src[..start], src[start..k]);
    } else {
      assert src[..k] == src[start..k];
    }
  }

  // ----- there and back -----

  /** No character of the line before `i` lies a multiple of 2^32 bytes before it. */
  ghost predicate Distinct(src: string, i: nat)
    requires i <= |src|
  {
    forall j :: i - |SinceNewline(src[..i])| <= j < i ==> ByteLen(src[j..i]) % U32_SIZE != 0
  }

  lemma WrapDifference(b: nat, c: nat)
    ensures (b % U32_SIZE - c) % U32_SIZE == (b - c) % U32_SIZE
  {
  }

  /** Within the line, the counter of the position of `i` is the distance to `i`. */
  lemma ColumnIs(src: string, i: nat, j: nat, pos: Position)
    requires i <= |src| && i - |SinceNewline(src[..i])| <= j <= i
    requires pos.character == Low32(ByteLen(SinceNewline(src[..i])))
    ensures Column(src, pos, i - |SinceNewline(src[..i])|, j) == ByteLen(src[j..i]) % U32_SIZE
  {
    hide ByteLen, Newlines, SinceNewline, StartsLine;
    LineOf(src, i);
    var start := i - |SinceNewline(src[..i])|;
    ByteLenSplit(src, start, j);
    ByteLenSplit(src, start, i);
    ByteLenSplit(src, j, i);
    WrapDifference(ByteLen(src[start..i]), ByteLen(src[start..j]));
  }

  /** Where a scan meets a zero it has stopped by then. */
  lemma {:induction false} StopsBy(src: string, pos: Position, start: nat, j: nat)
    requires start <= j < |src| && StartsLine(src, pos.line, start) && Column(src, pos, start, j) == 0
    ensures exists k: nat :: start <= k <= j && StopsAt(src, pos, start, k)
    decreases j
  {
    hide StartsLine, Column;
    if i :| start <= i < j && Column(src, pos, start, i) == 0 {
      StopsBy(src, pos, start, i);
    } else {
      assert StopsAt(src, pos, start, j);
    }
  }

  /** A boundary whose line number fits comes back from its position, or gives none at the end of the text, exactly
      when no earlier boundary of its line has the same position. */
  lemma RoundTripIff(src: string, i: nat)
    requires i <= |src| && Newlines(src[..i]) < U32_SIZE
    ensures OffsetToPos(ByteLen(src[..i]), src).Some?
    ensures Offset(OffsetToPos(ByteLen(src[..i]), src).value, src) == (if i < |src| then Some(ByteLen(src[..i])) else None)
       <==> Distinct(src, i)
  {
    hide Newlines, SinceNewline, ByteLen, OffsetToPos, StartsLine, Column, StopsAt, Low32;
    PosIs(src, i);
    LineOf(src, i);
    var pos := OffsetToPos(ByteLen(src[..i]), src).value;
    var start := i - |SinceNewline(src[..i])|;
    if Distinct(src, i) {
      FoundOrNone(src, i, pos);
    } else {
      var j :| start <= j < i && ByteLen(src[j..i]) % U32_SIZE == 0;
      ColumnIs(src, i, j, pos);
      StopsBy(src, pos, start, j);
      var k: nat :| start <= k <= j && StopsAt(src, pos, start, k);
      assert PointsAt(src, pos, k);
      ByteLenMono(src, k, i);
    }
  }

  lemma FoundOrNone(src: string, i: nat, pos: Position)
    requires i <= |src| && Distinct(src, i) && StartsLine(src, pos.line, i - |SinceNewline(src[..i])|)
    requires pos.character == Low32(ByteLen(SinceNewline(src[..i])))
    ensures Offset(pos, src) == if i < |src| then Some(ByteLen(src[..i])) else None
  {
    hide Newlines, SinceNewline, ByteLen, StartsLine, Column, Low32;
    var start := i - |SinceNewline(src[..i])|;
    forall j | start <= j < i ensures Column(src, pos, start, j) != 0 {
      ColumnIs(src, i, j, pos);
    }
    if i < |src| {
      ColumnIs(src, i, i, pos);
      NothingBetween(src, i);
      assert StopsAt(src, pos, start, i);
      assert PointsAt(src, pos, i);
    } else {
      forall k: nat ensures !PointsAt(src, pos, k) {
        if PointsAt(src, pos, k) {
          var t: nat :| StopsAt(src, pos, t, k);
          StartUnique(src, pos.line, start, t);
        }
      }
    }
  }

  lemma NothingBetween(src: string, i: nat)
    requires i <= |src|
    ensures ByteLen(src[i..i]) == 0
  {
    assert src[i..i] == "";
  }

  /** A position whose numbers fit in 32 bits. */
  ghost predicate Representable(src: string, i: nat)
    requires i <= |src|
  {
    Newlines(src[..i]) < U32_SIZE && ByteLen(SinceNewline(src[..i])) < U32_SIZE
  }

  /** In a text below 2^32 bytes every position is representable. */
  lemma SmallText(src: string, i: nat)
    requires i <= |src| && ByteLen(src) < U32_SIZE
    ensures Representable(src, i)
  {
    hide ByteLen, Newlines, SinceNewline;
    var t := SinceNewline(src[..i]);
    SinceIs(src[..i]);
    assert t == src[i - |t|..i];
    ByteLenSplit(src, i - |t|, i);
    ByteLenSplit(src, i, |src|);
    assert src[..|src|] == src;
    NoNewlines(src[..i]);
  }

  /** Every representable boundary inside the text comes back from its position; the end of the text gives none. */
  lemma RoundTrip(src: string, i: nat)
    requires i <= |src| && Representable(src, i)
    ensures OffsetToPos(ByteLen(src[..i]), src).Some?
    ensures Offset(OffsetToPos(ByteLen(src[..i]), src).value, src) == if i < |src| then Some(ByteLen(src[..i])) else None
  {
    hide Newlines, SinceNewline, ByteLen, OffsetToPos, Offset;
    RoundTripIff(src, i);
    LineOf(src, i);
    forall j | i - |SinceNewline(src[..i])| <= j < i ensures ByteLen(src[j..i]) % U32_SIZE != 0 {
      ShortSegment(src, i - |SinceNewline(src[..i])|, j, i);
      SmallRemainder(ByteLen(src[j..i]));
    }
  }

  lemma SmallRemainder(n: nat)
    requires 0 < n < U32_SIZE
    ensures n % U32_SIZE != 0
  {
  }

  lemma ShortSegment(src: string, start: nat, j: nat, i: nat)
    requires start <= j < i <= |src|
    ensures 0 < ByteLen(src[j..i]) <= ByteLen(src[start..i])
  {
    hide ByteLen;
    ByteLenSplit(src, start, j);
    ByteLenSplit(src, start, i);
    ByteLenSplit(src, j, i);
  }

  /** Different boundaries with representable positions have different positions. */
  lemma PosInjective(src: string, i: nat, j: nat)
    requires i <= |src| && j <= |src| && Representable(src, i) && Representable(src, j)
    requires OffsetToPos(ByteLen(src[..i]), src) == OffsetToPos(ByteLen(src[..j]), src)
    ensures i == j
  {
    hide Newlines, SinceNewline, OffsetToPos, ByteLen, Offset;
    RoundTrip(src, i);
    RoundTrip(src, j);
    if i < |src| && j < |src| {
      assert src[0..i] == src[..i] && src[0..j] == src[..j];
      LengthDecides(src, 0, i, j);
    }
  }

  /** A position comes back from the offset it names exactly when its column is within its line. */
  lemma BackTrip(src: string, pos: Position, start: nat, k: nat)
    requires start <= k < |src| && StartsLine(src, pos.line, start) && ByteLen(src[start..k]) == pos.character
    requires Newlines(src[..k]) < U32_SIZE
    ensures OffsetToPos(ByteLen(src[..k]), src) == Some(pos)
       <==> pos.character <= ByteLen(src[start..start + FirstNewline(src[start..])])
  {
    hide Newlines, SinceNewline, ByteLen, OffsetToPos, StartsLine, FirstNewline, Low32;
    var end := start + FirstNewline(src[start..]);
    PosIs(src, k);
    LineNumber(src, pos.line, start);
    EndOfLine(src, start);
    if k <= end {
      SegmentMono(src, start, k, end);
      SameLine(src, start, k);
    } else {
      ShortSegment(src, start, end, k);
      ByteLenSplit(src, start, end);
      ByteLenSplit(src, start, k);
      ByteLenSplit(src, end, k);
      LineMovesOn(src, start, end, k);
    }
  }

  /** The first line feed from `start` on, and nothing but the line before it. */
  lemma EndOfLine(src: string, start: nat)
    requires start <= |src|
    ensures var end := start + FirstNewline(src[start..]);
            && end <= |src| && (end < |src| ==> src[end] == '\n')
            && forall k :: start <= k <= end ==> '\n' !in src[start..k]
  {
    var end := start + FirstNewline(src[start..]);
    forall k | start <= k <= end ensures '\n' !in src[start..k] {
      assert forall i :: 0 <= i < k - start ==> src[start..k][i] == src[start..][i];
    }
  }

  // ----- the scan -----

  /** The column falls inside a character. */
  ghost predicate InsideChar(src: string, pos: Position) {
    exists start: nat, k: nat :: SplitsChar(src, pos, start, k)
  }

  ghost predicate SplitsChar(src: string, pos: Position, start: nat, k: nat) {
    && start <= k < |src| && StartsLine(src, pos.line, start)
    && ByteLen(src[start..k]) < pos.character < ByteLen(src[start..k + 1])
  }

  /** How far the scan has come: it looks for line `pos.line`, or counts columns down from that line's start. */
  ghost predicate Scanned(src: string, pos: Position, i: nat, lines: u32, columns: u32, start: nat) {
    && i <= |src|
    && (lines > 0 ==> lines == pos.line - Newlines(src[..i]) && columns == pos.character)
    && (lines == 0 ==>
          && start <= i
          && StartsLine(src, pos.line, start)
          && columns == Column(src, pos, start, i)
          && (forall k :: start <= k < i ==> Column(src, pos, start, k) != 0))
  }

  /** The column has not been counted below zero. */
  ghost predicate NotBelow(src: string, pos: Position, i: nat, lines: u32, start: nat) {
    lines == 0 ==> start <= i <= |src| && ByteLen(src[start..i]) <= pos.character
  }

  /** Faults exactly when the build checks for overflow and the column falls inside a character. */
  method PositionToByteOffset(pos: Position, src: string, checked: bool) returns (r: Result<Option<nat>, Fault>)
    ensures r.Err? <==> checked && InsideChar(src, pos)
    ensures r.Ok? ==> r.value == Offset(pos, src)
  {
    hide Newlines, ByteLen, StartsLine, PointsAt, Scanned, Offset, NotBelow, InsideChar;
    var lines: u32, columns: u32 := pos.line, pos.character;
    ghost var start := 0;
    var idx := 0;
    ScanStarts(src, pos);
    for i := 0 to |src|
      invariant Scanned(src, pos, i, lines, columns, start) && idx == ByteLen(src[..i])
      invariant checked ==> NotBelow(src, pos, i, lines, start)
    {
      var c := src[i];
      if lines == 0 && columns == 0 {
        ScanFinds(src, pos, i, start);
        if checked { FoundWhole(src, pos, i, start); }
        return Ok(Some(idx));
      }
      if lines == 0 {
        if checked { Subtract(src, pos, i, columns, start); }
        if checked && columns < Width(c) { return Err(ColumnUnderflow); }
        ColumnStep(src, pos, i, columns, start);
        columns := (columns - Width(c)) % U32_SIZE;
      } else {
        LineStep(src, pos, i, lines, columns, start);
        if c == '\n' {
          lines := lines - 1;
          if lines == 0 { start := i + 1; }
        }
      }
      assert src[0..i] == src[..i] && src[0..i + 1] == src[..i + 1];
      ByteLenStep(src, 0, i);
      idx := idx + Width(c);
    }
    ScanEnds(src, pos, lines, columns, start);
    if checked { EndsWhole(src, pos, lines, columns, start); }
    r := Ok(None);
  }

  lemma ScanStarts(src: string, pos: Position)
    ensures Scanned(src, pos, 0, pos.line, pos.character, 0) && ByteLen(src[..0]) == 0
    ensures NotBelow(src, pos, 0, pos.line, 0)
  {
    assert src[..0] == "" && src[0..0] == "";
  }

  lemma ScanFinds(src: string, pos: Position, i: nat, start: nat)
    requires i < |src| && Scanned(src, pos, i, 0, 0, start)
    ensures Offset(pos, src) == Some(ByteLen(src[..i]))
  {
    hide Newlines, ByteLen, StartsLine, Offset, Column;
    assert StopsAt(src, pos, start, i);
    assert PointsAt(src, pos, i);
  }

  lemma SegmentMono(src: string, start: nat, j: nat, k: nat)
    requires start <= j <= k <= |src|
    ensures ByteLen(src[start..j]) <= ByteLen(src[start..k])
  {
    hide ByteLen;
    ByteLenSplit(src, start, j);
    ByteLenSplit(src, start, k);
    ByteLenSplit(src, j, k);
  }

  /** No character is split where the count has not gone below zero and is at zero, or at the end of the text. */
  lemma WholeSoFar(src: string, pos: Position, i: nat, start: nat)
    requires start <= i <= |src| && StartsLine(src, pos.line, start) && ByteLen(src[start..i]) <= pos.character
    requires i == |src| || ByteLen(src[start..i]) == pos.character
    ensures !InsideChar(src, pos)
  {
    hide ByteLen, StartsLine;
    forall t: nat, k: nat ensures !SplitsChar(src, pos, t, k) {
      if SplitsChar(src, pos, t, k) {
        StartUnique(src, pos.line, start, t);
        if k < i {
          SegmentMono(src, start, k + 1, i);
        } else {
          SegmentMono(src, start, i, k);
        }
      }
    }
  }

  /** The position of a boundary never falls inside a character. */
  lemma NoUnderflow(src: string, i: nat)
    requires i <= |src| && Representable(src, i)
    ensures OffsetToPos(ByteLen(src[..i]), src).Some? && !InsideChar(src, OffsetToPos(ByteLen(src[..i]), src).value)
  {
    hide ByteLen, StartsLine, Newlines, SinceNewline, InsideChar, OffsetToPos, Low32;
    PosIs(src, i);
    LineOf(src, i);
    WholeSoFar(src, OffsetToPos(ByteLen(src[..i]), src).value, i, i - |SinceNewline(src[..i])|);
  }

  lemma FoundWhole(src: string, pos: Position, i: nat, start: nat)
    requires i < |src| && Scanned(src, pos, i, 0, 0, start) && NotBelow(src, pos, i, 0, start)
    ensures !InsideChar(src, pos)
  {
    hide ByteLen, StartsLine, Newlines, InsideChar;
    WholeSoFar(src, pos, i, start);
  }

  /** One subtraction: it underflows exactly when the column falls inside the character. */
  lemma Subtract(src: string, pos: Position, i: nat, columns: u32, start: nat)
    requires i < |src| && Scanned(src, pos, i, 0, columns, start) && NotBelow(src, pos, i, 0, start) && columns > 0
    ensures columns < Width(src[i]) ==> InsideChar(src, pos)
    ensures columns >= Width(src[i]) ==> NotBelow(src, pos, i + 1, 0, start)
  {
    hide ByteLen, StartsLine, Newlines, Width, InsideChar;
    ByteLenStep(src, start, i);
    assert columns == pos.character - ByteLen(src[start..i]);
    if columns < Width(src[i]) {
      Splits(src, pos, start, i);
    }
  }

  lemma Splits(src: string, pos: Position, start: nat, k: nat)
    requires SplitsChar(src, pos, start, k)
    ensures InsideChar(src, pos)
  {
  }

  lemma ColumnStep(src: string, pos: Position, i: nat, columns: u32, start: nat)
    requires i < |src| && Scanned(src, pos, i, 0, columns, start) && columns > 0
    ensures Scanned(src, pos, i + 1, 0, (columns - Width(src[i])) % U32_SIZE, start)
  {
    hide ByteLen, Width, Newlines, StartsLine;
    ByteLenStep(src, start, i);
    WrapStep(pos.character, ByteLen(src[start..i]), Width(src[i]));
  }

  lemma WrapStep(c: int, n: int, w: int)
    ensures ((c - n) % U32_SIZE - w) % U32_SIZE == (c - (n + w)) % U32_SIZE
  {
  }

  lemma LineStep(src: string, pos: Position, i: nat, lines: u32, columns: u32, start: nat)
    requires i < |src| && Scanned(src, pos, i, lines, columns, start) && lines > 0
    ensures src[i] != '\n' ==> Scanned(src, pos, i + 1, lines, columns, start)
    ensures lines > 1 && src[i] == '\n' ==> Scanned(src, pos, i + 1, lines - 1, columns, start)
    ensures lines == 1 && src[i] == '\n' ==> Scanned(src, pos, i + 1, 0, columns, i + 1)
    ensures NotBelow(src, pos, i + 1, 0, i + 1) && NotBelow(src, pos, i + 1, lines, start)
    ensures lines > 1 ==> NotBelow(src, pos, i + 1, lines - 1, start)
  {
    hide ByteLen;
    assert src[..i + 1][..i] == src[..i];
    NothingBetween(src, i + 1);
  }

  lemma NoSuchLine(src: string, pos: Position, lines: u32, columns: u32, start: nat, s: nat)
    requires Scanned(src, pos, |src|, lines, columns, start) && lines > 0
    ensures !StartsLine(src, pos.line, s)
  {
    if StartsLine(src, pos.line, s) {
      assert src == src[..s] + src[s..] && src[..|src|] == src;
      NewlinesConcat(src[..s], src[s..]);
    }
  }

  lemma ScanEnds(src: string, pos: Position, lines: u32, columns: u32, start: nat)
    requires Scanned(src, pos, |src|, lines, columns, start)
    ensures Offset(pos, src) == None
  {
    hide ByteLen, Newlines, StartsLine, Offset, Column;
    forall k: nat ensures !PointsAt(src, pos, k) {
      if PointsAt(src, pos, k) {
        var s: nat :| StopsAt(src, pos, s, k);
        if lines == 0 {
          StartUnique(src, pos.line, s, start);
        } else {
          NoSuchLine(src, pos, lines, columns, start, s);
        }
      }
    }
  }

  lemma EndsWhole(src: string, pos: Position, lines: u32, columns: u32, start: nat)
    requires Scanned(src, pos, |src|, lines, columns, start) && NotBelow(src, pos, |src|, lines, start)
    ensures !InsideChar(src, pos)
  {
    hide ByteLen, Newlines, StartsLine, Column;
    if lines == 0 {
      WholeSoFar(src, pos, |src|, start);
    } else {
      forall t: nat, k: nat ensures !SplitsChar(src, pos, t, k) {
        NoSuchLine(src, pos, lines, columns, start, t);
      }
    }
  }
}
