/** The overlapping windows of words that passages are picked from. */
module Summarizer {
  import opened Wrappers
  import opened Bytes
  import opened Utf8
  import opened Offsets
  import opened Text

  // ----- whitespace -----

  /** The places of the whitespace characters, in order. */
  ghost function Spaces(t: string): (r: seq<nat>)
    ensures |r| <= |t|
  {
    if t == "" then []
    else Spaces(t[..|t| - 1]) + if IsWhitespace(t[|t| - 1]) then [|t| - 1] else []
  }

  lemma {:induction false} SpacesAre(t: string)
    ensures forall i :: 0 <= i < |Spaces(t)| ==> i <= Spaces(t)[i] < |t| && IsWhitespace(t[Spaces(t)[i]])
    ensures forall i, j :: 0 <= i < j < |Spaces(t)| ==> Spaces(t)[i] < Spaces(t)[j]
  {
    hide IsWhitespace;
    if t != "" {
      SpacesAre(t[..|t| - 1]);
    }
  }

  /** They are all of them. */
  lemma {:induction false} SpacesComplete(t: string, k: nat)
    requires k < |t| && IsWhitespace(t[k])
    ensures k in Spaces(t)
  {
    hide IsWhitespace;
    if k < |t| - 1 {
      SpacesComplete(t[..|t| - 1], k);
    }
  }

  /** The whitespace of a prefix is the whitespace that comes before its end. */
  lemma {:induction false} SpacesPrefix(t: string, c: nat)
    requires c <= |t|
    ensures Spaces(t[..c]) <= Spaces(t)
    ensures forall i :: 0 <= i < |Spaces(t)| ==> (i < |Spaces(t[..c])| <==> Spaces(t)[i] < c)
  {
    hide IsWhitespace;
    if c == |t| {
      assert t[..c] == t;
      SpacesAre(t);
    } else {
      assert t[..|t| - 1][..c] == t[..c];
      SpacesPrefix(t[..|t| - 1], c);
    }
  }

  lemma {:induction false} SpacesConcat(s: string, t: string)
    ensures |Spaces(s + t)| == |Spaces(s)| + |Spaces(t)|
  {
    hide IsWhitespace;
    if t == "" {
      assert s + t == s;
    } else {
      assert (s + t)[..|s + t| - 1] == s + t[..|t| - 1];
      SpacesConcat(s, t[..|t| - 1]);
    }
  }

  lemma FirstSpace(t: string, k: nat)
    requires k < |t| && IsWhitespace(t[k])
    ensures Spaces(t) != [] && Spaces(t)[0] <= k
  {
    hide IsWhitespace;
    SpacesPrefix(t, k + 1);
    assert t[..k + 1][..k] == t[..k];
    assert |Spaces(t[..k + 1])| > 0;
  }

  // ----- one window -----

  /** Where the window ends: at its last whitespace, or with the text. */
  ghost function EndOf(t: string, window: nat): nat
    requires window > 0
  {
    if |Spaces(t)| >= window then Spaces(t)[window - 1] else |t|
  }

  /** The whitespace after which the next window starts. */
  ghost function Cut(t: string, window: nat, overlap: nat): Option<nat>
    requires overlap < window
  {
    var taken := Min(|Spaces(t)|, window);
    var keep := Min(taken, overlap + 1);
    if window - keep < taken then Some(Spaces(t)[window - keep]) else None
  }

  /** The next window starts inside this one, or one whitespace after its end when nothing is to overlap. */
  lemma CutIs(t: string, window: nat, overlap: nat)
    requires overlap < window
    ensures var cut := Cut(t, window, overlap);
            && (cut.Some? ==>
                  && cut.value < |t|
                  && IsWhitespace(t[cut.value])
                  && cut.value <= EndOf(t, window)
                  && (overlap > 0 ==> cut.value < EndOf(t, window))
                  && (cut.value == 0 ==> overlap + 1 == window && |Spaces(t)| >= window))
            && (|Spaces(t)| >= window ==> cut == Some(Spaces(t)[window - overlap - 1]))
            && EndOf(t, window) <= |t|
            && (cut.None? ==> EndOf(t, window) == |t|)
  {
    hide IsWhitespace, Spaces;
    SpacesAre(t);
  }

  // ----- a whole run -----

  /** The windows from `at` on, as ranges of characters. */
  ghost function Windows(text: string, at: nat, window: nat, overlap: nat): seq<(nat, nat)>
    requires overlap < window && at <= |text|
    decreases |text| - at
  {
    if at == |text| then []
    else
      var t := text[at..];
      CutIs(t, window, overlap);
      [(at, at + EndOf(t, window))] +
      match Cut(t, window, overlap)
      case Some(p) => if p == 0 then [] else Windows(text, at + p + 1, window, overlap)
      case None => []
  }

  /** The windows after the first. */
  ghost function Rest(text: string, at: nat, window: nat, overlap: nat): seq<(nat, nat)>
    requires overlap < window && at < |text|
  {
    CutIs(text[at..], window, overlap);
    var cut := Cut(text[at..], window, overlap);
    if cut.Some? && cut.value > 0 then Windows(text, at + cut.value + 1, window, overlap) else []
  }

  lemma Unfold(text: string, at: nat, window: nat, overlap: nat)
    requires overlap < window && at < |text|
    ensures Windows(text, at, window, overlap)
         == [(at, at + EndOf(text[at..], window))] + Rest(text, at, window, overlap)
  {
    hide EndOf, Cut;
    CutIs(text[at..], window, overlap);
  }

  ghost predicate Covered(windows: seq<(nat, nat)>, q: nat) {
    exists i :: 0 <= i < |windows| && windows[i].0 <= q < windows[i].1
  }

  lemma CoveredCons(w: (nat, nat), windows: seq<(nat, nat)>, q: nat)
    ensures Covered([w] + windows, q) <==> w.0 <= q < w.1 || Covered(windows, q)
  {
    if Covered(windows, q) {
      var i :| 0 <= i < |windows| && windows[i].0 <= q < windows[i].1;
      assert ([w] + windows)[i + 1] == windows[i];
    }
    assert ([w] + windows)[0] == w;
  }

  /** A range of the text from `at` on, with at most `window` words. */
  ghost predicate IsWindow(text: string, at: nat, window: nat, w: (nat, nat)) {
    at <= w.0 <= w.1 <= |text| && |Spaces(text[w.0..w.1])| < window
  }

  ghost predicate Advancing(text: string, at: nat, window: nat, ws: seq<(nat, nat)>) {
    && (forall i :: 0 <= i < |ws| ==> IsWindow(text, at, window, ws[i]))
    && (forall i, j :: 0 <= i < j < |ws| ==> ws[i].0 < ws[j].0)
  }

  lemma AdvancingCons(text: string, at: nat, window: nat, w: (nat, nat), next: nat, ws: seq<(nat, nat)>)
    requires IsWindow(text, at, window, w) && w.0 == at < next && Advancing(text, next, window, ws)
    ensures Advancing(text, at, window, [w] + ws)
  {
    hide Spaces;
    var all := [w] + ws;
    forall i | 0 <= i < |all| ensures IsWindow(text, at, window, all[i]) && (i > 0 ==> at < all[i].0) {
      if i > 0 {
        assert all[i] == ws[i - 1] && IsWindow(text, next, window, ws[i - 1]);
      }
    }
  }

  /** Windows start later and later, and hold at most `window` words. */
  lemma {:induction false} WindowsAdvance(text: string, at: nat, window: nat, overlap: nat)
    requires overlap < window && at <= |text|
    ensures Advancing(text, at, window, Windows(text, at, window, overlap))
    decreases |text| - at
  {
    hide Spaces, EndOf, Cut, IsWindow, Windows;
    if at == |text| {
      assert Windows(text, at, window, overlap) == [] by { NoWindows(text, window, overlap); }
    } else {
      CutIs(text[at..], window, overlap);
      FirstWindow(text, at, window);
      Unfold(text, at, window, overlap);
      var cut := Cut(text[at..], window, overlap);
      var next := if cut.Some? && cut.value > 0 then at + cut.value + 1 else at + 1;
      if cut.Some? && cut.value > 0 {
        WindowsAdvance(text, next, window, overlap);
      }
      AdvancingCons(text, at, window, (at, at + EndOf(text[at..], window)), next, Rest(text, at, window, overlap));
    }
  }

  lemma NoWindows(text: string, window: nat, overlap: nat)
    requires overlap < window
    ensures Windows(text, |text|, window, overlap) == []
  {
  }

  lemma FirstWindow(text: string, at: nat, window: nat)
    requires window > 0 && at <= |text|
    ensures IsWindow(text, at, window, (at, at + EndOf(text[at..], window)))
  {
    hide Spaces, EndOf;
    var t := text[at..];
    WindowSize(t, window);
    assert text[at..at + EndOf(t, window)] == t[..EndOf(t, window)];
  }

  lemma WindowSize(t: string, window: nat)
    requires window > 0
    ensures EndOf(t, window) <= |t| && |Spaces(t[..EndOf(t, window)])| < window
  {
    hide Spaces;
    SpacesAre(t);
    var e := EndOf(t, window);
    SpacesPrefix(t, e);
    if |Spaces(t)| < window {
      assert t[..e] == t;
    }
  }

  // ----- which windows there are -----

  /** Window `i`, by the whitespace after its start: where it ends, whether another one follows, and where. */
  ghost predicate WindowIs(text: string, window: nat, overlap: nat, ws: seq<(nat, nat)>, i: nat)
    requires overlap < window && i < |ws| && ws[i].0 <= |text|
  {
    var spaces := Spaces(text[ws[i].0..]);
    var k := |spaces|;
    var m := window - Min(Min(k, window), overlap + 1);
    && ws[i].1 == (if k >= window then ws[i].0 + spaces[window - 1] else |text|)
    && (i + 1 < |ws| <==> m < Min(k, window) && spaces[m] > 0 && ws[i].0 + spaces[m] + 1 < |text|)
    && (i + 1 < |ws| ==> ws[i + 1].0 == ws[i].0 + spaces[m] + 1)
  }

  lemma FirstWindowIs(text: string, at: nat, window: nat, overlap: nat)
    requires overlap < window && at < |text|
    ensures var ws := Windows(text, at, window, overlap);
            ws != [] && ws[0].0 == at && WindowIs(text, window, overlap, ws, 0)
  {
    hide Spaces, IsWhitespace, Windows;
    Unfold(text, at, window, overlap);
    var t := text[at..];
    CutIs(t, window, overlap);
    var cut := Cut(t, window, overlap);
    if cut.Some? && cut.value > 0 {
      RestStarts(text, at + cut.value + 1, window, overlap);
      if at + cut.value + 1 == |text| {
        NoWindows(text, window, overlap);
      }
    }
  }

  /** Dropping the windows before `i` leaves the run from the start of window `i` on. */
  lemma {:induction false} RunFrom(text: string, at: nat, window: nat, overlap: nat, i: nat)
    requires overlap < window && at <= |text| && i < |Windows(text, at, window, overlap)|
    ensures var ws := Windows(text, at, window, overlap);
            at <= ws[i].0 < |text| && ws[i..] == Windows(text, ws[i].0, window, overlap)
    decreases |text| - at
  {
    hide Spaces, EndOf, Cut, Windows, IsWhitespace;
    if at == |text| {
      NoWindows(text, window, overlap);
    } else {
      Unfold(text, at, window, overlap);
      CutIs(text[at..], window, overlap);
      var ws := Windows(text, at, window, overlap);
      if i == 0 {
        assert ws[0..] == ws;
      } else {
        RunFrom(text, at + Cut(text[at..], window, overlap).value + 1, window, overlap, i - 1);
        assert ws[i..] == ws[1..][i - 1..];
      }
    }
  }

  /** The whole run, window by window. */
  lemma WindowsAre(text: string, window: nat, overlap: nat)
    requires overlap < window
    ensures var ws := Windows(text, 0, window, overlap);
            && (ws == [] <==> text == "")
            && (ws != [] ==> ws[0].0 == 0)
            && (forall i :: 0 <= i < |ws| ==> ws[i].0 <= |text| && WindowIs(text, window, overlap, ws, i))
  {
    hide Windows, WindowIs;
    var ws := Windows(text, 0, window, overlap);
    if text == "" {
      NoWindows(text, window, overlap);
    } else {
      FirstWindowIs(text, 0, window, overlap);
    }
    forall i | 0 <= i < |ws| ensures ws[i].0 <= |text| && WindowIs(text, window, overlap, ws, i) {
      RunFrom(text, 0, window, overlap, i);
      FirstWindowIs(text, ws[i].0, window, overlap);
      SuffixWindow(text, window, overlap, ws, i);
    }
  }

  lemma SuffixWindow(text: string, window: nat, overlap: nat, ws: seq<(nat, nat)>, i: nat)
    requires overlap < window && i < |ws| && ws[i].0 <= |text| && WindowIs(text, window, overlap, ws[i..], 0)
    ensures WindowIs(text, window, overlap, ws, i)
  {
    hide Spaces;
    assert i + 1 < |ws| ==> ws[i..][1] == ws[i + 1];
  }

  /** A double whitespace at `p`, or one at the start of the text, that is followed by a full window before `q`. */
  ghost predicate Lost(text: string, at: nat, window: nat, q: nat) {
    exists p :: 0 <= at <= p < q < |text| && Stops(text, at, window, p, q)
  }

  ghost predicate Stops(text: string, at: nat, window: nat, p: nat, q: nat)
    requires at <= p < q < |text|
  {
    IsWhitespace(text[p]) && (p == at || IsWhitespace(text[p - 1])) && |Spaces(text[p..q])| >= window
  }

  lemma WindowReached(t: string, window: nat, c: nat)
    requires window > 0 && c <= |t|
    ensures |Spaces(t[..c])| >= window <==> |Spaces(t)| >= window && Spaces(t)[window - 1] < c
  {
    hide Spaces;
    SpacesPrefix(t, c);
  }

  lemma LaterHasFewer(text: string, at: nat, p: nat, q: nat)
    requires at <= p <= q <= |text|
    ensures |Spaces(text[p..q])| <= |Spaces(text[at..q])|
  {
    hide Spaces;
    assert text[at..q] == text[at..p] + text[p..q];
    SpacesConcat(text[at..p], text[p..q]);
  }

  // ----- which words are covered -----

  /** One step of a run, for a character behind the first window. */
  lemma BehindWindow(text: string, at: nat, window: nat, overlap: nat, q: nat)
    requires overlap < window && at <= q < |text| && !IsWhitespace(text[q])
    requires at + EndOf(text[at..], window) <= q
    ensures var t := text[at..];
            && |Spaces(t)| >= window
            && Cut(t, window, overlap).Some?
            && at + Cut(t, window, overlap).value < q
            && |Spaces(text[at..q])| >= window
  {
    hide IsWhitespace, Spaces;
    var t := text[at..];
    SpacesAre(t);
    CutIs(t, window, overlap);
    assert t[q - at] == text[q];
    WindowReached(t, window, q - at);
    assert t[..q - at] == text[at..q];
  }

  lemma InsideWindow(text: string, at: nat, window: nat, q: nat)
    requires window > 0 && at <= q < |text| && q < at + EndOf(text[at..], window)
    ensures !Lost(text, at, window, q)
  {
    hide IsWhitespace, Spaces;
    var t := text[at..];
    WindowReached(t, window, q - at);
    assert t[..q - at] == text[at..q];
    if p :| 0 <= at <= p < q < |text| && Stops(text, at, window, p, q) {
      LaterHasFewer(text, at, p, q);
    }
  }

  /** Past the first whitespace, the same characters are lost. */
  lemma LostLater(text: string, at: nat, window: nat, q: nat)
    requires at <= q < |text| && Spaces(text[at..]) != [] && 0 < Spaces(text[at..])[0] < q - at
    ensures Lost(text, at, window, q) <==> Lost(text, at + Spaces(text[at..])[0] + 1, window, q)
  {
    hide IsWhitespace, Spaces;
    var t := text[at..];
    var next := at + Spaces(t)[0] + 1;
    SpacesAre(t);
    assert IsWhitespace(text[next - 1]);
    if p :| 0 <= at <= p < q < |text| && Stops(text, at, window, p, q) {
      assert t[p - at] == text[p];
      FirstSpace(t, p - at);
      if p != at {
        assert t[p - 1 - at] == text[p - 1];
        FirstSpace(t, p - 1 - at);
      }
      assert Stops(text, next, window, p, q);
    }
    if p :| 0 <= next <= p < q < |text| && Stops(text, next, window, p, q) {
      assert Stops(text, at, window, p, q);
    }
  }

  lemma LostHere(text: string, at: nat, window: nat, q: nat)
    requires at < q < |text| && IsWhitespace(text[at]) && |Spaces(text[at..q])| >= window
    ensures Lost(text, at, window, q)
  {
    assert Stops(text, at, window, at, q);
  }

  /** A word is in some window unless the overlap is one short of the window and a run of whitespace ends the run too early. */
  lemma {:induction false} CoveredIff(text: string, at: nat, window: nat, overlap: nat, q: nat)
    requires overlap < window && at <= q < |text| && !IsWhitespace(text[q])
    ensures Covered(Windows(text, at, window, overlap), q) <==> !(overlap + 1 == window && Lost(text, at, window, q))
    decreases |text| - at
  {
    hide IsWhitespace, Spaces, Lost, EndOf, Cut, Covered, Windows;
    Unfold(text, at, window, overlap);
    var t := text[at..];
    var w := (at, at + EndOf(t, window));
    CutIs(t, window, overlap);
    CoveredCons(w, Rest(text, at, window, overlap), q);
    if q < w.1 {
      InsideWindow(text, at, window, q);
    } else {
      BehindWindow(text, at, window, overlap, q);
      var p := Cut(t, window, overlap).value;
      if p == 0 {
        NoneCovered(q);
        assert text[at] == t[0];
        LostHere(text, at, window, q);
      } else {
        CoveredIff(text, at + p + 1, window, overlap, q);
        if overlap + 1 == window {
          LostLater(text, at, window, q);
        }
      }
    }
  }

  lemma NoneCovered(q: nat)
    ensures !Covered([], q)
  {
  }

  /** `q` is all that lies between two neighbouring windows, or between the last window and the end of the text. */
  ghost predicate Separator(text: string, windows: seq<(nat, nat)>, q: nat) {
    exists i :: SeparatesAt(text, windows, q, i)
  }

  ghost predicate SeparatesAt(text: string, windows: seq<(nat, nat)>, q: nat, i: int) {
    0 <= i < |windows| && windows[i].1 == q && (if i + 1 < |windows| then windows[i + 1].0 else |text|) == q + 1
  }

  lemma SeparatorCons(text: string, w: (nat, nat), windows: seq<(nat, nat)>, q: nat)
    requires Separator(text, windows, q)
    ensures Separator(text, [w] + windows, q)
  {
    var i :| SeparatesAt(text, windows, q, i);
    assert SeparatesAt(text, [w] + windows, q, i + 1);
  }

  lemma RestStarts(text: string, at: nat, window: nat, overlap: nat)
    requires overlap < window && at <= |text|
    ensures var ws := Windows(text, at, window, overlap);
            if ws == [] then at == |text| else ws[0].0 == at
  {
    hide EndOf, Cut;
    if at < |text| {
      Unfold(text, at, window, overlap);
    }
  }

  /** Short of the greatest overlap, the windows cover the text but for single separators, and with any overlap all of it. */
  lemma {:induction false} AllCovered(text: string, at: nat, window: nat, overlap: nat, q: nat)
    requires overlap + 1 < window && at <= q < |text|
    ensures var ws := Windows(text, at, window, overlap);
            Covered(ws, q) || (overlap == 0 && IsWhitespace(text[q]) && Separator(text, ws, q))
    decreases |text| - at
  {
    hide IsWhitespace, Spaces, EndOf, Cut, Covered, Windows, Separator;
    Unfold(text, at, window, overlap);
    var t := text[at..];
    var w, rest := (at, at + EndOf(t, window)), Rest(text, at, window, overlap);
    CutIs(t, window, overlap);
    CoveredCons(w, rest, q);
    if q >= w.1 {
      var next := at + Cut(t, window, overlap).value + 1;
      if q < next {
        RestStarts(text, next, window, overlap);
        assert text[q] == t[q - at];
        FirstSeparates(text, w, rest);
      } else {
        AllCovered(text, next, window, overlap, q);
        if Separator(text, rest, q) {
          SeparatorCons(text, w, rest, q);
        }
      }
    }
  }

  lemma FirstSeparates(text: string, w: (nat, nat), rest: seq<(nat, nat)>)
    requires (if rest == [] then |text| else rest[0].0) == w.1 + 1
    ensures Separator(text, [w] + rest, w.1)
  {
    assert SeparatesAt(text, [w] + rest, w.1, 0);
  }

  ghost predicate WordsCovered(text: string, window: nat, overlap: nat)
    requires overlap < window
  {
    forall q :: 0 <= q < |text| && !IsWhitespace(text[q]) ==> Covered(Windows(text, 0, window, overlap), q)
  }

  /** Exactly when every word is in some window. */
  lemma WordsCoveredIff(text: string, window: nat, overlap: nat)
    requires overlap < window
    ensures WordsCovered(text, window, overlap)
       <==> overlap + 1 < window || !exists q :: 0 <= q < |text| && !IsWhitespace(text[q]) && Lost(text, 0, window, q)
  {
    hide IsWhitespace, Lost, Windows, Covered;
    forall q | 0 <= q < |text| && !IsWhitespace(text[q])
      ensures Covered(Windows(text, 0, window, overlap), q) <==> !(overlap + 1 == window && Lost(text, 0, window, q))
    {
      CoveredIff(text, 0, window, overlap, q);
    }
  }

  /** A text that starts with a space, in windows of one word: nothing but an empty window comes out. */
  lemma LeadingSpaceLosesAll()
    ensures Windows(" a", 0, 1, 0) == [(0, 0)] && !WordsCovered(" a", 1, 0)
  {
    var text := " a";
    assert text[0..] == text && text[..1] == " " && text[..1][..0] == "";
    assert Spaces(" ") == [0];
    assert Spaces(text) == [0];
    assert !IsWhitespace(text[1]);
  }

  // ----- the iterator -----

  /** The queue holds the byte offsets of the last `overlap + 1` of the given places. */
  ghost predicate Queued(t: string, places: seq<nat>, overlap: nat, queue: seq<nat>) {
    && (forall i :: 0 <= i < |places| ==> places[i] <= |t|)
    && |queue| == Min(|places|, overlap + 1)
    && (forall k :: 0 <= k < |queue| ==> queue[k] == ByteLen(t[..places[|places| - |queue| + k]]))
  }

  lemma QueueStep(t: string, places: seq<nat>, overlap: nat, queue: seq<nat>, p: nat)
    requires Queued(t, places, overlap, queue) && p <= |t|
    ensures Queued(t, places + [p], overlap, (if |queue| > overlap then queue[1..] else queue) + [ByteLen(t[..p])])
  {
    hide ByteLen;
    var places', queue' := places + [p], (if |queue| > overlap then queue[1..] else queue) + [ByteLen(t[..p])];
    forall k | 0 <= k < |queue'| ensures queue'[k] == ByteLen(t[..places'[|places'| - |queue'| + k]]) {
      if k < |queue'| - 1 {
        var was := if |queue| > overlap then k + 1 else k;
        assert queue'[k] == queue[was] && places'[|places'| - |queue'| + k] == places[|places| - |queue| + was];
      }
    }
  }

  /** After as many pops as there are words missing, the front of the queue is the cut. */
  lemma FrontIsCut(t: string, window: nat, overlap: nat, queue: seq<nat>)
    requires overlap < window && Queued(t, Spaces(t)[..Min(|Spaces(t)|, window)], overlap, queue)
    ensures var rest := queue[Min(window - Min(|Spaces(t)|, window), |queue|)..];
            && (rest == [] <==> Cut(t, window, overlap).None?)
            && (rest != [] ==> Cut(t, window, overlap).value <= |t| && rest[0] == ByteLen(t[..Cut(t, window, overlap).value]))
  {
    hide ByteLen, Spaces;
  }

  /** A window of the text and its range in bytes. */
  datatype Passage = Passage(text: string, start: nat, end: nat)

  ghost function PassageOf(text: string, w: (nat, nat)): Passage
    requires w.0 <= w.1 <= |text|
  {
    Passage(text[w.0..w.1], ByteLen(text[..w.0]), ByteLen(text[..w.1]))
  }

  class OverlappingSents {
    var text: string
    const window: nat
    const overlap: nat
    var nextStart: seq<nat>
    var prevEnd: nat
    ghost const original: string
    ghost var at: nat

    ghost predicate Valid()
      reads this
    {
      && overlap < window
      && at <= |original|
      && text == original[at..]
      && (text != "" ==> prevEnd == ByteLen(original[..at]))
    }

    /** The windows still to come. */
    ghost function Remaining(): (ws: seq<(nat, nat)>)
      requires Valid()
      reads this
      ensures Advancing(original, at, window, ws)
    {
      WindowsAdvance(original, at, window, overlap);
      Windows(original, at, window, overlap)
    }

    constructor (text: string, window: nat, overlap: nat)
      requires overlap < window
      ensures Valid() && Remaining() == Windows(text, 0, window, overlap) && original == text
    {
      this.text, this.window, this.overlap := text, window, overlap;
      nextStart, prevEnd := [], 0;
      original, at := text, 0;
    }

    /** Collects the first `window` places of whitespace. */
    method Scan() returns (end: nat, missing: nat)
      requires Valid()
      modifies this`nextStart
      ensures var taken := Min(|Spaces(text)|, window);
              && missing == window - taken
              && Queued(text, Spaces(text)[..taken], overlap, nextStart)
              && (missing == 0 ==> end == ByteLen(text[..EndOf(text, window)]))
    {
      hide Spaces, ByteLen, Queued, IsWhitespace;
      end, missing := ByteLen(text), window;
      nextStart := [];
      ghost var seen: seq<nat> := [];
      var c, idx, i := 0, 0, 0;
      ScanStarts(text, overlap);
      while c < |text|
        invariant c <= |text| && seen == Spaces(text[..c]) && i == |seen| <= window
        invariant missing == window - i && idx == ByteLen(text[..c])
        invariant Queued(text, seen, overlap, nextStart)
        invariant i > 0 ==> seen[i - 1] <= |text| && end == ByteLen(text[..seen[i - 1]])
      {
        SpacesStep(text, c);
        if IsWhitespace(text[c]) {
          if i >= window { break; }
          missing := missing - 1;
          QueueStep(text, seen, overlap, nextStart, c);
          if |nextStart| > overlap {
            nextStart := nextStart[1..];
          }
          nextStart := nextStart + [idx];
          end := idx;
          i := i + 1;
          seen := seen + [c];
        }
        StepLen(text, c);
        idx := idx + Width(text[c]);
        c := c + 1;
      }
      assert c == |text| ==> text[..c] == text;
      SpacesPrefix(text, c);
      SpacesAre(text);
      assert Spaces(text)[..Min(|Spaces(text)|, window)] == seen;
    }

    method PopFronts(n: nat)
      modifies this`nextStart
      ensures nextStart == old(nextStart)[Min(n, |old(nextStart)|)..]
    {
      for popped := 0 to n
        invariant nextStart == old(nextStart)[Min(popped, |old(nextStart)|)..]
      {
        if nextStart != [] {
          nextStart := nextStart[1..];
        }
      }
    }

    method Next() returns (r: Option<Passage>)
      requires Valid()
      modifies this`text, this`nextStart, this`prevEnd, this`at
      ensures Valid()
      ensures old(Remaining()) == [] ==> r == None && Remaining() == []
      ensures old(Remaining()) != [] ==>
                && r == Some(PassageOf(original, old(Remaining())[0]))
                && Remaining() == old(Remaining())[1..]
    {
      hide Spaces, ByteLen, Queued, IsWhitespace, EndOf, Cut, Windows, Advancing, IndexAt;
      if text == "" {
        NoWindows(original, window, overlap);
        return None;
      }
      Unfold(original, at, window, overlap);
      CutIs(text, window, overlap);
      var end, missing := Scan();
      FrontIsCut(text, window, overlap, nextStart);
      if missing > 0 {
        assert EndOf(text, window) == |text| && text[..|text|] == text by { ShortEnd(text, window); }
        end := ByteLen(text);
        PopFronts(missing);
      }
      IndexAtComplete(text, EndOf(text, window));
      var res := text[..IndexAt(text, end).value];
      r := Some(Passage(res, prevEnd, prevEnd + end));
      PassageIs(original, at, EndOf(text, window));
      Advance(end);
    }

    /** Moves to the next window, if the queue has a start for it. */
    method Advance(end: nat)
      requires Valid() && text != ""
      requires nextStart == [] <==> Cut(text, window, overlap).None?
      requires nextStart != [] ==>
                 var p := Cut(text, window, overlap).value;
                 p < |text| && nextStart[0] == ByteLen(text[..p])
      modifies this`text, this`nextStart, this`prevEnd, this`at
      ensures Valid() && Remaining() == Rest(original, old(at), window, overlap)
    {
      hide Spaces, ByteLen, IsWhitespace, EndOf, Cut, Windows, Advancing, IndexAt;
      NoWindows(original, window, overlap);
      if nextStart != [] {
        var front := nextStart[0];
        nextStart := nextStart[1..];
        ghost var p := Cut(text, window, overlap).value;
        EmptyPrefix(text, p);
        if front == 0 {
          text, prevEnd, at := "", prevEnd + end, |original|;
        } else {
          var n := CeilCharBoundary(text, front + 1);
          CutMoves(original, at, p, n);
          text, prevEnd, at := text[IndexAt(text, n).value..], prevEnd + n, at + p + 1;
        }
      } else {
        text, prevEnd, at := "", prevEnd + end, |original|;
      }
    }
  }

  /** The boundary after the cut is where the next window starts. */
  lemma CutMoves(text: string, at: nat, p: nat, n: nat)
    requires at + p < |text|
    requires var t := text[at..];
             var front := ByteLen(t[..p]);
             front + 1 <= ByteLen(t) ==> front < n && IndexAt(t, n).Some? && forall k :: front + 1 <= k < n ==> IndexAt(t, k).None?
    ensures var t := text[at..];
            && IndexAt(t, n) == Some(p + 1)
            && t[p + 1..] == text[at + p + 1..]
            && ByteLen(text[..at + p + 1]) == ByteLen(text[..at]) + n
  {
    hide ByteLen, IndexAt;
    var t := text[at..];
    assert t[..|t|] == t;
    ByteLenMono(t, p, |t|);
    NextBoundary(t, p, n);
    assert t[..p + 1] == text[at..at + p + 1];
    ByteLenSplit(text, at, at + p + 1);
  }

  lemma ShortEnd(t: string, window: nat)
    requires window > 0 && |Spaces(t)| < window
    ensures EndOf(t, window) == |t|
  {
  }

  lemma EmptyPrefix(t: string, p: nat)
    requires p <= |t|
    ensures ByteLen(t[..p]) == 0 <==> p == 0
  {
    assert t[..0] == "";
  }

  lemma PassageIs(text: string, at: nat, len: nat)
    requires at + len <= |text|
    ensures PassageOf(text, (at, at + len))
         == Passage(text[at..][..len], ByteLen(text[..at]), ByteLen(text[..at]) + ByteLen(text[at..][..len]))
  {
    hide ByteLen;
    assert text[at..at + len] == text[at..][..len];
    ByteLenSplit(text, at, at + len);
  }

  lemma ScanStarts(t: string, overlap: nat)
    ensures Spaces(t[..0]) == [] && ByteLen(t[..0]) == 0 && Queued(t, [], overlap, [])
  {
    assert t[..0] == "";
  }

  lemma SpacesStep(t: string, c: nat)
    requires c < |t|
    ensures Spaces(t[..c + 1]) == Spaces(t[..c]) + if IsWhitespace(t[c]) then [c] else []
  {
    hide IsWhitespace;
    assert t[..c + 1][..c] == t[..c];
  }

  lemma StepLen(t: string, c: nat)
    requires c < |t|
    ensures ByteLen(t[..c + 1]) == ByteLen(t[..c]) + Width(t[c])
  {
    assert t[..c + 1][..c] == t[..c];
  }
}
