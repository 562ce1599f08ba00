/** Which sentence a marker stands in (sysadmin/ops_claims.py, `read_markers`,
    `_veiled`, `_unmarked`, `_anchor`, `_sentence_at`). */
module Sentences {
  import opened Text

  /** A half-open stretch of text: a code span, or a marker. */
  datatype Span = Span(start: nat, end: nat)

  predicate Covered(spans: seq<Span>, i: nat) {
    exists k :: 0 <= k < |spans| && spans[k].start <= i < spans[k].end
  }

  /** Every span replaced by blanks of its own length. */
  function Mask(text: string, spans: seq<Span>): (masked: string)
    ensures |masked| == |text|
    ensures forall i | 0 <= i < |text| :: masked[i] == if Covered(spans, i) then ' ' else text[i]
  {
    seq(|text|, i requires 0 <= i < |text| => if Covered(spans, i) then ' ' else text[i])
  }

  function Blanks(n: nat): string {
    seq(n, _ => ' ')
  }

  /** Masking one span blanks exactly the text between its ends. */
  lemma MaskOne(before: string, covered: string, after: string)
    ensures Mask(before + covered + after, [Span(|before|, |before| + |covered|)]) == before + Blanks(|covered|) + after
  {
    var text, spans := before + covered + after, [Span(|before|, |before| + |covered|)];
    var masked := before + Blanks(|covered|) + after;
    forall i | 0 <= i < |text| ensures Mask(text, spans)[i] == masked[i] {
      assert Covered(spans, i) <==> spans[0].start <= i < spans[0].end;
    }
  }

  /** And each further span is masked on its own. */
  lemma MaskMore(text: string, spans: seq<Span>, span: Span)
    ensures Mask(text, spans + [span]) == Mask(Mask(text, spans), [span])
  {
    forall i: nat | i < |text| ensures Covered(spans + [span], i) <==> Covered(spans, i) || Covered([span], i) {
      if k :| 0 <= k < |spans| && spans[k].start <= i < spans[k].end {
        assert (spans + [span])[k] == spans[k];
      }
      if Covered([span], i) {
        assert (spans + [span])[|spans|] == span;
      }
      if k :| 0 <= k < |spans + [span]| && (spans + [span])[k].start <= i < (spans + [span])[k].end {
        assert k < |spans| ==> spans[k] == (spans + [span])[k];
        assert k == |spans| ==> [span][0] == span;
      }
    }
  }

  // ---- Where sentences end -------------------------------------------------------------

  predicate Terminator(c: char) {
    c == '.' || c == '!' || c == '?'
  }

  /** Closing emphasis, brackets and quotes a terminator may carry. */
  predicate Closer(c: char) {
    c == '*' || c == '_' || c == ')' || c == ']' || c == '"' || c == '\'' || c as int == 0x2019 || c as int == 0x201D
  }

  predicate Closers(text: string, from_: nat, to: nat)
    requires to <= |text|
  {
    forall i | from_ <= i < to :: Closer(text[i])
  }

  /** A terminator at `i`, its closers, then white space or the end, at `j`. */
  predicate EndsAt(text: string, i: nat, j: nat) {
    && i < j <= |text| && Terminator(text[i]) && Closers(text, i + 1, j)
    && (j == |text| || IsSpace(text[j]))
  }

  predicate IsEnd(text: string, j: nat) {
    exists i :: 0 <= i < j && EndsAt(text, i, j)
  }

  const TERMINATORS := ".!?"
  const CLOSERS := "*_)]\"'\U{2019}\U{201D}"

  predicate AllIn(text: string, chars: string) {
    forall i | 0 <= i < |text| :: text[i] in chars
  }

  /** A sentence ends after a full stop, exclamation or question mark and any
      closing marks, where white space or nothing follows. */
  lemma EndsAfter(before: string, mark: char, closing: string, after: string)
    requires mark in TERMINATORS && AllIn(closing, CLOSERS) && (after == "" || IsSpace(after[0]))
    ensures IsEnd(before + [mark] + closing + after, |before| + 1 + |closing|)
  {
    var text, i, j := before + [mark] + closing + after, |before|, |before| + 1 + |closing|;
    ClosersAre();
    assert text[i] == mark;
    forall k | i + 1 <= k < j ensures Closer(text[k]) {
      assert text[k] == closing[k - i - 1];
    }
    assert j < |text| ==> text[j] == after[0];
    assert EndsAt(text, i, j);
  }

  /** And nowhere else. */
  lemma EndsOnlyAfter(text: string, j: nat)
    requires IsEnd(text, j)
    ensures exists i: nat :: i < j <= |text| && text[i] in TERMINATORS && AllIn(text[i + 1..j], CLOSERS)
    ensures j == |text| || (j < |text| && IsSpace(text[j]))
  {
    var i :| 0 <= i < j && EndsAt(text, i, j);
    ClosersAre();
    assert text[i] in TERMINATORS by {
      assert TERMINATORS[0] == '.' && TERMINATORS[1] == '!' && TERMINATORS[2] == '?';
    }
    var closing := text[i + 1..j];
    forall k | 0 <= k < |closing| ensures closing[k] in CLOSERS {
      assert Closer(text[i + 1 + k]);
    }
  }

  lemma ClosersAre()
    ensures forall c :: c in CLOSERS <==> Closer(c)
    ensures forall c :: c in TERMINATORS <==> Terminator(c)
  {
    assert CLOSERS[0] == '*' && CLOSERS[1] == '_' && CLOSERS[2] == ')' && CLOSERS[3] == ']' && CLOSERS[4] == '"';
    assert CLOSERS[5] == '\'' && CLOSERS[6] as int == 0x2019 && CLOSERS[7] as int == 0x201D && |CLOSERS| == 8;
    assert TERMINATORS[0] == '.' && TERMINATORS[1] == '!' && TERMINATORS[2] == '?' && |TERMINATORS| == 3;
  }

  function SkipClosers(text: string, i: nat): (j: nat)
    requires i <= |text|
    ensures i <= j <= |text| && Closers(text, i, j) && (j < |text| ==> !Closer(text[j]))
    decreases |text| - i
  {
    if i < |text| && Closer(text[i]) then SkipClosers(text, i + 1) else i
  }

  /** The matches of the sentence-end expression from `i` on, as a left-to-right
      scan finds them: their end positions. */
  function ScanEnds(text: string, i: nat): seq<nat>
    requires i <= |text|
    decreases |text| - i
  {
    if i == |text| then []
    else if Terminator(text[i]) then
      var j := SkipClosers(text, i + 1);
      if j == |text| || IsSpace(text[j]) then [j] + ScanEnds(text, j) else ScanEnds(text, i + 1)
    else ScanEnds(text, i + 1)
  }

  predicate Ascending(ends: seq<nat>) {
    forall a, b | 0 <= a < b < |ends| :: ends[a] < ends[b]
  }

  lemma {:induction false} ScanAscends(text: string, i: nat)
    requires i <= |text|
    ensures Ascending(ScanEnds(text, i))
    ensures forall k | 0 <= k < |ScanEnds(text, i)| :: i < ScanEnds(text, i)[k] <= |text|
    decreases |text| - i
  {
    if i < |text| {
      ScanAscends(text, i + 1);
      if Terminator(text[i]) {
        ScanAscends(text, SkipClosers(text, i + 1));
      }
    }
  }

  /** The scan finds every sentence end from `i` on, and nothing else. */
  lemma {:induction false} ScanIsComplete(text: string, i: nat, j: nat)
    requires i <= |text|
    ensures j in ScanEnds(text, i) <==> exists k :: i <= k < j && EndsAt(text, k, j)
    decreases |text| - i
  {
    if i < |text| {
      ScanIsComplete(text, i + 1, j);
      if Terminator(text[i]) {
        var stop := SkipClosers(text, i + 1);
        OneEnd(text, i, stop, j);
        if stop == |text| || IsSpace(text[stop]) {
          ScanIsComplete(text, stop, j);
          assert EndsAt(text, i, stop);
        }
      }
    }
  }

  /** From one terminator at most one end: where its closers stop.  No other
      terminator stands among them. */
  lemma OneEnd(text: string, i: nat, stop: nat, j: nat)
    requires i < stop <= |text| && Closers(text, i + 1, stop) && (stop < |text| ==> !Closer(text[stop]))
    ensures EndsAt(text, i, j) ==> j == stop
    ensures forall k | i < k < stop :: !Terminator(text[k])
  {
    forall k | i < k < stop
      ensures !IsSpace(text[k]) && !Terminator(text[k])
    {
      CloserFacts(text[k]);
    }
  }

  lemma CloserFacts(c: char)
    requires Closer(c)
    ensures !IsSpace(c) && !Terminator(c)
  {
  }

  // ---- The locator ------------------------------------------------------------------------

  /** `len(unmarked[:start].rstrip())`: past the last inked character before
      the marker. */
  function Anchor(unmarked: string, start: nat): (a: nat)
    requires start <= |unmarked|
    ensures a <= start
    ensures a > 0 ==> !IsSpace(unmarked[a - 1])
    ensures forall i | a <= i < start :: IsSpace(unmarked[i])
  {
    |StripRight(unmarked[..start])|
  }

  /** `max(end for end in ends if end < anchor)`, or 0. */
  function Begin(ends: seq<nat>, anchor: nat): (b: nat)
    ensures b == 0 || (b in ends && b < anchor)
    ensures forall e | e in ends && e < anchor :: e <= b
  {
    if ends == [] then 0
    else
      assert forall e | e in ends :: e == ends[0] || e in ends[1..];
      var b := Begin(ends[1..], anchor);
      if ends[0] < anchor && ends[0] > b then ends[0] else b
  }

  /** `min(end for end in ends if end >= anchor)`, or the length. */
  function Finish(ends: seq<nat>, anchor: nat, length: nat): (f: nat)
    requires forall e | e in ends :: e <= length
    ensures f == length || (f in ends && f >= anchor)
    ensures forall e | e in ends && e >= anchor :: f <= e
    ensures f <= length
  {
    if ends == [] then length
    else
      assert forall e :: e in ends <==> e == ends[0] || e in ends[1..];
      var f := Finish(ends[1..], anchor, length);
      if ends[0] >= anchor && ends[0] < f then ends[0] else f
  }

  /** The ends of the prose's sentences, found on the mask. */
  function EndsOf(prose: string, code: seq<Span>, markers: seq<Span>): (ends: seq<nat>)
    ensures Ascending(ends) && forall e | e in ends :: 0 < e <= |prose|
  {
    ScanAscends(Mask(Mask(prose, code), markers), 0);
    ScanEnds(Mask(Mask(prose, code), markers), 0)
  }

  function AnchorOf(prose: string, code: seq<Span>, markers: seq<Span>, k: nat): (a: nat)
    requires k < |markers| && markers[k].start <= |prose|
    ensures a <= markers[k].start
  {
    Anchor(Mask(Mask(prose, code), markers), markers[k].start)
  }

  /** The stretch of the prose that marker `k` gets. */
  function SentenceOf(prose: string, code: seq<Span>, markers: seq<Span>, k: nat): Span
    requires k < |markers| && markers[k].start <= |prose|
  {
    var ends, anchor := EndsOf(prose, code, markers), AnchorOf(prose, code, markers, k);
    Span(Begin(ends, anchor), Finish(ends, anchor, |prose|))
  }

  // ---- Sentences tile the prose ---------------------------------------------------------------

  /** The ends come in order within the bounds. */
  predicate Between(from_: nat, ends: seq<nat>, length: nat)
    decreases |ends|
  {
    ends == [] || (from_ <= ends[0] <= length && Between(ends[0], ends[1..], length))
  }

  lemma {:induction false} AscendingBetween(from_: nat, ends: seq<nat>, length: nat)
    requires Ascending(ends) && forall k | 0 <= k < |ends| :: from_ <= ends[k] <= length
    ensures Between(from_, ends, length)
    decreases |ends|
  {
    if ends != [] {
      AscendingBetween(ends[0], ends[1..], length);
    }
  }

  /** The stretches between consecutive cuts. */
  function Tiles(text: string, from_: nat, ends: seq<nat>): seq<string>
    requires from_ <= |text| && Between(from_, ends, |text|)
    decreases |ends|
  {
    if ends == [] then [text[from_..]]
    else
      [text[from_..ends[0]]] + Tiles(text, ends[0], ends[1..])
  }

  /** Ends computed on the mask cut the original prose into stretches that
      tile it: nothing lost, nothing twice. */
  lemma {:induction false} TilesTile(text: string, from_: nat, ends: seq<nat>)
    requires from_ <= |text| && Between(from_, ends, |text|)
    ensures Concat(Tiles(text, from_, ends)) == text[from_..]
    decreases |ends|
  {
    if ends == [] {
      var pieces := [text[from_..]];
      assert pieces[1..] == [];
      assert text[from_..] + "" == text[from_..];
    } else {
      TilesTile(text, ends[0], ends[1..]);
      var tiles := Tiles(text, from_, ends);
      assert tiles[1..] == Tiles(text, ends[0], ends[1..]);
      assert text[from_..] == text[from_..ends[0]] + text[ends[0]..];
    }
  }

  /** The whole of it, for any masks: the prose is its sentences. */
  lemma SentencesTileTheProse(prose: string, code: seq<Span>, markers: seq<Span>)
    ensures Between(0, EndsOf(prose, code, markers), |prose|)
    ensures Concat(Tiles(prose, 0, EndsOf(prose, code, markers))) == prose
  {
    var ends := EndsOf(prose, code, markers);
    assert forall k | 0 <= k < |ends| :: ends[k] in ends;
    AscendingBetween(0, ends, |prose|);
    TilesTile(prose, 0, EndsOf(prose, code, markers));
    assert prose[0..] == prose;
  }

  /** A marker's stretch is one tile: it lies between two consecutive cuts, and
      holds the position just before the marker's anchor. */
  lemma MarkerGetsOneTile(prose: string, code: seq<Span>, markers: seq<Span>, k: nat)
    requires k < |markers| && markers[k].start <= |prose|
    ensures var ends, s := EndsOf(prose, code, markers), SentenceOf(prose, code, markers, k);
      var anchor := AnchorOf(prose, code, markers, k);
      && s.start <= s.end <= |prose|
      && (s.start == 0 || s.start in ends) && (s.end == |prose| || s.end in ends)
      && (forall e | e in ends :: !(s.start < e < s.end))
      && (anchor > 0 ==> s.start < anchor <= s.end)
  {
  }

  /** Two markers share a sentence exactly when no sentence ends between their
      anchors. */
  lemma ShareExactlyWhenNoEndBetween(prose: string, code: seq<Span>, markers: seq<Span>, k: nat, m: nat)
    requires k < |markers| && m < |markers| && markers[k].start <= |prose| && markers[m].start <= |prose|
    requires AnchorOf(prose, code, markers, k) <= AnchorOf(prose, code, markers, m)
    ensures SentenceOf(prose, code, markers, k) == SentenceOf(prose, code, markers, m) <==>
      forall e | e in EndsOf(prose, code, markers) ::
        !(AnchorOf(prose, code, markers, k) <= e < AnchorOf(prose, code, markers, m))
  {
    SameStretch(EndsOf(prose, code, markers), AnchorOf(prose, code, markers, k),
                AnchorOf(prose, code, markers, m), |prose|);
  }

  lemma SameStretch(ends: seq<nat>, a: nat, b: nat, length: nat)
    requires a <= b <= length && forall e | e in ends :: 0 < e <= length
    ensures Begin(ends, a) == Begin(ends, b) && Finish(ends, a, length) == Finish(ends, b, length) <==>
      forall e | e in ends :: !(a <= e < b)
  {
    if e :| e in ends && a <= e < b {
      assert Begin(ends, b) >= e > 0;
      assert Begin(ends, a) == 0 || Begin(ends, a) < a;
    } else {
      assert forall e | e in ends :: (e < a <==> e < b) && (e >= a <==> e >= b);
    }
  }

  /** A marker written flush after a terminator gets the sentence that ends
      there, never the one after it. */
  lemma FlushMarkerClosesItsSentence(prose: string, code: seq<Span>, markers: seq<Span>, k: nat, i: nat)
    requires k < |markers| && markers[k].start < markers[k].end <= |prose|
    requires var unmarked, anchor := Mask(Mask(prose, code), markers), AnchorOf(prose, code, markers, k);
      i < anchor && Terminator(unmarked[i]) && Closers(unmarked, i + 1, anchor)
    ensures SentenceOf(prose, code, markers, k).end == AnchorOf(prose, code, markers, k)
    ensures SentenceOf(prose, code, markers, k).start <= i
  {
    var unmarked, anchor := Mask(Mask(prose, code), markers), AnchorOf(prose, code, markers, k);
    assert Covered(markers, markers[k].start);
    assert unmarked[markers[k].start] == ' ';
    assert EndsAt(unmarked, i, anchor);
    ScanIsComplete(unmarked, 0, anchor);
    var start := Begin(EndsOf(prose, code, markers), anchor);
    if start > 0 {
      ScanIsComplete(unmarked, 0, start);
      NoEndAmongClosers(unmarked, i, anchor, start);
    }
  }

  /** Between a terminator and the last of its closers nothing ends. */
  lemma NoEndAmongClosers(text: string, i: nat, stop: nat, e: nat)
    requires i < stop <= |text| && Terminator(text[i]) && Closers(text, i + 1, stop) && e < stop
    requires IsEnd(text, e)
    ensures e <= i
  {
    forall k | i < k < stop
      ensures !IsSpace(text[k])
    {
      CloserFacts(text[k]);
    }
  }

  /** A marker that follows another with nothing but blanks between them gets
      the same sentence. */
  lemma MarkersInARow(prose: string, code: seq<Span>, markers: seq<Span>, k: nat, m: nat)
    requires k < |markers| && m < |markers| && markers[k].start <= markers[m].start <= |prose|
    requires var unmarked := Mask(Mask(prose, code), markers);
      forall i | markers[k].start <= i < markers[m].start :: IsSpace(unmarked[i])
    ensures SentenceOf(prose, code, markers, k) == SentenceOf(prose, code, markers, m)
  {
    assert AnchorOf(prose, code, markers, k) == AnchorOf(prose, code, markers, m);
  }
}
