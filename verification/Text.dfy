/** The few string operations of Python that the modelled code leans on. */
module Text {

  /** `c.isspace()` */
  predicate IsSpace(c: char) {
    var n := c as int;
    || 0x09 <= n <= 0x0D || 0x1C <= n <= 0x20 || n == 0x85 || n == 0xA0
    || n == 0x1680 || 0x2000 <= n <= 0x200A || n == 0x2028 || n == 0x2029
    || n == 0x202F || n == 0x205F || n == 0x3000
  }

  /** The characters Python counts as white space. */
  lemma SpacesAre(c: char)
    ensures IsSpace(c) <==>
      c as int in {0x09, 0x0A, 0x0B, 0x0C, 0x0D, 0x1C, 0x1D, 0x1E, 0x1F, 0x20, 0x85, 0xA0, 0x1680,
                   0x2000, 0x2001, 0x2002, 0x2003, 0x2004, 0x2005, 0x2006, 0x2007, 0x2008, 0x2009, 0x200A,
                   0x2028, 0x2029, 0x202F, 0x205F, 0x3000}
  {
  }

  /** `s.lstrip()` */
  function StripLeft(s: string): string {
    if s != "" && IsSpace(s[0]) then StripLeft(s[1..]) else s
  }

  /** `s.rstrip()` */
  function StripRight(s: string): (r: string)
    ensures r <= s
    ensures r != "" ==> !IsSpace(r[|r| - 1])
    ensures forall i | |r| <= i < |s| :: IsSpace(s[i])
  {
    if s != "" && IsSpace(s[|s| - 1]) then StripRight(s[..|s| - 1]) else s
  }

  /** `s.strip()` */
  function Strip(s: string): string {
    StripRight(StripLeft(s))
  }

  /** Everything in the text that is not white space, in order. */
  function Ink(s: string): string {
    if s == "" then "" else (if IsSpace(s[0]) then "" else [s[0]]) + Ink(s[1..])
  }

  lemma {:induction false} InkAppend(a: string, b: string)
    ensures Ink(a + b) == Ink(a) + Ink(b)
  {
    if a == "" {
      assert a + b == b;
    } else {
      assert (a + b)[1..] == a[1..] + b;
      InkAppend(a[1..], b);
    }
  }

  lemma {:induction false} InkStripLeft(s: string)
    ensures Ink(StripLeft(s)) == Ink(s)
  {
    if s != "" && IsSpace(s[0]) {
      InkStripLeft(s[1..]);
    }
  }

  lemma {:induction false} InkStripRight(s: string)
    ensures Ink(StripRight(s)) == Ink(s)
  {
    if s != "" && IsSpace(s[|s| - 1]) {
      var front, last := s[..|s| - 1], s[|s| - 1];
      InkStripRight(front);
      InkAppend(front, [last]);
      assert s == front + [last];
    }
  }

  /** Stripping loses white space only. */
  lemma InkStrip(s: string)
    ensures Ink(Strip(s)) == Ink(s)
  {
    InkStripLeft(s);
    InkStripRight(StripLeft(s));
  }

  /** What stripping on the left drops, and where it stops. */
  lemma {:induction false} StripLeftDrops(s: string) returns (k: nat)
    ensures k <= |s| && StripLeft(s) == s[k..] && (forall i | 0 <= i < k :: IsSpace(s[i]))
    ensures k < |s| ==> !IsSpace(s[k])
  {
    if s != "" && IsSpace(s[0]) {
      var k' := StripLeftDrops(s[1..]);
      k := k' + 1;
      assert s[k..] == s[1..][k'..];
      assert forall i | 0 < i < k :: s[i] == s[1..][i - 1];
    } else {
      k := 0;
      assert s[0..] == s;
    }
  }

  /** Nothing is left exactly when there was nothing but white space; and what is
      left starts with no white space. */
  lemma StripLeaves(s: string)
    ensures Strip(s) == "" <==> forall i | 0 <= i < |s| :: IsSpace(s[i])
    ensures Strip(s) != "" ==> !IsSpace(Strip(s)[0])
  {
    var k := StripLeftDrops(s);
    var left := StripLeft(s);
    if k < |s| {
      assert left[0] == s[k] && 0 < |StripRight(left)|;
    }
  }

  // ---- Words --------------------------------------------------------------------------

  /** The length of the word the text starts with. */
  function WordEnd(s: string): (k: nat)
    ensures k <= |s| && (k < |s| ==> IsSpace(s[k]))
    ensures forall i | 0 <= i < k :: !IsSpace(s[i])
  {
    if s == "" || IsSpace(s[0]) then 0
    else
      var k := WordEnd(s[1..]);
      assert forall i | 0 < i < 1 + k :: s[i] == s[1..][i - 1];
      1 + k
  }

  /** `s.split()`: the maximal runs of characters that are not white space. */
  function Words(s: string): seq<string>
    decreases |s|
  {
    if s == "" then []
    else if IsSpace(s[0]) then Words(s[1..])
    else [s[..WordEnd(s)]] + Words(s[WordEnd(s)..])
  }

  lemma WordEndStays(a: string, b: string)
    requires b != "" && IsSpace(b[0])
    ensures WordEnd(a + b) == WordEnd(a)
  {
    var k, m, text := WordEnd(a), WordEnd(a + b), a + b;
    assert forall i | 0 <= i < |a| :: a[i] == text[i];
    assert text[|a|] == b[0];
  }

  /** White space between two texts keeps their words apart. */
  lemma {:induction false} WordsApart(a: string, c: char, b: string)
    requires IsSpace(c)
    ensures Words(a + ([c] + b)) == Words(a) + Words(b)
    decreases |a|
  {
    var tail := [c] + b;
    assert tail[1..] == b;
    if a == "" {
      assert a + tail == tail;
    } else if IsSpace(a[0]) {
      assert (a + tail)[1..] == a[1..] + tail;
      WordsApart(a[1..], c, b);
    } else {
      var k := WordEnd(a);
      WordEndStays(a, tail);
      assert (a + tail)[..k] == a[..k] && (a + tail)[k..] == a[k..] + tail;
      WordsApart(a[k..], c, b);
    }
  }

  lemma {:induction false} WordsStripLeft(s: string)
    ensures Words(StripLeft(s)) == Words(s)
  {
    if s != "" && IsSpace(s[0]) {
      WordsStripLeft(s[1..]);
    }
  }

  lemma {:induction false} WordsStripRight(s: string)
    ensures Words(StripRight(s)) == Words(s)
  {
    if s != "" && IsSpace(s[|s| - 1]) {
      var front, last := s[..|s| - 1], s[|s| - 1];
      WordsStripRight(front);
      WordsBeforeSpace(front, last);
      assert s == front + [last];
    }
  }

  lemma WordsBeforeSpace(s: string, c: char)
    requires IsSpace(c)
    ensures Words(s + [c]) == Words(s)
  {
    WordsApart(s, c, "");
    assert [c] + "" == [c];
  }

  /** Stripping loses no word. */
  lemma WordsStrip(s: string)
    ensures Words(Strip(s)) == Words(s)
  {
    WordsStripLeft(s);
    WordsStripRight(StripLeft(s));
  }

  /** The words of several texts, one after the other. */
  function WordsOf(texts: seq<string>): seq<string> {
    if texts == [] then [] else Words(texts[0]) + WordsOf(texts[1..])
  }

  /** `"".join(pieces)` */
  function Concat(pieces: seq<string>): string {
    if pieces == [] then "" else pieces[0] + Concat(pieces[1..])
  }

  /** `needle in text` */
  predicate Contains(text: string, needle: string) {
    exists i :: 0 <= i <= |text| && needle <= text[i..]
  }

  /** `c.lower()`, for the letters the code compares. */
  function LowerChar(c: char): char {
    if 'A' <= c <= 'Z' then (c as int + 32) as char else c
  }

  function Lower(s: string): string {
    seq(|s|, i requires 0 <= i < |s| => LowerChar(s[i]))
  }

  const CAPITALS := "ABCDEFGHIJKLMNOPQRSTUVWXYZ"
  const SMALLS := "abcdefghijklmnopqrstuvwxyz"

  /** Each capital is lowered to its own small letter, and nothing else changes. */
  lemma LettersAreLowered(c: char)
    ensures c !in CAPITALS ==> LowerChar(c) == c
    ensures forall i | 0 <= i < 26 :: LowerChar(CAPITALS[i]) == SMALLS[i]
  {
    assert forall i | 0 <= i < 26 :: CAPITALS[i] as int == 'A' as int + i;
    assert forall i | 0 <= i < 26 :: SMALLS[i] as int == 'a' as int + i;
    if 'A' <= c <= 'Z' {
      assert CAPITALS[c as int - 'A' as int] == c;
    }
  }

  /** `s.split(c)[0]` */
  function UpTo(s: string, c: char): (r: string)
    ensures r <= s && c !in r
    ensures |r| < |s| ==> s[|r|] == c
  {
    if s == "" || s[0] == c then "" else [s[0]] + UpTo(s[1..], c)
  }
}
