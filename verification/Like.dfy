/** `like_matches` of sysadmin/ops_claims.py: SQL `LIKE` without an escape
    character, run as a fully anchored dot-all regular expression. */
module Like {
  import opened Ordering
  import opened Text

  // ---- LIKE, as SQL-92 defines it (section 8.5) --------------------------------------

  /** Any substring for `%`, a single character for `_`, and for any other
      character itself. */
  predicate Fits(c: char, piece: string) {
    if c == '%' then true else if c == '_' then |piece| == 1 else piece == [c]
  }

  /** The title falls into one fitting substring per pattern character. */
  predicate Divides(pattern: string, title: string, pieces: seq<string>) {
    && |pieces| == |pattern|
    && Concat(pieces) == title
    && forall i | 0 <= i < |pattern| :: Fits(pattern[i], pieces[i])
  }

  ghost predicate Like(pattern: string, title: string) {
    exists pieces :: Divides(pattern, title, pieces)
  }

  /** The usual recursive reading. */
  predicate LikeRec(pattern: string, title: string)
    decreases |pattern| + |title|
  {
    if pattern == "" then title == ""
    else if pattern[0] == '%' then LikeRec(pattern[1..], title) || (title != "" && LikeRec(pattern, title[1..]))
    else title != "" && (pattern[0] == '_' || pattern[0] == title[0]) && LikeRec(pattern[1..], title[1..])
  }

  lemma {:induction false} DividesRec(pattern: string, title: string, pieces: seq<string>)
    requires Divides(pattern, title, pieces)
    ensures LikeRec(pattern, title)
    decreases |pattern| + |title|
  {
    if pattern != "" {
      assert Fits(pattern[0], pieces[0]);
      if pieces[0] == "" {
        DividesRec(pattern[1..], title, pieces[1..]);
      } else if pattern[0] == '%' {
        var shorter := [pieces[0][1..]] + pieces[1..];
        assert shorter[1..] == pieces[1..];
        assert title[1..] == Concat(shorter);
        DividesRec(pattern, title[1..], shorter);
      } else {
        assert title[1..] == Concat(pieces[1..]);
        DividesRec(pattern[1..], title[1..], pieces[1..]);
      }
    }
  }

  lemma {:induction false} RecDivides(pattern: string, title: string) returns (pieces: seq<string>)
    requires LikeRec(pattern, title)
    ensures Divides(pattern, title, pieces)
    decreases |pattern| + |title|
  {
    if pattern == "" {
      pieces := [];
    } else if pattern[0] == '%' && LikeRec(pattern[1..], title) {
      var rest := RecDivides(pattern[1..], title);
      pieces := [""] + rest;
      assert pieces[1..] == rest;
    } else if pattern[0] == '%' {
      var shorter := RecDivides(pattern, title[1..]);
      pieces := [[title[0]] + shorter[0]] + shorter[1..];
      assert pieces[1..] == shorter[1..];
      assert title == [title[0]] + title[1..];
    } else {
      var rest := RecDivides(pattern[1..], title[1..]);
      pieces := [[title[0]]] + rest;
      assert pieces[1..] == rest;
    }
  }

  // ---- The regular expression --------------------------------------------------------

  datatype Atom = AnyChar | Lit(c: char)
  datatype Item = One(atom: Atom) | Star(atom: Atom)

  /** The characters `re.escape` puts a backslash before. */
  predicate Special(c: char) {
    c in "()[]{}?*+-|^$\\.&~# \t\n\r" || c as int == 0x0B || c as int == 0x0C
  }

  function Escape(c: char): string {
    if Special(c) then ['\\', c] else [c]
  }

  /** One pattern character at a time, joined. */
  function Translate(pattern: string): string {
    if pattern == "" then ""
    else
      (if pattern[0] == '%' then ".*" else if pattern[0] == '_' then "." else Escape(pattern[0])) +
      Translate(pattern[1..])
  }

  /** How such a text reads as a regular expression: a dot, an escaped
      character or an ordinary one, each repeated if a star follows.  Anything
      else would be some other operator. */
  function ReadRegex(text: string): Option<seq<Item>> {
    if text == "" then Some([])
    else
      var escaped := text[0] == '\\';
      if (escaped && (|text| < 2 || !Special(text[1]))) || (!escaped && text[0] != '.' && Special(text[0])) then None
      else
        var atom := if escaped then Lit(text[1]) else if text[0] == '.' then AnyChar else Lit(text[0]);
        var rest := if escaped then text[2..] else text[1..];
        var starred := rest != "" && rest[0] == '*';
        var items := ReadRegex(if starred then rest[1..] else rest);
        if items.None? then None else Some([if starred then Star(atom) else One(atom)] + items.value)
  }

  predicate AtomMatches(atom: Atom, c: char, dotAll: bool) {
    match atom
    case AnyChar => dotAll || c != '\n'
    case Lit(l) => l == c
  }

  /** `re.fullmatch`: the items match the whole text, one after the other. */
  ghost predicate FullMatch(items: seq<Item>, text: string, dotAll: bool)
    decreases |items|
  {
    if items == [] then text == ""
    else
      match items[0]
      case One(atom) => text != "" && AtomMatches(atom, text[0], dotAll) && FullMatch(items[1..], text[1..], dotAll)
      case Star(atom) =>
        exists k :: 0 <= k <= |text| && (forall i | 0 <= i < k :: AtomMatches(atom, text[i], dotAll))
                    && FullMatch(items[1..], text[k..], dotAll)
  }

  ghost predicate RegexMatches(regex: string, title: string, dotAll: bool) {
    ReadRegex(regex).Some? && FullMatch(ReadRegex(regex).value, title, dotAll)
  }

  // ---- The translation preserves meaning -----------------------------------------------

  function Items(pattern: string): seq<Item> {
    if pattern == "" then []
    else
      [if pattern[0] == '%' then Star(AnyChar) else One(if pattern[0] == '_' then AnyChar else Lit(pattern[0]))] +
      Items(pattern[1..])
  }

  /** Joining the pieces creates no operator: the text reads back as exactly
      one item per pattern character, whatever the characters are. */
  lemma {:induction false} TranslationReadsBack(pattern: string)
    ensures ReadRegex(Translate(pattern)) == Some(Items(pattern))
  {
    if pattern != "" {
      var rest := Translate(pattern[1..]);
      TranslationReadsBack(pattern[1..]);
      NoLeadingStar(pattern[1..]);
      var text := Translate(pattern);
      if pattern[0] == '%' {
        assert text[1..] == ['*'] + rest && text[1..][1..] == rest;
      } else if pattern[0] == '_' || !Special(pattern[0]) {
        assert text[1..] == rest;
      } else {
        assert text[2..] == rest;
      }
    }
  }

  lemma NoLeadingStar(pattern: string)
    ensures Translate(pattern) != "" ==> Translate(pattern)[0] != '*'
  {
  }

  lemma {:induction false} ItemsMatchLike(pattern: string, title: string)
    ensures FullMatch(Items(pattern), title, true) <==> LikeRec(pattern, title)
    decreases |pattern| + |title|
  {
    if pattern != "" {
      var items, rest := Items(pattern), Items(pattern[1..]);
      assert items[1..] == rest;
      if pattern[0] == '%' {
        StarSteps(rest, title);
        assert [Star(AnyChar)] + rest == items;
        ItemsMatchLike(pattern[1..], title);
        if title != "" {
          ItemsMatchLike(pattern, title[1..]);
        }
      } else if title != "" {
        ItemsMatchLike(pattern[1..], title[1..]);
      }
    }
  }

  /** A leading `.*` matches nothing, or one character and then as before. */
  lemma StarSteps(rest: seq<Item>, title: string)
    ensures var items := [Star(AnyChar)] + rest;
      FullMatch(items, title, true) <==>
        FullMatch(rest, title, true) || (title != "" && FullMatch(items, title[1..], true))
  {
    var items := [Star(AnyChar)] + rest;
    assert items[1..] == rest && title[0..] == title;
    if FullMatch(items, title, true) {
      var k :| 0 <= k <= |title| && (forall i | 0 <= i < k :: AtomMatches(AnyChar, title[i], true))
            && FullMatch(rest, title[k..], true);
      if k > 0 {
        assert title[1..][k - 1..] == title[k..];
      }
    }
    if title != "" && FullMatch(items, title[1..], true) {
      var k :| 0 <= k <= |title[1..]| && (forall i | 0 <= i < k :: AtomMatches(AnyChar, title[1..][i], true))
        && FullMatch(rest, title[1..][k..], true);
      assert title[1..][k..] == title[k + 1..];
    }
  }

  /** `like_matches` agrees with LIKE on every pattern and every title. */
  lemma LikeMatches(pattern: string, title: string)
    ensures RegexMatches(Translate(pattern), title, true) <==> Like(pattern, title)
    ensures LikeRec(pattern, title) <==> Like(pattern, title)
  {
    TranslationReadsBack(pattern);
    ItemsMatchLike(pattern, title);
    if LikeRec(pattern, title) {
      var pieces := RecDivides(pattern, title);
    }
    if pieces :| Divides(pattern, title, pieces) {
      DividesRec(pattern, title, pieces);
    }
  }

  /** The flag is needed: without dot-all, `%` would refuse a title holding a
      line break, which LIKE accepts. */
  lemma WithoutDotAll()
    ensures Like("%", "\n") && !RegexMatches(Translate("%"), "\n", false)
  {
    assert Concat(["\n"]) == "\n";
    assert Divides("%", "\n", ["\n"]);
    TranslationReadsBack("%");
    var items := Items("%");
    assert items == [Star(AnyChar)] && items[1..] == [];
    forall k | 0 <= k <= 1
      ensures !((forall i | 0 <= i < k :: AtomMatches(AnyChar, "\n"[i], false))
                && FullMatch(items[1..], "\n"[k..], false))
    {
      if k == 1 {
        assert !AtomMatches(AnyChar, "\n"[0], false);
      }
    }
  }
}
