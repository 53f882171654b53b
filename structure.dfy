/** `section`, `title`, `document` and `corpus` of parse.py: sentences joined
    into sections, sections and a title line into documents, documents into
    the corpus. */
module Structure {
  import opened Text
  import opened Lexical
  import opened Tokens
  import opened Sentences

  // Sections.

  /** The second alternative of the sentence delimiter:
      `Opt(token_space) + '....' + Opt(token_space)`, its text kept. */
  function FourDotsDelim(s: string, p: nat): (r: Option<Parsed<string>>)
    requires p <= |s|
    ensures r.Some? <==> FourDotsAt(s, EndOr(TokenSpace(s, p), p))
    ensures r.Some? ==> p + 4 <= r.value.end <= |s|
  {
    var a := TokenSpace(s, p);
    var q := EndOr(a, p);
    if FourDotsAt(s, q) then
      var b := TokenSpace(s, q + 4);
      Some(Parsed(TextOr(a) + "...." + TextOr(b), EndOr(b, q + 4)))
    else None
  }

  /** The sentence delimiter: a token space, else the four-dot form. */
  function SentenceDelim(s: string, p: nat): (r: Option<Parsed<string>>)
    requires p <= |s|
    ensures r.Some? ==> p < r.value.end <= |s|
  {
    match TokenSpace(s, p)
    case Some(sp) => Some(sp)
    case None => FourDotsDelim(s, p)
  }

  /** The text of the four-dot form where no token space starts: the dots,
      then what a token space after them keeps. */
  lemma FourDotsDelimText(s: string, p: nat)
    requires p <= |s| && TokenSpace(s, p).None? && FourDotsAt(s, p)
    ensures FourDotsDelim(s, p) ==
      Some(Parsed("...." + TextOr(TokenSpace(s, p + 4)), EndOr(TokenSpace(s, p + 4), p + 4)))
  {
    var b := TokenSpace(s, p + 4);
    assert FourDotsDelim(s, p) ==
      Some(Parsed(TextOr(TokenSpace(s, p)) + "...." + TextOr(b), EndOr(b, p + 4)));
    EmptyJoins("....");
  }

  /** The four-dot form is tried only where no token space starts, so its
      leading optional token space never matches: the delimiter is a token
      space, or the four dots themselves start where it does. */
  lemma SentenceDelimCases(s: string, p: nat)
    requires p <= |s|
    ensures SentenceDelim(s, p).Some? <==> TokenSpace(s, p).Some? || FourDotsAt(s, p)
    ensures TokenSpace(s, p).None? && FourDotsAt(s, p) ==>
      SentenceDelim(s, p).value.value[..4] == "...."
  {
    if TokenSpace(s, p).None? && FourDotsAt(s, p) {
      FourDotsDelimText(s, p);
      var v := "...." + TextOr(TokenSpace(s, p + 4));
      assert v[..4] == "....";
    }
  }

  /** A delimiter holds no line break and no letter, in its text or in the
      input it consumed. */
  lemma SentenceDelimText(s: string, p: nat)
    requires p <= |s|
    ensures var r := SentenceDelim(s, p);
      r.Some? ==>
        && AllIn(r.value.value, Inline) && Letters(r.value.value) == ""
        && Letters(s[p..r.value.end]) == ""
  {
    TokenSpaceText(s, p);
    if TokenSpace(s, p).None? && FourDotsAt(s, p) {
      var b := TokenSpace(s, p + 4);
      var e := EndOr(b, p + 4);
      TokenSpaceText(s, p + 4);
      EllipsisText(s, p);
      assert AllIn("....", Punct);
      InlineClass("....", Punct);
      LettersOfLayout("....");
      assert s[p..p + 4] == "....";
      AllInConcat("....", TextOr(b), Inline);
      LettersConcat("....", TextOr(b));
      LettersSlices(s, p, p + 4, e);
      FourDotsDelimText(s, p);
    }
  }

  /** Four dots, then input whose line breaks removed give `t`. */
  lemma FourDotsUnbreak(s: string, p: nat, e: nat, t: string)
    requires FourDotsAt(s, p) && p + 4 <= e <= |s| && t == Unbreak(s[p + 4..e])
    ensures "...." + t == Unbreak(s[p..e])
  {
    EllipsisText(s, p);
    assert s[p..p + 4] == "....";
    assert AllIn("....", Punct);
    InlineClass("....", Punct);
    UnbreakInline("....", "");
    assert InkBefore(s, p + 4);
    UnbreakSlices(s, p, p + 4, e);
  }

  /** A delimiter's text is exactly the input it consumed with its line
      breaks removed. */
  lemma SentenceDelimUnbreak(s: string, p: nat)
    requires p <= |s|
    ensures var r := SentenceDelim(s, p);
      r.Some? ==> r.value.value == Unbreak(s[p..r.value.end])
  {
    TokenSpaceUnbreak(s, p);
    if TokenSpace(s, p).None? && FourDotsAt(s, p) {
      FourDotsDelimText(s, p);
      OptTokenSpaceUnbreak(s, p + 4);
      FourDotsUnbreak(s, p, EndOr(TokenSpace(s, p + 4), p + 4), TextOr(TokenSpace(s, p + 4)));
    }
  }

  /** The repeated part of the sentence list: greedy `(delimiter + sentence)*`,
      delimiters kept. */
  function MoreSentences(s: string, p: nat): (r: Parsed<string>)
    requires p <= |s|
    ensures p <= r.end <= |s|
    ensures r.end == p || InkBefore(s, r.end)
    decreases |s| - p, 1
  {
    match SentenceDelim(s, p)
    case None => Parsed("", p)
    case Some(d) => MoreSentencesFrom(s, p, d)
  }

  /** One iteration after its delimiter `d` matched at `p`: when no sentence
      follows, the cursor goes back to `p`, before the delimiter; otherwise
      it ends on the last character of a sentence, never on whitespace. */
  function MoreSentencesFrom(s: string, p: nat, d: Parsed<string>): (r: Parsed<string>)
    requires p < d.end <= |s|
    ensures p <= r.end <= |s|
    ensures r.end == p || (p < r.end && InkBefore(s, r.end))
    decreases |s| - p, 0
  {
    match Sentence(s, d.end)
    case None => Parsed("", p)
    case Some(x) =>
      SentenceEdges(s, d.end);
      var rest := MoreSentences(s, x.end);
      Parsed(d.value + x.value + rest.value, rest.end)
  }

  /** The repetition is greedy: where it stops, no delimiter followed by a
      sentence starts. */
  lemma {:induction false} MoreSentencesStop(s: string, p: nat)
    requires p <= |s|
    ensures var e := MoreSentences(s, p).end;
      SentenceDelim(s, e).None? || Sentence(s, SentenceDelim(s, e).value.end).None?
    decreases |s| - p
  {
    var d := SentenceDelim(s, p);
    if d.Some? {
      var f := MoreSentencesFrom(s, p, d.value);
      assert MoreSentences(s, p).end == f.end;
      if Sentence(s, d.value.end).Some? {
        var x := Sentence(s, d.value.end).value;
        MoreSentencesStop(s, x.end);
        assert f.end == MoreSentences(s, x.end).end;
      } else {
        assert f.end == p;
      }
    }
  }

  /** The text of the repetition holds no line break and exactly the letters
      of the input it consumed; once the marks are removed from both, it is
      that input with its line breaks removed. */
  lemma {:induction false} MoreSentencesText(s: string, p: nat)
    requires p <= |s|
    ensures var r := MoreSentences(s, p);
      && AllIn(r.value, Inline) && Letters(r.value) == Letters(s[p..r.end])
      && StripPunct(r.value) == StripPunct(Unbreak(s[p..r.end]))
    decreases |s| - p
  {
    assert s[p..p] == [];
    var d := SentenceDelim(s, p);
    if d.Some? {
      var f := MoreSentencesFrom(s, p, d.value);
      assert MoreSentences(s, p) == f;
      var a := d.value.end;
      if Sentence(s, a).Some? {
        var x := Sentence(s, a).value;
        var rest := MoreSentences(s, x.end);
        assert f.value == d.value.value + x.value + rest.value && f.end == rest.end;
        MoreSentencesText(s, x.end);
        SentenceDelimText(s, p);
        SentenceText(s, a);
        AllInConcat(d.value.value, x.value, Inline);
        AllInConcat(d.value.value + x.value, rest.value, Inline);
        LettersConcat(d.value.value, x.value);
        LettersConcat(d.value.value + x.value, rest.value);
        LettersSlices(s, p, a, x.end);
        LettersSlices(s, p, x.end, rest.end);
        SentenceDelimUnbreak(s, p);
        SentenceEdges(s, a);
        UnbreakStrip3(s, p, a, x.end, rest.end, d.value.value, x.value, rest.value);
      } else {
        assert f.value == "" && f.end == p;
      }
    }
  }

  /** Exactly what each iteration keeps: its sentence's text, verbatim,
      after its delimiter, which is the input with any line break removed,
      four dots included. An iteration whose delimiter no sentence follows
      consumes nothing. */
  lemma MoreSentencesExact(s: string, p: nat)
    requires p <= |s|
    ensures var d := SentenceDelim(s, p);
      var r := MoreSentences(s, p);
      if d.Some? && Sentence(s, d.value.end).Some? then
        var a := d.value.end;
        var x := Sentence(s, a).value;
        var rest := MoreSentences(s, x.end);
        r == Parsed(Unbreak(s[p..a]) + x.value + rest.value, rest.end)
      else r == Parsed("", p)
  {
    SentenceDelimUnbreak(s, p);
  }

  /** `delimited_list(sentence, delim=..., combine=True)`: one or more
      sentences and the delimiters between them, as one string. */
  function SentenceList(s: string, p: nat): (r: Option<Parsed<string>>)
    requires p <= |s|
    ensures r.Some? <==> Sentence(s, p).Some?
    ensures r.Some? ==> p < r.value.end <= |s|
    ensures r.Some? ==> !IsWhitespace(s[p]) && InkBefore(s, r.value.end)
  {
    match Sentence(s, p)
    case None => None
    case Some(x) =>
      SentenceEdges(s, p);
      var m := MoreSentences(s, x.end);
      Some(Parsed(x.value + m.value, m.end))
  }

  /** A sentence list is never empty, holds no line break and keeps every
      word character of the input it consumed; once the marks are removed
      from both, it is that input with its line breaks removed. */
  lemma SentenceListText(s: string, p: nat)
    requires p <= |s|
    ensures var r := SentenceList(s, p);
      r.Some? ==>
        && |r.value.value| > 0 && AllIn(r.value.value, Inline)
        && Letters(r.value.value) == Letters(s[p..r.value.end])
        && StripPunct(r.value.value) == StripPunct(Unbreak(s[p..r.value.end]))
  {
    if Sentence(s, p).Some? {
      var x := Sentence(s, p).value;
      var m := MoreSentences(s, x.end);
      assert SentenceList(s, p).value == Parsed(x.value + m.value, m.end);
      SentenceText(s, p);
      MoreSentencesText(s, x.end);
      AllInConcat(x.value, m.value, Inline);
      LettersConcat(x.value, m.value);
      LettersSlices(s, p, x.end, m.end);
      SentenceEdges(s, p);
      UnbreakStrip2(s, p, x.end, m.end, x.value, m.value);
    }
  }

  /** `Suppress(Opt('....' + Opt(token_space)))` before a section's first
      sentence. */
  function LeadingDots(s: string, a: nat): (b: nat)
    requires a <= |s|
    ensures a <= b <= |s|
    ensures b > a <==> FourDotsAt(s, a)
  {
    if FourDotsAt(s, a) then EndOr(TokenSpace(s, a + 4), a + 4) else a
  }

  /** `Suppress(Opt(Opt(token_space) + '....'))` after a section's last
      sentence. */
  function TrailingDots(s: string, e: nat): (c: nat)
    requires e <= |s|
    ensures e <= c <= |s|
    ensures c > e <==> FourDotsAt(s, EndOr(TokenSpace(s, e), e))
    ensures c == e || s[c - 1] == '.'
  {
    var q := EndOr(TokenSpace(s, e), e);
    if FourDotsAt(s, q) then q + 4 else e
  }

  /** Four dots hold no letter. */
  lemma FourDotsNoLetter(s: string, q: nat)
    requires FourDotsAt(s, q)
    ensures Letters(s[q..q + 4]) == ""
  {
    EllipsisText(s, q);
    assert s[q..q + 4] == "....";
    LettersOfLayout("....");
  }

  /** The leading four-dot form holds no letter. */
  lemma LeadingDotsNoLetter(s: string, a: nat)
    requires a <= |s|
    ensures Letters(s[a..LeadingDots(s, a)]) == ""
  {
    if FourDotsAt(s, a) {
      var b := LeadingDots(s, a);
      FourDotsNoLetter(s, a);
      OptTokenSpaceText(s, a + 4);
      LettersSlices(s, a, a + 4, b);
    }
  }

  /** The trailing four-dot form holds no letter. */
  lemma TrailingDotsNoLetter(s: string, e: nat)
    requires e <= |s|
    ensures Letters(s[e..TrailingDots(s, e)]) == ""
  {
    var q := EndOr(TokenSpace(s, e), e);
    if FourDotsAt(s, q) {
      OptTokenSpaceText(s, e);
      FourDotsNoLetter(s, q);
      LettersSlices(s, e, q, q + 4);
    }
  }

  /** `section`: an indent of spaces, an optional leading `....`, the
      sentence list and an optional trailing `....`; its text is the sentence
      list's. */
  function Section(s: string, p: nat): (r: Option<Parsed<string>>)
    requires p <= |s|
    ensures r.Some? ==> p < r.value.end <= |s| && s[p] == ' '
    ensures r.Some? ==> InkBefore(s, r.value.end)
    ensures r.Some? <==>
      SectionIndent(s, p).Some? && Sentence(s, LeadingDots(s, SectionIndent(s, p).value)).Some?
  {
    match SectionIndent(s, p)
    case None => None
    case Some(a) =>
      match SentenceList(s, LeadingDots(s, a))
      case None => None
      case Some(l) => Some(Parsed(l.value, TrailingDots(s, l.end)))
  }

  /** A section's text is never empty, holds no line break and keeps every
      word character of the input it consumed: the indent and the four-dot
      forms it drops have none. Between them lies the sentence list, and
      once the marks are removed, the text is that stretch of input with its
      line breaks removed. */
  lemma SectionText(s: string, p: nat)
    requires p <= |s|
    ensures var r := Section(s, p);
      r.Some? ==>
        && |r.value.value| > 0 && AllIn(r.value.value, Inline)
        && Letters(r.value.value) == Letters(s[p..r.value.end])
        && exists b, e | p < b < e <= r.value.end ::
             && Letters(s[p..b]) == "" && Letters(s[e..r.value.end]) == ""
             && StripPunct(r.value.value) == StripPunct(Unbreak(s[b..e]))
  {
    if Section(s, p).Some? {
      var a := SectionIndent(s, p).value;
      var b := LeadingDots(s, a);
      var l := SentenceList(s, b).value;
      var c := TrailingDots(s, l.end);
      assert Section(s, p).value == Parsed(l.value, c);
      SentenceListText(s, b);
      LeadingDotsNoLetter(s, a);
      TrailingDotsNoLetter(s, l.end);
      InlineClass(s[p..a], Blank);
      LettersOfNone(s[p..a]);
      LettersSlices(s, p, a, b);
      LettersSlices(s, p, b, l.end);
      LettersSlices(s, p, l.end, c);
      assert Letters(s[p..b]) == "" && Letters(s[l.end..c]) == "";
      assert Letters(s[p..l.end]) == Letters(s[b..l.end]) == Letters(l.value);
      assert Letters(s[p..c]) == Letters(s[p..l.end]) + "";
      assert StripPunct(l.value) == StripPunct(Unbreak(s[b..l.end]));
    }
  }

  // Titles.

  /** `t` without its spaces and tabs. */
  function DropHSpace(t: string): (r: string)
    ensures |r| <= |t|
  {
    if |t| == 0 then ""
    else if IsHSpace(t[0]) then DropHSpace(t[1..])
    else [t[0]] + DropHSpace(t[1..])
  }

  lemma {:induction false} DropHSpaceConcat(a: string, b: string)
    ensures DropHSpace(a + b) == DropHSpace(a) + DropHSpace(b)
    decreases |a|
  {
    if |a| > 0 {
      assert (a + b)[1..] == a[1..] + b;
      DropHSpaceConcat(a[1..], b);
    } else {
      assert a + b == b;
    }
  }

  /** Dropping spaces and tabs keeps every letter. */
  lemma {:induction false} LettersDropHSpace(t: string)
    ensures Letters(DropHSpace(t)) == Letters(t)
    decreases |t|
  {
    if |t| > 0 {
      LettersDropHSpace(t[1..]);
      if !IsHSpace(t[0]) {
        LettersConcat([t[0]], DropHSpace(t[1..]));
        assert [t[0]][1..] == "";
      }
    }
  }

  /** Text without spaces or tabs is left as it is; spaces and tabs alone
      leave nothing. */
  lemma {:induction false} DropHSpaceOf(t: string)
    ensures AllIn(t, Printable) ==> DropHSpace(t) == t
    ensures AllIn(t, HSpace) ==> DropHSpace(t) == ""
    decreases |t|
  {
    if |t| > 0 {
      DropHSpaceOf(t[1..]);
      assert AllIn(t, Printable) ==> AllIn(t[1..], Printable);
      assert AllIn(t, HSpace) ==> AllIn(t[1..], HSpace);
      assert [t[0]] + t[1..] == t;
    }
  }

  /** The repeated part of `title`: greedy `(Word(' \t') + Word(printables))*`,
      the spaces and tabs between the words suppressed. */
  function MoreWords(s: string, p: nat): (r: Parsed<string>)
    requires p <= |s|
    ensures p <= r.end <= |s|
    ensures r.end > p ==> r.end == |s| || !IsPrintable(s[r.end])
    ensures Space(s, r.end).None? || Run(s, Space(s, r.end).value.end, Printable).None?
    decreases |s| - p
  {
    match Space(s, p)
    case None => Parsed("", p)
    case Some(sp) =>
      match Run(s, sp.end, Printable)
      case None => Parsed("", p)
      case Some(w) =>
        var m := MoreWords(s, w.end);
        Parsed(w.value + m.value, m.end)
  }

  lemma DropHSpaceSlices(s: string, a: nat, b: nat, c: nat)
    requires a <= b <= c <= |s|
    ensures DropHSpace(s[a..c]) == DropHSpace(s[a..b]) + DropHSpace(s[b..c])
  {
    SliceSplit(s, a, b, c);
    DropHSpaceConcat(s[a..b], s[b..c]);
  }

  /** One iteration of the repetition: the word is its input without the
      spaces and tabs before it. */
  lemma SpaceThenWord(s: string, p: nat)
    requires p <= |s| && Space(s, p).Some? && Run(s, Space(s, p).value.end, Printable).Some?
    ensures var w := Run(s, Space(s, p).value.end, Printable).value;
      DropHSpace(s[p..w.end]) == w.value && AllIn(w.value, Printable)
  {
    var sp := Space(s, p).value;
    var w := Run(s, sp.end, Printable).value;
    DropHSpaceOf(sp.value);
    DropHSpaceOf(w.value);
    DropHSpaceSlices(s, p, sp.end, w.end);
  }

  /** The words of the repetition are exactly its input without the spaces
      and tabs between them. */
  lemma {:induction false} MoreWordsText(s: string, p: nat)
    requires p <= |s|
    ensures var r := MoreWords(s, p);
      r.value == DropHSpace(s[p..r.end]) && AllIn(r.value, Printable)
    decreases |s| - p
  {
    var r := MoreWords(s, p);
    if Space(s, p).Some? && Run(s, Space(s, p).value.end, Printable).Some? {
      var w := Run(s, Space(s, p).value.end, Printable).value;
      var m := MoreWords(s, w.end);
      assert r.value == w.value + m.value && r.end == m.end;
      MoreWordsText(s, w.end);
      SpaceThenWord(s, p);
      DropHSpaceSlices(s, p, w.end, m.end);
      AllInConcat(w.value, m.value, Printable);
    } else {
      assert r.value == "" && r.end == p;
    }
  }

  /** `title`: printable words separated by spaces or tabs, glued together
      without them. */
  function TitleLine(s: string, p: nat): (r: Option<Parsed<string>>)
    requires p <= |s|
    ensures r.Some? <==> p < |s| && IsPrintable(s[p])
    ensures r.Some? ==> p < r.value.end <= |s|
    ensures r.Some? ==> r.value.end == |s| || !IsPrintable(s[r.value.end])
    ensures r.Some? ==> Space(s, r.value.end).None? || Run(s, Space(s, r.value.end).value.end, Printable).None?
  {
    match Run(s, p, Printable)
    case None => None
    case Some(w) =>
      var m := MoreWords(s, w.end);
      Some(Parsed(w.value + m.value, m.end))
  }

  /** A title is the non-empty text of its line up to the first character
      that is neither printable nor a space or tab, without the spaces and
      tabs, and keeps every letter of it. */
  lemma TitleLineText(s: string, p: nat)
    requires p <= |s|
    ensures var r := TitleLine(s, p);
      r.Some? ==>
        && r.value.value == DropHSpace(s[p..r.value.end])
        && |r.value.value| > 0 && AllIn(r.value.value, Printable)
        && Letters(r.value.value) == Letters(s[p..r.value.end])
  {
    var r := TitleLine(s, p);
    if r.Some? {
      var w := Run(s, p, Printable).value;
      var m := MoreWords(s, w.end);
      assert r.value.value == w.value + m.value && r.value.end == m.end;
      MoreWordsText(s, w.end);
      DropHSpaceOf(w.value);
      DropHSpaceSlices(s, p, w.end, m.end);
      AllInConcat(w.value, m.value, Printable);
      LettersDropHSpace(s[p..m.end]);
    }
  }

  /** A section starts with a space and a title with a printable character,
      so no input starts both: a title line after a blank line is never read
      as a section, nor a section as a title. */
  lemma TitleIsNotSection(s: string, p: nat)
    requires p <= |s|
    ensures TitleLine(s, p).Some? ==> Section(s, p).None?
    ensures Section(s, p).Some? ==> TitleLine(s, p).None?
  {
  }

  // Documents.

  /** A document: its title and the text of each of its sections. */
  datatype Doc = Doc(title: string, sections: seq<string>)

  /** The texts of `xs` one after the other. */
  function Join(xs: seq<string>): string {
    if |xs| == 0 then "" else xs[0] + Join(xs[1..])
  }

  lemma JoinCons(x: string, xs: seq<string>)
    ensures Join([x] + xs) == x + Join(xs)
  {
    assert ([x] + xs)[0] == x && ([x] + xs)[1..] == xs;
  }

  /** What a parsed section text always is: non-empty, on one line. */
  predicate IsSectionText(x: string) {
    |x| > 0 && AllIn(x, Inline)
  }

  /** What a parsed document always is: a non-empty printable title and at
      least one section. */
  predicate IsDoc(d: Doc) {
    && |d.title| > 0 && AllIn(d.title, Printable) && |d.sections| > 0
    && forall i | 0 <= i < |d.sections| :: IsSectionText(d.sections[i])
  }

  lemma SectionTextsCons(x: string, xs: seq<string>)
    requires IsSectionText(x) && forall i | 0 <= i < |xs| :: IsSectionText(xs[i])
    ensures forall i | 0 <= i < |[x] + xs| :: IsSectionText(([x] + xs)[i])
  {
    forall i | 0 <= i < |[x] + xs| ensures IsSectionText(([x] + xs)[i]) {
      if i > 0 { assert ([x] + xs)[i] == xs[i - 1]; }
    }
  }

  /** A section separator holds no letter. */
  lemma SectionSepNoLetter(s: string, p: nat)
    requires p <= |s| && SectionSep(s, p).Some?
    ensures Letters(s[p..SectionSep(s, p).value]) == ""
  {
    LettersOfLayout(s[p..SectionSep(s, p).value]);
  }

  /** The repeated part of `delimited_list(section, delim=section_sep)`:
      greedy `(section_sep + section)*`, the separators suppressed. */
  function MoreSections(s: string, p: nat): (r: Parsed<seq<string>>)
    requires p <= |s|
    ensures p <= r.end <= |s|
    ensures r.end == p || InkBefore(s, r.end)
    decreases |s| - p, 1
  {
    match SectionSep(s, p)
    case None => Parsed([], p)
    case Some(q) => MoreSectionsFrom(s, p, q)
  }

  /** One iteration after its separator matched from `p` to `q`: when no
      section follows, the cursor goes back to `p`; otherwise it ends on the
      last character of a section, never on whitespace, so the blank lines
      after the last section are left to the caller. */
  function MoreSectionsFrom(s: string, p: nat, q: nat): (r: Parsed<seq<string>>)
    requires p < q <= |s|
    ensures p <= r.end <= |s|
    ensures r.end == p || (p < r.end && InkBefore(s, r.end))
    decreases |s| - p, 0
  {
    match Section(s, q)
    case None => Parsed([], p)
    case Some(x) =>
      var rest := MoreSections(s, x.end);
      Parsed([x.value] + rest.value, rest.end)
  }

  /** Every section of the repetition is a section text, and together they
      keep every letter of the input it consumed. */
  lemma {:induction false} MoreSectionsText(s: string, p: nat)
    requires p <= |s|
    ensures var r := MoreSections(s, p);
      && (forall i | 0 <= i < |r.value| :: IsSectionText(r.value[i]))
      && Letters(Join(r.value)) == Letters(s[p..r.end])
    decreases |s| - p
  {
    var r := MoreSections(s, p);
    if SectionSep(s, p).Some? && Section(s, SectionSep(s, p).value).Some? {
      var q := SectionSep(s, p).value;
      var x := Section(s, q).value;
      var rest := MoreSections(s, x.end);
      assert r == MoreSectionsFrom(s, p, q);
      assert r.value == [x.value] + rest.value && r.end == rest.end;
      MoreSectionsText(s, x.end);
      SectionText(s, q);
      SectionTextsCons(x.value, rest.value);
      JoinCons(x.value, rest.value);
      SectionSepNoLetter(s, p);
      LettersJoin(s, q, x.end, rest.end, x.value, Join(rest.value));
      LettersAfterGap(s, p, q, rest.end, x.value + Join(rest.value));
    } else if SectionSep(s, p).Some? {
      assert r == MoreSectionsFrom(s, p, SectionSep(s, p).value);
    }
  }

  /** A title line after a blank line ends the repetition: it is not read as
      one more section. */
  lemma MoreSectionsStopAtTitle(s: string, p: nat)
    requires p <= |s| && SectionSep(s, p).Some?
    requires TitleLine(s, SectionSep(s, p).value).Some?
    ensures MoreSections(s, p).value == [] && MoreSections(s, p).end == p
  {
    TitleIsNotSection(s, SectionSep(s, p).value);
  }

  /** `delimited_list(section, delim=section_sep)`: one or more sections. */
  function SectionList(s: string, p: nat): (r: Option<Parsed<seq<string>>>)
    requires p <= |s|
    ensures r.Some? <==> Section(s, p).Some?
    ensures r.Some? ==> p < r.value.end <= |s| && |r.value.value| > 0
    ensures r.Some? ==> InkBefore(s, r.value.end)
  {
    match Section(s, p)
    case None => None
    case Some(x) =>
      var m := MoreSections(s, x.end);
      Some(Parsed([x.value] + m.value, m.end))
  }

  lemma SectionListText(s: string, p: nat)
    requires p <= |s|
    ensures var r := SectionList(s, p);
      r.Some? ==>
        && (forall i | 0 <= i < |r.value.value| :: IsSectionText(r.value.value[i]))
        && Letters(Join(r.value.value)) == Letters(s[p..r.value.end])
  {
    var r := SectionList(s, p);
    if r.Some? {
      var x := Section(s, p).value;
      var m := MoreSections(s, x.end);
      assert r.value.value == [x.value] + m.value && r.value.end == m.end;
      SectionText(s, p);
      MoreSectionsText(s, x.end);
      SectionTextsCons(x.value, m.value);
      JoinCons(x.value, m.value);
      LettersJoin(s, p, x.end, m.end, x.value, Join(m.value));
    }
  }

  /** `document`: a title line, a section separator, then the sections. */
  function Document(s: string, p: nat): (r: Option<Parsed<Doc>>)
    requires p <= |s|
    ensures r.Some? ==> p < r.value.end <= |s| && |r.value.value.sections| > 0
    ensures r.Some? ==> InkBefore(s, r.value.end)
    ensures r.Some? <==>
      && TitleLine(s, p).Some?
      && SectionSep(s, TitleLine(s, p).value.end).Some?
      && Section(s, SectionSep(s, TitleLine(s, p).value.end).value).Some?
  {
    match TitleLine(s, p)
    case None => None
    case Some(t) =>
      match SectionSep(s, t.end)
      case None => None
      case Some(q) =>
        match SectionList(s, q)
        case None => None
        case Some(l) => Some(Parsed(Doc(t.value, l.value), l.end))
  }

  /** The text of a document: its title, then its sections. */
  function DocText(d: Doc): string {
    d.title + Join(d.sections)
  }

  /** The parts a parsed document is made of. */
  lemma DocumentParts(s: string, p: nat)
    requires p <= |s| && Document(s, p).Some?
    ensures TitleLine(s, p).Some?
    ensures SectionSep(s, TitleLine(s, p).value.end).Some?
    ensures var q := SectionSep(s, TitleLine(s, p).value.end).value;
      && SectionList(s, q).Some?
      && Document(s, p).value.value.title == TitleLine(s, p).value.value
      && Document(s, p).value.value.sections == SectionList(s, q).value.value
      && Document(s, p).value.end == SectionList(s, q).value.end
  {
  }

  /** A parsed document has a non-empty printable title and non-empty
      one-line sections, and keeps every letter of the input it consumed. */
  lemma DocumentText(s: string, p: nat)
    requires p <= |s|
    ensures var r := Document(s, p);
      r.Some? ==> IsDoc(r.value.value) && Letters(DocText(r.value.value)) == Letters(s[p..r.value.end])
  {
    if Document(s, p).Some? {
      DocumentParts(s, p);
      var t := TitleLine(s, p).value;
      var q := SectionSep(s, t.end).value;
      var l := SectionList(s, q).value;
      var d := Document(s, p).value.value;
      assert DocText(d) == t.value + Join(l.value);
      TitleLineText(s, p);
      SectionListText(s, q);
      SectionSepNoLetter(s, t.end);
      LettersAfterGap(s, t.end, q, l.end, Join(l.value));
      LettersJoin(s, p, t.end, l.end, t.value, Join(l.value));
    }
  }

  // The corpus.

  /** The texts of `ds` one after the other. */
  function JoinDocs(ds: seq<Doc>): string {
    if |ds| == 0 then "" else DocText(ds[0]) + JoinDocs(ds[1..])
  }

  lemma JoinDocsCons(d: Doc, ds: seq<Doc>)
    ensures JoinDocs([d] + ds) == DocText(d) + JoinDocs(ds)
  {
    assert ([d] + ds)[0] == d && ([d] + ds)[1..] == ds;
  }

  lemma DocsCons(d: Doc, ds: seq<Doc>)
    requires IsDoc(d) && forall i | 0 <= i < |ds| :: IsDoc(ds[i])
    ensures forall i | 0 <= i < |[d] + ds| :: IsDoc(([d] + ds)[i])
  {
    forall i | 0 <= i < |[d] + ds| ensures IsDoc(([d] + ds)[i]) {
      if i > 0 { assert ([d] + ds)[i] == ds[i - 1]; }
    }
  }

  /** The repeated part of `delimited_list(document, delim=section_sep)`:
      greedy `(section_sep + document)*`, the separators suppressed. */
  function MoreDocuments(s: string, p: nat): (r: Parsed<seq<Doc>>)
    requires p <= |s|
    ensures p <= r.end <= |s|
    ensures r.end == p || InkBefore(s, r.end)
    decreases |s| - p, 1
  {
    match SectionSep(s, p)
    case None => Parsed([], p)
    case Some(q) => MoreDocumentsFrom(s, p, q)
  }

  /** One iteration after its separator matched from `p` to `q`: when no
      document follows, the cursor goes back to `p`; otherwise it ends on the
      last character of a document, never on whitespace, so the trailing
      blank lines are left to the corpus. */
  function MoreDocumentsFrom(s: string, p: nat, q: nat): (r: Parsed<seq<Doc>>)
    requires p < q <= |s|
    ensures p <= r.end <= |s|
    ensures r.end == p || (p < r.end && InkBefore(s, r.end))
    decreases |s| - p, 0
  {
    match Document(s, q)
    case None => Parsed([], p)
    case Some(d) =>
      var rest := MoreDocuments(s, d.end);
      Parsed([d.value] + rest.value, rest.end)
  }

  /** Every document of the repetition is well formed, and together they
      keep every letter of the input it consumed. */
  lemma {:induction false} MoreDocumentsText(s: string, p: nat)
    requires p <= |s|
    ensures var r := MoreDocuments(s, p);
      && (forall i | 0 <= i < |r.value| :: IsDoc(r.value[i]))
      && Letters(JoinDocs(r.value)) == Letters(s[p..r.end])
    decreases |s| - p
  {
    var r := MoreDocuments(s, p);
    if SectionSep(s, p).Some? && Document(s, SectionSep(s, p).value).Some? {
      var q := SectionSep(s, p).value;
      var d := Document(s, q).value;
      var rest := MoreDocuments(s, d.end);
      assert r == MoreDocumentsFrom(s, p, q);
      assert r.value == [d.value] + rest.value && r.end == rest.end;
      MoreDocumentsText(s, d.end);
      DocumentText(s, q);
      DocsCons(d.value, rest.value);
      JoinDocsCons(d.value, rest.value);
      SectionSepNoLetter(s, p);
      LettersJoin(s, q, d.end, rest.end, DocText(d.value), JoinDocs(rest.value));
      LettersAfterGap(s, p, q, rest.end, DocText(d.value) + JoinDocs(rest.value));
    } else if SectionSep(s, p).Some? {
      assert r == MoreDocumentsFrom(s, p, SectionSep(s, p).value);
    }
  }

  /** `delimited_list(document, delim=section_sep)`: one or more documents. */
  function DocumentList(s: string, p: nat): (r: Option<Parsed<seq<Doc>>>)
    requires p <= |s|
    ensures r.Some? <==> Document(s, p).Some?
    ensures r.Some? ==> p < r.value.end <= |s| && |r.value.value| > 0
    ensures r.Some? ==> InkBefore(s, r.value.end)
  {
    match Document(s, p)
    case None => None
    case Some(d) =>
      var m := MoreDocuments(s, d.end);
      Some(Parsed([d.value] + m.value, m.end))
  }

  lemma DocumentListText(s: string, p: nat)
    requires p <= |s|
    ensures var r := DocumentList(s, p);
      r.Some? ==>
        && (forall i | 0 <= i < |r.value.value| :: IsDoc(r.value.value[i]))
        && Letters(JoinDocs(r.value.value)) == Letters(s[p..r.value.end])
  {
    var r := DocumentList(s, p);
    if r.Some? {
      var d := Document(s, p).value;
      var m := MoreDocuments(s, d.end);
      assert r.value.value == [d.value] + m.value && r.value.end == m.end;
      DocumentText(s, p);
      MoreDocumentsText(s, d.end);
      DocsCons(d.value, m.value);
      JoinDocsCons(d.value, m.value);
      LettersJoin(s, p, d.end, m.end, DocText(d.value), JoinDocs(m.value));
    }
  }

  /** `corpus`, parsed with `parse_all=True`: optional blank lines, one or
      more documents and optional blank lines must make up the whole input;
      anything left over makes the parse fail. */
  function Corpus(s: string): (r: Option<seq<Doc>>)
    ensures r.Some? ==> |r.value| > 0
    ensures r.Some? <==>
      var l := DocumentList(s, Newlines(s, 0));
      l.Some? && Newlines(s, l.value.end) == |s|
  {
    var a := Newlines(s, 0);
    match DocumentList(s, a)
    case None => None
    case Some(l) => if Newlines(s, l.end) == |s| then Some(l.value) else None
  }

  /** A parsed corpus is made of well-formed documents that together keep
      every letter of the input, in order: no text is dropped. */
  lemma CorpusText(s: string)
    ensures var r := Corpus(s);
      r.Some? ==>
        && (forall i | 0 <= i < |r.value| :: IsDoc(r.value[i]))
        && Letters(JoinDocs(r.value)) == Letters(s)
  {
    var r := Corpus(s);
    if r.Some? {
      var a := Newlines(s, 0);
      var l := DocumentList(s, a).value;
      assert r.value == l.value && Newlines(s, l.end) == |s|;
      DocumentListText(s, a);
      LettersOfLayout(s[0..a]);
      LettersOfLayout(s[l.end..|s|]);
      LettersAfterGap(s, 0, a, l.end, JoinDocs(l.value));
      LettersBeforeGap(s, 0, l.end, |s|, JoinDocs(l.value));
      LettersOfWhole(s);
    }
  }

  /** An input of whitespace alone is not a corpus: there must be a title. */
  lemma BlankIsNotCorpus(s: string)
    requires AllIn(s, Layout)
    ensures Corpus(s).None?
  {
    var a := Newlines(s, 0);
    assert a == |s| || !IsPrintable(s[a]);
  }
}
