/** Worked inputs: small corpora built from one-character titles and
    one-letter sentences, and what the grammar makes of them; then tokens,
    sentences and a section whose marks are kept. Each generic lemma
    follows one production of the grammar through a family of inputs, and
    the lemmas on concrete texts pin a whole parse. */
module Samples {
  import opened Text
  import opened Lexical
  import opened Tokens
  import opened Sentences
  import opened Structure

  /** What may follow a one-letter sentence for it to end its section and
      its document: the end of the input, or a blank line and a title. */
  predicate DocEnd(s: string, e: nat)
  {
    e == |s| || (e + 2 < |s| && s[e] == '\n' && s[e + 1] == '\n' && IsPrintable(s[e + 2]))
  }

  /** A word character closed by '.' is a one-letter token: the '.' is not
      a piece of the word, since no word character follows it. */
  lemma LetterToken(s: string, p: nat)
    requires p + 2 <= |s| && InClass(s[p], WordChar) && s[p + 1] == '.' && DocEnd(s, p + 2)
    ensures Token(s, p) == Some(Parsed([s[p]], p + 1))
  {
    assert RunEnd(s, p + 1, WordChar) == p + 1;
    assert RunEnd(s, p, WordChar) == p + 1;
    assert s[p..p + 1] == [s[p]];
    assert Mark(s, p + 1) == Some(Parsed(".", p + 2));
    assert Run(s, p + 2, WordChar).None?;
    assert MorePieces(s, p + 1) == Parsed("", p + 1);
    assert "" + [s[p]] + "" + "" == [s[p]];
  }

  /** ... and a sentence of two characters, which keeps its '.'. */
  lemma LetterSentence(s: string, p: nat)
    requires p + 2 <= |s| && InClass(s[p], WordChar) && s[p + 1] == '.' && DocEnd(s, p + 2)
    ensures Sentence(s, p) == Some(Parsed([s[p], '.'], p + 2))
  {
    LetterToken(s, p);
    assert MoreTokens(s, p + 1) == Parsed("", p + 1);
    assert [s[p]] + "" == [s[p]];
    assert TokenList(s, p) == Some(Parsed([s[p]], p + 1));
    assert CloseMark(s, p + 1) == Some(Parsed(['.'], p + 2));
    assert [s[p]] + ['.'] == [s[p], '.'];
  }

  /** At the end of the input every repetition matches nothing. */
  lemma AtEnd(s: string)
    ensures MoreSentences(s, |s|) == Parsed("", |s|)
    ensures TrailingDots(s, |s|) == |s|
    ensures MoreSections(s, |s|) == Parsed([], |s|)
    ensures MoreDocuments(s, |s|) == Parsed([], |s|)
    ensures Newlines(s, |s|) == |s|
  {
    assert !FourDotsAt(s, |s|);
  }

  /** A bare "\n" is a line break of one character. */
  lemma BareLineBreak(s: string, e: nat)
    requires e < |s| && s[e] == '\n'
    ensures Newline(s, e) == Some(e + 1)
  {
    assert RunEnd(s, e, HSpace) == e;
    assert s[e + 0] == "\n"[0] && s[e + 0] != "\r\n"[0];
  }

  /** No line break starts where spaces and tabs lead to ink. */
  lemma NoLineBreakAt(s: string, e: nat, h: nat)
    requires e <= h < |s| && AllIn(s[e..h], HSpace) && !IsWhitespace(s[h])
    ensures Newline(s, e).None?
  {
    RunEndUnique(s, e, HSpace, h);
    assert s[h + 0] != "\n"[0] && s[h + 0] != "\r\n"[0];
    assert !LitAt(s, h, "\n") && !LitAt(s, h, "\r\n");
  }

  /** Two line breaks before a title: the token space takes only the first,
      and the section separator takes both. */
  lemma BlankLineBeforeTitle(s: string, e: nat)
    requires e + 2 < |s| && s[e] == '\n' && s[e + 1] == '\n' && IsPrintable(s[e + 2])
    ensures TokenSpace(s, e) == Some(Parsed("", e + 1))
    ensures SectionSep(s, e) == Some(e + 2)
  {
    BareLineBreak(s, e);
    BareLineBreak(s, e + 1);
    NoLineBreakAt(s, e + 2, e + 2);
  }

  /** Where a document ends, no further sentence, trailing dots or section
      follow: a blank line before a title is the end of a section. */
  lemma SentenceStops(s: string, e: nat)
    requires e <= |s| && DocEnd(s, e)
    ensures MoreSentences(s, e) == Parsed("", e)
    ensures TrailingDots(s, e) == e
    ensures MoreSections(s, e) == Parsed([], e)
  {
    if e == |s| {
      AtEnd(s);
    } else {
      BlankLineBeforeTitle(s, e);
      assert !FourDotsAt(s, e + 1);
    }
  }

  /** One space before a word character is the whole indent. */
  lemma OneSpaceIndent(s: string, p: nat)
    requires p + 1 < |s| && s[p] == ' ' && InClass(s[p + 1], WordChar)
    ensures SectionIndent(s, p) == Some(p + 1)
  {
    assert s[p + 1] != ' ';
  }

  /** A space and a one-letter sentence make a section of one sentence. */
  lemma LetterSection(s: string, p: nat)
    requires p + 3 <= |s| && s[p] == ' ' && InClass(s[p + 1], WordChar) && s[p + 2] == '.'
    requires DocEnd(s, p + 3)
    ensures SectionList(s, p) == Some(Parsed([[s[p + 1], '.']], p + 3))
  {
    var x := Parsed([s[p + 1], '.'], p + 3);
    LetterSentence(s, p + 1);
    SentenceStops(s, p + 3);
    SentenceListOfOne(s, p + 1, x);
    OneSpaceIndent(s, p);
    assert !FourDotsAt(s, p + 1);
    SectionOf(s, p, p + 1, x);
    SectionListOfOne(s, p, x);
  }

  /** A sentence that no further sentence follows is the whole sentence list. */
  lemma SentenceListOfOne(s: string, a: nat, x: Parsed<string>)
    requires a <= |s| && Sentence(s, a) == Some(x) && MoreSentences(s, x.end) == Parsed("", x.end)
    ensures SentenceList(s, a) == Some(x)
  {
    assert x.value + "" == x.value;
  }

  /** A section that no further section follows is a section list of one. */
  lemma SectionListOfOne(s: string, p: nat, x: Parsed<string>)
    requires p <= |s| && Section(s, p) == Some(x) && MoreSections(s, x.end) == Parsed([], x.end)
    ensures SectionList(s, p) == Some(Parsed([x.value], x.end))
  {
    assert [x.value] + [] == [x.value];
  }

  /** A printable character at the end of its line is a whole title. */
  lemma OneCharTitle(s: string, p: nat)
    requires p + 1 < |s| && IsPrintable(s[p]) && s[p + 1] == '\n'
    ensures TitleLine(s, p) == Some(Parsed([s[p]], p + 1))
  {
    assert RunEnd(s, p + 1, Printable) == p + 1;
    assert RunEnd(s, p, Printable) == p + 1;
    assert s[p..p + 1] == [s[p]];
    assert MoreWords(s, p + 1) == Parsed("", p + 1);
    assert [s[p]] + "" == [s[p]];
  }

  /** Two line breaks before an indented line: the separator stops before
      the indent, which belongs to the section. */
  lemma BlankLineBeforeSection(s: string, e: nat)
    requires e + 3 < |s| && s[e] == '\n' && s[e + 1] == '\n' && s[e + 2] == ' ' && InClass(s[e + 3], WordChar)
    ensures SectionSep(s, e) == Some(e + 2)
  {
    BareLineBreak(s, e);
    BareLineBreak(s, e + 1);
    assert s[e + 2..e + 3] == [' '];
    NoLineBreakAt(s, e + 2, e + 3);
  }

  /** A title, a blank line and an indented one-letter sentence make a
      document with that title and that one section. */
  lemma SmallDocument(s: string, p: nat)
    requires p + 6 <= |s| && IsPrintable(s[p]) && s[p + 1] == '\n' && s[p + 2] == '\n'
    requires s[p + 3] == ' ' && InClass(s[p + 4], WordChar) && s[p + 5] == '.' && DocEnd(s, p + 6)
    ensures Document(s, p) == Some(Parsed(Doc([s[p]], [[s[p + 4], '.']]), p + 6))
  {
    LetterSection(s, p + 3);
    OneCharTitle(s, p);
    BlankLineBeforeSection(s, p + 1);
  }

  /** An input that starts with a printable character has no leading line
      breaks to skip. */
  lemma NoLeadingBreak(s: string)
    requires 0 < |s| && IsPrintable(s[0])
    ensures Newlines(s, 0) == 0
  {
    NoLineBreakAt(s, 0, 0);
  }

  /** A corpus that is one document, starting on the first character and
      running to the end of the input. */
  lemma CorpusOfOne(s: string, d: Doc)
    requires 0 < |s| && IsPrintable(s[0]) && Document(s, 0) == Some(Parsed(d, |s|))
    ensures Corpus(s) == Some([d])
  {
    NoLeadingBreak(s);
    AtEnd(s);
    Singletons(d, d);
    assert DocumentList(s, 0) == Some(Parsed([d], |s|));
  }

  /** A title, a blank line and an indented sentence make a one-document
      corpus: "T", then "a.". */
  lemma OneDocumentCorpus(s: string)
    requires s == "T\n\n a."
    ensures Corpus(s) == Some([Doc("T", ["a."])])
  {
    assert |s| == 6 && IsPrintable(s[0]);
    SmallDocument(s, 0);
    CorpusOfOne(s, Doc("T", ["a."]));
  }

  /** A blank line, then a last document that runs to the end of the input,
      is one more document for the corpus. */
  lemma LastDocumentAfter(s: string, e: nat, d: Doc)
    requires e + 2 < |s| && s[e] == '\n' && s[e + 1] == '\n' && IsPrintable(s[e + 2])
    requires Document(s, e + 2) == Some(Parsed(d, |s|))
    ensures MoreDocuments(s, e) == Parsed([d], |s|)
  {
    BlankLineBeforeTitle(s, e);
    AtEnd(s);
    assert MoreDocuments(s, e) == MoreDocumentsFrom(s, e, e + 2);
    assert [d] + [] == [d];
    assert MoreDocumentsFrom(s, e, e + 2) == Parsed([d], |s|);
  }

  /** The second document of the two-document text below. */
  lemma SecondDocument(s: string)
    requires s == "T\n\n a.\n\nU\n\n b."
    ensures MoreDocuments(s, 6) == Parsed([Doc("U", ["b."])], 14)
  {
    assert s[6] == '\n' && s[7] == '\n' && IsPrintable(s[8]);
    SmallDocument(s, 8);
    LastDocumentAfter(s, 6, Doc("U", ["b."]));
  }

  /** The first document of the two-document text below. */
  lemma FirstDocument(s: string)
    requires s == "T\n\n a.\n\nU\n\n b."
    ensures Document(s, 0) == Some(Parsed(Doc("T", ["a."]), 6))
  {
    SmallDocument(s, 0);
  }

  /** Appending one-element sequences. */
  lemma Singletons<T>(x: T, y: T)
    ensures [x] + [] == [x] && [x] + [y] == [x, y]
  {
  }

  /** A corpus of two documents, the second one running to the end of the
      input. */
  lemma CorpusOfTwo(s: string, e: nat, d1: Doc, d2: Doc)
    requires 0 < e < |s| && IsPrintable(s[0])
    requires Document(s, 0) == Some(Parsed(d1, e)) && MoreDocuments(s, e) == Parsed([d2], |s|)
    ensures Corpus(s) == Some([d1, d2])
  {
    NoLeadingBreak(s);
    AtEnd(s);
    Singletons(d1, d2);
    assert DocumentList(s, 0) == Some(Parsed([d1, d2], |s|));
  }

  /** Two such documents, separated by a blank line, make a corpus of two:
      the blank line ends the first document's section and starts the
      second document. */
  lemma TwoDocumentCorpus(s: string)
    requires s == "T\n\n a.\n\nU\n\n b."
    ensures Corpus(s) == Some([Doc("T", ["a."]), Doc("U", ["b."])])
  {
    assert |s| == 14 && IsPrintable(s[0]);
    FirstDocument(s);
    SecondDocument(s);
    CorpusOfTwo(s, 6, Doc("T", ["a."]), Doc("U", ["b."]));
  }

  // Marks that are kept.

  /** A space before ink is a token space of one character. */
  lemma OneSpace(s: string, p: nat)
    requires p + 1 < |s| && s[p] == ' ' && !IsWhitespace(s[p + 1])
    ensures TokenSpace(s, p) == Some(Parsed(" ", p + 1))
  {
    NoLineBreakAt(s, p, p + 1);
    assert s[p..p + 1] == " ";
    RunEndUnique(s, p, HSpace, p + 1);
  }

  /** A space and then a token: one iteration of the token repetition,
      which keeps both the space and the token's text. */
  lemma SpaceThenToken(s: string, p: nat, t: Parsed<string>)
    requires p + 1 < |s| && s[p] == ' ' && !IsWhitespace(s[p + 1])
    requires Token(s, p + 1) == Some(t)
    ensures MoreTokens(s, p) == Parsed(" " + t.value + MoreTokens(s, t.end).value, MoreTokens(s, t.end).end)
  {
    OneSpace(s, p);
  }

  /** Word characters up to whitespace are a token of exactly those
      characters. */
  lemma WordThenSpace(s: string, p: nat, e: nat)
    requires p < e < |s| && AllIn(s[p..e], WordChar) && IsWhitespace(s[e])
    ensures Token(s, p) == Some(Parsed(s[p..e], e))
  {
    assert InClass(s[p..e][0], WordChar);
    RunEndUnique(s, p, WordChar, e);
    assert MorePieces(s, e) == Parsed("", e);
    EmptyJoins(s[p..e]);
  }

  /** Word characters, then `...` and whitespace: the token keeps the
      `...`. */
  lemma WordThenEllipsis(s: string, p: nat, e: nat)
    requires p < e && e + 3 < |s| && AllIn(s[p..e], WordChar)
    requires EllipsisAt(s, e) && IsWhitespace(s[e + 3])
    ensures Token(s, p) == Some(Parsed(s[p..e] + "...", e + 3))
  {
    assert InClass(s[p..e][0], WordChar);
    RunEndUnique(s, p, WordChar, e);
    assert MorePieces(s, e) == Parsed("", e);
    assert GuardedEllipsis(s, e) == Some(Parsed("...", e + 3));
    EmptyJoins(s[p..e]);
  }

  /** Word characters, then one mark that ends the word: the token stops
      before the mark, which is left to close the sentence. */
  lemma WordThenMark(s: string, p: nat, e: nat)
    requires p < e < |s| && AllIn(s[p..e], WordChar) && IsSentencePunct(s[e])
    requires e + 1 == |s| || IsWhitespace(s[e + 1])
    ensures Token(s, p) == Some(Parsed(s[p..e], e))
  {
    assert InClass(s[p..e][0], WordChar);
    RunEndUnique(s, p, WordChar, e);
    assert Mark(s, e) == Some(Parsed([s[e]], e + 1));
    assert MorePieces(s, e) == Parsed("", e);
    EmptyJoins(s[p..e]);
  }

  /** Word characters, then four dots: the token stops before the dots. */
  lemma WordThenFourDots(s: string, p: nat, e: nat)
    requires p < e && FourDotsAt(s, e) && AllIn(s[p..e], WordChar)
    ensures Token(s, p) == Some(Parsed(s[p..e], e))
  {
    assert InClass(s[p..e][0], WordChar);
    RunEndUnique(s, p, WordChar, e);
    assert MorePieces(s, e) == Parsed("", e);
    EmptyJoins(s[p..e]);
  }

  /** `...` that no word character and no '.' follow is a token by itself:
      the second alternative of `token`. */
  lemma BareEllipsis(s: string, p: nat)
    requires EllipsisAt(s, p) && p + 3 < |s| && IsWhitespace(s[p + 3])
    ensures Token(s, p) == Some(Parsed("...", p + 3))
  {
  }

  /** A personal title is what the abbreviation body finds. */
  lemma TitleBody(s: string, k: nat, j: nat)
    requires j < TitleCount && k <= |s| && LitAt(s, k, Title(j))
    ensures AbbreviationBody(s, k) == Some(Parsed(Title(j), k + |Title(j)|))
  {
    PersonalTitleUnique(s, k, j);
  }

  /** Two marks other than a leading '.', then a title-shaped word that the
      abbreviation body finds (a personal title, by `TitleBody`) and that no
      '.' follows: the word and `...` alternatives fail, and the abbreviation
      alternative takes the marks and the word, '.' included. */
  lemma MarksThenTitle(s: string, p: nat, t: string)
    requires IsTitleShaped(t) && p + 2 <= |s| && LitAt(s, p + 2, t)
    requires AbbreviationBody(s, p + 2) == Some(Parsed(t, p + 2 + |t|))
    requires IsSentencePunct(s[p]) && s[p] != '.' && IsSentencePunct(s[p + 1])
    requires !DotAt(s, p + 2 + |t|)
    ensures Token(s, p) == Some(Parsed(s[p..p + 2 + |t|], p + 2 + |t|))
  {
    var k, e := p + 2, p + 2 + |t|;
    TwoMarks(s, p);
    assert s[k] == t[0];
    MarksRunEnd(s, p);
    AbbreviationAt(s, p, k, Parsed(t, e));
    AbbreviationWins(s, p, Parsed(s[p..e], e));
  }

  /** Two marks, the first not a '.': neither the word nor the `...`
      alternative matches. */
  lemma TwoMarks(s: string, p: nat)
    requires p + 2 <= |s| && IsSentencePunct(s[p]) && s[p] != '.' && IsSentencePunct(s[p + 1])
    ensures WordToken(s, p).None? && GuardedEllipsis(s, p).None?
  {
    assert Mark(s, p) == Some(Parsed([s[p]], p + 1));
  }

  /** Two marks before a capital: the leading run of marks ends at the
      capital. */
  lemma MarksRunEnd(s: string, p: nat)
    requires p + 2 < |s| && IsSentencePunct(s[p]) && IsSentencePunct(s[p + 1])
    requires 'A' <= s[p + 2] <= 'Z'
    ensures RunEnd(s, p, NonAlnum) == p + 2
  {
    assert !IsWhitespace(s[p]) && !IsWhitespace(s[p + 1]);
    assert AllIn(s[p..p + 2], NonAlnum);
    RunEndUnique(s, p, NonAlnum, p + 2);
  }

  /** The abbreviation alternative on its own: a non-empty leading run of
      marks, a body that ends at e, and no '.' at e. */
  lemma AbbreviationAt(s: string, p: nat, k: nat, x: Parsed<string>)
    requires p < k <= |s| && RunEnd(s, p, NonAlnum) == k
    requires AbbreviationBody(s, k) == Some(x) && !DotAt(s, x.end)
    ensures x.end <= |s| && Abbreviation(s, p) == Some(Parsed(s[p..x.end], x.end))
  {
    var r := Abbreviation(s, p);
    assert r.Some? && r.value.end == x.end;
  }

  /** When the word and `...` alternatives fail, the token is what the
      abbreviation alternative gives. */
  lemma AbbreviationWins(s: string, p: nat, x: Parsed<string>)
    requires p <= |s| && WordToken(s, p).None? && GuardedEllipsis(s, p).None?
    requires Abbreviation(s, p) == Some(x)
    ensures Token(s, p) == Some(x)
  {
  }

  /** "?!DR. x": the abbreviation alternative keeps the marks and the '.'
      of the title. */
  lemma AbbreviationToken(s: string)
    requires s == "?!DR. x"
    ensures Token(s, 0) == Some(Parsed("?!DR.", 5))
  {
    assert Title(8) == "DR." && LitAt(s, 2, Title(8)) && s[5] == ' ';
    QuestionTitleToken(s, 8);
    assert s[0..5] == "?!DR.";
  }

  /** "?!" and a personal title that a space follows make one token. */
  lemma QuestionTitleToken(s: string, j: nat)
    requires j < TitleCount && 2 <= |s| && s[0] == '?' && s[1] == '!' && LitAt(s, 2, Title(j))
    requires 2 + |Title(j)| < |s| && s[2 + |Title(j)|] == ' '
    ensures Token(s, 0) == Some(Parsed(s[0..2 + |Title(j)|], 2 + |Title(j)|))
  {
    TitleBody(s, 2, j);
    MarksThenTitle(s, 0, Title(j));
  }

  /** A closing mark right after a token: no later token, and the close is
      that mark. */
  lemma MarkCloses(s: string, e: nat)
    requires e < |s| && IsSentencePunct(s[e])
    ensures MoreTokens(s, e) == Parsed("", e)
    ensures Close(s, e) == Some(Parsed([s[e]], e + 1))
  {
    CloseMarkSameLine(s, e, e);
    assert s[e..e] + [s[e]] == [s[e]];
  }

  /** A token list from its first token and the later tokens. */
  lemma TokenListOf(s: string, p: nat, t: Parsed<string>, m: Parsed<string>)
    requires p <= |s| && Token(s, p) == Some(t) && MoreTokens(s, t.end) == m
    ensures TokenList(s, p) == Some(Parsed(t.value + m.value, m.end))
  {
  }

  /** A sentence from its token list and its close. */
  lemma SentenceOfList(s: string, p: nat, l: Parsed<string>, c: Parsed<string>)
    requires p <= |s| && TokenList(s, p) == Some(l) && Close(s, l.end) == Some(c)
    ensures Sentence(s, p) == Some(Parsed(l.value + c.value, c.end))
  {
  }

  /** A sentence from its first token, the later tokens and the close. */
  lemma SentenceOf(s: string, p: nat, t: Parsed<string>, m: Parsed<string>, c: Parsed<string>)
    requires p <= |s| && Token(s, p) == Some(t) && MoreTokens(s, t.end) == m
    requires Close(s, m.end) == Some(c)
    ensures Sentence(s, p) == Some(Parsed(t.value + m.value + c.value, c.end))
  {
    TokenListOf(s, p, t, m);
    SentenceOfList(s, p, Parsed(t.value + m.value, m.end), c);
  }

  /** A slice is its first character and the rest. */
  lemma SliceCons(s: string, a: nat, b: nat)
    requires a < b <= |s|
    ensures [s[a]] + s[a + 1..b] == s[a..b]
  {
  }

  /** The whole input, as a first token, the later tokens and a final
      mark. */
  lemma SentenceSlices(s: string, a: nat, c: nat)
    requires a <= c && c + 1 == |s|
    ensures s[0..a] + s[a..c] + [s[c]] == s
  {
    SliceSplit(s, 0, a, c);
    SliceSnoc(s, 0, c, c + 1);
    assert s[0..|s|] == s;
  }

  /** A space, then a word before a closing mark: one more token, which is
      all the input it consumed. */
  lemma SpaceWordMark(s: string, a: nat, c: nat)
    requires a + 1 < c < |s| && s[a] == ' '
    requires AllIn(s[a + 1..c], WordChar) && IsSentencePunct(s[c])
    requires c + 1 == |s| || IsWhitespace(s[c + 1])
    ensures MoreTokens(s, a) == Parsed(s[a..c], c)
  {
    WordThenMark(s, a + 1, c);
    MarkCloses(s, c);
    SpaceThenToken(s, a, Parsed(s[a + 1..c], c));
    EmptyJoins(" " + s[a + 1..c]);
    SliceCons(s, a, c);
  }

  /** A space, a bare `...`, a space and a word before a closing mark: the
      later tokens of `WordsAroundEllipsis`, all the input they consumed. */
  lemma EllipsisThenWord(s: string, a: nat, c: nat)
    requires a + 5 < c < |s|
    requires s[a] == ' ' && EllipsisAt(s, a + 1) && s[a + 4] == ' '
    requires AllIn(s[a + 5..c], WordChar) && IsSentencePunct(s[c])
    requires c + 1 == |s| || IsWhitespace(s[c + 1])
    ensures MoreTokens(s, a) == Parsed(s[a..c], c)
  {
    BareEllipsis(s, a + 1);
    SpaceWordMark(s, a + 4, c);
    SpaceThenToken(s, a, Parsed("...", a + 4));
    SpaceEllipsisSlices(s, a, c);
  }

  /** A space and `...` before the slice from a + 4 on make the slice from a. */
  lemma SpaceEllipsisSlices(s: string, a: nat, c: nat)
    requires a + 4 <= c <= |s| && s[a] == ' ' && EllipsisAt(s, a + 1)
    ensures " " + "..." + s[a + 4..c] == s[a..c]
  {
    EllipsisText(s, a + 1);
    SliceSplit(s, a + 1, a + 4, c);
    SliceCons(s, a, c);
    assert " " + "..." + s[a + 4..c] == [s[a]] + (s[a + 1..a + 4] + s[a + 4..c]);
  }

  /** A word, a space, a bare `...`, a space, a word and a closing mark:
      the sentence is the whole input, the `...` and the mark kept. */
  lemma WordsAroundEllipsis(s: string, a: nat, c: nat)
    requires 0 < a && a + 5 < c && c + 1 == |s|
    requires AllIn(s[0..a], WordChar) && s[a] == ' ' && EllipsisAt(s, a + 1) && s[a + 4] == ' '
    requires AllIn(s[a + 5..c], WordChar) && IsSentencePunct(s[c])
    ensures Sentence(s, 0) == Some(Parsed(s, |s|))
  {
    WordThenSpace(s, 0, a);
    EllipsisThenWord(s, a, c);
    MarkCloses(s, c);
    SentenceSlices(s, a, c);
    SentenceOf(s, 0, Parsed(s[0..a], a), Parsed(s[a..c], c), Parsed([s[c]], c + 1));
    var r := Sentence(s, 0).value;
    assert r.value == s[0..a] + s[a..c] + [s[c]];
    assert r.value == s && r.end == |s|;
  }

  /** A word ending in `...`, a space, a word and a closing mark: the
      sentence is the whole input, the `...` and the mark kept. */
  lemma WordEllipsisThenWord(s: string, a: nat, c: nat)
    requires 0 < a && a + 4 < c && c + 1 == |s|
    requires AllIn(s[0..a], WordChar) && EllipsisAt(s, a) && s[a + 3] == ' '
    requires AllIn(s[a + 4..c], WordChar) && IsSentencePunct(s[c])
    ensures Sentence(s, 0) == Some(Parsed(s, |s|))
  {
    WordThenEllipsis(s, 0, a);
    EllipsisText(s, a);
    SliceSplit(s, 0, a, a + 3);
    SpaceWordMark(s, a + 3, c);
    MarkCloses(s, c);
    SentenceSlices(s, a + 3, c);
    SentenceOf(s, 0, Parsed(s[0..a + 3], a + 3), Parsed(s[a + 3..c], c), Parsed([s[c]], c + 1));
    var r := Sentence(s, 0).value;
    assert r.value == s[0..a + 3] + s[a + 3..c] + [s[c]];
    assert r.value == s && r.end == |s|;
  }

  /** "a ... b.": a bare `...` between two words is a token of its own, and
      the sentence keeps it. */
  lemma EllipsisSentence(s: string)
    requires s == "a ... b."
    ensures Sentence(s, 0) == Some(Parsed("a ... b.", 8))
  {
    assert |s| == 8 && s[0..1] == "a" && s[6..7] == "b" && EllipsisAt(s, 2);
    assert s[1] == ' ' && s[5] == ' ' && s[7] == '.';
    WordsAroundEllipsis(s, 1, 7);
  }

  /** "Wait... really?": the trailing `...` of a word and the closing '?'
      are kept. */
  lemma TrailingEllipsisSentence(s: string)
    requires s == "Wait... really?"
    ensures Sentence(s, 0) == Some(Parsed("Wait... really?", 15))
  {
    assert |s| == 15 && s[0..4] == "Wait" && s[8..14] == "really" && EllipsisAt(s, 4);
    assert s[7] == ' ' && s[14] == '?';
    WordEllipsisThenWord(s, 4, 14);
  }

  /** Four dots and a space before a sentence that runs to the end of the
      input: the last iteration of the sentence repetition, which keeps the
      dots and the space. */
  lemma FourDotsThenLast(s: string, p: nat, x: Parsed<string>)
    requires p + 5 < |s| && FourDotsAt(s, p) && s[p + 4] == ' ' && !IsWhitespace(s[p + 5])
    requires Sentence(s, p + 5) == Some(x) && x.end == |s|
    ensures MoreSentences(s, p) == Parsed("...." + " " + x.value + "", |s|)
  {
    OneSpace(s, p + 4);
    FourDotsDelimText(s, p);
    AtEnd(s);
  }

  /** A section from its indent and its sentence list, with no leading and
      no trailing four dots. */
  lemma SectionOf(s: string, p: nat, a: nat, l: Parsed<string>)
    requires p <= a <= |s| && SectionIndent(s, p) == Some(a) && !FourDotsAt(s, a)
    requires SentenceList(s, a) == Some(l) && TrailingDots(s, l.end) == l.end
    ensures Section(s, p) == Some(l)
  {
  }

  /** The input after the indent, read as the pieces `DotsBetweenSentences`
      assembles. */
  lemma DotsSectionText(s: string)
    requires |s| == 10 && FourDotsAt(s, 2) && s[6] == '.' && s[7] == ' ' && s[9] == '.'
    ensures [s[1]] + "" + [s[2]] + ("...." + " " + [s[8], '.'] + "") == s[1..]
  {
    EllipsisText(s, 2);
    assert s[1..] == [s[1], s[2], s[3], s[4], s[5], s[6], s[7], s[8], s[9]];
  }

  /** An indented sentence of one word character, four more dots, a space
      and another such sentence: the sentence list keeps the dots, so the
      section's text is all of the input after the indent. */
  lemma DotsBetweenSentences(s: string)
    requires |s| == 10 && s[0] == ' ' && InClass(s[1], WordChar) && FourDotsAt(s, 2)
    requires s[6] == '.' && s[7] == ' ' && InClass(s[8], WordChar) && s[9] == '.'
    ensures Section(s, 0) == Some(Parsed(s[1..], |s|))
  {
    assert s[1..2] == [s[1]] && AllIn(s[1..2], WordChar);
    WordThenFourDots(s, 1, 2);
    MarkCloses(s, 2);
    SentenceOf(s, 1, Parsed([s[1]], 2), Parsed("", 2), Parsed([s[2]], 3));
    LetterSentence(s, 8);
    FourDotsThenLast(s, 3, Parsed([s[8], '.'], 10));
    DotsSectionText(s);
    OneSpaceIndent(s, 0);
    AtEnd(s);
    SectionOf(s, 0, 1, Parsed(s[1..], 10));
  }

  /** " a..... b.": the '.' after "a" closes the first sentence and the
      next four dots are the delimiter, which the section keeps. */
  lemma DotsSection(s: string)
    requires s == " a..... b."
    ensures Section(s, 0) == Some(Parsed("a..... b.", 10))
  {
    assert |s| == 10 && s[0] == ' ' && InClass(s[1], WordChar) && FourDotsAt(s, 2);
    assert s[6] == '.' && s[7] == ' ' && InClass(s[8], WordChar) && s[9] == '.';
    DotsBetweenSentences(s);
    assert s[1..] == "a..... b.";
  }
}
