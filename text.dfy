/** Shared vocabulary of the grammar: match results, the character classes the
    productions are built from, maximal runs of one class, and literals.

    Every production is a function of the whole input `s` and a cursor `pos`.
    Leading whitespace is never skipped (the grammar sets pyparsing's default
    whitespace to the empty set), so each character is consumed by some
    production explicitly. */
module Text {

  datatype Option<+T> = None | Some(value: T)

  /** A successful match: what the production produces and the position just
      after the text it consumed. */
  datatype Parsed<+T> = Parsed(value: T, end: nat)

  /** Where an optional element leaves the cursor: after its match, or where it
      started when it did not match. */
  function EndOr<T>(r: Option<Parsed<T>>, pos: nat): nat {
    if r.Some? then r.value.end else pos
  }

  /** The text an optional element contributes to a combined string. */
  function TextOr(r: Option<Parsed<string>>): string {
    if r.Some? then r.value.value else ""
  }

  // The character sets of the grammar.

  /** `sentence_punct_chars = '.?!'`: marks that are printable but neither
      a letter nor a digit. */
  predicate IsSentencePunct(c: char): (b: bool)
    ensures b ==> IsPrintable(c) && !IsAlnum(c) && !IsWhitespace(c)
  {
    c == '.' || c == '?' || c == '!'
  }

  /** `whitespace_chars = ' \t\r\n'`: no printable character is one. */
  predicate IsWhitespace(c: char): (b: bool)
    ensures b ==> !IsPrintable(c) && !IsAlnum(c)
  {
    c == ' ' || c == '\t' || c == '\r' || c == '\n'
  }

  /** Horizontal whitespace, the characters of `Word(' \t')`. */
  predicate IsHSpace(c: char) { c == ' ' || c == '\t' }

  /** pyparsing's `alphas`: the ASCII letters. */
  predicate IsAlpha(c: char) { 'A' <= c <= 'Z' || 'a' <= c <= 'z' }

  /** What was consumed up to `e` ends on a character that is not
      whitespace. */
  predicate InkBefore(s: string, e: nat)
    requires e <= |s|
  {
    0 < e && !IsWhitespace(s[e - 1])
  }

  /** pyparsing's `alphanums`: ASCII letters and digits. */
  predicate IsAlnum(c: char) { IsAlpha(c) || '0' <= c <= '9' }

  /** pyparsing's `printables`: the ASCII characters from '!' to '~'. */
  predicate IsPrintable(c: char) { '!' <= c <= '~' }

  datatype CharClass =
    | HSpace     // Word(' \t')
    | Blank      // Literal(' ')
    | WordChar   // CharsNotIn(sentence_punct_chars + whitespace_chars)
    | NonAlnum   // CharsNotIn(alphanums + whitespace_chars)
    | Printable  // Word(printables)
    | Punct      // sentence_punct_chars
    | Ink        // anything but whitespace_chars
    | Layout     // whitespace_chars
    | Inline     // anything but a line break ('\r' or '\n')

  predicate InClass(c: char, k: CharClass) {
    match k
    case HSpace => IsHSpace(c)
    case Blank => c == ' '
    case WordChar => !IsSentencePunct(c) && !IsWhitespace(c)
    case NonAlnum => !IsAlnum(c) && !IsWhitespace(c)
    case Printable => IsPrintable(c)
    case Punct => IsSentencePunct(c)
    case Ink => !IsWhitespace(c)
    case Layout => IsWhitespace(c)
    case Inline => c != '\r' && c != '\n'
  }

  predicate AllIn(t: string, k: CharClass) {
    forall i | 0 <= i < |t| :: InClass(t[i], k)
  }

  /** `lit` occurs in `s` at `pos`. */
  predicate LitAt(s: string, pos: nat, lit: string) {
    pos + |lit| <= |s| && forall i | 0 <= i < |lit| :: s[pos + i] == lit[i]
  }

  /** `Literal('.')` would match at `p`; `~Literal('.')` is its negation. */
  predicate DotAt(s: string, p: nat) { p < |s| && s[p] == '.' }

  /** `Literal('...')` would match at `p`. */
  predicate EllipsisAt(s: string, p: nat) {
    p + 3 <= |s| && s[p] == '.' && s[p + 1] == '.' && s[p + 2] == '.'
  }

  /** `Literal('....')` would match at `p`. */
  predicate FourDotsAt(s: string, p: nat) { EllipsisAt(s, p) && DotAt(s, p + 3) }

  /** The text of an ellipsis is three marks. */
  lemma EllipsisText(s: string, p: nat)
    requires EllipsisAt(s, p)
    ensures s[p..p + 3] == "..." && AllIn(s[p..p + 3], Punct)
  {
    assert s[p..p + 3] == [s[p], s[p + 1], s[p + 2]];
  }

  /** A literal that occurs at `pos` is the slice of `s` it covers. */
  lemma LitSlice(s: string, pos: nat, lit: string)
    requires LitAt(s, pos, lit)
    ensures s[pos..pos + |lit|] == lit
  {
    assert forall i | 0 <= i < |lit| :: s[pos..pos + |lit|][i] == lit[i];
  }

  /** The end of the longest run of class-`k` characters starting at `pos`. */
  function RunEnd(s: string, pos: nat, k: CharClass): (e: nat)
    requires pos <= |s|
    ensures pos <= e <= |s|
    ensures AllIn(s[pos..(e)], k)
    ensures e == |s| || !InClass(s[e], k)
    decreases |s| - pos
  {
    if pos < |s| && InClass(s[pos], k) then
      var rest := RunEnd(s, pos + 1, k);
      assert forall i | 1 <= i < rest - pos :: s[pos..rest][i] == s[pos + 1..rest][i - 1];
      rest
    else pos
  }

  /** `Word(chars)` and `CharsNotIn(chars)` with no length bound: the longest
      non-empty run of class-`k` characters. */
  function Run(s: string, pos: nat, k: CharClass): (r: Option<Parsed<string>>)
    requires pos <= |s|
    ensures r.Some? <==> pos < |s| && InClass(s[pos], k)
    ensures r.Some? ==> pos < r.value.end <= |s| && r.value.value == s[pos..(r.value.end)]
    ensures r.Some? ==> AllIn(r.value.value, k)
    ensures r.Some? ==> r.value.end == |s| || !InClass(s[r.value.end], k)
  {
    var e := RunEnd(s, pos, k);
    if e == pos then None else Some(Parsed(s[pos..e], e))
  }

  /** A run is determined by its class: any stretch of class-`k` characters
      that is not followed by one is exactly what `RunEnd` finds. */
  lemma {:induction false} RunEndUnique(s: string, pos: nat, k: CharClass, e: nat)
    requires pos <= e <= |s|
    requires AllIn(s[pos..e], k)
    requires e == |s| || !InClass(s[e], k)
    ensures RunEnd(s, pos, k) == e
    decreases e - pos
  {
    if pos < e {
      assert InClass(s[pos..e][0], k);
      assert s[pos + 1..e] == s[pos..e][1..];
      RunEndUnique(s, pos + 1, k, e);
    }
  }

  lemma AllInConcat(a: string, b: string, k: CharClass)
    ensures AllIn(a + b, k) <==> AllIn(a, k) && AllIn(b, k)
  {
    if AllIn(a, k) && AllIn(b, k) {
      forall i | 0 <= i < |a + b| ensures InClass((a + b)[i], k) {
        if i >= |a| { assert (a + b)[i] == b[i - |a|]; }
      }
    }
    if AllIn(a + b, k) {
      forall i | 0 <= i < |a| ensures InClass(a[i], k) {
        assert (a + b)[i] == a[i];
      }
      forall i | 0 <= i < |b| ensures InClass(b[i], k) {
        assert (a + b)[|a| + i] == b[i];
      }
    }
  }

  /** The classes none of whose characters is whitespace. */
  predicate IsInkClass(k: CharClass) {
    k == WordChar || k == NonAlnum || k == Printable || k == Punct || k == Ink
  }

  lemma InkClassIsInk(t: string, k: CharClass)
    requires IsInkClass(k) && AllIn(t, k)
    ensures AllIn(t, Ink)
  {
  }

  /** The classes that hold no line break. */
  lemma InlineClass(t: string, k: CharClass)
    requires (IsInkClass(k) || k == HSpace || k == Blank) && AllIn(t, k)
    ensures AllIn(t, Inline)
  {
  }

  /** The word characters of `t` in order: what is left of a text once every
      '.', '?', '!' and whitespace character is removed. */
  function Letters(t: string): (r: string)
    ensures |r| <= |t| && AllIn(r, WordChar)
  {
    if |t| == 0 then ""
    else if InClass(t[0], WordChar) then [t[0]] + Letters(t[1..])
    else Letters(t[1..])
  }

  lemma {:induction false} LettersConcat(a: string, b: string)
    ensures Letters(a + b) == Letters(a) + Letters(b)
    decreases |a|
  {
    if |a| > 0 {
      assert (a + b)[0] == a[0] && (a + b)[1..] == a[1..] + b;
      LettersConcat(a[1..], b);
    } else {
      assert a + b == b;
    }
  }

  /** A text of marks and whitespace only has no letters. */
  lemma {:induction false} LettersOfNone(t: string)
    requires forall i | 0 <= i < |t| :: !InClass(t[i], WordChar)
    ensures Letters(t) == ""
    decreases |t|
  {
    if |t| > 0 {
      assert forall i | 0 <= i < |t| - 1 :: t[1..][i] == t[i + 1];
      LettersOfNone(t[1..]);
    }
  }

  lemma LettersOfLayout(t: string)
    requires AllIn(t, Layout) || AllIn(t, Punct)
    ensures Letters(t) == ""
  {
    LettersOfNone(t);
  }

  lemma LettersSlices(s: string, a: nat, b: nat, c: nat)
    requires a <= b <= c <= |s|
    ensures Letters(s[a..c]) == Letters(s[a..b]) + Letters(s[b..c])
  {
    SliceSplit(s, a, b, c);
    LettersConcat(s[a..b], s[b..c]);
  }

  /** Two texts that keep the letters of adjacent stretches of `s` keep,
      together, the letters of both stretches. */
  lemma LettersJoin(s: string, a: nat, b: nat, c: nat, x: string, y: string)
    requires a <= b <= c <= |s|
    requires Letters(x) == Letters(s[a..b]) && Letters(y) == Letters(s[b..c])
    ensures Letters(x + y) == Letters(s[a..c])
  {
    LettersSlices(s, a, b, c);
    LettersConcat(x, y);
  }

  /** Letterless input before a stretch does not change its letters. */
  lemma LettersAfterGap(s: string, a: nat, b: nat, c: nat, x: string)
    requires a <= b <= c <= |s|
    requires Letters(s[a..b]) == "" && Letters(x) == Letters(s[b..c])
    ensures Letters(x) == Letters(s[a..c])
  {
    LettersSlices(s, a, b, c);
  }

  /** Letterless input after a stretch does not change its letters. */
  lemma LettersBeforeGap(s: string, a: nat, b: nat, c: nat, x: string)
    requires a <= b <= c <= |s|
    requires Letters(x) == Letters(s[a..b]) && Letters(s[b..c]) == ""
    ensures Letters(x) == Letters(s[a..c])
  {
    LettersSlices(s, a, b, c);
  }

  lemma LettersOfWhole(s: string)
    ensures Letters(s[0..|s|]) == Letters(s)
  {
    assert s[0..|s|] == s;
  }

  /** The empty text is a unit of concatenation on both sides. */
  lemma EmptyJoins(x: string)
    ensures "" + x == x && x + "" == x
  {
  }

  lemma SliceSplit(s: string, a: nat, b: nat, c: nat)
    requires a <= b <= c <= |s|
    ensures s[a..c] == s[a..b] + s[b..c]
  {
  }

  lemma SliceSnoc(s: string, a: nat, b: nat, e: nat)
    requires a <= b < |s| && e == b + 1
    ensures s[a..b] + [s[b]] == s[a..e]
  {
  }

  lemma AllInSlices(s: string, a: nat, b: nat, c: nat, k: CharClass)
    requires a <= b <= c <= |s|
    ensures AllIn(s[a..c], k) <==> AllIn(s[a..b], k) && AllIn(s[b..c], k)
  {
    SliceSplit(s, a, b, c);
    AllInConcat(s[a..b], s[b..c], k);
  }
}
