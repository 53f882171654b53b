/** `sentence` of parse.py: tokens joined by `token_space`, then either one
    closing mark or a lookahead for the end of the section. */
module Sentences {
  import opened Text
  import opened Lexical
  import opened Tokens

  /** The repeated part of `delimited_list(token, delim=token_space,
      combine=True)`: greedy `(token_space + token)*`, delimiters kept. */
  function MoreTokens(s: string, pos: nat): (r: Parsed<string>)
    requires pos <= |s|
    ensures pos <= r.end <= |s|
    ensures r.end == pos || InkBefore(s, r.end)
    decreases |s| - pos, 1
  {
    match TokenSpace(s, pos)
    case None => Parsed("", pos)
    case Some(sp) => MoreTokensFrom(s, pos, sp)
  }

  /** One iteration after its token space `sp` matched at `pos`: when no
      token follows, the iteration fails and the cursor goes back to `pos`,
      before the token space; otherwise it ends on the last character of a
      token, never on whitespace. */
  function MoreTokensFrom(s: string, pos: nat, sp: Parsed<string>): (r: Parsed<string>)
    requires pos < sp.end <= |s|
    ensures pos <= r.end <= |s|
    ensures r.end == pos || (pos < r.end && InkBefore(s, r.end))
    decreases |s| - pos, 0
  {
    match Token(s, sp.end)
    case None => Parsed("", pos)
    case Some(t) =>
      TokenEdges(s, sp.end);
      var rest := MoreTokens(s, t.end);
      Parsed(sp.value + t.value + rest.value, rest.end)
  }

  /** The repetition is greedy: where it stops, no token space followed by a
      token starts. */
  lemma {:induction false} MoreTokensStop(s: string, pos: nat)
    requires pos <= |s|
    ensures var e := MoreTokens(s, pos).end;
      TokenSpace(s, e).None? || Token(s, TokenSpace(s, e).value.end).None?
    decreases |s| - pos
  {
    var sp := TokenSpace(s, pos);
    if sp.Some? {
      var f := MoreTokensFrom(s, pos, sp.value);
      assert MoreTokens(s, pos).end == f.end;
      if Token(s, sp.value.end).Some? {
        var t := Token(s, sp.value.end).value;
        MoreTokensStop(s, t.end);
        assert f.end == MoreTokens(s, t.end).end;
      } else {
        assert f.end == pos;
      }
    }
  }

  /** A token is its input once the marks are removed; it holds no line
      break to remove. */
  lemma TokenUnbreak(s: string, pos: nat)
    requires pos <= |s|
    ensures var r := Token(s, pos);
      r.Some? ==> StripPunct(r.value.value) == StripPunct(Unbreak(s[pos..r.value.end]))
  {
    var r := Token(s, pos);
    if r.Some? {
      var x := s[pos..r.value.end];
      TokenInk(s, pos);
      TokenStripped(s, pos);
      InlineClass(x, Ink);
      UnbreakInline(x, "");
      assert [] + x == x;
    }
  }

  /** Two texts that each match their slice of the input, once line
      breaks and marks are removed, match the two slices together, when no
      line break spans the seam between them. */
  lemma UnbreakStrip2(s: string, p: nat, a: nat, c: nat, x: string, y: string)
    requires p <= a <= c <= |s|
    requires a == c || InkBefore(s, a) || !IsWhitespace(s[a])
    requires StripPunct(x) == StripPunct(Unbreak(s[p..a]))
    requires StripPunct(y) == StripPunct(Unbreak(s[a..c]))
    ensures StripPunct(x + y) == StripPunct(Unbreak(s[p..c]))
  {
    var u, v := Unbreak(s[p..a]), Unbreak(s[a..c]);
    UnbreakSlices(s, p, a, c);
    StripPunctConcat(x, y);
    StripPunctConcat(u, v);
  }

  /** The same for three texts. */
  lemma UnbreakStrip3(s: string, p: nat, a: nat, b: nat, c: nat, x: string, y: string, z: string)
    requires p <= a <= b <= c <= |s|
    requires a == c || InkBefore(s, a) || !IsWhitespace(s[a])
    requires b == c || InkBefore(s, b) || !IsWhitespace(s[b])
    requires StripPunct(x) == StripPunct(Unbreak(s[p..a]))
    requires StripPunct(y) == StripPunct(Unbreak(s[a..b]))
    requires StripPunct(z) == StripPunct(Unbreak(s[b..c]))
    ensures StripPunct(x + y + z) == StripPunct(Unbreak(s[p..c]))
  {
    UnbreakStrip2(s, p, a, b, x, y);
    UnbreakStrip2(s, p, b, c, x + y, z);
  }

  /** The text of the repetition holds no line break and exactly the letters
      of the input it consumed. Once the marks are removed from both, it is
      that input with its line breaks removed: nothing else is dropped,
      added or reordered. */
  lemma {:induction false} MoreTokensText(s: string, pos: nat)
    requires pos <= |s|
    ensures var r := MoreTokens(s, pos);
      && AllIn(r.value, Inline) && Letters(r.value) == Letters(s[pos..r.end])
      && StripPunct(r.value) == StripPunct(Unbreak(s[pos..r.end]))
    decreases |s| - pos
  {
    var sp := TokenSpace(s, pos);
    if sp.Some? {
      var f := MoreTokensFrom(s, pos, sp.value);
      assert MoreTokens(s, pos) == f;
      var a := sp.value.end;
      if Token(s, a).Some? {
        var t := Token(s, a).value;
        var rest := MoreTokens(s, t.end);
        assert f.value == sp.value.value + t.value + rest.value && f.end == rest.end;
        MoreTokensText(s, t.end);
        TokenSpaceText(s, pos);
        TokenInk(s, a);
        TokenLetters(s, a);
        InlineClass(t.value, Ink);
        AllInConcat(sp.value.value, t.value, Inline);
        AllInConcat(sp.value.value + t.value, rest.value, Inline);
        LettersConcat(sp.value.value, t.value);
        LettersConcat(sp.value.value + t.value, rest.value);
        LettersSlices(s, pos, a, t.end);
        LettersSlices(s, pos, t.end, rest.end);
        TokenEdges(s, a);
        TokenUnbreak(s, a);
        TokenSpaceUnbreak(s, pos);
        UnbreakStrip3(s, pos, a, t.end, rest.end, sp.value.value, t.value, rest.value);
      } else {
        assert f.value == "" && f.end == pos;
      }
    }
  }

  /** Exactly what each iteration keeps: its token's text, verbatim, after
      its token space, which is the input with any line break removed. An
      iteration whose token space no token follows consumes nothing. So the
      only marks a sentence drops are the ones `Token` drops inside a word. */
  lemma MoreTokensExact(s: string, pos: nat)
    requires pos <= |s|
    ensures var sp := TokenSpace(s, pos);
      var r := MoreTokens(s, pos);
      if sp.Some? && Token(s, sp.value.end).Some? then
        var a := sp.value.end;
        var t := Token(s, a).value;
        var rest := MoreTokens(s, t.end);
        r == Parsed(Unbreak(s[pos..a]) + t.value + rest.value, rest.end)
      else r == Parsed("", pos)
  {
    TokenSpaceUnbreak(s, pos);
  }

  /** `delimited_list(token, delim=token_space, combine=True)`: one or more
      tokens and the token spaces between them, as one string. */
  function TokenList(s: string, pos: nat): (r: Option<Parsed<string>>)
    requires pos <= |s|
    ensures r.Some? <==> Token(s, pos).Some?
    ensures r.Some? ==> pos < r.value.end <= |s|
    ensures r.Some? ==> !IsWhitespace(s[pos]) && InkBefore(s, r.value.end)
  {
    match Token(s, pos)
    case None => None
    case Some(t) =>
      TokenEdges(s, pos);
      var m := MoreTokens(s, t.end);
      Some(Parsed(t.value + m.value, m.end))
  }

  /** A token list is never empty, starts at a non-whitespace character, holds
      no line break and keeps every letter of the input it consumed; with the
      marks removed, it is its input with the line breaks removed. */
  lemma TokenListText(s: string, pos: nat)
    requires pos <= |s|
    ensures var r := TokenList(s, pos);
      r.Some? ==>
        && |r.value.value| > 0 && !IsWhitespace(s[pos]) && AllIn(r.value.value, Inline)
        && Letters(r.value.value) == Letters(s[pos..r.value.end])
        && StripPunct(r.value.value) == StripPunct(Unbreak(s[pos..r.value.end]))
  {
    var r := TokenList(s, pos);
    if r.Some? {
      var t := Token(s, pos).value;
      var m := MoreTokens(s, t.end);
      assert r.value.value == t.value + m.value && r.value.end == m.end;
      TokenInk(s, pos);
      TokenLetters(s, pos);
      MoreTokensText(s, t.end);
      assert InClass(s[pos..t.end][0], Ink);
      InlineClass(t.value, Ink);
      AllInConcat(t.value, m.value, Inline);
      LettersConcat(t.value, m.value);
      LettersSlices(s, pos, t.end, m.end);
      TokenEdges(s, pos);
      TokenUnbreak(s, pos);
      UnbreakStrip2(s, pos, t.end, m.end, t.value, m.value);
    }
  }

  /** `Opt(token_space) + Char(sentence_punct_chars)`: the token space is
      kept, then exactly one mark. */
  function CloseMark(s: string, e: nat): (r: Option<Parsed<string>>)
    requires e <= |s|
    ensures r.Some? ==> e < r.value.end <= |s| && |r.value.value| > 0
    ensures r.Some? ==>
      var v := r.value.value;
      && IsSentencePunct(s[r.value.end - 1]) && v[|v| - 1] == s[r.value.end - 1]
      && AllIn(v[..|v| - 1], HSpace)
    ensures r.Some? <==> var q := EndOr(TokenSpace(s, e), e); q < |s| && IsSentencePunct(s[q])
  {
    var ts := TokenSpace(s, e);
    var p := EndOr(ts, e);
    if p < |s| && IsSentencePunct(s[p]) then
      assert (TextOr(ts) + [s[p]])[..|TextOr(ts)|] == TextOr(ts);
      Some(Parsed(TextOr(ts) + [s[p]], p + 1))
    else None
  }

  /** `FollowedBy(section_sep | (Opt(token_space) + Literal('....')))`: a
      zero-width test. It holds only where a blank line or a closing mark
      follows, since the first of the four dots is itself a mark. */
  predicate CloseAhead(s: string, e: nat)
    requires e <= |s|
    ensures CloseAhead(s, e) ==> SectionSep(s, e).Some? || CloseMark(s, e).Some?
  {
    SectionSep(s, e).Some? || FourDotsAt(s, EndOr(TokenSpace(s, e), e))
  }

  /** `(Opt(token_space) + Char(sentence_punct_chars)) | FollowedBy(...)`:
      the closing mark, or else the empty text when the lookahead holds. */
  function Close(s: string, e: nat): (r: Option<Parsed<string>>)
    requires e <= |s|
    ensures r.Some? ==> e <= r.value.end <= |s|
    ensures r.Some? ==> r.value.end == e || IsSentencePunct(s[r.value.end - 1])
    ensures r.Some? ==> r.value.end == e || InkBefore(s, r.value.end)
  {
    match CloseMark(s, e)
    case Some(c) => Some(c)
    case None => if CloseAhead(s, e) then Some(Parsed("", e)) else None
  }

  /** A mark right after the last token, or after spaces and tabs on the
      same line, closes the sentence; the spaces are kept: "a ." closes with
      " .". */
  lemma CloseMarkSameLine(s: string, e: nat, k: nat)
    requires e <= k < |s| && AllIn(s[e..k], HSpace) && IsSentencePunct(s[k])
    ensures CloseMark(s, e) == Some(Parsed(s[e..k] + [s[k]], k + 1))
  {
    RunEndUnique(s, e, HSpace, k);
    if e < k {
      assert s[k + 0] != "\n"[0] && s[k + 0] != "\r\n"[0];
      assert Newline(s, e).None?;
      assert TokenSpace(s, e) == Some(Parsed(s[e..k], k));
    } else {
      assert s[e..k] == [];
    }
  }

  /** A mark on the next line closes the sentence too: the line break is
      dropped and the spaces after it are kept, so "a\n." closes with ".". */
  lemma CloseMarkNextLine(s: string, e: nat, b: nat, k: nat)
    requires e < b <= k < |s| && IsLineBreak(s[e..b]) && AllIn(s[b..k], HSpace)
    requires IsSentencePunct(s[k])
    ensures CloseMark(s, e) == Some(Parsed(s[b..k] + [s[k]], k + 1))
  {
    TokenSpaceTakesBreak(s, e, b);
    RunEndUnique(s, b, HSpace, k);
    var t := TokenSpace(s, e).value;
    assert t.end == RunEnd(s, b, HSpace) by {
      RunEndUnique(s, b, HSpace, t.end);
    }
  }

  /** A mark after a blank line does not close the sentence: "a\n\n." has no
      closing mark after "a". */
  lemma CloseMarkNotAcrossBlankLine(s: string, e: nat, b: nat, c: nat)
    requires e < b < c <= |s| && IsLineBreak(s[e..b]) && IsLineBreak(s[b..c])
    ensures CloseMark(s, e).None?
  {
    TokenSpaceTakesBreak(s, e, b);
    LineBreakAtRunEnd(s, b, c);
    var t := TokenSpace(s, e).value;
    assert t.end == RunEnd(s, b, HSpace) by {
      RunEndUnique(s, b, HSpace, t.end);
    }
  }

  /** The '....' half of the lookahead never decides anything: wherever it
      holds, the closing mark matches the first '.' of the four. */
  lemma FourDotsAlreadyClosed(s: string, e: nat)
    requires e <= |s|
    ensures FourDotsAt(s, EndOr(TokenSpace(s, e), e)) ==> CloseMark(s, e).Some?
  {
  }

  /** The close matches exactly when a closing mark follows (after an
      optional token space) or a blank line does. */
  lemma CloseCases(s: string, e: nat)
    requires e <= |s|
    ensures Close(s, e).Some? <==> CloseMark(s, e).Some? || SectionSep(s, e).Some?
  {
    FourDotsAlreadyClosed(s, e);
  }

  /** A sentence closes in exactly two ways: with a mark, which ends both its
      text and the input it consumed; or with nothing, right before a blank
      line. */
  lemma CloseEnd(s: string, e: nat)
    requires e <= |s|
    ensures var r := Close(s, e);
      r.Some? ==>
        || (&& e < r.value.end && |r.value.value| > 0 && IsSentencePunct(s[r.value.end - 1])
            && r.value.value[|r.value.value| - 1] == s[r.value.end - 1])
        || (r.value.end == e && r.value.value == "" && SectionSep(s, e).Some?)
  {
    var c := CloseMark(s, e);
    if c.Some? {
      assert Close(s, e).value.value == c.value.value && Close(s, e).value.end == c.value.end;
    } else {
      FourDotsAlreadyClosed(s, e);
    }
  }

  /** `sentence`: a token list, then its close; the whole sentence fails when
      neither a mark nor the lookahead follows the token list. */
  function Sentence(s: string, pos: nat): (r: Option<Parsed<string>>)
    requires pos <= |s|
    ensures r.Some? ==> pos < r.value.end <= |s|
    ensures r.Some? ==> !IsWhitespace(s[pos]) && InkBefore(s, r.value.end)
  {
    match TokenList(s, pos)
    case None => None
    case Some(tl) =>
      match Close(s, tl.end)
      case Some(c) => Some(Parsed(tl.value + c.value, c.end))
      case None => None
  }

  /** A sentence starts and ends on a character that is not whitespace. */
  lemma SentenceEdges(s: string, pos: nat)
    requires pos <= |s| && Sentence(s, pos).Some?
    ensures !IsWhitespace(s[pos]) && InkBefore(s, Sentence(s, pos).value.end)
  {
  }

  /** When a sentence matches: its token list matches, and after it comes
      either a closing mark (after an optional token space) or a blank
      line. */
  lemma SentenceCases(s: string, pos: nat)
    requires pos <= |s|
    ensures var tl := TokenList(s, pos);
      Sentence(s, pos).Some? <==>
        tl.Some? && (CloseMark(s, tl.value.end).Some? || SectionSep(s, tl.value.end).Some?)
  {
    if TokenList(s, pos).Some? {
      CloseCases(s, TokenList(s, pos).value.end);
    }
  }

  /** A sentence ends either in a mark that is also the last character of its
      text, or right before a blank line. */
  lemma SentenceEnd(s: string, pos: nat)
    requires pos <= |s|
    ensures var r := Sentence(s, pos);
      r.Some? ==>
        || (|r.value.value| > 0 && IsSentencePunct(r.value.value[|r.value.value| - 1]))
        || SectionSep(s, r.value.end).Some?
  {
    var r := Sentence(s, pos);
    if r.Some? {
      var tl := TokenList(s, pos).value;
      var c := Close(s, tl.end).value;
      CloseEnd(s, tl.end);
      var v := r.value.value;
      assert v == tl.value + c.value && r.value.end == c.end;
      if c.end > tl.end {
        assert |c.value| > 0 && v[|v| - 1] == c.value[|c.value| - 1];
      }
    }
  }

  /** A sentence is never empty, starts at a non-whitespace character, holds
      no line break (a line break inside a token space is dropped) and keeps
      every letter of the input it consumed. Once the marks are removed from
      both, it is exactly that input with its line breaks removed. */
  lemma SentenceText(s: string, pos: nat)
    requires pos <= |s|
    ensures var r := Sentence(s, pos);
      r.Some? ==>
        && |r.value.value| > 0 && !IsWhitespace(s[pos]) && AllIn(r.value.value, Inline)
        && Letters(r.value.value) == Letters(s[pos..r.value.end])
        && StripPunct(r.value.value) == StripPunct(Unbreak(s[pos..r.value.end]))
  {
    var r := Sentence(s, pos);
    if r.Some? {
      var tl := TokenList(s, pos).value;
      var c := Close(s, tl.end).value;
      assert r.value.value == tl.value + c.value && r.value.end == c.end;
      TokenListText(s, pos);
      CloseText(s, tl.end);
      AllInConcat(tl.value, c.value, Inline);
      LettersConcat(tl.value, c.value);
      LettersSlices(s, pos, tl.end, c.end);
      CloseUnbreak(s, tl.end);
      UnbreakStrip2(s, pos, tl.end, c.end, tl.value, c.value);
    }
  }

  /** Exactly what a sentence keeps: its first token's text, verbatim, then
      the later tokens as `MoreTokensExact` gives them, then the close,
      which is the input it consumed with any line break removed. A leading
      mark or a trailing `...` of a token and the closing mark all stay. */
  lemma SentenceExact(s: string, pos: nat)
    requires pos <= |s|
    ensures var r := Sentence(s, pos);
      r.Some? ==>
        var t := Token(s, pos).value;
        var m := MoreTokens(s, t.end);
        r.value.value == t.value + m.value + Unbreak(s[m.end..r.value.end])
  {
    if Sentence(s, pos).Some? {
      var m := MoreTokens(s, Token(s, pos).value.end);
      CloseUnbreak(s, m.end);
    }
  }

  /** The close holds no line break and no letter, in its text or in the
      input it consumed. */
  lemma CloseText(s: string, e: nat)
    requires e <= |s|
    ensures var r := Close(s, e);
      r.Some? ==>
        && AllIn(r.value.value, Inline) && Letters(r.value.value) == ""
        && Letters(s[e..r.value.end]) == ""
  {
    if CloseMark(s, e).Some? {
      CloseMarkText(s, e);
    }
  }

  /** The closing part holds no line break and no letter, in its text or in
      the input it consumed. */
  lemma CloseMarkText(s: string, e: nat)
    requires e <= |s|
    ensures var r := CloseMark(s, e);
      r.Some? ==>
        && AllIn(r.value.value, Inline) && Letters(r.value.value) == ""
        && Letters(s[e..r.value.end]) == ""
  {
    var r := CloseMark(s, e);
    if r.Some? {
      var ts := TokenSpace(s, e);
      var p := EndOr(ts, e);
      assert r.value.value == TextOr(ts) + [s[p]] && r.value.end == p + 1;
      OptTokenSpaceText(s, e);
      SpaceThenMarkText(s, e, p, TextOr(ts));
    }
  }

  /** The close yields exactly its input with the line break removed: the
      spaces and tabs after a line break, then the mark. */
  lemma CloseUnbreak(s: string, e: nat)
    requires e <= |s|
    ensures var r := Close(s, e);
      r.Some? ==> r.value.value == Unbreak(s[e..r.value.end])
  {
    if CloseMark(s, e).Some? {
      CloseMarkUnbreak(s, e);
    } else if Close(s, e).Some? {
      assert s[e..e] == [];
    }
  }

  lemma CloseMarkUnbreak(s: string, e: nat)
    requires e <= |s|
    ensures var r := CloseMark(s, e);
      r.Some? ==> r.value.value == Unbreak(s[e..r.value.end])
  {
    var c := CloseMark(s, e);
    if c.Some? {
      var ts := TokenSpace(s, e);
      var p := EndOr(ts, e);
      assert c.value.value == TextOr(ts) + [s[p]] && c.value.end == p + 1;
      OptTokenSpaceUnbreak(s, e);
      SpaceThenMarkUnbreak(s, e, p);
    }
  }

  /** A mark after a stretch of input is kept after what that stretch
      yields. */
  lemma SpaceThenMarkUnbreak(s: string, e: nat, p: nat)
    requires e <= p < |s| && IsSentencePunct(s[p])
    ensures Unbreak(s[e..p + 1]) == Unbreak(s[e..p]) + [s[p]]
  {
    UnbreakSlices(s, e, p, p + 1);
    assert s[p..p + 1] == [s[p]];
    UnbreakInline([s[p]], "");
    assert [] + [s[p]] == [s[p]];
  }

  /** Letterless one-line text before a mark stays so with the mark. */
  lemma SpaceThenMarkText(s: string, e: nat, p: nat, x: string)
    requires e <= p < |s| && IsSentencePunct(s[p])
    requires AllIn(x, Inline) && Letters(x) == "" && Letters(s[e..p]) == ""
    ensures AllIn(x + [s[p]], Inline) && Letters(x + [s[p]]) == "" && Letters(s[e..p + 1]) == ""
  {
    MarkHasNoLetter(s, p);
    AllInConcat(x, [s[p]], Inline);
    LettersConcat(x, [s[p]]);
    LettersSlices(s, e, p, p + 1);
  }

  /** `Opt(token_space)` holds no line break and no letter, in its text or
      in the input it consumed. */
  lemma OptTokenSpaceText(s: string, e: nat)
    requires e <= |s|
    ensures var ts := TokenSpace(s, e);
      && AllIn(TextOr(ts), Inline) && Letters(TextOr(ts)) == ""
      && Letters(s[e..EndOr(ts, e)]) == ""
  {
    if TokenSpace(s, e).Some? {
      TokenSpaceText(s, e);
    } else {
      assert s[e..e] == "";
    }
  }

  lemma MarkHasNoLetter(s: string, p: nat)
    requires p < |s| && IsSentencePunct(s[p])
    ensures AllIn([s[p]], Inline) && Letters([s[p]]) == "" && Letters(s[p..p + 1]) == ""
  {
    assert s[p..p + 1] == [s[p]];
    LettersOfLayout([s[p]]);
  }

  /** A token list stops at a mark: no token space starts there. */
  lemma MoreTokensAtMark(s: string, d: nat)
    requires d < |s| && IsSentencePunct(s[d])
    ensures MoreTokens(s, d) == Parsed("", d)
  {
    assert TokenSpace(s, d).None?;
  }

  /** A mark right after the token list closes the sentence by itself. */
  lemma CloseAtMark(s: string, d: nat)
    requires d < |s| && IsSentencePunct(s[d])
    ensures Close(s, d) == Some(Parsed([s[d]], d + 1))
  {
    assert TokenSpace(s, d).None?;
  }

  /** A token that no further token follows is the whole token list. */
  lemma LoneToken(s: string, pos: nat, x: string, d: nat)
    requires pos <= d <= |s|
    requires Token(s, pos) == Some(Parsed(x, d)) && MoreTokens(s, d) == Parsed("", d)
    ensures TokenList(s, pos) == Some(Parsed(x, d))
  {
    EmptyJoins(x);
  }

  /** A token directly followed by a mark is a whole sentence: the token's
      text, then the mark. */
  lemma TokenThenMark(s: string, pos: nat, x: string, d: nat, e: nat)
    requires pos <= d < |s| && IsSentencePunct(s[d]) && e == d + 1
    requires Token(s, pos) == Some(Parsed(x, d))
    ensures Sentence(s, pos) == Some(Parsed(x + [s[d]], e))
  {
    MoreTokensAtMark(s, d);
    LoneToken(s, pos, x, d);
    CloseAtMark(s, d);
  }

  /** The same when the mark is a full stop. */
  lemma TokenThenDot(s: string, pos: nat, x: string, d: nat, e: nat)
    requires pos <= d < |s| && s[d] == '.' && e == d + 1
    requires Token(s, pos) == Some(Parsed(x, d))
    ensures Sentence(s, pos) == Some(Parsed(x + ".", e))
  {
    TokenThenMark(s, pos, x, d, e);
    assert [s[d]] == ".";
  }

  /** A token whose text is exactly the input it consumed, directly followed
      by a mark, is a sentence whose text is exactly its input. */
  lemma SliceThenMark(s: string, pos: nat, d: nat, e: nat)
    requires pos <= d < |s| && IsSentencePunct(s[d]) && e == d + 1
    requires Token(s, pos) == Some(Parsed(s[pos..d], d))
    ensures Sentence(s, pos) == Some(Parsed(s[pos..e], e))
  {
    TokenThenMark(s, pos, s[pos..d], d, e);
    SliceSnoc(s, pos, d, e);
  }

  /** Word characters closed by a '.' that whitespace (or the end of the
      input) follows make a whole sentence, the '.' included; `e` is just
      after the '.'. */
  lemma WordEndsSentence(s: string, pos: nat, e: nat)
    requires pos + 1 < e <= |s|
    requires AllIn(s[pos..e - 1], WordChar) && s[e - 1] == '.'
    requires e == |s| || IsWhitespace(s[e])
    ensures Sentence(s, pos) == Some(Parsed(s[pos..e], e))
  {
    WordBeforeDot(s, pos, e - 1, e);
    SliceThenMark(s, pos, e - 1, e);
  }

  /** Hence a personal title such as "DR." or "MR.", or "NO.", followed by
      whitespace ends the sentence it is in: "DR. Smith" is two sentences.
      The title `t` starts at `k` and `e` is just after it. */
  lemma TitleEndsSentence(s: string, pos: nat, k: nat, t: string, e: nat)
    requires IsTitleShaped(t) && e == k + |t|
    requires pos <= k && LitAt(s, k, t) && AllIn(s[pos..k], WordChar)
    requires e == |s| || IsWhitespace(s[e])
    ensures Sentence(s, pos) == Some(Parsed(s[pos..e], e))
  {
    TitleIsWordThenDot(s, pos, k, t, e);
    WordEndsSentence(s, pos, e);
  }

  /** An acronym such as "U.S.A." followed by whitespace ends the sentence
      it is in, and the sentence keeps only its last '.': "U.S.A. x" is two
      sentences, the first being "USA.". */
  lemma AcronymEndsSentence(s: string, pos: nat, e: nat)
    requires pos < e <= |s| && Initials(s, pos, e)
    requires e == |s| || IsWhitespace(s[e])
    ensures Sentence(s, pos) == Some(Parsed(StripPunct(s[pos..e]) + ".", e))
  {
    assert s[e - 1] == '.' && Token(s, pos) == Some(Parsed(StripPunct(s[pos..e]), e - 1)) by {
      AcronymLosesItsDots(s, pos, e);
    }
    TokenThenDot(s, pos, StripPunct(s[pos..e]), e - 1, e);
  }
}
