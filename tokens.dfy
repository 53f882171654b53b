/** The token grammar of parse.py: `personal_title`, `number_abbrev`,
    `initial`, `acronym` and the three-way ordered choice `token`. */
module Tokens {
  import opened Text

  /** The number of entries of `personal_title_strs`. */
  const TitleCount := 19

  /** Capital letters closed by a '.', the only '.' in the word. */
  predicate IsTitleShaped(t: string) {
    |t| >= 3 && t[|t| - 1] == '.' && forall i | 0 <= i < |t| - 1 :: 'A' <= t[i] <= 'Z'
  }

  /** Entry `i` of `personal_title_strs`, in the order the source lists the
      titles; each is case-sensitive, capitals closed by its only '.'. */
  function Title(i: nat): (r: string)
    requires i < TitleCount
    ensures IsTitleShaped(r)
  {
    match i
    case 0 => "ADM."
    case 1 => "CAPT."
    case 2 => "CMDR."
    case 3 => "COL."
    case 4 => "CPT."
    case 5 => "GEN."
    case 6 => "MAJ."
    case 7 => "SGT."
    case 8 => "DR."
    case 9 => "HON."
    case 10 => "JR."
    case 11 => "MR."
    case 12 => "MRS."
    case 13 => "MS."
    case 14 => "REP."
    case 15 => "REV."
    case 16 => "SEN."
    case 17 => "SR."
    case _ => "ST."
  }

  /** `t` is one of the personal titles. */
  ghost predicate IsPersonalTitle(t: string) {
    exists i | 0 <= i < TitleCount :: Title(i) == t
  }

  /** The 19 titles are distinct words. */
  lemma TitlesDistinct(i: nat, j: nat)
    requires i < TitleCount && j < TitleCount && i != j
    ensures Title(i) != Title(j)
  {
  }

  /** `NO.` is title-shaped too. */
  lemma NumberShaped()
    ensures IsTitleShaped("NO.")
  {
  }

  /** Where a title-shaped word occurs, `s` holds capitals up to its '.'. */
  lemma ShapedAt(s: string, pos: nat, t: string)
    requires IsTitleShaped(t) && LitAt(s, pos, t)
    ensures s[pos + |t| - 1] == '.'
    ensures forall i | pos <= i < pos + |t| - 1 :: 'A' <= s[i] <= 'Z'
  {
    assert forall i | pos <= i < pos + |t| - 1 :: s[i] == t[i - pos];
  }

  /** Two title-shaped words cannot both occur at one position unless they are
      the same word: the first '.' ends each of them. */
  lemma ShapedMatchUnique(s: string, pos: nat, t1: string, t2: string)
    requires IsTitleShaped(t1) && IsTitleShaped(t2)
    requires LitAt(s, pos, t1) && LitAt(s, pos, t2)
    ensures t1 == t2
  {
    ShapedAt(s, pos, t1);
    ShapedAt(s, pos, t2);
    assert |t1| == |t2|;
    assert forall i | 0 <= i < |t1| :: t1[i] == s[pos + i] == t2[i];
  }

  /** `one_of(personal_title_strs)` with the titles before entry `i` already
      tried: the first title from entry `i` on that occurs at `pos`. It fails
      once every entry has been tried. */
  function TitleFrom(s: string, pos: nat, i: nat): (r: Option<Parsed<string>>)
    requires pos <= |s| && i <= TitleCount
    ensures r.Some? ==> IsTitleShaped(r.value.value) && LitAt(s, pos, r.value.value)
    ensures r.Some? ==> r.value.end == pos + |r.value.value|
    decreases TitleCount - i, 1
  {
    if i == TitleCount then None else TitleTry(s, pos, i)
  }

  /** One step of the search: entry `i` if it occurs at `pos`, else the
      search from entry `i + 1`. */
  function TitleTry(s: string, pos: nat, i: nat): (r: Option<Parsed<string>>)
    requires pos <= |s| && i < TitleCount
    ensures r.Some? ==> IsTitleShaped(r.value.value) && LitAt(s, pos, r.value.value)
    ensures r.Some? ==> r.value.end == pos + |r.value.value|
    decreases TitleCount - i, 0
  {
    if LitAt(s, pos, Title(i)) then
      Some(Parsed(Title(i), pos + |Title(i)|))
    else TitleFrom(s, pos, i + 1)
  }

  /** What `TitleFrom` finds is a title from entry `i` on. */
  lemma {:induction false} TitleFromFound(s: string, pos: nat, i: nat)
    requires pos <= |s| && i <= TitleCount
    ensures var r := TitleFrom(s, pos, i);
      r.Some? ==> exists j | i <= j < TitleCount :: Title(j) == r.value.value
    decreases TitleCount - i
  {
    if i < TitleCount {
      assert TitleFrom(s, pos, i) == TitleTry(s, pos, i);
      if LitAt(s, pos, Title(i)) {
        assert TitleTry(s, pos, i).Some? && TitleTry(s, pos, i).value.value == Title(i);
      } else {
        TitleFromFound(s, pos, i + 1);
        assert TitleTry(s, pos, i) == TitleFrom(s, pos, i + 1);
      }
    }
  }

  /** When `TitleFrom` finds nothing, title `j`, from entry `i` on, does not
      occur at `pos`. */
  lemma {:induction false} TitleFromSkips(s: string, pos: nat, i: nat, j: nat)
    requires pos <= |s| && i <= j < TitleCount
    requires TitleFrom(s, pos, i).None?
    ensures !LitAt(s, pos, Title(j))
    decreases j - i
  {
    assert TitleTry(s, pos, i).None?;
    if i < j {
      assert TitleFrom(s, pos, i + 1).None?;
      TitleFromSkips(s, pos, i + 1, j);
    }
  }

  /** When no title from entry `i` on occurs at `pos`, `TitleFrom` finds
      nothing. */
  lemma {:induction false} TitleFromAbsent(s: string, pos: nat, i: nat)
    requires pos <= |s| && i <= TitleCount
    requires forall j | i <= j < TitleCount :: !LitAt(s, pos, Title(j))
    ensures TitleFrom(s, pos, i).None?
    decreases TitleCount - i
  {
    if i < TitleCount {
      assert !LitAt(s, pos, Title(i));
      TitleFromAbsent(s, pos, i + 1);
      assert TitleFrom(s, pos, i) == TitleTry(s, pos, i) == TitleFrom(s, pos, i + 1);
    }
  }

  /** `TitleFrom` finds nothing exactly when no title from entry `i` on
      occurs at `pos`. */
  lemma TitleFromNone(s: string, pos: nat, i: nat)
    requires pos <= |s| && i <= TitleCount
    ensures TitleFrom(s, pos, i).None? <==> forall j | i <= j < TitleCount :: !LitAt(s, pos, Title(j))
  {
    if TitleFrom(s, pos, i).None? {
      forall j | i <= j < TitleCount ensures !LitAt(s, pos, Title(j)) {
        TitleFromSkips(s, pos, i, j);
      }
    } else if forall j | i <= j < TitleCount :: !LitAt(s, pos, Title(j)) {
      TitleFromAbsent(s, pos, i);
    }
  }

  /** `personal_title = one_of(personal_title_strs)`: the first of the 19
      titles that occurs at `pos`. What it matches is title-shaped and occurs
      at `pos`; `PersonalTitleMatches` says it is a title and that it fails
      only where no title occurs. */
  function PersonalTitle(s: string, pos: nat): (r: Option<Parsed<string>>)
    requires pos <= |s|
    ensures r.Some? ==> IsTitleShaped(r.value.value) && LitAt(s, pos, r.value.value)
    ensures r.Some? ==> r.value.end == pos + |r.value.value|
  {
    TitleFrom(s, pos, 0)
  }

  lemma PersonalTitleMatches(s: string, pos: nat)
    requires pos <= |s|
    ensures var r := PersonalTitle(s, pos);
      && (r.Some? ==> IsPersonalTitle(r.value.value))
      && (r.None? <==> forall j | 0 <= j < TitleCount :: !LitAt(s, pos, Title(j)))
  {
    TitleFromFound(s, pos, 0);
    TitleFromNone(s, pos, 0);
  }

  /** A personal title found at `pos` starts with a capital and ends in
      '.'. */
  lemma PersonalTitleShape(s: string, pos: nat)
    requires pos <= |s|
    ensures var r := PersonalTitle(s, pos);
      r.Some? ==> IsAlpha(s[pos]) && r.value.end <= |s| && s[r.value.end - 1] == '.'
  {
    var r := PersonalTitle(s, pos);
    if r.Some? {
      var t, e := r.value.value, r.value.end;
      assert IsTitleShaped(t) && LitAt(s, pos, t) && e == pos + |t|;
      ShapedSlice(s, pos, t);
    }
  }

  /** No title is a prefix of another, so the order in which `one_of` tries
      them does not matter: the title found is the only one at `pos`. */
  lemma PersonalTitleUnique(s: string, pos: nat, j: nat)
    requires pos <= |s| && j < TitleCount && LitAt(s, pos, Title(j))
    ensures PersonalTitle(s, pos) == Some(Parsed(Title(j), pos + |Title(j)|))
  {
    var r := PersonalTitle(s, pos);
    PersonalTitleMatches(s, pos);
    ShapedMatchUnique(s, pos, Title(j), r.value.value);
    assert r.value == Parsed(Title(j), pos + |Title(j)|);
  }

  /** `number_abbrev = Literal('NO.')` */
  function NumberAbbrev(s: string, pos: nat): (r: Option<Parsed<string>>)
    requires pos <= |s|
    ensures r.Some? <==> LitAt(s, pos, "NO.")
    ensures r.Some? ==> r.value == Parsed("NO.", pos + 3)
  {
    if LitAt(s, pos, "NO.") then Some(Parsed("NO.", pos + 3)) else None
  }

  /** `initial = Combine(Char(alphas) + Literal('.'))` */
  function Initial(s: string, pos: nat): (r: Option<Parsed<string>>)
    requires pos <= |s|
    ensures r.Some? <==> pos + 1 < |s| && IsAlpha(s[pos]) && s[pos + 1] == '.'
    ensures r.Some? ==> r.value.end == pos + 2 && r.value.value == s[pos..pos + 2]
  {
    if pos + 1 < |s| && IsAlpha(s[pos]) && s[pos + 1] == '.' then Some(Parsed(s[pos..pos + 2], pos + 2))
    else None
  }

  /** `s[pos..e]` is a run of initials: (ASCII letter, '.') pairs, possibly
      none. */
  ghost predicate Initials(s: string, pos: nat, e: nat)
    requires pos <= e <= |s|
    decreases e - pos
  {
    pos == e || (pos + 2 <= e && IsAlpha(s[pos]) && s[pos + 1] == '.' && Initials(s, pos + 2, e))
  }

  /** `initial[0, ...]`: where the greedy run of initials starting at `pos` ends. */
  function InitialsEnd(s: string, pos: nat): (e: nat)
    requires pos <= |s|
    ensures pos <= e <= |s| && Initials(s, pos, e)
    ensures Initial(s, e).None?
    decreases |s| - pos
  {
    match Initial(s, pos)
    case None => pos
    case Some(m) => InitialsEnd(s, m.end)
  }

  /** `acronym = Combine(initial[1, ...])`: the longest run of initials, at
      least one. */
  function Acronym(s: string, pos: nat): (r: Option<Parsed<string>>)
    requires pos <= |s|
    ensures r.Some? <==> Initial(s, pos).Some?
    ensures r.Some? ==> pos < r.value.end <= |s| && r.value.value == s[pos..(r.value.end)]
    ensures r.Some? ==> Initials(s, pos, r.value.end) && Initial(s, r.value.end).None?
  {
    match Initial(s, pos)
    case None => None
    case Some(first) =>
      var e := InitialsEnd(s, first.end);
      Some(Parsed(s[pos..e], e))
  }

  /** An acronym starts with a letter and ends in '.'. */
  lemma AcronymEnds(s: string, pos: nat)
    requires pos <= |s|
    ensures var r := Acronym(s, pos);
      r.Some? ==> IsAlpha(s[pos]) && s[r.value.end - 1] == '.'
  {
    var r := Acronym(s, pos);
    if r.Some? {
      InitialsEndInDot(s, pos, r.value.end);
    }
  }

  /** The text of an acronym: even length, at least two characters, letters
      in the even places and '.' in the odd ones. */
  ghost predicate IsAcronymText(t: string) {
    && |t| >= 2
    && |t| % 2 == 0
    && forall i | 0 <= i < |t| :: if i % 2 == 0 then IsAlpha(t[i]) else t[i] == '.'
  }

  lemma {:induction false} InitialsShape(s: string, pos: nat, e: nat)
    requires pos <= e <= |s| && Initials(s, pos, e)
    ensures (e - pos) % 2 == 0
    ensures forall i | pos <= i < e :: if (i - pos) % 2 == 0 then IsAlpha(s[i]) else s[i] == '.'
    decreases e - pos
  {
    if pos < e {
      InitialsShape(s, pos + 2, e);
      forall i | pos <= i < e ensures if (i - pos) % 2 == 0 then IsAlpha(s[i]) else s[i] == '.' {
        if i >= pos + 2 { assert (i - pos) % 2 == (i - (pos + 2)) % 2; }
      }
    }
  }

  /** Every acronym has the acronym shape. */
  lemma AcronymShape(s: string, pos: nat)
    requires pos <= |s|
    ensures Acronym(s, pos).Some? ==> IsAcronymText(Acronym(s, pos).value.value)
  {
    var r := Acronym(s, pos);
    if r.Some? {
      var e := r.value.end;
      InitialsShape(s, pos, e);
      assert forall i | 0 <= i < e - pos :: s[pos..e][i] == s[pos + i];
    }
  }

  /** A non-empty run of initials ends in '.'. */
  lemma {:induction false} InitialsEndInDot(s: string, pos: nat, e: nat)
    requires pos < e <= |s| && Initials(s, pos, e)
    ensures pos + 2 <= e && s[e - 1] == '.'
    decreases e - pos
  {
    if pos + 2 < e {
      InitialsEndInDot(s, pos + 2, e);
    }
  }

  lemma {:induction false} InitialsAreInk(s: string, pos: nat, e: nat)
    requires pos <= e <= |s| && Initials(s, pos, e)
    ensures AllIn(s[pos..e], Ink)
    decreases e - pos
  {
    if pos < e {
      InitialsAreInk(s, pos + 2, e);
      assert AllIn(s[pos..pos + 2], Ink) by {
        assert s[pos..pos + 2][0] == s[pos] && s[pos..pos + 2][1] == s[pos + 1];
      }
      AllInSlices(s, pos, pos + 2, e, Ink);
    }
  }

  // The pieces of the first `token` alternative.

  /** `Literal('...') | Char(sentence_punct_chars)`: an ellipsis if there is
      one, else a single '.', '?' or '!'. */
  function Mark(s: string, p: nat): (r: Option<Parsed<string>>)
    requires p <= |s|
    ensures r.Some? <==> p < |s| && IsSentencePunct(s[p])
    ensures r.Some? ==> r.value.end == (if EllipsisAt(s, p) then p + 3 else p + 1) <= |s|
  {
    if EllipsisAt(s, p) then Some(Parsed("...", p + 3))
    else if p < |s| && IsSentencePunct(s[p]) then Some(Parsed([s[p]], p + 1))
    else None
  }

  /** A mark is the input it covers, and consists of marks only. */
  lemma MarkText(s: string, p: nat)
    requires p <= |s|
    ensures var r := Mark(s, p);
      r.Some? ==> r.value.value == s[p..r.value.end] && AllIn(r.value.value, Punct)
  {
    if EllipsisAt(s, p) {
      EllipsisText(s, p);
    }
  }

  /** `Literal('...') + ~Literal('.')`: three dots not followed by a fourth. */
  function GuardedEllipsis(s: string, p: nat): (r: Option<Parsed<string>>)
    requires p <= |s|
    ensures r.Some? <==> EllipsisAt(s, p) && !DotAt(s, p + 3)
    ensures r.Some? ==> r.value.value == "..." && r.value.end == p + 3
  {
    if EllipsisAt(s, p) && !DotAt(s, p + 3) then Some(Parsed("...", p + 3)) else None
  }

  /** `t` with its '.', '?' and '!' characters removed. */
  function StripPunct(t: string): string {
    if t == [] then []
    else (if IsSentencePunct(t[0]) then [] else [t[0]]) + StripPunct(t[1..])
  }

  lemma {:induction false} StripPunctConcat(a: string, b: string)
    ensures StripPunct(a + b) == StripPunct(a) + StripPunct(b)
  {
    if a == [] {
      assert a + b == b;
    } else {
      assert (a + b)[0] == a[0] && (a + b)[1..] == a[1..] + b;
      StripPunctConcat(a[1..], b);
    }
  }

  lemma {:induction false} StripPunctOfWordChars(t: string)
    requires AllIn(t, WordChar)
    ensures StripPunct(t) == t
  {
    if t != [] {
      assert AllIn(t[1..], WordChar) by { assert forall i | 0 <= i < |t| - 1 :: t[1..][i] == t[i + 1]; }
      StripPunctOfWordChars(t[1..]);
    }
  }

  lemma {:induction false} StripPunctOfPunct(t: string)
    requires AllIn(t, Punct)
    ensures StripPunct(t) == []
  {
    if t != [] {
      assert AllIn(t[1..], Punct) by { assert forall i | 0 <= i < |t| - 1 :: t[1..][i] == t[i + 1]; }
      StripPunctOfPunct(t[1..]);
    }
  }

  /** Marks around a run of word characters vanish from the stripped text. */
  lemma StripPunctAround(a: string, b: string, c: string, d: string)
    requires AllIn(a, Punct) && AllIn(b, WordChar) && AllIn(d, Punct)
    ensures StripPunct(a + b + c + d) == b + StripPunct(c)
  {
    StripPunctConcat(a, b);
    StripPunctOfPunct(a);
    StripPunctOfWordChars(b);
    assert StripPunct(a + b) == b;
    StripPunctConcat(a + b, c);
    StripPunctConcat(a + b + c, d);
    StripPunctOfPunct(d);
  }

  /** One iteration of the word interior, a mark `s[p..d]` and a run of word
      characters `s[d..c]`, in front of what the later iterations found. */
  lemma PieceStep(s: string, p: nat, d: nat, c: nat, e: nat, rest: string)
    requires p < d < c <= e <= |s|
    requires AllIn(s[p..d], Punct) && AllIn(s[d..c], WordChar)
    requires rest == StripPunct(s[c..e]) && AllIn(rest, WordChar)
    ensures s[d..c] + rest == StripPunct(s[p..e])
    ensures AllIn(s[d..c] + rest, WordChar)
  {
    StripSlices(s, p, d, e);
    StripSlices(s, d, c, e);
    StripPunctOfPunct(s[p..d]);
    StripPunctOfWordChars(s[d..c]);
    AllInConcat(s[d..c], rest, WordChar);
  }

  /** The input of that iteration and the later ones is ink, and its last
      character a word character. */
  lemma PieceInk(s: string, p: nat, d: nat, c: nat, e: nat)
    requires p < d < c <= e <= |s|
    requires AllIn(s[p..d], Punct) && AllIn(s[d..c], WordChar) && AllIn(s[c..e], Ink)
    requires e == c || InClass(s[e - 1], WordChar)
    ensures AllIn(s[p..e], Ink) && InClass(s[e - 1], WordChar)
  {
    InkClassIsInk(s[p..d], Punct);
    InkClassIsInk(s[d..c], WordChar);
    AllInSlices(s, p, d, c, Ink);
    AllInSlices(s, p, c, e, Ink);
    assert s[d..c][c - 1 - d] == s[c - 1];
  }

  lemma StripSlices(s: string, a: nat, b: nat, c: nat)
    requires a <= b <= c <= |s|
    ensures StripPunct(s[a..c]) == StripPunct(s[a..b]) + StripPunct(s[b..c])
  {
    SliceSplit(s, a, b, c);
    StripPunctConcat(s[a..b], s[b..c]);
  }

  /** The interior of a word:
      `(Suppress(Literal('...') | Char(sentence_punct_chars)) + CharsNotIn(...))[0, ...]`.
      Each iteration takes one punctuation mark and the run of word characters
      after it; only the marks are dropped from the text. An iteration whose
      mark is not followed by a word character is undone, and the repetition
      stops at the first such iteration. */
  function MorePieces(s: string, p: nat): (r: Parsed<string>)
    requires p <= |s|
    ensures p <= r.end <= |s|
    ensures r.value == StripPunct(s[p..(r.end)])
    ensures AllIn(r.value, WordChar) && AllIn(s[p..(r.end)], Ink)
    ensures r.end == p || InClass(s[r.end - 1], WordChar)
    decreases |s| - p, 1
  {
    match Mark(s, p)
    case None => Parsed("", p)
    case Some(d) =>
      MarkText(s, p);
      MorePiecesFrom(s, p, d.end)
  }

  /** One iteration after its mark `s[p..a]`: undone when no word character
      follows the mark, otherwise the run after it and the later
      iterations. */
  function MorePiecesFrom(s: string, p: nat, a: nat): (r: Parsed<string>)
    requires p < a <= |s| && AllIn(s[p..a], Punct)
    ensures p <= r.end <= |s|
    ensures r.value == StripPunct(s[p..(r.end)])
    ensures AllIn(r.value, WordChar) && AllIn(s[p..(r.end)], Ink)
    ensures r.end == p || InClass(s[r.end - 1], WordChar)
    decreases |s| - p, 0
  {
    match Run(s, a, WordChar)
    case None => Parsed("", p)
    case Some(c) =>
      var rest := MorePieces(s, c.end);
      var b, e := c.end, rest.end;
      PieceStep(s, p, a, b, e, rest.value);
      PieceInk(s, p, a, b, e);
      Parsed(s[a..b] + rest.value, e)
  }

  /** The interior repetition is greedy: it stops only where no further
      mark followed by word characters starts. */
  lemma {:induction false} MorePiecesStop(s: string, p: nat)
    requires p <= |s|
    ensures var r := MorePieces(s, p);
      Mark(s, r.end).None? || Run(s, Mark(s, r.end).value.end, WordChar).None?
    decreases |s| - p
  {
    if Mark(s, p).Some? && Run(s, Mark(s, p).value.end, WordChar).Some? {
      MorePiecesStop(s, Run(s, Mark(s, p).value.end, WordChar).value.end);
    }
  }

  /** The pieces of a word token: a leading mark `a`, the first run `b`,
      the interior `c` and a trailing ellipsis `d`, put together. The result
      has no whitespace, and it ends in a mark only when `d` is there. */
  lemma PiecesInk(a: string, b: string, c: string, d: string)
    requires AllIn(a, Punct) && AllIn(b, WordChar) && AllIn(c, WordChar) && AllIn(d, Punct)
    requires |b| > 0
    ensures var t := a + b + c + d;
      |t| > 0 && AllIn(t, Ink) && (IsSentencePunct(t[|t| - 1]) ==> |d| > 0)
  {
    InkClassIsInk(a, Punct);
    InkClassIsInk(b, WordChar);
    InkClassIsInk(c, WordChar);
    InkClassIsInk(d, Punct);
    AllInConcat(a, b, Ink);
    AllInConcat(a + b, c, Ink);
    AllInConcat(a + b + c, d, Ink);
    var t := a + b + c + d;
    if |d| == 0 {
      AllInConcat(b, c, WordChar);
      assert t[|t| - 1] == (b + c)[|b + c| - 1];
    }
  }

  /** The input a word token consumes, cut where its pieces meet, has no
      whitespace in it. */
  lemma SlicesInk(s: string, pos: nat, p: nat, f: nat, m: nat, q: nat)
    requires pos <= p <= f <= m <= q <= |s|
    requires AllIn(s[pos..p], Punct) && AllIn(s[p..f], WordChar) && AllIn(s[f..m], Ink) && AllIn(s[m..q], Punct)
    ensures AllIn(s[pos..q], Ink)
  {
    InkClassIsInk(s[pos..p], Punct);
    InkClassIsInk(s[p..f], WordChar);
    InkClassIsInk(s[m..q], Punct);
    AllInSlices(s, pos, p, f, Ink);
    AllInSlices(s, pos, f, m, Ink);
    AllInSlices(s, pos, m, q, Ink);
  }

  lemma SliceSplit4(s: string, a: nat, b: nat, c: nat, d: nat, e: nat)
    requires a <= b <= c <= d <= e <= |s|
    ensures s[a..e] == s[a..b] + s[b..c] + s[c..d] + s[d..e]
  {
    SliceSplit(s, a, d, e);
    SliceSplit(s, a, c, d);
    SliceSplit(s, a, b, c);
  }

  /** The optional leading mark of a word: marks only, in the text and in
      the input. */
  lemma LeadPiece(s: string, pos: nat)
    requires pos <= |s|
    ensures var lead := Mark(s, pos);
      AllIn(TextOr(lead), Punct) && AllIn(s[pos..EndOr(lead, pos)], Punct)
  {
    MarkText(s, pos);
  }

  /** The optional trailing ellipsis of a word: marks only, in the text and
      in the input, and when it is there no fourth '.' follows. */
  lemma TrailPiece(s: string, m: nat)
    requires m <= |s|
    ensures var trail := GuardedEllipsis(s, m);
      && AllIn(TextOr(trail), Punct) && AllIn(s[m..EndOr(trail, m)], Punct)
      && (|TextOr(trail)| > 0 ==> m + 3 <= |s| && EllipsisAt(s, m) && !DotAt(s, m + 3) && EndOr(trail, m) == m + 3)
  {
    if EllipsisAt(s, m) {
      EllipsisText(s, m);
    }
  }

  /** The first alternative of `token`, a word:
      `Opt(Literal('...') | Char(sentence_punct_chars))`, then
      `delimited_list(CharsNotIn(sentence_punct_chars + whitespace_chars), delim=...)`,
      then `Opt(Literal('...') + ~Literal('.'))`, all combined. The interior
      marks are consumed but not kept; the leading mark and the trailing
      ellipsis are kept (see `WordTokenText` and `WordTokenEnd`). */
  function WordToken(s: string, pos: nat): (r: Option<Parsed<string>>)
    requires pos <= |s|
    ensures r.Some? <==> var p := EndOr(Mark(s, pos), pos); p < |s| && InClass(s[p], WordChar)
    ensures r.Some? ==> pos < r.value.end <= |s|
  {
    var lead := Mark(s, pos);
    var p := EndOr(lead, pos);
    match Run(s, p, WordChar)
    case None => None
    case Some(first) =>
      var more := MorePieces(s, first.end);
      var trail := GuardedEllipsis(s, more.end);
      var q := EndOr(trail, more.end);
      Some(Parsed(TextOr(lead) + first.value + more.value + TextOr(trail), q))
  }

  /** A word token is never empty and has no whitespace in its text or in
      the input it consumed. */
  lemma WordTokenInk(s: string, pos: nat)
    requires pos <= |s|
    ensures var r := WordToken(s, pos);
      r.Some? ==> |r.value.value| > 0 && AllIn(r.value.value, Ink) && AllIn(s[pos..r.value.end], Ink)
  {
    var lead := Mark(s, pos);
    var p := EndOr(lead, pos);
    if Run(s, p, WordChar).Some? {
      var first := Run(s, p, WordChar).value;
      var more := MorePieces(s, first.end);
      var trail := GuardedEllipsis(s, more.end);
      LeadPiece(s, pos);
      TrailPiece(s, more.end);
      PiecesInk(TextOr(lead), first.value, more.value, TextOr(trail));
      SlicesInk(s, pos, p, first.end, more.end, EndOr(trail, more.end));
    }
  }

  /** A word token ends in a mark only when it ends in an ellipsis that no
      fourth '.' follows. */
  lemma WordTokenEnd(s: string, pos: nat)
    requires pos <= |s|
    ensures var r := WordToken(s, pos);
      r.Some? && IsSentencePunct(r.value.value[|r.value.value| - 1]) ==>
        pos + 3 <= r.value.end && EllipsisAt(s, r.value.end - 3) && !DotAt(s, r.value.end)
  {
    var lead := Mark(s, pos);
    var p := EndOr(lead, pos);
    if Run(s, p, WordChar).Some? {
      var first := Run(s, p, WordChar).value;
      var more := MorePieces(s, first.end);
      var trail := GuardedEllipsis(s, more.end);
      LeadPiece(s, pos);
      TrailPiece(s, more.end);
      PiecesInk(TextOr(lead), first.value, more.value, TextOr(trail));
    }
  }

  /** With every mark removed, a word token's text and its input agree. */
  lemma WordTokenStripped(s: string, pos: nat)
    requires pos <= |s|
    ensures var r := WordToken(s, pos);
      r.Some? ==> StripPunct(r.value.value) == StripPunct(s[pos..r.value.end])
  {
    var lead := Mark(s, pos);
    var p := EndOr(lead, pos);
    if Run(s, p, WordChar).Some? {
      var first := Run(s, p, WordChar).value;
      var more := MorePieces(s, first.end);
      var trail := GuardedEllipsis(s, more.end);
      var q := EndOr(trail, more.end);
      LeadPiece(s, pos);
      TrailPiece(s, more.end);
      StripPunctAround(TextOr(lead), first.value, more.value, TextOr(trail));
      StripPunctOfWordChars(more.value);
      SliceSplit4(s, pos, p, first.end, more.end, q);
      StripPunctAround(s[pos..p], first.value, s[first.end..more.end], s[more.end..q]);
    }
  }

  /** The pieces of a word token, as input slices: the leading mark and the
      first run, the interior and the trailing ellipsis. */
  lemma WordTokenPieces(s: string, pos: nat, p: nat, q: nat, m: nat, e: nat)
    requires pos <= p < q <= m <= e <= |s|
    requires Mark(s, pos).Some? ==> Mark(s, pos).value.end == p
    requires Mark(s, pos).None? ==> p == pos
    requires Run(s, p, WordChar) == Some(Parsed(s[p..q], q))
    requires GuardedEllipsis(s, m).Some? ==> GuardedEllipsis(s, m).value.end == e
    requires GuardedEllipsis(s, m).None? ==> e == m
    ensures TextOr(Mark(s, pos)) + s[p..q] == s[pos..q]
    ensures TextOr(GuardedEllipsis(s, m)) == s[m..e]
  {
    MarkText(s, pos);
    if GuardedEllipsis(s, m).Some? { EllipsisText(s, m); }
    SliceSplit(s, pos, p, q);
  }

  /** A word token's text is the input it consumed with the interior marks
      dropped: the optional leading mark and the first run of word characters
      are kept as they are, every '.', '?' and '!' of the interior is removed,
      and the optional trailing ellipsis is kept. So the text and the input
      agree once the marks are removed from both. */
  lemma WordTokenText(s: string, pos: nat)
    requires pos <= |s|
    ensures var r := WordToken(s, pos);
      r.Some? ==>
        && Run(s, EndOr(Mark(s, pos), pos), WordChar).Some?
        && var q := Run(s, EndOr(Mark(s, pos), pos), WordChar).value.end;
           var m := MorePieces(s, q).end;
           && pos < q <= m <= r.value.end
           && r.value.value == s[pos..q] + StripPunct(s[q..m]) + s[m..r.value.end]
           && StripPunct(r.value.value) == StripPunct(s[pos..r.value.end])
  {
    var lead := Mark(s, pos);
    var p := EndOr(lead, pos);
    if Run(s, p, WordChar).Some? {
      var first := Run(s, p, WordChar).value;
      var more := MorePieces(s, first.end);
      var trail := GuardedEllipsis(s, more.end);
      var q := EndOr(trail, more.end);
      var r := WordToken(s, pos).value;
      assert r.value == TextOr(lead) + first.value + more.value + TextOr(trail) && r.end == q;
      WordTokenPieces(s, pos, p, first.end, more.end, q);
      WordTokenStripped(s, pos);
    }
  }

  /** `personal_title | number_abbrev | acronym`, in that order: the input it
      matches. What it matches is stated by `AbbreviationBodyShape` and
      `AbbreviationBodyCases`. */
  function AbbreviationBody(s: string, p: nat): (r: Option<Parsed<string>>)
    requires p <= |s|
    ensures r.Some? ==> p < r.value.end <= |s| && r.value.value == s[p..(r.value.end)]
  {
    match PersonalTitle(s, p)
    case Some(t) =>
      LitSlice(s, p, t.value);
      Some(t)
    case None =>
      match NumberAbbrev(s, p)
      case Some(n) =>
        LitSlice(s, p, "NO.");
        Some(n)
      case None => Acronym(s, p)
  }

  /** Whatever the body matches starts with a letter, ends in '.', and is
      title-shaped or a run of initials. */
  lemma AbbreviationBodyShape(s: string, p: nat)
    requires p <= |s|
    ensures var r := AbbreviationBody(s, p);
      r.Some? ==>
        && IsAlpha(s[p]) && s[r.value.end - 1] == '.'
        && (IsTitleShaped(r.value.value) || Initials(s, p, r.value.end))
  {
    var r := AbbreviationBody(s, p);
    if PersonalTitle(s, p).Some? {
      PersonalTitleShape(s, p);
      assert r == PersonalTitle(s, p);
    } else if NumberAbbrev(s, p).Some? {
      NumberShaped();
      ShapedSlice(s, p, "NO.");
      assert r.value.value == "NO." && r.value.end == p + 3;
    } else {
      AcronymEnds(s, p);
      assert r == Acronym(s, p);
    }
  }

  /** The body of an abbreviation is a personal title, `NO.` or a run of
      initials, and it fails exactly when none of the three occurs at `p`. */
  lemma AbbreviationBodyCases(s: string, p: nat)
    requires p <= |s|
    ensures var r := AbbreviationBody(s, p);
      r.Some? ==> IsPersonalTitle(r.value.value) || r.value.value == "NO." || Initials(s, p, r.value.end)
    ensures AbbreviationBody(s, p).None? <==>
      (forall j | 0 <= j < TitleCount :: !LitAt(s, p, Title(j))) && !LitAt(s, p, "NO.") && Initial(s, p).None?
  {
    PersonalTitleMatches(s, p);
  }

  /** A title-shaped word found at `p` is the slice it covers, and starts
      with a capital and ends in '.'. */
  lemma ShapedSlice(s: string, p: nat, t: string)
    requires IsTitleShaped(t) && LitAt(s, p, t)
    ensures p + |t| <= |s| && s[p..p + |t|] == t
    ensures IsAlpha(s[p]) && s[p + |t| - 1] == '.'
  {
    LitSlice(s, p, t);
    ShapedAt(s, p, t);
  }

  /** The third alternative of `token`, an abbreviation or acronym:
      `CharsNotIn(alphanums + whitespace_chars) + (personal_title | number_abbrev | acronym) + ~Literal('.')`.
      It needs at least one leading character that is neither a letter, a
      digit nor whitespace, and it is never followed by a '.'. */
  function Abbreviation(s: string, pos: nat): (r: Option<Parsed<string>>)
    requires pos <= |s|
    ensures r.Some? ==> pos < r.value.end <= |s| && r.value.value == s[pos..(r.value.end)]
    ensures r.Some? ==> !DotAt(s, r.value.end)
    ensures var k := RunEnd(s, pos, NonAlnum);
      r.Some? <==> pos < k && AbbreviationBody(s, k).Some? && !DotAt(s, AbbreviationBody(s, k).value.end)
  {
    match Run(s, pos, NonAlnum)
    case None => None
    case Some(prefix) =>
      match AbbreviationBody(s, prefix.end)
      case None => None
      case Some(b) =>
        if DotAt(s, b.end) then None
        else
          SliceSplit(s, pos, prefix.end, b.end);
          Some(Parsed(prefix.value + b.value, b.end))
  }

  /** An abbreviation is a non-empty run of characters that are neither
      letters, digits nor whitespace, then a body that starts with a letter;
      it ends in '.' and has no whitespace in it. */
  lemma AbbreviationShape(s: string, pos: nat)
    requires pos <= |s|
    ensures var r := Abbreviation(s, pos);
      var k := RunEnd(s, pos, NonAlnum);
      r.Some? ==>
        && pos < k < r.value.end && AbbreviationBody(s, k).value.end == r.value.end
        && IsAlpha(s[k]) && s[r.value.end - 1] == '.' && AllIn(r.value.value, Ink)
  {
    var r := Abbreviation(s, pos);
    if r.Some? {
      var k := RunEnd(s, pos, NonAlnum);
      var b := AbbreviationBody(s, k).value;
      assert b.end == r.value.end;
      AbbreviationBodyShape(s, k);
      AbbreviationIsInk(s, pos, k, b.end);
    }
  }

  lemma AbbreviationIsInk(s: string, pos: nat, k: nat, e: nat)
    requires pos < k < e <= |s|
    requires AllIn(s[pos..k], NonAlnum)
    requires IsTitleShaped(s[k..e]) || Initials(s, k, e)
    ensures AllIn(s[pos..e], Ink)
  {
    if Initials(s, k, e) {
      InitialsAreInk(s, k, e);
    } else {
      ShapedIsInk(s[k..e]);
    }
    InkClassIsInk(s[pos..k], NonAlnum);
    AllInSlices(s, pos, k, e, Ink);
  }

  lemma ShapedIsInk(t: string)
    requires IsTitleShaped(t)
    ensures AllIn(t, Ink)
  {
    assert forall i | 0 <= i < |t| :: i == |t| - 1 || 'A' <= t[i] <= 'Z';
  }

  /** `token`: the ordered choice of a word, a bare `...` not followed by a
      '.', and an abbreviation. It matches exactly when one of the three
      does, and the first that matches wins. What a token looks like is
      stated by `TokenInk`, `TokenEnd` and `TokenLetters`. */
  function Token(s: string, pos: nat): (r: Option<Parsed<string>>)
    requires pos <= |s|
    ensures r.Some? ==> pos < r.value.end <= |s|
    ensures pos < |s| && InClass(s[pos], WordChar) ==> r.Some? && r == WordToken(s, pos)
    ensures var p := EndOr(Mark(s, pos), pos);
      var k := RunEnd(s, pos, NonAlnum);
      r.Some? <==>
        || (p < |s| && InClass(s[p], WordChar))
        || (EllipsisAt(s, pos) && !DotAt(s, pos + 3))
        || (pos < k && AbbreviationBody(s, k).Some? && !DotAt(s, AbbreviationBody(s, k).value.end))
    ensures WordToken(s, pos).Some? ==> r == WordToken(s, pos)
    ensures WordToken(s, pos).None? && GuardedEllipsis(s, pos).Some? ==> r == Some(Parsed("...", pos + 3))
    ensures WordToken(s, pos).None? && GuardedEllipsis(s, pos).None? ==> r == Abbreviation(s, pos)
  {
    match WordToken(s, pos)
    case Some(w) => Some(w)
    case None =>
      match GuardedEllipsis(s, pos)
      case Some(e) => Some(e)
      case None => Abbreviation(s, pos)
  }

  /** A token is never empty and has no whitespace in its text or in the
      input it consumed. */
  lemma TokenInk(s: string, pos: nat)
    requires pos <= |s|
    ensures var r := Token(s, pos);
      r.Some? ==> |r.value.value| > 0 && AllIn(r.value.value, Ink) && AllIn(s[pos..r.value.end], Ink)
  {
    var r := Token(s, pos);
    if WordToken(s, pos).Some? {
      WordTokenInk(s, pos);
      var w := WordToken(s, pos).value;
      assert r.value.value == w.value && r.value.end == w.end;
    } else if GuardedEllipsis(s, pos).Some? {
      EllipsisText(s, pos);
      assert r.value.value == "..." && r.value.end == pos + 3;
    } else if Abbreviation(s, pos).Some? {
      AbbreviationShape(s, pos);
      var a := Abbreviation(s, pos).value;
      assert r.value.value == a.value && r.value.end == a.end;
    }
  }

  /** A token whose text ends in '.' is never followed by a '.'. */
  lemma TokenEnd(s: string, pos: nat)
    requires pos <= |s|
    ensures var r := Token(s, pos);
      r.Some? && |r.value.value| > 0 && r.value.value[|r.value.value| - 1] == '.' ==> !DotAt(s, r.value.end)
  {
    var r := Token(s, pos);
    if WordToken(s, pos).Some? {
      WordTokenEnd(s, pos);
      var w := WordToken(s, pos).value;
      assert r.value.value == w.value && r.value.end == w.end;
    } else if GuardedEllipsis(s, pos).Some? {
      assert r.value.end == pos + 3;
    } else if Abbreviation(s, pos).Some? {
      var a := Abbreviation(s, pos).value;
      assert r.value.end == a.end;
    }
  }

  /** On text without whitespace, keeping the letters is dropping the marks. */
  lemma {:induction false} LettersOfInk(t: string)
    requires AllIn(t, Ink)
    ensures Letters(t) == StripPunct(t)
    decreases |t|
  {
    if |t| > 0 {
      assert AllIn(t[1..], Ink) by { assert forall i | 0 <= i < |t| - 1 :: t[1..][i] == t[i + 1]; }
      LettersOfInk(t[1..]);
    }
  }

  /** A token starts and ends on a character that is not whitespace. */
  lemma TokenEdges(s: string, pos: nat)
    requires pos <= |s| && Token(s, pos).Some?
    ensures !IsWhitespace(s[pos]) && InkBefore(s, Token(s, pos).value.end)
  {
    var e := Token(s, pos).value.end;
    TokenInk(s, pos);
    assert s[pos..e][0] == s[pos] && s[pos..e][e - 1 - pos] == s[e - 1];
  }

  /** A token's text and the input it consumed agree once every '.', '?'
      and '!' is removed from both. */
  lemma TokenStripped(s: string, pos: nat)
    requires pos <= |s|
    ensures var r := Token(s, pos);
      r.Some? ==> StripPunct(r.value.value) == StripPunct(s[pos..r.value.end])
  {
    if WordToken(s, pos).Some? {
      WordTokenStripped(s, pos);
    } else if GuardedEllipsis(s, pos).Some? {
      EllipsisText(s, pos);
    }
  }

  /** A token loses no word character: its text and the input it consumed
      hold the same letters in the same order. Only marks are dropped. */
  lemma TokenLetters(s: string, pos: nat)
    requires pos <= |s|
    ensures var r := Token(s, pos);
      r.Some? ==> Letters(r.value.value) == Letters(s[pos..r.value.end])
  {
    var r := Token(s, pos);
    if r.Some? {
      TokenInk(s, pos);
      if WordToken(s, pos).Some? {
        WordTokenText(s, pos);
        var w := WordToken(s, pos).value;
        assert r.value.value == w.value && r.value.end == w.end;
      } else if GuardedEllipsis(s, pos).Some? {
        EllipsisText(s, pos);
        assert r.value.value == s[pos..r.value.end];
      } else {
        var a := Abbreviation(s, pos).value;
        assert r.value.value == a.value && r.value.end == a.end;
      }
      LettersOfInk(r.value.value);
      LettersOfInk(s[pos..r.value.end]);
    }
  }

  /** The second and third alternatives of `token` are reached only at a '.',
      '?' or '!': whenever a token starts with any other character, the word
      alternative takes it. */
  lemma FallbackStartsAtPunct(s: string, pos: nat)
    requires pos <= |s|
    requires Token(s, pos).Some? && WordToken(s, pos).None?
    ensures IsSentencePunct(s[pos])
  {
    TokenInk(s, pos);
    assert InClass(s[pos..Token(s, pos).value.end][0], Ink);
  }

  /** Word characters closed by a '.' that ends the word (whitespace or the end
      of the input follows) make a token WITHOUT the '.'. Personal titles,
      `NO.` and any word before a full stop are all of this form. */
  lemma WordBeforeDot(s: string, pos: nat, d: nat, e: nat)
    requires pos < d < |s| && e == d + 1
    requires AllIn(s[pos..d], WordChar) && s[d] == '.'
    requires e == |s| || IsWhitespace(s[e])
    ensures Token(s, pos) == Some(Parsed(s[pos..d], d))
  {
    assert InClass(s[pos..d][0], WordChar);
    EmptyJoins(s[pos..d]);
    RunEndUnique(s, pos, WordChar, d);
    assert Run(s, pos, WordChar) == Some(Parsed(s[pos..d], d));
    assert Mark(s, d).Some? && Mark(s, d).value.end == e;
    assert MorePieces(s, d) == Parsed("", d);
    assert GuardedEllipsis(s, d).None?;
  }

  /** A title-shaped word glued to word characters is word characters up to
      the title's final '.'. */
  lemma TitleIsWordThenDot(s: string, pos: nat, k: nat, t: string, e: nat)
    requires IsTitleShaped(t) && e == k + |t|
    requires pos <= k && LitAt(s, k, t) && AllIn(s[pos..k], WordChar)
    ensures pos < e - 1 < e <= |s| && s[e - 1] == '.'
    ensures AllIn(s[pos..e - 1], WordChar)
  {
    var d := e - 1;
    ShapedAt(s, k, t);
    assert AllIn(s[k..d], WordChar) by {
      assert forall i | 0 <= i < d - k :: s[k..d][i] == s[k + i];
    }
    AllInSlices(s, pos, k, d, WordChar);
  }

  /** A title-shaped word, which covers every personal title and `NO.` (with
      any word characters glued before it, as in `(NO.`), does not keep its
      '.' when whitespace follows: the token stops before the '.', and the
      '.' is left to close the sentence. The title `t` starts at `k` and
      `e` is just after it. */
  lemma TitleLosesItsDot(s: string, pos: nat, k: nat, t: string, e: nat)
    requires IsTitleShaped(t) && e == k + |t|
    requires pos <= k && LitAt(s, k, t) && AllIn(s[pos..k], WordChar)
    requires e == |s| || IsWhitespace(s[e])
    ensures Token(s, pos) == Some(Parsed(s[pos..e - 1], e - 1))
  {
    TitleIsWordThenDot(s, pos, k, t, e);
    WordBeforeDot(s, pos, e - 1, e);
  }

  /** The word interior reads the rest of a run of initials, from the '.' of
      its first initial, as its letters: every '.' is a mark followed by one
      letter, except the last, which ends the word. */
  lemma {:induction false} MorePiecesOverInitials(s: string, p: nat, e: nat)
    requires p < e <= |s| && Initials(s, p, e)
    requires e == |s| || IsWhitespace(s[e])
    ensures MorePieces(s, p + 1).end == e - 1
    decreases e - p
  {
    assert Mark(s, p + 1) == Some(Parsed([s[p + 1]], p + 2));
    if p + 2 == e {
      assert Run(s, p + 2, WordChar).None?;
    } else {
      LetterRun(s, p + 2, p + 3);
      MorePiecesOverInitials(s, p + 2, e);
      assert MorePieces(s, p + 1).end == MorePieces(s, p + 3).end;
    }
  }

  /** The word interior is known from where it ends. */
  lemma MorePiecesEndingAt(s: string, p: nat, q: nat)
    requires p <= |s| && MorePieces(s, p).end == q
    ensures MorePieces(s, p) == Parsed(StripPunct(s[p..q]), q)
  {
  }

  /** No mark starts at a letter. */
  lemma LetterNoMark(s: string, p: nat)
    requires p < |s| && IsAlpha(s[p])
    ensures Mark(s, p).None?
  {
  }

  /** A letter followed by a '.' is a run of word characters by itself. */
  lemma LetterRun(s: string, p: nat, q: nat)
    requires q == p + 1 && q < |s| && IsAlpha(s[p]) && s[q] == '.'
    ensures Run(s, p, WordChar) == Some(Parsed(s[p..q], q))
  {
    assert AllIn(s[p..q], WordChar) by {
      assert s[p..q][0] == s[p];
    }
    RunEndUnique(s, p, WordChar, q);
  }

  /** On a run of initials followed by whitespace, the word alternative
      takes the first letter, then reads the rest as its interior. */
  lemma AcronymWord(s: string, pos: nat, e: nat)
    requires pos < e <= |s| && Initials(s, pos, e)
    requires e == |s| || IsWhitespace(s[e])
    ensures pos + 2 <= e && s[e - 1] == '.'
    ensures WordToken(s, pos) == Some(Parsed(s[pos..pos + 1] + StripPunct(s[pos + 1..e - 1]), e - 1))
  {
    InitialsEndInDot(s, pos, e);
    MorePiecesOverInitials(s, pos, e);
    LetterThenPieces(s, pos, pos + 1, e - 1, e);
  }

  /** A single initial followed by whitespace or the end of the input: the
      word alternative takes the letter alone. */
  lemma LoneInitial(s: string, pos: nat, q: nat, e: nat)
    requires q == pos + 1 && e == q + 1 && e <= |s|
    requires IsAlpha(s[pos]) && s[q] == '.'
    requires e == |s| || IsWhitespace(s[e])
    ensures WordToken(s, pos) == Some(Parsed(s[pos..q] + StripPunct(s[q..q]), q))
  {
    LetterNoMark(s, pos);
    LetterRun(s, pos, q);
    assert Run(s, e, WordChar).None?;
    MorePiecesEndingAt(s, q, q);
    LastDot(s, q, e);
    PlainWord(s, pos, s[pos..q], q, StripPunct(s[q..q]), q);
  }

  /** A letter, a '.' at `q`, an interior ending at a final '.' at `d`, and
      then whitespace or the end of the input at `e`: the word alternative
      takes the letter and the interior. */
  lemma LetterThenPieces(s: string, pos: nat, q: nat, d: nat, e: nat)
    requires q == pos + 1 && q <= d && e == d + 1 && e <= |s|
    requires IsAlpha(s[pos]) && s[q] == '.' && s[d] == '.'
    requires MorePieces(s, q).end == d
    requires e == |s| || IsWhitespace(s[e])
    ensures WordToken(s, pos) == Some(Parsed(s[pos..q] + StripPunct(s[q..d]), d))
  {
    LetterNoMark(s, pos);
    LetterRun(s, pos, q);
    MorePiecesEndingAt(s, q, d);
    LastDot(s, d, e);
    PlainWord(s, pos, s[pos..q], q, StripPunct(s[q..d]), d);
  }

  /** A '.' that whitespace or the end of the input follows starts no
      ellipsis. */
  lemma LastDot(s: string, d: nat, e: nat)
    requires e == d + 1 && e <= |s| && (e == |s| || IsWhitespace(s[e]))
    ensures !EllipsisAt(s, d)
  {
  }

  /** A word token with no leading mark and no trailing ellipsis is its first
      run and its interior. */
  lemma PlainWord(s: string, pos: nat, f: string, q: nat, m: string, e: nat)
    requires pos <= |s| && q <= |s| && Mark(s, pos).None?
    requires Run(s, pos, WordChar) == Some(Parsed(f, q))
    requires MorePieces(s, q) == Parsed(m, e) && !EllipsisAt(s, e)
    ensures WordToken(s, pos) == Some(Parsed(f + m, e))
  {
    EmptyJoins(f);
    EmptyJoins(f + m);
  }

  /** An acronym followed by whitespace is read by the word alternative as
      its letters with every '.' dropped, and the token stops before the
      final '.': `U.S.A. x` gives the token `USA`. */
  lemma AcronymLosesItsDots(s: string, pos: nat, e: nat)
    requires pos < e <= |s| && Initials(s, pos, e)
    requires e == |s| || IsWhitespace(s[e])
    ensures pos + 2 <= e && s[e - 1] == '.'
    ensures Token(s, pos) == Some(Parsed(StripPunct(s[pos..e]), e - 1))
  {
    assert pos + 2 <= e && s[e - 1] == '.'
      && WordToken(s, pos) == Some(Parsed(s[pos..pos + 1] + StripPunct(s[pos + 1..e - 1]), e - 1)) by {
      AcronymWord(s, pos, e);
    }
    StripAcronym(s, pos, e);
  }

  lemma StripAcronym(s: string, pos: nat, e: nat)
    requires pos + 1 < e <= |s| && !IsSentencePunct(s[pos]) && s[e - 1] == '.'
    ensures StripPunct(s[pos..e]) == s[pos..pos + 1] + StripPunct(s[pos + 1..e - 1])
  {
    assert s[pos..pos + 1] == [s[pos]];
    assert StripPunct([s[pos]]) == [s[pos]];
    assert s[pos..e] == [s[pos]] + s[pos + 1..e - 1] + [s[e - 1]];
    StripPunctConcat([s[pos]] + s[pos + 1..e - 1], [s[e - 1]]);
    StripPunctConcat([s[pos]], s[pos + 1..e - 1]);
    assert StripPunct([s[e - 1]]) == [];
  }
}
