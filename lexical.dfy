/** The lexical productions of parse.py: `space`, `newline`, `token_space`,
    `section_indent` and `section_sep`, plus `newline[...]`, the run of line
    breaks the corpus allows at its start and end. */
module Lexical {
  import opened Text

  /** `space = Word(' \t')`: the longest non-empty run of spaces and tabs. */
  function Space(s: string, pos: nat): (r: Option<Parsed<string>>)
    requires pos <= |s|
    ensures r.Some? <==> pos < |s| && IsHSpace(s[pos])
    ensures r.Some? ==> pos < r.value.end <= |s| && r.value.value == s[pos..(r.value.end)]
    ensures r.Some? ==> AllIn(r.value.value, HSpace)
    ensures r.Some? ==> r.value.end == |s| || !IsHSpace(s[r.value.end])
  {
    Run(s, pos, HSpace)
  }

  /** What one `newline` consumes: spaces and tabs, then "\r\n" or "\n". */
  ghost predicate IsLineBreak(t: string) {
    && |t| >= 1
    && t[|t| - 1] == '\n'
    && (AllIn(t[..|t| - 1], HSpace) || (|t| >= 2 && t[|t| - 2] == '\r' && AllIn(t[..|t| - 2], HSpace)))
  }

  /** A line break starting at `pos` is pinned down by the run of spaces and
      tabs at `pos`: its "\r\n" or "\n" starts where that run ends. */
  lemma LineBreakAtRunEnd(s: string, pos: nat, e: nat)
    requires pos < e <= |s|
    requires IsLineBreak(s[pos..e])
    ensures var h := RunEnd(s, pos, HSpace);
      (h == e - 1 && s[h] == '\n') || (h == e - 2 && s[h] == '\r' && s[h + 1] == '\n')
  {
    var t := s[pos..e];
    if AllIn(t[..|t| - 1], HSpace) {
      assert t[..|t| - 1] == s[pos..e - 1];
      RunEndUnique(s, pos, HSpace, e - 1);
    } else {
      assert t[..|t| - 2] == s[pos..e - 2];
      assert t[|t| - 2] == s[e - 2];
      RunEndUnique(s, pos, HSpace, e - 2);
    }
  }

  /** At most one line break starts at a given position. */
  lemma LineBreakUnique(s: string, pos: nat, a: nat, b: nat)
    requires pos < a <= |s| && pos < b <= |s|
    requires IsLineBreak(s[pos..a]) && IsLineBreak(s[pos..b])
    ensures a == b
  {
    LineBreakAtRunEnd(s, pos, a);
    LineBreakAtRunEnd(s, pos, b);
  }

  lemma LineBreakIsLayout(t: string)
    requires IsLineBreak(t)
    ensures AllIn(t, Layout)
  {
    forall i | 0 <= i < |t| ensures InClass(t[i], Layout) {
      if i < |t| - 2 || (i == |t| - 2 && AllIn(t[..|t| - 1], HSpace)) {
        assert t[i] == t[..|t| - 1][i];
        if !AllIn(t[..|t| - 1], HSpace) { assert t[i] == t[..|t| - 2][i]; }
      }
    }
  }

  /** `newline = Suppress(Opt(space) + (Literal('\r\n') | Literal('\n')))`:
      consumes exactly the line break at `pos`, and fails when there is none. */
  function Newline(s: string, pos: nat): (r: Option<nat>)
    requires pos <= |s|
    ensures r.Some? ==> pos < r.value <= |s| && IsLineBreak(s[pos..(r.value)])
    ensures r.None? ==> forall e | pos < e <= |s| :: !IsLineBreak(s[pos..e])
  {
    var p := EndOr(Space(s, pos), pos);
    assert p == RunEnd(s, pos, HSpace);
    if LitAt(s, p, "\r\n") then
      assert s[p] == "\r\n"[0] && s[p + 1] == "\r\n"[1];
      assert s[pos..p + 2][..p - pos] == s[pos..p];
      Some(p + 2)
    else if LitAt(s, p, "\n") then
      assert s[p] == "\n"[0];
      assert s[pos..p + 1][..p - pos] == s[pos..p];
      Some(p + 1)
    else
      assert forall e | pos < e <= |s| :: !IsLineBreak(s[pos..e]) by {
        forall e | pos < e <= |s| && IsLineBreak(s[pos..e]) ensures false {
          LineBreakAtRunEnd(s, pos, e);
        }
      }
      None
  }

  /** `t` with its line breaks removed, where `pending` holds the spaces and
      tabs read but not yet kept: a "\n" or "\r\n" drops them with itself,
      anything else keeps them. So exactly what `newline` would consume is
      dropped, wherever it occurs. */
  function UnbreakFrom(t: string, pending: string): (r: string)
    requires AllIn(pending, HSpace)
    ensures forall i | 0 <= i < |r| :: r[i] != '\n'
    decreases |t|
  {
    if |t| == 0 then pending
    else if IsHSpace(t[0]) then
      AllInConcat(pending, [t[0]], HSpace);
      UnbreakFrom(t[1..], pending + [t[0]])
    else if t[0] == '\n' then UnbreakFrom(t[1..], "")
    else if t[0] == '\r' && |t| > 1 && t[1] == '\n' then UnbreakFrom(t[2..], "")
    else
      assert forall i | 0 <= i < |pending| :: pending[i] != '\n';
      pending + [t[0]] + UnbreakFrom(t[1..], "")
  }

  /** `t` with every line break removed. */
  function Unbreak(t: string): (r: string)
    ensures forall i | 0 <= i < |r| :: r[i] != '\n'
  {
    UnbreakFrom(t, "")
  }

  /** No line break can span the seam between `a` and `b`: `a` ends on ink,
      `b` is empty or `b` starts on ink. */
  predicate Seam(a: string, b: string) {
    b == [] || InkBefore(a, |a|) || !IsWhitespace(b[0])
  }

  /** Pending spaces and tabs are kept when the text ends or ink follows. */
  lemma UnbreakPending(b: string, pending: string)
    requires AllIn(pending, HSpace) && (b == [] || !IsWhitespace(b[0]))
    ensures UnbreakFrom(b, pending) == pending + Unbreak(b)
  {
    if b != [] {
      assert UnbreakFrom(b, "") == [] + [b[0]] + UnbreakFrom(b[1..], "");
    }
  }

  /** Across a seam, removing line breaks works piecewise. */
  lemma {:induction false} UnbreakFromConcat(a: string, b: string, pending: string)
    requires a != [] && AllIn(pending, HSpace) && Seam(a, b)
    ensures UnbreakFrom(a + b, pending) == UnbreakFrom(a, pending) + Unbreak(b)
    decreases |a|, 1
  {
    var c := a[0];
    if IsHSpace(c) {
      UnbreakConcatSpace(a, b, pending);
    } else if c == '\n' {
      UnbreakConcatBreak(a, b, pending, 1);
    } else if c == '\r' && |a| > 1 && a[1] == '\n' {
      UnbreakConcatBreak(a, b, pending, 2);
    } else {
      UnbreakConcatInk(a, b, pending);
    }
  }

  /** The rest of `a` after its first `k` characters still meets the seam. */
  lemma SeamTail(a: string, b: string, k: nat)
    requires k < |a| && Seam(a, b)
    ensures Seam(a[k..], b) && (a + b)[k..] == a[k..] + b
  {
    assert a[k..][|a[k..]| - 1] == a[|a| - 1];
  }

  /** The first step of `UnbreakFromConcat` on a space or tab. */
  lemma {:induction false} UnbreakConcatSpace(a: string, b: string, pending: string)
    requires a != [] && AllIn(pending, HSpace) && Seam(a, b) && IsHSpace(a[0])
    ensures UnbreakFrom(a + b, pending) == UnbreakFrom(a, pending) + Unbreak(b)
    decreases |a|, 0
  {
    var p1 := pending + [a[0]];
    AllInConcat(pending, [a[0]], HSpace);
    assert (a + b)[0] == a[0];
    assert UnbreakFrom(a + b, pending) == UnbreakFrom((a + b)[1..], p1);
    assert UnbreakFrom(a, pending) == UnbreakFrom(a[1..], p1);
    if |a| == 1 {
      assert (a + b)[1..] == b && a[1..] == [];
      UnbreakPending(b, p1);
    } else {
      SeamTail(a, b, 1);
      UnbreakFromConcat(a[1..], b, p1);
    }
  }

  /** The first step of `UnbreakFromConcat` on a line break of `k`
      characters, "\n" or "\r\n". */
  lemma {:induction false} UnbreakConcatBreak(a: string, b: string, pending: string, k: nat)
    requires a != [] && AllIn(pending, HSpace) && Seam(a, b)
    requires (k == 1 && a[0] == '\n') || (k == 2 && |a| > 1 && a[0] == '\r' && a[1] == '\n')
    ensures UnbreakFrom(a + b, pending) == UnbreakFrom(a, pending) + Unbreak(b)
    decreases |a|, 0
  {
    assert (a + b)[0] == a[0] && (k == 2 ==> (a + b)[1] == a[1]);
    assert UnbreakFrom(a + b, pending) == UnbreakFrom((a + b)[k..], "");
    assert UnbreakFrom(a, pending) == UnbreakFrom(a[k..], "");
    if |a| == k {
      assert (a + b)[k..] == b && a[k..] == [];
    } else {
      SeamTail(a, b, k);
      UnbreakFromConcat(a[k..], b, "");
    }
  }

  /** The first step of `UnbreakFromConcat` on any other character. */
  lemma {:induction false} UnbreakConcatInk(a: string, b: string, pending: string)
    requires a != [] && AllIn(pending, HSpace) && Seam(a, b)
    requires !IsHSpace(a[0]) && a[0] != '\n'
    requires !(a[0] == '\r' && |a| > 1 && a[1] == '\n')
    ensures UnbreakFrom(a + b, pending) == UnbreakFrom(a, pending) + Unbreak(b)
    decreases |a|, 0
  {
    var c := a[0];
    assert (a + b)[0] == c;
    if |a| == 1 {
      assert (a + b)[1..] == b;
      assert UnbreakFrom(a + b, pending) == pending + [c] + UnbreakFrom(b, "");
      assert UnbreakFrom(a, pending) == pending + [c] + UnbreakFrom([], "");
    } else {
      assert UnbreakFrom(a + b, pending) == pending + [c] + UnbreakFrom((a + b)[1..], "");
      assert UnbreakFrom(a, pending) == pending + [c] + UnbreakFrom(a[1..], "");
      SeamTail(a, b, 1);
      UnbreakFromConcat(a[1..], b, "");
    }
  }

  lemma UnbreakConcat(a: string, b: string)
    requires Seam(a, b)
    ensures Unbreak(a + b) == Unbreak(a) + Unbreak(b)
  {
    if a == [] {
      assert a + b == b;
    } else {
      UnbreakFromConcat(a, b, "");
    }
  }

  /** The same for two adjacent slices of one input. */
  lemma UnbreakSlices(s: string, a: nat, b: nat, c: nat)
    requires a <= b <= c <= |s|
    requires b == c || InkBefore(s, b) || !IsWhitespace(s[b])
    ensures Unbreak(s[a..c]) == Unbreak(s[a..b]) + Unbreak(s[b..c])
  {
    SliceSplit(s, a, b, c);
    if a < b && InkBefore(s, b) {
      assert s[a..b][b - a - 1] == s[b - 1];
    }
    if b < c {
      assert s[b..c][0] == s[b];
    }
    if a == b {
      assert s[a..c] == s[a..b] + s[b..c];
      assert s[a..b] == [];
    } else {
      UnbreakConcat(s[a..b], s[b..c]);
    }
  }

  /** Text without "\r" or "\n" holds no line break: it is left as it is. */
  lemma {:induction false} UnbreakInline(t: string, pending: string)
    requires AllIn(t, Inline) && AllIn(pending, HSpace)
    ensures UnbreakFrom(t, pending) == pending + t
    decreases |t|
  {
    if |t| > 0 {
      assert AllIn(t[1..], Inline) by {
        assert forall i | 0 <= i < |t| - 1 :: t[1..][i] == t[i + 1];
      }
      if IsHSpace(t[0]) {
        AllInConcat(pending, [t[0]], HSpace);
        UnbreakInline(t[1..], pending + [t[0]]);
      } else {
        UnbreakInline(t[1..], "");
      }
      assert [t[0]] + t[1..] == t;
    }
  }

  /** Spaces and tabs are held back until what follows them decides. */
  lemma {:induction false} UnbreakHold(h: string, t: string, pending: string)
    requires AllIn(h, HSpace) && AllIn(pending, HSpace)
    ensures AllIn(pending + h, HSpace)
    ensures UnbreakFrom(h + t, pending) == UnbreakFrom(t, pending + h)
    decreases |h|
  {
    AllInConcat(pending, h, HSpace);
    if h == [] {
      assert h + t == t && pending + h == pending;
    } else {
      assert (h + t)[0] == h[0] && (h + t)[1..] == h[1..] + t;
      assert AllIn(h[1..], HSpace) by {
        assert forall i | 0 <= i < |h| - 1 :: h[1..][i] == h[i + 1];
      }
      AllInConcat(pending, [h[0]], HSpace);
      UnbreakHold(h[1..], t, pending + [h[0]]);
      assert pending + [h[0]] + h[1..] == pending + h;
    }
  }

  /** A line break, as `newline` consumes it, is dropped whole, and so are
      the spaces and tabs pending before it. */
  lemma UnbreakAfterBreak(lb: string, t: string)
    requires IsLineBreak(lb)
    ensures Unbreak(lb + t) == Unbreak(t)
  {
    var k := if AllIn(lb[..|lb| - 1], HSpace) then |lb| - 1 else |lb| - 2;
    var h := lb[..k];
    var tail := lb[k..] + t;
    assert lb + t == h + tail;
    UnbreakHold(h, tail, "");
    if k == |lb| - 1 {
      assert tail[0] == '\n' && tail[1..] == t;
    } else {
      assert tail[0] == '\r' && tail[1] == '\n' && tail[2..] == t;
    }
  }

  /** `token_space = Combine((newline + Opt(space)) | space)`. The line break
      is suppressed, so the text is only the spaces and tabs that follow it, or
      the whole run of spaces and tabs when there is no line break. */
  function TokenSpace(s: string, pos: nat): (r: Option<Parsed<string>>)
    requires pos <= |s|
    ensures r.Some? <==> pos < |s| && (IsHSpace(s[pos]) || s[pos] == '\n' || (s[pos] == '\r' && pos + 1 < |s| && s[pos + 1] == '\n'))
    ensures r.Some? ==> pos < r.value.end <= |s| && AllIn(r.value.value, HSpace)
    ensures r.Some? ==> pos <= r.value.end - |r.value.value|
    ensures r.Some? ==> s[r.value.end - |r.value.value|..(r.value.end)] == r.value.value
    ensures r.Some? ==> r.value.end - |r.value.value| == pos || IsLineBreak(s[pos..(r.value.end - |r.value.value|)])
    ensures r.Some? ==> r.value.end == |s| || !IsHSpace(s[r.value.end])
  {
    match Newline(s, pos)
    case Some(e) =>
      var sp := Space(s, e);
      assert IsLineBreak(s[pos..e]);
      assert pos < |s| && (IsHSpace(s[pos]) || s[pos] == '\n' || (s[pos] == '\r' && pos + 1 < |s| && s[pos + 1] == '\n')) by {
        LineBreakAtRunEnd(s, pos, e);
        var h := RunEnd(s, pos, HSpace);
        if h > pos { assert s[pos..h][0] == s[pos]; }
      }
      Some(Parsed(TextOr(sp), EndOr(sp, e)))
    case None =>
      Space(s, pos)
  }

  /** A token space holds no line break and no letter in its text, and the
      input it consumed holds no letter either. */
  lemma TokenSpaceText(s: string, pos: nat)
    requires pos <= |s|
    ensures var r := TokenSpace(s, pos);
      r.Some? ==>
        && AllIn(r.value.value, Inline) && Letters(r.value.value) == ""
        && Letters(s[pos..r.value.end]) == ""
  {
    var r := TokenSpace(s, pos);
    if r.Some? {
      var e := r.value.end;
      var cut := e - |r.value.value|;
      InlineClass(r.value.value, HSpace);
      LettersOfNone(r.value.value);
      if cut > pos {
        LineBreakIsLayout(s[pos..cut]);
        LettersOfLayout(s[pos..cut]);
      }
      LettersSlices(s, pos, cut, e);
    }
  }

  /** The line break wins the choice: when a line break starts at `pos`, the
      token space consumes all of it and its text starts right after it, so
      spaces before a line break are never taken as the whole token space. */
  lemma TokenSpaceTakesBreak(s: string, pos: nat, k: nat)
    requires pos < k <= |s| && IsLineBreak(s[pos..k])
    ensures var r := TokenSpace(s, pos);
      r.Some? && r.value.end - |r.value.value| == k
  {
    match Newline(s, pos)
    case Some(e) =>
      LineBreakUnique(s, pos, k, e);
    case None =>
      assert false;
  }

  /** A token space yields exactly its input with the line break removed. */
  lemma TokenSpaceUnbreak(s: string, pos: nat)
    requires pos <= |s|
    ensures var r := TokenSpace(s, pos);
      r.Some? ==> r.value.value == Unbreak(s[pos..r.value.end])
  {
    var r := TokenSpace(s, pos);
    if r.Some? {
      var v := r.value.value;
      var e := r.value.end;
      var c := e - |v|;
      InlineClass(v, HSpace);
      UnbreakInline(v, "");
      assert [] + v == v;
      SliceSplit(s, pos, c, e);
      if c > pos {
        UnbreakAfterBreak(s[pos..c], v);
      } else {
        assert s[pos..e] == s[c..e];
      }
    }
  }

  /** `Opt(token_space)` yields its input with the line break removed. */
  lemma OptTokenSpaceUnbreak(s: string, pos: nat)
    requires pos <= |s|
    ensures TextOr(TokenSpace(s, pos)) == Unbreak(s[pos..EndOr(TokenSpace(s, pos), pos)])
  {
    TokenSpaceUnbreak(s, pos);
  }

  /** `section_indent = Suppress(Literal(' ')[1, ...])`: one or more literal
      spaces. A tab does not indent a section here: the program expands tabs
      into spaces before it parses, and that expansion is not modelled. */
  function SectionIndent(s: string, pos: nat): (r: Option<nat>)
    requires pos <= |s|
    ensures r.Some? <==> pos < |s| && s[pos] == ' '
    ensures r.Some? ==> pos < r.value <= |s| && forall i | pos <= i < r.value :: s[i] == ' '
    ensures r.Some? ==> r.value == |s| || s[r.value] != ' '
  {
    match Run(s, pos, Blank)
    case Some(m) => Some(m.end)
    case None => None
  }

  /** `newline[...]`: as many line breaks as follow `pos`, possibly none. */
  function Newlines(s: string, pos: nat): (e: nat)
    requires pos <= |s|
    ensures pos <= e <= |s|
    ensures AllIn(s[pos..(e)], Layout)
    ensures e > pos ==> s[e - 1] == '\n'
    ensures Newline(s, e).None?
    decreases |s| - pos
  {
    match Newline(s, pos)
    case Some(p) =>
      var rest := Newlines(s, p);
      LineBreakIsLayout(s[pos..p]);
      AllInSlices(s, pos, p, rest, Layout);
      assert s[pos..p][p - pos - 1] == s[p - 1];
      rest
    case None => pos
  }

  /** Two line breaks in a row start at `pos`: at least one blank line, which
      may hold spaces and tabs. */
  ghost predicate BlankLineAt(s: string, pos: nat)
    requires pos <= |s|
  {
    exists a, b | pos < a < b <= |s| :: IsLineBreak(s[pos..a]) && IsLineBreak(s[a..b])
  }

  lemma BlankLineStartsTwoNewlines(s: string, pos: nat)
    requires pos <= |s|
    ensures BlankLineAt(s, pos) ==> Newline(s, pos).Some? && Newline(s, Newline(s, pos).value).Some?
  {
    if BlankLineAt(s, pos) {
      var a, b :| pos < a < b <= |s| && IsLineBreak(s[pos..a]) && IsLineBreak(s[a..b]);
      var na := Newline(s, pos);
      assert na.Some?;
      LineBreakUnique(s, pos, a, na.value);
      assert Newline(s, a).Some?;
    }
  }

  /** `section_sep = Suppress(newline[2, ...])`: two or more line breaks,
      consumed greedily, so it needs at least one blank line; only whitespace
      is consumed and the next line starts right after the last "\n". */
  function SectionSep(s: string, pos: nat): (r: Option<nat>)
    requires pos <= |s|
    ensures r.Some? <==> BlankLineAt(s, pos)
    ensures r.Some? ==> pos + 2 <= r.value <= |s|
    ensures r.Some? ==> AllIn(s[pos..(r.value)], Layout)
    ensures r.Some? ==> s[r.value - 1] == '\n' && Newline(s, r.value).None?
  {
    BlankLineStartsTwoNewlines(s, pos);
    match Newline(s, pos)
    case None => None
    case Some(a) =>
      match Newline(s, a)
      case None => None
      case Some(b) =>
        TwoLineBreaksAreLayout(s, pos, a, b);
        Some(Newlines(s, b))
  }

  lemma TwoLineBreaksAreLayout(s: string, pos: nat, a: nat, b: nat)
    requires pos < a < b <= |s|
    requires IsLineBreak(s[pos..a]) && IsLineBreak(s[a..b])
    ensures BlankLineAt(s, pos)
    ensures AllIn(s[pos..Newlines(s, b)], Layout) && s[Newlines(s, b) - 1] == '\n'
  {
    var e := Newlines(s, b);
    LineBreakIsLayout(s[pos..a]);
    LineBreakIsLayout(s[a..b]);
    AllInSlices(s, pos, a, b, Layout);
    AllInSlices(s, pos, b, e, Layout);
    assert s[a..b][b - a - 1] == s[b - 1];
  }
}
