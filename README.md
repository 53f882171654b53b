# Sentence-splitting grammar of parse.py, in Dafny

`parse.py` splits a raw corpus into documents, each document into a title
line and indented sections, each section into sentences, and each sentence
into tokens. It does this with a whitespace-sensitive PEG written with
pyparsing combinators (`parse.py:25-70`). This project models that grammar:
every production is a function of the whole input `s` and a cursor `pos`.
A production returns `None` when it fails. When it matches, it returns
`Some(Parsed(value, end))`, where `value` is the text it produces and `end`
is the position just after what it consumed. Suppressed productions return
only the end position.

The combinator semantics the model follows:

- No whitespace is skipped implicitly (`parse.py:25`).
- `|` is ordered choice: the first alternative that matches wins.
- `Opt` and `[n, ...]` are greedy and never backtrack into a finished
  iteration.
- When a `(delimiter + element)` iteration fails, the cursor goes back to
  before the delimiter.
- `FollowedBy` and `~` consume nothing.
- `Suppress` drops text, and `Combine` concatenates the surviving pieces.
- `delimited_list(..., combine=True)` keeps the delimiter text. Without
  `combine` it drops it.

Modules:

- `Text`: match results, the character classes, maximal runs (`Word`,
  `CharsNotIn`), literals, and `Letters`. `Letters` is the word characters
  of a text in order; it is used to state that a parse loses no text.
- `Lexical`: `space`, `newline`, `token_space`, `section_indent`,
  `newline[...]` and `section_sep`.
- `Tokens`: the personal titles, `number_abbrev`, `initial`, `acronym` and
  the three alternatives of `token`.
- `Sentences`: the token list, the sentence close and `sentence`.
- `Structure`: the sentence delimiter, `section`, `title`, `document` and
  `corpus`.
- `Samples`: whole parses of small inputs: a one-character title, a blank
  line and an indented one-letter sentence make a document, and two such
  documents separated by a blank line make a corpus of two. Other samples
  show which marks are kept: "?!DR." as one token, "a ... b." and
  "Wait... really?" as whole sentences, and "a..... b." as a section text.

What is proved, in short:

- Every token is non-empty and free of whitespace. A word token keeps its
  leading mark, its first run and its trailing ellipsis as consumed; only
  its interior marks are dropped.
- The dot guards hold.
- A personal title is one of the 19 listed strings, and no title is a
  prefix of another.
- An acronym alternates letters and '.'.
- A sentence closes in exactly two ways: with one mark, or right before a
  blank line.
- Sentence, section, title and document texts never contain a line break.
- Every level keeps every word character of the input it consumed, in
  order, up to a whole corpus keeping every word character of the input.
- Once the marks are removed, a sentence, a sentence list and the core of
  a section are exactly their input with the line breaks removed
  (`Lexical.Unbreak`). With the marks kept, a sentence's text is its
  tokens' texts joined by the input of its token spaces and its close, line
  breaks removed; the sentence list of a section joins its sentences the
  same way through their delimiters, four dots included.
- `token` matches exactly when one of its three alternatives does, and the
  first that matches wins.
- A title line is never read as a section.
- Input made of whitespace alone is not a corpus.
- Section, document and corpus each match exactly when their parts do, and
  "T\n\n a." and "T\n\n a.\n\nU\n\n b." parse to one and two documents.

The grammar as written has these consequences, which the model follows:

- A line break inside a sentence does not survive into the sentence text.
  It is suppressed inside `token_space` (`parse.py:35-36`), so only the
  spaces and tabs after it remain, and two words separated by a bare line
  break are glued ("a\nb" gives "ab"). The printing loop still replaces
  "\n" by a space in every sentence (`parse.py:81`), but there is none
  left to replace.
- A personal title such as "DR.", the abbreviation "NO." and an acronym
  such as "U.S.A." do not keep a sentence together. When whitespace
  follows them, the first `token` alternative reads their letters and
  stops before the final '.', and that '.' closes the sentence. This is
  stated by `Tokens.TitleLosesItsDot`, `Tokens.AcronymLosesItsDots`,
  `Sentences.TitleEndsSentence` and `Sentences.AcronymEndsSentence`.

Three more consequences of the code as written are stated as lemmas:

- The `Opt(token_space) + Literal('....')` half of the sentence lookahead
  never decides anything (`Sentences.FourDotsAlreadyClosed`).
- The leading `Opt(token_space)` of the four-dot sentence delimiter never
  matches (`Structure.SentenceDelimCases`).
- A sentence not closed by a mark must be followed by a blank line
  (`Sentences.SentenceEnd`).

## Model

| member | source | states |
|---|---|---|
| Text.RunEnd | parse.py:46 | the run of class characters from `pos` ends at the first character outside the class, and everything before it is in the class |
| Text.Run | parse.py:46-50 | `Word`/`CharsNotIn`: matches exactly when the first character is in the class; the text is the input it consumed, all in the class, and the next character is not |
| Text.RunEndUnique | parse.py:46-50 | a stretch of class characters not followed by one is exactly the run: the run is determined by its class |
| Text.IsSentencePunct | parse.py:27 | a sentence mark is printable, neither letter nor digit, and not whitespace |
| Text.IsWhitespace | parse.py:33 | a whitespace character is neither printable nor alphanumeric |
| Lexical.Space | parse.py:34 | `space` matches exactly at a space or tab and takes the maximal run of them as its text |
| Lexical.LineBreakAtRunEnd | parse.py:35 | the "\r\n" or "\n" of a line break starts exactly where the run of spaces and tabs ends |
| Lexical.LineBreakUnique | parse.py:35 | at most one line break starts at any position |
| Lexical.LineBreakIsLayout | parse.py:35 | a line break is whitespace only |
| Lexical.Newline | parse.py:35 | `newline` consumes a line break (optional spaces/tabs, then "\r\n" or "\n") when one starts at `pos`, and fails only when none does |
| Lexical.TokenSpace | parse.py:36 | `token_space` matches exactly at a space, tab, "\n" or "\r\n"; its text is spaces and tabs only, and is what follows the suppressed line break, if any, in the input; it stops before a character that is not a space or tab |
| Lexical.TokenSpaceTakesBreak | parse.py:35-36 | the `newline + Opt(space)` alternative wins whenever a line break starts at `pos`: the token space consumes the whole line break, and its text is only the spaces and tabs after it, never those before it |
| Lexical.TokenSpaceText | parse.py:35-36 | a token space holds no line break and no word character, in its text or in the input it consumed |
| Lexical.Unbreak | parse.py:35-36 | the reference for what a suppressed line break removes: a text without its line breaks (each "\r\n" or "\n" and the spaces and tabs before it); no "\n" is left |
| Lexical.UnbreakConcat | parse.py:35-36 | removing line breaks distributes over concatenation when no line break spans the seam |
| Lexical.UnbreakAfterBreak | parse.py:35 | a leading line break is removed whole |
| Lexical.TokenSpaceUnbreak | parse.py:35-36 | a token space's text is exactly its input with the line break removed |
| Lexical.SectionIndent | parse.py:37 | `section_indent` matches exactly at a literal space and takes all the spaces that follow |
| Lexical.Newlines | parse.py:67 | `newline[...]` consumes only whitespace, its last character is "\n", and no further line break follows |
| Lexical.BlankLineStartsTwoNewlines | parse.py:38 | a blank line at `pos` means two `newline` matches in a row |
| Lexical.SectionSep | parse.py:38 | `section_sep` matches exactly where a blank line (two line breaks) starts, consumes only whitespace ending in "\n", and leaves no further line break |
| Lexical.TwoLineBreaksAreLayout | parse.py:38 | two consecutive line breaks are a blank line, and the repetition after them is whitespace ending in "\n" |
| Tokens.Title | parse.py:28-31 | each of the 19 entries is capitals closed by its only '.' |
| Tokens.TitlesDistinct | parse.py:28-31 | the 19 entries are pairwise distinct |
| Tokens.NumberShaped | parse.py:41 | `NO.` has the same shape |
| Tokens.ShapedMatchUnique | parse.py:28-31 | two such words cannot both occur at one position unless they are equal (none is a prefix of another) |
| Tokens.TitleFrom | parse.py:40 | what the `one_of` search finds is title-shaped, occurs at `pos`, and ends after its length |
| Tokens.TitleTry | parse.py:40 | one search step keeps the same guarantees |
| Tokens.TitleFromFound | parse.py:40 | a found title is one of the listed entries from the current one on |
| Tokens.TitleFromSkips | parse.py:40 | when the search finds nothing, no remaining entry occurs at `pos` |
| Tokens.TitleFromAbsent | parse.py:40 | when no remaining entry occurs at `pos`, the search finds nothing |
| Tokens.TitleFromNone | parse.py:40 | the search fails exactly when no remaining entry occurs at `pos` |
| Tokens.PersonalTitle | parse.py:40 | `personal_title` matches a title-shaped word occurring at `pos` and consumes exactly its length |
| Tokens.PersonalTitleMatches | parse.py:28-40 | what `personal_title` matches is one of the 19 titles, and it fails exactly when none of them occurs at `pos` |
| Tokens.PersonalTitleShape | parse.py:28-40 | a matched title starts with a letter and ends in '.' |
| Tokens.PersonalTitleUnique | parse.py:40 | whenever title `j` occurs at `pos`, `personal_title` matches exactly title `j`, so the order of `one_of` does not matter |
| Tokens.NumberAbbrev | parse.py:41 | `number_abbrev` matches exactly where "NO." occurs and consumes three characters |
| Tokens.Initial | parse.py:42 | `initial` matches exactly an ASCII letter followed by '.', and its text is those two characters |
| Tokens.InitialsEnd | parse.py:43 | the greedy repetition of `initial` covers a run of initials, and no further initial follows it |
| Tokens.Acronym | parse.py:43 | `acronym` matches exactly where an initial starts; its text is the input it consumed, a run of initials that no further initial follows |
| Tokens.InitialsShape | parse.py:42-43 | a run of initials has even length, letters in even places and '.' in odd places |
| Tokens.AcronymShape | parse.py:42-43 | an acronym's text has even length, at least two characters, and alternates letter and '.' |
| Tokens.AcronymEnds | parse.py:42-43 | an acronym starts with a letter and ends in '.' |
| Tokens.InitialsEndInDot | parse.py:42-43 | a non-empty run of initials is at least two characters and ends in '.' |
| Tokens.InitialsAreInk | parse.py:42-43 | a run of initials has no whitespace |
| Tokens.Mark | parse.py:45-47 | `Literal('...') \| Char('.?!')` matches exactly at '.', '?' or '!', and takes three characters when an ellipsis starts there, else one |
| Tokens.MarkText | parse.py:45-47 | a mark's text is the input it consumed, and it is marks only |
| Tokens.GuardedEllipsis | parse.py:48-49 | `Literal('...') + ~Literal('.')` matches exactly three dots not followed by a fourth |
| Tokens.MorePieces | parse.py:46-47 | the interior of a word: its text is the input it consumed with every '.', '?' and '!' removed, is all word characters, consumes no whitespace, and ends on a word character when it consumed anything |
| Tokens.MorePiecesFrom | parse.py:46-47 | one iteration after its mark, and the iterations after it: its text is the input it consumed with every mark removed, is all word characters, consumes no whitespace, and consumes nothing, or ends on a word character |
| Tokens.MorePiecesStop | parse.py:46-47 | the interior repetition is greedy: where it stops, no mark followed by a word character starts |
| Tokens.LeadPiece | parse.py:45 | the optional leading mark of a word is marks only, in its text and in the input |
| Tokens.TrailPiece | parse.py:48 | the optional trailing ellipsis is marks only, and when present it is three dots not followed by a fourth |
| Tokens.WordToken | parse.py:45-48 | the first `token` alternative matches exactly when a word character follows the optional leading mark |
| Tokens.WordTokenInk | parse.py:45-48 | a word token is non-empty and has no whitespace, in its text or in the input it consumed |
| Tokens.WordTokenEnd | parse.py:48 | a word token ends in a mark only when it ends in an ellipsis that no '.' follows |
| Tokens.WordTokenText | parse.py:45-48 | a word token is its input with only the interior marks removed: the leading mark and first run as consumed, then the interior without its '.', '?' and '!', then the trailing ellipsis as consumed |
| Tokens.AbbreviationBody | parse.py:51 | `personal_title \| number_abbrev \| acronym` yields the input it consumed |
| Tokens.AbbreviationBodyShape | parse.py:40-51 | the body starts with a letter, ends in '.', and is title-shaped or a run of initials |
| Tokens.AbbreviationBodyCases | parse.py:40-51 | the body is a personal title, "NO." or a run of initials, and it fails exactly when none of the three occurs |
| Tokens.Abbreviation | parse.py:50-52 | the third `token` alternative matches exactly when a non-empty run of characters that are neither alphanumeric nor whitespace is followed by a personal title, "NO." or an acronym that no '.' follows; it yields the input it consumed and is never followed by '.' |
| Tokens.AbbreviationShape | parse.py:50-52 | it is that leading run then a body starting with a letter, ends in '.', and has no whitespace |
| Tokens.Token | parse.py:45-52 | `token` matches exactly when one of its three alternatives does: a word character after the optional leading `...` or mark, a `...` that no '.' follows, or the abbreviation form. The first that matches wins: the word alternative whenever it matches, else the bare `...`, else the abbreviation. It consumes at least one character |
| Tokens.TokenInk | parse.py:45-52 | every token is non-empty and has no space, tab, "\r" or "\n", in its text or in the input it consumed |
| Tokens.TokenEnd | parse.py:48-52 | a token whose text ends in '.' is never followed by '.' |
| Tokens.TokenLetters | parse.py:45-52 | a token keeps every word character of the input it consumed, in order |
| Tokens.TokenEdges | parse.py:45-52 | a token starts and ends on a non-whitespace character |
| Tokens.TokenStripped | parse.py:45-52 | a token's text and its input agree once every '.', '?' and '!' is removed from both |
| Tokens.FallbackStartsAtPunct | parse.py:45-52 | the bare ellipsis and abbreviation alternatives are reached only at '.', '?' or '!' |
| Tokens.WordBeforeDot | parse.py:45-48 | word characters closed by a '.' that whitespace or the end follows make a token without that '.' |
| Tokens.TitleIsWordThenDot | parse.py:28-46 | a title-shaped word glued to word characters is word characters up to its final '.' |
| Tokens.TitleLosesItsDot | parse.py:40-52 | a personal title or "NO." (with any word characters glued before it) followed by whitespace is read as a token without its '.' |
| Tokens.MorePiecesOverInitials | parse.py:42-47 | after the first letter of a run of initials followed by whitespace, the word interior stops just before the final '.' |
| Tokens.LoneInitial | parse.py:45-48 | a single initial followed by whitespace is the word token of its letter alone |
| Tokens.LetterThenPieces | parse.py:45-48 | a letter, a '.', an interior that ends before a final '.', then whitespace: the word token is the letter and the interior |
| Tokens.AcronymWord | parse.py:43-48 | on a run of initials followed by whitespace, the word alternative takes the first letter and the rest without the marks, stopping before the final '.' |
| Tokens.AcronymLosesItsDots | parse.py:43-52 | an acronym followed by whitespace becomes the token of its letters ("U.S.A. x" gives "USA"), and the final '.' is left unconsumed |
| Sentences.MoreTokens | parse.py:53 | the repetition `(token_space + token)*` stays within the input and, when it consumed anything, ends on a non-whitespace character |
| Sentences.MoreTokensFrom | parse.py:53 | a failed iteration puts the cursor back before its token space; a successful one ends on a non-whitespace character |
| Sentences.MoreTokensStop | parse.py:53 | the repetition is greedy: where it stops, no token space followed by a token starts |
| Sentences.MoreTokensText | parse.py:35-53 | its text has no line break and exactly the word characters of its input; once the marks are removed from both, it is that input with its line breaks removed |
| Sentences.MoreTokensExact | parse.py:53 | where a token space and a token follow, the repetition's text is that token space's input with its line break removed, then the token's text, then the rest of the repetition; otherwise it matches nothing. Marks are kept |
| Sentences.TokenList | parse.py:53 | the token list matches exactly when a token starts at `pos`, and starts and ends on a non-whitespace character |
| Sentences.TokenListText | parse.py:35-53 | a token list is non-empty, starts at non-whitespace, has no line break and keeps every word character of its input; once the marks are removed from both, it is that input with its line breaks removed |
| Sentences.CloseMark | parse.py:54 | `Opt(token_space) + Char('.?!')` matches exactly when the character after the optional token space is a mark; its text is spaces/tabs then exactly that mark, the last character consumed |
| Sentences.CloseMarkSameLine | parse.py:36-54 | a mark right after the token list, or after spaces and tabs on the same line, closes with those spaces and the mark ("a ." closes with " .") |
| Sentences.CloseMarkNextLine | parse.py:35-54 | a mark after a line break and optional spaces closes too, with the line break dropped and the spaces kept ("a\n." closes with ".") |
| Sentences.CloseMarkNotAcrossBlankLine | parse.py:35-54 | a mark after two line breaks does not close: the token space takes only the first ("a\n\n." has no closing mark after "a") |
| Sentences.Close | parse.py:54-55 | the close stays within the input and, when it consumed anything, ends on a mark |
| Sentences.CloseCases | parse.py:54-55 | the close matches exactly when a closing mark or a section separator follows |
| Sentences.CloseAhead | parse.py:55 | wherever the lookahead holds, a blank line or a closing mark follows |
| Sentences.FourDotsAlreadyClosed | parse.py:54-55 | wherever the `....` lookahead would hold, the closing mark already matches, so that lookahead never decides anything |
| Sentences.CloseEnd | parse.py:54-55 | a close either consumes and ends with exactly one mark, or consumes nothing right before a blank line |
| Sentences.Sentence | parse.py:53-55 | a sentence consumes at least one character and starts and ends on a non-whitespace character |
| Sentences.SentenceCases | parse.py:53-55 | a sentence matches exactly when its token list matches and a closing mark or a blank line follows it; otherwise it fails |
| Sentences.SentenceEnd | parse.py:53-55 | a sentence text ends in a mark, or the sentence is followed by a blank line |
| Sentences.SentenceText | parse.py:35-55 | a sentence is non-empty, starts at non-whitespace, has no line break and keeps every word character of its input; once the marks are removed from both, it is that input with its line breaks removed |
| Sentences.SentenceExact | parse.py:53-55 | a sentence's text is exactly its first token's text, then the later tokens' text, then the input of the close with its line break removed, marks included |
| Sentences.CloseText | parse.py:54-55 | the close holds no line break and no word character, in its text or its input |
| Sentences.CloseMarkText | parse.py:54 | the same for the closing mark |
| Sentences.TokenUnbreak | parse.py:35-53 | a token's text, marks removed, is its input with line breaks and marks removed |
| Sentences.CloseUnbreak | parse.py:54-55 | the close's text is exactly its input with line breaks removed |
| Sentences.OptTokenSpaceText | parse.py:36-54 | the same for `Opt(token_space)` |
| Sentences.MoreTokensAtMark | parse.py:53 | the token repetition stops at once at a mark |
| Sentences.CloseAtMark | parse.py:54 | a mark right after the token list closes the sentence with that mark |
| Sentences.TokenThenMark | parse.py:53-54 | a token directly followed by a mark is a whole sentence: the token text, then the mark |
| Sentences.TokenThenDot | parse.py:53-54 | the same with '.' |
| Sentences.SliceThenMark | parse.py:53-54 | a token whose text is its input, followed by a mark, is a sentence whose text is its input |
| Sentences.WordEndsSentence | parse.py:45-54 | word characters closed by '.' and followed by whitespace are a whole sentence, '.' included |
| Sentences.TitleEndsSentence | parse.py:40-54 | a personal title or "NO." followed by whitespace ends the sentence: "DR. Smith" is two sentences |
| Sentences.AcronymEndsSentence | parse.py:43-54 | an acronym followed by whitespace ends the sentence, which keeps only its last '.': "U.S.A. x" starts with the sentence "USA." |
| Structure.FourDotsDelim | parse.py:59 | `Opt(token_space) + '....' + Opt(token_space)` matches exactly when four dots follow the optional token space |
| Structure.SentenceDelim | parse.py:59 | the sentence delimiter consumes at least one character |
| Structure.SentenceDelimCases | parse.py:59 | the delimiter matches exactly at a token space or at four dots, and in the four-dot case its text starts with "...." (kept in the section text) |
| Structure.SentenceDelimText | parse.py:59 | a delimiter holds no line break and no word character, in its text or its input |
| Structure.SentenceDelimUnbreak | parse.py:59 | a delimiter's text is exactly its input with line breaks removed |
| Structure.MoreSentences | parse.py:58-60 | the repetition `(delimiter + sentence)*` stays within the input and, when it consumed anything, ends on a non-whitespace character |
| Structure.MoreSentencesFrom | parse.py:58-60 | a failed iteration puts the cursor back before its delimiter; a successful one ends on a non-whitespace character |
| Structure.MoreSentencesStop | parse.py:58-60 | the repetition is greedy: where it stops, no delimiter followed by a sentence starts |
| Structure.MoreSentencesText | parse.py:58-60 | its text has no line break and exactly the word characters of its input; once the marks are removed from both, it is that input with its line breaks removed |
| Structure.MoreSentencesExact | parse.py:58-60 | where a delimiter and a sentence follow, the repetition's text is the delimiter's input with its line break removed (four dots included), then the sentence's text, then the rest; otherwise it matches nothing |
| Structure.SentenceList | parse.py:58-60 | the sentence list matches exactly when a sentence starts at `pos`, and starts and ends on a non-whitespace character |
| Structure.SentenceListText | parse.py:58-60 | a sentence list is non-empty, has no line break and keeps every word character of its input; once the marks are removed from both, it is that input with its line breaks removed |
| Structure.LeadingDots | parse.py:57 | the optional leading `....` consumes something exactly when four dots start there |
| Structure.TrailingDots | parse.py:61 | the optional trailing `....` consumes something exactly when four dots follow the optional token space, and then ends on '.' |
| Structure.LeadingDotsNoLetter | parse.py:57 | what the leading form drops has no word character |
| Structure.TrailingDotsNoLetter | parse.py:61 | what the trailing form drops has no word character |
| Structure.Section | parse.py:56-61 | a section matches exactly when spaces start at `p` and a sentence starts after them and after the optional leading `....`; it then consumes at least one character and ends on a non-whitespace character |
| Structure.SectionText | parse.py:56-61 | a section text is non-empty, has no line break and keeps every word character of its input; the indent and four-dot forms it drops have none, and between them lies a stretch whose input, line breaks and marks removed, is the text without its marks |
| Structure.MoreWords | parse.py:62 | the title repetition stays within the input, stops at a non-printable character when it took any word, and is greedy: no further space and word follow where it stops |
| Structure.SpaceThenWord | parse.py:62 | one iteration's word is its input without the spaces and tabs before it |
| Structure.MoreWordsText | parse.py:62 | the repetition's text is its input without spaces and tabs, and is printable |
| Structure.TitleLine | parse.py:62 | `title` matches exactly at a printable character, and stops where neither a printable character nor further words follow |
| Structure.TitleLineText | parse.py:62 | a title is its input without spaces and tabs, non-empty, printable, and keeps every word character of its input |
| Structure.TitleIsNotSection | parse.py:37-62 | no position starts both a title and a section |
| Structure.SectionSepNoLetter | parse.py:38 | a section separator has no word character |
| Structure.MoreSections | parse.py:65 | the repetition `(section_sep + section)*` stays within the input and, when it consumed anything, ends on a non-whitespace character |
| Structure.MoreSectionsFrom | parse.py:65 | a failed iteration puts the cursor back before its separator; a successful one ends on a non-whitespace character |
| Structure.MoreSectionsText | parse.py:65 | every section of the repetition is non-empty and on one line, and together they keep every word character of its input |
| Structure.MoreSectionsStopAtTitle | parse.py:37-65 | a title line after a blank line ends the section repetition: it is not taken as one more section |
| Structure.SectionList | parse.py:65 | the section list matches exactly when a section starts, has at least one section, and ends on a non-whitespace character |
| Structure.SectionListText | parse.py:65 | every listed section is non-empty and on one line, and together they keep every word character of its input |
| Structure.Document | parse.py:63-65 | a document matches exactly when a title starts at `p`, a section separator follows the title and a section follows the separator; it then has at least one section and ends on a non-whitespace character |
| Structure.DocumentText | parse.py:63-65 | a document has a non-empty printable title and one or more sections, each non-empty and on one line, and keeps every word character of its input |
| Structure.MoreDocuments | parse.py:68 | the repetition `(section_sep + document)*` stays within the input and, when it consumed anything, ends on a non-whitespace character |
| Structure.MoreDocumentsFrom | parse.py:68 | a failed iteration puts the cursor back before its separator; a successful one ends on a non-whitespace character |
| Structure.MoreDocumentsText | parse.py:68 | every document of the repetition is well formed, and together they keep every word character of its input |
| Structure.DocumentList | parse.py:68 | the document list matches exactly when a document starts, has at least one document, and ends on a non-whitespace character |
| Structure.DocumentListText | parse.py:68 | every listed document is well formed, and together they keep every word character of its input |
| Structure.Corpus | parse.py:66-70 | the corpus matches exactly when, after the leading line breaks, the document list matches and only line breaks follow it to the end of the input; it then has at least one document |
| Structure.CorpusText | parse.py:66-70 | every document of a parsed corpus is well formed, and together they keep every word character of the whole input, in order: no word character is left over or dropped |
| Structure.BlankIsNotCorpus | parse.py:66-70 | an input of whitespace alone is not a corpus |
| Samples.BareLineBreak | parse.py:35 | a bare "\n" is a `newline` of one character |
| Samples.NoLineBreakAt | parse.py:35 | no `newline` starts where spaces and tabs lead to a non-whitespace character |
| Samples.LetterToken | parse.py:45-48 | a word character closed by '.' before whitespace or the end of the input is a one-character token: the '.' is not taken as a delimiter of the word |
| Samples.LetterSentence | parse.py:45-54 | that character and its '.' are a whole sentence |
| Samples.AtEnd | parse.py:58-69 | at the end of the input the sentence, section and document repetitions, the trailing dots and `newline[...]` consume nothing |
| Samples.BlankLineBeforeTitle | parse.py:35-38 | two "\n" before a title: the token space takes only the first line break, the section separator takes both |
| Samples.SentenceStops | parse.py:56-65 | where a document ends (a blank line and a title, or the end of the input), no further sentence, trailing dots or section follow |
| Samples.OneSpaceIndent | parse.py:37 | one space before a word character is the whole section indent |
| Samples.LetterSection | parse.py:56-65 | a space and a one-letter sentence are a section list of exactly that one section |
| Samples.SentenceListOfOne | parse.py:58-60 | a sentence that no further sentence follows is the whole sentence list |
| Samples.SectionListOfOne | parse.py:65 | a section that no further section follows is a section list of exactly that one section |
| Samples.OneCharTitle | parse.py:62 | a printable character at the end of its line is a whole title |
| Samples.BlankLineBeforeSection | parse.py:35-38 | two "\n" before an indented line: the separator stops before the indent |
| Samples.SmallDocument | parse.py:56-65 | a one-character title, a blank line and an indented one-letter sentence are exactly the document with that title and that one section |
| Samples.NoLeadingBreak | parse.py:67 | an input that starts with a printable character has no leading line breaks to skip |
| Samples.CorpusOfOne | parse.py:66-70 | a document that starts on the first character and runs to the end of the input is the whole corpus |
| Samples.OneDocumentCorpus | parse.py:25-70 | "T\n\n a." is the corpus of one document titled "T" with the one section "a." |
| Samples.LastDocumentAfter | parse.py:63-68 | a blank line, then a document that runs to the end of the input, is one more document for the list |
| Samples.CorpusOfTwo | parse.py:66-70 | a document from the first character, then one more running to the end, make a corpus of exactly those two |
| Samples.FirstDocument | parse.py:63-65 | the first document of "T\n\n a.\n\nU\n\n b." is titled "T" with the one section "a." and ends before the blank line |
| Samples.SecondDocument | parse.py:63-68 | the rest of that input is one more document, titled "U" with the one section "b." |
| Samples.TwoDocumentCorpus | parse.py:25-70 | "T\n\n a.\n\nU\n\n b." is the corpus of those two documents: the blank line ends the first document's section list and starts the second document |
| Samples.OneSpace | parse.py:34-36 | a space before a non-whitespace character is a token space of exactly that space |
| Samples.SpaceThenToken | parse.py:53 | a space and a token are one iteration of the token repetition, which keeps the space and the token's text |
| Samples.WordThenSpace | parse.py:45-47 | word characters up to whitespace are one token of exactly those characters |
| Samples.WordThenEllipsis | parse.py:45-48 | word characters followed by `...` and whitespace are one token that keeps the `...` |
| Samples.WordThenMark | parse.py:45-48 | word characters followed by one mark that ends the word: the token stops before the mark |
| Samples.WordThenFourDots | parse.py:45-48 | word characters followed by four dots: the token stops before the dots |
| Samples.BareEllipsis | parse.py:49 | `...` before whitespace is a token by itself, from the second alternative |
| Samples.TitleBody | parse.py:40-51 | a personal title that occurs at a position is what the abbreviation body finds there |
| Samples.MarksThenTitle | parse.py:45-52 | two marks, the first not a '.', then a title-shaped word that the body finds and that no '.' follows: the word and `...` alternatives fail, and the token is the marks and the word, '.' included |
| Samples.TwoMarks | parse.py:45-49 | after two marks, the first not a '.', neither the word nor the `...` alternative matches |
| Samples.MarksRunEnd | parse.py:50 | two marks before a capital: the leading `CharsNotIn(alphanums + whitespace)` run ends at the capital |
| Samples.AbbreviationAt | parse.py:50-52 | a non-empty leading run, then a body that no '.' follows: the abbreviation alternative yields all the input up to the body's end |
| Samples.AbbreviationWins | parse.py:45-52 | when the word and `...` alternatives fail, the token is what the abbreviation alternative gives |
| Samples.QuestionTitleToken | parse.py:45-52 | "?!" and a personal title before a space are one token of exactly that input |
| Samples.AbbreviationToken | parse.py:45-52 | the token at the start of "?!DR. x" is "?!DR.", which keeps the marks and the title's '.' |
| Samples.MarkCloses | parse.py:53-54 | a mark right after a token: no further token follows, and the close is that mark |
| Samples.TokenListOf | parse.py:53 | a token list is its first token's text followed by the later tokens' text |
| Samples.SentenceOfList | parse.py:53-55 | a sentence is its token list followed by its close |
| Samples.SentenceOf | parse.py:53-55 | a sentence is its first token, the later tokens and the close, concatenated |
| Samples.SpaceWordMark | parse.py:53-54 | a space and a word before a closing mark: the later tokens are exactly that input |
| Samples.EllipsisThenWord | parse.py:49-53 | a space, a bare `...`, a space and a word before a closing mark: the later tokens are exactly that input, dots included |
| Samples.WordsAroundEllipsis | parse.py:45-55 | a word, a space, a bare `...`, a space, a word and a final mark: the sentence is the whole input |
| Samples.WordEllipsisThenWord | parse.py:45-55 | a word ending in `...`, a space, a word and a final mark: the sentence is the whole input |
| Samples.EllipsisSentence | parse.py:45-55 | the sentence of "a ... b." is all of "a ... b.": the bare `...` and the '.' are kept |
| Samples.TrailingEllipsisSentence | parse.py:45-55 | the sentence of "Wait... really?" is all 15 characters: the trailing `...` and the '?' are kept |
| Samples.FourDotsThenLast | parse.py:58-60 | four dots and a space before a last sentence are one iteration of the sentence list, which keeps "...." and the space |
| Samples.SectionOf | parse.py:56-61 | an indent, no leading four dots, a sentence list and no trailing four dots: the section is the sentence list |
| Samples.DotsBetweenSentences | parse.py:56-61 | an indented one-letter sentence, four dots, a space and another one-letter sentence: the section's text is all of the input after the indent |
| Samples.DotsSection | parse.py:56-61 | the section of " a..... b." is "a..... b.": the '.' closes the first sentence and the four dots after it are kept |

## Left out

- Reading files, and what happens to the text before the grammar sees it.
  `parse_file` (`parse.py:75`) reads the file in Python's text mode, which
  turns "\r\n" and a lone "\r" into "\n", and the model takes the text
  after that translation. On untranslated text the two differ: a lone "\r"
  is whitespace in the model (`Text.IsWhitespace`), but no production
  consumes it on its own, so "a\rb." is not a sentence in the model, while
  the program reads it as "a\nb." and yields "ab.". pyparsing
  expands tabs into spaces before parsing, and the model parses the text as
  it is: a line indented by a tab is a section in the program but not in
  the model, and a tab in a token space or a sentence is kept where the
  program holds spaces. Titles are unaffected, since a title drops its
  spaces and tabs alike (`parse.py:62`, `Structure.TitleLineText`).
- `DATA_PATHS` (`parse.py:16-20`), `COLOR_ITER` (`parse.py:22`) and the
  `click.echo` printing loop (`parse.py:72-83`), including its
  `.replace('\n', ' ')`: file-system I/O and presentation.
- pyparsing's error messages and locations, packrat caching and the
  `ParseResults` machinery (`Group`, `set_results_name`). The values are
  plain strings, sequences of strings and a `Doc(title, sections)` record.
- Sentences.Sentence: the function promises only that a sentence consumes
  something and starts and ends on non-whitespace. What it produces is stated by `SentenceCases`, `SentenceEnd`,
  `SentenceText` and `SentenceExact`.
- Structure.Corpus: the function states when a corpus matches and that it
  has at least one document, but not the documents themselves. `CorpusText`
  states that they keep every word character of the whole input, in order,
  and `Samples` pins the whole result for two inputs. The input is not
  reconstructed character by character, because suppressed whitespace,
  dropped interior marks and the glued title words make the parse lossy.
