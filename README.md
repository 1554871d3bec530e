# Flashcard generation pipeline, in Dafny

This project models `generateFlashcards(text, count)` from the flashcard
server (server/server.js:21-169). The function works in five steps:

1. It asks a chat model for `count` question/answer cards.
2. It cuts the answer into raw cards. When the text contains `####`, it
   splits on `####` and the white space that follows, trims each piece, and
   drops the empty ones. Otherwise it scans for
   `Question: … Answer: …` pairs and rewrites each pair as
   `Question: q\nAnswer: a`.
3. It turns each raw card into a `{question, answer}` record. The question
   is the text between the first `Question:` label and the next `Answer:`
   label, or the end of the text when no `Answer:` label follows; such a
   card still survives when an `Answer:` label stands before its
   `Question:` label. The answer is everything after the first `Answer:` label. Both are
   trimmed, and a raw card without both labels is dropped.
4. When fewer than `count` cards came back, it makes one more request with a
   stricter prompt. It always splits that second answer on `####` and
   appends its cards after the first ones.
5. It reconciles the list to exactly `count` cards. A surplus is cut to a
   prefix. A shortfall is padded with placeholder cards.

Any exception inside the `try` block ends the run with an empty list.

The modules follow these steps:

- `Strings` holds the text primitives the regular expressions use:
  - ECMAScript white space;
  - the case folding of the `i` flag, as far as the ASCII labels need it;
  - leftmost label search and the `(?=Answer:|$)` lookahead;
  - greedy `\s*`;
  - `trim`.
- `Parser` holds both response shapes, field extraction, and the two parsers
  `ParseFirst` (first response) and `ParseRetry` (retry response).
  - Shape A, the split on `/####\s*/`, is the function `SplitOn`.
  - Shape B, the global `exec` loop, is the method `ScanUndelimited`. It is
    proved against the function `UndelimitedChunks`.
- `Reconciliation` holds:
  - the decimal numerals of template literals;
  - the placeholder cards;
  - the reconciled list as a function;
  - `CardList`, a class standing for the mutable JavaScript array;
  - the method `Reconcile`, which keeps the source's aliasing. `finalFlashcards`
    is the same array as `flashcards`, so every placeholder push also
    lengthens `flashcards`. The placeholders after `L` real cards are
    therefore numbered `L+1, L+3, L+5, …`.
- `Generator` holds the whole pipeline as the method `GenerateFlashcards`.
  - The chat model is a function parameter from a request to
    `Option<string>`. `None` stands for a call that throws, or for a null
    message content, which makes the next line throw.
  - A ghost sequence records the requests made.
  - The function `Outcome` states the result in terms of the two responses.
- `RoundTrip` proves that a response written in the format the first prompt
  asks for (server/server.js:30-38) parses back to exactly its cards, in
  order, through Shape A. The cards are joined by `\n####\n`. The retry
  parser reads such a response back from one card up, and the first parser
  from two cards up.
- `ScanRoundTrip` does the same for Shape B. Cards joined by a line break,
  with no `####`, are found by the `exec` loop one match each, in order. So
  the first parser also reads back a single card, and any number of cards
  joined by line breaks.

The round trips hold for well-formed cards (`RoundTrip.WellFormed`). Such a
card meets four conditions:

- the question and the answer are non-empty;
- both are trimmed;
- the question holds no `Answer:` label in any ASCII case;
- neither holds `####`.

Shape B also needs the answer to hold no `Question:` label in any ASCII case
(`ScanRoundTrip.ScanWellFormed`). The lookahead `(?=Question:|$)` ends the
answer at such a label.

Edge cases of field extraction (server/server.js:77-88), as the code
behaves:

- A label with nothing after it fails to match, because the capture needs
  at least one character. The raw card is then dropped.
  `Question: q\nAnswer:` yields no card.
- A label followed only by white space still matches, because `\s*` gives
  back one character to the capture. Trimming then leaves an empty field.
  `Question: q\nAnswer:  ` yields the card `("q", "")`.
- In Shape B, an answer that contains `question:` in any case is cut there,
  and the rest forms a card only if an `Answer:` label with text follows
  it. `Question: Q\nAnswer: A question: B` yields only `("Q", "A")`.

The route handler's guard `!text || numCards <= 0` (server/server.js:179-181)
becomes the precondition `|text| > 0 && count >= 1` of `GenerateFlashcards`.

Two behaviours of the code are easy to miss:

- Placeholder numbers go up by two, not one, because of the alias
  described above. Three cards padded to five get placeholders 4 and 6.
- The retry answer is split on `####` even when it contains none. In that
  case the whole answer is one raw card, so the retry adds at most one
  card.

## Model

| member | source | states |
|---|---|---|
| Strings.Find | server/server.js:78-79 | the result is the leftmost position at or after `from` where the label occurs up to ASCII case, and `None` only when no such position exists |
| Strings.IsSpace | server/server.js:60 | no printable ASCII character is white space for `\s` and `trim`, so a label or `####` never overlaps white space |
| Strings.Lower | server/server.js:78-79 | for matching the lower-case ASCII labels, only the letters `A` to `Z` fold, onto their lower case; every other character is kept, so it matches a label character only if it is that very character; no folded character is an upper-case ASCII letter |
| Strings.LabelOrEnd | server/server.js:78 | the first position at or after `from` where the lookahead for `Answer:` or the end succeeds: a label occurrence or the end, with no occurrence before it |
| Strings.SkipSpaces | server/server.js:60 | a greedy `\s*` starting at `i` stops after a run of white space, at the end or at the first other character |
| Strings.SkipSpacesBack | server/server.js:83-84 | the run of white space that ends at `j` starts right after a non-space character, or at 0 |
| Strings.TrimBounds | server/server.js:83-84 | the trimmed part of `s[lo..hi]` begins and ends with non-space characters; only white space lies outside it; it is empty only if the whole range is white space |
| Strings.TrimmedSlice | server/server.js:83-84 | trimming a range gives a trimmed string no longer than the range |
| Strings.Trim | server/server.js:60 | `trim()` gives a trimmed string no longer than its input |
| Strings.TrimTrimmed | server/server.js:60 | trimming a trimmed string changes nothing |
| Strings.TrimAround | server/server.js:60 | trimming removes white space around a non-empty trimmed core and keeps the core |
| Strings.TrimOfSlice | server/server.js:83-84 | trimming a slice and trimming the same range inside the whole string give the same text |
| Parser.SplitOn | server/server.js:60 | `split(/####\s*/)` gives one piece more than it cuts separators |
| Parser.SplitRejoins | server/server.js:60 | the pieces interleaved with the separators rebuild the input, so the pieces keep source order and lose no text |
| Parser.SplitPiecesHaveNoDelimiter | server/server.js:60 | no piece contains `####` |
| Parser.SplitCutsAtSeparators | server/server.js:60 | each separator is `####` followed only by white space |
| Parser.SplitCutsLeftmost | server/server.js:60 | every cut is at the leftmost `####` after the previous cut: each piece followed by its separator holds no earlier `####` |
| Parser.HasDelimiter | server/server.js:59 | `includes("####")` holds if and only if `####` occurs somewhere in the text |
| Parser.TrimAndDrop | server/server.js:60 | `.map(trim).filter(Boolean)` keeps only non-empty trimmed chunks, never more than the pieces |
| Parser.TrimAndDropSingle | server/server.js:60 | a single piece gives its trimmed text, or nothing when it is all white space |
| Parser.TrimAndDropAppend | server/server.js:60 | trimming and dropping works piece by piece: the chunks of two runs of pieces are those of the first run followed by those of the second, so the order is kept |
| Parser.DelimitedChunks | server/server.js:59-60 | every Shape A chunk is non-empty, trimmed and free of `####`; a text without `####` is one chunk, its trimmed self, or no chunk when it is all white space |
| Parser.QuestionSpan | server/server.js:78 | the question capture exists exactly when the leftmost `Question:` label is followed by at least one character; it starts where the white space after the label ends, and it is the last character when only white space follows the label; it ends at an `Answer:` label or at the end, and holds no `Answer:` label after its first character |
| Parser.AnswerSpan | server/server.js:79 | the answer capture exists exactly when the leftmost `Answer:` label is followed by at least one character; it starts after the white space `\s*` takes (all of it, or all but the last character when only white space is left) and runs to the end |
| Parser.ExtractCard | server/server.js:77-88 | an extracted question and answer carry no leading or trailing white space |
| Parser.ExtractCardSucceedsIff | server/server.js:77-88 | a raw card yields a card if and only if both labels occur with text after them; otherwise it yields nothing and no error |
| Parser.ExtractCardTrimsCaptures | server/server.js:83-84 | the question and the answer are exactly the two regex captures, trimmed |
| Parser.BlankAnswerIsEmpty | server/server.js:79-84 | an `Answer:` label followed only by white space still yields a card, with an empty answer |
| Parser.BlankAnswerExample | server/server.js:77-88 | `Question: q\nAnswer:` followed by two spaces yields the card `("q", "")` |
| Parser.MissingAnswerExample | server/server.js:77-88 | `Question: q\nAnswer:` with nothing after the label yields no card |
| Parser.QuestionCopiesText | server/server.js:78-83 | the question is a contiguous run of the raw card after its question label, so its case is kept |
| Parser.AnswerCopiesText | server/server.js:79-84 | the answer is a contiguous run of the raw card after its answer label, so its case is kept |
| Parser.Present | server/server.js:89 | `.filter(card => card !== null)` keeps at most as many entries as it is given |
| Parser.PresentAppend | server/server.js:89 | filtering a concatenation concatenates the filtered parts, which keeps relative order |
| Parser.PresentOfEach | server/server.js:77-89 | every card kept comes from one of the raw cards and is trimmed; no card is dropped exactly when every raw card has both captures |
| Parser.ExtractAll | server/server.js:77-89 | at most one card per raw card, each extracted from one of them and trimmed; one card for every raw card exactly when every extraction succeeds |
| Parser.ExtractEach | server/server.js:77-88 | the `map` gives one result per raw card |
| Parser.ExtractEachSucceedsIff | server/server.js:77-88 | the result for a raw card is a card exactly when both labels occur in it with text after them |
| Parser.ExtractAllAppend | server/server.js:77-89 | the cards of two runs of raw cards are the cards of the first run followed by those of the second |
| Parser.ExtractAllSingle | server/server.js:77-89 | one raw card contributes its card when extraction succeeds and nothing otherwise |
| Parser.AnswerBoundary | server/server.js:63 | the lazy first group ends at the first position where `\s*Answer:` and one more character follow, and `None` means no such position |
| Parser.Group1 | server/server.js:63 | the first group, when there is one, lies after the end of the label, non-empty and within the text (Group1Spec and FirstGroupExact pin it) |
| Parser.Group2 | server/server.js:63 | the second group lies after the end of the first group, non-empty and within the text (Group2Spec pins it) |
| Parser.Group1Spec | server/server.js:63 | there is no first group exactly when no end after the label is followed by `\s*Answer:` and a character; otherwise the greedy `\s*` takes all the white space and the group ends at the first end after it for which the rest of the pattern matches; only when no such end exists does `\s*` give back its last character, which is then the group |
| Parser.FirstGroupExact | server/server.js:63 | those conditions admit one group only: any group that meets them is the one `Group1` returns |
| Parser.Group2Spec | server/server.js:63 | the second group starts after `Answer:` and the white space `\s*` takes, and ends at the next `Question:` label or at the end of the text, with no `Question:` label inside |
| Parser.MatchAt | server/server.js:63 | a match tried at `i` starts at or after `i`, and its two groups lie in order, non-empty, within the text |
| Parser.MatchAtGroups | server/server.js:63 | there is no match at a `Question:` label exactly when no end after the label is followed by `\s*Answer:` and a character; otherwise the match starts at the label, its first group is the one pinned by Group1Spec, and the second group runs from after `Answer:` and its white space to the next `Question:` label or the end |
| Parser.ExecFrom | server/server.js:63-68 | the match `exec` finds from `lastIndex` starts at or after `lastIndex` and its groups lie in order within the text, so the loop advances |
| Parser.ExecFromLeftmost | server/server.js:63-68 | `exec` returns the match at the leftmost position at or after `lastIndex` where the pattern matches, and nothing exactly when it matches nowhere from there |
| Parser.MatchCard | server/server.js:69 | `match[1].trim()` and `match[2].trim()`: both fields are trimmed and no longer than their groups, and a field is empty exactly when its group is all white space |
| Parser.ScanPairs | server/server.js:63-70 | every pair the scan collects has a trimmed question and answer |
| Parser.Canonicals | server/server.js:69 | there is one rebuilt chunk per pair, in order, each `Question: q\nAnswer: a` of its pair |
| Parser.Canonical | server/server.js:69 | the rebuilt chunk is `Question: `, the question, a line break, `Answer: ` and the answer, with the question and answer copied whole |
| Parser.ScanUndelimited | server/server.js:65-70 | the `exec` loop collects exactly the rebuilt chunks of the successive matches, in order |
| Parser.UndelimitedChunks | server/server.js:62-70 | `rawFlashcards` without `####` holds one raw card per match, in order, each `Question: q\nAnswer: a` of that match's trimmed groups |
| Parser.CanonicalYieldsCard | server/server.js:69-89 | a rebuilt `Question: q\nAnswer: a` chunk always yields a card |
| Parser.CanonicalsYieldCards | server/server.js:69-89 | rebuilt chunks yield one card each |
| Parser.UndelimitedNeverDrops | server/server.js:62-89 | Shape B never loses a pair at field extraction |
| Parser.ParseFirst | server/server.js:57-89 | every card of the first response is trimmed; without `####`, there is exactly one card per Shape B match |
| Parser.ParseRetry | server/server.js:117-131 | every card of the retry response is trimmed; there is at most one card per chunk, and at most one card when the answer has no `####` |
| Reconciliation.DigitChar | server/server.js:153 | a digit value renders as a character between `0` and `9` |
| Reconciliation.Decimal | server/server.js:153 | `${n}` is a non-empty string of digits without a leading zero |
| Reconciliation.DecimalRoundTrip | server/server.js:153 | reading the numeral back gives the number |
| Reconciliation.DecimalInjective | server/server.js:153 | different numbers have different numerals |
| Reconciliation.Placeholder | server/server.js:152-155 | placeholder `n` has the fixed placeholder answer, and its question is the fixed head, a run of digits that reads back as `n`, and the fixed tail |
| Reconciliation.PlaceholderQuestionInjective | server/server.js:153 | placeholders with different numbers have different questions |
| Reconciliation.Placeholders | server/server.js:151-156 | the `i`-th placeholder pushed after `L` cards is numbered `L + 2i + 1` |
| Reconciliation.PlaceholdersDistinct | server/server.js:152-155 | all placeholders share the placeholder answer and have pairwise different questions |
| Reconciliation.Reconciled | server/server.js:139-157 | the reconciled list has exactly `count` cards |
| Reconciliation.ReconciledSurplus | server/server.js:140-142 | a surplus is cut to the first `count` cards in order; a list of the right length comes back unchanged |
| Reconciliation.ReconciledShortfall | server/server.js:146-156 | a shortfall keeps every card in order, then placeholders numbered `L+1, L+3, …` with pairwise different questions |
| Reconciliation.ReconciledKeeps | server/server.js:139-157 | every card within the first `count` keeps its place |
| Reconciliation.PadExample | server/server.js:146-156 | three cards for five wanted are followed by placeholders 4 and 6 |
| Reconciliation.ReconciledIdempotent | server/server.js:139-157 | reconciling a reconciled list changes nothing |
| Reconciliation.CardList.constructor | server/server.js:77 | a new array holds the given cards |
| Reconciliation.CardList.Push | server/server.js:152 | `push` appends one card and changes nothing else |
| Reconciliation.CardList.PushAll | server/server.js:135 | `push(...cards)` appends the cards in order |
| Reconciliation.CardList.Prefix | server/server.js:142 | `slice(0, n)` is a new array with the first `n` cards |
| Reconciliation.Reconcile | server/server.js:139-157 | the array returned holds the reconciled list; when padding, it is the very array passed in; when cutting, it is a new array and the original is untouched |
| Reconciliation.PadPlaceholders | server/server.js:146-156 | the padding loop, reading the length of the very array it pushes onto, appends exactly the placeholders numbered `L+1, L+3, …` |
| Generator.GenerateFlashcards | server/server.js:21-169 | the result is `Outcome` of the two responses; the first request is always made; the retry is made if and only if the first answer arrived and parsed to fewer than `count` cards; at most two requests |
| Generator.Outcome | server/server.js:21-169 | the result is either empty or exactly `count` cards, and it is empty when the first request fails |
| Generator.WithRetry | server/server.js:133-136 | the retry cards are appended after the first ones, each list kept whole and in its order, at most one per retry chunk |
| Generator.Fails | server/server.js:163-167 | for `count >= 1`, a run ends in the `catch` block exactly when the result is the empty list |
| Generator.OutcomeLength | server/server.js:139-167 | a run that does not end in the `catch` block returns exactly `count` cards; one that does returns none |
| Generator.OutcomeOrder | server/server.js:95-156 | first-response cards come first in order, and retry cards follow them in order, without deduplication, as far as `count` allows |
| Generator.OutcomeExact | server/server.js:95-162 | exactly `count` parsed cards are returned unchanged |
| Generator.OutcomeIgnoresRetry | server/server.js:95 | when the first pass is not short, the retry answer has no influence |
| RoundTrip.LaidAnswerLabel | server/server.js:32-33 | the only `Answer:` label before the answer is the one the format writes |
| RoundTrip.LaidQuestion | server/server.js:78-83 | the question capture of a card in the format, once trimmed, is the question |
| RoundTrip.LaidAnswer | server/server.js:79-84 | the answer capture of a card in the format, once trimmed, is the answer |
| RoundTrip.LaidAnswerText | server/server.js:79-84 | the answer capture of a card in the format runs from the first character of the answer to the end, and both ends are non-space |
| RoundTrip.CanonicalRoundTrip | server/server.js:77-88 | a card written in the format is extracted back as the same card |
| RoundTrip.LaidNoDelimiter | server/server.js:32-33 | the format adds no `####` of its own |
| RoundTrip.SplitStep | server/server.js:60 | a card, the separator line and the rest split into the card with its line break, then the pieces of the rest |
| RoundTrip.ChunksStep | server/server.js:60 | after trimming, the first chunk is the card text and the rest is chunked on its own |
| RoundTrip.RenderChunks | server/server.js:59-60 | a response in the format splits into one raw card per card, in order |
| RoundTrip.CanonicalsExtract | server/server.js:77-89 | the raw cards in the format extract to exactly their cards, in order |
| RoundTrip.RetryRoundTrip | server/server.js:117-131 | the retry parser reads a response in the format back as its cards |
| ScanRoundTrip.PlacedMatch | server/server.js:63 | a card in the format written at `k` matches at `k`: the first group is exactly the question, and the second runs from the first character of the answer, past any white space after the card, up to the next `Question:` label or the end of the text |
| ScanRoundTrip.PlacedScan | server/server.js:63-70 | a card in the format written at `k`, followed by white space and then the end of the text, or by at least one white-space character and then another `Question:` label, is the next pair the loop collects, and the scan resumes after it |
| ScanRoundTrip.LinesNoDelimiter | server/server.js:59 | cards joined by line breaks hold no `####`, so the first parser takes Shape B |
| ScanRoundTrip.LinesScan | server/server.js:63-70 | cards joined by line breaks are scanned back as exactly those cards, in order |
| ScanRoundTrip.ParseFirstOfScan | server/server.js:57-89 | without `####`, when the scanned pairs are well formed, the first parser returns exactly those pairs |
| ScanRoundTrip.LinesRoundTrip | server/server.js:57-89 | the first parser reads cards joined by line breaks back as exactly those cards, in order |
| ScanRoundTrip.OneCardRoundTrip | server/server.js:57-89 | the first parser reads a single card in the format back as that card |
| ScanRoundTrip.AnswerCutExample | server/server.js:63-70 | `Question: Q\nAnswer: A question: B` parses to the single card `("Q", "A")`: the lookahead cuts the answer at `question:` and the rest is no card |
| ScanRoundTrip.FirstRoundTrip | server/server.js:57-89 | the first parser reads a response in the format back as exactly its cards, in order, from one card up |
| ScanRoundTrip.TwoCardExample | server/server.js:57-89 | `Question: Q1\nAnswer: A1\n####\nQuestion: Q2\nAnswer: A2` parses to `(Q1, A1), (Q2, A2)` in that order |

## Left out

- HTTP plumbing is not modelled (server/server.js:1-13, 172-189): Express, CORS, body parsing, routing and `listen`. Only the input guard is kept, as a precondition.
- The OpenAI client and its parameters are not modelled (server/server.js:15-18, 24-50, 98-114): model name, temperature and token limit. The chat model is a function from the request to an optional response. The model therefore treats the chat model as deterministic: the same request always gets the same response.
- The prompt wording (server/server.js:30-46, 104-110) is free text. A request records only which prompt it uses, the text and the count.
- Console logging is not modelled. It is output only.
- client/src/App.js and client/src/Flashcard.js are not part of this model. They are presentation code.
- Generator.GenerateFlashcards: `count` is a natural number. Non-integer or non-numeric `numCards` values that pass the guard are not modelled.
- Reconciliation.Decimal: numbers are rendered in plain decimal, which is what JavaScript does below 10^21.
- ScanRoundTrip.FirstRoundTrip: a single card whose answer holds a `Question:` label is excluded, because the scan cuts such an answer there (ScanRoundTrip.AnswerCutExample shows it). From two cards up, the response has `####` and Shape A applies, so no such condition is needed.
- Strings.IsSpace: stands for ECMAScript white space and line terminators. Unicode-aware matching (the `u` flag) does not arise, since the source does not use it.
- Throwing is modelled only through the chat-model responses. `JSON.stringify` and other code that cannot fail on these inputs is left out.
