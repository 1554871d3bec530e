/** The response parser of `generateFlashcards` (server/server.js): the two
    ways the model's text is cut into raw card strings (split on `####`, or
    a scan for `Question: … Answer: …` pairs), and the extraction of a
    question and an answer from each raw card. */
module Parser {
  import opened Wrappers
  import opened Strings

  /** A flashcard as the server returns it. */
  datatype Card = Card(question: string, answer: string)

  // ---------------------------------------------------------------------
  // Shape A: `content.split(SEP).map(card => card.trim()).filter(Boolean)`,
  // where SEP is the regular expression `####\s*`

  /** The text contains the separator: `content.includes("####")`. */
  function HasDelimiter(s: string): (b: bool)
    ensures b <==> exists i :: LabelAt(s, i, DELIMITER)
  {
    Find(s, 0, DELIMITER).Some?
  }

  /** What SEP matches: the separator and the white space after it. */
  ghost predicate IsSeparator(sep: string) {
    LabelAt(sep, 0, DELIMITER) && forall k :: |DELIMITER| <= k < |sep| ==> IsSpace(sep[k])
  }

  /** The pieces `split` returns, with the separators it cut out between
      them. */
  datatype Split = Split(pieces: seq<string>, separators: seq<string>)

  /** `split(SEP)`: cut at the leftmost separator, whose white space is
      matched greedily, and go on with the text after it. */
  function SplitOn(s: string): (r: Split)
    decreases |s|
    ensures |r.pieces| == |r.separators| + 1
  {
    match Find(s, 0, DELIMITER)
    case None => Split([s], [])
    case Some(i) =>
      var e := SkipSpaces(s, i + |DELIMITER|);
      var rest := SplitOn(s[e..]);
      Split([s[..i]] + rest.pieces, [s[i..e]] + rest.separators)
  }

  /** The pieces and separators, put back in order. */
  function Interleave(pieces: seq<string>, separators: seq<string>): string
    requires |pieces| == |separators| + 1
  {
    if separators == [] then pieces[0]
    else pieces[0] + separators[0] + Interleave(pieces[1..], separators[1..])
  }

  lemma InterleaveCons(a: string, b: string, pieces: seq<string>, separators: seq<string>)
    requires |pieces| == |separators| + 1
    ensures Interleave([a] + pieces, [b] + separators) == a + b + Interleave(pieces, separators)
  {
    assert ([a] + pieces)[1..] == pieces;
    assert ([b] + separators)[1..] == separators;
  }

  /** Splitting loses nothing and reorders nothing: the pieces and the
      separators between them make up the text again. */
  lemma {:induction false} SplitRejoins(s: string)
    decreases |s|
    ensures Interleave(SplitOn(s).pieces, SplitOn(s).separators) == s
  {
    match Find(s, 0, DELIMITER)
    case None =>
    case Some(i) =>
      var e := SkipSpaces(s, i + |DELIMITER|);
      SplitRejoins(s[e..]);
      var rest := SplitOn(s[e..]);
      InterleaveCons(s[..i], s[i..e], rest.pieces, rest.separators);
      assert s == s[..i] + s[i..e] + s[e..];
  }

  /** No piece contains `####`. */
  lemma {:induction false} SplitPiecesHaveNoDelimiter(s: string)
    decreases |s|
    ensures forall k :: 0 <= k < |SplitOn(s).pieces| ==> NoLabel(SplitOn(s).pieces[k], DELIMITER)
  {
    match Find(s, 0, DELIMITER)
    case None =>
      NoLabelSlice(s, 0, |s|, DELIMITER);
      assert s[0..|s|] == s;
    case Some(i) =>
      var e := SkipSpaces(s, i + |DELIMITER|);
      SplitPiecesHaveNoDelimiter(s[e..]);
      NoLabelSlice(s, 0, i, DELIMITER);
      assert s[0..i] == s[..i];
      assert SplitOn(s).pieces == [s[..i]] + SplitOn(s[e..]).pieces;
  }

  /** Every cut is at a separator: `####` followed by white space only. */
  lemma {:induction false} SplitCutsAtSeparators(s: string)
    decreases |s|
    ensures forall k :: 0 <= k < |SplitOn(s).separators| ==> IsSeparator(SplitOn(s).separators[k])
  {
    match Find(s, 0, DELIMITER)
    case None =>
    case Some(i) =>
      var e := SkipSpaces(s, i + |DELIMITER|);
      SplitCutsAtSeparators(s[e..]);
      var sep := s[i..e];
      LabelInSliceStart(s, i, e, DELIMITER);
      assert IsSeparator(sep) by {
        forall k | |DELIMITER| <= k < |sep| ensures IsSpace(sep[k]) {
          assert sep[k] == s[i + k];
        }
      }
      assert SplitOn(s).separators == [sep] + SplitOn(s[e..]).separators;
  }

  /** The `####` a separator starts with is the first one after the piece
      before it. */
  predicate LeftmostCut(piece: string, sep: string) {
    Find(piece + sep, 0, DELIMITER) == Some(|piece|)
  }

  /** Every cut is at the leftmost `####` after the previous cut: a piece
      followed by its separator holds no earlier `####`. */
  lemma {:induction false} SplitCutsLeftmost(s: string)
    decreases |s|
    ensures forall k :: 0 <= k < |SplitOn(s).separators| ==> LeftmostCut(SplitOn(s).pieces[k], SplitOn(s).separators[k])
  {
    match Find(s, 0, DELIMITER)
    case None =>
    case Some(i) =>
      var e := SkipSpaces(s, i + |DELIMITER|);
      SplitCutsLeftmost(s[e..]);
      var r, rest := SplitOn(s), SplitOn(s[e..]);
      assert r.pieces == [s[..i]] + rest.pieces;
      assert r.separators == [s[i..e]] + rest.separators;
      assert s[..i] + s[i..e] == s[..e];
      FindInPrefix(s, e, i, DELIMITER);
      forall k | 0 <= k < |r.separators| ensures LeftmostCut(r.pieces[k], r.separators[k]) {
        if 0 < k {
          assert r.pieces[k] == rest.pieces[k - 1] && r.separators[k] == rest.separators[k - 1];
        }
      }
  }

  /** `.map(card => card.trim()).filter(Boolean)`: trim every piece and drop
      the ones that are then empty, keeping the order. */
  function TrimAndDrop(pieces: seq<string>): (chunks: seq<string>)
    ensures |chunks| <= |pieces|
    ensures forall k :: 0 <= k < |chunks| ==> chunks[k] != [] && IsTrimmed(chunks[k])
  {
    if pieces == [] then []
    else
      var t := Trim(pieces[0]);
      (if t == [] then [] else [t]) + TrimAndDrop(pieces[1..])
  }

  /** A single piece is kept trimmed, or dropped when trimming empties it. */
  lemma TrimAndDropSingle(p: string)
    ensures TrimAndDrop([p]) == (if Trim(p) == [] then [] else [Trim(p)])
  {
    assert [p][1..] == [];
  }

  /** Trimming and dropping works piece by piece and keeps the order: the
      chunks of two runs of pieces are those of the first followed by those
      of the second. */
  lemma {:induction false} TrimAndDropAppend(xs: seq<string>, ys: seq<string>)
    ensures TrimAndDrop(xs + ys) == TrimAndDrop(xs) + TrimAndDrop(ys)
  {
    if xs == [] {
      assert xs + ys == ys;
    } else {
      var h := TrimAndDropCons(xs, ys);
      TrimAndDropAppend(xs[1..], ys);
      Reassociate(h, TrimAndDrop(xs[1..]), TrimAndDrop(ys));
    }
  }

  /** The first piece contributes the same head to a longer run. */
  lemma TrimAndDropCons(xs: seq<string>, ys: seq<string>) returns (h: seq<string>)
    requires xs != []
    ensures TrimAndDrop(xs) == h + TrimAndDrop(xs[1..])
    ensures TrimAndDrop(xs + ys) == h + TrimAndDrop(xs[1..] + ys)
  {
    var t := Trim(xs[0]);
    h := if t == [] then [] else [t];
    assert (xs + ys)[0] == xs[0] && (xs + ys)[1..] == xs[1..] + ys;
  }

  /** Regrouping a concatenation; only a step, kept apart so that its
      callers stay small. */
  lemma Reassociate(h: seq<string>, a: seq<string>, b: seq<string>)
    ensures h + (a + b) == (h + a) + b
  {
  }

  /** The raw cards of a response that contains the separator, and of every
      retry response (server/server.js:117 splits without looking): each is
      non-empty, starts and ends with a character that is not white space
      and holds no `####`; a text without the separator is one raw card, or
      none when it is all white space. */
  function DelimitedChunks(s: string): (chunks: seq<string>)
    ensures forall k :: 0 <= k < |chunks| ==>
      chunks[k] != [] && IsTrimmed(chunks[k]) && NoLabel(chunks[k], DELIMITER)
    ensures !HasDelimiter(s) ==> chunks == (if Trim(s) == [] then [] else [Trim(s)])
  {
    SplitPiecesHaveNoDelimiter(s);
    TrimAndDropNoLabel(SplitOn(s).pieces, DELIMITER);
    TrimAndDropSingle(s);
    TrimAndDrop(SplitOn(s).pieces)
  }

  /** Trimming a string without the separator cannot create one. */
  lemma TrimKeepsNoLabel(x: string, pat: string)
    requires NoLabel(x, pat)
    ensures NoLabel(Trim(x), pat)
  {
    var b := TrimBounds(x, 0, |x|);
    assert Trim(x) == x[b.0..b.1];
    NoLabelSlice(x, b.0, b.1, pat);
  }

  lemma {:induction false} TrimAndDropNoLabel(pieces: seq<string>, pat: string)
    requires forall k :: 0 <= k < |pieces| ==> NoLabel(pieces[k], pat)
    ensures forall k :: 0 <= k < |TrimAndDrop(pieces)| ==> NoLabel(TrimAndDrop(pieces)[k], pat)
  {
    if pieces != [] {
      TrimKeepsNoLabel(pieces[0], pat);
      TrimAndDropNoLabel(pieces[1..], pat);
    }
  }

  // ---------------------------------------------------------------------
  // Field extraction (server/server.js:77-89 and 119-131)

  /** Where the capture group of `card.match(/Question:\s*([\s\S]+?)(?=Answer:|$)/i)`
      lies. The leftmost label is the match unless it ends the text, and
      then no later label exists. The greedy `\s*` stops at the first
      character that is not white space, and the lazy group runs from
      there, one character at least, to the next `Answer:` or the end;
      when only white space follows the label, `\s*` gives back its last
      character to the group. */
  function QuestionSpan(c: string): (r: Option<(nat, nat)>)
    ensures r.Some? <==> Find(c, 0, QUESTION).Some? && Find(c, 0, QUESTION).value + |QUESTION| < |c|
    ensures r.Some? ==> var p := Find(c, 0, QUESTION).value + |QUESTION|;
      && p <= r.value.0 < r.value.1 <= |c|
      && (forall k {:trigger IsSpace(c[k])} :: p <= k < r.value.0 ==> IsSpace(c[k]))
      && (r.value.0 == SkipSpaces(c, p) || (SkipSpaces(c, p) == |c| && r.value == (|c| - 1, |c|)))
      && (r.value.1 == |c| || LabelAt(c, r.value.1, ANSWER))
      && (forall k :: r.value.0 < k < r.value.1 ==> !LabelAt(c, k, ANSWER))
  {
    match Find(c, 0, QUESTION)
    case None => None
    case Some(i) =>
      if i + |QUESTION| == |c| then None
      else
        var q := SkipSpaces(c, i + |QUESTION|);
        if q < |c| then Some((q, LabelOrEnd(c, q + 1, ANSWER))) else Some((|c| - 1, |c|))
  }

  /** Where the capture group of `card.match(/Answer:\s*([\s\S]+)/i)` lies:
      everything after the leftmost label and the white space that follows
      it, or the last white-space character when nothing else follows. */
  function AnswerSpan(c: string): (r: Option<(nat, nat)>)
    ensures r.Some? <==> Find(c, 0, ANSWER).Some? && Find(c, 0, ANSWER).value + |ANSWER| < |c|
    ensures r.Some? ==> var p := Find(c, 0, ANSWER).value + |ANSWER|;
      && p <= r.value.0 < r.value.1 == |c|
      && (forall k {:trigger IsSpace(c[k])} :: p <= k < r.value.0 ==> IsSpace(c[k]))
      && (r.value.0 == SkipSpaces(c, p) || (SkipSpaces(c, p) == |c| && r.value.0 == |c| - 1))
  {
    match Find(c, 0, ANSWER)
    case None => None
    case Some(j) =>
      if j + |ANSWER| == |c| then None
      else
        var q := SkipSpaces(c, j + |ANSWER|);
        if q < |c| then Some((q, |c|)) else Some((|c| - 1, |c|))
  }

  /** One raw card to a flashcard, or nothing when either match fails; both
      captures are trimmed, which keeps the part of the card between the
      first and the last character of the capture that is not white space. */
  function ExtractCard(c: string): (r: Option<Card>)
    ensures r.Some? ==> IsTrimmed(r.value.question) && IsTrimmed(r.value.answer)
  {
    var qs, ans := QuestionSpan(c), AnswerSpan(c);
    if qs.Some? && ans.Some? then
      Some(Card(TrimmedSlice(c, qs.value.0, qs.value.1), TrimmedSlice(c, ans.value.0, ans.value.1)))
    else None
  }

  /** The leftmost occurrence of a label has a character after it exactly
      when some occurrence has. */
  lemma FirstLabelBeforeEnd(c: string, pat: string)
    ensures LabelBeforeEnd(c, pat) <==> (Find(c, 0, pat).Some? && Find(c, 0, pat).value + |pat| < |c|)
  {
    if LabelBeforeEnd(c, pat) {
      var j :| LabelAt(c, j, pat) && j + |pat| < |c|;
      assert Find(c, 0, pat).Some? && Find(c, 0, pat).value <= j;
    }
  }

  /** A raw card gives a flashcard exactly when it holds a `Question:` and an
      `Answer:` label, in any letter case, each with a character after it;
      every other raw card is dropped without an error. */
  lemma ExtractCardSucceedsIff(c: string)
    ensures ExtractCard(c).Some? <==> LabelBeforeEnd(c, QUESTION) && LabelBeforeEnd(c, ANSWER)
  {
    FirstLabelBeforeEnd(c, QUESTION);
    FirstLabelBeforeEnd(c, ANSWER);
  }

  /** The fields are the two captures with `trim` applied: the question is
      `match[1].trim()` of the question pattern and the answer that of the
      answer pattern. */
  lemma ExtractCardTrimsCaptures(c: string)
    requires ExtractCard(c).Some?
    ensures QuestionSpan(c).Some? && AnswerSpan(c).Some?
    ensures ExtractCard(c).value.question == Trim(c[QuestionSpan(c).value.0..QuestionSpan(c).value.1])
    ensures ExtractCard(c).value.answer == Trim(c[AnswerSpan(c).value.0..AnswerSpan(c).value.1])
  {
    TrimOfSlice(c, QuestionSpan(c).value.0, QuestionSpan(c).value.1);
    TrimOfSlice(c, AnswerSpan(c).value.0, AnswerSpan(c).value.1);
  }

  /** When only white space follows the leftmost `Answer:` label, the lazy
      `\s*` gives its last character back to the capture group, and trimming
      leaves an empty answer: the card is kept with `""` as its answer. */
  lemma BlankAnswerIsEmpty(c: string)
    requires ExtractCard(c).Some?
    requires SkipSpaces(c, Find(c, 0, ANSWER).value + |ANSWER|) == |c|
    ensures ExtractCard(c).value.answer == []
  {
    assert AnswerSpan(c).value == (|c| - 1, |c|);
    assert SkipSpaces(c, |c| - 1) == |c|;
  }

  /** A label followed by white space only yields an empty field. */
  lemma BlankAnswerExample(c: string)
    requires c == "Question: q\nAnswer:  "
    ensures ExtractCard(c) == Some(Card("q", ""))
  {
    BlankExampleSpans(c);
    BlankExampleFields(c);
  }

  /** The trimmed captures of that example. */
  lemma BlankExampleFields(c: string)
    requires c == "Question: q\nAnswer:  "
    ensures TrimmedSlice(c, 10, 12) == "q" && TrimmedSlice(c, 20, 21) == ""
  {
    var x, y := "Question: q\n", "Answer:  ";
    assert c == x + y;
    assert c[10] == x[10] == 'q' && c[11] == x[11] == '\n' && c[20] == y[8] == ' ';
    TrimmedOne(c, 10);
    TrimmedBlank(c, 20);
  }

  /** One character that is not white space, then white space. */
  lemma TrimmedOne(c: string, i: nat)
    requires i + 2 <= |c| && !IsSpace(c[i]) && IsSpace(c[i + 1])
    ensures TrimmedSlice(c, i, i + 2) == [c[i]]
  {
    assert SkipSpacesBack(c, i + 2) == i + 1;
  }

  /** One white-space character at the end. */
  lemma TrimmedBlank(c: string, i: nat)
    requires i + 1 == |c| && IsSpace(c[i])
    ensures TrimmedSlice(c, i, i + 1) == []
  {
    assert SkipSpaces(c, i) == i + 1;
  }

  /** Where the two captures of that example lie. */
  lemma BlankExampleSpans(c: string)
    requires c == "Question: q\nAnswer:  "
    ensures QuestionSpan(c) == Some((10, 12)) && AnswerSpan(c) == Some((20, 21))
  {
    NoAnswerBefore12(c);
    assert LabelAt(c, 12, ANSWER);
    BlankExampleQuestion(c);
    assert Find(c, 0, ANSWER) == Some(12);
    assert SkipSpaces(c, 19) == 21;
  }

  /** Where the question capture of that example lies. */
  lemma BlankExampleQuestion(c: string)
    requires |c| == 21 && c[..12] == "Question: q\n" && LabelAt(c, 12, ANSWER)
    requires forall i :: 0 <= i < 12 ==> !LabelAt(c, i, ANSWER)
    ensures QuestionSpan(c) == Some((10, 12))
  {
    assert c[9] == c[..12][9] && c[10] == c[..12][10];
    assert LabelAt(c, 0, QUESTION) by {
      forall k | 0 <= k < |QUESTION| ensures Lower(c[k]) == QUESTION[k] {
        assert c[k] == c[..12][k];
      }
    }
    assert Find(c, 0, QUESTION) == Some(0);
    assert SkipSpaces(c, 9) == 10;
    assert LabelOrEnd(c, 11, ANSWER) == 12;
  }

  /** The first twelve characters of the two examples hold no `Answer:`. */
  lemma NoAnswerBefore12(c: string)
    requires |c| >= 12 && c[..12] == "Question: q\n"
    ensures forall i :: 0 <= i < 12 ==> !LabelAt(c, i, ANSWER)
  {
    forall i | 0 <= i < 12 ensures !LabelAt(c, i, ANSWER) {
      assert c[i] == c[..12][i];
      assert Lower(c[i]) != ANSWER[0];
    }
  }

  /** A label with nothing after it fails the match, and the card is
      dropped. */
  lemma MissingAnswerExample(c: string)
    requires c == "Question: q\nAnswer:"
    ensures ExtractCard(c) == None
  {
    NoAnswerBefore12(c);
    assert LabelAt(c, 12, ANSWER);
    assert Find(c, 0, ANSWER) == Some(12);
  }

  /** The question is copied from the raw card, character for character, so
      its letter case is kept: it is a slice of the raw card within the
      capture, which begins after the leftmost `Question:` label. */
  lemma QuestionCopiesText(c: string)
    requires ExtractCard(c).Some?
    ensures QuestionSpan(c).Some?
    ensures exists a, b :: (Find(c, 0, QUESTION).value + |QUESTION| <= a <= b <= |c|
      && ExtractCard(c).value.question == c[a..b])
  {
    var q := TrimBounds(c, QuestionSpan(c).value.0, QuestionSpan(c).value.1);
    assert ExtractCard(c).value.question == c[q.0..q.1];
  }

  /** The answer is copied in the same way: a slice of the raw card after
      the leftmost `Answer:` label. */
  lemma AnswerCopiesText(c: string)
    requires ExtractCard(c).Some?
    ensures AnswerSpan(c).Some?
    ensures exists a, b :: (Find(c, 0, ANSWER).value + |ANSWER| <= a <= b <= |c|
      && ExtractCard(c).value.answer == c[a..b])
  {
    var a := TrimBounds(c, AnswerSpan(c).value.0, AnswerSpan(c).value.1);
    assert ExtractCard(c).value.answer == c[a.0..a.1];
  }

  /** `rawFlashcards.map(extract)`. */
  function ExtractEach(chunks: seq<string>): (r: seq<Option<Card>>)
    ensures |r| == |chunks|
  {
    seq(|chunks|, i requires 0 <= i < |chunks| => ExtractCard(chunks[i]))
  }

  /** Each raw card yields a result, and it is a card exactly when both
      labels occur in it with text after them. */
  lemma ExtractEachSucceedsIff(chunks: seq<string>)
    ensures forall i :: 0 <= i < |chunks| ==>
      (ExtractEach(chunks)[i].Some? <==> LabelBeforeEnd(chunks[i], QUESTION) && LabelBeforeEnd(chunks[i], ANSWER))
  {
    forall i | 0 <= i < |chunks| {
      ExtractCardSucceedsIff(chunks[i]);
    }
  }

  /** A found card as a list of one, nothing as the empty list. */
  function Kept(result: Option<Card>): seq<Card> {
    if result.Some? then [result.value] else []
  }

  /** `.filter(card => card !== null)`: the cards that were found, in order. */
  function Present(results: seq<Option<Card>>): (cards: seq<Card>)
    ensures |cards| <= |results|
    ensures |cards| == |results| <==> forall i :: 0 <= i < |results| ==> results[i].Some?
    ensures forall k :: 0 <= k < |cards| ==> Some(cards[k]) in results
  {
    if results == [] then [] else Kept(results[0]) + Present(results[1..])
  }

  /** Filtering works element by element. */
  lemma {:induction false} PresentAppend(xs: seq<Option<Card>>, ys: seq<Option<Card>>)
    ensures Present(xs + ys) == Present(xs) + Present(ys)
  {
    if xs == [] {
      assert xs + ys == ys;
    } else {
      var zs := xs + ys;
      assert zs[0] == xs[0];
      assert zs[1..] == xs[1..] + ys;
      assert Present(zs) == Kept(xs[0]) + Present(xs[1..] + ys);
      PresentAppend(xs[1..], ys);
    }
  }

  /** Every card the filter keeps comes from the raw card at the same place
      in the list of results. */
  lemma PresentOfEach(chunks: seq<string>)
    ensures var cards := Present(ExtractEach(chunks));
      forall k :: 0 <= k < |cards| ==>
        exists i :: 0 <= i < |chunks| && ExtractCard(chunks[i]) == Some(cards[k])
    ensures var cards := Present(ExtractEach(chunks));
      forall k :: 0 <= k < |cards| ==> IsTrimmed(cards[k].question) && IsTrimmed(cards[k].answer)
    ensures |Present(ExtractEach(chunks))| == |chunks| <==>
      forall i :: 0 <= i < |chunks| ==> ExtractCard(chunks[i]).Some?
  {
    var rs := ExtractEach(chunks);
    var cards := Present(rs);
    assert forall i :: 0 <= i < |chunks| ==> rs[i] == ExtractCard(chunks[i]);
    forall k | 0 <= k < |cards|
      ensures exists i :: 0 <= i < |chunks| && ExtractCard(chunks[i]) == Some(cards[k])
      ensures IsTrimmed(cards[k].question) && IsTrimmed(cards[k].answer)
    {
      assert Some(cards[k]) in rs;
      var i :| 0 <= i < |rs| && rs[i] == Some(cards[k]);
      assert ExtractCard(chunks[i]) == Some(cards[k]);
    }
  }

  /** The flashcards of a list of raw cards: each is what extraction gives
      for one of them, so both its fields are trimmed, and no raw card is
      dropped exactly when extraction succeeds on every one. */
  function ExtractAll(chunks: seq<string>): (cards: seq<Card>)
    ensures |cards| <= |chunks|
    ensures |cards| == |chunks| <==> forall i :: 0 <= i < |chunks| ==> ExtractCard(chunks[i]).Some?
    ensures forall k :: 0 <= k < |cards| ==>
      exists i :: 0 <= i < |chunks| && ExtractCard(chunks[i]) == Some(cards[k])
    ensures forall k :: 0 <= k < |cards| ==> IsTrimmed(cards[k].question) && IsTrimmed(cards[k].answer)
  {
    PresentOfEach(chunks);
    Present(ExtractEach(chunks))
  }

  /** Extraction works raw card by raw card: the cards of two runs of raw
      cards are the cards of the first followed by those of the second. */
  lemma ExtractAllAppend(xs: seq<string>, ys: seq<string>)
    ensures ExtractAll(xs + ys) == ExtractAll(xs) + ExtractAll(ys)
  {
    ExtractEachAppend(xs, ys);
    PresentAppend(ExtractEach(xs), ExtractEach(ys));
  }

  lemma ExtractEachAppend(xs: seq<string>, ys: seq<string>)
    ensures ExtractEach(xs + ys) == ExtractEach(xs) + ExtractEach(ys)
  {
    var zs := xs + ys;
    var a, b, c := ExtractEach(xs), ExtractEach(ys), ExtractEach(zs);
    forall i | 0 <= i < |zs| ensures c[i] == (a + b)[i] {
      if i < |xs| {
        assert zs[i] == xs[i];
      } else {
        assert zs[i] == ys[i - |xs|];
      }
    }
  }

  /** A raw card yields one flashcard when extraction succeeds, and
      contributes nothing otherwise. */
  lemma ExtractAllSingle(c: string)
    ensures ExtractAll([c]) == Kept(ExtractCard(c))
  {
    assert ExtractEach([c]) == [ExtractCard(c)];
    assert [ExtractCard(c)][1..] == [];
  }

  // ---------------------------------------------------------------------
  // Shape B: `/Question:\s*([\s\S]+?)\s*Answer:\s*([\s\S]+?)(?=Question:|$)/gi`

  /** Whether, with the lazy first group ending at `e`, the rest of the
      pattern matches. The `\s*` before `Answer:` can only stop where the
      white space ends, since the label starts with a letter; after the
      label the lazy second group needs one character, and its lookahead
      always succeeds at the end of the text. */
  predicate AnswerFollows(s: string, e: nat)
    requires e <= |s|
  {
    var w := SkipSpaces(s, e);
    LabelAt(s, w, ANSWER) && w + |ANSWER| < |s|
  }

  /** The first end `e >= from` of the lazy first group for which the rest
      of the pattern matches. */
  function AnswerBoundary(s: string, from: nat): (r: Option<nat>)
    requires from <= |s|
    decreases |s| - from
    ensures r.Some? ==> from <= r.value <= |s| && AnswerFollows(s, r.value)
    ensures r.Some? ==> forall k :: from <= k < r.value ==> !AnswerFollows(s, k)
    ensures r.None? ==> forall k :: from <= k <= |s| ==> !AnswerFollows(s, k)
  {
    if AnswerFollows(s, from) then Some(from)
    else if from == |s| then None
    else AnswerBoundary(s, from + 1)
  }

  /** One match of the global pattern: where it starts and where its two
      capture groups lie, untrimmed. The second group ends where the match
      does, which is the next `lastIndex`. */
  datatype Match = Match(start: nat, group1: (nat, nat), group2: (nat, nat))

  /** `s[g..e]` is the first capture group of a match whose `Question:`
      label ends at `p`: the greedy `\s*` takes all the white space after
      the label, and the lazy group ends at the first end for which the rest
      of the pattern matches; only when no such end lies after the white
      space does `\s*` give back its last character, which is then the
      whole group. */
  ghost predicate FirstGroup(s: string, p: nat, g: nat, e: nat) {
    && p <= g < e <= |s|
    && (forall k {:trigger IsSpace(s[k])} :: p <= k < g ==> IsSpace(s[k]))
    && (|| g == SkipSpaces(s, p)
        || (&& g + 1 == e == SkipSpaces(s, p)
            && forall e' :: SkipSpaces(s, p) < e' <= |s| ==> !AnswerFollows(s, e')))
    && AnswerFollows(s, e)
    && (forall k :: g < k < e ==> !AnswerFollows(s, k))
  }

  /** `([\s\S]+?)\s*Answer:` after a label that ends at `p`, by the
      backtracking order of the regular-expression engine: the greedy `\s*`
      first takes all the white space and the lazy group grows until the
      rest matches; failing that, `\s*` gives back one character, which
      helps only if `Answer:` starts right after the white space. Giving
      back more cannot help, since the rest then sees the same label. */
  function Group1(s: string, p: nat): (r: Option<(nat, nat)>)
    requires p <= |s|
    ensures r.Some? ==> p <= r.value.0 < r.value.1 <= |s|
  {
    var q := SkipSpaces(s, p);
    if q < |s| && AnswerBoundary(s, q + 1).Some? then Some((q, AnswerBoundary(s, q + 1).value))
    else if p < q && AnswerFollows(s, q) then Some((q - 1, q))
    else None
  }

  /** The first group exists exactly when some end of a non-empty group has
      `\s*Answer:` and one more character after it, and it is then the
      group the engine picks. */
  lemma Group1Spec(s: string, p: nat)
    requires p <= |s|
    ensures Group1(s, p).None? <==> forall e :: p < e <= |s| ==> !AnswerFollows(s, e)
    ensures Group1(s, p).Some? ==> FirstGroup(s, p, Group1(s, p).value.0, Group1(s, p).value.1)
  {
    SkipSpacesRun(s, p);
  }

  /** `FirstGroup` admits one group only, so `Group1` is the only group
      the engine can pick. */
  lemma FirstGroupExact(s: string, p: nat, g: nat, e: nat)
    requires p <= |s| && FirstGroup(s, p, g, e)
    ensures Group1(s, p) == Some((g, e))
  {
    Group1Spec(s, p);
  }

  /** `s[h..f]` is the second capture group of a match whose first group
      ends at `e`: it starts after `\s*Answer:\s*` (or is the last
      white-space character when nothing else follows the label), and the
      lazy group ends at the next `Question:` label or at the end. */
  ghost predicate SecondGroup(s: string, e: nat, h: nat, f: nat) {
    && e <= |s|
    && var a := SkipSpaces(s, e) + |ANSWER|;
    && a <= h < f <= |s|
    && (forall k {:trigger IsSpace(s[k])} :: a <= k < h ==> IsSpace(s[k]))
    && (h == SkipSpaces(s, a) || (SkipSpaces(s, a) == |s| && h == |s| - 1))
    && (f == |s| || LabelAt(s, f, QUESTION))
    && (forall k :: h < k < f ==> !LabelAt(s, k, QUESTION))
  }

  /** `\s*Answer:\s*([\s\S]+?)(?=Question:|$)` after a first group that
      ends at `e`. */
  function Group2(s: string, e: nat): (r: (nat, nat))
    requires e <= |s| && AnswerFollows(s, e)
    ensures e < r.0 < r.1 <= |s|
  {
    var a := SkipSpaces(s, e) + |ANSWER|;
    var q := SkipSpaces(s, a);
    if q < |s| then (q, LabelOrEnd(s, q + 1, QUESTION)) else (|s| - 1, |s|)
  }

  /** The second group is the one the engine picks. */
  lemma Group2Spec(s: string, e: nat)
    requires e <= |s| && AnswerFollows(s, e)
    ensures SecondGroup(s, e, Group2(s, e).0, Group2(s, e).1)
  {
  }

  /** The match of the pattern that starts at a `Question:` label at `i`:
      there is one exactly when the first group exists, and the second group
      then always does. */
  function MatchAt(s: string, i: nat): (r: Option<Match>)
    requires LabelAt(s, i, QUESTION)
    ensures r.Some? ==> Ordered(s, i, r.value)
  {
    match Group1(s, i + |QUESTION|)
    case None => None
    case Some((g, e)) => Some(Match(i, (g, e), Group2(s, e)))
  }

  /** What the pattern finds at a `Question:` label at `i`: a match exactly
      when some end of a non-empty first group has `\s*Answer:` and one
      more character after it; the first group is then the one `FirstGroup`
      pins, and the second group starts after `Answer:` and its white space
      and ends at the next `Question:` label or at the end of the text. */
  lemma MatchAtGroups(s: string, i: nat)
    requires LabelAt(s, i, QUESTION)
    ensures MatchAt(s, i).None? <==> forall e :: i + |QUESTION| < e <= |s| ==> !AnswerFollows(s, e)
    ensures MatchAt(s, i).Some? ==> var m := MatchAt(s, i).value;
      && m.start == i
      && FirstGroup(s, i + |QUESTION|, m.group1.0, m.group1.1)
      && SecondGroup(s, m.group1.1, m.group2.0, m.group2.1)
  {
    Group1Spec(s, i + |QUESTION|);
    if MatchAt(s, i).Some? {
      Group2Spec(s, MatchAt(s, i).value.group1.1);
    }
  }

  /** A match from `k` on lies in the text: it starts at or after `k`, and
      its label, its first group and its second group follow each other. */
  predicate Ordered(s: string, k: nat, m: Match) {
    k <= m.start < m.group1.0 < m.group1.1 <= m.group2.0 < m.group2.1 <= |s|
  }

  /** The pattern matches at `j`. */
  predicate MatchesAt(s: string, j: nat) {
    LabelAt(s, j, QUESTION) && MatchAt(s, j).Some?
  }

  /** `regex.exec(content)` with `regex.lastIndex == k`: the match at the
      first start position, from `k` on, where the pattern matches. */
  function ExecFrom(s: string, k: nat): (r: Option<Match>)
    decreases |s| - k
    ensures r.Some? ==> Ordered(s, k, r.value)
  {
    if |s| < k + |QUESTION| then None
    else if LabelAt(s, k, QUESTION) && MatchAt(s, k).Some? then MatchAt(s, k)
    else ExecFrom(s, k + 1)
  }

  /** The match `exec` finds is the one at the leftmost position, from `k`
      on, where the pattern matches; there is none exactly when the pattern
      matches nowhere from `k` on. */
  lemma {:induction false} ExecFromLeftmost(s: string, k: nat)
    decreases |s| - k
    ensures ExecFrom(s, k).Some? ==> var j := ExecFrom(s, k).value.start;
      LabelAt(s, j, QUESTION) && MatchAt(s, j) == ExecFrom(s, k)
    ensures ExecFrom(s, k).Some? ==> forall j :: k <= j < ExecFrom(s, k).value.start ==> !MatchesAt(s, j)
    ensures ExecFrom(s, k).None? ==> forall j :: k <= j ==> !MatchesAt(s, j)
  {
    if |s| < k + |QUESTION| {
      forall j | k <= j ensures !MatchesAt(s, j) {
        assert !LabelAt(s, j, QUESTION);
      }
    } else if MatchesAt(s, k) {
      assert ExecFrom(s, k) == MatchAt(s, k);
    } else {
      var r := ExecFrom(s, k + 1);
      assert ExecFrom(s, k) == r;
      ExecFromLeftmost(s, k + 1);
      forall j | k <= j && (r.None? || j < r.value.start) ensures !MatchesAt(s, j) {
        if j == k {
        }
      }
    }
  }

  /** The card of one match: both groups trimmed. */
  function MatchCard(s: string, m: Match): (c: Card)
    requires m.group1.0 <= m.group1.1 <= |s| && m.group2.0 <= m.group2.1 <= |s|
    ensures IsTrimmed(c.question) && IsTrimmed(c.answer)
    ensures |c.question| <= m.group1.1 - m.group1.0 && |c.answer| <= m.group2.1 - m.group2.0
    ensures c.question == [] <==> forall k :: m.group1.0 <= k < m.group1.1 ==> IsSpace(s[k])
    ensures c.answer == [] <==> forall k :: m.group2.0 <= k < m.group2.1 ==> IsSpace(s[k])
  {
    TrimBlank(s, m.group1.0, m.group1.1);
    TrimBlank(s, m.group2.0, m.group2.1);
    Card(Trim(s[m.group1.0..m.group1.1]), Trim(s[m.group2.0..m.group2.1]))
  }

  /** The trimmed question and answer of every match from `k` on, in order. */
  function ScanPairs(s: string, k: nat): (r: seq<Card>)
    decreases |s| - k
    ensures forall n :: 0 <= n < |r| ==> IsTrimmed(r[n].question) && IsTrimmed(r[n].answer)
  {
    var next := ExecFrom(s, k);
    if next.None? then []
    else
      var c := MatchCard(s, next.value);
      var rest := ScanPairs(s, next.value.group2.1);
      assert forall n :: 0 < n < |rest| + 1 ==> ([c] + rest)[n] == rest[n - 1];
      [c] + rest
  }

  /** `s` is `Question: q`, a line break, and `Answer: a`. */
  ghost predicate Laid(s: string, q: string, a: string) {
    var n := |q|;
    |s| == 19 + n + |a|
    && s[..10] == "Question: " && s[10..10 + n] == q
    && s[10 + n..19 + n] == "\nAnswer: " && s[19 + n..] == a
  }

  /** The raw card the scan pushes for one match:
      `` `Question: ${q}\nAnswer: ${a}` ``. The question and the answer are
      copied whole, after the two labels. */
  function Canonical(pair: Card): (r: string)
    ensures Laid(r, pair.question, pair.answer)
  {
    "Question: " + pair.question + "\nAnswer: " + pair.answer
  }

  function Canonicals(pairs: seq<Card>): (chunks: seq<string>)
    ensures |chunks| == |pairs|
    ensures forall k :: 0 <= k < |pairs| ==> Laid(chunks[k], pairs[k].question, pairs[k].answer)
  {
    if pairs == [] then []
    else
      var rest := Canonicals(pairs[1..]);
      assert forall k :: 0 < k < |pairs| ==> ([Canonical(pairs[0])] + rest)[k] == rest[k - 1];
      [Canonical(pairs[0])] + rest
  }

  /** The raw cards of a response without the separator. */
  function UndelimitedChunks(s: string): (chunks: seq<string>)
    ensures var pairs := ScanPairs(s, 0);
      && |chunks| == |pairs|
      && forall k :: 0 <= k < |pairs| ==> Laid(chunks[k], pairs[k].question, pairs[k].answer)
  {
    Canonicals(ScanPairs(s, 0))
  }

  /** The `while ((match = flashcardRegex.exec(content)) !== null)` loop of
      server/server.js:65-70. */
  method ScanUndelimited(content: string) returns (raw: seq<string>)
    ensures raw == UndelimitedChunks(content)
  {
    raw := [];
    var lastIndex := 0;
    var m := ExecFrom(content, lastIndex);
    ghost var rest := UndelimitedChunks(content);
    while m.Some?
      invariant m == ExecFrom(content, lastIndex)
      invariant rest == Canonicals(ScanPairs(content, lastIndex))
      invariant raw + rest == UndelimitedChunks(content)
      decreases |content| - lastIndex
    {
      var pair := MatchCard(content, m.value);
      CanonicalsStep(content, lastIndex);
      Pushed(raw, rest, Canonical(pair));
      raw, rest := raw + [Canonical(pair)], rest[1..];
      lastIndex := m.value.group2.1;
      m := ExecFrom(content, lastIndex);
    }
  }

  /** Moving the head of `rest` to the end of `raw` keeps their join. */
  lemma Pushed(raw: seq<string>, rest: seq<string>, c: string)
    requires rest != [] && rest[0] == c
    ensures (raw + [c]) + rest[1..] == raw + rest
  {
    assert rest == [c] + rest[1..];
  }

  /** One match of the scan contributes its raw card ahead of the rest. */
  lemma CanonicalsStep(s: string, k: nat)
    requires ExecFrom(s, k).Some?
    ensures var m := ExecFrom(s, k).value;
      Canonicals(ScanPairs(s, k))
        == [Canonical(MatchCard(s, m))] + Canonicals(ScanPairs(s, m.group2.1))
  {
    var m := ExecFrom(s, k).value;
    var rest := ScanPairs(s, m.group2.1);
    assert ScanPairs(s, k) == [MatchCard(s, m)] + rest;
    assert ([MatchCard(s, m)] + rest)[1..] == rest;
  }

  /** The labels in a raw card that the scan builds are found again by field
      extraction, so such a card is never dropped. */
  lemma CanonicalYieldsCard(pair: Card)
    ensures ExtractCard(Canonical(pair)).Some?
  {
    var c := Canonical(pair);
    var w := 11 + |pair.question|;
    assert LabelAt(c, 0, QUESTION) by {
      forall k | 0 <= k < |QUESTION| ensures Lower(c[k]) == QUESTION[k] {
        assert c[k] == "Question: "[k];
      }
    }
    assert LabelAt(c, w, ANSWER) by {
      forall k | 0 <= k < |ANSWER| ensures Lower(c[w + k]) == ANSWER[k] {
        assert c[w + k] == "\nAnswer: "[k + 1];
      }
    }
    ExtractCardSucceedsIff(c);
  }

  lemma {:induction false} CanonicalsYieldCards(pairs: seq<Card>)
    ensures |ExtractAll(Canonicals(pairs))| == |pairs|
  {
    if pairs != [] {
      CanonicalYieldsCard(pairs[0]);
      CanonicalsYieldCards(pairs[1..]);
      ExtractAllAppend([Canonical(pairs[0])], Canonicals(pairs[1..]));
      ExtractAllSingle(Canonical(pairs[0]));
    }
  }

  /** Shape B drops nothing: every match of the scan becomes a flashcard. */
  lemma UndelimitedNeverDrops(s: string)
    ensures |ExtractAll(UndelimitedChunks(s))| == |UndelimitedChunks(s)|
  {
    CanonicalsYieldCards(ScanPairs(s, 0));
  }

  // ---------------------------------------------------------------------
  // The two parsers of the pipeline

  /** The first response: Shape A when it contains `####`, Shape B otherwise
      (server/server.js:57-89). */
  function ParseFirst(content: string): (cards: seq<Card>)
    ensures forall k :: 0 <= k < |cards| ==> IsTrimmed(cards[k].question) && IsTrimmed(cards[k].answer)
    ensures !HasDelimiter(content) ==> |cards| == |ScanPairs(content, 0)|
  {
    UndelimitedNeverDrops(content);
    ExtractAll(if HasDelimiter(content) then DelimitedChunks(content) else UndelimitedChunks(content))
  }

  /** The retry response: Shape A only (server/server.js:117-131). */
  function ParseRetry(content: string): (cards: seq<Card>)
    ensures forall k :: 0 <= k < |cards| ==> IsTrimmed(cards[k].question) && IsTrimmed(cards[k].answer)
    ensures |cards| <= |DelimitedChunks(content)|
    ensures !HasDelimiter(content) ==> |cards| <= 1
  {
    ExtractAll(DelimitedChunks(content))
  }
}
