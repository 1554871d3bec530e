/** Responses without `####`, read by the scan for `Question: … Answer: …`
    pairs (server/server.js:62-75): cards written in the format of the first
    prompt and separated by white space only come back one match per card,
    and a lone card in that format parses back to itself. */
module ScanRoundTrip {
  import opened Wrappers
  import opened Strings
  import opened Parser
  import opened RoundTrip

  /** A card the scan reads back whole: well formed, and no `Question:`
      label in its answer, where it would end the second group early. */
  ghost predicate ScanWellFormed(c: Card) {
    WellFormed(c) && NoLabel(c.answer, QUESTION)
  }

  /** `t`, which is `Question: q\nAnswer: a`, is written at `k` in `s`. */
  ghost predicate Placed(s: string, k: nat, t: string, q: string, a: string) {
    Laid(t, q, a) && k + |t| <= |s| && s[k..k + |t|] == t
  }

  /** The characters of `t` are those of `s` from `k` on. */
  lemma PlacedChar(s: string, k: nat, t: string, q: string, a: string, j: nat)
    requires Placed(s, k, t, q, a) && j < |t|
    ensures s[k + j] == t[j]
  {
    assert s[k + j] == s[k..k + |t|][j];
  }

  /** One white-space character followed by another character.
      Only an unfolding step, kept apart so that its callers stay small. */
  lemma OneSpace(s: string, i: nat)
    requires i + 1 < |s| && IsSpace(s[i]) && !IsSpace(s[i + 1])
    ensures SkipSpaces(s, i) == i + 1
  {
  }

  /** `Question:` opens the card. */
  lemma PlacedQuestionLabel(s: string, k: nat, t: string, q: string, a: string)
    requires Placed(s, k, t, q, a) && q != [] && IsTrimmed(q)
    ensures LabelAt(s, k, QUESTION)
  {
    LaidQuestionLabel(t, q, a);
    LabelInSlice(s, k, k + |t|, 0, QUESTION);
  }

  /** `Answer:` follows the question and a line break. */
  lemma PlacedAnswerLabel(s: string, k: nat, t: string, q: string, a: string)
    requires Placed(s, k, t, q, a) && NoLabel(q, ANSWER)
    ensures LabelAt(s, k + 11 + |q|, ANSWER)
  {
    LaidAnswerLabel(t, q, a);
    LabelInSlice(s, k, k + |t|, 11 + |q|, ANSWER);
  }

  /** One space follows `Question:`. */
  lemma PlacedQuestionSpace(s: string, k: nat, t: string, q: string, a: string)
    requires Placed(s, k, t, q, a) && q != [] && IsTrimmed(q)
    ensures SkipSpaces(s, k + |QUESTION|) == k + 10
  {
    PlacedChar(s, k, t, q, a, 9);
    PlacedChar(s, k, t, q, a, 10);
    assert t[9] == t[..10][9] && t[10] == t[10..10 + |q|][0];
    OneSpace(s, k + 9);
  }

  /** A line break follows the question. */
  lemma PlacedLineBreak(s: string, k: nat, t: string, q: string, a: string)
    requires Placed(s, k, t, q, a)
    ensures SkipSpaces(s, k + 10 + |q|) == k + 11 + |q|
  {
    var n := |q|;
    PlacedChar(s, k, t, q, a, 10 + n);
    PlacedChar(s, k, t, q, a, 11 + n);
    assert t[10 + n] == t[10 + n..19 + n][0] && t[11 + n] == t[10 + n..19 + n][1];
    OneSpace(s, k + 10 + n);
  }

  /** One space follows `Answer:`. */
  lemma PlacedAnswerSpace(s: string, k: nat, t: string, q: string, a: string)
    requires Placed(s, k, t, q, a) && a != [] && IsTrimmed(a)
    ensures SkipSpaces(s, k + 18 + |q|) == k + 19 + |q|
  {
    var n := |q|;
    PlacedChar(s, k, t, q, a, 18 + n);
    PlacedChar(s, k, t, q, a, 19 + n);
    assert t[18 + n] == t[10 + n..19 + n][8] && t[19 + n] == t[19 + n..][0];
    OneSpace(s, k + 18 + n);
  }

  /** No `Answer:` label starts where the white space after a position
      inside the question ends: that is still inside the question. */
  lemma NoAnswerInQuestion(s: string, k: nat, t: string, q: string, a: string, e: nat)
    requires Placed(s, k, t, q, a) && q != [] && IsTrimmed(q) && NoLabel(q, ANSWER)
    requires k + 11 <= e < k + 10 + |q|
    ensures !AnswerFollows(s, e)
  {
    var n := |q|;
    var w := SkipSpaces(s, e);
    PlacedChar(s, k, t, q, a, 9 + n);
    assert t[9 + n] == t[10..10 + n][n - 1];
    assert w < k + 10 + n;
    if LabelAt(s, w, ANSWER) {
      LabelWithin(s, k, k + |t|, w, ANSWER);
      LaidAnswerLabel(t, q, a);
    }
  }

  /** Where the parts of a card written at `k` lie: its question runs from
      `g` to `e`, and its answer starts at `h`. */
  ghost predicate Spots(k: nat, q: string, g: nat, e: nat, h: nat) {
    g == k + 10 && e == g + |q| && h == e + 9
  }

  /** The first group of the match at `k` is the question. */
  lemma PlacedFirstGroup(s: string, k: nat, t: string, q: string, a: string, g: nat, e: nat, h: nat)
    requires Placed(s, k, t, q, a) && q != [] && IsTrimmed(q) && NoLabel(q, ANSWER)
    requires Spots(k, q, g, e, h)
    ensures Group1(s, k + |QUESTION|) == Some((g, e))
  {
    PlacedQuestionSpace(s, k, t, q, a);
    assert AnswerBoundary(s, g + 1) == Some(e) by {
      PlacedAnswerLabel(s, k, t, q, a);
      PlacedLineBreak(s, k, t, q, a);
      forall x | g + 1 <= x < e ensures !AnswerFollows(s, x) {
        NoAnswerInQuestion(s, k, t, q, a, x);
      }
      FirstAnswerBoundary(s, g + 1, e);
    }
    Group1Of(s, k + |QUESTION|, g, e);
  }

  /** The first group, from the white space after `Question:` and the first
      end after which an `Answer:` label follows.
      Only an unfolding step, kept apart so that its callers stay small. */
  lemma Group1Of(s: string, p: nat, g: nat, e: nat)
    requires p <= |s| && SkipSpaces(s, p) == g < |s| && AnswerBoundary(s, g + 1) == Some(e)
    ensures Group1(s, p) == Some((g, e))
  {
    assert AnswerBoundary(s, SkipSpaces(s, p) + 1).Some?;
  }

  /** The lazy first group ends at the first end after which the rest
      matches. */
  lemma FirstAnswerBoundary(s: string, from: nat, e: nat)
    requires from <= e <= |s| && AnswerFollows(s, e)
    requires forall k :: from <= k < e ==> !AnswerFollows(s, k)
    ensures AnswerBoundary(s, from) == Some(e)
  {
  }

  /** No character of a `Question:` label is white space. */
  lemma QuestionLabelHasNoSpace(s: string, j: nat, i: nat)
    requires LabelAt(s, j, QUESTION) && j <= i < j + |QUESTION|
    ensures !IsSpace(s[i])
  {
    LabelChar(s, j, i, QUESTION);
    assert forall x :: 0 <= x < |QUESTION| ==> 0x21 <= QUESTION[x] as int <= 0x7E;
  }

  /** The answer is written at the end of the card. */
  lemma PlacedAnswerText(s: string, k: nat, t: string, q: string, a: string)
    requires Placed(s, k, t, q, a)
    ensures s[k + 19 + |q|..k + |t|] == a
  {
    assert s[k + 19 + |q|..k + |t|] == s[k..k + |t|][19 + |q|..];
  }

  /** What follows the card at `k`, up to `f`, is white space, and at `f`
      the text ends or the next card starts with its `Question:` label. */
  ghost predicate EndsAt(s: string, k: nat, t: string, f: nat) {
    k + |t| <= f <= |s|
    && (forall j {:trigger IsSpace(s[j])} :: k + |t| <= j < f ==> IsSpace(s[j]))
    && (f == |s| || (k + |t| < f && LabelAt(s, f, QUESTION)))
  }

  /** No `Question:` label starts inside the answer or the white space after
      it. */
  lemma NoQuestionAfterAnswer(s: string, k: nat, t: string, q: string, a: string, f: nat, j: nat)
    requires Placed(s, k, t, q, a) && NoLabel(a, QUESTION) && EndsAt(s, k, t, f)
    requires k + 19 + |q| <= j < f
    ensures !LabelAt(s, j, QUESTION)
  {
    var e := k + |t|;
    if LabelAt(s, j, QUESTION) {
      if j + |QUESTION| <= e {
        PlacedAnswerText(s, k, t, q, a);
        LabelWithin(s, k + 19 + |q|, e, j, QUESTION);
      } else if j < e {
        QuestionLabelHasNoSpace(s, j, e);
      } else {
        QuestionLabelHasNoSpace(s, j, j);
      }
    }
  }

  /** The second group of the match at `k` is the answer with the white
      space after it, up to the next card or the end. */
  lemma PlacedSecondGroup(s: string, k: nat, t: string, q: string, a: string, g: nat, e: nat, h: nat, f: nat)
    requires Placed(s, k, t, q, a) && a != [] && IsTrimmed(a) && NoLabel(a, QUESTION)
    requires EndsAt(s, k, t, f) && Spots(k, q, g, e, h) && AnswerFollows(s, e)
    ensures Group2(s, e) == (h, f)
  {
    PlacedLineBreak(s, k, t, q, a);
    PlacedAnswerSpace(s, k, t, q, a);
    assert SkipSpaces(s, SkipSpaces(s, e) + |ANSWER|) == h;
    forall j | h + 1 <= j < f ensures !LabelAt(s, j, QUESTION) {
      NoQuestionAfterAnswer(s, k, t, q, a, f, j);
    }
    assert LabelOrEnd(s, h + 1, QUESTION) == f;
    Group2Of(s, e, h, f);
  }

  /** The second group, from the white space that ends the first group, its
      `Answer:` label and the white space after it.
      Only an unfolding step, kept apart so that its callers stay small. */
  lemma Group2Of(s: string, e: nat, h: nat, f: nat)
    requires e <= |s| && AnswerFollows(s, e)
    requires SkipSpaces(s, SkipSpaces(s, e) + |ANSWER|) == h < |s|
    requires LabelOrEnd(s, h + 1, QUESTION) == f
    ensures Group2(s, e) == (h, f)
  {
  }

  /** Trimming the first group gives back the question. */
  lemma PlacedQuestionTrim(s: string, k: nat, t: string, q: string, a: string, g: nat, e: nat)
    requires Placed(s, k, t, q, a) && IsTrimmed(q) && g == k + 10 && e == g + |q|
    ensures Trim(s[g..e]) == q
  {
    var n := |q|;
    forall x | 0 <= x < n ensures s[g..e][x] == q[x] {
      PlacedChar(s, k, t, q, a, 10 + x);
      assert t[10 + x] == t[10..10 + n][x];
    }
    assert s[g..e] == q;
    TrimTrimmed(q);
  }

  /** Trimming the second group gives back the answer. */
  lemma PlacedAnswerTrim(s: string, k: nat, t: string, q: string, a: string, h: nat, f: nat)
    requires Placed(s, k, t, q, a) && a != [] && IsTrimmed(a) && EndsAt(s, k, t, f)
    requires h == k + 19 + |q|
    ensures Trim(s[h..f]) == a
  {
    var e := k + |t|;
    var post := s[e..f];
    assert s[h..f] == [] + a + post by {
      PlacedAnswerText(s, k, t, q, a);
    }
    forall x | 0 <= x < |post| ensures IsSpace(post[x]) {
      assert post[x] == s[e + x];
    }
    TrimAround([], a, post);
  }

  /** The label and the two groups of the match at `k`. */
  lemma PlacedGroups(s: string, k: nat, t: string, q: string, a: string, g: nat, e: nat, h: nat, f: nat)
    requires Placed(s, k, t, q, a) && ScanWellFormed(Card(q, a)) && EndsAt(s, k, t, f)
    requires Spots(k, q, g, e, h)
    ensures h < |s|
    ensures LabelAt(s, k, QUESTION)
    ensures Group1(s, k + |QUESTION|) == Some((g, e))
    ensures AnswerFollows(s, e)
    ensures Group2(s, e) == (h, f)
  {
    PlacedQuestionLabel(s, k, t, q, a);
    PlacedFirstGroup(s, k, t, q, a, g, e, h);
    assert AnswerFollows(s, e) by {
      PlacedAnswerLabel(s, k, t, q, a);
      PlacedLineBreak(s, k, t, q, a);
    }
    PlacedSecondGroup(s, k, t, q, a, g, e, h, f);
  }

  /** The match at `k` is the question and the answer, up to `f`. */
  lemma PlacedMatch(s: string, k: nat, t: string, q: string, a: string, g: nat, e: nat, h: nat, f: nat)
    requires Placed(s, k, t, q, a) && ScanWellFormed(Card(q, a)) && EndsAt(s, k, t, f)
    requires Spots(k, q, g, e, h)
    ensures LabelAt(s, k, QUESTION)
    ensures MatchAt(s, k) == Some(Match(k, (g, e), (h, f)))
  {
    PlacedGroups(s, k, t, q, a, g, e, h, f);
    MatchAtOf(s, k, g, e, h, f);
  }

  /** The match at `k` is made of the two groups found after its label.
      Only an unfolding step, kept apart so that its callers stay small. */
  lemma MatchAtOf(s: string, k: nat, g: nat, e: nat, h: nat, f: nat)
    requires LabelAt(s, k, QUESTION) && Group1(s, k + |QUESTION|) == Some((g, e))
    requires e <= |s| && AnswerFollows(s, e) && Group2(s, e) == (h, f)
    ensures MatchAt(s, k) == Some(Match(k, (g, e), (h, f)))
  {
  }

  /** The card of that match is the card written at `k`. */
  lemma PlacedCard(s: string, k: nat, t: string, q: string, a: string, g: nat, e: nat, h: nat, f: nat)
    requires Placed(s, k, t, q, a) && IsTrimmed(q) && a != [] && IsTrimmed(a) && EndsAt(s, k, t, f)
    requires Spots(k, q, g, e, h)
    ensures MatchCard(s, Match(k, (g, e), (h, f))) == Card(q, a)
  {
    PlacedQuestionTrim(s, k, t, q, a, g, e);
    PlacedAnswerTrim(s, k, t, q, a, h, f);
    MatchCardOf(s, k, g, e, h, f, q, a);
  }

  /** The card of a match whose trimmed groups are `q` and `a`.
      Only an unfolding step, kept apart so that its callers stay small. */
  lemma MatchCardOf(s: string, k: nat, g: nat, e: nat, h: nat, f: nat, q: string, a: string)
    requires g <= e <= |s| && h <= f <= |s|
    requires Trim(s[g..e]) == q && Trim(s[h..f]) == a
    ensures MatchCard(s, Match(k, (g, e), (h, f))) == Card(q, a)
  {
  }

  /** A card written at `k` and followed by white space up to `f` is one
      match of the scan, which yields the card and goes on at `f`. */
  lemma PlacedScan(s: string, k: nat, t: string, q: string, a: string, f: nat)
    requires Placed(s, k, t, q, a) && ScanWellFormed(Card(q, a)) && EndsAt(s, k, t, f)
    ensures ScanPairs(s, k) == [Card(q, a)] + ScanPairs(s, f)
  {
    var g, e, h := k + 10, k + 10 + |q|, k + 19 + |q|;
    PlacedCard(s, k, t, q, a, g, e, h, f);
    PlacedMatch(s, k, t, q, a, g, e, h, f);
    ExecAtMatch(s, k);
    ScanStep(s, k);
  }

  /** `exec` from a position where the pattern matches returns that match.
      Only an unfolding step, kept apart so that its callers stay small. */
  lemma ExecAtMatch(s: string, k: nat)
    requires LabelAt(s, k, QUESTION) && MatchAt(s, k).Some?
    ensures ExecFrom(s, k) == MatchAt(s, k)
  {
  }

  /** One round of the scan loop. */
  lemma ScanStep(s: string, k: nat)
    requires ExecFrom(s, k).Some?
    ensures var m := ExecFrom(s, k).value;
      ScanPairs(s, k) == [MatchCard(s, m)] + ScanPairs(s, m.group2.1)
  {
  }

  /** There is no match to find once the text is used up. */
  lemma ScanEnd(s: string)
    ensures ScanPairs(s, |s|) == []
  {
    assert ExecFrom(s, |s|) == None;
  }

  // ---------------------------------------------------------------------
  // Responses without `####`

  /** Cards in the format of the first prompt, each on its own lines and
      with nothing but a line break between two of them. */
  function RenderLines(cs: seq<Card>): (r: string)
    requires |cs| >= 1
    ensures |Canonical(cs[0])| <= |r| && r[..|Canonical(cs[0])|] == Canonical(cs[0])
    ensures |cs| == 1 ==> r == Canonical(cs[0])
  {
    if |cs| == 1 then Canonical(cs[0])
    else
      var r := Canonical(cs[0]) + "\n" + RenderLines(cs[1..]);
      assert r[..|Canonical(cs[0])|] == Canonical(cs[0]);
      r
  }

  /** Every card of `cs` is one the scan reads back whole. */
  ghost predicate AllScanWellFormed(cs: seq<Card>) {
    forall i :: 0 <= i < |cs| ==> ScanWellFormed(cs[i])
  }

  /** Such a response opens with the question label of its first card. */
  lemma LinesStart(cs: seq<Card>)
    requires |cs| >= 1 && ScanWellFormed(cs[0])
    ensures LabelAt(RenderLines(cs), 0, QUESTION)
  {
    var t, r := Canonical(cs[0]), RenderLines(cs);
    LaidQuestionLabel(t, cs[0].question, cs[0].answer);
    assert r[0..|t|] == t;
    LabelInSlice(r, 0, |t|, 0, QUESTION);
  }

  /** Joining two texts without `####` by a line break adds none. */
  lemma JoinNoDelimiter(x: string, y: string)
    requires NoLabel(x, DELIMITER) && NoLabel(y, DELIMITER)
    ensures NoLabel(x + "\n" + y, DELIMITER)
  {
    var s := x + "\n" + y;
    forall i | LabelAt(s, i, DELIMITER) ensures false {
      if i + |DELIMITER| <= |x| {
        assert s[0..|x|] == x;
        LabelWithin(s, 0, |x|, i, DELIMITER);
      } else if i <= |x| {
        LabelChar(s, i, |x|, DELIMITER);
      } else {
        assert s[|x| + 1..|s|] == y;
        LabelWithin(s, |x| + 1, |s|, i, DELIMITER);
      }
    }
  }

  /** Such a response contains no `####`. */
  lemma {:induction false} LinesNoDelimiter(cs: seq<Card>)
    requires |cs| >= 1 && AllScanWellFormed(cs)
    ensures NoLabel(RenderLines(cs), DELIMITER)
    decreases |cs|
  {
    var c := cs[0];
    assert ScanWellFormed(c);
    LaidNoDelimiter(Canonical(c), c.question, c.answer);
    if |cs| > 1 {
      LinesNoDelimiter(cs[1..]);
      JoinNoDelimiter(Canonical(c), RenderLines(cs[1..]));
    }
  }

  /** The scan, started where the response for the cards of `cs` from the
      `i`-th on begins, finds those cards one match per card, in order. */
  lemma {:induction false} LinesScan(s: string, k: nat, cs: seq<Card>, i: nat)
    requires i < |cs| && AllScanWellFormed(cs)
    requires k <= |s| && s[k..] == RenderLines(cs[i..])
    ensures ScanPairs(s, k) == cs[i..]
    decreases |cs| - i
  {
    var c := cs[i];
    assert cs[i..][0] == c && ScanWellFormed(c);
    if i + 1 == |cs| {
      assert cs[i..] == [c];
      LinesLast(s, k, c);
    } else {
      assert cs[i..][1] == cs[i + 1] && ScanWellFormed(cs[i + 1]);
      var f := LinesStep(s, k, cs[i..]);
      assert cs[i..][1..] == cs[i + 1..];
      LinesScan(s, f, cs, i + 1);
    }
  }

  /** The scan finds the first card of such a response, of two cards or
      more, and goes on where the response for the others begins. */
  lemma LinesStep(s: string, k: nat, cs: seq<Card>) returns (f: nat)
    requires |cs| >= 2 && ScanWellFormed(cs[0]) && ScanWellFormed(cs[1])
    requires k <= |s| && s[k..] == RenderLines(cs)
    ensures f <= |s| && s[f..] == RenderLines(cs[1..])
    ensures ScanPairs(s, k) == [cs[0]] + ScanPairs(s, f)
    ensures cs == [cs[0]] + cs[1..]
  {
    var c := cs[0];
    var t := Canonical(c);
    f := k + |t| + 1;
    LinesHead(s, k, cs);
    LinesNext(s, k, cs, f);
    PlacedScan(s, k, t, c.question, c.answer, f);
  }

  /** The last card of such a response is its last match. */
  lemma LinesLast(s: string, k: nat, c: Card)
    requires ScanWellFormed(c) && k <= |s| && s[k..] == RenderLines([c])
    ensures ScanPairs(s, k) == [c]
  {
    var t := Canonical(c);
    LinesHead(s, k, [c]);
    PlacedScan(s, k, t, c.question, c.answer, |s|);
    ScanEnd(s);
  }

  /** The first card of such a response is written where it begins. */
  lemma LinesHead(s: string, k: nat, cs: seq<Card>)
    requires |cs| >= 1 && k <= |s| && s[k..] == RenderLines(cs)
    ensures Placed(s, k, Canonical(cs[0]), cs[0].question, cs[0].answer)
  {
    var t := Canonical(cs[0]);
    PlacedPrefix(s, k, RenderLines(cs), t, cs[0].question, cs[0].answer);
  }

  /** A text laid out as a card, found at the start of what follows `k`, is
      written at `k`. */
  lemma PlacedPrefix(s: string, k: nat, r: string, t: string, q: string, a: string)
    requires k <= |s| && s[k..] == r && |t| <= |r| && r[..|t|] == t && Laid(t, q, a)
    ensures Placed(s, k, t, q, a)
  {
    assert s[k..k + |t|] == r[..|t|];
  }

  /** After the first card come a line break and the response for the
      other cards. */
  lemma LinesNext(s: string, k: nat, cs: seq<Card>, f: nat)
    requires |cs| >= 2 && ScanWellFormed(cs[1])
    requires k <= |s| && s[k..] == RenderLines(cs) && f == k + |Canonical(cs[0])| + 1
    ensures f <= |s| && s[f..] == RenderLines(cs[1..])
    ensures EndsAt(s, k, Canonical(cs[0]), f)
  {
    var t, r := Canonical(cs[0]), RenderLines(cs);
    assert s[f - 1] == r[|t|] == '\n';
    assert s[f..] == RenderLines(cs[1..]) by {
      assert s[f..] == r[|t| + 1..];
    }
    assert LabelAt(s, f, QUESTION) by {
      assert cs[1..][0] == cs[1];
      LinesStart(cs[1..]);
      assert s[f..|s|] == s[f..];
      LabelInSlice(s, f, |s|, 0, QUESTION);
    }
  }

  /** The first parser reads a response without `####`, whose cards are in
      the format and each on their own lines, back as its cards: the scan
      finds one match per card, and each raw card it pushes yields that card
      again. */
  lemma LinesRoundTrip(cs: seq<Card>)
    requires |cs| >= 1 && AllScanWellFormed(cs)
    ensures ParseFirst(RenderLines(cs)) == cs
  {
    var s := RenderLines(cs);
    LinesNoDelimiter(cs);
    assert s[0..] == s && cs[0..] == cs;
    LinesScan(s, 0, cs, 0);
    assert AllWellFormed(cs) by {
      forall i | 0 <= i < |cs| ensures WellFormed(cs[i]) {
        assert ScanWellFormed(cs[i]);
      }
    }
    ParseFirstOfScan(s, cs);
  }

  /** A response without `####` in which the scan finds well-formed cards
      parses to those cards: each raw card the scan pushes yields its card
      back. */
  lemma ParseFirstOfScan(s: string, cs: seq<Card>)
    requires NoLabel(s, DELIMITER) && ScanPairs(s, 0) == cs && AllWellFormed(cs)
    ensures ParseFirst(s) == cs
  {
    assert !HasDelimiter(s);
    CanonicalsExtract(cs);
  }

  /** A lone card in the format parses back to itself. */
  lemma OneCardRoundTrip(c: Card)
    requires ScanWellFormed(c)
    ensures ParseFirst(Canonical(c)) == [c]
  {
    LinesRoundTrip([c]);
  }

  /** The second group stops at the next `Question:` label, whatever its
      letter case: an answer that mentions `question:` is cut there, and the
      rest of the text, which has no `Answer:` label after it, is no match. */
  lemma AnswerCutExample(s: string)
    requires s == "Question: Q\nAnswer: A question: B"
    ensures ParseFirst(s) == [Card("Q", "A")]
  {
    var c := Card("Q", "A");
    var t, u := Canonical(c), " question: B";
    CutExampleText(s);
    CutExampleScan(s, t, u);
    CutExampleNoDelimiter(s);
    assert AllWellFormed([c]);
    ParseFirstOfScan(s, [c]);
  }

  /** That example is the card `(Q, A)` in the format, then more text. */
  lemma CutExampleText(s: string)
    requires s == "Question: Q\nAnswer: A question: B"
    ensures s == Canonical(Card("Q", "A")) + " question: B"
  {
    assert Canonical(Card("Q", "A")) == "Question: Q\nAnswer: A";
  }

  /** The scan of that example finds one card. */
  lemma CutExampleScan(s: string, t: string, u: string)
    requires t == Canonical(Card("Q", "A")) && u == " question: B" && s == t + u
    ensures ScanPairs(s, 0) == [Card("Q", "A")]
  {
    assert ScanWellFormed(Card("Q", "A"));
    CutExampleHead(s, t, u);
    PlacedScan(s, 0, t, "Q", "A", 22);
    CutExampleTail(s, u);
    ScanStop(s, 22);
  }

  /** That example contains no `####`. */
  lemma CutExampleNoDelimiter(s: string)
    requires s == "Question: Q\nAnswer: A question: B"
    ensures NoLabel(s, DELIMITER)
  {
    assert '#' !in s;
    NoHashNoDelimiter(s);
  }

  /** The card at the start of that example, and what follows it. */
  lemma CutExampleHead(s: string, t: string, u: string)
    requires t == Canonical(Card("Q", "A")) && u == " question: B" && s == t + u
    ensures Placed(s, 0, t, "Q", "A") && EndsAt(s, 0, t, 22)
  {
    assert s[0..] == s && s[..|t|] == t;
    PlacedPrefix(s, 0, s, t, "Q", "A");
    assert s[21] == u[0];
    assert LabelAt(s, 22, QUESTION) by {
      assert s[21..|s|] == u;
      assert LabelAt(u, 1, QUESTION);
      LabelInSlice(s, 21, |s|, 1, QUESTION);
    }
  }

  /** After the cut, `exec` finds no further match. */
  lemma CutExampleTail(s: string, u: string)
    requires |s| == 33 && s[21..] == u && u == " question: B"
    ensures ExecFrom(s, 22) == None
  {
    CutExampleNoMatch(s, u);
    assert s[23] == u[2] && s[24] == u[3];
    NotLabelAt(s, 23, QUESTION);
    NotLabelAt(s, 24, QUESTION);
    assert ExecFrom(s, 25) == None;
    assert ExecFrom(s, 24) == None;
    assert ExecFrom(s, 23) == None;
  }

  /** The `question:` after the cut opens no match: no `Answer:` label
      follows it. */
  lemma CutExampleNoMatch(s: string, u: string)
    requires |s| == 33 && s[21..] == u && u == " question: B"
    ensures LabelAt(s, 22, QUESTION) && MatchAt(s, 22).None?
  {
    assert s[21..|s|] == u;
    assert LabelAt(u, 1, QUESTION);
    LabelInSlice(s, 21, |s|, 1, QUESTION);
    MatchAtGroups(s, 22);
  }

  /** A label does not start at a character that differs from its first. */
  lemma NotLabelAt(s: string, i: nat, pat: string)
    requires i < |s| && pat != [] && Lower(s[i]) != pat[0]
    ensures !LabelAt(s, i, pat)
  {
    if LabelAt(s, i, pat) {
      LabelChar(s, i, i, pat);
    }
  }

  /** The scan ends where `exec` finds no match.
      Only an unfolding step, kept apart so that its callers stay small. */
  lemma ScanStop(s: string, k: nat)
    requires ExecFrom(s, k) == None
    ensures ScanPairs(s, k) == []
  {
  }

  /** A text without `#` contains no `####`. */
  lemma NoHashNoDelimiter(s: string)
    requires '#' !in s
    ensures NoLabel(s, DELIMITER)
  {
    forall i | LabelAt(s, i, DELIMITER) ensures false {
      LabelChar(s, i, i, DELIMITER);
    }
  }

  // ---------------------------------------------------------------------
  // Both shapes

  /** The first parser reads any response in the format back as its cards:
      two cards or more are joined by `####`, which selects the split, and a
      lone card is read by the scan. */
  lemma FirstRoundTrip(cs: seq<Card>)
    requires |cs| >= 1 && AllWellFormed(cs)
    requires |cs| == 1 ==> NoLabel(cs[0].answer, QUESTION)
    ensures ParseFirst(Render(cs)) == cs
  {
    assert WellFormed(cs[0]);
    if |cs| == 1 {
      OneCardRoundTrip(cs[0]);
      assert cs == [cs[0]];
    } else {
      CanonicalShape(cs[0]);
      SeparatorFound(Canonical(cs[0]), Render(cs[1..]));
      RetryRoundTrip(cs);
    }
  }

  /** Two cards in the requested format. */
  lemma TwoCardExample(s: string)
    requires s == "Question: Q1\nAnswer: A1" + "\n####\n" + "Question: Q2\nAnswer: A2"
    ensures ParseFirst(s) == [Card("Q1", "A1"), Card("Q2", "A2")]
  {
    var cs := [Card("Q1", "A1"), Card("Q2", "A2")];
    assert AllWellFormed(cs);
    TwoCardRender(cs);
    FirstRoundTrip(cs);
  }

  /** The text of the example is the response for its two cards. */
  lemma TwoCardRender(cs: seq<Card>)
    requires cs == [Card("Q1", "A1"), Card("Q2", "A2")]
    ensures Render(cs) == "Question: Q1\nAnswer: A1" + "\n####\n" + "Question: Q2\nAnswer: A2"
  {
    assert cs[1..] == [cs[1]];
    assert Canonical(cs[0]) == "Question: Q1\nAnswer: A1";
    assert Canonical(cs[1]) == "Question: Q2\nAnswer: A2";
  }
}
