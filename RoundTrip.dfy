/** Responses written in the format the first prompt asks for
    (server/server.js:30-38): each card as `Question: q` and `Answer: a` on
    two lines, the cards separated by `####` on a line of its own. Such a
    response parses back to exactly its cards, in order. */
module RoundTrip {
  import opened Wrappers
  import opened Strings
  import opened Parser

  /** The line that separates two cards. */
  const SEPARATOR: string := "\n####\n"

  /** A card the response format can carry: a non-empty question and answer
      without surrounding white space, a question in which no `Answer:`
      label occurs, and no `####` in either. */
  ghost predicate WellFormed(c: Card) {
    c.question != [] && c.answer != [] && IsTrimmed(c.question) && IsTrimmed(c.answer)
    && NoLabel(c.question, ANSWER) && NoLabel(c.question, DELIMITER) && NoLabel(c.answer, DELIMITER)
  }

  /** The response for the cards `cs`, in the format of the prompt. */
  function Render(cs: seq<Card>): string
    requires |cs| >= 1
  {
    if |cs| == 1 then Canonical(cs[0]) else Canonical(cs[0]) + SEPARATOR + Render(cs[1..])
  }

  // ---------------------------------------------------------------------
  // One card

  /** The only `Answer:` label before the answer text is the one the format
      puts there. */
  lemma LaidAnswerLabel(s: string, q: string, a: string)
    requires Laid(s, q, a) && NoLabel(q, ANSWER)
    ensures LabelAt(s, 11 + |q|, ANSWER)
    ensures forall k :: 0 <= k < 11 + |q| ==> !LabelAt(s, k, ANSWER)
  {
    var n := |q|;
    var w := 11 + n;
    assert LabelAt(s, w, ANSWER) by {
      forall k | 0 <= k < |ANSWER| ensures Lower(s[w + k]) == ANSWER[k] {
        assert s[w + k] == s[10 + n..19 + n][k + 1];
      }
    }
    forall k | 0 <= k < w && LabelAt(s, k, ANSWER)
      ensures false
    {
      if k < 10 {
        LabelChar(s, k, k, ANSWER);
      } else if k + |ANSWER| <= 10 + n {
        LabelWithin(s, 10, 10 + n, k, ANSWER);
      } else {
        LabelChar(s, k, 10 + n, ANSWER);
      }
    }
  }

  /** The question label opens the text and one space follows it. */
  lemma LaidQuestionLabel(s: string, q: string, a: string)
    requires Laid(s, q, a) && q != [] && IsTrimmed(q)
    ensures Find(s, 0, QUESTION) == Some(0)
    ensures SkipSpaces(s, |QUESTION|) == 10
  {
    assert LabelAt(s, 0, QUESTION) by {
      forall k | 0 <= k < |QUESTION| ensures Lower(s[k]) == QUESTION[k] {
        assert s[k] == s[..10][k];
      }
    }
    assert IsSpace(s[9]) && !IsSpace(s[10]) by {
      assert s[9] == s[..10][9];
      assert s[10] == q[0];
    }
  }

  /** Trimming the text between the question label and the answer label
      leaves the question. */
  lemma LaidQuestionTrim(s: string, q: string, a: string)
    requires Laid(s, q, a) && q != [] && IsTrimmed(q)
    ensures TrimBounds(s, 10, 11 + |q|) == (10, 10 + |q|)
  {
    var n := |q|;
    assert IsSpace(s[10 + n]) by {
      assert s[10 + n] == s[10 + n..19 + n][0];
    }
    assert !IsSpace(s[10]) && !IsSpace(s[10 + n - 1]) by {
      assert s[10] == q[0];
      assert s[10 + n - 1] == q[n - 1];
    }
    TrimBoundsOf(s, 10, 11 + n, 10, 10 + n);
  }

  /** The question pattern captures the question and the line break after
      it, which trimming removes. */
  lemma LaidQuestion(s: string, q: string, a: string)
    requires Laid(s, q, a) && q != [] && IsTrimmed(q) && NoLabel(q, ANSWER)
    ensures QuestionSpan(s) == Some((10, 11 + |q|))
    ensures TrimmedSlice(s, 10, 11 + |q|) == q
  {
    LaidQuestionLabel(s, q, a);
    LaidAnswerLabel(s, q, a);
    assert LabelOrEnd(s, 11, ANSWER) == 11 + |q|;
    LaidQuestionTrim(s, q, a);
    assert s[10..10 + |q|] == q;
  }

  /** The answer label is the first one, and a single space follows it. */
  lemma LaidAnswerLabelFirst(s: string, q: string, a: string)
    requires Laid(s, q, a) && NoLabel(q, ANSWER)
    ensures Find(s, 0, ANSWER) == Some(11 + |q|)
    ensures IsSpace(s[18 + |q|])
  {
    LaidAnswerLabel(s, q, a);
    assert s[18 + |q|] == s[10 + |q|..19 + |q|][8];
  }

  /** The answer pattern captures the answer after the space that follows
      the label; an empty answer leaves only that space, which trimming
      removes. */
  lemma LaidAnswer(s: string, q: string, a: string)
    requires Laid(s, q, a) && NoLabel(q, ANSWER) && IsTrimmed(a)
    ensures AnswerSpan(s).Some?
    ensures TrimmedSlice(s, AnswerSpan(s).value.0, AnswerSpan(s).value.1) == a
  {
    var v := 18 + |q|;
    LaidAnswerLabelFirst(s, q, a);
    if a == [] {
      assert SkipSpaces(s, v) == |s|;
      assert AnswerSpan(s) == Some((v, |s|));
    } else {
      LaidAnswerText(s, q, a);
      TrimBoundsOf(s, v + 1, |s|, v + 1, |s|);
      assert s[v + 1..] == a;
    }
  }

  /** A non-empty answer is captured whole. */
  lemma LaidAnswerText(s: string, q: string, a: string)
    requires Laid(s, q, a) && NoLabel(q, ANSWER) && IsTrimmed(a) && a != []
    ensures AnswerSpan(s) == Some((19 + |q|, |s|))
    ensures !IsSpace(s[19 + |q|]) && !IsSpace(s[|s| - 1])
  {
    var v := 18 + |q|;
    LaidAnswerLabelFirst(s, q, a);
    assert !IsSpace(s[v + 1]) && !IsSpace(s[|s| - 1]) by {
      assert s[v + 1] == a[0];
      assert s[|s| - 1] == a[|a| - 1];
    }
    assert SkipSpaces(s, v) == v + 1;
  }

  /** A card written in the format and extracted again is the same card. */
  lemma CanonicalRoundTrip(c: Card)
    requires c.question != [] && IsTrimmed(c.question) && NoLabel(c.question, ANSWER)
    requires IsTrimmed(c.answer)
    ensures ExtractCard(Canonical(c)) == Some(c)
  {
    LaidQuestion(Canonical(c), c.question, c.answer);
    LaidAnswer(Canonical(c), c.question, c.answer);
  }

  /** The format adds no `####` of its own. */
  lemma LaidNoDelimiter(s: string, q: string, a: string)
    requires Laid(s, q, a) && NoLabel(q, DELIMITER) && NoLabel(a, DELIMITER)
    ensures NoLabel(s, DELIMITER)
  {
    var n := |q|;
    forall k | LabelAt(s, k, DELIMITER)
      ensures false
    {
      if k < 10 {
        LabelChar(s, k, k, DELIMITER);
      } else if k + |DELIMITER| <= 10 + n {
        LabelWithin(s, 10, 10 + n, k, DELIMITER);
      } else if k < 19 + n {
        var j := if k < 10 + n then 10 + n else k;
        LabelChar(s, k, j, DELIMITER);
      } else {
        assert s[19 + n..|s|] == a;
        LabelWithin(s, 19 + n, |s|, k, DELIMITER);
      }
    }
  }

  // ---------------------------------------------------------------------
  // Several cards

  /** Text without `####` is one piece. */
  lemma SplitWhole(b: string)
    requires NoLabel(b, DELIMITER)
    ensures SplitOn(b).pieces == [b]
  {
    assert Find(b, 0, DELIMITER).None?;
  }

  /** In text without `####`, the separator line adds the first one. */
  lemma SeparatorFound(b: string, r: string)
    requires NoLabel(b, DELIMITER)
    ensures Find(b + SEPARATOR + r, 0, DELIMITER) == Some(|b| + 1)
  {
    var s, m := b + SEPARATOR + r, |b|;
    assert s[..m] == b && s[m..m + 6] == SEPARATOR;
    assert LabelAt(s, m + 1, DELIMITER) by {
      forall k | 0 <= k < |DELIMITER| ensures Lower(s[m + 1 + k]) == DELIMITER[k] {
        assert s[m + 1 + k] == s[m..m + 6][1 + k];
      }
    }
    forall k | k < m + 1 && LabelAt(s, k, DELIMITER)
      ensures false
    {
      if k + |DELIMITER| <= m {
        assert s[0..m] == b;
        LabelWithin(s, 0, m, k, DELIMITER);
      } else {
        LabelChar(s, k, m, DELIMITER);
      }
    }
  }

  /** The separator line is a line break, `####` and a line break. */
  lemma SeparatorParts(b: string, r: string)
    ensures (b + SEPARATOR + r)[..|b| + 1] == b + "\n"
    ensures (b + SEPARATOR + r)[|b| + 6..] == r
  {
  }

  /** The white space after `####` is the line break before the next raw
      card when that card starts with something other than white space. */
  lemma SeparatorSkip(b: string, r: string)
    requires r != [] && !IsSpace(r[0])
    ensures SkipSpaces(b + SEPARATOR + r, |b| + 5) == |b| + 6
  {
    var s, m := b + SEPARATOR + r, |b|;
    assert s[m + 5] == SEPARATOR[5];
    assert s[m + 6] == r[0];
  }

  /** Text without `####`, the separator line and then text that starts with
      something other than white space: the first piece is that text and
      the line break that ends it, and the split goes on after the
      separator line. */
  lemma SplitStep(b: string, r: string)
    requires NoLabel(b, DELIMITER) && r != [] && !IsSpace(r[0])
    ensures SplitOn(b + SEPARATOR + r).pieces == [b + "\n"] + SplitOn(r).pieces
  {
    var s, m := b + SEPARATOR + r, |b|;
    SeparatorFound(b, r);
    SeparatorSkip(b, r);
    SeparatorParts(b, r);
    assert SplitOn(s).pieces == [s[..m + 1]] + SplitOn(s[m + 6..]).pieces;
  }

  /** The raw cards of text without `####`: the text, trimmed, unless it is
      all white space. */
  lemma ChunksWhole(b: string)
    requires NoLabel(b, DELIMITER) && b != [] && IsTrimmed(b)
    ensures DelimitedChunks(b) == [b]
  {
    SplitWhole(b);
    TrimTrimmed(b);
    assert [b][1..] == [];
  }

  /** A raw card, the separator line and the rest of the response: the raw
      card comes first and the rest is split as if it stood alone. */
  lemma ChunksStep(b: string, r: string)
    requires NoLabel(b, DELIMITER) && b != [] && IsTrimmed(b) && r != [] && !IsSpace(r[0])
    ensures DelimitedChunks(b + SEPARATOR + r) == [b] + DelimitedChunks(r)
  {
    SplitStep(b, r);
    var rest := SplitOn(r).pieces;
    var pieces := [b + "\n"] + rest;
    assert pieces[0] == b + "\n" && pieces[1..] == rest;
    assert Trim(b + "\n") == b by {
      assert [] + b + "\n" == b + "\n";
      TrimAround([], b, "\n");
    }
  }

  /** The text opens with the question label and ends with the answer. */
  lemma LaidTrimmed(s: string, q: string, a: string)
    requires Laid(s, q, a) && a != [] && IsTrimmed(a)
    ensures s != [] && s[0] == 'Q' && IsTrimmed(s)
  {
    assert s[0] == s[..10][0];
    assert s[|s| - 1] == a[|a| - 1];
  }

  /** What a well-formed card looks like in the format: trimmed, opening
      with the question label, and without `####`. */
  lemma CanonicalShape(c: Card)
    requires WellFormed(c)
    ensures Canonical(c) != [] && Canonical(c)[0] == 'Q'
    ensures IsTrimmed(Canonical(c)) && NoLabel(Canonical(c), DELIMITER)
  {
    LaidTrimmed(Canonical(c), c.question, c.answer);
    LaidNoDelimiter(Canonical(c), c.question, c.answer);
  }

  /** Every card of `cs` can be carried by the format. */
  ghost predicate AllWellFormed(cs: seq<Card>) {
    forall i :: 0 <= i < |cs| ==> WellFormed(cs[i])
  }

  /** A response opens with the question label of its first card. */
  lemma RenderStart(cs: seq<Card>)
    requires |cs| >= 1 && WellFormed(cs[0])
    ensures Render(cs) != [] && Render(cs)[0] == 'Q'
  {
    CanonicalShape(cs[0]);
  }

  /** Splitting the response on `####` and trimming gives back the cards in
      the format, one raw card per card. */
  lemma {:induction false} RenderChunks(cs: seq<Card>)
    requires |cs| >= 1 && AllWellFormed(cs)
    ensures DelimitedChunks(Render(cs)) == Canonicals(cs)
    decreases |cs|
  {
    var b := Canonical(cs[0]);
    assert WellFormed(cs[0]);
    CanonicalShape(cs[0]);
    if |cs| == 1 {
      ChunksWhole(b);
    } else {
      assert WellFormed(cs[1..][0]);
      RenderStart(cs[1..]);
      ChunksStep(b, Render(cs[1..]));
      RenderChunks(cs[1..]);
    }
  }

  /** Every raw card in the format yields its card back, in order. */
  lemma {:induction false} CanonicalsExtract(cs: seq<Card>)
    requires AllWellFormed(cs)
    ensures ExtractAll(Canonicals(cs)) == cs
  {
    if cs != [] {
      var x := Canonical(cs[0]);
      assert WellFormed(cs[0]);
      calc {
        ExtractAll(Canonicals(cs));
        { ExtractAllAppend([x], Canonicals(cs[1..])); }
        ExtractAll([x]) + ExtractAll(Canonicals(cs[1..]));
        { ExtractAllSingle(x); CanonicalRoundTrip(cs[0]); }
        [cs[0]] + ExtractAll(Canonicals(cs[1..]));
        { CanonicalsExtract(cs[1..]); }
        [cs[0]] + cs[1..];
      }
    }
  }

  /** The retry parser reads a response in the format back as its cards. */
  lemma RetryRoundTrip(cs: seq<Card>)
    requires |cs| >= 1 && AllWellFormed(cs)
    ensures ParseRetry(Render(cs)) == cs
  {
    RenderChunks(cs);
    CanonicalsExtract(cs);
  }
}
