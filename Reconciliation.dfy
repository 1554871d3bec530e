/** The count reconciliation at the end of `generateFlashcards`
    (server/server.js:139-157): a surplus is cut to a prefix, a shortfall is
    padded with placeholder cards. */
module Reconciliation {
  import opened Parser

  // ---------------------------------------------------------------------
  // Decimal numerals, as a template literal renders a non-negative integer

  function DigitChar(d: nat): (c: char)
    requires d < 10
    ensures '0' <= c <= '9'
  {
    ('0' as int + d) as char
  }

  predicate IsDigits(s: string) {
    forall k :: 0 <= k < |s| ==> '0' <= s[k] <= '9'
  }

  /** The decimal numeral of `n`: its digits, most significant first, with
      no leading zero. */
  function Decimal(n: nat): (r: string)
    ensures IsDigits(r) && |r| >= 1
    ensures r[0] != '0' || n == 0
  {
    if n < 10 then [DigitChar(n)] else Decimal(n / 10) + [DigitChar(n % 10)]
  }

  /** The value a string of digits denotes. */
  function ValueOf(s: string): nat
    requires IsDigits(s)
  {
    if s == [] then 0 else ValueOf(s[..|s| - 1]) * 10 + (s[|s| - 1] as int - '0' as int)
  }

  /** Reading the numeral back gives the number. */
  lemma {:induction false} DecimalRoundTrip(n: nat)
    ensures ValueOf(Decimal(n)) == n
  {
    if n >= 10 {
      DecimalRoundTrip(n / 10);
      var r := Decimal(n);
      assert r[..|r| - 1] == Decimal(n / 10);
    }
  }

  /** Different numbers have different numerals. */
  lemma DecimalInjective(m: nat, n: nat)
    requires Decimal(m) == Decimal(n)
    ensures m == n
  {
    DecimalRoundTrip(m);
    DecimalRoundTrip(n);
  }

  // ---------------------------------------------------------------------
  // Placeholder cards (server/server.js:152-155)

  const QUESTION_HEAD: string := "Flashcard "
  const QUESTION_TAIL: string := " (Please regenerate for better content)"
  const PLACEHOLDER_ANSWER: string :=
    "This is a placeholder card. Please regenerate flashcards for better content."

  /** The placeholder card numbered `n`: the fixed answer, and a question
      that holds the number in decimal between its fixed head and tail, so
      that it can be read back. */
  function Placeholder(n: nat): (r: Card)
    ensures r.answer == PLACEHOLDER_ANSWER
    ensures var h, t := |QUESTION_HEAD|, |r.question| - |QUESTION_TAIL|;
      && h < t <= |r.question|
      && r.question[..h] == QUESTION_HEAD && r.question[t..] == QUESTION_TAIL
      && IsDigits(r.question[h..t]) && ValueOf(r.question[h..t]) == n
  {
    DecimalRoundTrip(n);
    var question := QUESTION_HEAD + Decimal(n) + QUESTION_TAIL;
    assert question[|QUESTION_HEAD|..|question| - |QUESTION_TAIL|] == Decimal(n);
    Card(question, PLACEHOLDER_ANSWER)
  }

  /** One more placeholder is the next number along. */
  lemma PlaceholdersStep(L: nat, m: nat)
    ensures Placeholders(L, m + 1) == Placeholders(L, m) + [Placeholder(L + 2 * m + 1)]
  {
  }

  /** Pushing the next placeholder onto a list padded with `i` of them. */
  lemma PadStep(before: seq<Card>, items: seq<Card>, L: nat, i: nat)
    requires |items| == L + i && items == before + Placeholders(L, i)
    ensures items + [Placeholder(|items| + i + 1)] == before + Placeholders(L, i + 1)
  {
    PlaceholdersStep(L, i);
  }

  /** Placeholders with different numbers have different questions. */
  lemma PlaceholderQuestionInjective(m: nat, n: nat)
    requires Placeholder(m).question == Placeholder(n).question
    ensures m == n
  {
    var qm, qn := Placeholder(m).question, Placeholder(n).question;
    var h := |QUESTION_HEAD|;
    assert |Decimal(m)| == |Decimal(n)|;
    assert qm[h..h + |Decimal(m)|] == Decimal(m);
    assert qn[h..h + |Decimal(n)|] == Decimal(n);
    DecimalInjective(m, n);
  }

  /** The contrapositive of `PlaceholderQuestionInjective`. */
  lemma PlaceholderQuestionsDiffer(m: nat, n: nat)
    requires m != n
    ensures Placeholder(m).question != Placeholder(n).question
  {
    if Placeholder(m).question == Placeholder(n).question {
      PlaceholderQuestionInjective(m, n);
    }
  }

  /** The first `m` placeholders pushed onto a list of `L` cards. The loop
      numbers each card by the current length of the list plus its index
      plus one, and the list grows by one card per step. */
  function Placeholders(L: nat, m: nat): (r: seq<Card>)
    ensures |r| == m
    ensures forall i :: 0 <= i < m ==> r[i] == Placeholder(L + 2 * i + 1)
  {
    if m == 0 then []
    else
      var front := Placeholders(L, m - 1);
      var r := front + [Placeholder(L + 2 * (m - 1) + 1)];
      assert forall i :: 0 <= i < m - 1 ==> r[i] == front[i];
      r
  }

  /** The placeholders all carry the same answer and their questions are
      pairwise different. */
  lemma PlaceholdersDistinct(L: nat, m: nat)
    ensures forall i :: 0 <= i < m ==> Placeholders(L, m)[i].answer == PLACEHOLDER_ANSWER
    ensures forall i, j :: 0 <= i < j < m ==> Placeholders(L, m)[i].question != Placeholders(L, m)[j].question
  {
    var r := Placeholders(L, m);
    forall i, j | 0 <= i < j < m
      ensures r[i].question != r[j].question
    {
      PlaceholderQuestionsDiffer(L + 2 * i + 1, L + 2 * j + 1);
    }
  }

  // ---------------------------------------------------------------------
  // The reconciled list

  /** What `generateFlashcards` returns for the parsed cards `cards` when
      `count` were asked for. */
  function Reconciled(cards: seq<Card>, count: nat): (r: seq<Card>)
    ensures |r| == count
  {
    if |cards| > count then cards[..count]
    else if |cards| < count then cards + Placeholders(|cards|, count - |cards|)
    else cards
  }

  /** A surplus keeps the first `count` cards in order; a list of the right
      length comes back unchanged. */
  lemma ReconciledSurplus(cards: seq<Card>, count: nat)
    requires |cards| >= count
    ensures Reconciled(cards, count) == cards[..count]
    ensures |cards| == count ==> Reconciled(cards, count) == cards
  {
  }

  /** A shortfall keeps every card in order and appends placeholders
      numbered `L + 1, L + 3, …` with the common placeholder answer. */
  lemma ReconciledShortfall(cards: seq<Card>, count: nat)
    requires |cards| < count
    ensures Reconciled(cards, count)[..|cards|] == cards
    ensures forall i :: |cards| <= i < count ==>
      Reconciled(cards, count)[i] == Placeholder(|cards| + 2 * (i - |cards|) + 1)
    ensures forall i, j :: |cards| <= i < j < count ==>
      Reconciled(cards, count)[i].question != Reconciled(cards, count)[j].question
  {
    var r := Reconciled(cards, count);
    var ph := Placeholders(|cards|, count - |cards|);
    assert r == cards + ph;
    PlaceholdersDistinct(|cards|, count - |cards|);
    forall i, j | |cards| <= i < j < count
      ensures r[i].question != r[j].question
    {
      assert r[i] == ph[i - |cards|] && r[j] == ph[j - |cards|];
    }
  }

  /** Every card that fits within `count` keeps its place. */
  lemma ReconciledKeeps(cards: seq<Card>, count: nat)
    ensures forall i :: 0 <= i < |cards| && i < count ==> Reconciled(cards, count)[i] == cards[i]
  {
    if |cards| < count {
      ReconciledShortfall(cards, count);
      var r := Reconciled(cards, count);
      forall i | 0 <= i < |cards| ensures r[i] == cards[i] {
        assert r[..|cards|][i] == cards[i];
      }
    }
  }

  /** Three cards for five wanted: the cards, then the placeholders
      numbered 4 and 6. */
  lemma PadExample(cards: seq<Card>)
    requires |cards| == 3
    ensures Reconciled(cards, 5) == cards + [Placeholder(4), Placeholder(6)]
  {
    assert Placeholders(3, 2) == [Placeholder(4), Placeholder(6)];
  }

  /** Reconciling twice changes nothing more. */
  lemma ReconciledIdempotent(cards: seq<Card>, count: nat)
    ensures Reconciled(Reconciled(cards, count), count) == Reconciled(cards, count)
  {
  }

  // ---------------------------------------------------------------------
  // The JavaScript array the server mutates

  /** A JavaScript array of flashcards. Variables that hold the same array
      see each other's pushes. */
  class CardList {
    var items: seq<Card>

    constructor (cards: seq<Card>)
      ensures items == cards
    {
      items := cards;
    }

    function Length(): nat
      reads this
    {
      |items|
    }

    /** `push(card)`. */
    method Push(card: Card)
      modifies this
      ensures items == old(items) + [card]
    {
      items := items + [card];
    }

    /** `push(...cards)`. */
    method PushAll(cards: seq<Card>)
      modifies this
      ensures items == old(items) + cards
    {
      items := items + cards;
    }

    /** `slice(0, n)`: a new array with the first `n` cards. */
    method Prefix(n: nat) returns (r: CardList)
      requires n <= |items|
      ensures fresh(r) && r.items == items[..n]
    {
      r := new CardList(items[..n]);
    }
  }

  /** The reconciliation as the server writes it. `final` starts as the very
      array `flashcards`, so each placeholder pushed onto it lengthens
      `flashcards` too, and the number in the next placeholder's question
      moves on by two. */
  method Reconcile(flashcards: CardList, count: nat) returns (final: CardList)
    modifies flashcards
    ensures final.items == Reconciled(old(flashcards.items), count)
    ensures |old(flashcards.items)| <= count ==> final == flashcards
    ensures |old(flashcards.items)| > count ==> fresh(final) && flashcards.items == old(flashcards.items)
  {
    final := flashcards;
    if flashcards.Length() > count {
      final := flashcards.Prefix(count);
    } else if flashcards.Length() < count {
      PadPlaceholders(final, flashcards, count - flashcards.Length());
    }
  }

  /** The padding loop: push `missing` placeholders onto `final`, numbering
      each by the current length of `flashcards` plus its index plus one.
      The two are the same array, so the number moves on by two per card. */
  method PadPlaceholders(final: CardList, flashcards: CardList, missing: nat)
    requires final == flashcards
    modifies flashcards
    ensures flashcards.items == old(flashcards.items) + Placeholders(|old(flashcards.items)|, missing)
  {
    ghost var before, L := flashcards.items, flashcards.Length();
    for i := 0 to missing
      invariant |flashcards.items| == L + i
      invariant flashcards.items == before + Placeholders(L, i)
    {
      PadStep(before, flashcards.items, L, i);
      final.Push(Placeholder(flashcards.Length() + i + 1));
    }
  }
}
