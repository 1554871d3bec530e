/** `generateFlashcards(text, count)` (server/server.js:21-169): one request
    to the chat model, the parse of its answer, at most one retry request
    when too few cards came back, and the count reconciliation. The chat
    model is a parameter, and an exception thrown anywhere in the
    `try` block is a response of `None`. */
module Generator {
  import opened Wrappers
  import opened Parser
  import opened Reconciliation

  /** The two prompts the server sends: the first one, and the stricter one
      of the retry that insists on `####` between cards. */
  datatype PromptKind = Initial | Retry

  /** A chat completion request: which prompt, about which text, for how
      many cards. */
  datatype Request = Request(kind: PromptKind, text: string, count: nat)

  /** `flashcards.push(...secondParsedFlashcards)`: the cards of the second
      response, which is always split on `####`, after those of the first,
      each list in its own order and nothing removed. */
  function WithRetry(first: seq<Card>, second: string): (r: seq<Card>)
    ensures |r| <= |first| + |DelimitedChunks(second)|
    ensures |first| <= |r| && r[..|first|] == first && r[|first|..] == ParseRetry(second)
  {
    first + ParseRetry(second)
  }

  /** What `generateFlashcards` returns when the first request is answered
      by `first` and the retry request, if it is made, by `second`. */
  function Outcome(first: Option<string>, second: Option<string>, count: nat): (r: seq<Card>)
    ensures r == [] || |r| == count
    ensures first.None? ==> r == []
  {
    match first
    case None => []
    case Some(content) =>
      var cards := ParseFirst(content);
      if |cards| < count then
        match second
        case None => []
        case Some(secondContent) => Reconciled(WithRetry(cards, secondContent), count)
      else Reconciled(cards, count)
  }

  /** Whether the run ends in the `catch` block: the first request fails,
      or the retry is needed and fails. */
  predicate Fails(first: Option<string>, second: Option<string>, count: nat): (b: bool)
    ensures count >= 1 ==> (b <==> Outcome(first, second, count) == [])
  {
    first.None? || (|ParseFirst(first.value)| < count && second.None?)
  }

  /** The body of `generateFlashcards`. `calls` records the requests made. */
  method GenerateFlashcards(text: string, count: nat, complete: Request -> Option<string>)
    returns (result: seq<Card>, ghost calls: seq<Request>)
    requires |text| > 0 && count >= 1
    ensures result == Outcome(complete(Request(Initial, text, count)), complete(Request(Retry, text, count)), count)
    ensures 1 <= |calls| <= 2 && calls[0] == Request(Initial, text, count)
    ensures |calls| == 2 <==>
      complete(calls[0]).Some? && |ParseFirst(complete(calls[0]).value)| < count
    ensures |calls| == 2 ==> calls[1] == Request(Retry, text, count)
  {
    var request := Request(Initial, text, count);
    calls := [request];
    var response := complete(request);
    if response.None? {
      return [], calls;
    }
    var content := response.value;
    var rawFlashcards: seq<string>;
    if HasDelimiter(content) {
      rawFlashcards := DelimitedChunks(content);
    } else {
      rawFlashcards := ScanUndelimited(content);
    }
    var flashcards := new CardList(ExtractAll(rawFlashcards));
    ghost var cards := ParseFirst(content);
    assert flashcards.items == cards;
    if flashcards.Length() < count {
      var retry := Request(Retry, text, count);
      calls := calls + [retry];
      var secondResponse := complete(retry);
      if secondResponse.None? {
        return [], calls;
      }
      var secondParsed := ParseRetry(secondResponse.value);
      if |secondParsed| > 0 {
        flashcards.PushAll(secondParsed);
      }
      assert flashcards.items == WithRetry(cards, secondResponse.value);
    }
    var finalFlashcards := Reconcile(flashcards, count);
    result := finalFlashcards.items;
  }

  /** Every run that does not end in the `catch` block returns exactly
      `count` cards; one that does returns none. */
  lemma OutcomeLength(first: Option<string>, second: Option<string>, count: nat)
    requires count >= 1
    ensures !Fails(first, second, count) <==> |Outcome(first, second, count)| == count
    ensures Fails(first, second, count) ==> Outcome(first, second, count) == []
  {
  }

  /** The cards of the first response come first, in order, and those of
      the retry follow them, in order and without deduplication, as far as
      `count` allows. */
  lemma OutcomeOrder(content: string, second: Option<string>, count: nat)
    requires !Fails(Some(content), second, count)
    ensures var cards, r := ParseFirst(content), Outcome(Some(content), second, count);
      forall i :: 0 <= i < |cards| && i < count ==> r[i] == cards[i]
    ensures var cards, r := ParseFirst(content), Outcome(Some(content), second, count);
      |cards| < count ==>
      var retry := ParseRetry(second.value);
      forall j :: 0 <= j < |retry| && |cards| + j < count ==> r[|cards| + j] == retry[j]
  {
    var cards, r := ParseFirst(content), Outcome(Some(content), second, count);
    var retry := if |cards| < count then ParseRetry(second.value) else [];
    OrderOf(cards, retry, r, count);
  }

  /** The order of `Reconciled` in terms of the two lists it is given. */
  lemma OrderOf(cards: seq<Card>, retry: seq<Card>, r: seq<Card>, count: nat)
    requires r == Reconciled(if |cards| < count then cards + retry else cards, count)
    ensures forall i :: 0 <= i < |cards| && i < count ==> r[i] == cards[i]
    ensures |cards| < count ==>
      forall j :: 0 <= j < |retry| && |cards| + j < count ==> r[|cards| + j] == retry[j]
  {
    var all := if |cards| < count then cards + retry else cards;
    ReconciledKeeps(all, count);
    assert forall i :: 0 <= i < |cards| ==> all[i] == cards[i];
  }

  /** When the first response already holds exactly `count` cards, they are
      returned as they are and no retry is made. */
  lemma OutcomeExact(content: string, second: Option<string>, count: nat)
    requires |ParseFirst(content)| == count
    ensures Outcome(Some(content), second, count) == ParseFirst(content)
  {
  }

  /** The retry answer matters only when the first pass is short. */
  lemma OutcomeIgnoresRetry(content: string, second: Option<string>, other: Option<string>, count: nat)
    requires |ParseFirst(content)| >= count
    ensures Outcome(Some(content), second, count) == Outcome(Some(content), other, count)
  {
  }
}
