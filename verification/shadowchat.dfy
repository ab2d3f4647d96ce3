/** The reply logic of the polling loop: which author to answer, how a
    generated reply is scrubbed of author names, and one iteration of the
    loop as a step over the last seen message id. The two HTTP calls are
    oracle inputs: the fetched batch (an empty batch stands for a failed
    fetch) and the completion endpoint's answer. */
module ShadowChat {
  import opened Wrappers
  import opened PyStrings
  import opened Lists

  datatype Author = Author(id: string, username: string)

  /** A message of the fetched batch; the batch is newest first. */
  datatype Message = Message(id: string, content: string, author: Author)

  /** BOT_USER_ID (`None` when the variable is unset) and the list parsed
      from IGNORE_USER_IDS. */
  datatype Config = Config(botUserId: Option<string>, ignoreUserIds: seq<string>)

  /** The loop's only state: `last_message_id`. */
  datatype LoopState = LoopState(lastMessageId: Option<string>)

  /** What the completion endpoint gave back. `HttpFailure` is a status
      that made `raise_for_status` raise; `Body` is a JSON body whose
      "choices" key may be absent (`None`). */
  datatype Completion = HttpFailure | Body(choices: Option<seq<Choice>>)

  /** A choice whose "message" or "content" key is absent has `content == None`. */
  datatype Choice = Choice(content: Option<string>)

  /** `generate_response` either returns a text or raises (an exception that
      the loop's blanket handler catches). */
  datatype Generated = Generated(text: string) | Raised

  /** A message sent as a threaded reply. */
  datatype Reply = Reply(content: string, replyTo: string)

  /** The new state and the reply sent, if any, by one loop iteration. */
  datatype StepResult = StepResult(state: LoopState, sent: Option<Reply>)

  const ErrorSentinel: string := "Error generating response."
  const FallbackText: string := "I don't know."

  // ---------------------------------------------------------------------
  // should_respond

  /** `should_respond(author_id)`: never the bot's own messages, never an
      ignored author, everybody else. */
  function ShouldRespond(cfg: Config, authorId: string): (b: bool)
    ensures !b <==> cfg.botUserId == Some(authorId) || authorId in cfg.ignoreUserIds
  {
    if cfg.botUserId == Some(authorId) || ListContains(cfg.ignoreUserIds, authorId) then false
    else true
  }

  // ---------------------------------------------------------------------
  // filter_usernames

  /** The set of lower-cased author names of a batch: every author's name
      is in it, it holds nothing else, and every name in it is already
      lower case. */
  function UsernameSet(messages: seq<Message>): (names: set<string>)
    ensures forall i :: 0 <= i < |messages| ==> Lower(messages[i].author.username) in names
    ensures forall n :: n in names ==>
              exists i :: 0 <= i < |messages| && n == Lower(messages[i].author.username)
    ensures forall n :: n in names ==> Lower(n) == n
  {
    set m | m in messages :: Lower(m.author.username)
  }

  /** `order` lists every element of `names` exactly once: one iteration
      order of a Python set, which the language leaves unspecified. */
  predicate Enumerates(order: seq<string>, names: set<string>) {
    && NoDuplicates(order)
    && (forall j :: 0 <= j < |order| ==> order[j] in names)
    && (forall n :: n in names ==> n in order)
  }

  /** One round of the scrub loop: when `u` occurs in the text ignoring
      case, delete `u`, then `u.lower()`, then `u.upper()`, each by a
      case-sensitive `replace`. */
  function ScrubName(text: string, u: string): (r: string)
    ensures |r| <= |text|
    ensures !Contains(Lower(text), Lower(u)) ==> r == text
  {
    if Contains(Lower(text), Lower(u)) then
      Replace(Replace(Replace(text, u, ""), Lower(u), ""), Upper(u), "")
    else
      text
  }

  /** The scrub loop over the names in iteration order; it never lengthens
      the text. */
  function ScrubNames(text: string, names: seq<string>): (r: string)
    ensures |r| <= |text|
    decreases |names|
  {
    if names == [] then text else ScrubNames(ScrubName(text, names[0]), names[1..])
  }

  /** `filter_usernames(response, messages)` with the set iterated in `order`:
      the result is whitespace-normalised. */
  function FilterUsernames(response: string, messages: seq<Message>, order: seq<string>): (r: string)
    requires Enumerates(order, UsernameSet(messages))
    ensures WellSpaced(r)
  {
    Normalize(ScrubNames(response, order))
  }

  lemma {:induction false} ScrubNamesNoMatch(text: string, names: seq<string>)
    requires forall j :: 0 <= j < |names| ==> !Contains(Lower(text), Lower(names[j]))
    ensures ScrubNames(text, names) == text
    decreases |names|
  {
    if names != [] {
      ScrubNamesNoMatch(text, names[1..]);
    }
  }

  /** When no author name occurs in the reply, even ignoring case, the reply
      is only whitespace-normalised. */
  lemma FilterNoMatch(response: string, messages: seq<Message>, order: seq<string>)
    requires Enumerates(order, UsernameSet(messages))
    requires forall n :: n in UsernameSet(messages) ==> !Contains(Lower(response), n)
    ensures FilterUsernames(response, messages, order) == Normalize(response)
  {
    assert forall j :: 0 <= j < |order| ==> Lower(order[j]) == order[j];
    ScrubNamesNoMatch(response, order);
  }

  lemma {:induction false} ScrubNamesExactCaseOnly(text: string, names: seq<string>)
    requires forall j :: 0 <= j < |names| ==> Lower(names[j]) == names[j]
    requires forall j :: 0 <= j < |names| ==> !Contains(text, names[j]) && !Contains(text, Upper(names[j]))
    ensures ScrubNames(text, names) == text
    decreases |names|
  {
    if names != [] {
      var u := names[0];
      ReplaceAbsent(text, u, "");
      ReplaceAbsent(text, Upper(u), "");
      ScrubNamesExactCaseOnly(text, names[1..]);
    }
  }

  /** Only the all-lower-case and all-upper-case forms of a name are
      deleted: a reply in which every name occurs only in some other casing
      (such as "Alice" for the name "alice") keeps them all. */
  lemma FilterExactCaseOnly(response: string, messages: seq<Message>, order: seq<string>)
    requires Enumerates(order, UsernameSet(messages))
    requires forall n :: n in UsernameSet(messages) ==> !Contains(response, n) && !Contains(response, Upper(n))
    ensures FilterUsernames(response, messages, order) == Normalize(response)
  {
    assert forall j :: 0 <= j < |order| ==> Lower(order[j]) == order[j];
    ScrubNamesExactCaseOnly(response, order);
  }

  /** The filter's output is normalised and normalising it again changes
      nothing. */
  lemma FilterIsNormalized(response: string, messages: seq<Message>, order: seq<string>)
    requires Enumerates(order, UsernameSet(messages))
    ensures Normalize(FilterUsernames(response, messages, order)) == FilterUsernames(response, messages, order)
  {
    NormalizeIdempotent(ScrubNames(response, order));
  }

  /** The filter with a single name spelled out: one scrub round, then
      normalisation. */
  lemma FilterOneName(response: string, messages: seq<Message>, u: string, a: string, b: string, c: string)
    requires Enumerates([u], UsernameSet(messages))
    requires Contains(Lower(response), Lower(u))
    requires Replace(response, u, "") == a && Replace(a, Lower(u), "") == b && Replace(b, Upper(u), "") == c
    ensures FilterUsernames(response, messages, [u]) == Normalize(c)
  {
    assert ScrubNames(response, [u]) == ScrubNames(ScrubName(response, u), []);
  }

  // ---------------------------------------------------------------------
  // generate_response (prompt building and the request are the oracle)

  /** `generate_response(messages)` given the completion endpoint's answer:
      the error sentinel on an HTTP failure; otherwise the first choice's
      content, or the fallback text when a key is missing, passed through
      `filter_usernames`. An empty "choices" list (or an empty batch) makes
      the indexing raise. */
  function GenerateResponse(messages: seq<Message>, completion: Completion, order: seq<string>): (g: Generated)
    requires Enumerates(order, UsernameSet(messages))
    ensures messages == [] ==> g == Raised
    ensures messages != [] && completion == HttpFailure ==> g == Generated(ErrorSentinel)
    ensures completion == Body(Some([])) ==> g == Raised
    ensures messages != [] && completion.Body? && completion.choices.Some?
            && completion.choices.value != [] && completion.choices.value[0].content.Some? ==>
              g == Generated(FilterUsernames(completion.choices.value[0].content.value, messages, order))
    ensures completion.Body? && g.Generated? ==> WellSpaced(g.text)
    ensures g.Generated? && completion.Body? ==>
              exists text :: g.text == FilterUsernames(text, messages, order)
  {
    if messages == [] then Raised
    else match completion
      case HttpFailure => Generated(ErrorSentinel)
      case Body(choices) =>
        if choices.Some? && choices.value == [] then Raised
        else
          var text := if choices.Some? && choices.value[0].content.Some?
                      then choices.value[0].content.value
                      else FallbackText;
          Generated(FilterUsernames(text, messages, order))
  }

  /** A body without "choices" yields the fallback text unchanged, provided
      no author name occurs in it. */
  lemma GenerateFallback(messages: seq<Message>, order: seq<string>)
    requires Enumerates(order, UsernameSet(messages))
    requires messages != []
    requires forall n :: n in UsernameSet(messages) ==> !Contains(Lower(FallbackText), n)
    ensures GenerateResponse(messages, Body(None), order) == Generated(FallbackText)
  {
    FallbackWellSpaced();
    FilterKeepsCleanText(FallbackText, messages, order);
  }

  /** A well-spaced reply in which no author name occurs, even ignoring
      case, passes the filter unchanged. */
  lemma FilterKeepsCleanText(response: string, messages: seq<Message>, order: seq<string>)
    requires Enumerates(order, UsernameSet(messages))
    requires WellSpaced(response)
    requires forall n :: n in UsernameSet(messages) ==> !Contains(Lower(response), n)
    ensures FilterUsernames(response, messages, order) == response
  {
    FilterNoMatch(response, messages, order);
    NormalizeWellSpaced(response);
  }

  lemma FallbackWellSpaced()
    ensures WellSpaced(FallbackText)
  {
    forall i | 0 <= i < |FallbackText|
      ensures SingleSpaceAt(FallbackText, i)
    {
      if IsSpace(FallbackText[i]) {
        assert i == 1 || i == 7;
      }
    }
  }

  // ---------------------------------------------------------------------
  // One iteration of main

  /** `not last_message_id or newest_id != last_message_id`: an absent or
      empty last id counts as nothing seen. */
  predicate IsNew(state: LoopState, newestId: string): (b: bool)
    ensures !b <==> newestId != [] && state.lastMessageId == Some(newestId)
  {
    state.lastMessageId.None? || state.lastMessageId.value == [] || newestId != state.lastMessageId.value
  }

  /** One pass of the `while True` body of `main`, given the fetched batch
      and the completion endpoint's answer. The sleeps are left out, and an
      exception from `generate_response` ends the pass with the id already
      recorded and nothing sent. */
  function Step(cfg: Config, state: LoopState, batch: seq<Message>, completion: Completion, order: seq<string>): (r: StepResult)
    requires Enumerates(order, UsernameSet(batch))
    ensures batch == [] ==> r == StepResult(state, None)
    ensures batch != [] && batch[0].id != [] && state.lastMessageId == Some(batch[0].id) ==>
              r == StepResult(state, None)
    ensures batch != [] && IsNew(state, batch[0].id) ==> r.state == LoopState(Some(batch[0].id))
    ensures r.sent.Some? ==>
              && batch != []
              && IsNew(state, batch[0].id)
              && ShouldRespond(cfg, batch[0].author.id)
              && r.sent.value.replyTo == batch[0].id
              && r.sent.value.content != []
              && r.sent.value.content != ErrorSentinel
              && WellSpaced(r.sent.value.content)
              && GenerateResponse(batch, completion, order) == Generated(r.sent.value.content)
    ensures r.sent.Some? <==>
              && batch != []
              && IsNew(state, batch[0].id)
              && ShouldRespond(cfg, batch[0].author.id)
              && completion.Body?
              && GenerateResponse(batch, completion, order).Generated?
              && GenerateResponse(batch, completion, order).text != []
              && GenerateResponse(batch, completion, order).text != ErrorSentinel
  {
    if batch != [] && IsNew(state, batch[0].id) then
      var latest := batch[0];
      var state' := LoopState(Some(latest.id));
      if ShouldRespond(cfg, latest.author.id) then
        match GenerateResponse(batch, completion, order)
        case Raised => StepResult(state', None)
        case Generated(response) =>
          if response != [] && response != ErrorSentinel then
            StepResult(state', Some(Reply(response, latest.id)))
          else
            StepResult(state', None)
      else
        StepResult(state', None)
    else
      StepResult(state, None)
  }

  /** When the newest message is new and its author is answered, and the
      first choice carries a text whose filtered form is neither empty nor
      the error sentinel, exactly that filtered text is sent, as a reply to
      the newest message. */
  lemma StepSendsFilteredText(cfg: Config, state: LoopState, batch: seq<Message>, choices: seq<Choice>,
                              order: seq<string>, text: string)
    requires Enumerates(order, UsernameSet(batch))
    requires batch != [] && IsNew(state, batch[0].id) && ShouldRespond(cfg, batch[0].author.id)
    requires choices != [] && choices[0].content == Some(text)
    requires FilterUsernames(text, batch, order) != []
    requires FilterUsernames(text, batch, order) != ErrorSentinel
    ensures Step(cfg, state, batch, Body(Some(choices)), order)
            == StepResult(LoopState(Some(batch[0].id)), Some(Reply(FilterUsernames(text, batch, order), batch[0].id)))
  {
    assert GenerateResponse(batch, Body(Some(choices)), order) == Generated(FilterUsernames(text, batch, order));
  }

  /** Fetching a batch whose newest id (non-empty) is the one just handled
      sends nothing and keeps the state, whatever the completion would be. */
  lemma RepeatedNewestIsIgnored(cfg: Config, state: LoopState, batch: seq<Message>, completion: Completion,
                                order: seq<string>, batch': seq<Message>, completion': Completion, order': seq<string>)
    requires Enumerates(order, UsernameSet(batch))
    requires Enumerates(order', UsernameSet(batch'))
    requires batch != [] && batch[0].id != []
    requires batch' != [] && batch'[0].id == batch[0].id
    ensures var first := Step(cfg, state, batch, completion, order);
            Step(cfg, first.state, batch', completion', order') == StepResult(first.state, None)
  {
    var first := Step(cfg, state, batch, completion, order);
    if !IsNew(state, batch[0].id) {
      assert state.lastMessageId == Some(batch[0].id);
    }
    assert first.state.lastMessageId == Some(batch[0].id);
  }

  /** Only the last id is remembered: after a step on a batch whose newest
      id differs, a batch whose newest id was handled before is treated
      exactly as by a fresh loop, so it is answered again. */
  lemma OnlyLastIdRemembered(cfg: Config, state: LoopState,
                             batchB: seq<Message>, completionB: Completion, orderB: seq<string>,
                             batchA: seq<Message>, completionA: Completion, orderA: seq<string>)
    requires Enumerates(orderB, UsernameSet(batchB))
    requires Enumerates(orderA, UsernameSet(batchA))
    requires batchB != [] && batchA != []
    requires batchB[0].id != batchA[0].id
    ensures Step(cfg, Step(cfg, state, batchB, completionB, orderB).state, batchA, completionA, orderA)
            == Step(cfg, LoopState(None), batchA, completionA, orderA)
  {
    var middle := Step(cfg, state, batchB, completionB, orderB).state;
    assert middle.lastMessageId == Some(batchB[0].id);
    assert IsNew(middle, batchA[0].id) && IsNew(LoopState(None), batchA[0].id);
  }

  /** A newest message whose id is the empty string is handled as new on
      every pass, whatever the state: `not last_message_id` holds again after
      recording it, so the same message is answered on each iteration. */
  lemma EmptyIdAlwaysNew(cfg: Config, state: LoopState, state': LoopState, batch: seq<Message>,
                         completion: Completion, order: seq<string>)
    requires Enumerates(order, UsernameSet(batch))
    requires batch != [] && batch[0].id == []
    ensures Step(cfg, state', batch, completion, order) == Step(cfg, state, batch, completion, order)
    ensures Step(cfg, state, batch, completion, order).state == LoopState(Some([]))
  {
    assert IsNew(state, batch[0].id) && IsNew(state', batch[0].id);
  }
}
