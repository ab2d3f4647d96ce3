# ShadowChat reply logic in Dafny

ShadowChat is a single-threaded chat bot. It polls a channel for its newest
messages. It decides whether to answer the newest one, asks a
text-completion endpoint for a reply, scrubs author names out of the reply,
and posts the result as a threaded reply. This project models the
deterministic logic inside that loop, along with the pure helpers of
`utils.py`, and proves what they guarantee.

- `wrappers.dfy` holds two modules. `Wrappers` has `Option`. `Lists` has
  Python's list `in` (`ListContains`) and `NoDuplicates`.
- `py_strings.dfy` (`PyStrings`) defines the ASCII versions of the Python
  string operations the code uses: `lower`, `upper`, `in`, `startswith`,
  `replace`, `split()`, `split(maxsplit=1)` and `" ".join`. It also holds
  the lemmas that relate them, such as the split/join round trip and the
  link between `replace` and `in`.
- `shadowchat.dfy` (`ShadowChat`) covers `should_respond`,
  `filter_usernames`, the text-extraction part of `generate_response`, and
  one iteration of `main` as `Step`.
- `utils.dfy` (`Utils`) covers the hour test of `should_be_active`,
  `filter_sensitive_content`, the message-id cache and `extract_command`.
- `examples.dfy` (`Examples`) works concrete inputs through the model.

The two HTTP calls are oracle inputs to `Step`:

- the fetched batch, newest first, where an empty batch also stands for a
  failed fetch;
- the completion endpoint's answer, which is an HTTP failure or a JSON body
  whose keys may be missing.

Python iterates a set in an unspecified order. `filter_usernames` iterates
its set of names, and the result can depend on that order, so the model
takes the order as an input `order`. The `Enumerates` precondition requires
`order` to list each name exactly once.

Some behaviour of the code is easy to misread from its names and comments.
The model follows the code:

- `filter_usernames` (docstring at shadowchat.py:102: "filter out any
  accidental username mentions") lower-cases the names before the loop
  (shadowchat.py:104). The `replace(username, "")` and
  `replace(username.lower(), "")` calls then delete the same lower-case
  form, and the third call deletes the upper-case form. A mention in any
  other casing is never deleted as a mention of its own, although
  `username.lower() in ...lower()` detects it. `FilterMixedCaseSurvives`
  shows "Al" surviving. Such a mention can still lose characters when it
  overlaps a lower-case or upper-case occurrence that is deleted: for the
  author "ana", the reply "Anana" loses the "ana" at index 2 and ends as
  "An" (`FilterOverlapCutsMention`).
- The scrub does not remove every mention. A deletion can join the text
  on either side into a new occurrence (`FilterCanLeaveName`: "aaabbb"
  with the name "ab" ends as "ab").
- The comment at shadowchat.py:93 says the filter catches accidental
  mentions; the fallback "I don't know." on line 94 is used only when a
  key is missing. An empty `choices` list makes `[0]` raise `IndexError`
  (shadowchat.py:94). `main`'s handler catches it after `last_message_id`
  has already been updated. The model's `Raised` outcome covers that case.
- `main` skips a message whose id equals `last_message_id`, but only when
  that id is truthy (`not last_message_id`, shadowchat.py:154). An id that
  is the empty string is therefore answered on every pass
  (`EmptyIdAlwaysNew`).
- `main` remembers only the last handled id (`last_message_id`,
  shadowchat.py:154-156); the message-id cache in utils.py is not used by
  the loop. An id that becomes the newest again after a different one, for
  example once the newer message is deleted, is answered a second time
  (`OnlyLastIdRemembered`).

## Model

| member | source | states |
|---|---|---|
| ShadowChat.ShouldRespond | shadowchat.py:137-142 | False exactly when the author id is the bot's own id or appears in the ignore list; true for every other author. |
| Lists.ListContains | shadowchat.py:140 | Python's list `in` scan is true exactly when some index holds the element. |
| ShadowChat.Step | shadowchat.py:150-167 | An empty batch leaves the state unchanged and sends nothing. A newest id equal to a non-empty last id does the same. Otherwise the newest id is recorded, even when the author is not answered. A reply is sent exactly when the newest message is new, `should_respond` holds, the completion gave a body, and the generated text is non-empty and not the error sentinel. The text sent is exactly the generated response, which is whitespace-normalised, and the reply goes to the newest id. |
| ShadowChat.StepSendsFilteredText | shadowchat.py:159-165 | When the newest message is new, its author is answered, and the first choice's text filters to something that is neither empty nor the error sentinel, the step records the newest id and sends exactly that filtered text as a reply to it. |
| ShadowChat.IsNew | shadowchat.py:154 | A newest id counts as already handled exactly when it is non-empty and equal to the last id. |
| ShadowChat.RepeatedNewestIsIgnored | shadowchat.py:154-156 | After any step on a batch whose newest id is non-empty, the next batch with the same newest id sends nothing and keeps the state, whatever the completion. |
| ShadowChat.OnlyLastIdRemembered | shadowchat.py:154-156 | Only the last handled id is remembered. After a step on a batch with a different newest id, a batch is handled exactly as a fresh loop would handle it, even if its newest id was answered before. |
| ShadowChat.EmptyIdAlwaysNew | shadowchat.py:154-156 | A newest id that is the empty string is treated as new whatever the state, so every pass answers it again. |
| Examples.StepExample | shadowchat.py:150-167 | Worked case: a fresh loop answers message "2" by "alice". The completion "hi alice" is scrubbed to "hi" and sent as a reply to "2". A second pass over the same batch sends nothing. |
| ShadowChat.GenerateResponse | shadowchat.py:89-98 | An HTTP failure gives the error sentinel. An empty `choices` list, or an empty batch, raises. A first choice with content yields that content passed through `filter_usernames`. Any text produced from a body is whitespace-normalised and is the filter's output on some text. |
| ShadowChat.GenerateFallback | shadowchat.py:94-95 | A body without "choices" yields exactly "I don't know.", provided no author name occurs in it. |
| ShadowChat.FilterUsernames | shadowchat.py:101-116 | The result has no leading or trailing whitespace, no whitespace other than single spaces, and no two adjacent spaces. |
| ShadowChat.FilterIsNormalized | shadowchat.py:115 | Normalising the filter's output again changes nothing. |
| ShadowChat.FilterNoMatch | shadowchat.py:104-115 | If no lower-cased name occurs in the lower-cased reply, the result is just the whitespace-normalised reply. |
| ShadowChat.FilterKeepsCleanText | shadowchat.py:104-115 | A well-spaced reply that contains no name passes through unchanged. |
| ShadowChat.FilterExactCaseOnly | shadowchat.py:104-112 | Only the lower-case and upper-case forms of a name are deleted. If neither form occurs, the reply is only normalised, even when the name occurs in another casing. |
| ShadowChat.ScrubName | shadowchat.py:109-112 | One round of the loop never lengthens the text. When the name does not occur in the text ignoring case, the text is unchanged. |
| ShadowChat.ScrubNames | shadowchat.py:108-112 | The whole deletion loop never lengthens the text. |
| ShadowChat.UsernameSet | shadowchat.py:104 | The set holds exactly the lower-cased author names: every author's lower-cased name is in it, and every element is the lower-cased name of some author. Every name in it is therefore already lower case, so `username.lower()` is the name itself. |
| Examples.FilterMixedCaseSurvives | shadowchat.py:104-115 | Worked case: for the author "Al", "Al al" becomes "Al". The lower-case form is deleted and the capitalised form survives. |
| Examples.FilterCanLeaveName | shadowchat.py:108-115 | Worked case: "aaabbb" with the name "ab" ends as "ab", which still contains the name. |
| PyStrings.Lower | shadowchat.py:104 | `str.lower()` keeps the length, maps each ASCII upper-case letter to its lower-case form and leaves every other character, so no upper-case ASCII letter remains. |
| PyStrings.Upper | shadowchat.py:112 | `str.upper()` keeps the length, maps each ASCII lower-case letter to its upper-case form and leaves every other character, so no lower-case ASCII letter remains. |
| PyStrings.LowerOfUpper | shadowchat.py:109-112 | Lower-casing the upper-case form of a string gives the same text as lower-casing the string, so the case-insensitive test at line 109 cannot tell the two apart. |
| PyStrings.StartsWith | utils.py:95 | `content.startswith(prefix)` holds exactly when the prefix occurs at index 0. |
| PyStrings.StartsWithIsPrefix | utils.py:95 | `content.startswith(prefix)` holds exactly when the content is the prefix followed by some text. |
| Examples.FilterOverlapCutsMention | shadowchat.py:104-115 | Worked case: for the author "ana", "Anana" becomes "An". The deleted lower-case occurrence overlaps the capitalised mention and cuts it. |
| PyStrings.Normalize | shadowchat.py:115 | `" ".join(s.split())` has no leading or trailing whitespace, and each whitespace character in it is a single space followed by a non-whitespace character. |
| PyStrings.Split | shadowchat.py:115 | Every part returned by `split()` is non-empty and holds no whitespace. |
| PyStrings.JoinSpace | shadowchat.py:115 | A `" ".join` of a non-empty list is as long as all parts together plus one separator between each pair of neighbours. |
| PyStrings.NormalizeIdempotent | shadowchat.py:115 | `" ".join(s.split())` applied twice is the same as applied once. |
| PyStrings.NormalizeKeepsText | shadowchat.py:115 | Normalisation keeps every non-whitespace character, in order. |
| PyStrings.NormalizeWellSpaced | shadowchat.py:115 | A string that is already well spaced is normalised to itself. |
| PyStrings.SplitJoin | shadowchat.py:115 | Splitting a space-join of words gives the words back. |
| PyStrings.Replace | shadowchat.py:110-112 | `replace` by a string no longer than the pattern never lengthens the text, and by a string of the same length keeps the length. |
| PyStrings.Contains | shadowchat.py:109 | `p in s` is true exactly when `p` occurs at some index of `s`. |
| PyStrings.ReplaceAbsent | shadowchat.py:110-112 | `replace` of a pattern that does not occur returns the string unchanged. |
| PyStrings.DeleteShrinks | shadowchat.py:110-112 | Deleting with `replace(p, "")` never lengthens a string, and strictly shortens it when a non-empty `p` occurs. |
| Utils.DayKindOf | utils.py:35 | The day kind is "weekend" exactly when the weekday (Monday = 0) is at least 5. |
| Utils.ActiveHours | utils.py:39 | A missing day kind or a missing "active_hours" key reads as the empty list of windows. Otherwise the list is the one stored under that key. |
| Utils.ShouldBeActive | utils.py:30-43 | True exactly when some window of the day kind's `active_hours` satisfies `start <= hour < end`. Weekend means weekday >= 5. A missing day kind or a missing `active_hours` gives false. |
| Utils.MaskWords | utils.py:61-65 | The loop over the words keeps the length of the text, and each position either keeps its character or becomes `*`. |
| Utils.FilterSensitiveContent | utils.py:57-67 | The output has the length of the input, and each position either keeps its character or becomes `*`. |
| Utils.SensitiveUnchangedWhenAbsent | utils.py:61-63 | If no word occurs in the original text ignoring case, the text comes back unchanged. |
| Utils.SensitiveExactCaseOnly | utils.py:63-65 | Detection ignores case but replacement does not. If no word occurs with its exact casing, nothing is masked. |
| Utils.SensitiveWordMasked | utils.py:62-65 | A detected, non-empty word without `*` has no exact-case occurrence left in the output. |
| Utils.Stars | utils.py:65 | `'*' * len(word)` is a string of exactly that many characters, each of them `*`. |
| PyStrings.ReplaceByFill | utils.py:65 | Replacing a word by as many copies of one character as it has letters keeps the length, and changes positions only to that character. |
| PyStrings.MaskLeavesNoMatch | utils.py:65 | After masking, a word can still be found only if it contains the mask character. |
| PyStrings.FillCreatesNoMatch | utils.py:62-65 | Turning characters into the mask character creates no new occurrence of a word that lacks that character. |
| Examples.SensitiveExample | utils.py:61-65 | Worked case: "ab" is detected in "Ab" but masks nothing there, while "xab" becomes "x**". |
| Utils.CreateMessageIdCache | utils.py:70-74 | A new cache is empty, whatever the capacity (default 100). |
| Utils.UpdateMessageCache | utils.py:77-88 | A known id leaves the cache equal to the input. A new id becomes the last element. Nothing is evicted while the cache is below capacity. Otherwise exactly the oldest element is removed. |
| Utils.CacheInvariant | utils.py:77-88 | A cache within a non-negative capacity and free of duplicates stays so. With capacity at least 1, it holds the id just offered. |
| Utils.CacheRepeatIsNoOp | utils.py:77-88 | For every capacity, zero and negative ones included, offering the same id twice in a row changes nothing the second time. |
| Utils.CacheStream | utils.py:77-88 | Over any stream of ids, starting from any cache within capacity and free of duplicates, the cache stays within capacity and free of duplicates. It holds only ids it started with or was offered, and it holds the last one offered. |
| Utils.ExtractCommand | utils.py:91-102 | Content without the prefix yields `(None, content)` unchanged. With the prefix, a command is always returned. The prefix defaults to "!". |
| Utils.ExtractCommandWords | utils.py:98-102 | The command is the lower-cased first word after the prefix and holds no whitespace. Whitespace alone after the prefix gives `("", "")`. The arguments are a tail of the content that does not start with whitespace and splits into the remaining words. Together these fix the arguments as the rest of the text after the whitespace that follows the command, with inner and trailing whitespace kept. |
| Examples.CommandExample | utils.py:91-102 | Worked case: with the default prefix, "!Go b  c " gives the command "go" and the arguments "b  c ", with the double space and the trailing space kept. |
| PyStrings.SplitOnce | utils.py:98 | `split(maxsplit=1)` returns at most two parts. |
| PyStrings.SplitOnceAgrees | utils.py:98 | `split(maxsplit=1)` has the same first word as `split()`. Its remainder splits into the remaining words and is a tail of the input. |
| PyStrings.SplitOnceRestSuffix | utils.py:98 | The remainder of `split(maxsplit=1)` is the input's own tail, so the whitespace inside it and at its end is kept. |

## Left out

- HTTP calls: `get_latest_messages`, `send_message` and `handle_http_error` (shadowchat.py:43-64, 119-134) are network I/O. A failed fetch is an empty batch given to `Step`. A send's success or failure does not change the loop's state, so it is not modelled.
- Prompt building in `generate_response` (shadowchat.py:67-88): the JSON request is a thin wrapper over the completion endpoint. Only its answer is modelled, as the `Completion` input.
- A `content` value that is JSON `null`, a body that is not JSON, a newest message (`messages[0]`, the only one whose "id" is read, at shadowchat.py:154 and :156) without an "id" key, and a message without an "author" key all raise in Python. They are not modelled. The model's messages and completion bodies are always well-formed.
- `time.sleep`, the cooldown after a send, the rate-limit backoff, and the `except Exception` retry in `main` are timing behaviour. The only exception that `Step` models is the `IndexError` of an empty choices list.
- Console output (`print`) is left out.
- `simulate_typing` and `get_response_delay` (utils.py:11-27, 46-54) use randomness and floating point.
- The clock: `should_be_active` reads `datetime.now()`. The model takes the weekday (0 = Monday) and the hour as inputs instead.
- Environment and configuration loading (shadowchat.py:16-40) are left out. The model takes `BOT_USER_ID` and the parsed ignore list as a `Config`. Note that an unset `IGNORE_USER_IDS` parses to `[""]`, which ignores an author whose id is empty.
- Utils.UpdateMessageCache: Python's `append` and `pop(0)` (utils.py:84, 86) change the caller's list in place, and the function returns that same list object. The model returns a new sequence, so aliasing and the in-place update are not modelled. Only the returned contents are.
- Threading of the reply: `send_message` attaches `message_reference` only when `reply_to` is truthy (shadowchat.py:123). For a newest id that is the empty string (see `EmptyIdAlwaysNew`), the post is therefore not threaded. The model's `Reply.replyTo` records the id passed, not whether the post was threaded.
- Unicode: `lower`, `upper` and `split` are modelled on ASCII letters and ASCII whitespace only. Python maps every Unicode letter and space.
- ShadowChat.GenerateResponse: when the "choices", "message" or "content" key is missing, the contract only says that the text went through the filter. `GenerateFallback` pins the text down for a body without "choices" when no author name occurs in the fallback.
