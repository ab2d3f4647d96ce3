/** The helper utilities of the bot: the activity-window test, the
    sensitive-word redactor, the bounded message-id cache and the command
    parser. The clock lookup, the random delays and the typing simulation
    are not part of this module. */
module Utils {
  import opened Wrappers
  import opened PyStrings
  import opened Lists

  // ---------------------------------------------------------------------
  // Activity window (should_be_active without the clock)

  /** The two keys of the activity-pattern dictionary. */
  datatype DayKind = Weekday | Weekend

  /** One `(start_hour, end_hour)` entry of `active_hours`. */
  datatype HourRange = HourRange(start: int, end: int)

  /** The per-day-kind entry; `None` when the "active_hours" key is absent
      (the "response_delay" key is not used by the hour test). */
  datatype DayPattern = DayPattern(activeHours: Option<seq<HourRange>>)

  type ActivityPatterns = map<DayKind, DayPattern>

  /** `"weekend" if weekday >= 5 else "weekday"`, with Monday as 0. */
  function DayKindOf(weekday: int): (k: DayKind)
    ensures k == Weekend <==> weekday >= 5
  {
    if weekday >= 5 then Weekend else Weekday
  }

  /** `patterns.get(kind, {}).get("active_hours", [])` */
  function ActiveHours(patterns: ActivityPatterns, kind: DayKind): (ws: seq<HourRange>)
    ensures kind !in patterns || patterns[kind].activeHours.None? ==> ws == []
    ensures kind in patterns && patterns[kind].activeHours.Some? ==> ws == patterns[kind].activeHours.value
  {
    if kind in patterns && patterns[kind].activeHours.Some? then
      patterns[kind].activeHours.value
    else
      []
  }

  predicate InRange(w: HourRange, hour: int) {
    w.start <= hour < w.end
  }

  /** The hour test of `should_be_active` for the day `weekday` (0..6) and
      the hour `hour` (0..23): the first matching window answers true. */
  method ShouldBeActive(patterns: ActivityPatterns, weekday: int, hour: int) returns (active: bool)
    ensures active <==> exists i :: 0 <= i < |ActiveHours(patterns, DayKindOf(weekday))|
                                    && InRange(ActiveHours(patterns, DayKindOf(weekday))[i], hour)
    ensures DayKindOf(weekday) !in patterns ==> !active
    ensures DayKindOf(weekday) in patterns && patterns[DayKindOf(weekday)].activeHours.None? ==> !active
  {
    var windows := ActiveHours(patterns, DayKindOf(weekday));
    var i := 0;
    while i < |windows|
      invariant 0 <= i <= |windows|
      invariant forall j :: 0 <= j < i ==> !InRange(windows[j], hour)
    {
      var w := windows[i];
      if w.start <= hour && hour < w.end {
        return true;
      }
      i := i + 1;
    }
    return false;
  }

  // ---------------------------------------------------------------------
  // Sensitive-word redaction

  /** `'*' * n` */
  function Stars(n: nat): (r: string)
    ensures |r| == n
    ensures forall i :: 0 <= i < n ==> r[i] == '*'
  {
    seq(n, _ => '*')
  }

  /** The loop of `filter_sensitive_content`: each word is looked for
      case-insensitively against the lower-cased ORIGINAL text `lowerText`,
      but replaced case-sensitively in the current text. */
  function MaskWords(text: string, lowerText: string, words: seq<string>): (r: string)
    ensures |r| == |text|
    ensures forall i :: 0 <= i < |text| ==> r[i] == text[i] || r[i] == '*'
    decreases |words|
  {
    if words == [] then text
    else
      var w := words[0];
      var next := if Contains(lowerText, Lower(w)) then Replace(text, w, Stars(|w|)) else text;
      ReplaceByFill(text, w, Stars(|w|), '*');
      MaskWords(next, lowerText, words[1..])
  }

  /** `filter_sensitive_content(text, sensitive_words)`: same length, and every
      position either keeps its character or becomes an asterisk. */
  function FilterSensitiveContent(text: string, sensitiveWords: seq<string>): (r: string)
    ensures |r| == |text|
    ensures forall i :: 0 <= i < |text| ==> r[i] == text[i] || r[i] == '*'
  {
    MaskWords(text, Lower(text), sensitiveWords)
  }

  /** When no word occurs in the text even ignoring case, nothing is masked. */
  lemma {:induction false} SensitiveUnchangedWhenAbsent(text: string, lowerText: string, words: seq<string>)
    requires forall j :: 0 <= j < |words| ==> !Contains(lowerText, Lower(words[j]))
    ensures MaskWords(text, lowerText, words) == text
    decreases |words|
  {
    if words != [] {
      SensitiveUnchangedWhenAbsent(text, lowerText, words[1..]);
    }
  }

  /** Detection ignores case but replacement does not: when no word occurs
      with its exact casing, nothing is masked, even if a word occurs in
      another casing. */
  lemma {:induction false} SensitiveExactCaseOnly(text: string, lowerText: string, words: seq<string>)
    requires forall j :: 0 <= j < |words| ==> !Contains(text, words[j])
    ensures MaskWords(text, lowerText, words) == text
    decreases |words|
  {
    if words != [] {
      ReplaceAbsent(text, words[0], Stars(|words[0]|));
      SensitiveExactCaseOnly(text, lowerText, words[1..]);
    }
  }

  /** A non-empty word without asterisks that was detected at its step is
      gone from the output: masking removes every exact-case occurrence,
      and later masks only write asterisks, which cannot rebuild it. */
  lemma {:induction false} SensitiveWordMasked(text: string, lowerText: string, words: seq<string>, k: nat)
    requires k < |words|
    requires words[k] != []
    requires forall j :: 0 <= j < |words[k]| ==> words[k][j] != '*'
    requires Contains(lowerText, Lower(words[k]))
    ensures !Contains(MaskWords(text, lowerText, words), words[k])
    decreases |words|
  {
    var w := words[0];
    var next := if Contains(lowerText, Lower(w)) then Replace(text, w, Stars(|w|)) else text;
    if k == 0 {
      MaskLeavesNoMatch(text, w, Stars(|w|), '*');
      var out := MaskWords(next, lowerText, words[1..]);
      FillCreatesNoMatch(next, out, w, '*');
    } else {
      SensitiveWordMasked(next, lowerText, words[1..], k - 1);
    }
  }

  // ---------------------------------------------------------------------
  // Bounded message-id cache

  /** The default `capacity` of both cache functions. */
  const DefaultCapacity: int := 100

  /** `create_message_id_cache(capacity)` */
  function CreateMessageIdCache(capacity: int := DefaultCapacity): (cache: seq<string>)
    ensures |cache| == 0
  {
    []
  }

  /** `update_message_cache(cache, message_id, capacity)`: a known id leaves the
      cache alone; a new id is appended and, when that overflows the
      capacity, the single oldest entry is evicted. */
  function UpdateMessageCache(cache: seq<string>, messageId: string, capacity: int := DefaultCapacity): (r: seq<string>)
    ensures messageId in cache ==> r == cache
    ensures messageId !in cache && |cache| < capacity ==> r == cache + [messageId]
    ensures messageId !in cache && |cache| >= capacity ==> |r| == |cache|
    ensures messageId !in cache ==> r == (cache + [messageId])[|cache| + 1 - |r|..]
  {
    if ListContains(cache, messageId) then cache
    else
      var appended := cache + [messageId];
      if |appended| > capacity then appended[1..] else appended
  }

  /** A cache within capacity and without duplicates stays so, and it
      remembers the id just offered. */
  lemma CacheInvariant(cache: seq<string>, messageId: string, capacity: int)
    requires 0 <= |cache| <= capacity
    requires NoDuplicates(cache)
    ensures |UpdateMessageCache(cache, messageId, capacity)| <= capacity
    ensures NoDuplicates(UpdateMessageCache(cache, messageId, capacity))
    ensures capacity >= 1 ==> messageId in UpdateMessageCache(cache, messageId, capacity)
  {
    var r := UpdateMessageCache(cache, messageId, capacity);
    if messageId !in cache {
      var appended := cache + [messageId];
      assert NoDuplicates(appended) by {
        forall i, j | 0 <= i < j < |appended|
          ensures appended[i] != appended[j]
        {
          if j == |cache| {
            assert appended[i] == cache[i];
          }
        }
      }
      if capacity >= 1 {
        assert r[|r| - 1] == messageId;
      }
    }
  }

  /** Offering the same id twice in a row changes nothing the second time. */
  lemma CacheRepeatIsNoOp(cache: seq<string>, messageId: string, capacity: int)
    ensures var c := UpdateMessageCache(cache, messageId, capacity);
            UpdateMessageCache(c, messageId, capacity) == c
  {
    var c := UpdateMessageCache(cache, messageId, capacity);
    if messageId !in cache && c != [] {
      assert c[|c| - 1] == messageId;
    }
  }

  lemma CacheHoldsOffered(cache: seq<string>, messageId: string, capacity: int)
    requires capacity >= 1
    ensures messageId in UpdateMessageCache(cache, messageId, capacity)
  {
    var c := UpdateMessageCache(cache, messageId, capacity);
    if messageId !in cache {
      assert c[|c| - 1] == messageId;
    }
  }

  /** The cache after offering a stream of ids, oldest first. */
  function CacheAfter(cache: seq<string>, ids: seq<string>, capacity: int): seq<string>
    decreases |ids|
  {
    if ids == [] then cache
    else CacheAfter(UpdateMessageCache(cache, ids[0], capacity), ids[1..], capacity)
  }

  /** Over a whole stream, starting from any cache within capacity and
      without duplicates: the cache never exceeds its capacity, never holds
      an id twice, holds only ids it started with or was offered, and holds
      the last id offered. */
  lemma {:induction false} CacheStream(cache: seq<string>, ids: seq<string>, capacity: int)
    requires 0 <= |cache| <= capacity
    requires NoDuplicates(cache)
    ensures |CacheAfter(cache, ids, capacity)| <= capacity
    ensures NoDuplicates(CacheAfter(cache, ids, capacity))
    ensures forall x :: x in CacheAfter(cache, ids, capacity) ==> x in cache || x in ids
    ensures ids != [] && capacity >= 1 ==> ids[|ids| - 1] in CacheAfter(cache, ids, capacity)
  {
    CacheStreamBounded(cache, ids, capacity);
    CacheStreamMembers(cache, ids, capacity);
    CacheStreamLast(cache, ids, capacity);
  }

  lemma {:induction false} CacheStreamBounded(cache: seq<string>, ids: seq<string>, capacity: int)
    requires 0 <= |cache| <= capacity
    requires NoDuplicates(cache)
    ensures |CacheAfter(cache, ids, capacity)| <= capacity
    ensures NoDuplicates(CacheAfter(cache, ids, capacity))
    decreases |ids|
  {
    if ids != [] {
      CacheInvariant(cache, ids[0], capacity);
      CacheStreamBounded(UpdateMessageCache(cache, ids[0], capacity), ids[1..], capacity);
    }
  }

  lemma {:induction false} CacheStreamMembers(cache: seq<string>, ids: seq<string>, capacity: int)
    ensures forall x :: x in CacheAfter(cache, ids, capacity) ==> x in cache || x in ids
    decreases |ids|
  {
    if ids != [] {
      var c := UpdateMessageCache(cache, ids[0], capacity);
      CacheStreamMembers(c, ids[1..], capacity);
      forall x | x in CacheAfter(c, ids[1..], capacity)
        ensures x in cache || x in ids
      {
        if x in c && x !in cache {
          assert x == ids[0];
        }
        if x in ids[1..] {
          assert x in ids;
        }
      }
    }
  }

  lemma {:induction false} CacheStreamLast(cache: seq<string>, ids: seq<string>, capacity: int)
    ensures ids != [] && capacity >= 1 ==> ids[|ids| - 1] in CacheAfter(cache, ids, capacity)
    decreases |ids|
  {
    if ids != [] && capacity >= 1 {
      var c := UpdateMessageCache(cache, ids[0], capacity);
      if |ids| == 1 {
        assert CacheAfter(cache, ids, capacity) == CacheAfter(c, [], capacity) == c;
        CacheHoldsOffered(cache, ids[0], capacity);
      } else {
        CacheStreamLast(c, ids[1..], capacity);
        assert ids[1..][|ids[1..]| - 1] == ids[|ids| - 1];
      }
    }
  }

  // ---------------------------------------------------------------------
  // Command parsing

  /** `extract_command`'s result: the command (`None` without the prefix)
      and the argument string. */
  datatype Parsed = Parsed(command: Option<string>, args: string)

  const DefaultPrefix: string := "!"

  /** `extract_command(content, prefix)`: without the prefix, `(None, content)`;
      with it, the lower-cased first word after the prefix and the text after
      the whitespace that follows that word (both empty when nothing but
      whitespace follows the prefix). */
  function ExtractCommand(content: string, prefix: string := DefaultPrefix): (r: Parsed)
    ensures !StartsWith(content, prefix) ==> r == Parsed(None, content)
    ensures StartsWith(content, prefix) ==> r.command.Some?
  {
    if !StartsWith(content, prefix) then Parsed(None, content)
    else
      var parts := SplitOnce(content[|prefix|..]);
      var command := if |parts| > 0 then Lower(parts[0]) else "";
      var args := if |parts| > 1 then parts[1] else "";
      Parsed(Some(command), args)
  }

  /** What `extract_command` returns after the prefix, stated through the
      full `split()` of the text after the prefix: the command is its first
      word lower-cased (so it holds no whitespace), the arguments split into
      the remaining words and do not start with whitespace, and a prefix
      followed by whitespace only gives `("", "")`. */
  lemma ExtractCommandWords(content: string, prefix: string)
    requires StartsWith(content, prefix)
    ensures var r := ExtractCommand(content, prefix);
            var words := Split(content[|prefix|..]);
            && (words == [] ==> r == Parsed(Some(""), ""))
            && (words != [] ==> r.command == Some(Lower(words[0])) && Split(r.args) == words[1..])
            && (forall i :: 0 <= i < |r.command.value| ==> !IsSpace(r.command.value[i]))
            && (r.args == [] || !IsSpace(r.args[0]))
            && IsSuffix(r.args, content)
  {
    CommandIsFirstWord(content, prefix);
    ArgsAreRemainingWords(content, prefix);
    CommandHasNoSpace(content, prefix);
    ArgsStartWithText(content, prefix);
    ArgsAreTail(content, prefix);
  }

  /** The arguments are the tail of the content, inner and trailing
      whitespace included. */
  lemma ArgsAreTail(content: string, prefix: string)
    requires StartsWith(content, prefix)
    ensures IsSuffix(ExtractCommand(content, prefix).args, content)
  {
    var rest := content[|prefix|..];
    var parts := SplitOnce(rest);
    var args := ExtractCommand(content, prefix).args;
    assert args == if |parts| > 1 then parts[1] else "";
    if |parts| == 2 {
      assert IsSuffix(rest, content);
      SplitOnceRestSuffix(rest);
      SuffixOfSuffix(content, rest, parts[1]);
      SuffixTransfer(args, parts[1], content);
    } else {
      assert content[|content|..] == [];
    }
  }

  lemma CommandIsFirstWord(content: string, prefix: string)
    requires StartsWith(content, prefix)
    ensures var r := ExtractCommand(content, prefix);
            var words := Split(content[|prefix|..]);
            && (words == [] ==> r == Parsed(Some(""), ""))
            && (words != [] ==> r.command == Some(Lower(words[0])))
  {
    var rest := content[|prefix|..];
    SplitOnceAgrees(rest);
    if SplitOnce(rest) != [] {
      assert ExtractCommand(content, prefix).command == Some(Lower(SplitOnce(rest)[0]));
    }
  }

  lemma ArgsAreRemainingWords(content: string, prefix: string)
    requires StartsWith(content, prefix)
    ensures var words := Split(content[|prefix|..]);
            words != [] ==> Split(ExtractCommand(content, prefix).args) == words[1..]
  {
    var rest := content[|prefix|..];
    var parts := SplitOnce(rest);
    SplitOnceAgrees(rest);
    var r := ExtractCommand(content, prefix);
    assert r.args == if |parts| > 1 then parts[1] else "";
    if |parts| == 2 {
      assert Split(r.args) == Split(rest)[1..];
    } else if |parts| == 1 {
      assert |Split(rest)| == 1;
    }
  }

  lemma CommandHasNoSpace(content: string, prefix: string)
    requires StartsWith(content, prefix)
    ensures var cmd := ExtractCommand(content, prefix).command.value;
            forall i :: 0 <= i < |cmd| ==> !IsSpace(cmd[i])
  {
    var rest := content[|prefix|..];
    var parts := SplitOnce(rest);
    var cmd := ExtractCommand(content, prefix).command.value;
    assert cmd == if parts != [] then Lower(parts[0]) else "";
    if parts != [] {
      SplitOnceFirst(rest);
      LowerWord(parts[0]);
    }
  }

  lemma ArgsStartWithText(content: string, prefix: string)
    requires StartsWith(content, prefix)
    ensures var args := ExtractCommand(content, prefix).args;
            args == [] || !IsSpace(args[0])
  {
    var rest := content[|prefix|..];
    if |SplitOnce(rest)| == 2 {
      SplitOnceRest(rest);
    }
  }
}
