/** Concrete runs of the filters and of the loop step, each fact proved
    on its own so that the literals stay small. */
module Examples {
  import opened Wrappers
  import opened PyStrings
  import opened Utils
  import opened ShadowChat

  // ---------------------------------------------------------------------
  // filter_sensitive_content

  /** The lower-case word "ab" is detected in "Ab" but, being replaced with
      its own casing, masks nothing there; in "xab" it is masked. */
  lemma SensitiveExample()
    ensures FilterSensitiveContent("Ab", ["ab"]) == "Ab"
    ensures FilterSensitiveContent("xab", ["ab"]) == "x**"
  {
    SensitiveOtherCase();
    SensitiveSameCase();
  }

  lemma SensitiveOtherCase()
    ensures FilterSensitiveContent("Ab", ["ab"]) == "Ab"
  {
    assert Lower("Ab") == "ab";
    assert Lower("ab") == "ab";
    assert OccursAt("ab", "ab", 0);
    assert "Ab"[..2][0] != "ab"[0];
    assert Replace("Ab", "ab", Stars(2)) == "Ab";
  }

  lemma SensitiveSameCase()
    ensures FilterSensitiveContent("xab", ["ab"]) == "x**"
  {
    assert Lower("ab") == "ab";
    assert Lower("xab") == "xab";
    assert OccursAt("xab", "ab", 1);
    assert "xab"[..2][1] != "ab"[1];
    assert Replace("xab", "ab", Stars(2)) == "x**";
  }

  // ---------------------------------------------------------------------
  // extract_command

  lemma CmdToken()
    ensures TokenLen("Go b  c ") == 2
  {
    assert "Go b  c "[1..] == "o b  c ";
    assert "o b  c "[1..] == " b  c ";
  }

  lemma CmdRest()
    ensures LStrip(" b  c ") == "b  c "
  {
    assert " b  c "[1..] == "b  c ";
  }

  lemma CmdSplitOnce()
    ensures SplitOnce("Go b  c ") == ["Go", "b  c "]
  {
    var rest := "Go b  c ";
    assert LStrip(rest) == rest;
    CmdToken();
    assert rest[2..] == " b  c ";
    CmdRest();
    assert rest[..2] == "Go";
  }

  /** With the default prefix "!", the command is lower-cased and the
      arguments keep their inner and trailing whitespace. */
  lemma CommandExample()
    ensures ExtractCommand("!Go b  c ") == Parsed(Some("go"), "b  c ")
  {
    assert StartsWith("!Go b  c ", DefaultPrefix);
    assert "!Go b  c "[|DefaultPrefix|..] == "Go b  c ";
    CmdSplitOnce();
    CmdLower();
  }

  lemma CmdLower()
    ensures Lower("Go") == "go"
  {
  }

  // ---------------------------------------------------------------------
  // filter_usernames: the capitalised form survives

  lemma AlNames()
    ensures UsernameSet([Message("1", "hi", Author("U1", "Al"))]) == {"al"}
  {
    assert Lower("Al") == "al";
  }

  lemma AlFound()
    ensures Contains(Lower("Al al"), Lower("al"))
  {
    assert Lower("Al al") == "al al";
    assert Lower("al") == "al";
    assert OccursAt("al al", "al", 0);
  }

  lemma AlDeleted()
    ensures Replace("Al al", "al", "") == "Al "
  {
    assert "Al al"[..2][0] != "al"[0];
    assert "l al"[..2][0] != "al"[0];
    assert " al"[..2][0] != "al"[0];
    assert "al"[..2] == "al";
  }

  lemma AlLowerAbsent()
    ensures Replace("Al ", Lower("al"), "") == "Al "
  {
    assert Lower("al") == "al";
    assert "Al "[..2][0] != "al"[0];
    assert "l "[..2][0] != "al"[0];
  }

  lemma AlUpperAbsent()
    ensures Replace("Al ", Upper("al"), "") == "Al "
  {
    assert Upper("al") == "AL";
    assert "Al "[..2][1] != "AL"[1];
    assert "l "[..2][0] != "AL"[0];
  }

  lemma AlNormalized()
    ensures Normalize("Al ") == "Al"
  {
    assert TokenLen("Al ") == 2;
    assert " "[1..] == [];
    assert Split(" ") == [];
    assert "Al "[2..] == " ";
    assert "Al "[..2] == "Al";
  }

  /** For the author "Al" the name is "al": the lower-case occurrence is
      deleted and the capitalised one survives. */
  lemma FilterMixedCaseSurvives()
    ensures var batch := [Message("1", "hi", Author("U1", "Al"))];
            && Enumerates(["al"], UsernameSet(batch))
            && FilterUsernames("Al al", batch, ["al"]) == "Al"
  {
    AlNames();
    AlFound();
    AlDeleted();
    AlLowerAbsent();
    AlUpperAbsent();
    AlNormalized();
    FilterOneName("Al al", [Message("1", "hi", Author("U1", "Al"))], "al", "Al ", "Al ", "Al ");
  }

  // ---------------------------------------------------------------------
  // filter_usernames: an overlapping deletion cuts another casing

  lemma AnNames()
    ensures UsernameSet([Message("1", "hi", Author("U1", "ana"))]) == {"ana"}
  {
    assert Lower("ana") == "ana";
  }

  lemma AnFound()
    ensures Contains(Lower("Anana"), Lower("ana"))
  {
    assert Lower("Anana") == "anana";
    assert Lower("ana") == "ana";
    assert OccursAt("anana", "ana", 0);
  }

  lemma AnDeleted()
    ensures Replace("Anana", "ana", "") == "An"
  {
    assert "Anana"[..3][0] != "ana"[0];
    assert "nana"[..3][0] != "ana"[0];
    assert "ana"[..3] == "ana";
    assert "ana"[3..] == [];
  }

  lemma AnOtherForms()
    ensures Replace("An", Lower("ana"), "") == "An"
    ensures Replace("An", Upper("ana"), "") == "An"
  {
    assert Lower("ana") == "ana";
    assert Upper("ana") == "ANA";
  }

  lemma AnCut()
    ensures OccursAt("Anana", "Ana", 0)
    ensures !Contains("An", "Ana")
  {
    assert "Anana"[0..3] == "Ana";
  }

  lemma AnNormalized()
    ensures Normalize("An") == "An"
  {
    assert TokenLen("An") == 2;
    assert "An"[..2] == "An";
    assert "An"[2..] == [];
  }

  /** For the author "ana", the capitalised mention "Ana" at the start of
      "Anana" overlaps the lower-case "ana" at index 2; deleting the latter
      leaves "An", so the mention is cut although no deletion targets it. */
  lemma FilterOverlapCutsMention()
    ensures var batch := [Message("1", "hi", Author("U1", "ana"))];
            && Enumerates(["ana"], UsernameSet(batch))
            && FilterUsernames("Anana", batch, ["ana"]) == "An"
            && OccursAt("Anana", "Ana", 0)
            && !Contains(FilterUsernames("Anana", batch, ["ana"]), "Ana")
  {
    AnNames();
    AnFound();
    AnDeleted();
    AnOtherForms();
    AnNormalized();
    FilterOneName("Anana", [Message("1", "hi", Author("U1", "ana"))], "ana", "An", "An", "An");
    AnCut();
  }

  // ---------------------------------------------------------------------
  // filter_usernames: a deletion can rebuild the name

  lemma AbNames()
    ensures UsernameSet([Message("1", "hi", Author("U1", "ab"))]) == {"ab"}
  {
    assert Lower("ab") == "ab";
  }

  lemma AbFound()
    ensures Contains(Lower("aaabbb"), Lower("ab"))
  {
    assert Lower("aaabbb") == "aaabbb";
    assert Lower("ab") == "ab";
    assert OccursAt("aaabbb", "ab", 2);
  }

  lemma AbDeleted()
    ensures Replace("aaabbb", "ab", "") == "aabb"
  {
    assert "aaabbb"[..2][1] != "ab"[1];
    assert "aabbb"[..2][1] != "ab"[1];
    assert "abbb"[..2] == "ab";
    assert "abbb"[2..] == "bb";
    assert "bb"[..2][0] != "ab"[0];
  }

  lemma AbDeletedAgain()
    ensures Replace("aabb", Lower("ab"), "") == "ab"
  {
    assert Lower("ab") == "ab";
    assert "aabb"[..2][1] != "ab"[1];
    assert "abb"[..2] == "ab";
    assert "abb"[2..] == "b";
  }

  lemma AbUpperAbsent()
    ensures Replace("ab", Upper("ab"), "") == "ab"
  {
    assert Upper("ab") == "AB";
    assert "ab"[..2][0] != "AB"[0];
  }

  lemma AbNormalized()
    ensures Normalize("ab") == "ab"
  {
    assert TokenLen("ab") == 2;
    assert "ab"[..2] == "ab";
    assert "ab"[2..] == [];
  }

  /** Each deletion can join the neighbours of an occurrence into a new
      one: "aaabbb" loses "ab" twice and still ends as "ab". */
  lemma FilterCanLeaveName()
    ensures var batch := [Message("1", "hi", Author("U1", "ab"))];
            && Enumerates(["ab"], UsernameSet(batch))
            && FilterUsernames("aaabbb", batch, ["ab"]) == "ab"
            && Contains(FilterUsernames("aaabbb", batch, ["ab"]), "ab")
  {
    AbNames();
    AbFound();
    AbDeleted();
    AbDeletedAgain();
    AbUpperAbsent();
    AbNormalized();
    FilterOneName("aaabbb", [Message("1", "hi", Author("U1", "ab"))], "ab", "aabb", "ab", "ab");
    assert OccursAt("ab", "ab", 0);
  }

  // ---------------------------------------------------------------------
  // One loop step end to end

  function AliceBatch(): seq<Message> {
    [Message("2", "hello", Author("U1", "alice")), Message("1", "hi", Author("U1", "alice"))]
  }

  lemma AliceNames()
    ensures UsernameSet(AliceBatch()) == {"alice"}
  {
    assert Lower("alice") == "alice";
  }

  lemma AliceFound()
    ensures Contains(Lower("hi alice"), Lower("alice"))
  {
    assert Lower("hi alice") == "hi alice";
    assert Lower("alice") == "alice";
    assert OccursAt("hi alice", "alice", 3);
  }

  lemma AliceDeleted()
    ensures Replace("hi alice", "alice", "") == "hi "
  {
    assert "hi alice"[..5][0] != "alice"[0];
    assert "i alice"[..5][0] != "alice"[0];
    assert " alice"[..5][0] != "alice"[0];
    assert "alice"[..5] == "alice";
    assert "alice"[5..] == [];
  }

  lemma AliceNormalized()
    ensures Normalize("hi ") == "hi"
  {
    assert TokenLen("hi ") == 2;
    assert " "[1..] == [];
    assert Split(" ") == [];
    assert "hi "[2..] == " ";
    assert "hi "[..2] == "hi";
  }

  function AliceCompletion(): Completion {
    Body(Some([Choice(Some("hi alice"))]))
  }

  lemma AliceFiltered()
    ensures Enumerates(["alice"], UsernameSet(AliceBatch()))
    ensures FilterUsernames("hi alice", AliceBatch(), ["alice"]) == "hi"
  {
    AliceNames();
    AliceFound();
    AliceDeleted();
    AliceNormalized();
    FilterOneName("hi alice", AliceBatch(), "alice", "hi ", "hi ", "hi ");
  }

  lemma AliceGenerated()
    ensures Enumerates(["alice"], UsernameSet(AliceBatch()))
    ensures GenerateResponse(AliceBatch(), AliceCompletion(), ["alice"]) == Generated("hi")
  {
    AliceFiltered();
  }

  lemma AliceFirstPass()
    ensures Enumerates(["alice"], UsernameSet(AliceBatch()))
    ensures Step(Config(Some("BOT"), []), LoopState(None), AliceBatch(), AliceCompletion(), ["alice"])
            == StepResult(LoopState(Some("2")), Some(Reply("hi", "2")))
  {
    AliceGenerated();
    assert ShouldRespond(Config(Some("BOT"), []), "U1");
    assert "hi" != ErrorSentinel by {
      assert |ErrorSentinel| != 2;
    }
  }

  lemma AliceSecondPass()
    ensures Enumerates(["alice"], UsernameSet(AliceBatch()))
    ensures Step(Config(Some("BOT"), []), LoopState(Some("2")), AliceBatch(), AliceCompletion(), ["alice"])
            == StepResult(LoopState(Some("2")), None)
  {
    AliceNames();
  }

  /** The newest message "2" by "alice" is new to a fresh loop; the model's
      text "hi alice" is scrubbed to "hi" and sent as a reply to "2"; the
      next pass over the same batch sends nothing. */
  lemma StepExample()
    ensures var cfg := Config(Some("BOT"), []);
            && Enumerates(["alice"], UsernameSet(AliceBatch()))
            && Step(cfg, LoopState(None), AliceBatch(), AliceCompletion(), ["alice"])
               == StepResult(LoopState(Some("2")), Some(Reply("hi", "2")))
            && Step(cfg, LoopState(Some("2")), AliceBatch(), AliceCompletion(), ["alice"])
               == StepResult(LoopState(Some("2")), None)
  {
    AliceFirstPass();
    AliceSecondPass();
  }
}
