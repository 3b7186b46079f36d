/**
 * The text tail of `classify_image`: the hosted model is asked to answer `yes` or `no`,
 * and the image counts as fruit or vegetables exactly when the trimmed, lower-cased
 * reply is `yes`.
 */
module Classification {
  import opened Text

  /** `response.text.strip().lower() == "yes"`. */
  predicate IsProduce(reply: string) {
    Lower(Strip(reply)) == "yes"
  }

  /** A three-letter word spelled `yes` in any mix of ASCII letter case. */
  predicate SpellsYes(w: string) {
    |w| == 3 && w[0] in "yY" && w[1] in "eE" && w[2] in "sS"
  }

  /** The reply is whitespace, then a `yes` in any letter case starting at `i`, then whitespace. */
  predicate YesAt(reply: string, i: int) {
    0 <= i <= |reply| - 3 && SpellsYes(reply[i..i + 3]) &&
    AllSpace(reply[..i]) && AllSpace(reply[i + 3..])
  }

  lemma LowerIsYes(w: string)
    ensures Lower(w) == "yes" <==> SpellsYes(w)
  {
    if SpellsYes(w) {
      assert Lower(w) == [LowerChar(w[0]), LowerChar(w[1]), LowerChar(w[2])];
    }
  }

  /**
   * The classification is an independent, character-level condition: the reply is a single
   * `yes` (in any letter case) with nothing but whitespace around it.
   */
  lemma ClassifiesIff(reply: string)
    ensures IsProduce(reply) <==> exists i :: YesAt(reply, i)
  {
    var r := Strip(reply);
    LowerIsYes(r);
    if IsProduce(reply) {
      var i :| 0 <= i <= |reply| && StrippedAt(reply, r, i);
      assert reply[i..i + 3] == r;
      assert YesAt(reply, i);
    }
    if i :| YesAt(reply, i) {
      var w := reply[i..i + 3];
      assert StrippedAt(reply, w, i);
      StripIs(reply, w, i);
    }
  }

  /** A bare upper-case `YES` between a space and a line feed counts. */
  lemma PaddedUpperYes()
    ensures IsProduce(" YES\n")
  {
    assert YesAt(" YES\n", 1);
    ClassifiesIff(" YES\n");
  }

  /** Trailing punctuation is not stripped, so `Yes.` does not count. */
  lemma YesWithPeriod()
    ensures !IsProduce("Yes.")
  {
    var reply := "Yes.";
    forall i | 0 <= i <= |reply| - 3 ensures !YesAt(reply, i) {
      if i == 0 {
        assert reply[i + 3..][0] == '.';
      } else {
        assert reply[..i][0] == 'Y';
      }
    }
    ClassifiesIff(reply);
  }

  /** An answer that goes on after `yes` does not count. */
  lemma YesWithMore()
    ensures !IsProduce("yes, it is")
  {
    var reply := "yes, it is";
    forall i | 0 <= i <= |reply| - 3 ensures !YesAt(reply, i) {
      if i == 0 {
        assert reply[i + 3..][0] == ',';
      } else {
        assert reply[..i][0] == 'y';
      }
    }
    ClassifiesIff(reply);
  }
}
