/**
 * The text tail of `predict_freshness`: the hosted model is asked for a freshness index
 * between 1 and 10, and the app takes the first whole number in the stripped reply
 * (`re.search(r'\b\d+\b', ...)`, then `int(...)`), or nothing when there is none.
 * Character classes are the ASCII ones.
 */
module Freshness {
  import opened Wrappers
  import opened Text

  /** `\d` on ASCII. */
  predicate IsDigit(c: char) {
    '0' <= c <= '9'
  }

  /** `\w` on ASCII: letters, digits and the underscore. */
  predicate IsWordChar(c: char) {
    'a' <= c <= 'z' || 'A' <= c <= 'Z' || IsDigit(c) || c == '_'
  }

  /** There is a word character at position `k`; outside the string there is none. */
  predicate WordAt(s: string, k: int) {
    0 <= k < |s| && IsWordChar(s[k])
  }

  /** `\b` at position `k`: a word character on exactly one side of it. */
  predicate Boundary(s: string, k: int) {
    WordAt(s, k - 1) != WordAt(s, k)
  }

  predicate AllDigits(s: string) {
    forall k :: 0 <= k < |s| ==> IsDigit(s[k])
  }

  /** The pattern `\b\d+\b` matches `s[i..j]`. */
  predicate MatchAt(s: string, i: int, j: int) {
    0 <= i < j <= |s| && Boundary(s, i) && AllDigits(s[i..j]) && Boundary(s, j)
  }

  /** End of the run of digits that starts at `j`. */
  function RunEnd(s: string, j: nat): (e: nat)
    requires j <= |s|
    ensures j <= e <= |s|
    ensures forall k :: j <= k < e ==> IsDigit(s[k])
    ensures e == |s| || !IsDigit(s[e])
    decreases |s| - j
  {
    if j < |s| && IsDigit(s[j]) then RunEnd(s, j + 1) else j
  }

  /** A match ends where its run of digits ends: `\d+` cannot stop before a word character. */
  lemma MatchEnd(s: string, i: int, j: int)
    requires MatchAt(s, i, j)
    ensures j == RunEnd(s, i)
  {
    var e := RunEnd(s, i);
    forall k | i <= k < j ensures IsDigit(s[k]) {
      assert s[i..j][k - i] == s[k];
    }
    assert WordAt(s, j - 1);
  }

  /** Scanning from position `i`, the leftmost match whose start is at or after `i`. */
  function SearchFrom(s: string, i: nat): (m: Option<(nat, nat)>)
    requires i <= |s|
    ensures m.Some? ==> i <= m.value.0 && MatchAt(s, m.value.0, m.value.1)
    ensures m.Some? ==> forall a, b :: i <= a < m.value.0 ==> !MatchAt(s, a, b)
    ensures m.None? ==> forall a, b :: i <= a ==> !MatchAt(s, a, b)
    decreases |s| - i
  {
    if i == |s| then None
    else
      var here :=
        if IsDigit(s[i]) && !WordAt(s, i - 1) then
          var e := RunEnd(s, i);
          if !WordAt(s, e) then
            assert s[i..e][0] == s[i];
            assert MatchAt(s, i, e);
            Some((i, e))
          else None
        else None;
      assert forall b :: MatchAt(s, i, b) ==> here == Some((i, b)) by {
        forall b | MatchAt(s, i, b) ensures here == Some((i, b)) {
          assert s[i..b][0] == s[i];
          MatchEnd(s, i, b);
        }
      }
      if here.Some? then here else SearchFrom(s, i + 1)
  }

  /** `re.search(r'\b\d+\b', s)`: the span of the leftmost match, which ends where its digits end. */
  function Search(s: string): (m: Option<(nat, nat)>)
    ensures m.Some? ==> MatchAt(s, m.value.0, m.value.1)
    ensures m.Some? ==> forall a, b :: 0 <= a < m.value.0 ==> !MatchAt(s, a, b)
    ensures m.Some? ==> forall b :: MatchAt(s, m.value.0, b) ==> b == m.value.1
    ensures m.None? <==> forall a, b :: !MatchAt(s, a, b)
  {
    var m := SearchFrom(s, 0);
    assert m.Some? ==> forall b :: MatchAt(s, m.value.0, b) ==> b == m.value.1 by {
      if m.Some? {
        forall b | MatchAt(s, m.value.0, b) ensures b == m.value.1 {
          MatchEnd(s, m.value.0, b);
          MatchEnd(s, m.value.0, m.value.1);
        }
      }
    }
    m
  }

  /** `int(d)` for a string of ASCII digits; leading zeros are allowed. */
  function DecimalValue(d: string): nat
    requires AllDigits(d)
  {
    if d == [] then 0 else DecimalValue(d[..|d| - 1]) * 10 + (d[|d| - 1] as int - '0' as int)
  }

  /** `str(n)`: the shortest decimal spelling of `n`. */
  function DecimalString(n: nat): (d: string)
    ensures |d| >= 1 && AllDigits(d)
    ensures |d| > 1 ==> d[0] != '0'
  {
    if n < 10 then [('0' as int + n) as char]
    else
      var d := DecimalString(n / 10) + [('0' as int + n % 10) as char];
      assert d[0] == DecimalString(n / 10)[0];
      d
  }

  /** `int` undoes `str`. */
  lemma {:induction false} DecimalRoundTrip(n: nat)
    ensures DecimalValue(DecimalString(n)) == n
  {
    if n >= 10 {
      var d := DecimalString(n);
      assert d[..|d| - 1] == DecimalString(n / 10);
      DecimalRoundTrip(n / 10);
    }
  }

  /** `int(m.group(0))` for the first whole number `m` in `s`, or `None` when there is none. */
  function FirstNumber(s: string): (r: Option<nat>)
    ensures r.None? <==> forall a, b :: !MatchAt(s, a, b)
    ensures r.Some? ==> exists i, j :: MatchAt(s, i, j) && r.value == DecimalValue(s[i..j]) &&
                                       forall a, b :: 0 <= a < i ==> !MatchAt(s, a, b)
  {
    match Search(s)
    case None => None
    case Some((i, j)) =>
      assert forall k :: 0 <= k < |s[i..j]| ==> IsDigit(s[i..j][k]) by {
        assert MatchAt(s, i, j);
      }
      Some(DecimalValue(s[i..j]))
  }

  /** The freshness index read from the reply, or `None` when it holds no whole number. */
  function FreshnessIndex(reply: string): Option<nat>
  {
    FirstNumber(Strip(reply))
  }

  /** There is no number exactly when nothing matches. */
  lemma NoNumberIff(s: string)
    ensures FirstNumber(s).None? <==> forall a, b :: !MatchAt(s, a, b)
  {
  }

  /** When a match starts at `i` and none starts earlier, the number is the value of that match. */
  lemma LeftmostNumber(s: string, i: nat, j: nat)
    requires MatchAt(s, i, j)
    requires forall a, b :: 0 <= a < i ==> !MatchAt(s, a, b)
    ensures FirstNumber(s) == Some(DecimalValue(s[i..j]))
  {
    var m := Search(s);
    assert m.Some?;
    assert m.value.0 == i;
  }

  /** A reply without digits yields no index. */
  lemma NoDigitsNoIndex(reply: string)
    requires forall k :: 0 <= k < |reply| ==> !IsDigit(reply[k])
    ensures FreshnessIndex(reply) == None
  {
    var s := Strip(reply);
    var p :| 0 <= p <= |reply| && StrippedAt(reply, s, p);
    forall a, b | 0 <= a < b <= |s| ensures !MatchAt(s, a, b) {
      assert s[a..b][0] == s[a] == reply[p..p + |s|][a];
    }
  }

  /** A non-empty string of digits is one whole match. */
  lemma DigitsMatchWhole(d: string)
    requires |d| >= 1 && AllDigits(d)
    ensures MatchAt(d, 0, |d|)
  {
    assert d[0..|d|] == d;
    assert IsDigit(d[0]) && IsDigit(d[|d| - 1]);
  }

  /** A non-empty string of digits holds one number, its value. */
  lemma DigitsAreOneNumber(d: string)
    requires |d| >= 1 && AllDigits(d)
    ensures FirstNumber(d) == Some(DecimalValue(d))
  {
    DigitsMatchWhole(d);
    assert d[0..|d|] == d;
    LeftmostNumber(d, 0, |d|);
  }

  /** A reply that is just digits yields their value. */
  lemma BareDigits(d: string)
    requires |d| >= 1 && AllDigits(d)
    ensures FreshnessIndex(d) == Some(DecimalValue(d))
  {
    assert !IsSpace(d[0]) && !IsSpace(d[|d| - 1]);
    UnpaddedIndex(d);
    DigitsAreOneNumber(d);
  }

  /** A reply that is just a number yields that number, whatever its size: the 1 to 10 range is not checked. */
  lemma BareNumber(n: nat)
    ensures FreshnessIndex(DecimalString(n)) == Some(n)
  {
    BareDigits(DecimalString(n));
    DecimalRoundTrip(n);
  }

  /** Surrounding whitespace is all that stripping removes, so an unpadded reply is searched as it is. */
  lemma UnpaddedIndex(reply: string)
    requires reply != [] && !IsSpace(reply[0]) && !IsSpace(reply[|reply| - 1])
    ensures FreshnessIndex(reply) == FirstNumber(reply)
  {
    StripUnpadded(reply);
  }

  lemma SevenFirst(s: string)
    requires s == "7, confidence 90"
    ensures FirstNumber(s) == Some(7)
  {
    assert s[0] == '7' && s[1] == ',';
    assert s[0..1] == "7";
    assert Boundary(s, 0) && Boundary(s, 1) && AllDigits(s[0..1]);
    assert MatchAt(s, 0, 1);
    LeftmostNumber(s, 0, 1);
  }

  /** The first number wins even when a later one is larger: `7, confidence 90` gives 7. */
  lemma FirstNumberWins()
    ensures FreshnessIndex("7, confidence 90") == Some(7)
  {
    UnpaddedIndex("7, confidence 90");
    SevenFirst("7, confidence 90");
  }

  lemma SevenAfterLabel(s: string)
    requires s == "Score: 7/10"
    ensures FirstNumber(s) == Some(7)
  {
    assert s[6] == ' ' && s[7] == '7' && s[8] == '/';
    assert s[7..8] == "7";
    assert Boundary(s, 7) && Boundary(s, 8) && AllDigits(s[7..8]);
    assert MatchAt(s, 7, 8);
    forall a, b | 0 <= a < 7 && a < b <= |s| ensures !MatchAt(s, a, b) {
      assert s[a..b][0] == s[a];
    }
    LeftmostNumber(s, 7, 8);
  }

  /** Text before the number does not matter, nor does a larger number after it: `Score: 7/10` gives 7. */
  lemma LabelledNumber()
    ensures FreshnessIndex("Score: 7/10") == Some(7)
  {
    UnpaddedIndex("Score: 7/10");
    SevenAfterLabel("Score: 7/10");
  }

  lemma NineAfterWord(s: string)
    requires s == "B12 is 9"
    ensures FirstNumber(s) == Some(9)
  {
    assert s[6] == ' ' && s[7] == '9';
    assert s[7..8] == "9";
    assert Boundary(s, 7) && Boundary(s, 8) && AllDigits(s[7..8]);
    assert MatchAt(s, 7, 8);
    forall a, b | 0 <= a < 7 ensures !MatchAt(s, a, b) {
      if 0 < a < 3 {
        assert WordAt(s, a - 1);
      } else if a < b <= |s| {
        assert s[a..b][0] == s[a];
      }
    }
    LeftmostNumber(s, 7, 8);
  }

  /** Digits inside a word are skipped: `B12 is 9` gives 9. */
  lemma DigitsInWordSkipped()
    ensures FreshnessIndex("B12 is 9") == Some(9)
  {
    UnpaddedIndex("B12 is 9");
    NineAfterWord("B12 is 9");
  }
}
