/**
 * The Python string operations the app relies on, over `string = seq<char>`:
 * `t in s`, `s.split(sep)`, `sep.join(pieces)`, `s.strip()` and `s.lower()`.
 * Character classes are the ASCII ones (see README).
 */
module Text {
  import opened Wrappers

  /** `t` occurs in `s` starting at index `i`. */
  predicate OccursAt(s: string, t: string, i: int) {
    0 <= i && i + |t| <= |s| && s[i..i + |t|] == t
  }

  lemma OccursInTail(s: string, t: string, i: int)
    requires |s| > 0 && 0 <= i
    ensures OccursAt(s[1..], t, i) <==> OccursAt(s, t, i + 1)
  {
    if i + |t| <= |s[1..]| {
      assert s[1..][i..i + |t|] == s[i + 1..i + 1 + |t|];
    }
  }

  /** Leftmost index at which `t` occurs in `s` (`s.find(t)`, with None for -1). */
  function IndexOf(s: string, t: string): (r: Option<nat>)
    ensures r.Some? ==> OccursAt(s, t, r.value)
    ensures r.Some? ==> forall i :: 0 <= i < r.value ==> !OccursAt(s, t, i)
    ensures r.None? ==> forall i :: !OccursAt(s, t, i)
    decreases |s|
  {
    if |s| < |t| then None
    else if s[..|t|] == t then Some(0)
    else
      var rest := IndexOf(s[1..], t);
      assert !OccursAt(s, t, 0);
      assert forall i :: 1 <= i ==> (OccursAt(s, t, i) <==> OccursAt(s[1..], t, i - 1)) by {
        forall i | 1 <= i ensures OccursAt(s, t, i) <==> OccursAt(s[1..], t, i - 1) {
          OccursInTail(s, t, i - 1);
        }
      }
      match rest
      case None => None
      case Some(k) => Some(k + 1)
  }

  /** Python's `t in s`. */
  predicate Contains(s: string, t: string) {
    IndexOf(s, t).Some?
  }

  /** Python's `sep.join(pieces)`. */
  function Join(pieces: seq<string>, sep: string): string
    decreases |pieces|
  {
    if |pieces| == 0 then ""
    else if |pieces| == 1 then pieces[0]
    else pieces[0] + sep + Join(pieces[1..], sep)
  }

  /** A character in neither the separator nor any piece is not in their join. */
  lemma {:induction false} JoinAvoids(pieces: seq<string>, sep: string, ch: char)
    requires ch !in sep && forall k :: 0 <= k < |pieces| ==> ch !in pieces[k]
    ensures ch !in Join(pieces, sep)
    decreases |pieces|
  {
    if |pieces| > 1 {
      JoinAvoids(pieces[1..], sep, ch);
      assert pieces[0] == pieces[..][0];
    }
  }

  /**
   * Python's `s.split(sep)` for a non-empty separator: cut at each leftmost
   * occurrence of `sep`, scanning left to right.
   */
  function Split(s: string, sep: string): (pieces: seq<string>)
    requires sep != ""
    ensures |pieces| >= 1
    ensures Join(pieces, sep) == s
    ensures forall k :: 0 <= k < |pieces| ==> !Contains(pieces[k], sep)
    decreases |s|
  {
    match IndexOf(s, sep)
    case None => [s]
    case Some(k) =>
      PrefixBeforeFirst(s, sep, k);
      var rest := Split(s[k + |sep|..], sep);
      assert s == s[..k] + sep + s[k + |sep|..];
      [s[..k]] + rest
  }

  /** The text before the first occurrence of `t` does not contain it. */
  lemma PrefixBeforeFirst(s: string, t: string, k: int)
    requires t != "" && 0 <= k <= |s|
    requires forall i :: 0 <= i < k ==> !OccursAt(s, t, i)
    ensures forall i :: !OccursAt(s[..k], t, i)
  {
    forall i | 0 <= i && i + |t| <= k ensures !OccursAt(s[..k], t, i) {
      assert s[..k][i..i + |t|] == s[i..i + |t|];
      assert !OccursAt(s, t, i);
    }
  }

  /** No proper non-empty prefix of `sep` is also a suffix of it, so two occurrences never overlap. */
  predicate Unbordered(sep: string) {
    forall k :: 0 < k < |sep| ==> sep[..k] != sep[|sep| - k..]
  }

  /** A separator of two different characters, such as `": "` or `", "`, cannot overlap itself. */
  lemma PairUnbordered(a: char, b: char)
    requires a != b
    ensures Unbordered([a, b])
  {
    forall k | 0 < k < 2 ensures [a, b][..k] != [a, b][2 - k..] {
      assert [a, b][..k][0] == a && [a, b][2 - k..][0] == b;
    }
  }

  lemma ContainsChar(s: string, ch: char)
    ensures Contains(s, [ch]) <==> ch in s
  {
    if ch in s {
      var i :| 0 <= i < |s| && s[i] == ch;
      assert s[i..i + 1] == [ch];
      assert OccursAt(s, [ch], i);
    }
    if Contains(s, [ch]) {
      var i := IndexOf(s, [ch]).value;
      assert s[i..i + 1][0] == s[i];
    }
  }

  /** A string cannot contain a text one of whose characters it lacks. */
  lemma MissingChar(s: string, t: string, j: int)
    requires 0 <= j < |t| && t[j] !in s
    ensures !Contains(s, t)
  {
  }

  /** An occurrence of `sep` that straddles the end of `a` in `a + sep + b` overlaps the one after `a` in a border of `sep`. */
  lemma StraddleIsBorder(a: string, sep: string, b: string, i: int)
    requires OccursAt(a + sep + b, sep, i) && i < |a| < i + |sep|
    ensures sep[..i + |sep| - |a|] == sep[|a| - i..]
  {
    var s, k := a + sep + b, i + |sep| - |a|;
    forall m | 0 <= m < k ensures sep[..k][m] == sep[|a| - i..][m] {
      calc {
        sep[..k][m];
        s[|a| + m];
        s[i..i + |sep|][|a| - i + m];
        sep[|a| - i..][m];
      }
    }
  }

  /** With an unbordered separator, the first occurrence in `a + sep + b` is the one after `a` when `a` has none. */
  lemma IndexOfAfterFreePrefix(a: string, sep: string, b: string)
    requires sep != "" && Unbordered(sep) && !Contains(a, sep)
    ensures IndexOf(a + sep + b, sep) == Some(|a|)
  {
    var s := a + sep + b;
    assert s[|a|..|a| + |sep|] == sep;
    assert OccursAt(s, sep, |a|);
    forall i | 0 <= i < |a| && i + |sep| <= |a| ensures !OccursAt(s, sep, i) {
      assert s[i..i + |sep|] == a[i..i + |sep|];
      assert !OccursAt(a, sep, i);
    }
    forall i | 0 <= i < |a| < i + |sep| ensures !OccursAt(s, sep, i) {
      assert sep[..i + |sep| - |a|] != sep[|sep| - (i + |sep| - |a|)..];
      if OccursAt(s, sep, i) {
        StraddleIsBorder(a, sep, b, i);
      }
    }
  }

  /** Splitting a string that begins with a separator-free piece and a separator. */
  lemma SplitAfterFreePrefix(a: string, sep: string, b: string)
    requires sep != "" && Unbordered(sep) && !Contains(a, sep)
    ensures Split(a + sep + b, sep) == [a] + Split(b, sep)
  {
    var s := a + sep + b;
    IndexOfAfterFreePrefix(a, sep, b);
    assert s[..|a|] == a;
    assert s[|a| + |sep|..] == b;
  }

  lemma SplitFree(s: string, sep: string)
    requires sep != "" && !Contains(s, sep)
    ensures Split(s, sep) == [s]
  {
  }

  /** `Split` inverts `Join` when no piece contains the (unbordered) separator. */
  lemma {:induction false} SplitJoin(pieces: seq<string>, sep: string)
    requires sep != "" && Unbordered(sep) && |pieces| >= 1
    requires forall k :: 0 <= k < |pieces| ==> !Contains(pieces[k], sep)
    ensures Split(Join(pieces, sep), sep) == pieces
    decreases |pieces|
  {
    if |pieces| == 1 {
      SplitFree(pieces[0], sep);
    } else {
      SplitJoin(pieces[1..], sep);
      SplitAfterFreePrefix(pieces[0], sep, Join(pieces[1..], sep));
    }
  }

  /** A string without the separator is the single piece of its split; otherwise there are at least two. */
  lemma SplitSingleton(s: string, sep: string)
    requires sep != ""
    ensures |Split(s, sep)| == 1 <==> !Contains(s, sep)
  {
    if Contains(s, sep) {
      var k := IndexOf(s, sep).value;
      assert Split(s, sep) == [s[..k]] + Split(s[k + |sep|..], sep);
    }
  }

  /** Splitting on one character gives one more piece than the character has occurrences. */
  lemma {:induction false} SplitCharCount(s: string, ch: char)
    ensures |Split(s, [ch])| == multiset(s)[ch] + 1
    decreases |s|
  {
    match IndexOf(s, [ch])
    case None =>
      ContainsChar(s, ch);
    case Some(k) =>
      var head, rest := s[..k], s[k + 1..];
      assert Split(s, [ch]) == [head] + Split(rest, [ch]);
      assert !Contains(head, [ch]) by {
        assert Split(s, [ch])[0] == head;
      }
      ContainsChar(head, ch);
      SplitCharCount(rest, ch);
      assert s == head + [ch] + rest by {
        assert s[k..k + 1] == [ch];
      }
      calc {
        multiset(s)[ch];
        (multiset(head) + multiset([ch]) + multiset(rest))[ch];
        1 + multiset(rest)[ch];
      }
  }

  /** Python's `str.isspace()` on ASCII: tab, line feed, vertical tab, form feed, carriage return, 0x1C-0x1F and space. */
  predicate IsSpace(c: char) {
    9 <= c as int <= 13 || 28 <= c as int <= 32
  }

  predicate AllSpace(s: string) {
    forall k :: 0 <= k < |s| ==> IsSpace(s[k])
  }

  /** `r` is `s` with all leading and trailing whitespace removed: `s == lead + r + trail`. */
  predicate StrippedAt(s: string, r: string, i: int) {
    OccursAt(s, r, i) && AllSpace(s[..i]) && AllSpace(s[i + |r|..]) &&
    (r != "" ==> !IsSpace(r[0]) && !IsSpace(r[|r| - 1]))
  }

  ghost predicate StrippedOf(s: string, r: string) {
    exists i :: 0 <= i <= |s| && StrippedAt(s, r, i)
  }

  /** Python's `s.lstrip()`. */
  function TrimStart(s: string): (r: string)
    ensures |r| <= |s| && r == s[|s| - |r|..]
    ensures AllSpace(s[..|s| - |r|])
    ensures r != "" ==> !IsSpace(r[0])
    decreases |s|
  {
    if s != "" && IsSpace(s[0]) then TrimStart(s[1..]) else s
  }

  /** Python's `s.rstrip()`. */
  function TrimEnd(s: string): (r: string)
    ensures |r| <= |s| && r == s[..|r|]
    ensures AllSpace(s[|r|..])
    ensures r != "" ==> !IsSpace(r[|r| - 1])
    decreases |s|
  {
    if s != "" && IsSpace(s[|s| - 1]) then
      var r := TrimEnd(s[..|s| - 1]);
      assert s[|r|..] == s[..|s| - 1][|r|..] + [s[|s| - 1]];
      r
    else s
  }

  /** Python's `s.strip()`. */
  function Strip(s: string): (r: string)
    ensures StrippedOf(s, r)
  {
    var t := TrimStart(s);
    var r := TrimEnd(t);
    var i := |s| - |t|;
    assert s[i..i + |r|] == r;
    assert s[i + |r|..] == t[|r|..];
    assert StrippedAt(s, r, i);
    r
  }

  /** Where a stripped form sits: its characters are those of `s` from `i` on, and a non-empty one starts at the first non-space and ends at the last. */
  lemma StrippedBounds(s: string, r: string, i: int)
    requires StrippedAt(s, r, i)
    ensures forall k :: 0 <= k < |r| ==> r[k] == s[i + k]
    ensures r == "" ==> AllSpace(s)
    ensures r != "" ==> !IsSpace(s[i]) && !IsSpace(s[i + |r| - 1])
    ensures forall k :: 0 <= k < i ==> IsSpace(s[k])
    ensures forall k :: i + |r| <= k < |s| ==> IsSpace(s[k])
  {
    forall k | 0 <= k < |r| ensures r[k] == s[i + k] {
      assert s[i..i + |r|][k] == s[i + k];
    }
    forall k | 0 <= k < i ensures IsSpace(s[k]) {
      assert s[..i][k] == s[k];
    }
    forall k | i + |r| <= k < |s| ensures IsSpace(s[k]) {
      assert s[i + |r|..][k - i - |r|] == s[k];
    }
  }

  /** There is only one way to strip a string, so `StrippedOf` pins `Strip` down. */
  lemma StrippedUnique(s: string, r1: string, r2: string)
    requires StrippedOf(s, r1) && StrippedOf(s, r2)
    ensures r1 == r2
  {
    var i1 :| 0 <= i1 <= |s| && StrippedAt(s, r1, i1);
    var i2 :| 0 <= i2 <= |s| && StrippedAt(s, r2, i2);
    StrippedBounds(s, r1, i1);
    StrippedBounds(s, r2, i2);
  }

  lemma StripIs(s: string, r: string, i: int)
    requires StrippedAt(s, r, i)
    ensures Strip(s) == r
  {
    StrippedUnique(s, Strip(s), r);
  }

  /** A string that neither starts nor ends with whitespace is its own stripped form. */
  lemma StripUnpadded(s: string)
    requires s != [] && !IsSpace(s[0]) && !IsSpace(s[|s| - 1])
    ensures Strip(s) == s
  {
    assert s[..0] == [] && s[|s|..] == [] && s[0..|s|] == s;
    StripIs(s, s, 0);
  }

  /** Python's `str.lower()` on ASCII letters. */
  function LowerChar(c: char): char {
    if 'A' <= c <= 'Z' then (c as int + 32) as char else c
  }

  function Lower(s: string): (r: string)
    ensures |r| == |s|
    ensures forall k :: 0 <= k < |s| ==> r[k] == LowerChar(s[k])
  {
    seq(|s|, k requires 0 <= k < |s| => LowerChar(s[k]))
  }
}
