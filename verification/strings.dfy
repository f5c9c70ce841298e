/**
 * The Python `str` operations the ranking checker relies on, over `seq<char>`:
 * `strip()`, `lower()`, `in`, `replace(old, new)` and `split(sep)`, plus
 * `sep.join(parts)`, which the checker does not call but which gives the reference
 * reading of `replace` and the inverse of `split`.
 */
module Strings {

  /** Python's `str.isspace()`: the code points `strip()` with no argument removes. */
  predicate IsSpace(c: char) {
    || ('\t' <= c <= '\r')
    || ('\U{1C}' <= c <= ' ')
    || c == '\U{85}' || c == '\U{A0}' || c == '\U{1680}'
    || ('\U{2000}' <= c <= '\U{200A}')
    || c == '\U{2028}' || c == '\U{2029}' || c == '\U{202F}' || c == '\U{205F}' || c == '\U{3000}'
  }

  predicate AllSpace(s: string) {
    forall i :: 0 <= i < |s| ==> IsSpace(s[i])
  }

  /** No whitespace at either end: what `strip()` leaves behind. */
  predicate IsStripped(s: string) {
    s == [] || (!IsSpace(s[0]) && !IsSpace(s[|s| - 1]))
  }

  /** Python's `s.lstrip()`. */
  function TrimStart(s: string): (r: string)
    ensures |r| <= |s|
  {
    if |s| > 0 && IsSpace(s[0]) then TrimStart(s[1..]) else s
  }

  /** Python's `s.rstrip()`. */
  function TrimEnd(s: string): (r: string)
    ensures |r| <= |s|
  {
    if |s| > 0 && IsSpace(s[|s| - 1]) then TrimEnd(s[..|s| - 1]) else s
  }

  /** `lstrip()` drops a run of whitespace from the front and stops at the first other character. */
  lemma {:induction false} TrimStartIsSuffix(s: string)
    ensures var r := TrimStart(s);
      && |r| <= |s|
      && r == s[|s| - |r|..]
      && (forall k :: 0 <= k < |s| - |r| ==> IsSpace(s[k]))
      && (r == [] || !IsSpace(r[0]))
    decreases |s|
  {
    if |s| > 0 && IsSpace(s[0]) {
      TrimStartIsSuffix(s[1..]);
      assert forall k :: 1 <= k < |s| ==> s[1..][k - 1] == s[k];
    }
  }

  /** `rstrip()` drops a run of whitespace from the back and stops at the last other character. */
  lemma {:induction false} TrimEndIsPrefix(s: string)
    ensures var r := TrimEnd(s);
      && |r| <= |s|
      && r == s[..|r|]
      && (forall k :: |r| <= k < |s| ==> IsSpace(s[k]))
      && (r == [] || !IsSpace(r[|r| - 1]))
    decreases |s|
  {
    if |s| > 0 && IsSpace(s[|s| - 1]) {
      TrimEndIsPrefix(s[..|s| - 1]);
      assert forall k :: 0 <= k < |s| - 1 ==> s[..|s| - 1][k] == s[k];
    }
  }

  /**
   * Python's `s.strip()`: the result has no whitespace at either end, is empty exactly
   * when `s` is all whitespace, and is `s` itself when `s` has none at either end.
   */
  function Strip(s: string): (r: string)
    ensures IsStripped(r)
    ensures r == [] <==> AllSpace(s)
    ensures IsStripped(s) ==> r == s
  {
    var t := TrimStart(s);
    TrimStartIsSuffix(s);
    TrimEndIsPrefix(t);
    assert TrimEnd(t) != [] ==> !IsSpace(TrimEnd(t)[0]) by {
      if TrimEnd(t) != [] { assert TrimEnd(t)[0] == t[0]; }
    }
    assert TrimEnd(t) == [] ==> AllSpace(s) by {
      if TrimEnd(t) == [] {
        assert forall k :: |s| - |t| <= k < |s| ==> s[k] == t[k - (|s| - |t|)];
      }
    }
    TrimEnd(t)
  }

  /**
   * What `strip()` removes is whitespace: the result is the part of `s` that starts
   * after the leading whitespace and is followed only by whitespace.
   */
  lemma StripIsMiddle(s: string)
    ensures var i := |s| - |TrimStart(s)|;
      var r := Strip(s);
      && i + |r| <= |s|
      && s[i..i + |r|] == r
      && (forall k :: 0 <= k < i ==> IsSpace(s[k]))
      && (forall k :: i + |r| <= k < |s| ==> IsSpace(s[k]))
  {
    var t := TrimStart(s);
    TrimStartIsSuffix(s);
    TrimEndIsPrefix(t);
    var i := |s| - |t|;
    var r := TrimEnd(t);
    assert r == Strip(s);
    assert s[i..i + |r|] == t[..|r|];
    forall k | i + |r| <= k < |s|
      ensures IsSpace(s[k])
    {
      assert s[k] == t[k - i];
    }
  }

  predicate IsUpper(c: char) {
    'A' <= c <= 'Z'
  }

  /** No upper-case ASCII letter anywhere in `s`. */
  predicate NoUpper(s: string) {
    forall i :: 0 <= i < |s| ==> !IsUpper(s[i])
  }

  function LowerChar(c: char): (d: char)
    ensures !IsUpper(d)
    ensures !IsUpper(c) ==> d == c
  {
    if IsUpper(c) then (c as int + 32) as char else c
  }

  lemma NoUpperConcat(a: string, b: string)
    requires NoUpper(a) && NoUpper(b)
    ensures NoUpper(a + b)
  {
    assert forall k :: |a| <= k < |a + b| ==> (a + b)[k] == b[k - |a|];
  }

  /**
   * Python's `s.lower()` restricted to ASCII letters: the result has no upper-case
   * letter and leaves a string that already has none unchanged.
   */
  function Lower(s: string): (r: string)
    ensures |r| == |s|
    ensures forall i :: 0 <= i < |s| ==> r[i] == LowerChar(s[i])
    ensures NoUpper(r)
    ensures NoUpper(s) ==> r == s
  {
    seq(|s|, i requires 0 <= i < |s| => LowerChar(s[i]))
  }

  predicate IsPrefix(p: string, s: string) {
    |p| <= |s| && s[..|p|] == p
  }

  /** `pat` occurs in `text` starting at index `i`. */
  ghost predicate OccursAt(text: string, pat: string, i: int) {
    0 <= i && i + |pat| <= |text| && text[i..i + |pat|] == pat
  }

  /** Python's `pat in text`, as a left-to-right scan. */
  predicate Contains(text: string, pat: string)
    decreases |text|
  {
    IsPrefix(pat, text) || (|text| > 0 && Contains(text[1..], pat))
  }

  /** The scan agrees with the textbook meaning of substring containment. */
  lemma {:induction false} ContainsIff(text: string, pat: string)
    ensures Contains(text, pat) <==> exists i :: OccursAt(text, pat, i)
    decreases |text|
  {
    if IsPrefix(pat, text) {
      assert OccursAt(text, pat, 0);
    } else if |text| > 0 {
      ContainsIff(text[1..], pat);
      if Contains(text[1..], pat) {
        var i :| OccursAt(text[1..], pat, i);
        assert text[i + 1..i + 1 + |pat|] == text[1..][i..i + |pat|];
        assert OccursAt(text, pat, i + 1);
      } else {
        forall i | OccursAt(text, pat, i) ensures false {
          assert i != 0;
          assert text[1..][i - 1..i - 1 + |pat|] == text[i..i + |pat|];
          assert OccursAt(text[1..], pat, i - 1);
        }
      }
    }
  }

  /** The empty string is contained in every string, as in Python. */
  lemma EmptyIsContained(text: string)
    ensures Contains(text, [])
  {
  }

  /**
   * Python's `s.replace(pat, rep)` for a non-empty `pat`: every occurrence, found left
   * to right without overlap, is replaced. A string in which `pat` does not occur is
   * returned unchanged.
   */
  function ReplaceAll(s: string, pat: string, rep: string): (r: string)
    requires |pat| > 0
    ensures !Contains(s, pat) ==> r == s
    decreases |s|
  {
    if |s| < |pat| then s
    else if s[..|pat|] == pat then rep + ReplaceAll(s[|pat|..], pat, rep)
    else
      var tail := ReplaceAll(s[1..], pat, rep);
      assert s == [s[0]] + s[1..];
      [s[0]] + tail
  }

  /** Every character of a replacement's result comes from the string or from `rep`. */
  lemma {:induction false} ReplaceAllChars(s: string, pat: string, rep: string)
    requires |pat| > 0
    ensures forall c :: c in ReplaceAll(s, pat, rep) ==> c in s || c in rep
    decreases |s|
  {
    if |s| < |pat| {
    } else if s[..|pat|] == pat {
      ReplaceAllChars(s[|pat|..], pat, rep);
    } else {
      ReplaceAllChars(s[1..], pat, rep);
    }
  }

  /** A needle holding a character the text lacks does not occur in the text. */
  lemma {:induction false} MissingCharNotContained(text: string, pat: string, c: char)
    requires c in pat && c !in text
    ensures !Contains(text, pat)
    decreases |text|
  {
    if |text| > 0 {
      MissingCharNotContained(text[1..], pat, c);
    }
  }

  /** A needle longer than the text does not occur in it. */
  lemma {:induction false} LongerNotContained(text: string, pat: string)
    requires |text| < |pat|
    ensures !Contains(text, pat)
    decreases |text|
  {
    if |text| > 0 {
      LongerNotContained(text[1..], pat);
    }
  }

  /** Removing `pat` from `pat + rest` leaves `rest` when `pat` does not occur in it. */
  lemma RemoveLeadingOccurrence(pat: string, rest: string)
    requires |pat| > 0 && !Contains(rest, pat)
    ensures ReplaceAll(pat + rest, pat, "") == rest
  {
    var s := pat + rest;
    assert s[..|pat|] == pat && s[|pat|..] == rest;
  }

  /**
   * Python's `s.split(sep)` for a non-empty `sep`: the pieces between the occurrences
   * of `sep`, found left to right. There is always at least one piece, and the first
   * is a prefix of `s`.
   */
  function Split(s: string, sep: string): (parts: seq<string>)
    requires |sep| > 0
    ensures |parts| > 0
    ensures IsPrefix(parts[0], s)
    decreases |s|
  {
    if |s| < |sep| then [s]
    else if s[..|sep|] == sep then [[]] + Split(s[|sep|..], sep)
    else
      var rest := Split(s[1..], sep);
      [[s[0]] + rest[0]] + rest[1..]
  }

  /** No piece of a split on one character contains that character. */
  lemma {:induction false} SplitPiecesLackSeparator(s: string, c: char)
    ensures forall k :: 0 <= k < |Split(s, [c])| ==> c !in Split(s, [c])[k]
    decreases |s|
  {
    if |s| < 1 {
    } else if s[..1] == [c] {
      SplitPiecesLackSeparator(s[1..], c);
      var rest := Split(s[1..], [c]);
      assert Split(s, [c]) == [[]] + rest;
    } else {
      SplitPiecesLackSeparator(s[1..], c);
      var rest := Split(s[1..], [c]);
      assert s[0] != c by { assert s[..1] == [s[0]]; }
      assert Split(s, [c]) == [[s[0]] + rest[0]] + rest[1..];
    }
  }

  /** Python's `sep.join(parts)`. */
  function Join(parts: seq<string>, sep: string): string
  {
    if |parts| == 0 then []
    else if |parts| == 1 then parts[0]
    else parts[0] + sep + Join(parts[1..], sep)
  }

  lemma JoinConsFirst(c: char, parts: seq<string>, sep: string)
    requires |parts| > 0
    ensures Join([[c] + parts[0]] + parts[1..], sep) == [c] + Join(parts, sep)
  {
    var q := [[c] + parts[0]] + parts[1..];
    assert q[1..] == parts[1..];
  }

  /**
   * Replace-all agrees with `rep.join(s.split(pat))` on every input: the two
   * definitions above are two readings of the same operation.
   */
  lemma {:induction false} ReplaceIsSplitJoin(s: string, pat: string, rep: string)
    requires |pat| > 0
    ensures ReplaceAll(s, pat, rep) == Join(Split(s, pat), rep)
    decreases |s|
  {
    if |s| < |pat| {
    } else if s[..|pat|] == pat {
      var rest := Split(s[|pat|..], pat);
      calc {
        ReplaceAll(s, pat, rep);
        rep + ReplaceAll(s[|pat|..], pat, rep);
        { ReplaceIsSplitJoin(s[|pat|..], pat, rep); }
        rep + Join(rest, rep);
        { assert ([[]] + rest)[1..] == rest; }
        Join([[]] + rest, rep);
      }
    } else {
      var rest := Split(s[1..], pat);
      calc {
        ReplaceAll(s, pat, rep);
        [s[0]] + ReplaceAll(s[1..], pat, rep);
        { ReplaceIsSplitJoin(s[1..], pat, rep); }
        [s[0]] + Join(rest, rep);
        { JoinConsFirst(s[0], rest, rep); }
        Join([[s[0]] + rest[0]] + rest[1..], rep);
      }
    }
  }

  lemma {:induction false} ReplaceBySelf(s: string, pat: string)
    requires |pat| > 0
    ensures ReplaceAll(s, pat, pat) == s
    decreases |s|
  {
    if |s| < |pat| {
    } else if s[..|pat|] == pat {
      ReplaceBySelf(s[|pat|..], pat);
      assert s == s[..|pat|] + s[|pat|..];
    } else {
      ReplaceBySelf(s[1..], pat);
      assert s == [s[0]] + s[1..];
    }
  }

  /** Joining the pieces of a split with the same separator gives back the string. */
  lemma SplitThenJoin(s: string, sep: string)
    requires |sep| > 0
    ensures Join(Split(s, sep), sep) == s
  {
    ReplaceIsSplitJoin(s, sep, sep);
    ReplaceBySelf(s, sep);
  }

  lemma {:induction false} SplitWithoutSeparator(s: string, c: char)
    requires c !in s
    ensures Split(s, [c]) == [s]
    decreases |s|
  {
    if |s| >= 1 {
      assert s[..1] == [s[0]];
      SplitWithoutSeparator(s[1..], c);
      assert s == [s[0]] + s[1..];
    }
  }

  lemma {:induction false} SplitAfterPiece(p: string, c: char, t: string)
    requires c !in p
    ensures Split(p + [c] + t, [c]) == [p] + Split(t, [c])
    decreases |p|
  {
    var s := p + [c] + t;
    if p == [] {
      assert s[..1] == [c];
      assert s[1..] == t;
    } else {
      assert s[..1] == [p[0]];
      assert s[1..] == p[1..] + [c] + t;
      SplitAfterPiece(p[1..], c, t);
      assert [p[0]] + p[1..] == p;
    }
  }

  /**
   * Splitting a join on a one-character separator recovers the pieces, provided no
   * piece contains the separator.
   */
  lemma {:induction false} JoinThenSplit(parts: seq<string>, c: char)
    requires |parts| > 0
    requires forall k :: 0 <= k < |parts| ==> c !in parts[k]
    ensures Split(Join(parts, [c]), [c]) == parts
    decreases |parts|
  {
    if |parts| == 1 {
      SplitWithoutSeparator(parts[0], c);
    } else {
      JoinThenSplit(parts[1..], c);
      SplitAfterPiece(parts[0], c, Join(parts[1..], [c]));
      assert parts == [parts[0]] + parts[1..];
    }
  }

  /** A character of a join that is not in the separator comes from one of the pieces. */
  lemma {:induction false} CharOfJoin(parts: seq<string>, sep: string, c: char)
    requires c in Join(parts, sep)
    requires c !in sep
    ensures exists k :: 0 <= k < |parts| && c in parts[k]
    decreases |parts|
  {
    if |parts| == 1 {
      assert c in parts[0];
    } else {
      assert |parts| > 1;
      if c !in parts[0] {
        CharOfJoin(parts[1..], sep, c);
        var k :| 0 <= k < |parts| - 1 && c in parts[1..][k];
        assert c in parts[k + 1];
      }
    }
  }
}
