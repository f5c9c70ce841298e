/**
 * The keyword list of the bulk checker (app.py, line 74): the text area is split into
 * lines, each line is stripped of surrounding whitespace, and blank lines are dropped.
 */
module Keywords {
  import opened Strings

  const Newline: string := "\n"

  /** What one line contributes: its stripped form, unless that is empty. */
  function LineKeyword(line: string): seq<string>
  {
    var k := Strip(line);
    if k == [] then [] else [k]
  }

  /** The stripped, non-blank lines, in their original order. */
  function CleanLines(lines: seq<string>): (ks: seq<string>)
    ensures |ks| <= |lines|
    ensures forall j :: 0 <= j < |ks| ==> ks[j] != [] && IsStripped(ks[j])
  {
    if |lines| == 0 then [] else LineKeyword(lines[0]) + CleanLines(lines[1..])
  }

  /**
   * Python's `[k.strip() for k in text.split('\n') if k.strip()]`: every keyword is
   * non-empty and has no whitespace at either end.
   */
  function ParseKeywords(text: string): (ks: seq<string>)
    ensures forall j :: 0 <= j < |ks| ==> ks[j] != [] && IsStripped(ks[j])
  {
    CleanLines(Split(text, Newline))
  }

  /**
   * Cleaning distributes over concatenation: the keywords of earlier lines come first,
   * in order, and each line contributes on its own.
   */
  lemma {:induction false} CleanLinesAppend(a: seq<string>, b: seq<string>)
    ensures CleanLines(a + b) == CleanLines(a) + CleanLines(b)
    decreases |a|
  {
    if |a| == 0 {
      assert a + b == b;
    } else {
      calc {
        CleanLines(a + b);
        { assert (a + b)[0] == a[0]; }
        LineKeyword(a[0]) + CleanLines((a + b)[1..]);
        { assert (a + b)[1..] == a[1..] + b; }
        LineKeyword(a[0]) + CleanLines(a[1..] + b);
        { CleanLinesAppend(a[1..], b); }
        LineKeyword(a[0]) + (CleanLines(a[1..]) + CleanLines(b));
        CleanLines(a) + CleanLines(b);
      }
    }
  }

  /** A string is a keyword exactly when it is the non-blank stripped form of some line. */
  lemma {:induction false} CleanLinesMembership(lines: seq<string>, k: string)
    ensures k in CleanLines(lines) <==> k != [] && exists i :: 0 <= i < |lines| && Strip(lines[i]) == k
    decreases |lines|
  {
    if |lines| > 0 {
      var tail := lines[1..];
      CleanLinesMembership(tail, k);
      assert k in CleanLines(lines) <==> k in LineKeyword(lines[0]) || k in CleanLines(tail);
      assert forall i :: 1 <= i < |lines| ==> lines[i] == tail[i - 1];
      if k != [] && exists i :: 0 <= i < |lines| && Strip(lines[i]) == k {
        var i :| 0 <= i < |lines| && Strip(lines[i]) == k;
        if i > 0 {
          assert Strip(tail[i - 1]) == k;
        }
      }
    }
  }

  /**
   * The keywords of a text are exactly the non-empty strips of its lines, where the
   * lines are the pieces between newlines.
   */
  lemma ParseKeywordsMembership(text: string, k: string)
    ensures k in ParseKeywords(text) <==>
            k != [] && exists i :: 0 <= i < |Split(text, Newline)| && Strip(Split(text, Newline)[i]) == k
  {
    var lines := Split(text, Newline);
    CleanLinesMembership(lines, k);
    assert ParseKeywords(text) == CleanLines(lines);
    if k in ParseKeywords(text) {
      var i :| 0 <= i < |lines| && Strip(lines[i]) == k;
      assert Strip(Split(text, Newline)[i]) == k;
    }
  }

  /**
   * Text that is not all whitespace, which is what the check before parsing demands,
   * yields at least one keyword.
   */
  lemma NonBlankTextHasKeyword(text: string)
    requires Strip(text) != []
    ensures |ParseKeywords(text)| > 0
  {
    var k :| 0 <= k < |text| && !IsSpace(text[k]);
    var lines := Split(text, Newline);
    SplitThenJoin(text, Newline);
    CharOfJoin(lines, Newline, text[k]);
    var i :| 0 <= i < |lines| && text[k] in lines[i];
    assert !AllSpace(lines[i]);
    CleanLinesMembership(lines, Strip(lines[i]));
  }

  /**
   * Text written as lines joined by newlines parses to the cleaned lines: no line is
   * merged with or split from another.
   */
  lemma KeywordsOfJoinedLines(lines: seq<string>)
    requires forall i :: 0 <= i < |lines| ==> '\n' !in lines[i]
    ensures ParseKeywords(Join(lines, Newline)) == CleanLines(lines)
  {
    if lines == [] {
      SplitWithoutSeparator([], '\n');
      assert CleanLines([[]]) == [];
    } else {
      JoinThenSplit(lines, '\n');
    }
  }
}
