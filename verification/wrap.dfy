/** `wordWrap` from src/lib/box.ts: the text is cut at its newlines, and
    every line longer than the width is refilled word by word. Lengths are
    counted in Unicode characters, where the source's `.length` counts UTF-16
    code units: they differ only for characters outside the Basic
    Multilingual Plane. */
module Wrap {
  import opened JsStrings

  /** The pieces of a split are made of the string's characters. */
  lemma {:induction false} SplitChars(s: string, sep: char)
    ensures forall k, c :: 0 <= k < |Split(s, sep)| && c in Split(s, sep)[k] ==> c in s
    decreases |s|
  {
    if |s| > 0 {
      SplitChars(s[1..], sep);
      var rest := Split(s[1..], sep);
      var parts := Split(s, sep);
      if s[0] == sep {
        assert parts == [""] + rest;
        assert forall k :: 1 <= k < |parts| ==> parts[k] == rest[k - 1];
      } else {
        assert parts == [[s[0]] + rest[0]] + rest[1..];
        assert forall k :: 1 <= k < |parts| ==> parts[k] == rest[k];
        forall k, c | 0 <= k < |parts| && c in parts[k]
          ensures c in s
        {
          var i :| 0 <= i < |parts[k]| && parts[k][i] == c;
          if k == 0 && i == 0 {
            assert c == s[0];
          } else {
            var idx := if k == 0 then 0 else k;
            var j := if k == 0 then i - 1 else i;
            assert 0 <= j < |rest[idx]| && rest[idx][j] == c;
            assert c in rest[idx];
            assert c in s[1..];
            var m :| 0 <= m < |s[1..]| && s[1..][m] == c;
            assert s[m + 1] == c;
          }
        }
      }
    }
  }

  /** The refill loop over the words of one over-long line. A word that
      would push the line past the width closes the line so far (trimmed)
      and starts the next one; a closing line that is still open at the
      end is emitted when it is not empty. */
  function FillWords(words: seq<string>, current: string, maxWidth: int): seq<string>
    decreases |words|
  {
    if |words| == 0 then (if current != "" then [current] else [])
    else
      var joined := Trim(current + " " + words[0]);
      if |joined| > maxWidth then [Trim(current)] + FillWords(words[1..], words[0], maxWidth)
      else FillWords(words[1..], joined, maxWidth)
  }

  /** A line the wrapper may emit: within the width, or one word with no
      space in it. */
  predicate WithinOrWord(line: string, maxWidth: int) {
    |line| <= maxWidth || ' ' !in line
  }

  /** The line closed by an over-long word, and the word that opens the
      next one, are both within the width or space-free. */
  lemma ClosedLineFits(current: string, w: string, maxWidth: int)
    requires ' ' !in w
    requires WithinOrWord(current, maxWidth)
    ensures WithinOrWord(Trim(current), maxWidth) && WithinOrWord(w, maxWidth)
  {
    TrimChars(current);
  }

  /** The step where a word does not fit: the line so far is closed. */
  lemma FillWordsCloses(words: seq<string>, current: string, maxWidth: int)
    requires |words| > 0 && |Trim(current + " " + words[0])| > maxWidth
    ensures FillWords(words, current, maxWidth) == [Trim(current)] + FillWords(words[1..], words[0], maxWidth)
  {
  }

  /** The step where a word fits: it joins the line so far. */
  lemma FillWordsJoins(words: seq<string>, current: string, maxWidth: int)
    requires |words| > 0 && |Trim(current + " " + words[0])| <= maxWidth
    ensures FillWords(words, current, maxWidth) == FillWords(words[1..], Trim(current + " " + words[0]), maxWidth)
  {
  }

  lemma ConsFits(x: string, rest: seq<string>, maxWidth: int)
    requires WithinOrWord(x, maxWidth)
    requires forall k :: 0 <= k < |rest| ==> WithinOrWord(rest[k], maxWidth)
    ensures forall k :: 0 <= k < |[x] + rest| ==> WithinOrWord(([x] + rest)[k], maxWidth)
  {
    assert forall k :: 1 <= k < |[x] + rest| ==> ([x] + rest)[k] == rest[k - 1];
  }

  /** Every line the refill loop emits is within the width or a single
      word. */
  lemma {:induction false} FillWordsFits(words: seq<string>, current: string, maxWidth: int)
    requires forall k :: 0 <= k < |words| ==> ' ' !in words[k]
    requires WithinOrWord(current, maxWidth)
    ensures forall k :: 0 <= k < |FillWords(words, current, maxWidth)| ==>
      WithinOrWord(FillWords(words, current, maxWidth)[k], maxWidth)
    decreases |words|
  {
    if |words| > 0 {
      var w := words[0];
      var tail := words[1..];
      assert forall k :: 0 <= k < |tail| ==> tail[k] == words[k + 1];
      if |Trim(current + " " + w)| > maxWidth {
        FillWordsCloses(words, current, maxWidth);
        ClosedLineFits(current, w, maxWidth);
        FillWordsFits(tail, w, maxWidth);
        ConsFits(Trim(current), FillWords(tail, w, maxWidth), maxWidth);
      } else {
        FillWordsJoins(words, current, maxWidth);
        FillWordsFits(tail, Trim(current + " " + w), maxWidth);
      }
    }
  }

  /** No line the refill loop emits contains a character that none of its
      inputs contains. */
  lemma {:induction false} FillWordsAvoids(words: seq<string>, current: string, maxWidth: int, c: char)
    requires c != ' '
    requires forall k :: 0 <= k < |words| ==> c !in words[k]
    requires c !in current
    ensures forall k :: 0 <= k < |FillWords(words, current, maxWidth)| ==>
      c !in FillWords(words, current, maxWidth)[k]
    decreases |words|
  {
    if |words| > 0 {
      var w := words[0];
      var tail := words[1..];
      assert forall k :: 0 <= k < |tail| ==> tail[k] == words[k + 1];
      if |Trim(current + " " + w)| > maxWidth {
        FillWordsCloses(words, current, maxWidth);
        TrimChars(current);
        FillWordsAvoids(tail, w, maxWidth, c);
        ConsAvoids(Trim(current), FillWords(tail, w, maxWidth), c);
      } else {
        FillWordsJoins(words, current, maxWidth);
        JoinedAvoids(current, w, c);
        FillWordsAvoids(tail, Trim(current + " " + w), maxWidth, c);
      }
    }
  }

  /** Joining a word to the line so far, with a space, brings in no
      character other than the space. */
  lemma JoinedAvoids(current: string, w: string, c: char)
    requires c != ' ' && c !in current && c !in w
    ensures c !in Trim(current + " " + w)
  {
    TrimChars(current + " " + w);
  }

  lemma ConsAvoids(x: string, rest: seq<string>, c: char)
    requires c !in x
    requires forall k :: 0 <= k < |rest| ==> c !in rest[k]
    ensures forall k :: 0 <= k < |[x] + rest| ==> c !in ([x] + rest)[k]
  {
    assert forall k :: 1 <= k < |[x] + rest| ==> ([x] + rest)[k] == rest[k - 1];
  }

  /** The refill of one whole line keeps both line properties. */
  lemma FillLineFits(line: string, maxWidth: int)
    ensures forall k :: 0 <= k < |FillWords(Split(line, ' '), "", maxWidth)| ==>
      WithinOrWord(FillWords(Split(line, ' '), "", maxWidth)[k], maxWidth)
    ensures '\n' !in line ==> forall k :: 0 <= k < |FillWords(Split(line, ' '), "", maxWidth)| ==>
      '\n' !in FillWords(Split(line, ' '), "", maxWidth)[k]
  {
    var words := Split(line, ' ');
    FillWordsFits(words, "", maxWidth);
    if '\n' !in line {
      SplitChars(line, ' ');
      FillWordsAvoids(words, "", maxWidth, '\n');
    }
  }

  /** One line of the text: kept whole when it fits, refilled otherwise.
      Every emitted line is within the width or one space-free word, and a
      line without newlines gives lines without newlines. */
  function WrapLine(line: string, maxWidth: int): (r: seq<string>)
    ensures |line| <= maxWidth ==> r == [line]
    ensures forall k :: 0 <= k < |r| ==> WithinOrWord(r[k], maxWidth)
    ensures '\n' !in line ==> forall k :: 0 <= k < |r| ==> '\n' !in r[k]
  {
    if |line| <= maxWidth then [line]
    else
      FillLineFits(line, maxWidth);
      FillWords(Split(line, ' '), "", maxWidth)
  }

  function WrapLines(lines: seq<string>, maxWidth: int): (r: seq<string>)
    ensures forall k :: 0 <= k < |r| ==> WithinOrWord(r[k], maxWidth)
    ensures (forall k :: 0 <= k < |lines| ==> '\n' !in lines[k]) ==> forall k :: 0 <= k < |r| ==> '\n' !in r[k]
    decreases |lines|
  {
    if |lines| == 0 then []
    else WrapLine(lines[0], maxWidth) + WrapLines(lines[1..], maxWidth)
  }

  /** `wordWrap(text, maxWidth)`. Every line it returns is within the
      width or a single space-free word, and none contains a newline. */
  function WordWrap(text: string, maxWidth: int): (r: seq<string>)
    ensures forall k :: 0 <= k < |r| ==> WithinOrWord(r[k], maxWidth)
    ensures forall k :: 0 <= k < |r| ==> '\n' !in r[k]
  {
    WrapLines(Split(text, '\n'), maxWidth)
  }

  /** Wrapping several lines is wrapping each on its own, in order. */
  lemma {:induction false} WrapLinesAppend(a: seq<string>, b: seq<string>, maxWidth: int)
    ensures WrapLines(a + b, maxWidth) == WrapLines(a, maxWidth) + WrapLines(b, maxWidth)
    decreases |a|
  {
    if |a| == 0 {
      assert a + b == b;
    } else {
      assert (a + b)[0] == a[0] && (a + b)[1..] == a[1..] + b;
      WrapLinesAppend(a[1..], b, maxWidth);
    }
  }

  /** `wordWrap` works line by line: the first line of the text is wrapped
      on its own, ahead of the rest, and kept whole when it fits. */
  lemma WordWrapLineByLine(line: string, rest: string, maxWidth: int)
    requires '\n' !in line
    ensures WordWrap(line + "\n" + rest, maxWidth) == WrapLine(line, maxWidth) + WordWrap(rest, maxWidth)
    ensures |line| <= maxWidth ==> WordWrap(line + "\n" + rest, maxWidth) == [line] + WordWrap(rest, maxWidth)
  {
    SplitAtFirst(line, rest, '\n');
    WrapLinesAppend([line], Split(rest, '\n'), maxWidth);
    assert [line][1..] == [];
  }

  lemma {:induction false} WrapLinesOfFitting(lines: seq<string>, maxWidth: int)
    requires forall k :: 0 <= k < |lines| ==> |lines[k]| <= maxWidth
    ensures WrapLines(lines, maxWidth) == lines
    decreases |lines|
  {
    if |lines| > 0 {
      WrapLinesOfFitting(lines[1..], maxWidth);
      assert lines == [lines[0]] + lines[1..];
    }
  }

  /** A text whose every line fits comes back line for line, and joining
      the result with newlines gives the text back. */
  lemma WordWrapKeepsFittingText(text: string, maxWidth: int)
    requires forall k :: 0 <= k < |Split(text, '\n')| ==> |Split(text, '\n')[k]| <= maxWidth
    ensures WordWrap(text, maxWidth) == Split(text, '\n')
    ensures Join(WordWrap(text, maxWidth), "\n") == text
  {
    WrapLinesOfFitting(Split(text, '\n'), maxWidth);
  }

  /** The empty text wraps to one empty line. */
  lemma WrapEmpty(maxWidth: int)
    requires maxWidth >= 0
    ensures WordWrap("", maxWidth) == [""]
  {
    assert Split("", '\n') == [""];
    assert [""][1..] == [];
    assert WrapLines([""], maxWidth) == WrapLine("", maxWidth) + WrapLines([], maxWidth);
  }

  /** A line whose first word has no whitespace and is longer than the
      width starts its output with an empty line: the line closed before
      that word is the empty line the loop began with. */
  lemma OverlongFirstWordLeavesBlankLine(line: string, maxWidth: int)
    requires |line| > maxWidth
    requires forall c :: c in Split(line, ' ')[0] ==> !IsWhitespace(c)
    requires |Split(line, ' ')[0]| > maxWidth
    ensures |WrapLine(line, maxWidth)| >= 1 && WrapLine(line, maxWidth)[0] == ""
  {
    var words := Split(line, ' ');
    var w := words[0];
    var s := "" + " " + w;
    assert s[1..] == w;
    assert TrimStart(s) == TrimStart(w);
    if |w| > 0 {
      assert !IsWhitespace(w[0]) && !IsWhitespace(w[|w| - 1]);
      TrimOfTrimmed(w);
    }
    assert Trim(s) == w;
    assert FillWords(words, "", maxWidth) == [Trim("")] + FillWords(words[1..], w, maxWidth);
  }

  // Words survive the refill.

  /** The words of a line: its space-separated pieces that are not empty. */
  function Words(s: string): seq<string> {
    NonEmpty(Split(s, ' '))
  }

  /** The words of several lines, in order. */
  function WordsOf(lines: seq<string>): seq<string>
    decreases |lines|
  {
    if |lines| == 0 then [] else Words(lines[0]) + WordsOf(lines[1..])
  }

  /** The only whitespace in `s` is the plain space. */
  predicate Plain(s: string) {
    forall c :: c in s && IsWhitespace(c) ==> c == ' '
  }

  lemma {:induction false} WordsOfAppend(a: seq<string>, b: seq<string>)
    ensures WordsOf(a + b) == WordsOf(a) + WordsOf(b)
    decreases |a|
  {
    if |a| == 0 {
      assert a + b == b;
    } else {
      assert (a + b)[0] == a[0];
      assert (a + b)[1..] == a[1..] + b;
      WordsOfAppend(a[1..], b);
    }
  }

  /** Splitting at one occurrence of the separator splits each side. */
  lemma SplitAround(a: string, b: string, sep: char)
    ensures Split(a + [sep] + b, sep) == Split(a, sep) + Split(b, sep)
  {
    var pa := Split(a, sep);
    var pb := Split(b, sep);
    JoinAppend(pa, pb, [sep]);
    assert forall k :: 0 <= k < |pa + pb| ==> sep !in (pa + pb)[k] by {
      forall k | 0 <= k < |pa + pb|
        ensures sep !in (pa + pb)[k]
      {
        if k < |pa| { assert (pa + pb)[k] == pa[k]; } else { assert (pa + pb)[k] == pb[k - |pa|]; }
      }
    }
    SplitJoin(pa + pb, sep);
  }

  /** One space between two strings separates their words. */
  lemma WordsAround(a: string, b: string)
    ensures Words(a + " " + b) == Words(a) + Words(b)
  {
    SplitAround(a, b, ' ');
    NonEmptyAppend(Split(a, ' '), Split(b, ' '));
  }

  lemma WordsOfWord(w: string)
    requires ' ' !in w
    ensures Words(w) == NonEmpty([w])
  {
    SplitJoin([w], ' ');
  }

  lemma WordsOfEmpty()
    ensures Words("") == []
  {
  }

  /** A leading space separates nothing: dropping it keeps the words and
      the trim. */
  lemma LeadingSpace(s: string)
    requires Plain(s) && |s| > 0 && IsWhitespace(s[0])
    ensures Plain(s[1..]) && Words(s) == Words(s[1..]) && Trim(s) == Trim(s[1..])
  {
    assert s[0] in s;
    assert s == "" + " " + s[1..];
    WordsAround("", s[1..]);
    WordsOfEmpty();
    assert Plain(s[1..]) by {
      forall c | c in s[1..] && IsWhitespace(c)
        ensures c == ' '
      {
        var i :| 0 <= i < |s[1..]| && s[1..][i] == c;
        assert s[i + 1] == c;
      }
    }
  }

  /** A trailing space after a non-space start separates nothing either. */
  lemma TrailingSpace(s: string)
    requires Plain(s) && |s| > 0 && !IsWhitespace(s[0]) && IsWhitespace(s[|s| - 1])
    ensures Plain(s[..|s| - 1]) && Words(s) == Words(s[..|s| - 1]) && Trim(s) == Trim(s[..|s| - 1])
  {
    var p := s[..|s| - 1];
    assert s[|s| - 1] in s;
    assert s == p + " " + "";
    WordsAround(p, "");
    WordsOfEmpty();
    assert TrimStart(s) == s;
    assert |p| > 0 ==> p[0] == s[0];
    assert TrimStart(p) == p;
    assert TrimEnd(s) == TrimEnd(p);
    assert Plain(p) by {
      forall c | c in p && IsWhitespace(c)
        ensures c == ' '
      {
        var i :| 0 <= i < |p| && p[i] == c;
        assert s[i] == c;
      }
    }
  }

  /** Trimming a plain string keeps its words. */
  lemma {:induction false} WordsOfTrim(s: string)
    requires Plain(s)
    ensures Words(Trim(s)) == Words(s)
    decreases |s|
  {
    if |s| > 0 && IsWhitespace(s[0]) {
      LeadingSpace(s);
      WordsOfTrim(s[1..]);
    } else if |s| > 0 && IsWhitespace(s[|s| - 1]) {
      TrailingSpace(s);
      WordsOfTrim(s[..|s| - 1]);
    } else {
      TrimOfTrimmed(s);
    }
  }

  lemma FillWordsEnds(current: string, maxWidth: int)
    ensures WordsOf(FillWords([], current, maxWidth)) == Words(current)
  {
    if current == "" {
      WordsOfEmpty();
    } else {
      assert WordsOf([current]) == Words(current) + WordsOf([]);
    }
  }

  lemma HeadWords(words: seq<string>)
    requires |words| > 0 && ' ' !in words[0]
    ensures NonEmpty(words) == Words(words[0]) + NonEmpty(words[1..])
  {
    assert words == [words[0]] + words[1..];
    NonEmptyAppend([words[0]], words[1..]);
    WordsOfWord(words[0]);
  }

  /** Closing a plain line keeps its words ahead of the ones after it. */
  lemma ClosedKeepsWords(current: string, rest: seq<string>)
    requires Plain(current)
    ensures WordsOf([Trim(current)] + rest) == Words(current) + WordsOf(rest)
  {
    WordsOfTrim(current);
    var r := [Trim(current)] + rest;
    assert r[0] == Trim(current) && r[1..] == rest;
  }

  /** A word joined to a plain line follows the line's words. */
  lemma JoinedKeepsWords(current: string, w: string)
    requires Plain(current) && Plain(w)
    ensures Plain(Trim(current + " " + w))
    ensures Words(Trim(current + " " + w)) == Words(current) + Words(w)
  {
    var s := current + " " + w;
    assert Plain(s);
    WordsAround(current, w);
    WordsOfTrim(s);
    TrimChars(s);
  }

  lemma Regroup(a: seq<string>, b: seq<string>, c: seq<string>, j: seq<string>)
    requires j == a + b
    ensures j + c == a + (b + c)
  {
  }

  /** The refill loop emits the words of the line so far followed by the
      remaining words, in order. */
  lemma {:induction false} FillWordsKeepsWords(words: seq<string>, current: string, maxWidth: int)
    requires forall k :: 0 <= k < |words| ==> ' ' !in words[k] && Plain(words[k])
    requires Plain(current)
    ensures WordsOf(FillWords(words, current, maxWidth)) == Words(current) + NonEmpty(words)
    decreases |words|
  {
    if |words| == 0 {
      FillWordsEnds(current, maxWidth);
    } else {
      var w := words[0];
      var tail := words[1..];
      assert forall k :: 0 <= k < |tail| ==> tail[k] == words[k + 1];
      HeadWords(words);
      if |Trim(current + " " + w)| > maxWidth {
        FillWordsCloses(words, current, maxWidth);
        FillWordsKeepsWords(tail, w, maxWidth);
        ClosedKeepsWords(current, FillWords(tail, w, maxWidth));
      } else {
        var joined := Trim(current + " " + w);
        FillWordsJoins(words, current, maxWidth);
        JoinedKeepsWords(current, w);
        FillWordsKeepsWords(tail, joined, maxWidth);
        Regroup(Words(current), Words(w), NonEmpty(tail), Words(joined));
      }
    }
  }

  lemma SplitPlain(s: string, sep: char)
    requires forall c :: c in s && IsWhitespace(c) ==> c == ' ' || c == sep
    ensures forall k :: 0 <= k < |Split(s, sep)| ==> Plain(Split(s, sep)[k])
  {
    SplitChars(s, sep);
  }

  /** Refilling a plain line keeps its words in order. */
  lemma WrapLineKeepsWords(line: string, maxWidth: int)
    requires Plain(line)
    ensures WordsOf(WrapLine(line, maxWidth)) == Words(line)
  {
    if |line| <= maxWidth {
      assert WordsOf([line]) == Words(line) + WordsOf([]);
    } else {
      var words := Split(line, ' ');
      SplitPlain(line, ' ');
      FillWordsKeepsWords(words, "", maxWidth);
      WordsOfEmpty();
    }
  }

  lemma {:induction false} WrapLinesKeepsWords(lines: seq<string>, maxWidth: int)
    requires forall k :: 0 <= k < |lines| ==> Plain(lines[k])
    ensures WordsOf(WrapLines(lines, maxWidth)) == WordsOf(lines)
    decreases |lines|
  {
    if |lines| > 0 {
      WrapLineKeepsWords(lines[0], maxWidth);
      WrapLinesKeepsWords(lines[1..], maxWidth);
      WordsOfAppend(WrapLine(lines[0], maxWidth), WrapLines(lines[1..], maxWidth));
    }
  }

  /** Wrapping a text whose only whitespace is spaces and newlines keeps
      the words of its lines in their order. */
  lemma WordWrapKeepsWords(text: string, maxWidth: int)
    requires forall c :: c in text && IsWhitespace(c) ==> c == ' ' || c == '\n'
    ensures WordsOf(WordWrap(text, maxWidth)) == WordsOf(Split(text, '\n'))
  {
    SplitPlain(text, '\n');
    WrapLinesKeepsWords(Split(text, '\n'), maxWidth);
  }
}
