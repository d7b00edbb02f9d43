/** `parseTmuxCommandSpec` (tmuxCommandSpecGenerator.js): reads one line of
    tmux's usage summary, such as `kill-window (killw) [-a] [-t target-window]`,
    into the command's name, alias, flags, options and positional arguments.
    Each regular expression of the source is written out as the scan it
    performs, with JavaScript's leftmost, non-overlapping `matchAll`. */
module SpecParser {
  import opened JsStrings
  import opened Outcomes

  /** What one command accepts. */
  datatype Usage = Usage(alias: Option<string>, flags: seq<string>, options: seq<string>, args: seq<string>)

  /** The object keyed by the command's name, or the error thrown. */
  datatype Parsed = Parsed(spec: map<string, Usage>) | ParseError(message: string)

  /** `[a-zA-Z]` */
  predicate IsAsciiLetter(c: char) {
    ('a' <= c <= 'z') || ('A' <= c <= 'Z')
  }

  /** `\w` */
  predicate IsWordChar(c: char) {
    IsAsciiLetter(c) || ('0' <= c <= '9') || c == '_'
  }

  predicate NoWhitespace(s: string) {
    forall i :: 0 <= i < |s| ==> !IsWhitespace(s[i])
  }

  predicate Lacks(s: string, c: char) {
    forall i :: 0 <= i < |s| ==> s[i] != c
  }

  // ----- name and alias: /^(\S+)(?: \((\S+)\))?/ -----

  /** The length of the leading run of non-whitespace: greedy `\S+`. */
  function TokenLength(s: string): (n: nat)
    ensures n <= |s| && NoWhitespace(s[..n])
    ensures n < |s| ==> IsWhitespace(s[n])
    decreases |s|
  {
    if |s| == 0 || IsWhitespace(s[0]) then 0
    else
      var n := 1 + TokenLength(s[1..]);
      assert forall i :: 1 <= i < n ==> s[..n][i] == s[1..][..n - 1][i - 1];
      n
  }

  /** `name` is the leading whitespace-delimited token of `spec`. */
  predicate LeadingToken(spec: string, name: string) {
    name != "" && NoWhitespace(name) && StartsWith(spec, name)
    && (|name| == |spec| || IsWhitespace(spec[|name|]))
  }

  /** A spec has at most one leading token. */
  lemma LeadingTokenUnique(spec: string, a: string, b: string)
    requires LeadingToken(spec, a) && LeadingToken(spec, b)
    ensures a == b
  {
    forall i | 0 <= i < |b|
      ensures !IsWhitespace(spec[i])
    {
      assert spec[i] == b[i];
    }
    forall i | 0 <= i < |a|
      ensures !IsWhitespace(spec[i])
    {
      assert spec[i] == a[i];
    }
    assert a == spec[..|a|] == b;
  }

  /** `rest` opens with one space and `(a)`, where `a` is a non-empty run of
      non-whitespace: one way the optional `(?: \((\S+)\))` group can match. */
  predicate AliasAt(rest: string, a: string) {
    |a| >= 1 && NoWhitespace(a) && |a| + 3 <= |rest|
    && rest[..2] == " (" && rest[2..|a| + 2] == a && rest[|a| + 2] == ')'
  }

  /** The last `)` of `t` after its first character. */
  function LastParen(t: string): (r: Option<nat>)
    ensures r.Some? ==> 1 <= r.value < |t| && t[r.value] == ')'
    ensures forall k :: 1 <= k < |t| && t[k] == ')' ==> r.Some? && k <= r.value
    decreases |t|
  {
    if |t| <= 1 then None
    else if t[|t| - 1] == ')' then Some(|t| - 1)
    else LastParen(t[..|t| - 1])
  }

  /** The alias the optional group captures from what follows the name:
      the non-whitespace run after `" ("` up to its last `)`. */
  function AliasOf(rest: string): (r: Option<string>) {
    if |rest| < 2 || rest[..2] != " (" then None
    else
      var tail := rest[2..];
      var run := tail[..TokenLength(tail)];
      match LastParen(run)
      case None => None
      case Some(k) => Some(run[..k])
  }

  /** The greedy `\S+` backtracks to the last `)` of the run, so the alias
      is the longest that can match; when none can, the group is skipped and
      the alias is undefined. */
  lemma AliasIsLongestMatch(rest: string)
    ensures AliasOf(rest).Some? ==> AliasAt(rest, AliasOf(rest).value)
    ensures AliasOf(rest).Some? ==> forall b :: AliasAt(rest, b) ==> |b| <= |AliasOf(rest).value|
    ensures AliasOf(rest).None? ==> forall b :: !AliasAt(rest, b)
  {
    if |rest| >= 2 && rest[..2] == " (" {
      var tail := rest[2..];
      var run := tail[..TokenLength(tail)];
      AliasCandidates(rest, run);
      var last := LastParen(run);
      if last.Some? {
        var k := last.value;
        assert AliasOf(rest) == Some(run[..k]);
        assert run[..k] == rest[2..k + 2];
        assert NoWhitespace(run[..k]) by {
          assert forall i :: 0 <= i < k ==> run[..k][i] == run[i];
        }
      } else {
        assert AliasOf(rest) == None;
      }
    } else {
      assert AliasOf(rest) == None;
    }
  }

  /** Every alias that could match ends just before a `)` of the run after
      `" ("`. */
  lemma AliasCandidates(rest: string, run: string)
    requires |rest| >= 2 && rest[..2] == " ("
    requires run == rest[2..][..TokenLength(rest[2..])]
    ensures forall b :: AliasAt(rest, b) ==> |b| < |run| && run[|b|] == ')'
  {
    var tail := rest[2..];
    forall b | AliasAt(rest, b)
      ensures |b| < |run| && run[|b|] == ')'
    {
      forall i | 0 <= i <= |b|
        ensures !IsWhitespace(tail[i])
      {
        if i < |b| {
          assert tail[i] == rest[2..|b| + 2][i] == b[i];
        }
      }
    }
  }

  // ----- blocks: /\[[^\]]+\]/g -----

  /** The first index of `s` whose character `stop` accepts. */
  function FirstWhere(s: string, stop: char -> bool): (r: Option<nat>)
    ensures r.Some? ==> r.value < |s| && stop(s[r.value])
    ensures r.Some? ==> forall i :: 0 <= i < r.value ==> !stop(s[i])
    ensures r.None? ==> forall i :: 0 <= i < |s| ==> !stop(s[i])
    decreases |s|
  {
    if |s| == 0 then None
    else if stop(s[0]) then Some(0)
    else match FirstWhere(s[1..], stop)
      case None => None
      case Some(j) => Some(j + 1)
  }

  /** The first index a stopping character reaches is the one the scan finds. */
  lemma FirstWhereIs(s: string, stop: char -> bool, j: nat)
    requires j < |s| && stop(s[j])
    requires forall i :: 0 <= i < j ==> !stop(s[i])
    ensures FirstWhere(s, stop) == Some(j)
  {
  }

  predicate IsClose(c: char) { c == ']' }

  /** A match of `\[[^\]]+\]`: brackets around at least one character, with
      no `]` between them. */
  predicate BracketBlock(b: string) {
    |b| >= 3 && b[0] == '[' && b[|b| - 1] == ']'
    && forall i :: 1 <= i < |b| - 1 ==> b[i] != ']'
  }

  /** The length of the block match that starts at the head of `s`, if one
      does: a `[` whose first following `]` is not right after it. */
  function BlockLength(s: string): (r: Option<nat>)
    ensures r.Some? ==> r.value <= |s| && BracketBlock(s[..r.value])
  {
    if |s| == 0 || s[0] != '[' then None
    else match FirstWhere(s[1..], IsClose)
      case None => None
      case Some(j) =>
        if j >= 1 then
          assert s[..j + 2] == [s[0]] + s[1..][..j + 1];
          Some(j + 2)
        else None
  }

  /** `spec.matchAll(/\[[^\]]+\]/g)`: the block texts from left to right;
      after a match the scan resumes behind it, otherwise one character on. */
  function Blocks(s: string): (r: seq<string>)
    ensures forall k :: 0 <= k < |r| ==> BracketBlock(r[k])
    decreases |s|
  {
    if |s| == 0 then []
    else match BlockLength(s)
      case Some(n) => [s[..n]] + Blocks(s[n..])
      case None => Blocks(s[1..])
  }

  function Bracket(x: string): string {
    "[" + x + "]"
  }

  /** A bracketed item that has no `]` inside is matched whole. */
  lemma BlocksOfBracket(x: string, rest: string)
    requires x != "" && Lacks(x, ']')
    ensures Blocks(Bracket(x) + rest) == [Bracket(x)] + Blocks(rest)
  {
    var s := Bracket(x) + rest;
    assert s[1..] == x + "]" + rest;
    FirstWhereIs(s[1..], IsClose, |x|);
    assert s[..|x| + 2] == Bracket(x);
    assert s[|x| + 2..] == rest;
  }

  /** Text without `[` holds no block start. */
  lemma {:induction false} BlocksSkip(t: string, rest: string)
    requires Lacks(t, '[')
    ensures Blocks(t + rest) == Blocks(rest)
    decreases |t|
  {
    if |t| > 0 {
      assert (t + rest)[0] == t[0];
      assert (t + rest)[1..] == t[1..] + rest;
      BlocksSkip(t[1..], rest);
    } else {
      assert t + rest == rest;
    }
  }

  // ----- flags and options of a block -----

  /** `^\[-([a-zA-Z]+)\]$`: a group of one-letter flags. */
  predicate FlagBlock(b: string) {
    |b| >= 4 && b[..2] == "[-" && b[|b| - 1] == ']'
    && forall i :: 2 <= i < |b| - 1 ==> IsAsciiLetter(b[i])
  }

  /** `^\[-(\w)\s+[^\]]+\]$`: an option letter, whitespace, and a
      description of at least one more character. */
  predicate OptionBlock(b: string) {
    |b| >= 6 && b[..2] == "[-" && IsWordChar(b[2]) && IsWhitespace(b[3])
    && b[|b| - 1] == ']' && forall i :: 4 <= i < |b| - 1 ==> b[i] != ']'
  }

  /** A block cannot be both shapes: the character after the option letter is
      whitespace, never a flag letter. */
  lemma FlagOrOption(b: string)
    ensures !(FlagBlock(b) && OptionBlock(b))
  {
    if FlagBlock(b) && |b| >= 6 {
      assert IsAsciiLetter(b[3]);
    }
  }

  /** `-c` for each character `c`, in order. */
  function Dashed(letters: string): (r: seq<string>)
    ensures |r| == |letters|
    ensures forall k :: 0 <= k < |r| ==> r[k] == ['-', letters[k]]
  {
    seq(|letters|, k requires 0 <= k < |letters| => ['-', letters[k]])
  }

  /** The flags one block adds. */
  function BlockFlags(b: string): (r: seq<string>)
    ensures r != [] <==> FlagBlock(b)
    ensures FlagBlock(b) ==> |r| == |b| - 3 && forall k :: 0 <= k < |r| ==> r[k] == ['-', b[k + 2]]
  {
    if FlagBlock(b) then Dashed(b[2..|b| - 1]) else []
  }

  /** The option one block adds: only a block that is not a flag group is
      tried as an option. */
  function BlockOption(b: string): (r: seq<string>)
    ensures r != [] <==> OptionBlock(b)
    ensures OptionBlock(b) ==> r == [['-', b[2]]]
  {
    FlagOrOption(b);
    if FlagBlock(b) then []
    else if OptionBlock(b) then [['-', b[2]]]
    else []
  }

  function FlagsOf(blocks: seq<string>): (r: seq<string>)
    decreases |blocks|
  {
    if |blocks| == 0 then [] else BlockFlags(blocks[0]) + FlagsOf(blocks[1..])
  }

  function OptionsOf(blocks: seq<string>): (r: seq<string>)
    decreases |blocks|
  {
    if |blocks| == 0 then [] else BlockOption(blocks[0]) + OptionsOf(blocks[1..])
  }

  /** Every flag and every option is a dash and one character. */
  lemma {:induction false} SwitchesAreShort(blocks: seq<string>)
    ensures forall k :: 0 <= k < |FlagsOf(blocks)| ==> |FlagsOf(blocks)[k]| == 2 && FlagsOf(blocks)[k][0] == '-'
    ensures forall k :: 0 <= k < |OptionsOf(blocks)| ==> |OptionsOf(blocks)[k]| == 2 && OptionsOf(blocks)[k][0] == '-'
    ensures |OptionsOf(blocks)| <= |blocks|
    decreases |blocks|
  {
    if |blocks| > 0 {
      SwitchesAreShort(blocks[1..]);
    }
  }

  /** `[-letters]` adds one flag per letter, in order, and no option. */
  lemma FlagGroup(letters: string)
    requires letters != "" && forall i :: 0 <= i < |letters| ==> IsAsciiLetter(letters[i])
    ensures BlockFlags(Bracket("-" + letters)) == Dashed(letters)
    ensures BlockOption(Bracket("-" + letters)) == []
  {
    var b := Bracket("-" + letters);
    assert b[2..|b| - 1] == letters;
    assert forall i :: 2 <= i < |b| - 1 ==> b[i] == letters[i - 2];
  }

  /** `[-x description]` adds exactly the option `-x` and no flag. */
  lemma OptionWithDescription(x: char, description: string)
    requires IsWordChar(x) && |description| >= 2 && IsWhitespace(description[0])
    requires Lacks(description, ']')
    ensures BlockOption(Bracket(['-', x] + description)) == [['-', x]]
    ensures BlockFlags(Bracket(['-', x] + description)) == []
  {
    var b := Bracket(['-', x] + description);
    assert b[..2] == "[-" && b[2] == x && b[3] == description[0];
    assert forall i :: 4 <= i < |b| - 1 ==> b[i] == description[i - 3];
    FlagOrOption(b);
  }

  /** A block that does not open with `[-` adds neither. */
  lemma PlainBlockAddsNothing(b: string)
    requires |b| < 2 || b[..2] != "[-"
    ensures BlockFlags(b) == [] && BlockOption(b) == []
  {
  }

  /** Alternatives such as `[-L|-S|-U]` match neither shape and add nothing. */
  lemma AlternativesAddNothing()
    ensures BlockFlags("[-L|-S|-U]") == [] && BlockOption("[-L|-S|-U]") == []
  {
    assert !IsAsciiLetter("[-L|-S|-U]"[3]);
  }

  // ----- positional arguments: /\[([^\[\]-]+?)\]/g -----

  predicate IsArgStop(c: char) { c == '[' || c == ']' || c == '-' }

  /** The contents of an argument match: at least one character and none of
      `[`, `]` or `-`. */
  predicate ArgText(a: string) {
    a != "" && forall i :: 0 <= i < |a| ==> !IsArgStop(a[i])
  }

  /** The length of the argument match at the head of `s`, if any: the lazy
      group stops at the first `[`, `]` or `-`, and only a `]` there ends a
      match. */
  function ArgLength(s: string): (r: Option<nat>)
    ensures r.Some? ==> 3 <= r.value <= |s| && s[0] == '[' && s[r.value - 1] == ']'
    ensures r.Some? ==> ArgText(s[1..r.value - 1])
  {
    if |s| == 0 || s[0] != '[' then None
    else match FirstWhere(s[1..], IsArgStop)
      case None => None
      case Some(j) =>
        if j >= 1 && s[1 + j] == ']' then
          assert forall i :: 0 <= i < j ==> s[1..j + 1][i] == s[1..][i];
          Some(j + 2)
        else None
  }

  /** `spec.matchAll(/\[([^\[\]-]+?)\]/g)`, each match's group 1, in order. */
  function ArgContents(s: string): (r: seq<string>)
    ensures forall k :: 0 <= k < |r| ==> ArgText(r[k])
    decreases |s|
  {
    if |s| == 0 then []
    else match ArgLength(s)
      case Some(n) => [s[1..n - 1]] + ArgContents(s[n..])
      case None => ArgContents(s[1..])
  }

  /** A positional argument as the filter leaves it: its own trim, with no
      space and none of `[`, `]`, `-`. */
  predicate ArgWord(a: string) {
    Trim(a) == a && Lacks(a, ' ') && Lacks(a, '[') && Lacks(a, ']') && Lacks(a, '-')
  }

  /** `contents.map(c => c.trim()).filter(a => !a.includes(' '))`: the
      trimmed contents, minus any that still hold a space (these are option
      descriptions). */
  function KeepArgs(contents: seq<string>): (r: seq<string>)
    ensures |r| <= |contents|
    ensures forall k :: 0 <= k < |r| ==> Lacks(r[k], ' ')
    decreases |contents|
  {
    if |contents| == 0 then []
    else
      var a := Trim(contents[0]);
      var rest := KeepArgs(contents[1..]);
      if ' ' in a then rest
      else
        assert Lacks(a, ' ');
        [a] + rest
  }

  /** Argument contents filter down to argument words. */
  lemma {:induction false} KeepArgsWords(contents: seq<string>)
    requires forall i :: 0 <= i < |contents| ==> ArgText(contents[i])
    ensures forall k :: 0 <= k < |KeepArgs(contents)| ==> ArgWord(KeepArgs(contents)[k])
    decreases |contents|
  {
    if |contents| > 0 {
      assert ArgText(contents[0]);
      assert forall i :: 0 <= i < |contents| - 1 ==> contents[1..][i] == contents[i + 1];
      KeepArgsWords(contents[1..]);
      if ' ' !in Trim(contents[0]) {
        TrimmedArg(contents[0]);
      }
    }
  }

  /** Trimmed argument contents keep no `[`, `]` or `-` and trim to
      themselves. */
  lemma TrimmedArg(c: string)
    requires ArgText(c) && ' ' !in Trim(c)
    ensures ArgWord(Trim(c))
  {
    var a := Trim(c);
    TrimChars(c);
    TrimIdempotent(c);
    forall i | 0 <= i < |a|
      ensures !IsArgStop(a[i]) && a[i] != ' '
    {
      assert a[i] in c;
    }
  }

  /** The positional arguments of a spec: each is its own trim and contains
      no space, `[`, `]` or `-`. */
  function Args(spec: string): (r: seq<string>)
    ensures forall k :: 0 <= k < |r| ==> ArgWord(r[k])
  {
    KeepArgsWords(ArgContents(spec));
    KeepArgs(ArgContents(spec))
  }

  /** A bracketed item is an argument match exactly when it has none of
      `[`, `]`, `-` inside; a hyphenated one is skipped. */
  lemma ArgsOfBracket(x: string, rest: string)
    requires x != "" && Lacks(x, '[') && Lacks(x, ']')
    ensures ArgContents(Bracket(x) + rest) == (if Lacks(x, '-') then [x] else []) + ArgContents(rest)
  {
    var s := Bracket(x) + rest;
    assert s[1..] == x + "]" + rest;
    if Lacks(x, '-') {
      FirstWhereIs(s[1..], IsArgStop, |x|);
      assert s[1..|x| + 1] == x;
      assert s[|x| + 2..] == rest;
    } else {
      var m :| 0 <= m < |x| && x[m] == '-';
      assert s[1..][m] == '-';
      assert s[1 + FirstWhere(s[1..], IsArgStop).value] != ']';
      ArgsSkip(x + "]", rest);
      assert x + "]" + rest == s[1..];
    }
  }

  /** Text without `[` holds no argument match. */
  lemma {:induction false} ArgsSkip(t: string, rest: string)
    requires Lacks(t, '[')
    ensures ArgContents(t + rest) == ArgContents(rest)
    decreases |t|
  {
    if |t| > 0 {
      assert (t + rest)[0] == t[0];
      assert (t + rest)[1..] == t[1..] + rest;
      ArgsSkip(t[1..], rest);
    } else {
      assert t + rest == rest;
    }
  }

  // ----- the whole line -----

  /** The message thrown for a spec without a leading token. */
  function CouldNotParse(spec: string): string {
    "Could not parse command name/alias from: \"" + spec + "\""
  }

  /** `parseTmuxCommandSpec(spec)`. */
  function ParseTmuxCommandSpec(spec: string): (r: Parsed)
    ensures r.ParseError? <==> |spec| == 0 || IsWhitespace(spec[0])
    ensures r.ParseError? ==> r.message == CouldNotParse(spec)
    ensures r.Parsed? ==> |r.spec| == 1
  {
    var n := TokenLength(spec);
    if n == 0 then ParseError(CouldNotParse(spec))
    else
      var name := spec[..n];
      var usage := Usage(AliasOf(spec[n..]), FlagsOf(Blocks(spec)), OptionsOf(Blocks(spec)), Args(spec));
      assert map[name := usage].Keys == {name};
      Parsed(map[name := usage])
  }

  /** A usage line of a name, an optional parenthesised alias and
      space-separated bracketed items. */
  function UsageLine(name: string, alias: Option<string>, items: seq<string>): string {
    name + AliasText(alias) + Bracketed(items)
  }

  function AliasText(alias: Option<string>): string {
    if alias.Some? then " (" + alias.value + ")" else ""
  }

  function Bracketed(items: seq<string>): string
    decreases |items|
  {
    if |items| == 0 then "" else " " + Bracket(items[0]) + Bracketed(items[1..])
  }

  function BracketAll(items: seq<string>): (r: seq<string>)
    ensures |r| == |items| && forall k :: 0 <= k < |r| ==> r[k] == Bracket(items[k])
  {
    seq(|items|, k requires 0 <= k < |items| => Bracket(items[k]))
  }

  /** The items that can be argument matches. */
  function Unhyphenated(items: seq<string>): (r: seq<string>)
    decreases |items|
  {
    if |items| == 0 then []
    else (if Lacks(items[0], '-') then [items[0]] else []) + Unhyphenated(items[1..])
  }

  predicate Item(x: string) {
    x != "" && Lacks(x, '[') && Lacks(x, ']')
  }

  /** Every item is one. */
  predicate Items(items: seq<string>)
    decreases |items|
  {
    |items| == 0 || (Item(items[0]) && Items(items[1..]))
  }

  /** The blocks of the bracketed items are the items, in order. */
  lemma {:induction false} BlocksOfBracketed(items: seq<string>)
    requires Items(items)
    ensures Blocks(Bracketed(items)) == BracketAll(items)
    decreases |items|
  {
    if |items| > 0 {
      var tail := Bracketed(items[1..]);
      assert Bracketed(items) == " " + (Bracket(items[0]) + tail);
      BlocksSkip(" ", Bracket(items[0]) + tail);
      BlocksOfBracket(items[0], tail);
      BlocksOfBracketed(items[1..]);
      assert BracketAll(items) == [Bracket(items[0])] + BracketAll(items[1..]);
    }
  }

  /** The argument matches of the bracketed items are the unhyphenated
      items, in order. */
  lemma {:induction false} ArgsOfBracketed(items: seq<string>)
    requires Items(items)
    ensures ArgContents(Bracketed(items)) == Unhyphenated(items)
    decreases |items|
  {
    if |items| > 0 {
      var tail := Bracketed(items[1..]);
      assert Bracketed(items) == " " + (Bracket(items[0]) + tail);
      ArgsSkip(" ", Bracket(items[0]) + tail);
      ArgsOfBracket(items[0], tail);
      ArgsOfBracketed(items[1..]);
    }
  }

  /** The text after the name yields back the alias it was written with. */
  lemma AliasOfLine(alias: Option<string>, items: seq<string>)
    requires alias.Some? ==> alias.value != "" && NoWhitespace(alias.value)
    ensures AliasOf(AliasText(alias) + Bracketed(items)) == alias
  {
    var after := Bracketed(items);
    BracketedStartsWithSpace(items);
    match alias
    case None =>
      if |items| > 0 {
        assert after[..2] == " [";
      }
      assert ("" + after) == after;
    case Some(a) =>
      ParenthesisedAlias(a, after);
  }

  /** Bracketed items are nothing or begin with a space. */
  lemma BracketedStartsWithSpace(items: seq<string>)
    ensures Bracketed(items) == "" || (|Bracketed(items)| >= 2 && Bracketed(items)[..2] == " [")
  {
    if |items| > 0 {
      assert Bracketed(items) == " [" + items[0] + "]" + Bracketed(items[1..]);
    }
  }

  /** A run of non-whitespace that ends at whitespace or at the end is the
      one `\S+` takes. */
  lemma TokenLengthIs(s: string, n: nat)
    requires n <= |s| && NoWhitespace(s[..n])
    requires n < |s| ==> IsWhitespace(s[n])
    ensures TokenLength(s) == n
  {
    var m := TokenLength(s);
    forall i | 0 <= i < n
      ensures !IsWhitespace(s[i])
    {
      assert s[..n][i] == s[i];
    }
    forall i | 0 <= i < m
      ensures !IsWhitespace(s[i])
    {
      assert s[..m][i] == s[i];
    }
  }

  /** `" (a)"` followed by whitespace or nothing yields the alias `a`. */
  lemma ParenthesisedAlias(a: string, after: string)
    requires a != "" && NoWhitespace(a)
    requires after == "" || IsWhitespace(after[0])
    ensures AliasOf(" (" + a + ")" + after) == Some(a)
  {
    var rest := " (" + a + ")" + after;
    var tail := rest[2..];
    assert tail == (a + ")") + after;
    assert tail[..|a| + 1] == a + ")";
    TokenLengthIs(tail, |a| + 1);
    var run := a + ")";
    assert LastParen(run) == Some(|a|);
    assert run[..|a|] == a;
  }

  /** A usage line parses back into its parts: the name is the key, the
      alias is the one written, the flags and options come from the items'
      blocks, and the arguments from the items free of `-`. */
  lemma ParseUsageLine(name: string, alias: Option<string>, items: seq<string>)
    requires name != "" && NoWhitespace(name) && Lacks(name, '[')
    requires alias.Some? ==> alias.value != "" && NoWhitespace(alias.value) && Lacks(alias.value, '[')
    requires Items(items)
    ensures ParseTmuxCommandSpec(UsageLine(name, alias, items)).Parsed?
    ensures name in ParseTmuxCommandSpec(UsageLine(name, alias, items)).spec
    ensures ParseTmuxCommandSpec(UsageLine(name, alias, items)).spec[name]
      == Usage(alias, FlagsOf(BracketAll(items)), OptionsOf(BracketAll(items)), KeepArgs(Unhyphenated(items)))
  {
    var aliasText := AliasText(alias);
    var after := Bracketed(items);
    var spec := UsageLine(name, alias, items);
    var head := name + aliasText;
    assert Lacks(head, '[') by {
      assert forall i :: |name| <= i < |head| ==> head[i] == aliasText[i - |name|];
    }
    BlocksSkip(head, after);
    BlocksOfBracketed(items);
    ArgsSkip(head, after);
    ArgsOfBracketed(items);
    UsageLineLeadsWithName(name, aliasText, after);
    AliasOfLine(alias, items);
    ParseOf(spec, name);
  }

  /** The name is the leading token of its usage line. */
  lemma UsageLineLeadsWithName(name: string, aliasText: string, after: string)
    requires name != "" && NoWhitespace(name)
    requires aliasText == "" || aliasText[0] == ' '
    requires after == "" || after[0] == ' '
    ensures LeadingToken(name + aliasText + after, name)
    ensures (name + aliasText + after)[|name|..] == aliasText + after
  {
    var spec := name + aliasText + after;
    assert spec[..|name|] == name;
    assert spec[|name|..] == aliasText + after;
  }

  /** The one key of a parsed spec is its leading token. */
  lemma ParsedKeyIsLeadingToken(spec: string, name: string)
    requires ParseTmuxCommandSpec(spec).Parsed? && name in ParseTmuxCommandSpec(spec).spec
    ensures LeadingToken(spec, name)
  {
    var n := TokenLength(spec);
    assert name == spec[..n];
    assert spec[..n][0] == spec[0];
  }

  /** A spec with a leading token parses into one entry under that token. */
  lemma ParseOf(spec: string, name: string)
    requires LeadingToken(spec, name)
    ensures ParseTmuxCommandSpec(spec) == Parsed(map[name := Usage(AliasOf(spec[|name|..]),
      FlagsOf(Blocks(spec)), OptionsOf(Blocks(spec)), Args(spec))])
  {
    assert spec[..|name|] == name;
    TokenLengthIs(spec, |name|);
  }

  /** `[-letters] [-x description] [arg]` as items. */
  function Example(letters: string, x: char, description: string, arg: string): seq<string> {
    ["-" + letters, ['-', x] + description, arg]
  }

  /** The letters of the first item become flags and `-x` the one option. */
  lemma ExampleSwitches(letters: string, x: char, description: string, arg: string)
    requires letters != "" && forall i :: 0 <= i < |letters| ==> IsAsciiLetter(letters[i])
    requires IsWordChar(x) && |description| >= 2 && IsWhitespace(description[0])
    requires Lacks(description, ']')
    requires arg != "" && Lacks(arg, '-')
    ensures FlagsOf(BracketAll(Example(letters, x, description, arg))) == Dashed(letters)
    ensures OptionsOf(BracketAll(Example(letters, x, description, arg))) == [['-', x]]
  {
    var blocks := BracketAll(Example(letters, x, description, arg));
    assert blocks == [Bracket("-" + letters), Bracket(['-', x] + description), Bracket(arg)];
    FlagGroup(letters);
    OptionWithDescription(x, description);
    assert Bracket(arg)[1] == arg[0];
    PlainBlockAddsNothing(Bracket(arg));
    var b0, b1, b2 := Bracket("-" + letters), Bracket(['-', x] + description), Bracket(arg);
    SwitchesOfCons(b2, []);
    assert [b2] + [] == [b2];
    assert FlagsOf([b2]) == [] && OptionsOf([b2]) == [];
    SwitchesOfCons(b1, [b2]);
    assert [b1] + [b2] == [b1, b2];
    assert FlagsOf([b1, b2]) == [] && OptionsOf([b1, b2]) == [['-', x]];
    SwitchesOfCons(b0, [b1, b2]);
    assert [b0] + [b1, b2] == blocks;
  }

  /** The switches of a block followed by others: the block's own first. */
  lemma SwitchesOfCons(b: string, rest: seq<string>)
    ensures FlagsOf([b] + rest) == BlockFlags(b) + FlagsOf(rest)
    ensures OptionsOf([b] + rest) == BlockOption(b) + OptionsOf(rest)
  {
    assert ([b] + rest)[0] == b && ([b] + rest)[1..] == rest;
  }

  /** Only the last item is an argument, and it is kept as written. */
  lemma ExampleArgs(letters: string, x: char, description: string, arg: string)
    requires arg != "" && NoWhitespace(arg) && Lacks(arg, '-')
    ensures KeepArgs(Unhyphenated(Example(letters, x, description, arg))) == [arg]
  {
    var items := Example(letters, x, description, arg);
    assert items[0][0] == '-' && items[1][0] == '-';
    var last := items[1..][1..];
    assert last[0] == arg && last[1..] == [];
    assert Unhyphenated(last) == [arg];
    assert items[1..][0] == items[1];
    assert Unhyphenated(items[1..]) == [arg];
    TrimOfTrimmed(arg);
    assert ' ' !in arg by {
      assert forall i :: 0 <= i < |arg| ==> arg[i] != ' ';
    }
  }

  /** `name [-letters] [-x description] [arg]`: the letters become flags,
      `-x` the one option, and `arg` the one positional argument. */
  lemma ParseFlagsOptionArg(name: string, letters: string, x: char, description: string, arg: string)
    requires name != "" && NoWhitespace(name) && Lacks(name, '[')
    requires letters != "" && forall i :: 0 <= i < |letters| ==> IsAsciiLetter(letters[i])
    requires IsWordChar(x) && |description| >= 2 && IsWhitespace(description[0])
    requires Lacks(description, '[') && Lacks(description, ']')
    requires arg != "" && NoWhitespace(arg) && Lacks(arg, '[') && Lacks(arg, ']') && Lacks(arg, '-')
    ensures ParseTmuxCommandSpec(UsageLine(name, None, Example(letters, x, description, arg))).Parsed?
    ensures name in ParseTmuxCommandSpec(UsageLine(name, None, Example(letters, x, description, arg))).spec
    ensures ParseTmuxCommandSpec(UsageLine(name, None, Example(letters, x, description, arg))).spec[name]
      == Usage(None, Dashed(letters), [['-', x]], [arg])
  {
    var items := Example(letters, x, description, arg);
    assert Item("-" + letters) && Item(['-', x] + description) && Item(arg);
    assert items[1..][1..][1..] == [];
    assert Items(items[1..][1..]);
    assert Items(items[1..]);
    ParseUsageLine(name, None, items);
    ExampleSwitches(letters, x, description, arg);
    ExampleArgs(letters, x, description, arg);
  }
}
