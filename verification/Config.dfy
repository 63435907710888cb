/** One line of a configuration file: printed as name "value", and what executing it reads back. */
module Config {
  import opened Basics
  import opened Script
  import opened Tokens

  /** The line printed for a variable, with and without its newline. */
  function Setting(name: Text, value: Text): Text { name + [SPACE, QUOTE] + value + [QUOTE] }

  function Printed(name: Text, value: Text): Text { Setting(name, value) + [NEWLINE] }

  predicate PlainByte(c: byte) {
    SPACE < c < 128 && !Punctuation(c) && c != QUOTE && c != SEMICOLON
  }

  /** A name that is read back as one word. */
  predicate PlainName(name: Text) {
    && name != [] && (forall i :: 0 <= i < |name| ==> PlainByte(name[i]))
    && name[0] != COLON && !(|name| >= 2 && name[0] == SLASH && name[1] == SLASH)
  }

  predicate CleanByte(c: byte) { c != QUOTE && c != NEWLINE && c != NUL }

  predicate Clean(value: Text) { forall i :: 0 <= i < |value| ==> CleanByte(value[i]) }

  lemma {:induction false} SkipUnquoted(text: Text, i: nat, j: nat)
    requires i <= j <= |text| && forall k :: i <= k < j ==>
      text[k] != QUOTE && text[k] != SEMICOLON && text[k] != NEWLINE
    ensures LineEnd(text, i, false) == LineEnd(text, j, false)
    decreases j - i
  {
    if i < j { SkipUnquoted(text, i + 1, j); }
  }

  lemma {:induction false} SkipQuoted(text: Text, i: nat, j: nat)
    requires i <= j <= |text| && forall k :: i <= k < j ==> text[k] != QUOTE && text[k] != NEWLINE
    ensures LineEnd(text, i, true) == LineEnd(text, j, true)
    decreases j - i
  {
    if i < j { SkipQuoted(text, i + 1, j); }
  }

  /** The line starts with the name, a space and a quote, and the text `v` after it. */
  ghost predicate StartsWith(line: Text, name: Text, v: Text) {
    name + [SPACE, QUOTE] + v <= line
  }

  lemma {:induction false} WordEndOfName(line: Text, name: Text, v: Text, i: nat)
    requires PlainName(name) && StartsWith(line, name, v) && i <= |name|
    ensures WordEnd(line, i) == |name|
    decreases |name| - i
  {
    assert line[..|name|] == name && line[|name|] == SPACE by { Prefixes(line, name, v); }
    if i < |name| {
      assert line[i] == name[i];
      WordEndOfName(line, name, v, i + 1);
    }
  }

  lemma Prefixes(line: Text, name: Text, v: Text)
    requires StartsWith(line, name, v)
    ensures |line| >= |name| + 2 + |v|
    ensures line[..|name|] == name && line[|name|] == SPACE && line[|name| + 1] == QUOTE
    ensures line[|name| + 2..|name| + 2 + |v|] == v
  {
    var p := name + [SPACE, QUOTE] + v;
    assert line[..|p|] == p;
    assert forall k :: 0 <= k < |p| ==> line[k] == p[k];
  }

  lemma {:induction false} QuoteEndOfValue(line: Text, name: Text, v: Text, i: nat)
    requires StartsWith(line, name, v) && Clean(v) && i <= |v|
    requires At(line, |name| + 2 + |v|) == QUOTE || At(line, |name| + 2 + |v|) == NUL
    ensures QuoteEnd(line, |name| + 2 + i) == |name| + 2 + |v|
    decreases |v| - i
  {
    Prefixes(line, name, v);
    if i < |v| {
      assert line[|name| + 2 + i] == v[i];
      QuoteEndOfValue(line, name, v, i + 1);
    }
  }

  lemma NameToken(line: Text, name: Text, v: Text)
    requires PlainName(name) && StartsWith(line, name, v)
    ensures SkipSpaces(line, 0) == 0 && |line| > |name| && Parse(line, 0) == Token(name, |name|)
    ensures At(line, 0) != NEWLINE && At(line, 0) != NUL
  {
    Prefixes(line, name, v);
    assert line[0] == name[0];
    assert |name| >= 2 ==> line[1] == name[1];
    WordEndOfName(line, name, v, 1);
  }

  lemma ValueToken(line: Text, name: Text, v: Text)
    requires PlainName(name) && StartsWith(line, name, v) && Clean(v)
    requires At(line, |name| + 2 + |v|) == QUOTE || At(line, |name| + 2 + |v|) == NUL
    ensures SkipSpaces(line, |name|) == |name| + 1 <= |line| && At(line, |name| + 1) == QUOTE
    ensures Parse(line, |name| + 1) ==
      Token(v, if |name| + 2 + |v| < |line| then |name| + 3 + |v| else |name| + 2 + |v|)
  {
    Prefixes(line, name, v);
    QuoteEndOfValue(line, name, v, 0);
  }

  /** Such a line has the name as its first argument and `v` as its second. */
  lemma FirstTwoTokens(line: Text, name: Text, v: Text)
    requires PlainName(name) && StartsWith(line, name, v) && Clean(v)
    requires At(line, |name| + 2 + |v|) == QUOTE || At(line, |name| + 2 + |v|) == NUL
    ensures |AllTokens(line, 0)| >= 2 && AllTokens(line, 0)[0] == name && AllTokens(line, 0)[1] == v
    ensures |line| <= |Setting(name, v)| ==> AllTokens(line, 0) == [name, v]
  {
    NameToken(line, name, v);
    ValueToken(line, name, v);
    Prefixes(line, name, v);
    var e := |name| + 2 + |v|;
    var next := if e < |line| then e + 1 else e;
    TokenStep(line, 0, 0, name, |name|);
    TokenStep(line, |name|, |name| + 1, v, next);
    if |line| <= |Setting(name, v)| {
      NothingLeft(line, next);
    }
  }

  lemma TokenStep(line: Text, i: nat, j: nat, token: Text, next: nat)
    requires i <= |line| && SkipSpaces(line, i) == j <= |line| && At(line, j) != NEWLINE && At(line, j) != NUL
    requires Parse(line, j) == Token(token, next)
    ensures next <= |line| && AllTokens(line, i) == [token] + AllTokens(line, next)
  {
  }

  lemma NothingLeft(line: Text, i: nat)
    requires i == |line|
    ensures AllTokens(line, i) == []
  {
  }

  /** The longest beginning of a value without quote, newline or NUL. */
  ghost function CleanPrefix(value: Text): (v: Text)
    ensures Clean(v) && v <= value && (|v| < |value| ==> !CleanByte(value[|v|]))
    ensures v == value <==> Clean(value)
  {
    if value == [] || !CleanByte(value[0]) then [] else [value[0]] + CleanPrefix(value[1..])
  }

  /** The scan for the line end passes over the name, the opening quote and the clean part of the value. */
  lemma ScanToValue(text: Text, name: Text, v: Text)
    requires PlainName(name) && Clean(v) && StartsWith(text, name, v)
    ensures |name| + 2 + |v| <= |text| && LineEnd(text, 0, false) == LineEnd(text, |name| + 2 + |v|, true)
  {
    Prefixes(text, name, v);
    var n, p := |name|, |name| + 2 + |v|;
    forall k | 0 <= k < n + 1 ensures text[k] != QUOTE && text[k] != SEMICOLON && text[k] != NEWLINE {
      if k < n { assert text[k] == name[k] && PlainByte(name[k]); }
    }
    SkipUnquoted(text, 0, n + 1);
    forall k | n + 2 <= k < p ensures text[k] != QUOTE && text[k] != NEWLINE { assert text[k] == v[k - n - 2]; }
    SkipQuoted(text, n + 2, p);
  }

  /** Where the line of a printed variable ends in a longer text, and what it then holds. */
  lemma PrintedLine(name: Text, value: Text, more: Text)
    requires PlainName(name) && NUL !in value
    ensures var text := Printed(name, value) + more; var v := CleanPrefix(value);
      && StartsWith(First(text), name, v)
      && (At(First(text), |name| + 2 + |v|) == QUOTE || At(First(text), |name| + 2 + |v|) == NUL)
  {
    hide First, PlainName, Printed, StartsWith, At, Clean, CleanPrefix;
    var v := CleanPrefix(value);
    var w := value[|v|..];
    assert value == v + w;
    assert |v| < |value| ==> value[|v|] in value;
    PrintedLineFrom(name, v, w, more);
  }

  lemma PrintedLineFrom(name: Text, v: Text, w: Text, more: Text)
    requires PlainName(name) && Clean(v) && (w != [] ==> w[0] == QUOTE || w[0] == NEWLINE)
    ensures var line := First(Printed(name, v + w) + more);
      StartsWith(line, name, v) && (At(line, |name| + 2 + |v|) == QUOTE || At(line, |name| + 2 + |v|) == NUL)
  {
    hide *;
    Regroup(name, v, w, more);
    LineOf(Printed(name, v + w) + more, name, v);
  }

  lemma Regroup(name: Text, v: Text, w: Text, more: Text)
    ensures var text := Printed(name, v + w) + more; var p := |name| + 2 + |v|;
      StartsWith(text, name, v) && p < |text| && text[p] == if w == [] then QUOTE else w[0]
  {
    var start := name + [SPACE, QUOTE];
    assert Printed(name, v + w) + more == (start + v) + (w + [QUOTE, NEWLINE] + more);
  }

  lemma LineOf(text: Text, name: Text, v: Text)
    requires PlainName(name) && Clean(v) && StartsWith(text, name, v) && |name| + 2 + |v| < |text|
    requires text[|name| + 2 + |v|] == QUOTE || text[|name| + 2 + |v|] == NEWLINE
    ensures StartsWith(First(text), name, v)
    ensures At(First(text), |name| + 2 + |v|) == QUOTE || At(First(text), |name| + 2 + |v|) == NUL
  {
    ScanToValue(text, name, v);
    var p := |name| + 2 + |v|;
    var e := LineEnd(text, p, true);
    assert First(text) == text[..e];
    assert text[..e][..p] == text[..p];
  }

  /** A clean line is printed and found again whole. */
  lemma CleanLine(name: Text, value: Text, more: Text)
    requires PlainName(name) && Clean(value)
    ensures var text := Printed(name, value) + more;
      First(text) == Setting(name, value) && Rest(text) == more
  {
    var text := Printed(name, value) + more;
    var start := name + [SPACE, QUOTE];
    var p := |start| + |value|;
    assert text == (start + value) + ([QUOTE, NEWLINE] + more);
    ScanToValue(text, name, value);
    assert text[p] == QUOTE && text[p + 1] == NEWLINE;
    assert LineEnd(text, p, true) == LineEnd(text, p + 1, false) == p + 1;
    assert text[..p + 1] == Setting(name, value);
    assert text[p + 2..] == more;
  }

  /** A printed line, executed, assigns the value exactly if the value has no quote and no newline. */
  lemma RestoresIffClean(name: Text, value: Text, more: Text)
    requires PlainName(name) && NUL !in value
    ensures var ts := AllTokens(First(Printed(name, value) + more), 0);
      && |ts| >= 2 && ts[0] == name
      && (ts[1] == value <==> QUOTE !in value && NEWLINE !in value)
  {
    PrintedLine(name, value, more);
    var v := CleanPrefix(value);
    FirstTwoTokens(First(Printed(name, value) + more), name, v);
    assert QUOTE !in value && NEWLINE !in value <==> Clean(value);
  }
}
