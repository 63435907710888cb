/** Cutting a command line into words: quoted strings, single-character tokens, words and comments. */
module Tokens {
  import opened Basics
  import opened Script

  const NUL: byte := 0
  const TAB: byte := 9
  const RETURN: byte := 13
  const APOSTROPHE: byte := 39   // '
  const OPEN_PAREN: byte := 40   // (
  const CLOSE_PAREN: byte := 41  // )
  const SLASH: byte := 47
  const COLON: byte := 58
  const OPEN_BRACE: byte := 123
  const CLOSE_BRACE: byte := 125

  const MAX_ARGS := 80

  /** A C string: past its end there is a NUL. */
  function At(data: Text, i: nat): byte { if i < |data| then data[i] else NUL }

  /** Characters are signed: everything from 128 up counts as less than a space. */
  predicate Blank(c: byte) { c <= SPACE || c >= 128 }

  predicate Punctuation(c: byte) {
    c == OPEN_BRACE || c == CLOSE_BRACE || c == CLOSE_PAREN || c == OPEN_PAREN || c == APOSTROPHE
  }

  /** The first character from `i` on that is not blank, or the end. */
  function SkipBlank(data: Text, i: nat): (j: nat)
    ensures i <= j && (i <= |data| ==> j <= |data|)
    ensures At(data, j) == NUL || !Blank(At(data, j))
    decreases |data| - i
  {
    if At(data, i) == NUL || !Blank(At(data, i)) then i else SkipBlank(data, i + 1)
  }

  function SkipComment(data: Text, i: nat): (j: nat)
    ensures i <= j && (i <= |data| ==> j <= |data|)
    decreases |data| - i
  {
    if At(data, i) == NUL || At(data, i) == NEWLINE then i else SkipComment(data, i + 1)
  }

  predicate CommentAt(data: Text, i: nat) { At(data, i) == SLASH && At(data, i + 1) == SLASH }

  /** Where the next token starts, or the end of the string. */
  function TokenStart(data: Text, i: nat): (j: nat)
    ensures i <= j && (i <= |data| ==> j <= |data|)
    decreases |data| - i
  {
    var j := SkipBlank(data, i);
    if At(data, j) == NUL || !CommentAt(data, j) then j
    else TokenStart(data, SkipComment(data, j + 1))
  }

  /** The end of a quoted string: the next quote or the end. */
  function QuoteEnd(data: Text, i: nat): (j: nat)
    ensures i <= j && (i <= |data| ==> j <= |data|)
    decreases |data| - i
  {
    if At(data, i) == NUL || At(data, i) == QUOTE then i else QuoteEnd(data, i + 1)
  }

  /** The end of a word whose characters before `i` are taken. */
  function WordEnd(data: Text, i: nat): (j: nat)
    ensures i <= j && (i <= |data| ==> j <= |data|)
    decreases |data| - i
  {
    if Punctuation(At(data, i)) || Blank(At(data, i)) then i else WordEnd(data, i + 1)
  }

  datatype Parsed = NoToken | Token(token: Text, next: nat)

  /**
   The token at or after `i`.  After a quoted string that is not closed the original goes on behind
   the end of the string; here the string ends.
   */
  function Parse(data: Text, i: nat): (p: Parsed)
    requires i <= |data|
    ensures p.Token? ==> i < p.next <= |data|
  {
    var j := TokenStart(data, i);
    var c := At(data, j);
    if c == NUL then NoToken
    else if c == QUOTE then
      var e := QuoteEnd(data, j + 1);
      Token(data[j + 1..e], if e < |data| then e + 1 else e)
    else if Punctuation(c) || c == COLON then Token([c], j + 1)
    else
      var e := WordEnd(data, j + 1);
      Token(data[j..e], e)
  }

  /** Blanks between arguments: a newline is not one of them. */
  function SkipSpaces(data: Text, i: nat): (j: nat)
    ensures i <= j && (i <= |data| ==> j <= |data|)
    decreases |data| - i
  {
    if At(data, i) == SPACE || At(data, i) == TAB || At(data, i) == RETURN then SkipSpaces(data, i + 1) else i
  }

  /** All tokens of the command line from `i` on. */
  function AllTokens(data: Text, i: nat): seq<Text>
    requires i <= |data|
    decreases |data| - i
  {
    var j := SkipSpaces(data, i);
    if At(data, j) == NEWLINE || At(data, j) == NUL then []
    else
      var p := Parse(data, j);
      if p.NoToken? then [] else [p.token] + AllTokens(data, p.next)
  }

  /** The arguments of a command line: at most 80 are kept. */
  function Arguments(data: Text): seq<Text> {
    var ts := AllTokens(data, 0);
    if |ts| <= MAX_ARGS then ts else ts[..MAX_ARGS]
  }

  function Lower(c: byte): byte { if 65 <= c <= 90 then c + 32 else c }

  /** Names are compared without regard to case. */
  predicate SameName(a: Text, b: Text) {
    |a| == |b| && forall i :: 0 <= i < |a| ==> Lower(a[i]) == Lower(b[i])
  }

  lemma SameNameRefl(a: Text)
    ensures SameName(a, a)
  {
  }

  // ----- The program --------------------------------------------------------------------------------

  /** The `skipwhite` loop of COM_Parse: past blanks and comments. */
  method SkipWhite(data: Text, start: nat) returns (i: nat)
    requires start <= |data|
    ensures i == TokenStart(data, start)
  {
    i := start;
    while true
      invariant start <= i <= |data| && TokenStart(data, i) == TokenStart(data, start)
      decreases |data| - i
    {
      var before := i;
      while Blank(At(data, i)) && At(data, i) != NUL
        invariant before <= i <= |data| && SkipBlank(data, i) == SkipBlank(data, before)
        decreases |data| - i
      {
        i := i + 1;
      }
      if At(data, i) == NUL || !(At(data, i) == SLASH && At(data, i + 1) == SLASH) { return; }
      var comment := i + 1;
      i := comment;
      while At(data, i) != NUL && At(data, i) != NEWLINE
        invariant comment <= i <= |data| && SkipComment(data, i) == SkipComment(data, comment)
        decreases |data| - i
      {
        i := i + 1;
      }
    }
  }

  /** COM_Parse. */
  method ParseToken(data: Text, start: nat) returns (p: Parsed)
    requires start <= |data|
    ensures p == Parse(data, start)
  {
    var i := SkipWhite(data, start);
    if At(data, i) == NUL { return NoToken; }
    var c := At(data, i);
    if c == QUOTE {
      var e := i + 1;
      while At(data, e) != QUOTE && At(data, e) != NUL
        invariant i + 1 <= e <= |data| && QuoteEnd(data, e) == QuoteEnd(data, i + 1)
        decreases |data| - e
      {
        e := e + 1;
      }
      return Token(data[i + 1..e], if e < |data| then e + 1 else e);
    }
    if Punctuation(c) || c == COLON {
      return Token([c], i + 1);
    }
    var e := i + 1;
    while !Punctuation(At(data, e)) && !Blank(At(data, e))
      invariant i + 1 <= e <= |data| && WordEnd(data, e) == WordEnd(data, i + 1)
      decreases |data| - e
    {
      e := e + 1;
    }
    return Token(data[i..e], e);
  }

  method TokenizeString(data: Text) returns (argv: seq<Text>)
    ensures argv == Arguments(data)
  {
    argv := [];
    ghost var all: seq<Text> := [];
    var i := 0;
    while true
      invariant 0 <= i <= |data| && all + AllTokens(data, i) == AllTokens(data, 0)
      invariant argv == if |all| <= MAX_ARGS then all else all[..MAX_ARGS]
      decreases |data| - i
    {
      var before := i;
      while At(data, i) == SPACE || At(data, i) == TAB || At(data, i) == RETURN
        invariant before <= i <= |data| && SkipSpaces(data, i) == SkipSpaces(data, before)
        decreases |data| - i
      {
        i := i + 1;
      }
      if At(data, i) == NEWLINE || At(data, i) == NUL { break; }
      var p := ParseToken(data, i);
      if p.NoToken? { break; }
      if |argv| < MAX_ARGS { argv := argv + [p.token]; }
      assert (all + [p.token]) + AllTokens(data, p.next) == all + ([p.token] + AllTokens(data, p.next));
      all := all + [p.token];
      i := p.next;
    }
    assert all + [] == all;
  }
}
