/**
 What the tokenizer reads, told by the characters of the line: where a token starts, what it is made of,
 and which lines of words are read back as the words they were made from.
 */
module Words {
  import opened Basics
  import opened Script
  import opened Tokens
  import opened Config

  // ----- Characters ---------------------------------------------------------------------------------

  /** A byte as the signed character it is compared as. */
  ghost function AsSigned(c: byte): int { if c < 128 then c else c - 256 }

  lemma BlankIs(c: byte)
    ensures Blank(c) <==> AsSigned(c) <= ' ' as int
  {
  }

  lemma PunctuationIs(c: byte)
    ensures Punctuation(c) <==> c as char in ['{', '}', '(', ')', '\'']
  {
  }

  ghost predicate Capital(x: byte, y: byte) { 'A' <= x as char <= 'Z' && y as char == x as char - 'A' + 'a' }

  /** Names are the same if each letter is, but for its case. */
  lemma SameNameIs(a: Text, b: Text)
    ensures SameName(a, b) <==>
      |a| == |b| && forall i :: 0 <= i < |a| ==> a[i] == b[i] || Capital(a[i], b[i]) || Capital(b[i], a[i])
  {
  }

  // ----- Where a token starts -----------------------------------------------------------------------

  /** Character `k` belongs to a comment that starts at `i` or later. */
  ghost predicate InComment(data: Text, i: nat, k: nat) {
    exists m: nat :: i <= m <= k && CommentAt(data, m) && forall x: nat :: m <= x <= k ==> At(data, x) != NEWLINE
  }

  /** Character `k` is skipped on the way from `i`. */
  ghost predicate Skipped(data: Text, i: nat, k: nat) {
    At(data, k) != NUL && (Blank(At(data, k)) || InComment(data, i, k))
  }

  /** Only what is blank or in a comment is skipped, and all of it. */
  ghost predicate StartsAt(data: Text, i: nat, j: nat) {
    i <= j && !Skipped(data, i, j) && forall k: nat :: i <= k < j ==> Skipped(data, i, k)
  }

  lemma {:induction false} BlankUpTo(data: Text, i: nat)
    ensures forall k: nat :: i <= k < SkipBlank(data, i) ==> At(data, k) != NUL && Blank(At(data, k))
    decreases |data| - i
  {
    if At(data, i) != NUL && Blank(At(data, i)) { BlankUpTo(data, i + 1); }
  }

  lemma {:induction false} CommentUpTo(data: Text, i: nat)
    ensures forall k: nat :: i <= k < SkipComment(data, i) ==> At(data, k) != NUL && At(data, k) != NEWLINE
    ensures var e := SkipComment(data, i); At(data, e) == NUL || At(data, e) == NEWLINE
    decreases |data| - i
  {
    if At(data, i) != NUL && At(data, i) != NEWLINE { CommentUpTo(data, i + 1); }
  }

  lemma NoComment(data: Text, i: nat, j: nat)
    requires i <= j && !CommentAt(data, j) && forall k: nat :: i <= k < j ==> Blank(At(data, k))
    ensures !InComment(data, i, j)
  {
    forall m: nat | i <= m <= j ensures !CommentAt(data, m) {
      if m < j { assert Blank(At(data, m)); }
    }
  }

  /** Over one comment: blanks up to `j`, the comment up to `c`, and then on from there. */
  lemma OverComment(data: Text, i: nat, j: nat, c: nat, t: nat)
    requires i <= j < c && CommentAt(data, j) && (At(data, c) == NUL || At(data, c) == NEWLINE)
    requires forall k: nat :: i <= k < j ==> At(data, k) != NUL && Blank(At(data, k))
    requires forall k: nat :: j <= k < c ==> At(data, k) != NUL && At(data, k) != NEWLINE
    requires StartsAt(data, c, t)
    ensures StartsAt(data, i, t)
  {
    forall k: nat | i <= k < t ensures Skipped(data, i, k) {
      if j <= k < c { assert InComment(data, i, k); }
      if c <= k { assert Skipped(data, c, k); }
    }
    if At(data, c) == NUL {
      assert !Skipped(data, c, c);
    } else if InComment(data, i, t) {
      var m: nat :| i <= m <= t && CommentAt(data, m) && forall x: nat :: m <= x <= t ==> At(data, x) != NEWLINE;
      assert m > c;
      assert InComment(data, c, t);
    }
  }

  lemma {:induction false} TokenStartsThere(data: Text, i: nat)
    ensures StartsAt(data, i, TokenStart(data, i))
    decreases |data| - i
  {
    hide StartsAt, InComment, Skipped;
    var j := SkipBlank(data, i);
    BlankUpTo(data, i);
    if At(data, j) == NUL || !CommentAt(data, j) {
      NoComment(data, i, j);
      StartsHere(data, i, j);
    } else {
      var c := SkipComment(data, j + 1);
      CommentUpTo(data, j + 1);
      TokenStartsThere(data, c);
      OverComment(data, i, j, c, TokenStart(data, c));
    }
  }

  lemma StartsHere(data: Text, i: nat, j: nat)
    requires i <= j && !InComment(data, i, j) && (At(data, j) == NUL || !Blank(At(data, j)))
    requires forall k: nat :: i <= k < j ==> At(data, k) != NUL && Blank(At(data, k))
    ensures StartsAt(data, i, j)
  {
    hide InComment;
  }

  /** The next token starts at `j`, exactly if everything up to `j` is skipped and `j` is not. */
  lemma TokenStartIs(data: Text, i: nat, j: nat)
    ensures j == TokenStart(data, i) <==> StartsAt(data, i, j)
  {
    hide Skipped;
    TokenStartsThere(data, i);
  }

  // ----- What a token is made of --------------------------------------------------------------------

  ghost predicate Ends(c: byte) { Punctuation(c) || Blank(c) }

  /** The token that starts at `j`, and where it ends. */
  ghost predicate IsToken(data: Text, j: nat, token: Text, next: nat)
    requires j < |data|
  {
    if data[j] as char == '\"' then
      var e := j + 1 + |token|;
      && e <= |data| && token == data[j + 1..e] && QUOTE !in token && NUL !in token
      && (At(data, e) == QUOTE || At(data, e) == NUL) && next == if e < |data| then e + 1 else e
    else if data[j] as char in ['{', '}', '(', ')', '\'', ':'] then token == [data[j]] && next == j + 1
    else
      && j < next <= |data| && token == data[j..next] && Ends(At(data, next))
      && forall k :: j < k < next ==> !Ends(data[k])
  }

  lemma {:induction false} QuotedUpTo(data: Text, i: nat)
    requires i <= |data|
    ensures At(data, QuoteEnd(data, i)) == QUOTE || At(data, QuoteEnd(data, i)) == NUL
    ensures forall k :: i <= k < QuoteEnd(data, i) ==> data[k] != QUOTE && data[k] != NUL
    decreases |data| - i
  {
    if At(data, i) != QUOTE && At(data, i) != NUL { QuotedUpTo(data, i + 1); }
  }

  lemma {:induction false} WordUpTo(data: Text, i: nat)
    requires i <= |data|
    ensures Ends(At(data, WordEnd(data, i))) && forall k :: i <= k < WordEnd(data, i) ==> !Ends(data[k])
    decreases |data| - i
  {
    if !Ends(At(data, i)) { WordUpTo(data, i + 1); }
  }

  lemma QuotedSlice(data: Text, j: nat, e: nat)
    requires j < e <= |data| && data[j] == QUOTE && (At(data, e) == QUOTE || At(data, e) == NUL)
    requires forall k :: j < k < e ==> data[k] != QUOTE && data[k] != NUL
    ensures IsToken(data, j, data[j + 1..e], if e < |data| then e + 1 else e)
  {
    hide Ends;
    var token := data[j + 1..e];
    assert forall k :: 0 <= k < |token| ==> token[k] == data[j + 1 + k];
  }

  lemma QuotedIsToken(data: Text, j: nat)
    requires j < |data| && data[j] == QUOTE
    ensures var e := QuoteEnd(data, j + 1); IsToken(data, j, data[j + 1..e], if e < |data| then e + 1 else e)
  {
    hide *;
    QuotedUpTo(data, j + 1);
    QuotedSlice(data, j, QuoteEnd(data, j + 1));
  }

  lemma WordIsToken(data: Text, j: nat)
    requires j < |data| && data[j] != QUOTE && data[j] != COLON && !Punctuation(data[j])
    ensures IsToken(data, j, data[j..WordEnd(data, j + 1)], WordEnd(data, j + 1))
  {
    hide Ends, WordEnd;
    PunctuationIs(data[j]);
    WordUpTo(data, j + 1);
  }

  /** Parsing finds the token at the next start, and nothing exactly if the string ends there. */
  lemma ParseIs(data: Text, i: nat)
    requires i <= |data|
    ensures var j, p := TokenStart(data, i), Parse(data, i);
      && StartsAt(data, i, j) && (p.NoToken? <==> At(data, j) == NUL)
      && (p.Token? ==> j < |data| && IsToken(data, j, p.token, p.next))
  {
    hide StartsAt, Blank, Ends, IsToken, TokenStart, QuoteEnd, WordEnd, Punctuation;
    TokenStartsThere(data, i);
    var j := TokenStart(data, i);
    var c := At(data, j);
    if c != NUL {
      if c == QUOTE { QuotedIsToken(data, j); }
      else if Punctuation(c) || c == COLON { CharacterIsToken(data, j); }
      else { WordIsToken(data, j); }
    }
  }

  lemma CharacterIsToken(data: Text, j: nat)
    requires j < |data| && (Punctuation(data[j]) || data[j] == COLON)
    ensures IsToken(data, j, [data[j]], j + 1)
  {
  }

  lemma OneTokenThere(data: Text, j: nat, token: Text, next: nat, token': Text, next': nat)
    requires j < |data| && IsToken(data, j, token, next) && IsToken(data, j, token', next')
    ensures token == token' && next == next'
  {
    hide Ends;
  }

  // ----- The tokens of a line -----------------------------------------------------------------------

  /** Between the arguments only spaces, tabs and returns are passed over first. */
  ghost predicate Spaces(data: Text, i: nat, j: nat) {
    i <= j <= |data| && forall k :: i <= k < j ==> data[k] as char in [' ', '\t', '\r']
  }

  lemma {:induction false} PastSpaces(data: Text, i: nat, j: nat)
    requires Spaces(data, i, j) && At(data, j) as char !in [' ', '\t', '\r']
    ensures SkipSpaces(data, i) == j
    decreases j - i
  {
    if i < j {
      assert data[i] as char in [' ', '\t', '\r'];
      PastSpaces(data, i + 1, j);
    }
  }

  /** A newline, or the end of the string, ends the line; after a comment only the end of the string does. */
  lemma LineStops(data: Text, i: nat, j: nat, s: nat)
    requires Spaces(data, i, j) && (At(data, j) as char == '\n' || (At(data, j) as char !in [' ', '\t', '\r']
      && StartsAt(data, j, s) && At(data, s) == NUL))
    ensures AllTokens(data, i) == []
  {
    hide Spaces, StartsAt;
    PastSpaces(data, i, j);
    if At(data, j) != NEWLINE {
      SpacesInside(data, i, j);
      TokenStartIs(data, j, s);
      ParseIs(data, j);
    }
  }

  lemma SpacesInside(data: Text, i: nat, j: nat)
    requires Spaces(data, i, j)
    ensures i <= j <= |data|
  {
  }

  /** Anything else starts a token, and the tokens go on behind it. */
  lemma LineGoesOn(data: Text, i: nat, j: nat, s: nat, token: Text, next: nat)
    requires Spaces(data, i, j) && At(data, j) as char !in [' ', '\t', '\r', '\n']
    requires StartsAt(data, j, s) && s < |data| && data[s] != NUL && IsToken(data, s, token, next)
    ensures j < next <= |data| && AllTokens(data, i) == [token] + AllTokens(data, next)
  {
    hide Spaces, StartsAt, IsToken;
    PastSpaces(data, i, j);
    SpacesInside(data, i, j);
    TokenStartIs(data, j, s);
    ParseIs(data, j);
    var p := Parse(data, j);
    OneTokenThere(data, s, token, next, p.token, p.next);
  }

  // ----- Words read back ----------------------------------------------------------------------------

  /** The words in quotes, with a space in front of each. */
  ghost function InQuotes(words: seq<Text>): Text {
    if words == [] then [] else [SPACE, QUOTE] + words[0] + [QUOTE] + InQuotes(words[1..])
  }

  lemma QuotedText(data: Text, i: nat, word: Text, more: Text)
    requires i <= |data| && data[i..] == [SPACE, QUOTE] + word + [QUOTE] + more
    ensures i + |word| + 3 <= |data| && data[i + |word| + 3..] == more
    ensures data[i] == SPACE && data[i + 1] == QUOTE && data[i + 2..i + 2 + |word|] == word
    ensures data[i + 2 + |word|] == QUOTE
  {
    var text := data[i..];
    assert data[i] == text[0] && data[i + 1] == text[1] && data[i + 2 + |word|] == text[2 + |word|];
    assert data[i + 2..i + 2 + |word|] == text[2..2 + |word|] == word;
    assert data[i + |word| + 3..] == text[|word| + 3..] == more;
  }

  lemma QuotedHere(data: Text, i: nat, word: Text, more: Text)
    requires i <= |data| && data[i..] == [SPACE, QUOTE] + word + [QUOTE] + more && QUOTE !in word && NUL !in word
    ensures i + |word| + 3 <= |data| && data[i + |word| + 3..] == more
    ensures AllTokens(data, i) == [word] + AllTokens(data, i + |word| + 3)
  {
    hide AllTokens, StartsAt, InComment, Ends;
    QuotedText(data, i, word, more);
    assert Spaces(data, i, i + 1);
    NoComment(data, i + 1, i + 1);
    StartsHere(data, i + 1, i + 1);
    LineGoesOn(data, i, i + 1, i + 1, word, i + |word| + 3);
  }

  /** Any words without quotes or NULs, put in quotes, are read back: blanks, comments and newlines are kept. */
  lemma {:induction false} QuotesKeep(data: Text, i: nat, words: seq<Text>)
    requires i <= |data| && data[i..] == InQuotes(words)
    requires forall k :: 0 <= k < |words| ==> QUOTE !in words[k] && NUL !in words[k]
    ensures AllTokens(data, i) == words
    decreases |words|
  {
    hide AllTokens;
    if words == [] {
      NothingLeft(data, i);
    } else {
      QuotedHere(data, i, words[0], InQuotes(words[1..]));
      QuotesKeep(data, i + |words[0]| + 3, words[1..]);
    }
  }

  lemma PlainText(data: Text, i: nat, word: Text, more: Text)
    requires i <= |data| && data[i..] == word + [SPACE] + more
    ensures i + |word| + 1 <= |data| && data[i + |word| + 1..] == more
    ensures data[i..i + |word|] == word && data[i + |word|] == SPACE
  {
    var text := data[i..];
    assert data[i + |word|] == text[|word|];
    assert data[i..i + |word|] == text[..|word|] == word;
    assert data[i + |word| + 1..] == text[|word| + 1..] == more;
  }

  lemma PlainIsToken(data: Text, i: nat, word: Text)
    requires PlainName(word) && i + |word| < |data| && data[i..i + |word|] == word && data[i + |word|] == SPACE
    ensures IsToken(data, i, word, i + |word|) && !CommentAt(data, i) && !Blank(data[i])
    ensures data[i] as char !in [' ', '\t', '\r', '\n'] && data[i] != NUL
  {
    assert forall k :: i <= k < i + |word| ==> data[k] == data[i..i + |word|][k - i] == word[k - i];
    assert forall k :: i <= k < i + |word| ==> PlainByte(data[k]);
    assert data[i] == word[0];
    assert |word| >= 2 ==> data[i + 1] == word[1];
  }

  /** The characters that are a token of their own. */
  ghost predicate OneCharacter(word: Text) { |word| == 1 && word[0] as char in ['{', '}', '(', ')', '\'', ':'] }

  /** The words the tokenizer takes whole. */
  ghost predicate WholeWord(word: Text) { PlainName(word) || OneCharacter(word) }

  lemma WholeHere(data: Text, i: nat, word: Text, more: Text)
    requires i <= |data| && data[i..] == word + [SPACE] + more && WholeWord(word)
    ensures AllTokens(data, i) == [word] + AllTokens(data, i + |word| + 1)
  {
    hide AllTokens, StartsAt, InComment, IsToken, PlainName, CommentAt, Blank;
    PlainText(data, i, word, more);
    WholeIsToken(data, i, word);
    NoComment(data, i, i);
    StartsHere(data, i, i);
    LineGoesOn(data, i, i, i, word, i + |word|);
    OneSpace(data, i + |word|);
  }

  lemma WholeIsToken(data: Text, i: nat, word: Text)
    requires WholeWord(word) && i + |word| < |data| && data[i..i + |word|] == word && data[i + |word|] == SPACE
    ensures word != [] && IsToken(data, i, word, i + |word|) && !CommentAt(data, i) && !Blank(data[i])
    ensures data[i] as char !in [' ', '\t', '\r', '\n'] && data[i] != NUL
  {
    if PlainName(word) { PlainIsToken(data, i, word); } else { assert data[i] == word[0]; }
  }

  /** A token that was not in quotes is a word that is taken whole. */
  lemma TokenIsWhole(data: Text, j: nat, token: Text, next: nat)
    requires j < |data| && data[j] != QUOTE && !Blank(data[j]) && !CommentAt(data, j) && IsToken(data, j, token, next)
    requires QUOTE !in token && SEMICOLON !in token
    ensures WholeWord(token)
  {
    assert forall k :: 0 <= k < |token| ==> token[k] == data[j + k] && token[k] in token;
  }

  lemma FirstIsWhole(data: Text, i: nat)
    requires i <= |data| && QUOTE !in data && SEMICOLON !in data && AllTokens(data, i) != []
    ensures WholeWord(AllTokens(data, i)[0])
  {
    hide StartsAt, IsToken, WholeWord, CommentAt, Blank;
    var j := SkipSpaces(data, i);
    ParseIs(data, j);
    var t := TokenStart(data, j);
    StartsProperly(data, j, t);
    var p := Parse(data, j);
    TokenHasNone(data, t, p.token, p.next, QUOTE);
    TokenHasNone(data, t, p.token, p.next, SEMICOLON);
    TokenIsWhole(data, t, p.token, p.next);
  }

  lemma StartsProperly(data: Text, i: nat, j: nat)
    requires StartsAt(data, i, j) && At(data, j) != NUL
    ensures !Blank(At(data, j)) && !CommentAt(data, j)
  {
    assert CommentAt(data, j) ==> InComment(data, i, j);
  }

  lemma TokenHasNone(data: Text, j: nat, token: Text, next: nat, c: byte)
    requires j < |data| && IsToken(data, j, token, next) && c !in data
    ensures c !in token
  {
    hide Ends;
    if data[j] as char == '\"' { assert token == data[j + 1..j + 1 + |token|]; }
  }

  /** Of words without quotes and semicolons these are exactly the ones a parse takes from a line whole. */
  lemma PlainNameIs(word: Text)
    requires QUOTE !in word && SEMICOLON !in word
    ensures Parse(word + [SPACE], 0) == Token(word, |word|) <==> WholeWord(word)
  {
    hide StartsAt, InComment, IsToken, WholeWord, CommentAt, Blank;
    var data := word + [SPACE];
    ParseIs(data, 0);
    var j, p := TokenStart(data, 0), Parse(data, 0);
    if WholeWord(word) {
      assert data[0..|word|] == word;
      WholeIsToken(data, 0, word);
      NoComment(data, 0, 0);
      StartsHere(data, 0, 0);
      TokenStartIs(data, 0, 0);
      OneTokenThere(data, 0, word, |word|, p.token, p.next);
    } else if p == Token(word, |word|) {
      StartsProperly(data, 0, j);
      assert data[j] != QUOTE by { assert j < |word| ==> word[j] in word; }
      TokenIsWhole(data, j, word, |word|);
    }
  }

  lemma OneSpace(data: Text, i: nat)
    requires i < |data| && data[i] == SPACE
    ensures AllTokens(data, i) == AllTokens(data, i + 1)
  {
  }

  /** Words, each followed by a space as an alias stores them, are read back exactly if each is taken whole. */
  lemma {:induction false} JoinedReadsBack(data: Text, i: nat, args: seq<Text>, k: nat)
    requires i <= |data| && k <= |args| && data[i..] == Joined(args, k) && QUOTE !in data && SEMICOLON !in data
    ensures AllTokens(data, i) == args[k..] <==> forall n :: k <= n < |args| ==> WholeWord(args[n])
    decreases |args| - k
  {
    hide AllTokens, WholeWord;
    if k == |args| {
      NothingLeft(data, i);
    } else {
      PlainText(data, i, args[k], Joined(args, k + 1));
      var next := i + |args[k]| + 1;
      JoinedReadsBack(data, next, args, k + 1);
      assert args[k..] == [args[k]] + args[k + 1..];
      if WholeWord(args[k]) {
        WholeHere(data, i, args[k], Joined(args, k + 1));
        assert AllTokens(data, i)[1..] == AllTokens(data, next);
      } else if AllTokens(data, i) != [] {
        FirstIsWhole(data, i);
      }
    }
  }
}
