/**
 The command buffer: text is cut into lines at newlines and unquoted semicolons, and a line may
 put more text in front of what is left.  It is proved to run like a list of lines in which an
 alias is replaced by the lines of its body.
 */
module Script {
  import opened Basics

  type Text = seq<byte>

  const QUOTE: byte := 34      // "
  const SEMICOLON: byte := 59  // ;
  const NEWLINE: byte := 10
  const SPACE: byte := 32

  const BUFFER_SIZE := 8192
  const LINE_SIZE := 1024

  // ----- Lines ------------------------------------------------------------------------------------

  /** Where the first line ends, scanning from `i`; `quoted` tells whether a quote is open. */
  ghost function LineEnd(text: Text, i: nat, quoted: bool): (n: nat)
    requires i <= |text|
    ensures i <= n <= |text|
    decreases |text| - i
  {
    if i == |text| then i
    else
      var quoted' := if text[i] == QUOTE then !quoted else quoted;
      if (!quoted' && text[i] == SEMICOLON) || text[i] == NEWLINE then i else LineEnd(text, i + 1, quoted')
  }

  ghost function First(text: Text): Text { text[..LineEnd(text, 0, false)] }

  /** What is left after the first line and the character that ends it. */
  ghost function Rest(text: Text): (r: Text)
    ensures text != [] ==> |r| < |text|
  {
    var n := LineEnd(text, 0, false);
    if n == |text| then [] else text[n + 1..]
  }

  ghost function Lines(text: Text): seq<Text>
    decreases |text|
  {
    if text == [] then [] else [First(text)] + Lines(Rest(text))
  }

  /** The last line of the text is ended, not just cut off. */
  ghost predicate Closed(text: Text)
    decreases |text|
  {
    text == [] || (LineEnd(text, 0, false) < |text| && Closed(Rest(text)))
  }

  lemma {:induction false} LineEndStable(text: Text, more: Text, i: nat, quoted: bool)
    requires i <= |text| && LineEnd(text, i, quoted) < |text|
    ensures LineEnd(text + more, i, quoted) == LineEnd(text, i, quoted)
    decreases |text| - i
  {
    if i < |text| {
      var quoted' := if text[i] == QUOTE then !quoted else quoted;
      if !((!quoted' && text[i] == SEMICOLON) || text[i] == NEWLINE) { LineEndStable(text, more, i + 1, quoted'); }
    }
  }

  lemma {:induction false} LineEndPast(text: Text, more: Text, i: nat, quoted: bool)
    requires i <= |text| && LineEnd(text, i, quoted) == |text|
    ensures LineEnd(text + more, i, quoted) >= |text|
    decreases |text| - i
  {
    if i < |text| {
      var quoted' := if text[i] == QUOTE then !quoted else quoted;
      LineEndPast(text, more, i + 1, quoted');
    }
  }

  lemma FirstOfConcat(text: Text, more: Text)
    requires LineEnd(text, 0, false) < |text|
    ensures First(text + more) == First(text) && Rest(text + more) == Rest(text) + more
  {
    hide LineEnd;
    LineEndStable(text, more, 0, false);
    CutConcat(text, more, LineEnd(text, 0, false));
  }

  lemma CutConcat(text: Text, more: Text, n: nat)
    requires n < |text|
    ensures (text + more)[..n] == text[..n] && (text + more)[n + 1..] == text[n + 1..] + more
  {
  }

  /** Splitting distributes over text whose last line is ended. */
  lemma {:induction false} SplitConcat(body: Text, rest: Text)
    requires Closed(body)
    ensures Lines(body + rest) == Lines(body) + Lines(rest)
    decreases |body|
  {
    if body == [] {
      assert body + rest == rest;
    } else {
      FirstOfConcat(body, rest);
      SplitConcat(Rest(body), rest);
    }
  }

  lemma {:induction false} ConcatClosed(a: Text, b: Text)
    requires Closed(a) && Closed(b)
    ensures Closed(a + b)
    decreases |a|
  {
    if a == [] {
      assert a + b == b;
    } else {
      FirstOfConcat(a, b);
      LineEndStable(a, b, 0, false);
      ConcatClosed(Rest(a), b);
    }
  }

  /** ... and over no other text: an unended last line swallows the beginning of what follows. */
  lemma SplitConcatOnlyIfClosed(body: Text, rest: Text)
    requires !Closed(body) && rest != []
    ensures Lines(body + rest) != Lines(body) + Lines(rest)
  {
    hide Closed, LineEnd;
    Swallows(body, rest, Lines(rest));
  }

  /** Behind an unended line there cannot be any lines but those of the rest, less a leading line end. */
  lemma {:induction false} Swallows(body: Text, rest: Text, lines: seq<Text>)
    requires !Closed(body) && rest != []
    requires LineEnd(rest, 0, false) == 0 ==> Lines(Rest(rest)) != lines
    ensures Lines(body + rest) != Lines(body) + lines
    decreases |body|
  {
    if LineEnd(body, 0, false) < |body| {
      FirstOfConcat(body, rest);
      Swallows(Rest(body), rest, lines);
      var f, a, b := [First(body)], Lines(Rest(body) + rest), Lines(Rest(body)) + lines;
      assert Lines(body + rest) == f + a;
      assert Lines(body) + lines == f + b;
      assert (f + a)[1..] == a && (f + b)[1..] == b;
    } else {
      UnendedSwallows(body, rest, lines);
    }
  }

  lemma UnendedSwallows(body: Text, rest: Text, lines: seq<Text>)
    requires body != [] && LineEnd(body, 0, false) == |body| && rest != []
    requires LineEnd(rest, 0, false) == 0 ==> Lines(Rest(rest)) != lines
    ensures Lines(body + rest) != Lines(body) + lines
  {
    hide LineEnd, Lines;
    LineEndPast(body, rest, 0, false);
    LinesFrom(body);
    LinesFrom(body + rest);
    NoLines();
    assert First(body) == body && Rest(body) == [];
    assert Lines(body) == [body];
    if LineEnd(body + rest, 0, false) == |body| {
      LineEndAtBreak(body, rest);
      assert Rest(body + rest) == rest[1..] == Rest(rest);
      assert Lines(body + rest)[1..] == Lines(Rest(rest)) && ([body] + lines)[1..] == lines;
    } else {
      assert |First(body + rest)| > |body|;
      assert Lines(body + rest)[0] == First(body + rest) && ([body] + lines)[0] == body;
    }
  }

  lemma LinesFrom(text: Text)
    requires text != []
    ensures Lines(text) == [First(text)] + Lines(Rest(text))
  {
  }

  lemma NoLines()
    ensures Lines([]) == []
  {
  }

  lemma StartsWithBreakIff(text: Text)
    requires text != []
    ensures LineEnd(text, 0, false) == 0 <==> text[0] == SEMICOLON || text[0] == NEWLINE
  {
  }

  lemma LineEndAtBreak(body: Text, rest: Text)
    requires rest != [] && LineEnd(body, 0, false) == |body| == LineEnd(body + rest, 0, false)
    ensures rest[0] == SEMICOLON || rest[0] == NEWLINE
    ensures LineEnd(rest, 0, false) == 0
  {
    BreakCharacter(body + rest, 0, false);
    assert (body + rest)[|body|] == rest[0];
  }

  lemma {:induction false} BreakCharacter(text: Text, i: nat, quoted: bool)
    requires i <= |text| && LineEnd(text, i, quoted) < |text|
    ensures var c := text[LineEnd(text, i, quoted)]; c == SEMICOLON || c == NEWLINE
    decreases |text| - i
  {
    if i < |text| {
      var quoted' := if text[i] == QUOTE then !quoted else quoted;
      if !((!quoted' && text[i] == SEMICOLON) || text[i] == NEWLINE) { BreakCharacter(text, i + 1, quoted'); }
    }
  }

  lemma {:induction false} NewlineEndsLine(text: Text, i: nat, quoted: bool)
    requires i < |text| && text[|text| - 1] == NEWLINE
    ensures LineEnd(text, i, quoted) < |text|
    decreases |text| - i
  {
    if i + 1 < |text| {
      var quoted' := if text[i] == QUOTE then !quoted else quoted;
      NewlineEndsLine(text, i + 1, quoted');
    }
  }

  /** Text that ends in a newline is closed, whatever quotes are open. */
  lemma {:induction false} NewlineCloses(text: Text)
    requires text != [] && text[|text| - 1] == NEWLINE
    ensures Closed(text)
    decreases |text|
  {
    NewlineEndsLine(text, 0, false);
    if Rest(text) != [] {
      assert Rest(text)[|Rest(text)| - 1] == text[|text| - 1];
      NewlineCloses(Rest(text));
    }
  }

  // ----- Aliases ----------------------------------------------------------------------------------

  /** The arguments from `i` on, each followed by a space. */
  function Joined(args: seq<Text>, i: nat): Text
    requires i <= |args|
    decreases |args| - i
  {
    if i == |args| then [] else args[i] + [SPACE] + Joined(args, i + 1)
  }

  /** The body an `alias` command stores: its arguments after the name, and a newline. */
  method AliasValue(args: seq<Text>) returns (value: Text)
    requires |args| >= 2
    ensures value == Joined(args, 2) + [NEWLINE] && Closed(value)
  {
    var cmd: Text := [];
    var i := 2;
    while i < |args|
      invariant 2 <= i <= |args| && cmd + Joined(args, i) == Joined(args, 2)
    {
      cmd := cmd + args[i];
      cmd := cmd + [SPACE];
      i := i + 1;
    }
    assert cmd == Joined(args, 2) by { assert cmd + [] == cmd; }
    value := cmd + [NEWLINE];
    NewlineCloses(value);
  }

  // ----- Running the buffer -------------------------------------------------------------------------

  /**
   What executing a line does: the new surroundings, text put in front of the buffer, text added at
   its end, and `wait`.
   */
  datatype Effect<Env> = Effect(env: Env, inserted: Text, appended: Text, wait: bool)

  /** The buffer together with everything commands can change, and the lines executed so far. */
  datatype State<Env> = State(env: Env, text: Text, trace: seq<Text>)

  /** Inserted text that is too long for the buffer is dropped. */
  function Kept(t: Text): Text { if |t| < BUFFER_SIZE then t else [] }

  /** Text added at the end of the buffer is dropped if there is no room for it. */
  function Added(text: Text, t: Text): Text { if |text| + |t| < BUFFER_SIZE then text + t else text }

  ghost function Step<Env>(run: (Env, Text) -> Effect<Env>, s: State<Env>): State<Env> {
    if s.text == [] then s
    else
      var e := run(s.env, First(s.text));
      State(e.env, Added(Kept(e.inserted) + Rest(s.text), e.appended), s.trace + [First(s.text)])
  }

  ghost function Steps<Env>(run: (Env, Text) -> Effect<Env>, n: nat, s: State<Env>): State<Env> {
    if n == 0 then s else Step(run, Steps(run, n - 1, s))
  }

  /** The reference: a list of lines, where inserted and added text is cut into lines right away. */
  datatype Listing<Env> = Listing(env: Env, lines: seq<Text>, trace: seq<Text>)

  ghost function ListStep<Env>(run: (Env, Text) -> Effect<Env>, s: Listing<Env>): Listing<Env> {
    if s.lines == [] then s
    else
      var e := run(s.env, s.lines[0]);
      Listing(e.env, Lines(Kept(e.inserted)) + s.lines[1..] + Lines(e.appended), s.trace + [s.lines[0]])
  }

  ghost function ListSteps<Env>(run: (Env, Text) -> Effect<Env>, n: nat, s: Listing<Env>): Listing<Env> {
    if n == 0 then s else ListStep(run, ListSteps(run, n - 1, s))
  }

  /** The listing a buffer stands for. */
  ghost function Listed<Env>(s: State<Env>): Listing<Env> { Listing(s.env, Lines(s.text), s.trace) }

  /** What the next line inserts, if there is a next line. */
  ghost function Insertion<Env>(run: (Env, Text) -> Effect<Env>, s: State<Env>): Text {
    if s.text == [] then [] else Kept(run(s.env, First(s.text)).inserted)
  }

  /**
   Three texts behind one another stay apart: the first has its last line ended or nothing is behind
   it, and if there is a third, it finds room and the second has its last line ended.
   */
  ghost predicate Apart(a: Text, b: Text, c: Text) {
    && (Closed(a) || b + c == [])
    && (c != [] ==> Closed(b) && |a + b| + |c| < BUFFER_SIZE)
  }

  /** What the next line inserts, the rest of the buffer, and what the line adds at its end stay apart. */
  ghost predicate Separates<Env>(run: (Env, Text) -> Effect<Env>, s: State<Env>) {
    s.text != [] ==> Apart(Insertion(run, s), Rest(s.text), run(s.env, First(s.text)).appended)
  }

  /** One line of the buffer is one line of the listing exactly if its texts stay apart from the rest. */
  lemma ExpansionStep<Env>(run: (Env, Text) -> Effect<Env>, t: State<Env>)
    ensures ListStep(run, Listed(t)) == Listed(Step(run, t)) <==> Separates(run, t)
  {
    hide LineEnd, First, Rest, Apart, Kept, Added;
    if t.text != [] {
      var e := run(t.env, First(t.text));
      JoinIff(Kept(e.inserted), Rest(t.text), e.appended);
      assert Lines(t.text) == [First(t.text)] + Lines(Rest(t.text));
      assert Lines(t.text)[1..] == Lines(Rest(t.text));
    }
  }

  lemma JoinIff(a: Text, b: Text, c: Text)
    ensures Lines(Added(a + b, c)) == Lines(a) + Lines(b) + Lines(c) <==> Apart(a, b, c)
  {
    hide LineEnd, First, Rest, Lines, Closed;
    if c == [] {
      NoLines();
      SplitIff(a, b);
      assert a + b + c == a + b && b + c == b;
      assert Lines(a) + Lines(b) + [] == Lines(a) + Lines(b);
    } else if |a + b| + |c| < BUFFER_SIZE {
      ThreeIff(a, b, c);
      assert a + b + c == a + (b + c);
      assert Lines(a) + Lines(b) + Lines(c) == Lines(a) + (Lines(b) + Lines(c));
    } else {
      DroppedIsMissed(a, b, c);
    }
  }

  lemma SomeLines(text: Text)
    requires text != []
    ensures |Lines(text)| > 0
  {
  }

  lemma ThreeIff(a: Text, b: Text, c: Text)
    requires c != []
    ensures Lines(a + (b + c)) == Lines(a) + (Lines(b) + Lines(c)) <==> Closed(a) && Closed(b)
  {
    hide LineEnd, First, Rest, Lines, Closed;
    if Closed(a) {
      SplitConcat(a, b + c);
      SplitIff(b, c);
      var x, y, z := Lines(a), Lines(b + c), Lines(b) + Lines(c);
      assert (x + y)[|x|..] == y && (x + z)[|x|..] == z;
    } else {
      BreakIsMissed(b, c);
      Swallows(a, b + c, Lines(b) + Lines(c));
    }
  }

  /** Without its leading line end, text joined from two has not the lines of the two. */
  lemma BreakIsMissed(b: Text, c: Text)
    requires c != []
    ensures LineEnd(b + c, 0, false) == 0 ==> Lines(Rest(b + c)) != Lines(b) + Lines(c)
  {
    hide LineEnd, Lines;
    NoLines();
    if b == [] {
      assert b + c == c && Lines(b) + Lines(c) == Lines(c);
      LinesFrom(c);
    } else if LineEnd(b + c, 0, false) == 0 {
      StartsWithBreakIff(b + c);
      StartsWithBreakIff(b);
      FirstOfConcat(b, c);
      LinesFrom(b);
      NoLineMore(Rest(b), c);
      assert Lines(b) + Lines(c) == [[]] + (Lines(Rest(b)) + Lines(c));
    }
  }

  lemma {:induction false} NoLineMore(b: Text, c: Text)
    ensures Lines(b + c) != [[]] + (Lines(b) + Lines(c))
    decreases |b|
  {
    hide LineEnd, Lines;
    NoLines();
    if b == [] {
      assert b + c == c && Lines(b) + Lines(c) == Lines(c);
      assert |[[]] + Lines(c)| == 1 + |Lines(c)|;
    } else {
      StartsWithBreakIff(b);
      StartsWithBreakIff(b + c);
      LinesFrom(b);
      LinesFrom(b + c);
      if LineEnd(b, 0, false) == 0 {
        FirstOfConcat(b, c);
        NoLineMore(Rest(b), c);
        var x, y := Lines(Rest(b) + c), [[]] + (Lines(Rest(b)) + Lines(c));
        assert [[]] + (Lines(b) + Lines(c)) == [[]] + y;
        assert ([[]] + x)[1..] == x && ([[]] + y)[1..] == y;
      } else {
        assert First(b + c) != [] && Lines(b + c)[0] == First(b + c);
      }
    }
  }

  lemma DroppedIsMissed(a: Text, b: Text, c: Text)
    requires c != []
    ensures Lines(a + b) != Lines(a) + Lines(b) + Lines(c)
  {
    hide LineEnd, First, Rest, Closed, Lines;
    SomeLines(c);
    if Closed(a) || b == [] {
      SplitIff(a, b);
    } else {
      LinesFrom(b);
      Swallows(a, b, Lines(b) + Lines(c));
      assert Lines(a) + Lines(b) + Lines(c) == Lines(a) + (Lines(b) + Lines(c));
    }
  }

  lemma NothingIsClosed()
    ensures Closed([])
  {
  }

  lemma SplitIff(body: Text, rest: Text)
    ensures Lines(body + rest) == Lines(body) + Lines(rest) <==> Closed(body) || rest == []
  {
    if Closed(body) {
      SplitConcat(body, rest);
    } else if rest == [] {
      assert body + rest == body;
      assert Lines(rest) == [];
    } else {
      SplitConcatOnlyIfClosed(body, rest);
    }
  }

  /**
   The buffer runs exactly like inline expansion, same lines and same effects, for as long as what
   lines insert and add stays apart from the rest.
   */
  lemma {:induction false} BufferIsExpansion<Env>(run: (Env, Text) -> Effect<Env>, n: nat, s: State<Env>)
    requires forall k: nat :: k < n ==> Separates(run, Steps(run, k, s))
    ensures ListSteps(run, n, Listed(s)) == Listed(Steps(run, n, s))
  {
    hide Step, ListStep, Listed, Separates;
    if n > 0 {
      BufferIsExpansion(run, n - 1, s);
      ExpansionStep(run, Steps(run, n - 1, s));
    }
  }

  /** The same lines, adding nothing at the end of the buffer. */
  function Inner<Env>(run: (Env, Text) -> Effect<Env>): (Env, Text) -> Effect<Env> {
    (env, line) => run(env, line).(appended := [])
  }

  /** There is a next line, and what it inserts has its last line ended. */
  ghost predicate Continues<Env>(run: (Env, Text) -> Effect<Env>, s: State<Env>) {
    s.text != [] && Closed(Insertion(run, s))
  }

  /** What is behind a body after its next line: `behind` and, if there is room, what the line adds. */
  ghost function Extended<Env>(run: (Env, Text) -> Effect<Env>, s: State<Env>, behind: Text): Text
    requires s.text != []
  {
    var added, text := run(s.env, First(s.text)).appended, Step(Inner(run), s).text;
    if |text + behind| + |added| < BUFFER_SIZE then behind + added else behind
  }

  ghost function Behind<Env>(run: (Env, Text) -> Effect<Env>, n: nat, s: State<Env>, rest: Text): (behind: Text)
    ensures rest <= behind
  {
    if n == 0 then rest
    else
      var t := Steps(Inner(run), n - 1, s);
      if t.text == [] then Behind(run, n - 1, s, rest) else Extended(run, t, Behind(run, n - 1, s, rest))
  }

  lemma InnerStep<Env>(run: (Env, Text) -> Effect<Env>, s: State<Env>)
    requires s.text != []
    ensures Step(Inner(run), s).text == Insertion(run, s) + Rest(s.text)
  {
    hide LineEnd, First, Rest, Kept;
    var text := Insertion(run, s) + Rest(s.text);
    assert text + [] == text;
  }

  lemma StepClosed<Env>(run: (Env, Text) -> Effect<Env>, s: State<Env>)
    requires Closed(s.text) && s.text != [] && Closed(Insertion(run, s))
    ensures Closed(Step(Inner(run), s).text)
  {
    hide Kept, Step;
    InnerStep(run, s);
    ConcatClosed(Insertion(run, s), Rest(s.text));
  }

  lemma StepAppend<Env>(run: (Env, Text) -> Effect<Env>, s: State<Env>, behind: Text)
    requires Closed(s.text) && s.text != []
    ensures var t := Step(Inner(run), s);
      Step(run, s.(text := s.text + behind)) == t.(text := t.text + Extended(run, s, behind))
  {
    hide LineEnd, First, Rest, Kept;
    ClosedIsEnded(s.text);
    FirstOfConcat(s.text, behind);
    InnerStep(run, s);
    var e, text := run(s.env, First(s.text)), Step(Inner(run), s).text;
    assert Kept(e.inserted) + (Rest(s.text) + behind) == text + behind;
    assert (text + behind) + e.appended == text + (behind + e.appended);
  }

  lemma ClosedIsEnded(text: Text)
    requires Closed(text) && text != []
    ensures LineEnd(text, 0, false) < |text|
  {
  }

  lemma StepsNext<Env>(run: (Env, Text) -> Effect<Env>, n: nat, s: State<Env>)
    ensures Steps(run, n + 1, s) == Step(run, Steps(run, n, s))
  {
  }

  /**
   All of a body runs before anything behind it, and as if nothing were behind it, for as long as
   its lines insert text whose last line is ended.  What its lines add comes behind all the rest.
   */
  lemma {:induction false} BodyRunsFirst<Env>(
    run: (Env, Text) -> Effect<Env>, n: nat, env: Env, body: Text, rest: Text, trace: seq<Text>)
    requires Closed(body) && forall k: nat :: k < n ==> Continues(run, Steps(Inner(run), k, State(env, body, trace)))
    ensures var t := Steps(Inner(run), n, State(env, body, trace));
      && Closed(t.text)
      && Steps(run, n, State(env, body + rest, trace)) ==
        t.(text := t.text + Behind(run, n, State(env, body, trace), rest))
  {
    hide Step, Steps, Closed, Insertion, Extended;
    if n == 0 {
      NoSteps(run, State(env, body + rest, trace));
      NoSteps(Inner(run), State(env, body, trace));
    } else {
      var s := State(env, body, trace);
      BodyRunsFirst(run, n - 1, env, body, rest, trace);
      StepsNext(Inner(run), n - 1, s);
      StepsNext(run, n - 1, State(env, body + rest, trace));
      var t := Steps(Inner(run), n - 1, s);
      assert Continues(run, t);
      StepAppend(run, t, Behind(run, n - 1, s, rest));
      StepClosed(run, t);
    }
  }

  lemma NoSteps<Env>(run: (Env, Text) -> Effect<Env>, s: State<Env>)
    ensures Steps(run, 0, s) == s
  {
  }

  lemma {:induction false} StepsAdd<Env>(run: (Env, Text) -> Effect<Env>, m: nat, n: nat, s: State<Env>)
    ensures Steps(run, m + n, s) == Steps(run, n, Steps(run, m, s))
  {
    if n > 0 { StepsAdd(run, m, n - 1, s); }
  }

  lemma StepFirst<Env>(run: (Env, Text) -> Effect<Env>, n: nat, s: State<Env>)
    ensures Steps(run, n + 1, s) == Steps(run, n, Step(run, s))
  {
    StepsAdd(run, 1, n, s);
    assert Steps(run, 1, s) == Step(run, Steps(run, 0, s));
  }

  /** The next line ends the frame. */
  ghost predicate LineWaits<Env>(run: (Env, Text) -> Effect<Env>, s: State<Env>) {
    s.text != [] && run(s.env, First(s.text)).wait
  }

  /** What the next line inserts does not fit in front of the rest. */
  ghost predicate Overflows<Env>(run: (Env, Text) -> Effect<Env>, s: State<Env>) {
    |Insertion(run, s)| + |Rest(s.text)| > BUFFER_SIZE
  }

  /** Find the end of the first line. */
  method FindLineEnd(text: Text) returns (i: nat)
    ensures i == LineEnd(text, 0, false)
  {
    var quotes := 0;
    i := 0;
    while i < |text|
      invariant 0 <= i <= |text| && quotes >= 0
      invariant LineEnd(text, 0, false) == LineEnd(text, i, quotes % 2 == 1)
    {
      if text[i] == QUOTE { quotes := quotes + 1; }
      if quotes % 2 == 0 && text[i] == SEMICOLON { break; }
      if text[i] == NEWLINE { break; }
      i := i + 1;
    }
  }

  /** Take the first line off a text. */
  method CutLine(text: Text) returns (line: Text, rest: Text)
    ensures line == First(text) && rest == Rest(text)
  {
    var i := FindLineEnd(text);
    line := text[..i];
    rest := if i == |text| then [] else text[i + 1..];
  }

  datatype Stop = Done | Waiting | LineTooLong | BufferFull | Unfinished

  class CommandBuffer<Env(!new)> {
    const run: (Env, Text) -> Effect<Env>
    var text: Text
    var env: Env
    ghost var trace: seq<Text>

    constructor (run: (Env, Text) -> Effect<Env>, env: Env)
      ensures this.run == run && this.env == env && text == [] && trace == []
    {
      this.run, this.env, text, trace := run, env, [], [];
    }

    ghost function Now(): State<Env>
      reads this
    {
      State(env, text, trace)
    }

    /** Add text at the end; text that does not fit is dropped. */
    method AddText(t: Text) returns (fits: bool)
      modifies `text
      ensures fits == (|old(text)| + |t| < BUFFER_SIZE)
      ensures text == if fits then old(text) + t else old(text)
    {
      fits := |text| + |t| < BUFFER_SIZE;
      if fits { text := text + t; }
    }

    /**
     Put text in front of the buffer: set the buffer aside, add the text unless it is too long, and
     append what was set aside.  If that does not fit any more the program stops.
     */
    method InsertText(t: Text) returns (fits: bool)
      modifies `text
      ensures fits == (|Kept(t)| + |old(text)| <= BUFFER_SIZE)
      ensures text == Kept(t) + if fits then old(text) else []
      ensures |t| < 8192 && |t| + |old(text)| <= 8192 ==> fits && text == t + old(text)
      ensures |t| >= 8192 ==> text == if fits then old(text) else []
    {
      var temp := text;
      text := [];
      var _ := AddText(t);
      if |temp| > 0 {
        if |text| + |temp| > BUFFER_SIZE { return false; }
        text := text + temp;
      }
      return true;
    }

    /**
     Execute lines until the buffer is empty, a line waits for the next frame, a buffer overflows,
     or `limit` lines have run.  The lines executed are steps of the run, none but the last of them
     waits, and the reason to stop is the one reported.
     */
    method Execute(limit: nat) returns (stop: Stop, n: nat)
      modifies this
      ensures n <= limit && (stop != BufferFull ==> Now() == Steps(run, n, old(Now())))
      ensures stop == Done ==> text == []
      ensures stop == Unfinished ==> n == limit && text != []
      ensures stop == LineTooLong ==> text != [] && LineEnd(text, 0, false) >= LINE_SIZE
      ensures stop == BufferFull ==> Overflows(run, Steps(run, n, old(Now())))
      ensures stop == Waiting ==> n > 0 && LineWaits(run, Steps(run, n - 1, old(Now())))
      ensures forall k: nat :: k < (if stop == Waiting then n - 1 else n) ==> !LineWaits(run, Steps(run, k, old(Now())))
    {
      hide Step, LineWaits, Overflows, LineEnd;
      n := 0;
      while |text| > 0
        invariant n <= limit && Now() == Steps(run, n, old(Now()))
        invariant forall k: nat :: k < n ==> !LineWaits(run, Steps(run, k, old(Now())))
        decreases limit - n
      {
        if n == limit { return Unfinished, n; }
        var i := FindLineEnd(text);
        if i >= LINE_SIZE { return LineTooLong, n; }
        var fits, wait := ExecuteLine(i);
        if !fits { return BufferFull, n; }
        n := n + 1;
        if wait { return Waiting, n; }
      }
      return Done, n;
    }

    /** Take the line of `i` characters off the buffer and execute it. */
    method ExecuteLine(i: nat) returns (fits: bool, wait: bool)
      requires text != [] && i == LineEnd(text, 0, false)
      modifies this
      ensures fits == !Overflows(run, old(Now())) && wait == LineWaits(run, old(Now()))
      ensures fits ==> Now() == Step(run, old(Now()))
    {
      var line := text[..i];
      text := if i == |text| then [] else text[i + 1..];
      var e := run(env, line);
      env, trace := e.env, trace + [line];
      fits := InsertText(e.inserted);
      var _ := AddText(e.appended);
      wait := e.wait;
    }

    /** Frame after frame: waiting changes when lines run, not which lines run. */
    method ExecuteFrames(frames: nat, limit: nat) returns (stop: Stop, ghost n: nat)
      modifies this
      ensures stop != BufferFull ==> Now() == Steps(run, n, old(Now()))
      ensures stop == Done ==> text == []
      ensures stop == LineTooLong ==> text != [] && LineEnd(text, 0, false) >= LINE_SIZE
      ensures stop == BufferFull ==> Overflows(run, Steps(run, n, old(Now())))
    {
      hide Step, LineWaits, Overflows, LineEnd;
      stop, n := Waiting, 0;
      var f := 0;
      while f < frames && stop == Waiting
        invariant 0 <= f <= frames
        invariant stop != BufferFull ==> Now() == Steps(run, n, old(Now()))
        invariant stop == Done ==> text == []
        invariant stop == LineTooLong ==> text != [] && LineEnd(text, 0, false) >= LINE_SIZE
        invariant stop == BufferFull ==> Overflows(run, Steps(run, n, old(Now())))
      {
        var k;
        stop, k := Execute(limit);
        StepsAdd(run, n, k, old(Now()));
        n := n + k;
        f := f + 1;
      }
    }
  }
}
