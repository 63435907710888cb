/**
 Aliases: names that stand for lines of their own.  Running them through the command buffer is proved
 to be expanding them in place, in every state that can be reached.
 */
module Aliases {
  import opened Basics
  import opened Script
  import opened Tokens
  import opened Config
  import opened Words

  const MAX_ALIAS_NAME := 32

  const ALIAS: Text := [97, 108, 105, 97, 115]  // alias
  const EXEC: Text := [101, 120, 101, 99]       // exec

  datatype Alias = Alias(name: Text, value: Text)

  /** The aliases, newest first, and everything else commands can change. */
  datatype Env<World> = Env(aliases: seq<Alias>, world: World)

  /**
   The rest of the shell: which lines are for other commands, what a script file holds, and what a
   line does that is neither an alias nor about one.
   */
  datatype Shell<!World> = Shell(
    taken: (World, Text) -> bool, file: (World, Text) -> Option<Text>, other: (World, Text) -> Effect<World>)

  // ----- The table ----------------------------------------------------------------------------------

  /** The alias of exactly that name, for defining one, or the number of aliases. */
  function Named(aliases: seq<Alias>, name: Text): (k: nat)
    ensures k <= |aliases| && (k < |aliases| ==> aliases[k].name == name)
    ensures forall i :: 0 <= i < k ==> aliases[i].name != name
  {
    if aliases == [] || aliases[0].name == name then 0 else 1 + Named(aliases[1..], name)
  }

  /** The alias called by a name, without regard to case, or the number of aliases. */
  function Called(aliases: seq<Alias>, name: Text): (k: nat)
    ensures k <= |aliases| && (k < |aliases| ==> SameName(name, aliases[k].name))
    ensures forall i :: 0 <= i < k ==> !SameName(name, aliases[i].name)
  {
    if aliases == [] || SameName(name, aliases[0].name) then 0 else 1 + Called(aliases[1..], name)
  }

  /** What an `alias` line makes of the table. */
  function Defined(aliases: seq<Alias>, args: seq<Text>): seq<Alias> {
    if |args| < 2 || |args[1]| >= MAX_ALIAS_NAME then aliases
    else
      var k, a := Named(aliases, args[1]), Alias(args[1], Joined(args, 2) + [NEWLINE]);
      if k < |aliases| then aliases[k := a] else [a] + aliases
  }

  /** The line goes to a script file, another command, a variable or nowhere. */
  predicate Foreign<World>(sh: Shell<World>, env: Env<World>, line: Text) {
    var args := Arguments(line);
    && args != []
    && (sh.taken(env.world, line) || (!SameName(args[0], ALIAS) && Called(env.aliases, args[0]) == |env.aliases|))
  }

  /** What a line does: commands come before aliases, and aliases before variables. */
  function RunLine<World>(sh: Shell<World>, env: Env<World>, line: Text): Effect<Env<World>> {
    var args := Arguments(line);
    if args == [] then Effect(env, [], [], false)
    else if Foreign(sh, env, line) then
      if SameName(args[0], EXEC) then Effect(env, ScriptText(sh, env.world, args), [], false)
      else var e := sh.other(env.world, line); Effect(env.(world := e.env), e.inserted, e.appended, e.wait)
    else if SameName(args[0], ALIAS) then Effect(env.(aliases := Defined(env.aliases, args)), [], [], false)
    else Effect(env, env.aliases[Called(env.aliases, args[0])].value, [], false)
  }

  /** What an `exec` line inserts: the file as it stands. */
  function ScriptText<World>(sh: Shell<World>, world: World, args: seq<Text>): Text {
    if |args| != 2 || sh.file(world, args[1]).None? then [] else sh.file(world, args[1]).value
  }

  function Run<World>(sh: Shell<World>): (Env<World>, Text) -> Effect<Env<World>> {
    (env, line) => RunLine(sh, env, line)
  }

  // ----- A definition and its call ------------------------------------------------------------------

  lemma {:induction false} JoinedHas(args: seq<Text>, i: nat, c: byte)
    requires i <= |args| && c != SPACE
    ensures c in Joined(args, i) <==> exists n :: i <= n < |args| && c in args[n]
    decreases |args| - i
  {
    if i < |args| {
      JoinedHas(args, i + 1, c);
      var rest := Joined(args, i + 1);
      assert c in args[i] + [SPACE] + rest <==> c in args[i] || c in rest;
      if c in rest {
        var n :| i + 1 <= n < |args| && c in args[n];
      }
    }
  }

  lemma OneLine(text: Text)
    requires QUOTE !in text && SEMICOLON !in text && NEWLINE !in text
    ensures Lines(text + [NEWLINE]) == [text]
  {
    hide AllTokens;
    var all := text + [NEWLINE];
    assert forall k :: 0 <= k < |text| ==> all[k] == text[k] && text[k] in text;
    SkipUnquoted(all, 0, |text|);
    assert LineEnd(all, |text|, false) == |text|;
    assert First(all) == text && Rest(all) == [];
  }

  lemma CutLineIsShort(text: Text)
    requires QUOTE !in text && (SEMICOLON in text || NEWLINE in text)
    ensures Lines(text + [NEWLINE]) != [text]
  {
    var all := text + [NEWLINE];
    var k := FirstEnd(text, 0);
    assert forall j :: 0 <= j < |text| ==> all[j] == text[j] && text[j] in text;
    SkipUnquoted(all, 0, k);
    assert LineEnd(all, k, false) == k;
    assert |First(all)| == k;
  }

  lemma {:induction false} FirstEnd(text: Text, i: nat) returns (k: nat)
    requires i <= |text| && exists j :: i <= j < |text| && text[j] in [SEMICOLON, NEWLINE]
    ensures i <= k < |text| && text[k] in [SEMICOLON, NEWLINE]
    ensures forall j :: i <= j < k ==> text[j] !in [SEMICOLON, NEWLINE]
    decreases |text| - i
  {
    k := i;
    if text[i] !in [SEMICOLON, NEWLINE] { k := FirstEnd(text, i + 1); }
  }

  /**
   An alias defined without quotes inside its words has those words as the one line of its body, exactly if
   each of them is taken whole: a word that was in quotes because of its blanks or semicolons is taken apart.
   */
  lemma BodyIsItsWordsIff(args: seq<Text>)
    requires 2 <= |args| <= MAX_ARGS && forall n :: 2 <= n < |args| ==> QUOTE !in args[n]
    ensures var body := Joined(args, 2) + [NEWLINE];
      (Lines(body) == [Joined(args, 2)] && Arguments(Joined(args, 2)) == args[2..])
      <==> forall n :: 2 <= n < |args| ==> WholeWord(args[n])
  {
    hide PlainName, AllTokens, Lines, LineEnd, OneCharacter, WholeWord;
    var text := Joined(args, 2);
    JoinedHas(args, 2, QUOTE);
    JoinedHas(args, 2, SEMICOLON);
    JoinedHas(args, 2, NEWLINE);
    if SEMICOLON in text || NEWLINE in text {
      CutLineIsShort(text);
      var n :| 2 <= n < |args| && (SEMICOLON in args[n] || NEWLINE in args[n]);
      WholeHasNoEnd(args[n]);
    } else {
      OneLine(text);
      assert text[0..] == text;
      JoinedReadsBack(text, 0, args, 2);
    }
  }

  lemma WholeHasNoEnd(word: Text)
    requires SEMICOLON in word || NEWLINE in word
    ensures !WholeWord(word)
  {
    var k :| 0 <= k < |word| && (word[k] == SEMICOLON || word[k] == NEWLINE);
  }

  /** So an alias stands for several commands: its quoted argument is cut at the semicolon. */
  lemma QuotedCommands()
    ensures Lines(Joined([ALIAS, [97], [98, SEMICOLON, 99]], 2) + [NEWLINE]) == [[98], [99, SPACE]]
  {
    hide Lines;
    var args: seq<Text> := [ALIAS, [97], [98, SEMICOLON, 99]];
    assert Joined(args, 3) == [] && Joined(args, 2) + [NEWLINE] == [98, SEMICOLON, 99, SPACE, NEWLINE];
    var text: Text := [98, SEMICOLON, 99, SPACE, NEWLINE];
    assert LineEnd(text, 1, false) == 1;
    assert First(text) == [98] && Rest(text) == [99, SPACE] + [NEWLINE];
    assert Lines(text) == [First(text)] + Lines(Rest(text)) by { LinesStep(text); }
    OneLine([99, SPACE]);
  }

  lemma LinesStep(text: Text)
    requires text != []
    ensures Lines(text) == [First(text)] + Lines(Rest(text))
  {
  }

  /**
   Names are defined with regard to case and called without: a definition takes effect exactly if it is
   new, or no newer alias has the name in other letters.
   */
  lemma TakesEffectIff(aliases: seq<Alias>, args: seq<Text>)
    requires |args| >= 2
    ensures |args[1]| >= 32 ==> Defined(aliases, args) == aliases
    ensures var after := Defined(aliases, args); var k := Called(after, args[1]);
      |args[1]| >= 32 || (k < |after| && (after[k] == Alias(args[1], Joined(args, 2) + [NEWLINE]) <==>
        Named(aliases, args[1]) in [|aliases|, Called(aliases, args[1])]))
  {
    hide Joined, SameName;
    SameNameRefl(args[1]);
    var k, c, after := Named(aliases, args[1]), Called(aliases, args[1]), Defined(aliases, args);
    if |args[1]| >= 32 { return; }
    if k < |aliases| {
      assert forall i :: 0 <= i < |aliases| ==> after[i].name == aliases[i].name;
      assert Called(after, args[1]) == c <= k;
    } else {
      assert after[0].name == args[1];
    }
  }

  // ----- Every body is ended ------------------------------------------------------------------------

  ghost predicate BodiesClosed(aliases: seq<Alias>) {
    forall i :: 0 <= i < |aliases| ==> Closed(aliases[i].value)
  }

  lemma DefinedKeepsClosed(aliases: seq<Alias>, args: seq<Text>)
    requires BodiesClosed(aliases)
    ensures BodiesClosed(Defined(aliases, args))
  {
    hide Closed, Joined;
    if |args| >= 2 { NewlineCloses(Joined(args, 2) + [NEWLINE]); }
  }

  /** Whatever line runs, the bodies stay ended; and a line of ours inserts a body, or nothing. */
  lemma LineKeepsClosed<World>(sh: Shell<World>, env: Env<World>, line: Text)
    requires BodiesClosed(env.aliases)
    ensures BodiesClosed(RunLine(sh, env, line).env.aliases)
    ensures !Foreign(sh, env, line) ==>
      Closed(Kept(RunLine(sh, env, line).inserted)) && RunLine(sh, env, line).appended == []
  {
    hide Closed, Joined, SameName, Arguments, Defined;
    NothingIsClosed();
    var args := Arguments(line);
    DefinedKeepsClosed(env.aliases, args);
  }

  /** A line of no other command defines an alias, or runs the first alias of its name; an empty one does nothing. */
  lemma OurLine<World>(sh: Shell<World>, env: Env<World>, line: Text, k: nat)
    requires !sh.taken(env.world, line)
    ensures Arguments(line) == [] ==> RunLine(sh, env, line) == Effect(env, [], [], false)
    ensures Arguments(line) != [] ==>
      var name := Arguments(line)[0];
      && (SameName(name, ALIAS) ==>
          RunLine(sh, env, line) == Effect(env.(aliases := Defined(env.aliases, Arguments(line))), [], [], false))
      && (!SameName(name, ALIAS) && k < |env.aliases| && SameName(name, env.aliases[k].name)
          && (forall i :: 0 <= i < k ==> !SameName(name, env.aliases[i].name)) ==>
          RunLine(sh, env, line) == Effect(env, env.aliases[k].value, [], false))
  {
    hide Arguments, SameName, Defined;
  }

  /** Any other line is for a command, for a variable or for nothing; only `exec` is looked at here. */
  lemma ForeignLine<World>(sh: Shell<World>, env: Env<World>, line: Text)
    requires Arguments(line) != []
    requires sh.taken(env.world, line) || (!SameName(Arguments(line)[0], ALIAS)
      && forall i :: 0 <= i < |env.aliases| ==> !SameName(Arguments(line)[0], env.aliases[i].name))
    ensures var args, e := Arguments(line), RunLine(sh, env, line);
      && e.env.aliases == env.aliases
      && if !SameName(args[0], EXEC) then e == Effect(Env(env.aliases, sh.other(env.world, line).env),
          sh.other(env.world, line).inserted, sh.other(env.world, line).appended, sh.other(env.world, line).wait)
        else e.env == env && !e.wait && e.appended == [] && (e.inserted != [] ==>
          |args| == 2 && sh.file(env.world, args[1]) == Some(e.inserted))
    ensures var args, e := Arguments(line), RunLine(sh, env, line);
      SameName(args[0], EXEC) && |args| == 2 && sh.file(env.world, args[1]).Some? ==>
      e.inserted == sh.file(env.world, args[1]).value
  {
    hide Arguments, SameName, Defined;
  }

  lemma {:induction false} BodiesStayClosed<World>(sh: Shell<World>, n: nat, s: State<Env<World>>)
    requires BodiesClosed(s.env.aliases)
    ensures BodiesClosed(Steps(Run(sh), n, s).env.aliases)
  {
    hide RunLine, BodiesClosed;
    if n > 0 {
      BodiesStayClosed(sh, n - 1, s);
      var t := Steps(Run(sh), n - 1, s);
      LineKeepsClosed(sh, t.env, First(t.text));
    }
  }

  // ----- Expansion ----------------------------------------------------------------------------------

  /** If the next line is not ours, what it inserts and what it adds stay apart from the rest. */
  ghost predicate ForeignSeparates<World>(sh: Shell<World>, s: State<Env<World>>) {
    s.text != [] && Foreign(sh, s.env, First(s.text)) ==> Separates(Run(sh), s)
  }

  ghost predicate AllSeparate<World>(sh: Shell<World>, n: nat, s: State<Env<World>>) {
    forall k: nat :: k < n ==> ForeignSeparates(sh, Steps(Run(sh), k, s))
  }

  lemma OwnSeparates<World>(sh: Shell<World>, s: State<Env<World>>)
    requires BodiesClosed(s.env.aliases)
    ensures Separates(Run(sh), s) <==> ForeignSeparates(sh, s)
  {
    hide RunLine, BodiesClosed, First, Rest, Closed, Foreign, Kept;
    if s.text != [] { LineKeepsClosed(sh, s.env, First(s.text)); }
  }

  /** After each of the first n lines the buffer stands for the listing in which aliases are expanded. */
  ghost predicate Expands<World>(sh: Shell<World>, n: nat, s: State<Env<World>>) {
    forall k: nat :: k <= n ==> ListSteps(Run(sh), k, Listed(s)) == Listed(Steps(Run(sh), k, s))
  }

  /**
   From any table of ended bodies the buffer expands aliases in place, whatever lines define and call
   them, exactly as long as no other line inserts text that runs together with what is behind it, or
   adds text at the end that runs together with the buffer or finds no room.
   */
  lemma AliasesExpandIff<World>(sh: Shell<World>, n: nat, s: State<Env<World>>)
    requires BodiesClosed(s.env.aliases)
    ensures Expands(sh, n, s) <==> AllSeparate(sh, n, s)
  {
    hide Step, Steps, ListStep, ListSteps, Listed, Run, Separates, ForeignSeparates, BodiesClosed;
    ExpandsIffSeparates(sh, n, s);
    forall k: nat | k < n
      ensures Expands(sh, n, s) ==> ForeignSeparates(sh, Steps(Run(sh), k, s))
      ensures AllSeparate(sh, n, s) ==> Separates(Run(sh), Steps(Run(sh), k, s))
    {
      BodiesStayClosed(sh, k, s);
      OwnSeparates(sh, Steps(Run(sh), k, s));
    }
  }

  lemma ExpandsIffSeparates<World>(sh: Shell<World>, n: nat, s: State<Env<World>>)
    ensures Expands(sh, n, s) <==> forall k: nat :: k < n ==> Separates(Run(sh), Steps(Run(sh), k, s))
  {
    hide Step, Steps, ListStep, ListSteps, Listed, Run, Separates;
    if Expands(sh, n, s) {
      forall k: nat | k < n ensures Separates(Run(sh), Steps(Run(sh), k, s)) {
        assert ListSteps(Run(sh), k + 1, Listed(s)) == Listed(Steps(Run(sh), k + 1, s));
        AgreesNext(sh, k, s);
      }
      assert forall k: nat :: k < n ==> Separates(Run(sh), Steps(Run(sh), k, s));
    } else {
      var k: nat :| k <= n && ListSteps(Run(sh), k, Listed(s)) != Listed(Steps(Run(sh), k, s));
      assert exists j: nat :: j < k && !Separates(Run(sh), Steps(Run(sh), j, s)) by {
        if forall j: nat :: j < k ==> Separates(Run(sh), Steps(Run(sh), j, s)) { BufferIsExpansion(Run(sh), k, s); }
      }
    }
  }

  lemma AgreesNext<World>(sh: Shell<World>, k: nat, s: State<Env<World>>)
    requires ListSteps(Run(sh), k, Listed(s)) == Listed(Steps(Run(sh), k, s))
    requires ListSteps(Run(sh), k + 1, Listed(s)) == Listed(Steps(Run(sh), k + 1, s))
    ensures Separates(Run(sh), Steps(Run(sh), k, s))
  {
    hide Step, ListStep, Listed, Run, Separates;
    ExpansionStep(Run(sh), Steps(Run(sh), k, s));
  }

  /**
   Calling an alias: its body runs before everything behind the call, and as if that were not there;
   what its lines add comes behind all of it.
   */
  lemma CallRunsBodyFirst<World>(sh: Shell<World>, s: State<Env<World>>, n: nat)
    requires BodiesClosed(s.env.aliases) && s.text != [] && Calls(sh, s.env, First(s.text))
    requires forall k: nat :: k < n ==> Continues(Run(sh), Steps(Inner(Run(sh)), k, AtBody(s)))
    ensures var t := Steps(Inner(Run(sh)), n, AtBody(s));
      Steps(Run(sh), n + 1, s) == t.(text := t.text + Behind(Run(sh), n, AtBody(s), Rest(s.text)))
  {
    hide Steps, Run, Closed, Continues, First, Rest, Arguments, Called, SameName;
    var body := AtBody(s).text;
    StepIntoBody(sh, s);
    StepFirst(Run(sh), n, s);
    KeptClosed(s.env.aliases[Called(s.env.aliases, Arguments(First(s.text))[0])].value);
    BodyRunsFirst(Run(sh), n, s.env, body, Rest(s.text), s.trace + [First(s.text)]);
  }

  ghost predicate Calls<World>(sh: Shell<World>, env: Env<World>, line: Text) {
    && Arguments(line) != [] && !Foreign(sh, env, line) && !SameName(Arguments(line)[0], ALIAS)
    && Called(env.aliases, Arguments(line)[0]) < |env.aliases|
  }

  /** The buffer as if the called body were all of it. */
  ghost function AtBody<World>(s: State<Env<World>>): State<Env<World>>
    requires Arguments(First(s.text)) != [] && Called(s.env.aliases, Arguments(First(s.text))[0]) < |s.env.aliases|
  {
    var a := s.env.aliases[Called(s.env.aliases, Arguments(First(s.text))[0])];
    State(s.env, Kept(a.value), s.trace + [First(s.text)])
  }

  lemma StepIntoBody<World>(sh: Shell<World>, s: State<Env<World>>)
    requires s.text != [] && Calls(sh, s.env, First(s.text))
    ensures Step(Run(sh), s) == AtBody(s).(text := AtBody(s).text + Rest(s.text))
  {
    hide Arguments, Called, SameName, First, Rest, Kept;
    var text := AtBody(s).text + Rest(s.text);
    assert text + [] == text;
  }

  lemma KeptClosed(t: Text)
    requires Closed(t)
    ensures Closed(Kept(t))
  {
    NothingIsClosed();
  }

  // ----- The program --------------------------------------------------------------------------------

  class AliasTable {
    var aliases: seq<Alias>

    constructor ()
      ensures aliases == []
    {
      aliases := [];
    }

    /** The `alias` command: reuse the alias of that name or put a new one in front. */
    method Define(args: seq<Text>)
      modifies this
      ensures aliases == Defined(old(aliases), args)
      ensures BodiesClosed(old(aliases)) ==> BodiesClosed(aliases)
    {
      if BodiesClosed(aliases) { DefinedKeepsClosed(aliases, args); }
      if |args| < 2 { return; }
      var s := args[1];
      if |s| >= MAX_ALIAS_NAME { return; }
      var k := 0;
      while k < |aliases| && aliases[k].name != s
        invariant 0 <= k <= |aliases| && forall i :: 0 <= i < k ==> aliases[i].name != s
      {
        k := k + 1;
      }
      var value := AliasValue(args);
      if k < |aliases| { aliases := aliases[k := Alias(s, value)]; } else { aliases := [Alias(s, value)] + aliases; }
    }

    /** What a call of `name` inserts, if it is an alias. */
    method Find(name: Text) returns (body: Option<Text>)
      ensures var k := Called(aliases, name); body == if k < |aliases| then Some(aliases[k].value) else None
    {
      var k := 0;
      while k < |aliases|
        invariant 0 <= k <= |aliases| && forall i :: 0 <= i < k ==> !SameName(name, aliases[i].name)
      {
        if SameName(name, aliases[k].name) { return Some(aliases[k].value); }
        k := k + 1;
      }
      return None;
    }
  }

  /**
   A command buffer over an alias table: however many lines run, the lines executed are those of the
   expanded listing, unless what a script or another command inserted or added did not stay apart.
   */
  method RunAliases<World(!new)>(buffer: CommandBuffer<Env<World>>, ghost sh: Shell<World>, limit: nat)
      returns (stop: Stop, n: nat)
    requires buffer.run == Run(sh) && BodiesClosed(buffer.env.aliases)
    modifies buffer
    ensures stop != BufferFull ==> BodiesClosed(buffer.env.aliases)
    ensures stop != BufferFull && AllSeparate(sh, n, old(buffer.Now())) ==>
      Listed(buffer.Now()) == ListSteps(Run(sh), n, Listed(old(buffer.Now())))
  {
    hide Steps, ListSteps, Listed, Run, ForeignSeparates, BodiesClosed;
    ghost var s := buffer.Now();
    stop, n := buffer.Execute(limit);
    BodiesStayClosed(sh, n, s);
    AliasesExpandIff(sh, n, s);
  }
}
