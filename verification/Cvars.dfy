/**
 Console variables: looked up through a 16-entry cache, printed to a configuration file, and set
 again by executing that text.
 */
module Cvars {
  import opened Script
  import opened Tokens
  import opened Config

  const CACHE_SIZE := 16

  // cl_warncmd
  const WARN_COMMAND: Text := [99, 108, 95, 119, 97, 114, 110, 99, 109, 100]

  /** What is fixed about a variable; `rejects` is the verdict of its change callback on a new value. */
  datatype Entry = Entry(name: Text, archive: bool, rom: bool, init: bool, default: Text, rejects: Text -> bool)

  datatype Var = Var(entry: Entry, value: Text)

  ghost predicate DistinctNames(vars: seq<Var>) {
    forall i, j :: 0 <= i < j < |vars| ==> !SameName(vars[i].entry.name, vars[j].entry.name)
  }

  /** The first variable of that name in the list, or the length of the list. */
  function Find(vars: seq<Var>, name: Text): (k: nat)
    ensures k <= |vars| && (k < |vars| ==> SameName(name, vars[k].entry.name))
    ensures forall i :: 0 <= i < k ==> !SameName(name, vars[i].entry.name)
  {
    if vars == [] || SameName(name, vars[0].entry.name) then 0 else 1 + Find(vars[1..], name)
  }

  predicate Settable(e: Entry, started: bool, value: Text) {
    !e.rom && !(e.init && started) && !e.rejects(value)
  }

  /** What a command line of a variable name and a value does to the variables. */
  function Assign(vars: seq<Var>, started: bool, args: seq<Text>): seq<Var>
    requires args != []
  {
    var k := Find(vars, args[0]);
    if k < |vars| && |args| > 1 && Settable(vars[k].entry, started, args[1])
    then vars[k := vars[k].(value := args[1])] else vars
  }

  /**
   The rest of the shell: names that are commands or aliases, what those and unknown names do,
   and whether the host is initialized.
   */
  datatype Shell = Shell(reserved: Text -> bool, command: (seq<Var>, seq<Text>) -> Effect<seq<Var>>, started: bool)

  function RunLine(sh: Shell, vars: seq<Var>, line: Text): Effect<seq<Var>> {
    var args := Arguments(line);
    if args == [] then Effect(vars, [], [], false)
    else if sh.reserved(args[0]) || Find(vars, args[0]) == |vars| then sh.command(vars, args)
    else Effect(Assign(vars, sh.started, args), [], [], false)
  }

  /**
   A line sets a variable exactly if it is the first of that name, there is a value, and it is neither read-only,
   nor fixed once the host has started, nor is the value rejected; no other variable changes.
   */
  lemma AssignsIff(vars: seq<Var>, started: bool, args: seq<Text>, i: nat)
    requires args != [] && i < |vars|
    ensures SameVars(vars, Assign(vars, started, args))
    ensures var e := vars[i].entry;
      Assign(vars, started, args)[i].value ==
      if Find(vars, args[0]) == i && |args| > 1 && !e.rom && (e.init ==> !started) && !e.rejects(args[1])
      then args[1] else vars[i].value
  {
  }

  /** A line without words does nothing. */
  lemma EmptyLine(sh: Shell, vars: seq<Var>, line: Text)
    requires Arguments(line) == []
    ensures RunLine(sh, vars, line) == Effect(vars, [], [], false)
  {
  }

  // ----- The configuration file ---------------------------------------------------------------------

  predicate Written(v: Var, savevars: real) {
    || v.entry.archive
    || (&& !v.entry.rom && !v.entry.init && v.entry.name != WARN_COMMAND
        && ((savevars == 1.0 && v.value != v.entry.default) || savevars == 2.0))
  }

  function LineFor(v: Var, savevars: real): Text {
    if Written(v, savevars) then Printed(v.entry.name, v.value) else []
  }

  /** The text written for the variables from `i` on, and the number of its lines. */
  ghost function ConfigText(vars: seq<Var>, savevars: real, i: nat): Text
    requires i <= |vars|
    decreases |vars| - i
  {
    if i == |vars| then [] else LineFor(vars[i], savevars) + ConfigText(vars, savevars, i + 1)
  }

  ghost function ConfigLines(vars: seq<Var>, savevars: real, i: nat): nat
    requires i <= |vars|
    decreases |vars| - i
  {
    if i == |vars| then 0 else (if Written(vars[i], savevars) then 1 else 0) + ConfigLines(vars, savevars, i + 1)
  }

  /** The same variables, perhaps with other values. */
  ghost predicate SameVars(a: seq<Var>, b: seq<Var>) {
    |a| == |b| && forall i :: 0 <= i < |a| ==> a[i].entry == b[i].entry
  }

  /** The saved variable if it was written and can be set to its saved value, the present one if not. */
  ghost function Choice(saved: Var, now: Var, savevars: real, started: bool): Var {
    if Written(saved, savevars) && Settable(saved.entry, started, saved.value) then saved else now
  }

  /** `now` with the written and settable ones of the variables before `k` given their saved value. */
  ghost function Restored(saved: seq<Var>, now: seq<Var>, savevars: real, started: bool, k: nat): (r: seq<Var>)
    requires SameVars(saved, now)
    ensures SameVars(saved, r)
  {
    seq(|now|, i requires 0 <= i < |now| => if i < k then Choice(saved[i], now[i], savevars, started) else now[i])
  }

  /** Variables the user may save at all: the others are left alone, unless they are always saved. */
  ghost predicate Savable(e: Entry) {
    e.archive || !(e.rom || e.init || e.name == [99, 108, 95, 119, 97, 114, 110, 99, 109, 100])
  }

  /**
   Loaded into variables at their defaults, a file of the changed variables does what a file of all variables
   does: each that may be saved and set is as it was.  Without either choice only the archived ones are.
   */
  lemma ChangedOnesSuffice(saved: seq<Var>, now: seq<Var>, started: bool, i: nat)
    requires SameVars(saved, now) && i < |now| && forall k :: 0 <= k < |now| ==> now[k].value == now[k].entry.default
    ensures var e := saved[i].entry; var all := Restored(saved, now, 2.0, started, |now|);
      && Restored(saved, now, 1.0, started, |now|) == all
      && all[i] == (if Savable(e) && Settable(e, started, saved[i].value) then saved[i] else now[i])
    ensures var e := saved[i].entry;
      Restored(saved, now, 0.0, started, |now|)[i] ==
      if e.archive && Settable(e, started, saved[i].value) then saved[i] else now[i]
  {
    forall k | 0 <= k < |now|
      ensures Restored(saved, now, 1.0, started, |now|)[k] == Restored(saved, now, 2.0, started, |now|)[k]
    {
      assert saved[k].entry == now[k].entry;
    }
  }

  /** What is asked of a variable that is written, so that its line is read back. */
  ghost predicate Readable(v: Var, reserved: Text -> bool) {
    PlainName(v.entry.name) && !reserved(v.entry.name) && Clean(v.value)
  }

  lemma FindDistinct(vars: seq<Var>, i: nat)
    requires DistinctNames(vars) && i < |vars|
    ensures Find(vars, vars[i].entry.name) == i
  {
    SameNameRefl(vars[i].entry.name);
    var k := Find(vars, vars[i].entry.name);
    if k < i {
      assert SameName(vars[k].entry.name, vars[i].entry.name);
    }
  }

  /** Executing the line of one variable. */
  lemma RunPrinted(sh: Shell, now: seq<Var>, i: nat, value: Text)
    requires DistinctNames(now) && i < |now| && Readable(Var(now[i].entry, value), sh.reserved)
    ensures RunLine(sh, now, Setting(now[i].entry.name, value)) == Effect(
      if Settable(now[i].entry, sh.started, value) then now[i := now[i].(value := value)] else now, [], [], false)
  {
    var name := now[i].entry.name;
    var line := Setting(name, value);
    assert Arguments(line) == [name, value] by {
      assert name + [SPACE, QUOTE] + value <= line;
      FirstTwoTokens(line, name, value);
    }
    FindDistinct(now, i);
  }

  function Run(sh: Shell): (seq<Var>, Text) -> Effect<seq<Var>> {
    (vars, line) => RunLine(sh, vars, line)
  }

  /** One more variable restored, in one step if it was written and in none if not. */
  lemma RestoreOne(sh: Shell, saved: seq<Var>, now: seq<Var>, savevars: real, k: nat)
    requires SameVars(saved, now) && k < |saved|
    ensures var a := Restored(saved, now, savevars, sh.started, k);
      var b := Restored(saved, now, savevars, sh.started, k + 1);
      b == if Written(saved[k], savevars) && Settable(saved[k].entry, sh.started, saved[k].value)
           then a[k := a[k].(value := saved[k].value)] else a
  {
  }

  lemma StepLine(sh: Shell, saved: seq<Var>, now: seq<Var>, savevars: real, k: nat, more: Text, trace: seq<Text>)
    requires DistinctNames(saved) && SameVars(saved, now) && k < |saved|
    requires Written(saved[k], savevars) && Readable(saved[k], sh.reserved)
    ensures var a, line := Restored(saved, now, savevars, sh.started, k), LineFor(saved[k], savevars);
      var b := Restored(saved, now, savevars, sh.started, k + 1);
      Step(Run(sh), State(a, line + more, trace)) ==
      State(b, more, trace + [Setting(saved[k].entry.name, saved[k].value)])
  {
    var a := Restored(saved, now, savevars, sh.started, k);
    CleanLine(saved[k].entry.name, saved[k].value, more);
    RunPrinted(sh, a, k, saved[k].value);
    RestoreOne(sh, saved, now, savevars, k);
    assert [] + more == more;
  }

  ghost predicate AllReadable(saved: seq<Var>, savevars: real, reserved: Text -> bool) {
    forall i :: 0 <= i < |saved| && Written(saved[i], savevars) ==> Readable(saved[i], reserved)
  }

  lemma ConfigTextFrom(vars: seq<Var>, savevars: real, k: nat, rest: Text)
    requires k <= |vars|
    ensures k == |vars| ==> ConfigText(vars, savevars, k) + rest == rest
    ensures k < |vars| ==>
      ConfigText(vars, savevars, k) + rest == LineFor(vars[k], savevars) + (ConfigText(vars, savevars, k + 1) + rest)
  {
    hide LineFor;
  }

  lemma NoLine(v: Var, savevars: real, more: Text)
    requires !Written(v, savevars)
    ensures LineFor(v, savevars) + more == more
  {
  }

  lemma {:induction false} RestoreFrom(sh: Shell, saved: seq<Var>, now: seq<Var>, savevars: real, k: nat,
        rest: Text, trace: seq<Text>)
    requires DistinctNames(saved) && SameVars(saved, now) && k <= |saved| && AllReadable(saved, savevars, sh.reserved)
    ensures var t := Steps(Run(sh), ConfigLines(saved, savevars, k),
          State(Restored(saved, now, savevars, sh.started, k), ConfigText(saved, savevars, k) + rest, trace));
      t.env == Restored(saved, now, savevars, sh.started, |saved|) && t.text == rest
    decreases |saved| - k
  {
    hide Step, Steps, Run, Restored, Setting, Printed, Written, LineFor, ConfigText, DistinctNames, SameVars;
    hide First, Rest;
    var a := Restored(saved, now, savevars, sh.started, k);
    ConfigTextFrom(saved, savevars, k, rest);
    if k == |saved| {
      NoSteps(Run(sh), State(a, rest, trace));
    } else {
      var more := ConfigText(saved, savevars, k + 1) + rest;
      var s := State(a, LineFor(saved[k], savevars) + more, trace);
      var n := ConfigLines(saved, savevars, k + 1);
      if Written(saved[k], savevars) {
        StepLine(sh, saved, now, savevars, k, more, trace);
        RestoreFrom(sh, saved, now, savevars, k + 1, rest, trace + [Setting(saved[k].entry.name, saved[k].value)]);
        StepFirst(Run(sh), n, s);
      } else {
        RestoreOne(sh, saved, now, savevars, k);
        RestoreFrom(sh, saved, now, savevars, k + 1, rest, trace);
        NoLine(saved[k], savevars, more);
      }
    }
  }

  /**
   Executing what was written, over any other assignment of the same variables, gives every written
   variable that can be set its saved value and changes no other, and leaves the text behind it.
   */
  lemma ConfigRoundTrip(sh: Shell, saved: seq<Var>, now: seq<Var>, savevars: real, rest: Text, trace: seq<Text>)
    requires DistinctNames(saved) && SameVars(saved, now) && AllReadable(saved, savevars, sh.reserved)
    ensures var t := Steps(Run(sh), ConfigLines(saved, savevars, 0),
      State(now, ConfigText(saved, savevars, 0) + rest, trace));
      && t.text == rest && |t.env| == |now|
      && forall i :: 0 <= i < |now| ==> t.env[i] == Choice(saved[i], now[i], savevars, sh.started)
  {
    RestoreFrom(sh, saved, now, savevars, 0, rest, trace);
    assert Restored(saved, now, savevars, sh.started, 0) == now;
  }

  /** The next line is short, waits for nothing and inserts nothing too long. */
  ghost predicate Smooth<Env>(run: (Env, Text) -> Effect<Env>, s: State<Env>) {
    s.text != [] && LineEnd(s.text, 0, false) < LINE_SIZE && !LineWaits(run, s) && !Overflows(run, s)
  }

  ghost predicate ShortLines(saved: seq<Var>, savevars: real) {
    forall i :: 0 <= i < |saved| && Written(saved[i], savevars) ==>
      |Setting(saved[i].entry.name, saved[i].value)| < LINE_SIZE
  }

  lemma SmoothLine(sh: Shell, now: seq<Var>, k: nat, value: Text, more: Text, trace: seq<Text>)
    requires DistinctNames(now) && k < |now| && Readable(Var(now[k].entry, value), sh.reserved)
    requires |Setting(now[k].entry.name, value)| < LINE_SIZE && |more| <= BUFFER_SIZE
    ensures Smooth(Run(sh), State(now, Printed(now[k].entry.name, value) + more, trace))
  {
    var name := now[k].entry.name;
    CleanLine(name, value, more);
    RunPrinted(sh, now, k, value);
    assert |First(Printed(name, value) + more)| == LineEnd(Printed(name, value) + more, 0, false);
  }

  /** Every line of a configuration runs smoothly. */
  lemma {:induction false} ConfigRunsSmoothly(sh: Shell, saved: seq<Var>, now: seq<Var>, savevars: real,
        k: nat, trace: seq<Text>, i: nat)
    requires DistinctNames(saved) && SameVars(saved, now) && k <= |saved| && AllReadable(saved, savevars, sh.reserved)
    requires ShortLines(saved, savevars) && |ConfigText(saved, savevars, k)| <= BUFFER_SIZE
    requires i < ConfigLines(saved, savevars, k)
    ensures Smooth(Run(sh), Steps(Run(sh), i,
      State(Restored(saved, now, savevars, sh.started, k), ConfigText(saved, savevars, k), trace)))
    decreases |saved| - k
  {
    hide Step, Steps, Run, Restored, Setting, Printed, Written, DistinctNames, First, Rest, Smooth;
    var a := Restored(saved, now, savevars, sh.started, k);
    var more := ConfigText(saved, savevars, k + 1);
    var s := State(a, LineFor(saved[k], savevars) + more, trace);
    if Written(saved[k], savevars) {
      if i == 0 {
        NoSteps(Run(sh), s);
        RestoredDistinct(saved, now, savevars, sh.started, k);
        SmoothLine(sh, a, k, saved[k].value, more, trace);
      } else {
        var trace' := trace + [Setting(saved[k].entry.name, saved[k].value)];
        StepLine(sh, saved, now, savevars, k, more, trace);
        ConfigRunsSmoothly(sh, saved, now, savevars, k + 1, trace', i - 1);
        StepFirst(Run(sh), i - 1, s);
      }
    } else {
      RestoreOne(sh, saved, now, savevars, k);
      NoLine(saved[k], savevars, more);
      ConfigRunsSmoothly(sh, saved, now, savevars, k + 1, trace, i);
    }
  }

  lemma RestoredDistinct(saved: seq<Var>, now: seq<Var>, savevars: real, started: bool, k: nat)
    requires SameVars(saved, now) && DistinctNames(saved)
    ensures DistinctNames(Restored(saved, now, savevars, started, k))
  {
  }

  lemma {:induction false} EmptyStays<Env>(run: (Env, Text) -> Effect<Env>, m: nat, n: nat, s: State<Env>)
    requires m <= n && Steps(run, m, s).text == []
    ensures Steps(run, n, s) == Steps(run, m, s)
    decreases n
  {
    if m < n { EmptyStays(run, m, n - 1, s); }
  }

  lemma AppendLine(before: Text, line: Text, more: Text, all: Text)
    requires all + [] == line + (more + [])
    ensures before + all == before + line + more
  {
    assert all == line + more by { assert all + [] == all && more + [] == more; }
  }

  // ----- The registry -------------------------------------------------------------------------------

  class Cvar {
    const entry: Entry
    var value: Text

    constructor (entry: Entry)
      ensures this.entry == entry && value == entry.default
    {
      this.entry, value := entry, entry.default;
    }
  }

  class Registry {
    var vars: seq<Cvar>
    var cache: seq<Cvar?>
    var next: nat

    /** Nothing is cached that is not in the list, and the list has no two variables of one name. */
    ghost predicate Valid()
      reads this
    {
      && |cache| == CACHE_SIZE && next < CACHE_SIZE
      && (forall i :: 0 <= i < CACHE_SIZE && cache[i] != null ==> cache[i] in vars)
      && (forall i, j :: 0 <= i < j < |vars| ==> !SameName(vars[i].entry.name, vars[j].entry.name))
    }

    ghost function Contents(): (r: seq<Var>)
      reads this, vars
      ensures |r| == |vars|
    {
      seq(|vars|, i requires 0 <= i < |vars| reads this, vars => Var(vars[i].entry, vars[i].value))
    }

    constructor ()
      ensures Valid() && vars == []
    {
      vars, cache, next := [], seq(CACHE_SIZE, _ => null), 0;
    }

    lemma CachedIsFirst(v: Cvar, name: Text)
      requires Valid() && v in vars && SameName(name, v.entry.name)
      ensures var k := Find(Contents(), name); k < |vars| && vars[k] == v
    {
      var i :| 0 <= i < |vars| && vars[i] == v;
      var k := Find(Contents(), name);
      assert Contents()[i].entry == v.entry;
      assert k < i ==> SameName(vars[k].entry.name, vars[i].entry.name);
    }

    /** The lookup through the cache finds what the scan of the list finds. */
    method FindVar(name: Text) returns (v: Cvar?)
      requires Valid()
      modifies `cache, `next
      ensures Valid() && Contents() == old(Contents())
      ensures var k := Find(Contents(), name); v == if k < |vars| then vars[k] else null
    {
      v := null;
      var i := 0;
      while i < CACHE_SIZE
        invariant 0 <= i <= CACHE_SIZE && v == null
      {
        var c := cache[i];
        if c != null && SameName(name, c.entry.name) {
          v := c;
          CachedIsFirst(c, name);
          break;
        }
        i := i + 1;
      }
      if v == null { v := Scan(name); }
      if v != null { Remember(v); }
    }

    method Scan(name: Text) returns (v: Cvar?)
      requires Valid()
      ensures var k := Find(Contents(), name); v == if k < |vars| then vars[k] else null
    {
      var i := 0;
      while i < |vars|
        invariant 0 <= i <= |vars|
        invariant forall j :: 0 <= j < i ==> !SameName(name, vars[j].entry.name)
      {
        if SameName(name, vars[i].entry.name) {
          CachedIsFirst(vars[i], name);
          return vars[i];
        }
        i := i + 1;
      }
      assert forall j :: 0 <= j < |vars| ==> Contents()[j].entry == vars[j].entry;
      return null;
    }

    method Remember(v: Cvar)
      requires Valid() && v in vars
      modifies `cache, `next
      ensures Valid()
    {
      cache := cache[next := v];
      next := next + 1;
      if next == CACHE_SIZE { next := 0; }
    }

    /** Give a variable a value, unless it is unknown, protected, or its callback refuses. */
    method Set(v: Cvar, value: Text, started: bool)
      requires Valid()
      modifies `cache, `next, v`value
      ensures Valid()
      ensures v.value == if Find(old(Contents()), v.entry.name) < |vars| && Settable(v.entry, started, value)
        then value else old(v.value)
    {
      var found := FindVar(v.entry.name);
      if found == null { return; }
      if v.entry.rom { return; }
      if v.entry.init && started { return; }
      if v.entry.rejects(value) { return; }
      v.value := value;
    }

    /** A command line whose first word may be a variable: inspect or set it. */
    method Command(args: seq<Text>, started: bool) returns (found: bool)
      requires Valid() && args != []
      modifies `cache, `next, vars
      ensures Valid() && vars == old(vars)
      ensures found <==> Find(old(Contents()), args[0]) < |vars|
      ensures Contents() == Assign(old(Contents()), started, args)
    {
      var v := FindVar(args[0]);
      if v == null { return false; }
      found := true;
      ghost var k := Find(Contents(), args[0]);
      if |args| > 1 {
        FindDistinct(Contents(), k);
        assert Contents()[k].entry == v.entry;
        Set(v, args[1], started);
        assert forall i :: 0 <= i < |vars| && i != k ==> vars[i] != v by {
          SameNameRefl(v.entry.name);
        }
      }
    }

    lemma NamesDistinct()
      requires Valid()
      ensures DistinctNames(Contents())
    {
      hide SameName;
    }

    /** Execute lines that are about variables; lines of other commands are passed over. */
    method ExecuteText(text: Text, reserved: Text -> bool, started: bool) returns (ghost n: nat)
      requires Valid()
      modifies this, vars
      ensures Valid() && vars == old(vars)
      ensures var t := Steps(Run(Quiet(reserved, started)), n, State(old(Contents()), text, []));
        t.text == [] && Contents() == t.env
    {
      hide First, Rest, LineEnd, Run, Find, Assign, SameName, Arguments, Step;
      ghost var run, s, trace := Run(Quiet(reserved, started)), State(Contents(), text, []), [];
      var left := text;
      n := 0;
      while left != []
        invariant Valid() && vars == old(vars)
        invariant Steps(run, n, s) == State(Contents(), left, trace)
        decreases |left|
      {
        ghost var before := left;
        QuietStep(reserved, started, Contents(), left, trace);
        var line;
        line, left := CutLine(left);
        var args := TokenizeString(line);
        if args != [] && !reserved(args[0]) {
          var _ := Command(args, started);
        }
        n, trace := n + 1, trace + [First(before)];
      }
    }

    /** Add a variable in front of the list unless its name is taken. */
    method Register(v: Cvar, reserved: Text -> bool) returns (done: bool)
      requires Valid()
      modifies this
      ensures Valid()
      ensures done <==> Find(old(Contents()), v.entry.name) == |old(vars)| && !reserved(v.entry.name)
      ensures vars == if done then [v] + old(vars) else old(vars)
    {
      var other := FindVar(v.entry.name);
      if other != null || reserved(v.entry.name) { return false; }
      assert forall i :: 0 <= i < |vars| ==> Contents()[i].entry == vars[i].entry;
      vars := [v] + vars;
      return true;
    }

    /** Print the variables to be saved. */
    method WriteVariables(savevars: real) returns (text: Text)
      ensures text == ConfigText(Contents(), savevars, 0)
    {
      text := [];
      var i := 0;
      while i < |vars|
        invariant 0 <= i <= |vars|
        invariant text + ConfigText(Contents(), savevars, i) == ConfigText(Contents(), savevars, 0)
      {
        hide LineFor;
        var v := Var(vars[i].entry, vars[i].value);
        ghost var before := text;
        ConfigTextFrom(Contents(), savevars, i, []);
        text := text + LineFor(v, savevars);
        AppendLine(before, LineFor(v, savevars), ConfigText(Contents(), savevars, i + 1),
          ConfigText(Contents(), savevars, i));
        i := i + 1;
      }
    }
  }

  /** The shell when nothing but variables acts on a line. */
  function Quiet(reserved: Text -> bool, started: bool): Shell {
    Shell(reserved, (vars, args) => Effect(vars, [], [], false), started)
  }

  lemma QuietStep(reserved: Text -> bool, started: bool, vars: seq<Var>, text: Text, trace: seq<Text>)
    requires text != []
    ensures var args := Arguments(First(text));
      var vars' := if args == [] || reserved(args[0]) then vars else Assign(vars, started, args);
      Step(Run(Quiet(reserved, started)), State(vars, text, trace)) == State(vars', Rest(text), trace + [First(text)])
  {
    hide First, Rest, Arguments;
    var e := RunLine(Quiet(reserved, started), vars, First(text));
    assert e.inserted == [];
    assert Kept(e.inserted) + Rest(text) == Rest(text);
  }

  lemma AssignKeepsVars(saved: seq<Var>, vars: seq<Var>, started: bool, args: seq<Text>)
    requires args != [] && SameVars(saved, vars)
    ensures SameVars(saved, Assign(vars, started, args))
  {
  }

  /**
   Save the variables, let any commands change them, and execute what was saved: in the registry, with
   its cached lookups, every variable that was written and can be set has its old value again, and
   no other variable is changed by it.
   */
  method SaveAndRestore(reg: Registry, edits: seq<seq<Text>>, savevars: real, reserved: Text -> bool, started: bool)
      returns (ghost edited: seq<Var>)
    requires reg.Valid() && AllReadable(reg.Contents(), savevars, reserved)
    requires forall e :: 0 <= e < |edits| ==> edits[e] != []
    modifies reg, reg.vars
    ensures reg.Valid() && |reg.Contents()| == |edited| == |old(reg.Contents())|
    ensures forall i :: 0 <= i < |edited| ==>
      reg.Contents()[i] == Choice(old(reg.Contents())[i], edited[i], savevars, started)
  {
    hide Steps, Run, Choice, ConfigText, ConfigLines, Assign, Find, SameName, AllReadable;
    ghost var saved := reg.Contents();
    var text := reg.WriteVariables(savevars);
    var e := 0;
    while e < |edits|
      invariant 0 <= e <= |edits| && reg.Valid() && reg.vars == old(reg.vars) && SameVars(saved, reg.Contents())
    {
      AssignKeepsVars(saved, reg.Contents(), started, edits[e]);
      var _ := reg.Command(edits[e], started);
      e := e + 1;
    }
    edited := reg.Contents();
    reg.NamesDistinct();
    SameDistinct(edited, saved);
    ghost var n := reg.ExecuteText(text, reserved, started);
    RestoresAnyRun(Quiet(reserved, started), saved, edited, savevars, n);
  }

  lemma SameDistinct(a: seq<Var>, b: seq<Var>)
    requires DistinctNames(a) && SameVars(b, a)
    ensures DistinctNames(b)
  {
    hide SameName;
  }

  lemma RestoresAnyRun(sh: Shell, saved: seq<Var>, now: seq<Var>, savevars: real, n: nat)
    requires DistinctNames(saved) && SameVars(saved, now) && AllReadable(saved, savevars, sh.reserved)
    requires Steps(Run(sh), n, State(now, ConfigText(saved, savevars, 0), [])).text == []
    ensures var t := Steps(Run(sh), n, State(now, ConfigText(saved, savevars, 0), [])).env;
      |t| == |saved| && forall i :: 0 <= i < |saved| ==> t[i] == Choice(saved[i], now[i], savevars, sh.started)
  {
    hide Steps, Run, Choice, ConfigText, AllReadable;
    var s, m := State(now, ConfigText(saved, savevars, 0), []), ConfigLines(saved, savevars, 0);
    ConfigEnds(sh, saved, s, savevars);
    EmptyStays(Run(sh), if m < n then m else n, if m < n then n else m, s);
  }

  /** Execute a saved configuration that is alone in the buffer. */
  method LoadConfig(buffer: CommandBuffer<seq<Var>>, ghost sh: Shell, ghost saved: seq<Var>,
        ghost savevars: real, limit: nat)
      returns (stop: Stop)
    requires buffer.run == Run(sh) && buffer.text == ConfigText(saved, savevars, 0)
    requires DistinctNames(saved) && SameVars(saved, buffer.env) && AllReadable(saved, savevars, sh.reserved)
    requires |buffer.text| <= BUFFER_SIZE && ShortLines(saved, savevars) && limit >= ConfigLines(saved, savevars, 0)
    modifies buffer
    ensures stop == Done && buffer.text == [] && |buffer.env| == |saved|
    ensures forall i :: 0 <= i < |saved| ==> buffer.env[i] == Choice(saved[i], old(buffer.env)[i], savevars, sh.started)
  {
    hide Steps, Run, Smooth, LineWaits, Overflows, LineEnd, Choice, ConfigText, ConfigLines, DistinctNames;
    hide AllReadable, ShortLines;
    ghost var s, m := buffer.Now(), ConfigLines(saved, savevars, 0);
    ghost var n;
    stop, n := buffer.Execute(limit);
    ConfigEnds(sh, saved, s, savevars);
    forall i: nat | i < m ensures Smooth(Run(sh), Steps(Run(sh), i, s)) {
      ConfigSmooth(sh, saved, s, savevars, i);
    }
    SmoothRunsToEnd(Run(sh), s, m, n, stop);
  }

  lemma {:induction false} FewLines(vars: seq<Var>, savevars: real, i: nat)
    requires i <= |vars|
    ensures ConfigLines(vars, savevars, i) <= |vars| - i
    decreases |vars| - i
  {
    if i < |vars| { FewLines(vars, savevars, i + 1); }
  }

  /**
   Save the variables and load the file into a command buffer of its own, over any other values: every
   variable that was written and can be set has its saved value.  A file that does not fit the buffer
   is not loaded at all.
   */
  method SaveAndLoad(reg: Registry, now: seq<Var>, savevars: real, sh: Shell)
      returns (fits: bool, restored: seq<Var>)
    requires reg.Valid() && SameVars(reg.Contents(), now) && AllReadable(reg.Contents(), savevars, sh.reserved)
    requires ShortLines(reg.Contents(), savevars)
    ensures fits <==> |ConfigText(reg.Contents(), savevars, 0)| < BUFFER_SIZE
    ensures |restored| == |now| && forall i :: 0 <= i < |now| ==>
      restored[i] == if fits then Choice(reg.Contents()[i], now[i], savevars, sh.started) else now[i]
  {
    hide Run, Choice, ConfigText, ConfigLines, AllReadable, ShortLines, SameName;
    ghost var saved := reg.Contents();
    var text := reg.WriteVariables(savevars);
    var buffer := new CommandBuffer<seq<Var>>(Run(sh), now);
    fits := buffer.AddText(text);
    if !fits { return false, now; }
    reg.NamesDistinct();
    FewLines(saved, savevars, 0);
    assert [] + text == text;
    var stop := LoadConfig(buffer, sh, saved, savevars, |reg.vars|);
    assert stop == Done;
    restored := buffer.env;
  }

  /** A run of m smooth lines that leaves nothing can only stop because it is done. */
  lemma SmoothRunsToEnd<Env>(run: (Env, Text) -> Effect<Env>, s: State<Env>, m: nat, n: nat, stop: Stop)
    requires (forall i: nat :: i < m ==> Smooth(run, Steps(run, i, s))) && Steps(run, m, s).text == []
    requires stop == Done ==> Steps(run, n, s).text == []
    requires stop == Unfinished ==> n >= m && Steps(run, n, s).text != []
    requires stop == LineTooLong ==>
      Steps(run, n, s).text != [] && LineEnd(Steps(run, n, s).text, 0, false) >= LINE_SIZE
    requires stop == BufferFull ==> Overflows(run, Steps(run, n, s))
    requires stop == Waiting ==> n > 0 && LineWaits(run, Steps(run, n - 1, s))
    ensures stop == Done && Steps(run, n, s) == Steps(run, m, s)
  {
    hide Steps, LineEnd;
    var k := if stop == Waiting then n - 1 else n;
    assert k < m ==> Smooth(run, Steps(run, k, s));
    assert k >= m;
    EmptyStays(run, m, k, s);
    assert stop == Done;
  }

  lemma ConfigEnds(sh: Shell, saved: seq<Var>, s: State<seq<Var>>, savevars: real)
    requires s.text == ConfigText(saved, savevars, 0)
    requires DistinctNames(saved) && SameVars(saved, s.env) && AllReadable(saved, savevars, sh.reserved)
    ensures var t := Steps(Run(sh), ConfigLines(saved, savevars, 0), s);
      && t.text == [] && |t.env| == |saved|
      && forall i :: 0 <= i < |saved| ==> t.env[i] == Choice(saved[i], s.env[i], savevars, sh.started)
  {
    hide Steps, Run, Choice, ConfigText;
    assert s.text == s.text + [];
    ConfigRoundTrip(sh, saved, s.env, savevars, [], s.trace);
  }

  lemma ConfigSmooth(sh: Shell, saved: seq<Var>, s: State<seq<Var>>, savevars: real, i: nat)
    requires s.text == ConfigText(saved, savevars, 0) && |s.text| <= BUFFER_SIZE && ShortLines(saved, savevars)
    requires DistinctNames(saved) && SameVars(saved, s.env) && AllReadable(saved, savevars, sh.reserved)
    requires i < ConfigLines(saved, savevars, 0)
    ensures Smooth(Run(sh), Steps(Run(sh), i, s))
  {
    hide Steps, Run, Smooth, ConfigText;
    ConfigRunsSmoothly(sh, saved, s.env, savevars, 0, s.trace, i);
    assert Restored(saved, s.env, savevars, sh.started, 0) == s.env;
  }
}
