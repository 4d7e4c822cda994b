/** Writing the archived variables as text and executing that text (ElDorito/Source/CommandMap.cpp:357-386). */
module ConfigFile {
  import opened Integers
  import opened Text
  import opened Numbers
  import opened Tokenizer
  import opened CommandMap

  predicate Saved(c: Command) {
    !c.kind.PlainCommand? && Archived in c.flags && Internal !in c.flags
  }

  /** One line of the file. `eol` is what the stream makes of `std::endl`: a newline, or carriage return and
      newline once the text has gone through a text-mode file and is read back in binary mode. */
  function SaveLine(c: Command, eol: string): string {
    c.name + " \"" + c.valueString + "\"" + eol
  }

  function SaveVariables(commands: seq<Command>, eol: string): string {
    if commands == [] then ""
    else (if Saved(commands[0]) then SaveLine(commands[0], eol) else "") + SaveVariables(commands[1..], eol)
  }

  /** Running the lines of a text. */
  function ExecuteText(reg: Registry, text: string, isUserInput: bool, w: World): Registry {
    ExecuteAll(reg, Lines(text), isUserInput, w)
  }

  /** The lines that fail, numbered from `first`. */
  function ErrorReport(reg: Registry, lines: seq<string>, first: nat, isUserInput: bool, w: World): string
    decreases |lines|
  {
    if lines == [] then ""
    else
      var r := Execute(reg, lines[0], isUserInput, w);
      (if r.ok then "" else "Error at line " + ToString(first) + "\n") +
      ErrorReport(r.registry, lines[1..], first + 1, isUserInput, w)
  }

  /** A report goes on with a line for the next line of the text exactly if that line, run after all before it, fails. */
  lemma {:induction false} ReportGoesOn(reg: Registry, lines: seq<string>, next: string, first: nat, isUserInput: bool, w: World)
    ensures ErrorReport(reg, [], first, isUserInput, w) == ""
    ensures ErrorReport(reg, lines + [next], first, isUserInput, w) ==
            ErrorReport(reg, lines, first, isUserInput, w) +
            if Execute(ExecuteAll(reg, lines, isUserInput, w), next, isUserInput, w).ok then ""
            else "Error at line " + ToString(first + |lines|) + "\n"
    decreases |lines|
  {
    hide Execute, ToString;
    var all := lines + [next];
    if lines == [] {
      assert all[1..] == [] && all[0] == next;
      var one := if Execute(reg, next, isUserInput, w).ok then "" else "Error at line " + ToString(first) + "\n";
      assert one + "" == one && "" + one == one;
    } else {
      var r := Execute(reg, lines[0], isUserInput, w);
      assert all[0] == lines[0] && all[1..] == lines[1..] + [next];
      ReportGoesOn(r.registry, lines[1..], next, first + 1, isUserInput, w);
      Reassociate(if r.ok then "" else "Error at line " + ToString(first) + "\n",
                  ErrorReport(r.registry, lines[1..], first + 1, isUserInput, w),
                  if Execute(ExecuteAll(reg, lines, isUserInput, w), next, isUserInput, w).ok then ""
                  else "Error at line " + ToString(first + |lines|) + "\n");
    }
  }

  predicate LineEnd(eol: string) {
    eol == "\n" || eol == "\r\n"
  }

  predicate GoodValue(value: string) {
    QUOTE !in value && NEWLINE !in value && NUL !in value
  }

  predicate GoodName(name: string) {
    name != "" && Plain(name)
  }

  /** The value that loading leaves in variable `d` when `c` is the one that was saved. */
  function Loaded(c: Command, d: Command, w: World): Command {
    if Saved(c) then SetVariable(d, c.valueString, w).command else d
  }

  /** Nothing outside the registry stops the variable from being set to the value of `c`. */
  ghost predicate Accepts(w: World, c: Command) {
    && (RunOnMainMenu in c.flags ==> w.menuShown)
    && (Cheat in c.flags || HostOnly in c.flags ==> !w.clientOfSession)
    && (forall commands: seq<Command> :: w.update(c.name, [c.valueString], commands).0)
  }

  /** A saved line reads back as the name and the value. */
  lemma SavedLineSplits(c: Command, cr: string)
    requires GoodName(c.name) && GoodValue(c.valueString) && (cr == "" || cr == "\r")
    ensures Split(CStr(c.name + " \"" + c.valueString + "\"" + cr)) == [c.name, c.valueString]
  {
    var quoted := "\"" + c.valueString + "\"" + cr;
    var line := c.name + " \"" + c.valueString + "\"" + cr;
    assert line == c.name + " " + quoted;
    forall k | 0 <= k < |line| ensures line[k] != NUL {
      if k < |c.name| {
        assert line[k] == c.name[k] && c.name[k] in c.name;
      } else if |c.name| + 2 <= k < |c.name| + 2 + |c.valueString| {
        assert line[k] == c.valueString[k - |c.name| - 2];
      }
    }
    SplitPlain(c.name, quoted);
    SplitQuoted(c.valueString, cr);
    assert Split(cr) == [] by {
      if cr != "" { assert cr[1..] == ""; }
    }
  }

  /** Executing the line of one saved variable sets that variable and nothing else. */
  lemma SavedLineExecutes(reg: Registry, i: nat, c: Command, cr: string, isUserInput: bool, w: World)
    requires UniqueNames(reg.commands) && i < |reg.commands| && SameButValue(c, reg.commands[i])
    requires Saved(c) && GoodName(c.name) && GoodValue(c.valueString) && (cr == "" || cr == "\r")
    requires Accepts(w, c)
    ensures Execute(reg, c.name + " \"" + c.valueString + "\"" + cr, isUserInput, w).registry
            == reg.(commands := reg.commands[i := Loaded(c, reg.commands[i], w)])
  {
    var line := c.name + " \"" + c.valueString + "\"" + cr;
    SavedLineSplits(c, cr);
    FindsByName(reg.commands, i, c.name);
    assert Execute(reg, line, isUserInput, w) == Assign(reg, i, [c.valueString], w) by {
      hide Split, CStr, FindIndex, Assign, UniqueNames, SaveLine;
      assert [c.name, c.valueString][1..] == [c.valueString];
    }
    AssignAccepted(reg, i, c, w);
  }

  lemma AssignAccepted(reg: Registry, i: nat, c: Command, w: World)
    requires i < |reg.commands| && SameButValue(c, reg.commands[i]) && Saved(c) && Accepts(w, c)
    ensures Assign(reg, i, [c.valueString], w).registry
            == reg.(commands := reg.commands[i := Loaded(c, reg.commands[i], w)])
  {
    var d := reg.commands[i];
    var a := SetVariable(d, c.valueString, w);
    assert a.result != Success ==> a.command == d;
    hide SetVariable;
    assert reg.commands[i := d] == reg.commands;
    assert w.update(c.name, [c.valueString], reg.commands[i := a.command]).0;
  }

  /** Loading variable by variable: the first `|done|` commands are already loaded. */
  ghost function AllLoaded(saved: seq<Command>, old_: seq<Command>, w: World): seq<Command>
    requires |saved| == |old_|
  {
    seq(|saved|, i requires 0 <= i < |saved| => Loaded(saved[i], old_[i], w))
  }

  lemma SaveLineIsOneLine(c: Command, eol: string, rest: string)
    requires GoodName(c.name) && GoodValue(c.valueString) && LineEnd(eol)
    ensures var cr := if eol == "\n" then "" else "\r";
            Lines(SaveLine(c, eol) + rest) == [c.name + " \"" + c.valueString + "\"" + cr] + Lines(rest)
  {
    var cr := if eol == "\n" then "" else "\r";
    var line := c.name + " \"" + c.valueString + "\"" + cr;
    forall k | 0 <= k < |line| ensures line[k] != NEWLINE {
      if k < |c.name| {
        assert line[k] == c.name[k] && c.name[k] in c.name;
      } else if |c.name| + 2 <= k < |c.name| + 2 + |c.valueString| {
        assert line[k] == c.valueString[k - |c.name| - 2];
      }
    }
    assert SaveLine(c, eol) == line + "\n";
    assert SaveLine(c, eol) + rest == line + "\n" + rest;
    FirstLine(line, rest);
  }

  lemma {:induction false} LoadFrom(saved: seq<Command>, reg: Registry, n: nat, eol: string, isUserInput: bool, w: World)
    requires n <= |saved| && SameShape(saved, reg.commands) && UniqueNames(reg.commands) && LineEnd(eol)
    requires forall c <- saved :: Saved(c) ==> GoodName(c.name) && GoodValue(c.valueString)
    requires forall c <- saved :: Saved(c) ==> Accepts(w, c)
    ensures ExecuteText(reg, SaveVariables(saved[n..], eol), isUserInput, w)
            == reg.(commands := reg.commands[..n] + AllLoaded(saved, reg.commands, w)[n..])
    decreases |saved| - n
  {
    if n == |saved| {
      assert reg.commands[..n] + AllLoaded(saved, reg.commands, w)[n..] == reg.commands;
    } else {
      hide SetVariable, AllLoaded, ExecuteText, SaveVariables, SaveLine, UniqueNames, Accepts, GoodName, GoodValue, LineEnd;
      hide Loaded;
      var c := saved[n];
      assert c in saved && SameButValue(c, reg.commands[n]);
      var next := reg.(commands := reg.commands[n := Loaded(c, reg.commands[n], w)]);
      NextShape(saved, reg.commands, n, w);
      NextSaved(saved, n, eol);
      LoadFrom(saved, next, n + 1, eol, isUserInput, w);
      LoadStep(reg, n, c, SaveVariables(saved[n + 1..], eol), eol, isUserInput, w);
      NextLoaded(saved, reg.commands, n, w);
    }
  }

  /** Loading one saved value changes neither the shape nor the names. */
  lemma NextShape(saved: seq<Command>, commands: seq<Command>, n: nat, w: World)
    requires SameShape(saved, commands) && UniqueNames(commands) && n < |saved|
    ensures var next := commands[n := Loaded(saved[n], commands[n], w)]; SameShape(saved, next) && UniqueNames(next)
  {
    assert SameButValue(saved[n], commands[n]);
    SetVariableShape(commands[n], saved[n].valueString, w);
    hide SetVariable, UniqueNames;
    SameShapeKeepsNames(commands, commands[n := Loaded(saved[n], commands[n], w)]);
  }

  lemma NextSaved(saved: seq<Command>, n: nat, eol: string)
    requires n < |saved|
    ensures SaveVariables(saved[n..], eol) ==
            (if Saved(saved[n]) then SaveLine(saved[n], eol) else "") + SaveVariables(saved[n + 1..], eol)
  {
    hide SaveLine;
    assert saved[n..][0] == saved[n] && saved[n..][1..] == saved[n + 1..];
  }

  lemma NextLoaded(saved: seq<Command>, old_: seq<Command>, n: nat, w: World)
    requires |saved| == |old_| && n < |saved|
    ensures var next := old_[n := Loaded(saved[n], old_[n], w)];
            next[..n + 1] + AllLoaded(saved, next, w)[n + 1..] == old_[..n] + AllLoaded(saved, old_, w)[n..]
  {
    hide Loaded;
    var next := old_[n := Loaded(saved[n], old_[n], w)];
    assert AllLoaded(saved, next, w)[n + 1..] == AllLoaded(saved, old_, w)[n..][1..];
    assert next[..n + 1] == old_[..n] + [AllLoaded(saved, old_, w)[n..][0]];
  }

  lemma LoadStep(reg: Registry, n: nat, c: Command, rest: string, eol: string, isUserInput: bool, w: World)
    requires n < |reg.commands| && SameButValue(c, reg.commands[n]) && UniqueNames(reg.commands) && LineEnd(eol)
    requires Saved(c) ==> GoodName(c.name) && GoodValue(c.valueString) && Accepts(w, c)
    ensures ExecuteText(reg, (if Saved(c) then SaveLine(c, eol) else "") + rest, isUserInput, w)
            == ExecuteText(reg.(commands := reg.commands[n := Loaded(c, reg.commands[n], w)]), rest, isUserInput, w)
  {
    if Saved(c) {
      SaveLineIsOneLine(c, eol, rest);
      SavedLineExecutes(reg, n, c, if eol == "\n" then "" else "\r", isUserInput, w);
    } else {
      assert "" + rest == rest;
      assert reg.commands[n := reg.commands[n]] == reg.commands;
    }
  }

  lemma SetVariableShape(c: Command, value: string, w: World)
    ensures SameButValue(c, SetVariable(c, value, w).command)
  {
  }

  /** Executing what SaveVariables wrote sets every archived, non-internal variable of a registry of the same
      shape to the saved value and leaves everything else as it was, however the two differed before. */
  lemma SaveThenLoad(saved: seq<Command>, reg: Registry, eol: string, isUserInput: bool, w: World)
    requires SameShape(saved, reg.commands) && UniqueNames(reg.commands) && LineEnd(eol)
    requires forall c <- saved :: Consistent(c)
    requires forall c <- saved :: Saved(c) ==> GoodName(c.name) && GoodValue(c.valueString)
    requires forall c <- saved :: Saved(c) ==> Accepts(w, c)
    ensures var after := ExecuteText(reg, SaveVariables(saved, eol), isUserInput, w);
            && after.queued == reg.queued && |after.commands| == |saved|
            && forall i :: 0 <= i < |saved| ==> RestoredFrom(saved[i], reg.commands[i], after.commands[i])
  {
    hide Accepts, GoodName, GoodValue, SameButValue, UniqueNames, LineEnd, ExecuteText, SaveVariables;
    LoadFrom(saved, reg, 0, eol, isUserInput, w);
    assert saved[0..] == saved;
    hide Loaded, RestoredFrom, Consistent;
    forall i | 0 <= i < |saved| ensures RestoredFrom(saved[i], reg.commands[i], Loaded(saved[i], reg.commands[i], w)) {
      assert saved[i] in saved;
      LoadedIsRestored(saved[i], reg.commands[i], w);
    }
  }

  lemma LoadedIsRestored(c: Command, before: Command, w: World)
    requires SameButValue(c, before) && Consistent(c)
    ensures RestoredFrom(c, before, Loaded(c, before, w))
  {
    ParsePrinted(c.valueInt, TWO_32);
    ParsePrinted(c.valueInt64, TWO_64);
    hide ParseUnsigned, ToString;
  }

  /** `after` is `before` with the value of `c` if `c` is an archived variable that is not internal, and else `before`;
      nothing is said of the value of a Float variable. */
  predicate RestoredFrom(c: Command, before: Command, after: Command) {
    if Archived !in c.flags || Internal in c.flags then after == before
    else match c.kind
      case IntVariable => after == before.(valueInt := c.valueInt, valueString := c.valueString)
      case Int64Variable => after == before.(valueInt64 := c.valueInt64, valueString := c.valueString)
      case StringVariable => after == before.(valueString := c.valueString)
      case FloatVariable => SameButValue(before, after)
      case PlainCommand => after == before
  }

  // ----- From one session to the next -----

  /** The registrations among some operations. */
  function Registrations(operations: seq<Operation>): seq<Command>
    decreases |operations|
  {
    if operations == [] then []
    else (match operations[0] case AddCommand(c) => [c] case ExecuteLine(_, _, _) => []) + Registrations(operations[1..])
  }

  function AddAll(reg: Registry, commands: seq<Command>): Registry
    decreases |commands|
  {
    if commands == [] then reg else AddAll(Add(reg, commands[0]), commands[1..])
  }

  /** Whether a command is added depends on names alone. */
  lemma AddKeepsShape(a: Registry, b: Registry, c: Command)
    requires SameShape(a.commands, b.commands)
    ensures SameShape(Add(a, c).commands, Add(b, c).commands)
  {
    SameFound(a.commands, b.commands, c.name);
    SameFound(a.commands, b.commands, c.shortName);
    hide FindIndex;
  }

  lemma {:induction false} SameFound(a: seq<Command>, b: seq<Command>, name: string)
    requires SameShape(a, b)
    ensures FindIndex(a, name).Some? <==> FindIndex(b, name).Some?
  {
    forall i | 0 <= i < |a| ensures Matches(a[i], name) <==> Matches(b[i], name) {
      assert SameButValue(a[i], b[i]);
    }
    if FindIndex(a, name).None? {
      assert forall i :: 0 <= i < |a| ==> a[i] in a;
    }
    if FindIndex(b, name).None? {
      assert forall i :: 0 <= i < |b| ==> b[i] in b;
    }
    hide Matches;
  }

  lemma SameShapeTwice(a: seq<Command>, b: seq<Command>, c: seq<Command>)
    requires SameShape(a, b)
    ensures SameShape(b, c) <==> SameShape(a, c)
    ensures SameShape(b, a)
  {
    forall i | 0 <= i < |a| ensures SameButValue(b[i], a[i]) && (i < |c| ==> (SameButValue(b[i], c[i]) <==> SameButValue(a[i], c[i]))) {
      assert SameButValue(a[i], b[i]);
    }
    hide SameButValue;
  }

  /** Executed lines do not change what registrations make of a registry, up to values. */
  lemma {:induction false} RunShape(a: Registry, b: Registry, operations: seq<Operation>)
    requires SameShape(a.commands, b.commands) && UniqueNames(b.commands)
    ensures SameShape(AddAll(a, Registrations(operations)).commands, Run(b, operations).commands)
    decreases |operations|
  {
    if operations != [] {
      match operations[0] {
        case AddCommand(c) =>
          AddKeepsShape(a, b, c);
          AddKeeps(b, c);
          hide Add, UniqueNames, SameShape;
          RunShape(Add(a, c), Add(b, c), operations[1..]);
          assert ([c] + Registrations(operations[1..]))[1..] == Registrations(operations[1..]);
        case ExecuteLine(line, user, w) =>
          ExecuteKeeps(b, line, user, w);
          SameShapeTwice(b.commands, a.commands, Execute(b, line, user, w).registry.commands) by {
            SameShapeTwice(a.commands, b.commands, a.commands);
          }
          hide Execute, UniqueNames, SameShape;
          RunShape(a, Execute(b, line, user, w).registry, operations[1..]);
          assert [] + Registrations(operations[1..]) == Registrations(operations[1..]);
      }
    }
  }

  /** Two sessions register the same commands in the same order, and do whatever else they do. What the first one saves,
      the second one executes: every archived, non-internal Int, Int64 and String variable has its value of the first
      session again, and everything else is as the second session had it. */
  lemma NextSessionRestores(reg: Registry, first: seq<Operation>, second: seq<Operation>, eol: string, isUserInput: bool, w: World)
    requires WellFormed(reg) && Registrations(first) == Registrations(second) && LineEnd(eol)
    requires forall op <- first :: op.AddCommand? ==> Consistent(op.command)
    requires forall c <- Run(reg, first).commands :: Saved(c) ==> GoodName(c.name) && GoodValue(c.valueString) && Accepts(w, c)
    ensures var saved, before := Run(reg, first).commands, Run(reg, second);
            var after := ExecuteText(before, SaveVariables(saved, eol), isUserInput, w);
            && after.queued == before.queued && |after.commands| == |saved| == |before.commands|
            && forall i :: 0 <= i < |saved| ==> RestoredFrom(saved[i], before.commands[i], after.commands[i])
  {
    assert forall c: Command :: SameButValue(c, c);
    assert SameShape(reg.commands, reg.commands);
    RunShape(reg, reg, first);
    RunShape(reg, reg, second);
    hide Run, AddAll, Registrations, SameButValue, ExecuteText, SaveVariables, GoodName, GoodValue, Accepts, Consistent;
    SameShapeTwice(AddAll(reg, Registrations(first)).commands, Run(reg, first).commands, Run(reg, second).commands);
    ReachableIsWellFormed(reg, first);
    ReachableNamesAndValues(reg, second);
    SaveThenLoad(Run(reg, first).commands, Run(reg, second), eol, isUserInput, w);
    hide RestoredFrom;
  }

  // ----- Values that do not survive -----

  /** A string variable still has its old value, or one that a line of text can carry. */
  ghost predicate OldOrGood(old_: seq<Command>, now: seq<Command>) {
    SameShape(old_, now) &&
    forall i :: 0 <= i < |now| && now[i].kind == StringVariable ==>
      now[i].valueString == old_[i].valueString || GoodValue(now[i].valueString)
  }

  /** Setting a variable leaves a string variable with its old value or with the new one. */
  lemma AssignedString(reg: Registry, i: nat, arguments: seq<string>, w: World)
    requires i < |reg.commands| && arguments != []
    ensures var c, after := reg.commands[i], Assign(reg, i, arguments, w).registry;
            exists d :: after == reg.(commands := reg.commands[i := d]) && SameButValue(c, d) &&
                        (d.kind == StringVariable ==> d.valueString == c.valueString || d.valueString == arguments[0])
  {
    var c := reg.commands[i];
    var a := SetVariable(c, arguments[0], w);
    SetVariableShape(c, arguments[0], w);
    SetVariableShape(a.command, a.previous, w);
    assert reg.(commands := reg.commands[i := c]) == reg;
    assert SameButValue(c, c) && SameButValue(c, SetVariable(a.command, a.previous, w).command);
  }

  lemma ExecuteKeepsOldOrGood(old_: seq<Command>, reg: Registry, line: string, isUserInput: bool, w: World)
    requires OldOrGood(old_, reg.commands) && NEWLINE !in line
    ensures OldOrGood(old_, Execute(reg, line, isUserInput, w).registry.commands)
  {
    var args := Split(CStr(line));
    var after := Execute(reg, line, isUserInput, w).registry;
    ArgumentCharacters(CStr(line));
    hide Split, CStr, Assign, OldOrGood, SetVariable;
    if after.commands != reg.commands {
      var i := FindIndex(reg.commands, args[0]).value;
      assert after == Assign(reg, i, args[1..], w).registry;
      AssignedString(reg, i, args[1..], w);
      var d :| after == reg.(commands := reg.commands[i := d]) && SameButValue(reg.commands[i], d) &&
               (d.kind == StringVariable ==> d.valueString == reg.commands[i].valueString || d.valueString == args[1..][0]);
      assert args[1] in args && GoodValue(args[1]);
      ReplacedIsOldOrGood(old_, reg.commands, i, d);
    }
  }

  lemma ReplacedIsOldOrGood(old_: seq<Command>, now: seq<Command>, i: nat, d: Command)
    requires OldOrGood(old_, now) && i < |now| && SameButValue(now[i], d)
    requires d.kind == StringVariable ==> d.valueString == now[i].valueString || GoodValue(d.valueString)
    ensures OldOrGood(old_, now[i := d])
  {
    assert SameButValue(old_[i], now[i]);
  }

  lemma {:induction false} ExecuteAllKeepsOldOrGood(old_: seq<Command>, reg: Registry, lines: seq<string>,
                                                    isUserInput: bool, w: World)
    requires OldOrGood(old_, reg.commands) && forall line <- lines :: NEWLINE !in line
    ensures OldOrGood(old_, ExecuteAll(reg, lines, isUserInput, w).commands)
    decreases |lines|
  {
    if lines != [] {
      ExecuteKeepsOldOrGood(old_, reg, lines[0], isUserInput, w);
      ExecuteAllKeepsOldOrGood(old_, Execute(reg, lines[0], isUserInput, w).registry, lines[1..], isUserInput, w);
    }
  }

  /** No text at all gives a string variable a value with a quote, newline or NUL that it does not have. So such
      values are saved but not restored: the condition on values in SaveThenLoad cannot be dropped for any of
      them. */
  lemma BadValueIsNotRestored(reg: Registry, text: string, i: nat, value: string, isUserInput: bool, w: World)
    requires i < |reg.commands| && reg.commands[i].kind == StringVariable
    requires reg.commands[i].valueString != value && !GoodValue(value)
    ensures var after := ExecuteText(reg, text, isUserInput, w);
            i < |after.commands| && after.commands[i].valueString != value
  {
    LinesHaveNoNewline(text);
    ExecuteAllKeepsOldOrGood(reg.commands, reg, Lines(text), isUserInput, w);
    var after := ExecuteText(reg, text, isUserInput, w);
    assert SameButValue(reg.commands[i], after.commands[i]);
  }
}
