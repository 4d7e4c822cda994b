/** The two binding commands in the console's registry (ElDorito/Source/Modules/ModuleInput.cpp:586-587). */
module BindingCommands {
  import opened Text
  import opened Tokenizer
  import opened NameTable
  import opened Bindings
  import C = CommandMap

  /** A plain command without flags, under its name and its short name. */
  predicate IsCommand(c: C.Command, name: string, shortName: string) {
    c.name == name && c.shortName == shortName && c.kind.PlainCommand? && c.flags == {}
  }

  /** Among unique names, a word finds a command exactly if it is the command's name or short name. */
  lemma FoundIffCalled(commands: seq<C.Command>, i: nat, word: string)
    requires C.UniqueNames(commands) && i < |commands| && commands[i].name != "" && commands[i].shortName != ""
    ensures C.FindIndex(commands, word) == Some(i) <==> Calls(word, commands[i].name, commands[i].shortName)
  {
    var c := commands[i];
    hide Lower, CStr;
    assert Calls(word, c.name, c.shortName) <==> C.Matches(c, word);
    forall k | 0 <= k < |commands| && k != i ensures C.Distinguished(c, commands[k]) {
    }
  }

  /** The event of a command is called. */
  function Called(name: string, args: seq<string>, reg: C.Registry, w: C.World): C.Outcome {
    var (ok, text) := w.update(name, args, reg.commands);
    C.Outcome(reg, ok, text)
  }

  /** Executing a line whose first word finds a command without flags. */
  lemma CommandIsCalled(reg: C.Registry, i: nat, line: string, isUserInput: bool, w: C.World)
    requires i < |reg.commands| && reg.commands[i].kind.PlainCommand? && reg.commands[i].flags == {}
    requires var args := Split(CStr(line)); args != [] && C.FindIndex(reg.commands, args[0]) == Some(i)
    ensures C.Execute(reg, line, isUserInput, w) == Called(reg.commands[i].name, Split(CStr(line))[1..], reg, w)
  {
    hide Split, CStr, C.FindIndex, C.Assign;
  }

  /** Where both commands are registered, executing any line through the registry calls the event of one of them, with the
      arguments that binding is modelled with, exactly where the model of a line binds; and it changes no other part of the
      registry. */
  lemma RegistryDispatches(names: Names, t: Table, reg: C.Registry, i: nat, j: nat, line: string, isUserInput: bool, w: C.World)
    requires t.Valid() && C.UniqueNames(reg.commands) && i < |reg.commands| && j < |reg.commands|
    requires IsCommand(reg.commands[i], CONTROLLER_COMMAND, CONTROLLER_SHORT)
    requires IsCommand(reg.commands[j], KEYBOARD_COMMAND, KEYBOARD_SHORT)
    ensures var args := Split(CStr(line));
            var found := if args == [] then None else C.FindIndex(reg.commands, args[0]);
            if found == Some(i) then
              && ExecuteLine(names, t, line) == BindController(names, t, args[1..])
              && C.Execute(reg, line, isUserInput, w) == Called(CONTROLLER_COMMAND, args[1..], reg, w)
            else if found == Some(j) then
              && ExecuteLine(names, t, line) == BindKeyboard(names, t, args[1..])
              && C.Execute(reg, line, isUserInput, w) == Called(KEYBOARD_COMMAND, args[1..], reg, w)
            else ExecuteLine(names, t, line) == t
  {
    var args := Split(CStr(line));
    hide C.Execute, Split, CStr, Calls, BindController, BindKeyboard, C.FindIndex, C.UniqueNames, Called;
    if args != [] {
      FoundIffCalled(reg.commands, i, args[0]);
      FoundIffCalled(reg.commands, j, args[0]);
      if C.FindIndex(reg.commands, args[0]) == Some(i) {
        CommandIsCalled(reg, i, line, isUserInput, w);
      } else if C.FindIndex(reg.commands, args[0]) == Some(j) {
        CommandIsCalled(reg, j, line, isUserInput, w);
      }
    }
  }
}
