/** The registry as the object it is in the source: a list of commands that methods change in place
    (ElDorito/Source/CommandMap.cpp:68-85, 97-203, 261-319, 357-386).

    Each method is proved to compute the result and the new registry of its function, which is what the lemmas about
    reachable registries, rollback and saved configurations are stated for. */
module Console {
  import opened Integers
  import opened Text
  import opened Numbers
  import opened Tokenizer
  import opened CommandMap
  import opened ConfigFile

  class Map {
    var commands: seq<Command>
    var queuedCommands: seq<string>

    function State(): Registry
      reads this
    {
      Registry(commands, queuedCommands)
    }

    constructor ()
      ensures State() == Registry([], [])
    {
      commands, queuedCommands := [], [];
    }

    method Find(name: string) returns (r: Option<nat>)
      ensures r == FindIndex(commands, name)
    {
      hide SameIgnoringCase;
      for i := 0 to |commands|
        invariant FindIndex(commands, name) ==
                  match FindIndex(commands[i..], name) case None => None case Some(k) => Some(k + i)
      {
        assert commands[i..][0] == commands[i] && commands[i..][1..] == commands[i + 1..];
        if (commands[i].name != "" && SameIgnoringCase(commands[i].name, name)) ||
           (commands[i].shortName != "" && SameIgnoringCase(commands[i].shortName, name)) {
          return Some(i);
        }
      }
      return None;
    }

    method AddCommand(c: Command) returns (r: Option<nat>)
      modifies this
      ensures State() == Add(old(State()), c)
      ensures r == if commands == old(commands) then None else Some(|commands| - 1)
    {
      var byName := Find(c.name);
      if byName.Some? {
        return None;
      }
      var byShortName := Find(c.shortName);
      if byShortName.Some? {
        return None;
      }
      commands := commands + [c];
      return Some(|commands| - 1);
    }

    /** Sets variable `i` from text; on any refusal it keeps its value. */
    method Set(i: nat, value: string, w: World) returns (result: SetResult, previous: string)
      requires i < |commands|
      modifies this`commands
      ensures |commands| == old(|commands|) && commands == old(commands)[i := commands[i]]
      ensures Assigned(result, commands[i], previous) == SetVariable(old(commands)[i], value, w)
    {
      var c := commands[i];
      previous := "";
      result := Success;
      if Internal in c.flags {
        return Error, previous;
      }
      match c.kind {
        case PlainCommand =>
        case StringVariable =>
          previous := c.valueString;
          commands := commands[i := c.(valueString := value)];
        case IntVariable =>
          previous := ToString(c.valueInt);
          var v := ParseUnsigned(value, TWO_32);
          if v.None? {
            return InvalidArgument, previous;
          }
          if (c.intMin != 0 || c.intMax != 0) && (v.value < c.intMin || v.value > c.intMax) {
            return OutOfRange, previous;
          }
          commands := commands[i := c.(valueInt := v.value, valueString := ToString(v.value))];
        case Int64Variable =>
          previous := ToString(c.valueInt);
          var v := ParseUnsigned(value, TWO_64);
          if v.None? {
            return InvalidArgument, previous;
          }
          if (c.int64Min != 0 || c.int64Max != 0) && (v.value < c.int64Min || v.value > c.int64Max) {
            return OutOfRange, previous;
          }
          commands := commands[i := c.(valueInt64 := v.value, valueString := ToString(v.value))];
        case FloatVariable =>
          previous := w.printFloat(c.valueFloat);
          var v := w.parseFloat(value);
          if v.None? {
            return InvalidArgument, previous;
          }
          if (c.floatMin != 0.0 || c.floatMax != 0.0) && (v.value < c.floatMin || v.value > c.floatMax) {
            return OutOfRange, previous;
          }
          commands := commands[i := c.(valueFloat := v.value, valueString := w.printFloat(v.value))];
      }
    }

    /** The arguments of a line, read through the offsets that the tokenizer hands out. */
    method Arguments(line: string) returns (args: seq<string>)
      ensures args == Split(CStr(line))
    {
      var argv, area, argc := CommandLineToArgvA(line);
      args := [];
      for k := 0 to argc
        invariant args == Split(CStr(line))[..k]
      {
        args := args + [StringAt(area[..], argv[k])];
      }
    }

    method ExecuteCommandWithStatus(line: string, isUserInput: bool, w: World) returns (ok: bool, output: string)
      modifies this
      ensures Outcome(State(), ok, output) == Execute(old(State()), line, isUserInput, w)
    {
      hide Assign, PassedArguments, InvalidInputText, UnknownCommandText, QueuedText, HostOnlyText;
      var args := Arguments(line);
      if |args| <= 0 {
        return false, InvalidInputText();
      }
      var found := Find(args[0]);
      if found.None? || (isUserInput && Internal in commands[found.value].flags) {
        return false, UnknownCommandText();
      }
      var i := found.value;
      var c := commands[i];
      if RunOnMainMenu in c.flags && !w.menuShown {
        queuedCommands := queuedCommands + [line];
        return true, QueuedText();
      }
      if (Cheat in c.flags || HostOnly in c.flags) && w.clientOfSession {
        return false, HostOnlyText();
      }
      if c.kind.PlainCommand? {
        var (accepted, text) := w.update(c.name, PassedArguments(c, line, args), commands);
        return accepted, text;
      }
      if |args| <= 1 {
        return true, c.valueString;
      }
      ok, output := AssignVariable(i, args[1..], w);
    }

    /** The second half of executing a line: set, let the update event decide, set back if it refuses. */
    method AssignVariable(i: nat, arguments: seq<string>, w: World) returns (ok: bool, output: string)
      requires i < |commands| && arguments != []
      modifies this`commands
      ensures Outcome(State(), ok, output) == Assign(old(State()), i, arguments, w)
    {
      var c := commands[i];
      ghost var before := commands;
      assert before[i := c] == before;
      var result, previous := Set(i, arguments[0], w);
      match result {
        case Error => return false, "Command/variable not found";
        case InvalidArgument => return false, "Invalid value";
        case OutOfRange => return false, RangeText(commands[i], arguments[0], w);
        case Success =>
      }
      if !c.hasUpdateEvent {
        return true, previous + " -> " + commands[i].valueString;
      }
      var (accepted, text) := w.update(c.name, arguments, commands);
      ok, output := accepted, text;
      if !accepted {
        var _, _ := Set(i, previous, w);
      }
      if |output| <= 0 {
        output := previous + " -> " + commands[i].valueString;
      }
    }

    /** Executes a text line by line, and reports the lines that fail. */
    method ExecuteCommands(text: string, isUserInput: bool, w: World) returns (report: string)
      modifies this
      ensures State() == ExecuteText(old(State()), text, isUserInput, w)
      ensures report == ErrorReport(old(State()), Lines(text), 0, isUserInput, w)
    {
      report := "";
      var lines := Lines(text);
      hide Execute;
      for k := 0 to |lines|
        invariant ExecuteAll(State(), lines[k..], isUserInput, w) == ExecuteText(old(State()), text, isUserInput, w)
        invariant report + ErrorReport(State(), lines[k..], k, isUserInput, w)
               == ErrorReport(old(State()), lines, 0, isUserInput, w)
      {
        assert lines[k..][0] == lines[k] && lines[k..][1..] == lines[k + 1..];
        ghost var before := State();
        var ok, _ := ExecuteCommandWithStatus(lines[k], isUserInput, w);
        var failure := if ok then "" else "Error at line " + ToString(k) + "\n";
        Reassociate(report, failure, ErrorReport(State(), lines[k + 1..], k + 1, isUserInput, w));
        report := report + failure;
      }
    }

    /** Executing a list of strings: the line that is built is split again. */
    method ExecuteList(arguments: seq<string>, isUserInput: bool, w: World) returns (output: string)
      modifies this
      ensures exists ok :: Outcome(State(), ok, output) == Execute(old(State()), QuotedJoin(arguments), isUserInput, w)
    {
      var line := JoinQuoted(arguments);
      var ok, text := ExecuteCommandWithStatus(line, isUserInput, w);
      output := text;
    }

    method Save(eol: string) returns (text: string)
      ensures text == SaveVariables(commands, eol)
    {
      text := "";
      hide SaveLine;
      for i := 0 to |commands|
        invariant text + SaveVariables(commands[i..], eol) == SaveVariables(commands, eol)
      {
        var c := commands[i];
        assert commands[i..][0] == c && commands[i..][1..] == commands[i + 1..];
        if !(c.kind.PlainCommand? || Archived !in c.flags || Internal in c.flags) {
          Reassociate(text, SaveLine(c, eol), SaveVariables(commands[i + 1..], eol));
          text := text + SaveLine(c, eol);
        }
      }
    }
  }
}
