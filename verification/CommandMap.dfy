/** The console registry (ElDorito/Source/CommandMap.cpp): lookup, registration, execution with rollback, saving
    variables as text and executing that text. */
module CommandMap {
  import opened Integers
  import opened Text
  import opened Numbers
  import opened Tokenizer

  datatype CommandType = PlainCommand | IntVariable | Int64Variable | FloatVariable | StringVariable

  datatype Flag =
    | Cheat | Replicated | Archived | DontUpdateInitial | Hidden
    | RunOnMainMenu | HostOnly | OmitValueInList | Internal | ArgsNoParse

  datatype Command = Command(
    name: string, shortName: string, flags: set<Flag>, kind: CommandType, hasUpdateEvent: bool,
    valueInt: u32, valueInt64: u64, valueFloat: real, valueString: string,
    intMin: u32, intMax: u32, int64Min: u64, int64Max: u64, floatMin: real, floatMax: real)

  /** What lies outside the registry. `update` stands for every update event: it sees the command's name, the
      arguments and the registry, and answers whether it accepts and what it prints. */
  datatype World = World(
    menuShown: bool,
    clientOfSession: bool, // in an established session that somebody else hosts
    parseFloat: string -> Option<real>,
    printFloat: real -> string,
    update: (string, seq<string>, seq<Command>) -> (bool, string))

  datatype Registry = Registry(commands: seq<Command>, queued: seq<string>)

  // ----- Lookup -----

  predicate Matches(c: Command, name: string) {
    (c.name != "" && SameIgnoringCase(c.name, name)) || (c.shortName != "" && SameIgnoringCase(c.shortName, name))
  }

  /** The first command with a name or short name. */
  function FindIndex(commands: seq<Command>, name: string): (r: Option<nat>)
    ensures r.Some? ==> r.value < |commands| && Matches(commands[r.value], name)
    ensures r.Some? ==> forall k :: 0 <= k < r.value ==> !Matches(commands[k], name)
    ensures r.None? ==> forall c <- commands :: !Matches(c, name)
  {
    if commands == [] then None
    else if Matches(commands[0], name) then Some(0)
    else match FindIndex(commands[1..], name)
      case None => None
      case Some(k) => Some(k + 1)
  }

  // ----- Setting one variable -----

  datatype SetResult = Success | Error | OutOfRange | InvalidArgument

  datatype Assigned = Assigned(result: SetResult, command: Command, previous: string)

  predicate Within(v: int, min: int, max: int) {
    (min != 0 || max != 0) ==> min <= v <= max
  }

  predicate FloatWithin(v: real, min: real, max: real) {
    (min != 0.0 || max != 0.0) ==> min <= v <= max
  }

  /** CommandMap::SetVariable. The previous value of an Int64 variable is taken from `valueInt`, as the source
      does. */
  function SetVariable(c: Command, value: string, w: World): Assigned {
    if Internal in c.flags then Assigned(Error, c, "")
    else match c.kind
      case PlainCommand => Assigned(Success, c, "")
      case StringVariable => Assigned(Success, c.(valueString := value), c.valueString)
      case IntVariable =>
        var previous := ToString(c.valueInt);
        (match ParseUnsigned(value, TWO_32)
         case None => Assigned(InvalidArgument, c, previous)
         case Some(v) =>
           if !Within(v, c.intMin, c.intMax) then Assigned(OutOfRange, c, previous)
           else Assigned(Success, c.(valueInt := v, valueString := ToString(v)), previous))
      case Int64Variable =>
        var previous := ToString(c.valueInt);
        (match ParseUnsigned(value, TWO_64)
         case None => Assigned(InvalidArgument, c, previous)
         case Some(v) =>
           if !Within(v, c.int64Min, c.int64Max) then Assigned(OutOfRange, c, previous)
           else Assigned(Success, c.(valueInt64 := v, valueString := ToString(v)), previous))
      case FloatVariable =>
        var previous := w.printFloat(c.valueFloat);
        (match w.parseFloat(value)
         case None => Assigned(InvalidArgument, c, previous)
         case Some(v) =>
           if !FloatWithin(v, c.floatMin, c.floatMax) then Assigned(OutOfRange, c, previous)
           else Assigned(Success, c.(valueFloat := v, valueString := w.printFloat(v)), previous))
  }

  // ----- Executing one line -----

  datatype Outcome = Outcome(registry: Registry, ok: bool, output: string)

  function RangeText(c: Command, value: string, w: World): string {
    "Value " + value + " out of range [" +
    (match c.kind
     case IntVariable => ToString(c.intMin) + ".." + ToString(c.intMax)
     case Int64Variable => ToString(c.int64Min) + ".." + ToString(c.int64Max)
     case FloatVariable => w.printFloat(c.floatMin) + ".." + w.printFloat(c.floatMax)
     case _ => "this shouldn't be happening!") + "]"
  }

  /** Sets variable `i` and lets its update event refuse, in which case the previous value is set again. */
  function Assign(reg: Registry, i: nat, arguments: seq<string>, w: World): Outcome
    requires i < |reg.commands| && arguments != []
  {
    var c := reg.commands[i];
    var a := SetVariable(c, arguments[0], w);
    match a.result
    case Error => Outcome(reg, false, "Command/variable not found")
    case InvalidArgument => Outcome(reg, false, "Invalid value")
    case OutOfRange => Outcome(reg, false, RangeText(c, arguments[0], w))
    case Success =>
      var set1 := reg.(commands := reg.commands[i := a.command]);
      if !c.hasUpdateEvent then Outcome(set1, true, a.previous + " -> " + a.command.valueString)
      else
        var (accepted, text) := w.update(c.name, arguments, set1.commands);
        var final := if accepted then a.command else SetVariable(a.command, a.previous, w).command;
        Outcome(reg.(commands := reg.commands[i := final]), accepted,
                if text == "" then a.previous + " -> " + final.valueString else text)
  }

  /** What a plain command's update event gets: with exactly the ArgsNoParse flag, the rest of the line. */
  function PassedArguments(c: Command, line: string, args: seq<string>): seq<string>
    requires args != []
  {
    if c.flags != {ArgsNoParse} then args[1..]
    else if |args| < 2 || |args[0]| + 1 > |line| then []
    else [line[|args[0]| + 1..]]
  }

  function InvalidInputText(): string {
    "Invalid input"
  }

  function UnknownCommandText(): string {
    "Command/Variable not found"
  }

  function QueuedText(): string {
    "Command queued until mainmenu shows"
  }

  function HostOnlyText(): string {
    "Only a player hosting a game can use this command"
  }

  /** CommandMap::ExecuteCommandWithStatus. */
  function Execute(reg: Registry, line: string, isUserInput: bool, w: World): Outcome {
    var args := Split(CStr(line));
    if args == [] then Outcome(reg, false, InvalidInputText())
    else match FindIndex(reg.commands, args[0])
      case None => Outcome(reg, false, UnknownCommandText())
      case Some(i) =>
        var c := reg.commands[i];
        if isUserInput && Internal in c.flags then Outcome(reg, false, UnknownCommandText())
        else if RunOnMainMenu in c.flags && !w.menuShown then
          Outcome(reg.(queued := reg.queued + [line]), true, QueuedText())
        else if (Cheat in c.flags || HostOnly in c.flags) && w.clientOfSession then
          Outcome(reg, false, HostOnlyText())
        else if c.kind.PlainCommand? then
          var (ok, text) := w.update(c.name, PassedArguments(c, line, args), reg.commands);
          Outcome(reg, ok, text)
        else if |args| <= 1 then Outcome(reg, true, c.valueString)
        else Assign(reg, i, args[1..], w)
  }

  function ExecuteAll(reg: Registry, lines: seq<string>, isUserInput: bool, w: World): Registry
    decreases |lines|
  {
    if lines == [] then reg
    else ExecuteAll(Execute(reg, lines[0], isUserInput, w).registry, lines[1..], isUserInput, w)
  }

  // ----- Who may execute what -----

  /** The first word of the line is the name or short name of command `i`, in any mixture of cases. */
  ghost predicate Calls(line: string, commands: seq<Command>, i: nat) {
    var args := Split(CStr(line));
    args != [] && i < |commands| &&
    ((commands[i].name != "" && SameIgnoringCase(commands[i].name, args[0])) ||
     (commands[i].shortName != "" && SameIgnoringCase(commands[i].shortName, args[0])))
  }

  /** Among unique names, a word finds a command exactly if it is the command's name or short name. */
  lemma FoundIff(commands: seq<Command>, i: nat, word: string)
    requires UniqueNames(commands) && i < |commands|
    ensures FindIndex(commands, word) == Some(i) <==>
            (commands[i].name != "" && SameIgnoringCase(commands[i].name, word)) ||
            (commands[i].shortName != "" && SameIgnoringCase(commands[i].shortName, word))
  {
    var c := commands[i];
    hide Lower, CStr;
    assert Matches(c, word) ==> c in commands;
    forall k | 0 <= k < |commands| && k != i ensures Distinguished(c, commands[k]) {
    }
  }

  lemma FoundIsCalled(commands: seq<Command>, line: string)
    requires Split(CStr(line)) != [] && FindIndex(commands, Split(CStr(line))[0]).Some?
    ensures Calls(line, commands, FindIndex(commands, Split(CStr(line))[0]).value)
  {
    hide Split, CStr, Lower;
  }

  /** A line without a word, or whose first word names nothing, changes nothing. */
  lemma NothingIsCalled(reg: Registry, line: string, isUserInput: bool, w: World)
    requires forall i: nat :: i < |reg.commands| ==> !Calls(line, reg.commands, i)
    ensures Execute(reg, line, isUserInput, w) ==
            Outcome(reg, false, if Split(CStr(line)) == [] then "Invalid input" else "Command/Variable not found")
  {
    var args := Split(CStr(line));
    if args != [] && FindIndex(reg.commands, args[0]).Some? {
      FoundIsCalled(reg.commands, line);
    }
    hide Split, CStr, FindIndex, Assign, Calls;
  }

  /** To a user, internal commands do not exist. */
  lemma InternalIsHidden(reg: Registry, i: nat, line: string, w: World)
    requires UniqueNames(reg.commands) && Calls(line, reg.commands, i) && Internal in reg.commands[i].flags
    ensures Execute(reg, line, true, w) == Outcome(reg, false, "Command/Variable not found")
  {
    FoundIff(reg.commands, i, Split(CStr(line))[0]);
    hide UniqueNames, Split, CStr, FindIndex, Assign;
  }

  /** The command is there for whoever executes the line. */
  predicate Known(c: Command, isUserInput: bool) {
    !isUserInput || Internal !in c.flags
  }

  /** Before the main menu shows, a command that has to wait for it is queued, and nothing else happens. */
  lemma MenuCommandIsQueued(reg: Registry, i: nat, line: string, isUserInput: bool, w: World)
    requires UniqueNames(reg.commands) && Calls(line, reg.commands, i) && Known(reg.commands[i], isUserInput)
    requires RunOnMainMenu in reg.commands[i].flags && !w.menuShown
    ensures Execute(reg, line, isUserInput, w) ==
            Outcome(Registry(reg.commands, reg.queued + [line]), true, "Command queued until mainmenu shows")
  {
    FoundIff(reg.commands, i, Split(CStr(line))[0]);
    hide UniqueNames, Split, CStr, FindIndex, Assign;
  }

  /** In a session that somebody else hosts, cheats and commands for hosts are refused, whatever their events would say. */
  lemma HostCommandIsRefused(reg: Registry, i: nat, line: string, isUserInput: bool, w: World)
    requires UniqueNames(reg.commands) && Calls(line, reg.commands, i) && Known(reg.commands[i], isUserInput)
    requires RunOnMainMenu in reg.commands[i].flags ==> w.menuShown
    requires (Cheat in reg.commands[i].flags || HostOnly in reg.commands[i].flags) && w.clientOfSession
    ensures Execute(reg, line, isUserInput, w) == Outcome(reg, false, "Only a player hosting a game can use this command")
  {
    FoundIff(reg.commands, i, Split(CStr(line))[0]);
    hide UniqueNames, Split, CStr, FindIndex, Assign;
  }

  /** None of the three guards stands in the way. */
  predicate Unguarded(c: Command, isUserInput: bool, w: World) {
    && (isUserInput ==> Internal !in c.flags)
    && (RunOnMainMenu in c.flags ==> w.menuShown)
    && (Cheat in c.flags || HostOnly in c.flags ==> !w.clientOfSession)
  }

  lemma PlainCommandReached(reg: Registry, i: nat, line: string, isUserInput: bool, w: World)
    requires UniqueNames(reg.commands) && Calls(line, reg.commands, i) && Unguarded(reg.commands[i], isUserInput, w)
    requires reg.commands[i].kind.PlainCommand?
    ensures var (ok, text) := w.update(reg.commands[i].name, PassedArguments(reg.commands[i], line, Split(CStr(line))), reg.commands);
            Execute(reg, line, isUserInput, w) == Outcome(reg, ok, text)
  {
    FoundIff(reg.commands, i, Split(CStr(line))[0]);
    hide UniqueNames, Split, CStr, FindIndex, Assign, PassedArguments;
  }

  lemma VariableReached(reg: Registry, i: nat, line: string, isUserInput: bool, w: World)
    requires UniqueNames(reg.commands) && Calls(line, reg.commands, i) && Unguarded(reg.commands[i], isUserInput, w)
    requires !reg.commands[i].kind.PlainCommand? && |Split(CStr(line))| >= 2
    ensures Execute(reg, line, isUserInput, w) == Assign(reg, i, Split(CStr(line))[1..], w)
  {
    FoundIff(reg.commands, i, Split(CStr(line))[0]);
    hide UniqueNames, Split, CStr, FindIndex, Assign;
  }

  /** Without a guard in the way, a plain command's outcome is its event's; the event gets the arguments, or the rest of the
      line as it stands if not parsing them is the command's only flag. */
  lemma PlainCommandRuns(reg: Registry, i: nat, line: string, isUserInput: bool, w: World)
    requires UniqueNames(reg.commands) && Calls(line, reg.commands, i) && Unguarded(reg.commands[i], isUserInput, w)
    requires reg.commands[i].kind.PlainCommand?
    ensures var args, c := Split(CStr(line)), reg.commands[i];
            && (|args| >= 2 ==> |args[0]| + 1 <= |line|)
            && var (ok, text) := w.update(c.name, if c.flags != {ArgsNoParse} || |args| < 2 then args[1..] else [line[|args[0]| + 1..]],
                                          reg.commands);
               Execute(reg, line, isUserInput, w) == Outcome(reg, ok, text)
  {
    hide UniqueNames, Split, CStr, FindIndex, Assign, Execute;
    var args := Split(CStr(line));
    PlainCommandReached(reg, i, line, isUserInput, w);
    if |args| >= 2 {
      UnparsedRestIsInside(line);
    } else {
      assert args[1..] == [];
    }
    hide Calls;
  }

  /** A variable alone on a line prints its value. */
  lemma VariablePrints(reg: Registry, i: nat, line: string, isUserInput: bool, w: World)
    requires UniqueNames(reg.commands) && Calls(line, reg.commands, i) && Unguarded(reg.commands[i], isUserInput, w)
    requires !reg.commands[i].kind.PlainCommand? && |Split(CStr(line))| == 1
    ensures Execute(reg, line, isUserInput, w) == Outcome(reg, true, reg.commands[i].valueString)
  {
    FoundIff(reg.commands, i, Split(CStr(line))[0]);
    hide UniqueNames, Split, CStr, FindIndex, Assign;
  }

  /** The variable with a value, as text and as a number. */
  function WithNumber(c: Command, v: nat): Command
    requires v < TWO_64
  {
    match c.kind
    case IntVariable => if v < TWO_32 then c.(valueInt := v, valueString := ToString(v)) else c
    case _ => c.(valueInt64 := v, valueString := ToString(v))
  }

  /** An Int or Int64 variable is set to a value: if the value is a number, and in the variable's range, which a minimum and
      maximum of zero do not limit. Otherwise nothing changes, and the answer says why. */
  ghost predicate NumberIsSet(reg: Registry, i: nat, value: string, r: Outcome)
    requires i < |reg.commands|
  {
    var c := reg.commands[i];
    var (modulus, min, max) := if c.kind.IntVariable? then (TWO_32, c.intMin, c.intMax) else (TWO_64, c.int64Min, c.int64Max);
    match ParseUnsigned(value, modulus)
    case None => r == Outcome(reg, false, "Invalid value")
    case Some(v) =>
      if (min == 0 && max == 0) || min <= v <= max
      then r == Outcome(reg.(commands := reg.commands[i := WithNumber(c, v)]), true, ToString(c.valueInt) + " -> " + ToString(v))
      else r == Outcome(reg, false, "Value " + value + " out of range [" + (ToString(min) + ".." + ToString(max)) + "]")
  }

  lemma NumberAssigned(reg: Registry, i: nat, arguments: seq<string>, w: World)
    requires i < |reg.commands| && arguments != []
    requires reg.commands[i].kind.IntVariable? || reg.commands[i].kind.Int64Variable?
    requires Internal !in reg.commands[i].flags && !reg.commands[i].hasUpdateEvent
    ensures NumberIsSet(reg, i, arguments[0], Assign(reg, i, arguments, w))
  {
    hide ParseUnsigned, ToString;
  }

  /** An Int or Int64 variable without an event, with a value on the line. */
  lemma NumberIsSetIff(reg: Registry, i: nat, line: string, isUserInput: bool, w: World)
    requires UniqueNames(reg.commands) && Calls(line, reg.commands, i) && Unguarded(reg.commands[i], isUserInput, w)
    requires reg.commands[i].kind.IntVariable? || reg.commands[i].kind.Int64Variable?
    requires Internal !in reg.commands[i].flags && !reg.commands[i].hasUpdateEvent && |Split(CStr(line))| >= 2
    ensures NumberIsSet(reg, i, Split(CStr(line))[1], Execute(reg, line, isUserInput, w))
  {
    hide UniqueNames, Split, CStr, FindIndex, Assign, Execute, NumberIsSet;
    VariableReached(reg, i, line, isUserInput, w);
    NumberAssigned(reg, i, Split(CStr(line))[1..], w);
  }

  /** The same for a Float variable; how numbers are read and printed is a parameter. */
  ghost predicate FloatIsSet(reg: Registry, i: nat, value: string, w: World, r: Outcome)
    requires i < |reg.commands|
  {
    var c := reg.commands[i];
    match w.parseFloat(value)
    case None => r == Outcome(reg, false, "Invalid value")
    case Some(v) =>
      if (c.floatMin == 0.0 && c.floatMax == 0.0) || c.floatMin <= v <= c.floatMax
      then r == Outcome(reg.(commands := reg.commands[i := c.(valueFloat := v, valueString := w.printFloat(v))]), true,
                        w.printFloat(c.valueFloat) + " -> " + w.printFloat(v))
      else r == Outcome(reg, false, "Value " + value + " out of range [" + (w.printFloat(c.floatMin) + ".." + w.printFloat(c.floatMax)) + "]")
  }

  lemma FloatAssigned(reg: Registry, i: nat, arguments: seq<string>, w: World)
    requires i < |reg.commands| && arguments != [] && reg.commands[i].kind.FloatVariable?
    requires Internal !in reg.commands[i].flags && !reg.commands[i].hasUpdateEvent
    ensures FloatIsSet(reg, i, arguments[0], w, Assign(reg, i, arguments, w))
  {
    hide ParseUnsigned, ToString;
  }

  lemma FloatIsSetIff(reg: Registry, i: nat, line: string, isUserInput: bool, w: World)
    requires UniqueNames(reg.commands) && Calls(line, reg.commands, i) && Unguarded(reg.commands[i], isUserInput, w)
    requires reg.commands[i].kind.FloatVariable?
    requires Internal !in reg.commands[i].flags && !reg.commands[i].hasUpdateEvent && |Split(CStr(line))| >= 2
    ensures FloatIsSet(reg, i, Split(CStr(line))[1], w, Execute(reg, line, isUserInput, w))
  {
    hide UniqueNames, Split, CStr, FindIndex, Assign, Execute, FloatIsSet;
    VariableReached(reg, i, line, isUserInput, w);
    FloatAssigned(reg, i, Split(CStr(line))[1..], w);
  }

  /** An internal variable, which only the program itself can name, is not to be set. */
  lemma InternalIsNotSet(reg: Registry, i: nat, line: string, w: World)
    requires UniqueNames(reg.commands) && Calls(line, reg.commands, i) && Unguarded(reg.commands[i], false, w)
    requires !reg.commands[i].kind.PlainCommand? && Internal in reg.commands[i].flags && |Split(CStr(line))| >= 2
    ensures Execute(reg, line, false, w) == Outcome(reg, false, "Command/variable not found")
  {
    VariableReached(reg, i, line, false, w);
    hide UniqueNames, Split, CStr, FindIndex, Execute;
  }

  /** A String variable with a value on the line: its event, if it has one, sees the arguments and the registry with the new
      value, and a refusal puts the old value back. */
  lemma StringIsSet(reg: Registry, i: nat, line: string, isUserInput: bool, w: World)
    requires UniqueNames(reg.commands) && Calls(line, reg.commands, i) && Unguarded(reg.commands[i], isUserInput, w)
    requires reg.commands[i].kind.StringVariable? && Internal !in reg.commands[i].flags && |Split(CStr(line))| >= 2
    ensures var c, args := reg.commands[i], Split(CStr(line))[1..];
            var changed := reg.commands[i := c.(valueString := args[0])];
            var (accepted, text) := if c.hasUpdateEvent then w.update(c.name, args, changed) else (true, "");
            Execute(reg, line, isUserInput, w) ==
            Outcome(if accepted then Registry(changed, reg.queued) else reg, accepted,
                    if text != "" then text else c.valueString + " -> " + (if accepted then args[0] else c.valueString))
  {
    hide UniqueNames, Split, CStr, FindIndex, Assign, Execute;
    VariableReached(reg, i, line, isUserInput, w);
    StringAssigned(reg, i, Split(CStr(line))[1..], w);
  }

  lemma StringAssigned(reg: Registry, i: nat, args: seq<string>, w: World)
    requires i < |reg.commands| && args != [] && reg.commands[i].kind.StringVariable? && Internal !in reg.commands[i].flags
    ensures var c := reg.commands[i];
            var changed := reg.commands[i := c.(valueString := args[0])];
            var (accepted, text) := if c.hasUpdateEvent then w.update(c.name, args, changed) else (true, "");
            Assign(reg, i, args, w) ==
            Outcome(if accepted then Registry(changed, reg.queued) else reg, accepted,
                    if text != "" then text else c.valueString + " -> " + (if accepted then args[0] else c.valueString))
  {
    var c := reg.commands[i];
    assert reg.commands[i := c] == reg.commands;
  }

  /** A command is registered if and only if neither its name nor its short name is taken. */
  lemma AddedIff(reg: Registry, c: Command)
    ensures var taken := exists d <- reg.commands :: Matches(d, c.name) || Matches(d, c.shortName);
            Add(reg, c) == if taken then reg else Registry(reg.commands + [c], reg.queued)
  {
    hide Matches;
    var byName, byShortName := FindIndex(reg.commands, c.name), FindIndex(reg.commands, c.shortName);
    assert byName.Some? ==> reg.commands[byName.value] in reg.commands;
    assert byShortName.Some? ==> reg.commands[byShortName.value] in reg.commands;
  }

  /** The rest of the line that ArgsNoParse passes on always starts inside the line. */
  lemma UnparsedRestIsInside(line: string)
    requires |Split(CStr(line))| >= 2
    ensures |Split(CStr(line))[0]| + 1 <= |line|
  {
    FirstArgumentFits(CStr(line));
  }

  lemma {:induction false} FirstArgumentFits(s: string)
    requires |Split(s)| >= 2
    ensures |Split(s)[0]| + 1 <= |s|
  {
    if IsBlank(s[0]) {
      FirstArgumentFits(s[1..]);
    } else {
      TakenLength(s, false);
      assert Split(TakeArgument(s, false).1) != [];
    }
  }

  lemma {:induction false} TakenLength(s: string, inQuotes: bool)
    ensures |TakeArgument(s, inQuotes).0| + |TakeArgument(s, inQuotes).1| <= |s|
  {
    if s != "" {
      TakenLength(s[1..], inQuotes);
      TakenLength(s[1..], !inQuotes);
    }
  }

  // ----- What every reachable registry satisfies -----

  /** Looking for a name or a short name of `c` does not find `d`. */
  predicate Distinguished(c: Command, d: Command) {
    (c.name != "" ==> !Matches(d, c.name)) && (c.shortName != "" ==> !Matches(d, c.shortName))
  }

  /** No name or short name of one command finds another one. */
  ghost predicate UniqueNames(commands: seq<Command>) {
    forall i, j :: 0 <= i < |commands| && 0 <= j < |commands| && i != j ==> Distinguished(commands[i], commands[j])
  }

  /** A number variable prints as its value and lies in its range. */
  predicate Consistent(c: Command) {
    match c.kind
    case IntVariable => c.valueString == ToString(c.valueInt) && Within(c.valueInt, c.intMin, c.intMax)
    case Int64Variable => c.valueString == ToString(c.valueInt64) && Within(c.valueInt64, c.int64Min, c.int64Max)
    case _ => true
  }

  ghost predicate WellFormed(reg: Registry) {
    UniqueNames(reg.commands) && forall c <- reg.commands :: Consistent(c)
  }

  function Add(reg: Registry, c: Command): Registry {
    if FindIndex(reg.commands, c.name).Some? || FindIndex(reg.commands, c.shortName).Some? then reg
    else reg.(commands := reg.commands + [c])
  }

  datatype Operation = AddCommand(command: Command) | ExecuteLine(line: string, isUserInput: bool, world: World)

  function Run(reg: Registry, operations: seq<Operation>): Registry
    decreases |operations|
  {
    if operations == [] then reg
    else
      Run(match operations[0]
          case AddCommand(c) => Add(reg, c)
          case ExecuteLine(line, user, w) => Execute(reg, line, user, w).registry, operations[1..])
  }

  // ----- Proofs about reachable registries -----

  /** Registration keeps names unique, whichever of the two names is taken. */
  lemma AddKeeps(reg: Registry, c: Command)
    requires UniqueNames(reg.commands)
    ensures UniqueNames(Add(reg, c).commands)
  {
    var r := Add(reg, c);
    if r != reg {
      var n := |reg.commands|;
      forall i, j | 0 <= i < |r.commands| && 0 <= j < |r.commands| && i != j
        ensures Distinguished(r.commands[i], r.commands[j])
      {
        if i == n {
          assert r.commands[j] in reg.commands;
        } else if j == n {
          assert r.commands[i] in reg.commands;
        }
      }
    }
  }

  /** The same command up to its current value. */
  predicate SameButValue(c: Command, d: Command) {
    d == c.(valueInt := d.valueInt, valueInt64 := d.valueInt64, valueFloat := d.valueFloat, valueString := d.valueString)
  }

  predicate SameShape(a: seq<Command>, b: seq<Command>) {
    |a| == |b| && forall i :: 0 <= i < |a| ==> SameButValue(a[i], b[i])
  }

  lemma SameShapeKeepsNames(a: seq<Command>, b: seq<Command>)
    requires SameShape(a, b) && UniqueNames(a)
    ensures UniqueNames(b)
  {
    forall i, j | 0 <= i < |b| && 0 <= j < |b| && i != j ensures Distinguished(b[i], b[j]) {
      assert Distinguished(a[i], a[j]) && SameButValue(a[i], b[i]) && SameButValue(a[j], b[j]);
    }
  }

  lemma AssignKeeps(reg: Registry, i: nat, arguments: seq<string>, w: World)
    requires i < |reg.commands| && arguments != []
    ensures var after := Assign(reg, i, arguments, w).registry;
            exists d :: after == reg.(commands := reg.commands[i := d]) && SameButValue(reg.commands[i], d)
                        && (d == reg.commands[i] || Consistent(d))
  {
    var c := reg.commands[i];
    var a := SetVariable(c, arguments[0], w);
    assert reg == reg.(commands := reg.commands[i := c]);
    assert SameButValue(c, c) && SameButValue(c, a.command);
    assert SameButValue(c, SetVariable(a.command, a.previous, w).command);
  }

  /** Executing a line changes nothing but values, and whatever it changes is consistent afterwards. */
  lemma ExecuteKeeps(reg: Registry, line: string, isUserInput: bool, w: World)
    requires UniqueNames(reg.commands)
    ensures var after := Execute(reg, line, isUserInput, w).registry;
            && UniqueNames(after.commands) && SameShape(reg.commands, after.commands)
            && forall i :: 0 <= i < |after.commands| ==> after.commands[i] == reg.commands[i] || Consistent(after.commands[i])
  {
    var args := Split(CStr(line));
    var after := Execute(reg, line, isUserInput, w).registry;
    if after.commands != reg.commands {
      var i := FindIndex(reg.commands, args[0]).value;
      AssignKeeps(reg, i, args[1..], w);
      var d :| after == reg.(commands := reg.commands[i := d]) && SameButValue(reg.commands[i], d)
               && (d == reg.commands[i] || Consistent(d));
      SameShapeKeepsNames(reg.commands, after.commands);
    }
  }

  ghost predicate Registered(c: Command, reg: Registry, operations: seq<Operation>) {
    c in reg.commands || AddCommand(c) in operations
  }

  lemma OneOperation(reg: Registry, op: Operation)
    requires UniqueNames(reg.commands)
    ensures var next := match op
              case AddCommand(c) => Add(reg, c)
              case ExecuteLine(line, user, w) => Execute(reg, line, user, w).registry;
            && UniqueNames(next.commands)
            && forall c <- next.commands :: Consistent(c) || c in reg.commands || op == AddCommand(c)
  {
    match op {
      case AddCommand(c) => AddKeeps(reg, c);
      case ExecuteLine(line, user, w) =>
        ExecuteKeeps(reg, line, user, w);
        var next := Execute(reg, line, user, w).registry;
        forall c | c in next.commands ensures Consistent(c) || c in reg.commands {
          var k :| 0 <= k < |next.commands| && next.commands[k] == c;
          assert reg.commands[k] in reg.commands;
        }
    }
  }

  /** Whatever is registered, names stay unique; and a number variable that is out of its range, or whose text is not its
      value, is as it was registered. */
  lemma {:induction false} ReachableNamesAndValues(reg: Registry, operations: seq<Operation>)
    requires UniqueNames(reg.commands)
    ensures UniqueNames(Run(reg, operations).commands)
    ensures forall c <- Run(reg, operations).commands :: Consistent(c) || Registered(c, reg, operations)
    decreases |operations|
  {
    if operations != [] {
      var next := match operations[0]
        case AddCommand(c) => Add(reg, c)
        case ExecuteLine(line, user, w) => Execute(reg, line, user, w).registry;
      OneOperation(reg, operations[0]);
      assert operations[0] in operations;
      hide Execute, Add, UniqueNames, Consistent, Matches, Distinguished;
      ReachableNamesAndValues(next, operations[1..]);
      forall c | c in Run(next, operations[1..]).commands ensures Consistent(c) || Registered(c, reg, operations) {
        assert AddCommand(c) in operations[1..] ==> AddCommand(c) in operations;
      }
    }
  }

  /** So if what is registered is consistent, every registry that registrations and executed lines can produce has names
      that are unique ignoring case, and number variables in range whose text is their value. */
  lemma ReachableIsWellFormed(reg: Registry, operations: seq<Operation>)
    requires WellFormed(reg)
    requires forall op <- operations :: op.AddCommand? ==> Consistent(op.command)
    ensures WellFormed(Run(reg, operations))
  {
    ReachableNamesAndValues(reg, operations);
    hide Run;
  }

  /** A command is found by each of its names, in any mixture of cases, and by no other command's. */
  lemma FindsByName(commands: seq<Command>, i: nat, name: string)
    requires UniqueNames(commands) && i < |commands|
    requires commands[i].name != "" && SameIgnoringCase(name, commands[i].name)
    ensures FindIndex(commands, name) == Some(i)
  {
    var r := FindIndex(commands, name);
    assert Matches(commands[i], name);
    assert commands[i] in commands;
    if r.value != i {
      assert Distinguished(commands[i], commands[r.value]);
      assert Matches(commands[r.value], commands[i].name);
    }
  }

  // ----- Refused updates -----

  /** The update event of variable `i` refuses the value it was set to. */
  predicate Refused(reg: Registry, i: nat, arguments: seq<string>, w: World)
    requires i < |reg.commands| && arguments != []
  {
    var a := SetVariable(reg.commands[i], arguments[0], w);
    a.result == Success && reg.commands[i].hasUpdateEvent &&
    !w.update(reg.commands[i].name, arguments, reg.commands[i := a.command]).0
  }

  /** A refused Int or String update leaves the whole registry as it was. */
  lemma RefusalRestores(reg: Registry, i: nat, arguments: seq<string>, w: World)
    requires i < |reg.commands| && arguments != [] && Consistent(reg.commands[i])
    requires reg.commands[i].kind in {IntVariable, StringVariable}
    requires Refused(reg, i, arguments, w)
    ensures Assign(reg, i, arguments, w).registry == reg && !Assign(reg, i, arguments, w).ok
  {
    var c := reg.commands[i];
    if c.kind == IntVariable {
      ParsePrinted(c.valueInt, TWO_32);
    }
    assert reg.commands[i := c] == reg.commands;
  }

  /** For an Int64 variable the "previous value" is that of `valueInt`. So a refused update leaves the registry as
      it was exactly when the two agree, or when `valueInt` is out of range and the refused value was the old
      one. */
  lemma Int64RefusalRestoresIff(reg: Registry, i: nat, arguments: seq<string>, w: World)
    requires i < |reg.commands| && arguments != [] && Consistent(reg.commands[i])
    requires reg.commands[i].kind == Int64Variable
    requires Refused(reg, i, arguments, w)
    ensures var c := reg.commands[i];
            Assign(reg, i, arguments, w).registry == reg <==>
            c.valueInt == c.valueInt64 ||
            (!Within(c.valueInt, c.int64Min, c.int64Max) && ParseUnsigned(arguments[0], TWO_64) == Some(c.valueInt64))
  {
    var c := reg.commands[i];
    ParsePrinted(c.valueInt, TWO_64);
    var after := Assign(reg, i, arguments, w).registry;
    assert reg.commands[i := c] == reg.commands;
    assert after.commands[i] == c ==> after.commands == reg.commands;
  }

  /** The smallest such case: 5 is to replace 7, the event refuses, and the variable ends as 0. */
  lemma Int64RefusalExample(c: Command, w: World)
    requires c.kind == Int64Variable && c.flags == {} && c.hasUpdateEvent
    requires c.valueInt == 0 && c.valueInt64 == 7 && c.valueString == "7" && c.int64Min == 0 && c.int64Max == 0
    requires !w.update(c.name, ["5"], [c.(valueInt64 := 5, valueString := "5")]).0
    ensures Assign(Registry([c], []), 0, ["5"], w).registry.commands[0].valueInt64 == 0
  {
    ParsePrinted(5, TWO_64);
    ParsePrinted(0, TWO_64);
    assert ToString(5) == "5" && ToString(0) == "0";
    assert [c][0 := c.(valueInt64 := 5, valueString := "5")] == [c.(valueInt64 := 5, valueString := "5")];
  }
}
