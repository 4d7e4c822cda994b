/** Executing the exported text gives the bindings back (ElDorito/Source/Modules/ModuleInput.cpp:334-464,
    612-673): the tokenizer reads every line as its command and names, and one line after the other leaves every named
    action with what was printed for it. */
module BindingsRoundTrip {
  import opened Text
  import opened Tokenizer
  import opened NameTable
  import opened Bindings

  // ----- One line -----

  /** A command word and up to three quoted names, of which empty ones are left out. */
  function Line(command: string, a: string, b: string, c: string): string {
    command + " \"" + a + "\"" + QuotedIfAny(b) + QuotedIfAny(c)
  }

  function NonEmpty(a: string, b: string, c: string): seq<string> {
    [a] + (if b == "" then [] else [b]) + (if c == "" then [] else [c])
  }

  predicate Writable(name: string) {
    forall c <- name :: c != QUOTE && c != NUL && c != NEWLINE
  }

  lemma SplitQuotedIfAny(name: string, rest: string)
    requires QUOTE !in name && (rest != "" ==> IsBlank(rest[0]))
    ensures Split(QuotedIfAny(name) + rest) == (if name == "" then [] else [name]) + Split(rest)
  {
    var s := QuotedIfAny(name) + rest;
    if name == "" {
      assert s == rest;
    } else {
      assert s[0] == ' ' && s[1..] == "\"" + name + "\"" + rest;
      SplitQuoted(name, rest);
    }
  }

  /** Tokenizing such a line gives the command word and the names back. */
  lemma LineSplits(command: string, a: string, b: string, c: string)
    requires command != "" && Plain(command) && Writable(a) && Writable(b) && Writable(c)
    ensures NEWLINE !in Line(command, a, b, c)
    ensures Split(CStr(Line(command, a, b, c))) == [command] + NonEmpty(a, b, c)
  {
    hide Split, CStr, QuotedIfAny, Line, Plain, Writable;
    LineCharacters(command, a, b, c);
    LineShape(command, a, b, c);
    PlainThenQuotedSplits(command, a, QuotedIfAny(b) + QuotedIfAny(c));
    TailSplits(b, c);
  }

  lemma LineShape(command: string, a: string, b: string, c: string)
    ensures Line(command, a, b, c) == command + " " + ("\"" + a + "\"" + (QuotedIfAny(b) + QuotedIfAny(c)))
    ensures var tail := QuotedIfAny(b) + QuotedIfAny(c); tail != "" ==> tail[0] == ' '
  {
  }

  lemma PlainThenQuotedSplits(command: string, a: string, tail: string)
    requires command != "" && Plain(command) && Writable(a) && (tail != "" ==> tail[0] == ' ')
    ensures Split(command + " " + ("\"" + a + "\"" + tail)) == [command] + ([a] + Split(tail))
  {
    SplitPlain(command, "\"" + a + "\"" + tail);
    SplitQuoted(a, tail);
  }

  lemma TailSplits(b: string, c: string)
    requires Writable(b) && Writable(c)
    ensures Split(QuotedIfAny(b) + QuotedIfAny(c)) == (if b == "" then [] else [b]) + (if c == "" then [] else [c])
  {
    SplitQuotedIfAny(b, QuotedIfAny(c));
    SplitQuotedIfAny(c, "");
    hide Split;
    assert QuotedIfAny(c) + "" == QuotedIfAny(c);
  }

  lemma LineCharacters(command: string, a: string, b: string, c: string)
    requires Plain(command) && Writable(a) && Writable(b) && Writable(c)
    ensures NUL !in Line(command, a, b, c) && NEWLINE !in Line(command, a, b, c)
  {
    assert NUL !in command && NEWLINE !in command by {
      assert IsBlank(NEWLINE);
    }
    assert NUL !in QuotedIfAny(b) + QuotedIfAny(c) && NEWLINE !in QuotedIfAny(b) + QuotedIfAny(c);
  }

  lemma KeyboardIsPlain()
    ensures Plain(KEYBOARD_COMMAND)
  {
  }

  lemma ControllerIsPlain()
    ensures Plain(CONTROLLER_COMMAND)
  {
  }

  lemma DifferentLengths(a: string, b: string)
    requires |a| != |b| && NUL !in a && NUL !in b
    ensures !SameIgnoringCase(a, b)
  {
    assert CStr(a) == a && CStr(b) == b && |Lower(a)| != |Lower(b)|;
  }

  lemma DifferentWords()
    ensures !Calls(KEYBOARD_COMMAND, CONTROLLER_COMMAND, CONTROLLER_SHORT)
    ensures Plain(KEYBOARD_COMMAND) && Plain(CONTROLLER_COMMAND)
  {
    hide SameIgnoringCase;
    DifferentLengths(CONTROLLER_COMMAND, KEYBOARD_COMMAND);
    DifferentLengths(CONTROLLER_SHORT, KEYBOARD_COMMAND);
    KeyboardIsPlain();
    ControllerIsPlain();
  }

  // ----- What executing one exported line does -----

  lemma NamesAreWritable(names: Names, t: Table, action: Pair)
    requires GoodNames(names) && t.Valid() && action in names.actions
    ensures 0 <= action.1 < ACTIONS && action.1 != VEHICLE_EXIT && Writable(action.0)
    ensures ValueIgnoringCase(names.actions, action.0) == Some(action.1)
  {
    var k :| 0 <= k < |names.actions| && names.actions[k] == action;
    OneToOneLookups(names.actions, k);
    assert action in names.buttons + names.keys + names.mouse + names.actions;
  }

  lemma PrintedButton(names: Names, button: int)
    requires GoodNames(names)
    ensures var name := Printed(names.buttons, button, BUTTONS);
            Writable(name) && (name != "" ==> ParseButton(names, name) == Some(button))
  {
    assert forall p <- names.buttons :: p in names.buttons + names.keys + names.mouse + names.actions
                                        && p in names.buttons + names.keys + names.mouse;
    if Printed(names.buttons, button, BUTTONS) != "" {
      PrintedIsNamed(names.buttons, button, BUTTONS);
    }
  }

  /** The name printed for a slot parses as what NormalSlot says. */
  lemma PrintedSlotParses(names: Names, action: int, key: int, mouse: int)
    requires GoodNames(names)
    ensures Parses(names, action, key, mouse) && Writable(PrintedSlot(names, action, key, mouse))
  {
    var all := names.buttons + names.keys + names.mouse + names.actions;
    assert forall p <- names.keys + names.mouse :: p in all && p in names.buttons + names.keys + names.mouse;
    assert forall p <- names.keys :: p in names.keys + names.mouse;
    assert forall p <- names.mouse :: p in names.keys + names.mouse;
    if Printed(names.keys, key, KEYS) != "" {
      PrintedIsNamed(names.keys, key, KEYS);
    }
    if Printed(names.mouse, mouse, MOUSE_BUTTONS) != "" {
      PrintedIsNamed(names.mouse, mouse, MOUSE_BUTTONS);
      UnknownName(names.keys, Printed(names.mouse, mouse, MOUSE_BUTTONS));
    }
  }

  lemma ExecuteControllerLine(names: Names, t: Table, saved: Table, action: Pair)
    requires GoodNames(names) && t.Valid() && saved.Valid() && action in names.actions
    requires 0 <= action.1 < CONTROLLER_ACTIONS
    ensures NEWLINE !in ControllerLine(names, saved, action)
    ensures ExecuteLine(names, t, ControllerLine(names, saved, action))
            == CopyUse(t.(buttons := t.buttons[action.1 := NormalButton(names, saved.buttons[action.1])]))
  {
    hide GoodNames, ExecuteLine, CopyUse, Printed, Line, Split, CStr, NonEmpty, Plain, BindController, NormalButton;
    var name := Printed(names.buttons, saved.buttons[action.1], BUTTONS);
    NamesAreWritable(names, t, action);
    PrintedButton(names, saved.buttons[action.1]);
    DifferentWords();
    LineSplits(CONTROLLER_COMMAND, action.0, name, "");
    ControllerLineShape(names, saved, action);
    ExecuteTokens(names, t, ControllerLine(names, saved, action), CONTROLLER_COMMAND, NonEmpty(action.0, name, ""));
    ControllerArguments(names, t, action, saved.buttons[action.1]);
  }

  lemma ControllerLineShape(names: Names, saved: Table, action: Pair)
    requires saved.Valid() && 0 <= action.1 < CONTROLLER_ACTIONS
    ensures ControllerLine(names, saved, action)
            == Line(CONTROLLER_COMMAND, action.0, Printed(names.buttons, saved.buttons[action.1], BUTTONS), "")
  {
  }

  lemma ControllerArguments(names: Names, t: Table, action: Pair, button: int)
    requires t.Valid() && 0 <= action.1 < CONTROLLER_ACTIONS
    requires ValueIgnoringCase(names.actions, action.0) == Some(action.1)
    requires var name := Printed(names.buttons, button, BUTTONS); name != "" ==> ParseButton(names, name) == Some(button)
    ensures BindController(names, t, NonEmpty(action.0, Printed(names.buttons, button, BUTTONS), ""))
            == CopyUse(t.(buttons := t.buttons[action.1 := NormalButton(names, button)]))
  {
    hide ValueIgnoringCase, Printed, CopyUse, ParseButton;
  }

  /** A line whose first token is one of the two command words goes to that command. */
  lemma ExecuteTokens(names: Names, t: Table, line: string, command: string, args: seq<string>)
    requires t.Valid() && Split(CStr(line)) == [command] + args
    requires command == CONTROLLER_COMMAND || command == KEYBOARD_COMMAND
    ensures ExecuteLine(names, t, line)
            == if command == CONTROLLER_COMMAND then BindController(names, t, args) else BindKeyboard(names, t, args)
  {
    DifferentWords();
    assert ([command] + args)[1..] == args;
    hide Split, CStr, Lower, BindController, BindKeyboard;
  }

  lemma ExecuteKeyboardLine(names: Names, t: Table, saved: Table, action: Pair)
    requires GoodNames(names) && t.Valid() && saved.Valid() && action in names.actions
    requires 0 <= action.1 < ACTIONS
    ensures NEWLINE !in KeyboardLine(names, saved, action)
    ensures ExecuteLine(names, t, KeyboardLine(names, saved, action))
            == CopyUse(t.(keys := t.keys[action.1 := Normal(names, action.1, saved.keys[action.1])]))
  {
    hide GoodNames, ExecuteLine, CopyUse, PrintedSlot, Line, Split, CStr, NonEmpty, Plain, BindKeyboard, NormalSlot, Normal;
    var s := saved.keys[action.1];
    var p := PrintedSlot(names, action.1, s.primaryKey, s.primaryMouse);
    var q := PrintedSlot(names, action.1, s.secondaryKey, s.secondaryMouse);
    NamesAreWritable(names, t, action);
    PrintedSlotParses(names, action.1, s.primaryKey, s.primaryMouse);
    PrintedSlotParses(names, action.1, s.secondaryKey, s.secondaryMouse);
    DifferentWords();
    LineSplits(KEYBOARD_COMMAND, action.0, p, q);
    KeyboardLineShape(names, saved, action);
    ExecuteTokens(names, t, KeyboardLine(names, saved, action), KEYBOARD_COMMAND, NonEmpty(action.0, p, q));
    KeyboardArguments(names, t, action, s);
  }

  lemma KeyboardLineShape(names: Names, saved: Table, action: Pair)
    requires saved.Valid() && 0 <= action.1 < ACTIONS
    ensures var s := saved.keys[action.1];
            KeyboardLine(names, saved, action)
            == Line(KEYBOARD_COMMAND, action.0, PrintedSlot(names, action.1, s.primaryKey, s.primaryMouse),
                    PrintedSlot(names, action.1, s.secondaryKey, s.secondaryMouse))
  {
  }

  /** The printed name of a slot, as an argument, stands for what NormalSlot says. */
  ghost predicate Parses(names: Names, action: int, key: int, mouse: int) {
    var name, normal := PrintedSlot(names, action, key, mouse), NormalSlot(names, action, key, mouse);
    if name == "" then normal == (UNBOUND, UNBOUND)
    else ParseKeyOrMouse(names, name) == Some(normal) && normal != (UNBOUND, UNBOUND)
  }

  lemma KeyboardArguments(names: Names, t: Table, action: Pair, s: Slots)
    requires t.Valid() && 0 <= action.1 < ACTIONS
    requires ValueIgnoringCase(names.actions, action.0) == Some(action.1)
    requires Parses(names, action.1, s.primaryKey, s.primaryMouse)
    requires Parses(names, action.1, s.secondaryKey, s.secondaryMouse)
    ensures BindKeyboard(names, t, NonEmpty(action.0, PrintedSlot(names, action.1, s.primaryKey, s.primaryMouse),
                                            PrintedSlot(names, action.1, s.secondaryKey, s.secondaryMouse)))
            == CopyUse(t.(keys := t.keys[action.1 := Normal(names, action.1, s)]))
  {
    if action.1 >= CONTROLLER_ACTIONS {
      MovementHasNoMouse(names, action.1, s);
    }
    hide ValueIgnoringCase, PrintedSlot, CopyUse, ParseKeyOrMouse, NormalSlot;
  }

  lemma MovementHasNoMouse(names: Names, action: int, s: Slots)
    requires action >= CONTROLLER_ACTIONS
    ensures Normal(names, action, s).primaryMouse == UNBOUND && Normal(names, action, s).secondaryMouse == UNBOUND
  {
  }

  // ----- The whole text -----

  /** The table after the controller lines of a list of actions. */
  ghost function ButtonsApplied(names: Names, saved: Table, t: Table, actions: seq<Pair>): (r: Table)
    requires saved.Valid() && t.Valid() && ActionsInRange(actions)
    ensures r.Valid()
    decreases |actions|
  {
    if actions == [] then t
    else ButtonsApplied(names, saved, ButtonApplied(names, saved, t, actions[0].1), actions[1..])
  }

  ghost function ButtonApplied(names: Names, saved: Table, t: Table, action: int): (r: Table)
    requires saved.Valid() && t.Valid() && 0 <= action < ACTIONS
    ensures r.Valid()
  {
    if action >= CONTROLLER_ACTIONS then t
    else CopyUse(t.(buttons := t.buttons[action := NormalButton(names, saved.buttons[action])]))
  }

  /** The table after the keyboard lines of a list of actions. */
  ghost function KeysApplied(names: Names, saved: Table, t: Table, actions: seq<Pair>): (r: Table)
    requires saved.Valid() && t.Valid() && ActionsInRange(actions)
    ensures r.Valid()
    decreases |actions|
  {
    if actions == [] then t
    else KeysApplied(names, saved, KeyApplied(names, saved, t, actions[0].1), actions[1..])
  }

  ghost function KeyApplied(names: Names, saved: Table, t: Table, action: int): (r: Table)
    requires saved.Valid() && t.Valid() && 0 <= action < ACTIONS
    ensures r.Valid()
  {
    CopyUse(t.(keys := t.keys[action := Normal(names, action, saved.keys[action])]))
  }

  lemma ExecuteFirst(names: Names, t: Table, line: string, rest: string)
    requires t.Valid() && NEWLINE !in line
    ensures ExecuteLines(names, t, Lines(line + "\n" + rest))
            == ExecuteLines(names, ExecuteLine(names, t, line), Lines(rest))
  {
    FirstLine(line, rest);
    hide ExecuteLine, Lines;
    assert ([line] + Lines(rest))[1..] == Lines(rest);
  }

  lemma {:induction false} ControllerTextExecutes(names: Names, saved: Table, t: Table, actions: seq<Pair>, more: string)
    requires GoodNames(names) && saved.Valid() && t.Valid()
    requires (forall a <- actions :: a in names.actions) && ActionsInRange(actions)
    ensures ExecuteLines(names, t, Lines(ControllerText(names, saved, actions) + more))
            == ExecuteLines(names, ButtonsApplied(names, saved, t, actions), Lines(more))
    decreases |actions|
  {
    if actions == [] {
      assert ControllerText(names, saved, actions) + more == more;
    } else {
      var a, tail := actions[0], ControllerText(names, saved, actions[1..]) + more;
      FirstControllerLine(names, saved, actions, more);
      hide GoodNames, ExecuteLine, ExecuteLines, Lines, ControllerText, ControllerLine, CopyUse, NormalButton;
      if a.1 < CONTROLLER_ACTIONS {
        ExecuteControllerLine(names, t, saved, a);
        ExecuteFirst(names, t, ControllerLine(names, saved, a), tail);
      }
      ControllerTextExecutes(names, saved, ButtonApplied(names, saved, t, a.1), actions[1..], more);
    }
  }

  lemma FirstControllerLine(names: Names, saved: Table, actions: seq<Pair>, more: string)
    requires saved.Valid() && ActionsInRange(actions) && actions != []
    ensures var tail := ControllerText(names, saved, actions[1..]) + more;
            ControllerText(names, saved, actions) + more ==
            if actions[0].1 < CONTROLLER_ACTIONS then ControllerLine(names, saved, actions[0]) + "\n" + tail else tail
  {
    hide ControllerLine;
    var others := ControllerText(names, saved, actions[1..]);
    if actions[0].1 < CONTROLLER_ACTIONS {
      Reassociate(ControllerLine(names, saved, actions[0]) + "\n", others, more);
    } else {
      assert "" + others == others;
    }
  }

  lemma {:induction false} KeyboardTextExecutes(names: Names, saved: Table, t: Table, actions: seq<Pair>)
    requires GoodNames(names) && saved.Valid() && t.Valid()
    requires (forall a <- actions :: a in names.actions) && ActionsInRange(actions)
    ensures ExecuteLines(names, t, Lines(KeyboardText(names, saved, actions))) == KeysApplied(names, saved, t, actions)
    decreases |actions|
  {
    if actions != [] {
      var a, tail := actions[0], KeyboardText(names, saved, actions[1..]);
      var line := KeyboardLine(names, saved, a);
      ExecuteKeyboardLine(names, t, saved, a);
      assert KeyboardText(names, saved, actions) == line + "\n" + tail;
      ExecuteFirst(names, t, line, tail);
      hide GoodNames, ExecuteLines, Lines, KeyboardText, KeyboardLine, CopyUse;
      KeyboardTextExecutes(names, saved, KeyApplied(names, saved, t, a.1), actions[1..]);
    }
  }

  lemma ExecuteEmptyLine(names: Names, t: Table, rest: string)
    requires t.Valid()
    ensures ExecuteLines(names, t, Lines("\n" + rest)) == ExecuteLines(names, t, Lines(rest))
  {
    ExecuteFirst(names, t, "", rest);
    assert "" + "\n" + rest == "\n" + rest;
  }

  /** The table that executing the exported text leaves. */
  lemma ExportExecutes(names: Names, saved: Table, t: Table)
    requires GoodNames(names) && saved.Valid() && t.Valid()
    ensures ExecuteLines(names, t, Lines(Export(names, saved)))
            == KeysApplied(names, saved, ButtonsApplied(names, saved, t, names.actions), names.actions)
  {
    hide ExecuteLines, Lines, KeyboardText, ControllerText, ButtonsApplied, KeysApplied, OneToOne;
    var keyboard := KeyboardText(names, saved, names.actions);
    var b := ButtonsApplied(names, saved, t, names.actions);
    ControllerTextExecutes(names, saved, t, names.actions, "\n" + keyboard);
    ExecuteEmptyLine(names, b, keyboard);
    KeyboardTextExecutes(names, saved, b, names.actions);
    assert Export(names, saved) == ControllerText(names, saved, names.actions) + ("\n" + keyboard);
  }

  // ----- What that table holds -----

  /** The button and the keys of one action. */
  datatype Bound = Bound(button: int, slots: Slots)

  ghost function At(t: Table, action: int): Bound
    requires t.Valid() && 0 <= action < ACTIONS
  {
    Bound(if action < CONTROLLER_ACTIONS then t.buttons[action] else UNBOUND, t.keys[action])
  }

  lemma {:induction false} ButtonsAppliedAt(names: Names, saved: Table, t: Table, actions: seq<Pair>, a: int)
    requires saved.Valid() && t.Valid() && ActionsInRange(actions) && 0 <= a < ACTIONS && a != VEHICLE_EXIT
    ensures var r := ButtonsApplied(names, saved, t, actions);
            && r.keys[a] == t.keys[a]
            && (a < CONTROLLER_ACTIONS ==> r.holds[a] == t.holds[a])
            && (a < CONTROLLER_ACTIONS ==>
                  r.buttons[a] == if exists p <- actions :: p.1 == a then NormalButton(names, saved.buttons[a]) else t.buttons[a])
    decreases |actions|
  {
    hide NormalButton;
    if actions != [] {
      var t' := ButtonApplied(names, saved, t, actions[0].1);
      ButtonsAppliedAt(names, saved, t', actions[1..], a);
      assert forall p :: p in actions <==> p == actions[0] || p in actions[1..];
    }
  }

  lemma {:induction false} KeysAppliedAt(names: Names, saved: Table, t: Table, actions: seq<Pair>, a: int)
    requires saved.Valid() && t.Valid() && ActionsInRange(actions) && 0 <= a < ACTIONS && a != VEHICLE_EXIT
    ensures var r := KeysApplied(names, saved, t, actions);
            && (a < CONTROLLER_ACTIONS ==> r.holds[a] == t.holds[a] && r.buttons[a] == t.buttons[a])
            && r.keys[a] == if exists p <- actions :: p.1 == a then Normal(names, a, saved.keys[a]) else t.keys[a]
    decreases |actions|
  {
    hide Normal;
    if actions != [] {
      var t' := KeyApplied(names, saved, t, actions[0].1);
      KeysAppliedAt(names, saved, t', actions[1..], a);
      assert forall p :: p in actions <==> p == actions[0] || p in actions[1..];
    }
  }

  lemma {:induction false} KeysAppliedCopyUse(names: Names, saved: Table, t: Table, actions: seq<Pair>)
    requires saved.Valid() && t.Valid() && ActionsInRange(actions) && actions != []
    ensures At(KeysApplied(names, saved, t, actions), VEHICLE_EXIT) == At(KeysApplied(names, saved, t, actions), USE)
    ensures var r := KeysApplied(names, saved, t, actions); r.holds[VEHICLE_EXIT] == r.holds[USE]
    decreases |actions|
  {
    hide Normal;
    if |actions| > 1 {
      KeysAppliedCopyUse(names, saved, KeyApplied(names, saved, t, actions[0].1), actions[1..]);
    } else {
      assert actions[1..] == [];
    }
  }

  /** As soon as any action is named, VehicleExit ends up with what Use is bound to. */
  lemma VehicleExitCopiesUse(names: Names, saved: Table, t: Table)
    requires GoodNames(names) && saved.Valid() && t.Valid() && names.actions != []
    ensures var r := ExecuteLines(names, t, Lines(Export(names, saved)));
            At(r, VEHICLE_EXIT) == At(r, USE) && r.holds[VEHICLE_EXIT] == r.holds[USE]
  {
    ExportExecutes(names, saved, t);
    hide GoodNames, ExecuteLines, Export, ButtonsApplied, KeysApplied;
    KeysAppliedCopyUse(names, saved, ButtonsApplied(names, saved, t, names.actions), names.actions);
  }

  /** Executing the exported text in any table leaves every named action with what was printed for it, whatever
      it was bound to before, and changes no other action but VehicleExit, which copies Use. */
  lemma ExportThenExecute(names: Names, saved: Table, t: Table, a: int)
    requires GoodNames(names) && saved.Valid() && t.Valid() && 0 <= a < ACTIONS && a != VEHICLE_EXIT
    ensures var r := ExecuteLines(names, t, Lines(Export(names, saved)));
            && (a < CONTROLLER_ACTIONS ==> r.holds[a] == t.holds[a])
            && if exists p <- names.actions :: p.1 == a
               then r.keys[a] == Normal(names, a, saved.keys[a]) &&
                    (a < CONTROLLER_ACTIONS ==> r.buttons[a] == NormalButton(names, saved.buttons[a]))
               else At(r, a) == At(t, a)
  {
    ExportExecutes(names, saved, t);
    var b := ButtonsApplied(names, saved, t, names.actions);
    ButtonsAppliedAt(names, saved, t, names.actions, a);
    KeysAppliedAt(names, saved, b, names.actions, a);
    hide GoodNames, ExecuteLines, Export, ButtonsApplied, KeysApplied, Normal, NormalButton;
  }

  /** So what an action is bound to survives, whatever table it is loaded into, exactly when its slots are
      canonical and its controller button is unbound or has a name. */
  lemma ActionSurvivesIff(names: Names, saved: Table, t: Table, action: Pair)
    requires GoodNames(names) && saved.Valid() && t.Valid() && action in names.actions
    ensures 0 <= action.1 < ACTIONS
    ensures var a := action.1;
            At(ExecuteLines(names, t, Lines(Export(names, saved))), a) == At(saved, a) <==>
            Canonical(names, a, saved.keys[a]) &&
            (a < CONTROLLER_ACTIONS ==>
               saved.buttons[a] == UNBOUND || Printed(names.buttons, saved.buttons[a], BUTTONS) != "")
  {
    ExportThenExecute(names, saved, t, action.1);
    KeptIffCanonical(names, action.1, saved.keys[action.1]);
    hide ExecuteLines, Export, Normal, Canonical;
  }
}
