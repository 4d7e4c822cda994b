/** The bindings table as the source keeps it: parallel arrays that the console commands write in place
    (ElDorito/Source/Modules/ModuleInput.cpp:36-44, 334-464, 612-673).

    Each command is proved to leave the arrays as its function on tables says, and the printing loops to print the text
    whose execution the round trip is about. */
module ModuleInput {
  import opened NameTable
  import opened Bindings

  class InputBindings {
    const controllerButtons: array<int>
    const controllerHoldButtons: array<bool>
    const primaryKeys: array<int>
    const secondaryKeys: array<int>
    const primaryMouseButtons: array<int>
    const secondaryMouseButtons: array<int>

    ghost predicate Valid() {
      && controllerButtons.Length == CONTROLLER_ACTIONS && controllerHoldButtons.Length == CONTROLLER_ACTIONS
      && primaryKeys.Length == secondaryKeys.Length == primaryMouseButtons.Length == secondaryMouseButtons.Length == ACTIONS
      && primaryKeys != secondaryKeys && primaryMouseButtons != secondaryMouseButtons
      && primaryKeys != primaryMouseButtons && primaryKeys != secondaryMouseButtons
      && secondaryKeys != primaryMouseButtons && secondaryKeys != secondaryMouseButtons
    }

    ghost function Repr(): set<object> {
      {controllerButtons as object, controllerHoldButtons, primaryKeys, secondaryKeys, primaryMouseButtons, secondaryMouseButtons}
    }

    function SlotsAt(a: int): Slots
      reads Repr()
      requires Valid() && 0 <= a < ACTIONS
    {
      Slots(primaryKeys[a], primaryMouseButtons[a], secondaryKeys[a], secondaryMouseButtons[a])
    }

    ghost function State(): (t: Table)
      reads Repr()
      requires Valid()
      ensures t.Valid()
    {
      Table(controllerButtons[..], controllerHoldButtons[..], seq(ACTIONS, a requires 0 <= a < ACTIONS reads Repr() => SlotsAt(a)))
    }

    /** Everything unbound. */
    constructor ()
      ensures Valid() && fresh(Repr())
      ensures State() == Table(seq(CONTROLLER_ACTIONS, _ => UNBOUND), seq(CONTROLLER_ACTIONS, _ => false),
                               seq(ACTIONS, _ => Slots(UNBOUND, UNBOUND, UNBOUND, UNBOUND)))
    {
      controllerButtons := new int[CONTROLLER_ACTIONS](_ => UNBOUND);
      controllerHoldButtons := new bool[CONTROLLER_ACTIONS](_ => false);
      primaryKeys := new int[ACTIONS](_ => UNBOUND);
      secondaryKeys := new int[ACTIONS](_ => UNBOUND);
      primaryMouseButtons := new int[ACTIONS](_ => UNBOUND);
      secondaryMouseButtons := new int[ACTIONS](_ => UNBOUND);
    }

    method SetSlots(a: int, s: Slots)
      requires Valid() && 0 <= a < ACTIONS
      modifies primaryKeys, primaryMouseButtons, secondaryKeys, secondaryMouseButtons
      ensures State() == old(State()).(keys := old(State()).keys[a := s])
    {
      primaryKeys[a] := s.primaryKey;
      primaryMouseButtons[a] := s.primaryMouse;
      secondaryKeys[a] := s.secondaryKey;
      secondaryMouseButtons[a] := s.secondaryMouse;
      assert SlotsAt(a) == s;
      assert forall b :: 0 <= b < ACTIONS && b != a ==> SlotsAt(b) == old(SlotsAt(b));
      assert State().keys == old(State()).keys[a := s];
    }

    method UpdateBindings()
      requires Valid()
      modifies Repr()
      ensures State() == CopyUse(old(State()))
    {
      controllerButtons[VEHICLE_EXIT] := controllerButtons[USE];
      controllerHoldButtons[VEHICLE_EXIT] := controllerHoldButtons[USE];
      assert forall b :: 0 <= b < ACTIONS ==> SlotsAt(b) == old(SlotsAt(b));
      assert State().keys == old(State()).keys;
      SetSlots(VEHICLE_EXIT, SlotsAt(USE));
    }

    method CommandBindControllerAction(names: Names, args: seq<string>) returns (ok: bool)
      requires Valid() && ActionsInRange(names.actions)
      modifies Repr()
      ensures State() == BindController(names, old(State()), args)
      ensures !ok ==> State() == old(State())
    {
      if |args| < 1 || |args| > 2 {
        return false;
      }
      var action := ValueIgnoringCase(names.actions, args[0]);
      ActionInRange(names.actions, args[0]);
      if action.None? || action.value >= CONTROLLER_ACTIONS {
        return false;
      }
      var button := UNBOUND;
      if |args| > 1 {
        var parsed := ParseButton(names, args[1]);
        if parsed.None? {
          return false;
        }
        button := parsed.value;
      }
      controllerButtons[action.value] := button;
      assert forall b :: 0 <= b < ACTIONS ==> SlotsAt(b) == old(SlotsAt(b));
      assert State().keys == old(State()).keys;
      UpdateBindings();
      return true;
    }

    method CommandBindKeyboardAction(names: Names, args: seq<string>) returns (ok: bool)
      requires Valid() && ActionsInRange(names.actions)
      modifies Repr()
      ensures State() == BindKeyboard(names, old(State()), args)
      ensures !ok ==> State() == old(State())
    {
      if |args| < 1 || |args| > 3 {
        return false;
      }
      var action := ValueIgnoringCase(names.actions, args[0]);
      ActionInRange(names.actions, args[0]);
      if action.None? {
        return false;
      }
      var primaryKey, primaryMouse, secondaryKey, secondaryMouse := UNBOUND, UNBOUND, UNBOUND, UNBOUND;
      if |args| > 1 {
        var parsed := ParseKeyOrMouse(names, args[1]);
        if parsed.None? {
          return false;
        }
        primaryKey, primaryMouse := parsed.value.0, parsed.value.1;
      }
      if |args| > 2 {
        var parsed := ParseKeyOrMouse(names, args[2]);
        if parsed.None? {
          return false;
        }
        secondaryKey, secondaryMouse := parsed.value.0, parsed.value.1;
      }
      if primaryKey == UNBOUND && primaryMouse == UNBOUND {
        primaryKey, primaryMouse := secondaryKey, secondaryMouse;
        secondaryKey, secondaryMouse := UNBOUND, UNBOUND;
      }
      if action.value >= CONTROLLER_ACTIONS && (primaryMouse != UNBOUND || secondaryMouse != UNBOUND) {
        return false;
      }
      SetSlots(action.value, Slots(primaryKey, primaryMouse, secondaryKey, secondaryMouse));
      UpdateBindings();
      return true;
    }

    method ExportBindings(names: Names) returns (text: string)
      requires Valid() && ActionsInRange(names.actions)
      ensures text == Export(names, State())
    {
      hide ControllerText, KeyboardText, ControllerLine, KeyboardLine;
      ghost var t := State();
      text := "";
      for i := 0 to |names.actions|
        invariant State() == t
        invariant text + ControllerText(names, t, names.actions[i..]) == ControllerText(names, t, names.actions)
      {
        ControllerTextStep(names, t, i, text);
        var action := names.actions[i];
        if action.1 < CONTROLLER_ACTIONS {
          var line := ExportControllerLine(names, action);
          assert State() == t;
          text := text + (line + "\n");
        }
      }
      AtEnd(names, t, text);
      text := text + "\n";
      ghost var head := text;
      for i := 0 to |names.actions|
        invariant State() == t
        invariant text + KeyboardText(names, t, names.actions[i..]) == head + KeyboardText(names, t, names.actions)
      {
        KeyboardTextStep(names, t, i, text);
        var line := ExportKeyboardLine(names, names.actions[i]);
        assert State() == t;
        text := text + (line + "\n");
      }
      AtEnd(names, t, text);
    }

    method ExportControllerLine(names: Names, action: Pair) returns (line: string)
      requires Valid() && 0 <= action.1 < CONTROLLER_ACTIONS
      ensures line == ControllerLine(names, State(), action)
    {
      var button := controllerButtons[action.1];
      var buttonName := "";
      if 0 <= button < BUTTONS {
        var found := NameOf(names.buttons, button);
        if found.Some? {
          buttonName := found.value;
        }
      }
      line := CONTROLLER_COMMAND + " \"" + action.0 + "\"";
      if |buttonName| > 0 {
        line := line + (" \"" + buttonName + "\"");
      }
    }

    method ExportKeyboardLine(names: Names, action: Pair) returns (line: string)
      requires Valid() && 0 <= action.1 < ACTIONS
      ensures line == KeyboardLine(names, State(), action)
    {
      var s := SlotsAt(action.1);
      assert s == State().keys[action.1];
      var primaryName, secondaryName := "", "";
      primaryName := Printed(names.keys, s.primaryKey, KEYS);
      secondaryName := Printed(names.keys, s.secondaryKey, KEYS);
      if action.1 < CONTROLLER_ACTIONS {
        if Printed(names.mouse, s.primaryMouse, MOUSE_BUTTONS) != "" {
          primaryName := Printed(names.mouse, s.primaryMouse, MOUSE_BUTTONS);
        }
        if Printed(names.mouse, s.secondaryMouse, MOUSE_BUTTONS) != "" {
          secondaryName := Printed(names.mouse, s.secondaryMouse, MOUSE_BUTTONS);
        }
      }
      hide Printed;
      line := KEYBOARD_COMMAND + " \"" + action.0 + "\"";
      if |primaryName| > 0 {
        line := line + (" \"" + primaryName + "\"");
      }
      if |secondaryName| > 0 {
        line := line + (" \"" + secondaryName + "\"");
      }
    }
  }

  lemma AtEnd(names: Names, t: Table, text: string)
    requires t.Valid() && ActionsInRange(names.actions)
    ensures var end := names.actions[|names.actions|..];
            text + ControllerText(names, t, end) == text && text + KeyboardText(names, t, end) == text
  {
  }

  lemma ControllerTextStep(names: Names, t: Table, i: nat, text: string)
    requires t.Valid() && ActionsInRange(names.actions) && i < |names.actions|
    ensures var action, rest := names.actions[i], ControllerText(names, t, names.actions[i + 1..]);
            text + ControllerText(names, t, names.actions[i..])
            == (if action.1 >= CONTROLLER_ACTIONS then text
                else text + (ControllerLine(names, t, action) + "\n")) + rest
  {
    hide ControllerLine;
    assert names.actions[i..][0] == names.actions[i] && names.actions[i..][1..] == names.actions[i + 1..];
    var rest := ControllerText(names, t, names.actions[i + 1..]);
    assert "" + rest == rest;
  }

  lemma KeyboardTextStep(names: Names, t: Table, i: nat, text: string)
    requires t.Valid() && ActionsInRange(names.actions) && i < |names.actions|
    ensures text + KeyboardText(names, t, names.actions[i..])
            == (text + (KeyboardLine(names, t, names.actions[i]) + "\n")) + KeyboardText(names, t, names.actions[i + 1..])
  {
    hide KeyboardLine;
    assert names.actions[i..][0] == names.actions[i] && names.actions[i..][1..] == names.actions[i + 1..];
  }

  lemma {:induction false} ActionInRange(actions: seq<Pair>, name: string)
    requires ActionsInRange(actions)
    ensures match ValueIgnoringCase(actions, name) case Some(a) => 0 <= a < ACTIONS case None => true
  {
    if actions != [] {
      assert forall a <- actions[..|actions| - 1] :: a in actions;
      ActionInRange(actions[..|actions| - 1], name);
    }
  }
}
