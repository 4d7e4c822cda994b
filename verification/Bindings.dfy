/** Input bindings: the console commands that set them and the printer that writes those commands
    (ElDorito/Source/Modules/ModuleInput.cpp:36-44, 334-464, 612-673). */
module Bindings {
  import opened Text
  import opened Tokenizer
  import opened NameTable

  const CONTROLLER_ACTIONS: int := 59 // eGameAction_ControllerCount
  const ACTIONS: int := 63            // eGameAction_KeyboardMouseCount
  const BUTTONS: int := 16            // eControllerButton_Count
  const KEYS: int := 109              // eKeyCode_Count
  const MOUSE_BUTTONS: int := 10      // eMouseButton_Count
  const UNBOUND: int := 0xFF          // eControllerButton_None, eKeyCode_None, eMouseButton_None
  const USE: int := 21                // eGameActionUse
  const VEHICLE_EXIT: int := 55       // eGameActionVehicleExit

  const CONTROLLER_COMMAND: string := "Input.ControllerAction"
  const CONTROLLER_SHORT: string := "controller"
  const KEYBOARD_COMMAND: string := "Input.KeyboardAction"
  const KEYBOARD_SHORT: string := "keyboard"

  /** What one action is bound to. */
  datatype Slots = Slots(primaryKey: int, primaryMouse: int, secondaryKey: int, secondaryMouse: int)

  datatype Table = Table(buttons: seq<int>, holds: seq<bool>, keys: seq<Slots>) {
    predicate Valid() {
      |buttons| == CONTROLLER_ACTIONS && |holds| == CONTROLLER_ACTIONS && |keys| == ACTIONS
    }
  }

  /** The four name tables. */
  datatype Names = Names(buttons: seq<Pair>, keys: seq<Pair>, mouse: seq<Pair>, actions: seq<Pair>)

  // ----- Reading -----

  /** Entering and leaving a vehicle stay on the same button. */
  function CopyUse(t: Table): (r: Table)
    requires t.Valid()
    ensures r.Valid()
  {
    Table(t.buttons[VEHICLE_EXIT := t.buttons[USE]], t.holds[VEHICLE_EXIT := t.holds[USE]],
          t.keys[VEHICLE_EXIT := t.keys[USE]])
  }

  function ParseButton(names: Names, name: string): Option<int> {
    if Lower(name) == "none" then Some(UNBOUND) else ValueIgnoringCase(names.buttons, name)
  }

  /** A key code and a mouse button, at most one of them bound. Key names come first. */
  function ParseKeyOrMouse(names: Names, name: string): Option<(int, int)> {
    if Lower(name) == "none" then Some((UNBOUND, UNBOUND))
    else match ValueIgnoringCase(names.keys, name)
      case Some(key) => Some((key, UNBOUND))
      case None =>
        match ValueIgnoringCase(names.mouse, name)
        case Some(button) => Some((UNBOUND, button))
        case None => None
  }

  function BindController(names: Names, t: Table, args: seq<string>): (r: Table)
    requires t.Valid()
    ensures r.Valid()
  {
    if |args| < 1 || |args| > 2 then t
    else match ValueIgnoringCase(names.actions, args[0])
      case None => t
      case Some(action) =>
        if action < 0 || action >= CONTROLLER_ACTIONS then t
        else match (if |args| > 1 then ParseButton(names, args[1]) else Some(UNBOUND))
          case None => t
          case Some(button) => CopyUse(t.(buttons := t.buttons[action := button]))
  }

  /** An empty primary slot takes over what the secondary slot holds. */
  function Shift(primary: (int, int), secondary: (int, int)): Slots {
    if primary == (UNBOUND, UNBOUND) then Slots(secondary.0, secondary.1, UNBOUND, UNBOUND)
    else Slots(primary.0, primary.1, secondary.0, secondary.1)
  }

  function BindKeyboard(names: Names, t: Table, args: seq<string>): (r: Table)
    requires t.Valid()
    ensures r.Valid()
  {
    if |args| < 1 || |args| > 3 then t
    else match ValueIgnoringCase(names.actions, args[0])
      case None => t
      case Some(action) =>
        if action < 0 || action >= ACTIONS then t
        else
          var primary := if |args| > 1 then ParseKeyOrMouse(names, args[1]) else Some((UNBOUND, UNBOUND));
          var secondary := if |args| > 2 then ParseKeyOrMouse(names, args[2]) else Some((UNBOUND, UNBOUND));
          if primary.None? || secondary.None? then t
          else
            var s := Shift(primary.value, secondary.value);
            if action >= CONTROLLER_ACTIONS && (s.primaryMouse != UNBOUND || s.secondaryMouse != UNBOUND) then t
            else CopyUse(t.(keys := t.keys[action := s]))
  }

  /** The word is the name or the short name of a command. */
  predicate Calls(word: string, name: string, shortName: string) {
    SameIgnoringCase(name, word) || SameIgnoringCase(shortName, word)
  }

  /** What a name says about a slot: the word none, a key, or, if it is no key, a mouse button. */
  ghost predicate Means(names: Names, name: string, key: int, mouse: int) {
    if Lower(name) == "none" then key == UNBOUND && mouse == UNBOUND
    else match ValueIgnoringCase(names.keys, name)
      case Some(k) => key == k && mouse == UNBOUND
      case None => key == UNBOUND && ValueIgnoringCase(names.mouse, name) == Some(mouse)
  }

  /** A name that says nothing of the kind. */
  ghost predicate MeansNothing(names: Names, name: string) {
    Lower(name) != "none" && ValueIgnoringCase(names.keys, name).None? && ValueIgnoringCase(names.mouse, name).None?
  }

  /** A table with other slots for one action, except that VehicleExit always has those of Use. */
  ghost predicate WithSlots(t: Table, action: int, s: Slots, r: Table)
    requires t.Valid()
  {
    && r.Valid() && r.buttons == t.buttons[55 := t.buttons[21]] && r.holds == t.holds[55 := t.holds[21]]
    && forall a :: 0 <= a < 63 && a != 55 ==> r.keys[a] == (if a == action then s else t.keys[a]) && r.keys[55] == r.keys[21]
  }

  /** What the keyboard command does with names it knows: an empty first slot takes over the second, and a mouse button is
      refused for the four actions that only the keyboard has. */
  lemma KeyboardSets(names: Names, t: Table, args: seq<string>, action: int, key: int, mouse: int, key2: int, mouse2: int)
    requires t.Valid() && 1 <= |args| <= 3 && ValueIgnoringCase(names.actions, args[0]) == Some(action) && 0 <= action < 63
    requires if |args| > 1 then Means(names, args[1], key, mouse) else key == UNBOUND && mouse == UNBOUND
    requires if |args| > 2 then Means(names, args[2], key2, mouse2) else key2 == UNBOUND && mouse2 == UNBOUND
    ensures var r := BindKeyboard(names, t, args);
            if action >= 59 && (mouse != UNBOUND || mouse2 != UNBOUND) then r == t
            else WithSlots(t, action,
                           if key == UNBOUND && mouse == UNBOUND then Slots(key2, mouse2, UNBOUND, UNBOUND)
                           else Slots(key, mouse, key2, mouse2), r)
  {
    hide ValueIgnoringCase, Lower;
  }

  /** A wrong number of names, an unknown action or an unknown name of a key changes nothing. */
  lemma KeyboardRefuses(names: Names, t: Table, args: seq<string>)
    requires t.Valid()
    requires |args| < 1 || |args| > 3 || ValueIgnoringCase(names.actions, args[0]).None?
             || (|args| > 1 && MeansNothing(names, args[1])) || (|args| > 2 && MeansNothing(names, args[2]))
    ensures BindKeyboard(names, t, args) == t
  {
    hide ValueIgnoringCase, Lower;
  }

  /** What the controller command does: it sets the button of a known action that a controller has, to nothing for the word
      none or no name; everything else changes nothing. */
  lemma ControllerSets(names: Names, t: Table, args: seq<string>)
    requires t.Valid()
    ensures var r := BindController(names, t, args);
            if 1 <= |args| <= 2 && ValueIgnoringCase(names.actions, args[0]).Some?
               && 0 <= ValueIgnoringCase(names.actions, args[0]).value < 59
               && (|args| == 2 ==> Lower(args[1]) == "none" || ValueIgnoringCase(names.buttons, args[1]).Some?)
            then
              var action := ValueIgnoringCase(names.actions, args[0]).value;
              var button := if |args| == 1 || Lower(args[1]) == "none" then 0xFF else ValueIgnoringCase(names.buttons, args[1]).value;
              && r.keys == t.keys[55 := t.keys[21]] && r.holds == t.holds[55 := t.holds[21]]
              && forall a :: 0 <= a < 59 && a != 55 ==> r.buttons[a] == (if a == action then button else t.buttons[a]) && r.buttons[55] == r.buttons[21]
            else r == t
  {
    hide ValueIgnoringCase, Lower;
  }

  /** Executing one line of text, as far as it concerns the bindings. */
  function ExecuteLine(names: Names, t: Table, line: string): (r: Table)
    requires t.Valid()
    ensures r.Valid()
  {
    var args := Split(CStr(line));
    if args == [] then t
    else if Calls(args[0], CONTROLLER_COMMAND, CONTROLLER_SHORT) then BindController(names, t, args[1..])
    else if Calls(args[0], KEYBOARD_COMMAND, KEYBOARD_SHORT) then BindKeyboard(names, t, args[1..])
    else t
  }

  function ExecuteLines(names: Names, t: Table, lines: seq<string>): (r: Table)
    requires t.Valid()
    ensures r.Valid()
    decreases |lines|
  {
    if lines == [] then t else ExecuteLines(names, ExecuteLine(names, t, lines[0]), lines[1..])
  }

  // ----- Printing -----

  /** The name printed for a code, if it is in range and has one. */
  function Printed(pairs: seq<Pair>, code: int, count: int): string {
    if 0 <= code < count && NameOf(pairs, code).Some? then NameOf(pairs, code).value else ""
  }

  /** The name printed for a slot: a mouse button's name replaces a key's, but only for controller actions. */
  function PrintedSlot(names: Names, action: int, key: int, mouse: int): string {
    var m := Printed(names.mouse, mouse, MOUSE_BUTTONS);
    if action < CONTROLLER_ACTIONS && m != "" then m else Printed(names.keys, key, KEYS)
  }

  function QuotedIfAny(name: string): string {
    if name == "" then "" else " \"" + name + "\""
  }

  function ControllerLine(names: Names, t: Table, action: Pair): string
    requires t.Valid() && 0 <= action.1 < CONTROLLER_ACTIONS
  {
    CONTROLLER_COMMAND + " \"" + action.0 + "\"" + QuotedIfAny(Printed(names.buttons, t.buttons[action.1], BUTTONS))
  }

  function KeyboardLine(names: Names, t: Table, action: Pair): string
    requires t.Valid() && 0 <= action.1 < ACTIONS
  {
    var s := t.keys[action.1];
    KEYBOARD_COMMAND + " \"" + action.0 + "\"" +
    QuotedIfAny(PrintedSlot(names, action.1, s.primaryKey, s.primaryMouse)) +
    QuotedIfAny(PrintedSlot(names, action.1, s.secondaryKey, s.secondaryMouse))
  }

  ghost predicate ActionsInRange(actions: seq<Pair>) {
    forall a <- actions :: 0 <= a.1 < ACTIONS
  }

  function ControllerText(names: Names, t: Table, actions: seq<Pair>): string
    requires t.Valid() && ActionsInRange(actions)
  {
    if actions == [] then ""
    else (if actions[0].1 >= CONTROLLER_ACTIONS then "" else ControllerLine(names, t, actions[0]) + "\n")
         + ControllerText(names, t, actions[1..])
  }

  function KeyboardText(names: Names, t: Table, actions: seq<Pair>): string
    requires t.Valid() && ActionsInRange(actions)
  {
    if actions == [] then ""
    else KeyboardLine(names, t, actions[0]) + "\n" + KeyboardText(names, t, actions[1..])
  }

  function Export(names: Names, t: Table): string
    requires t.Valid() && ActionsInRange(names.actions)
  {
    ControllerText(names, t, names.actions) + "\n" + KeyboardText(names, t, names.actions)
  }

  // ----- What the export keeps -----

  /** A name that fits between quotes on one line and is not the word for "nothing". */
  predicate Sayable(name: string) {
    name != "" && Lower(name) != "none" && forall c <- name :: c != QUOTE && c != NUL && c != NEWLINE
  }

  ghost predicate GoodNames(names: Names) {
    && OneToOne(names.buttons) && OneToOne(names.keys) && OneToOne(names.mouse) && OneToOne(names.actions)
    && (forall p <- names.buttons + names.keys + names.mouse + names.actions :: Sayable(p.0))
    && (forall p <- names.buttons + names.keys + names.mouse :: p.1 != UNBOUND)
    && (forall k <- names.keys, m <- names.mouse :: Lower(k.0) != Lower(m.0))
    && ActionsInRange(names.actions)
    && (forall a <- names.actions :: a.1 != VEHICLE_EXIT)
  }

  /** What the name printed for a slot stands for. */
  function NormalSlot(names: Names, action: int, key: int, mouse: int): (int, int) {
    if action < CONTROLLER_ACTIONS && Printed(names.mouse, mouse, MOUSE_BUTTONS) != "" then (UNBOUND, mouse)
    else if Printed(names.keys, key, KEYS) != "" then (key, UNBOUND)
    else (UNBOUND, UNBOUND)
  }

  function Normal(names: Names, action: int, s: Slots): Slots {
    Shift(NormalSlot(names, action, s.primaryKey, s.primaryMouse),
          NormalSlot(names, action, s.secondaryKey, s.secondaryMouse))
  }

  function NormalButton(names: Names, button: int): int {
    if Printed(names.buttons, button, BUTTONS) != "" then button else UNBOUND
  }

  /** One slot holds a key or a mouse button but not both, and only codes that have names; actions that are only
      on the keyboard hold no mouse button. */
  predicate CanonicalSlot(names: Names, action: int, key: int, mouse: int) {
    && (key == UNBOUND || (Printed(names.keys, key, KEYS) != "" && mouse == UNBOUND))
    && (mouse == UNBOUND || (Printed(names.mouse, mouse, MOUSE_BUTTONS) != "" && action < CONTROLLER_ACTIONS))
  }

  predicate Canonical(names: Names, action: int, s: Slots) {
    && CanonicalSlot(names, action, s.primaryKey, s.primaryMouse)
    && CanonicalSlot(names, action, s.secondaryKey, s.secondaryMouse)
    && (s.primaryKey == UNBOUND && s.primaryMouse == UNBOUND ==> s.secondaryKey == UNBOUND && s.secondaryMouse == UNBOUND)
  }

  lemma PrintedIsNamed(pairs: seq<Pair>, code: int, count: int)
    requires OneToOne(pairs) && forall p <- pairs :: Sayable(p.0) && p.1 != UNBOUND
    requires Printed(pairs, code, count) != ""
    ensures code != UNBOUND && Sayable(Printed(pairs, code, count))
    ensures ValueIgnoringCase(pairs, Printed(pairs, code, count)) == Some(code)
    ensures (Printed(pairs, code, count), code) in pairs
  {
    NameOfIsThere(pairs, code);
    NameReadsBack(pairs, code);
  }

  /** The slots of an action that the export keeps as they are are exactly the canonical ones. */
  lemma KeptIffCanonical(names: Names, action: int, s: Slots)
    requires GoodNames(names)
    ensures Normal(names, action, s) == s <==> Canonical(names, action, s)
  {
    NormalIsCanonical(names, action, s.primaryKey, s.primaryMouse);
    NormalIsCanonical(names, action, s.secondaryKey, s.secondaryMouse);
    hide GoodNames, CanonicalSlot, NormalSlot;
  }

  lemma NormalIsCanonical(names: Names, action: int, key: int, mouse: int)
    requires GoodNames(names)
    ensures var n := NormalSlot(names, action, key, mouse); CanonicalSlot(names, action, n.0, n.1)
  {
  }
}
