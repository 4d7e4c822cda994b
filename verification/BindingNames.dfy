/** The names of buttons, keys, mouse buttons and actions (ElDorito/Source/Modules/ModuleInput.cpp:678-858), and which
    codes they leave out. The tables are written in parts, and a number found from a few letters of a name, whatever
    their case, tells the names of each table apart. */
module BindingNames {
  import opened Text
  import opened NameTable
  import opened Bindings
  import opened BindingsRoundTrip

  // ----- The tables -----

  function FirstButtons(): seq<Pair> {
    [("LT", 0), ("RT", 1), ("Up", 2), ("Down", 3), ("Left", 4), ("Right", 5), ("Start", 6), ("Select", 7)]
  }

  function LastButtons(): seq<Pair> {
    [("LS", 8), ("RS", 9), ("A", 10), ("B", 11), ("X", 12), ("Y", 13), ("LB", 14), ("RB", 15)]
  }

  function FirstFunctionKeys(): seq<Pair> {
    [("Escape", 0), ("F1", 1), ("F2", 2), ("F3", 3), ("F4", 4), ("F5", 5), ("F6", 6), ("F7", 7)]
  }

  function LastFunctionKeys(): seq<Pair> {
    [("F8", 8), ("F9", 9), ("F10", 10), ("F11", 11), ("F12", 12), ("PrintScreen", 13), ("F14", 14), ("F15", 15)]
  }

  function FirstDigitKeys(): seq<Pair> {
    [("Tilde", 16), ("1", 17), ("2", 18), ("3", 19), ("4", 20), ("5", 21), ("6", 22)]
  }

  function LastDigitKeys(): seq<Pair> {
    [("7", 23), ("8", 24), ("9", 25), ("0", 26), ("Minus", 27), ("Plus", 28), ("Back", 29)]
  }

  function LeftTopKeys(): seq<Pair> {
    [("Tab", 30), ("Q", 31), ("W", 32), ("E", 33), ("R", 34), ("T", 35), ("Y", 36)]
  }

  function RightTopKeys(): seq<Pair> {
    [("U", 37), ("I", 38), ("O", 39), ("P", 40), ("LBracket", 41), ("RBracket", 42), ("Pipe", 43)]
  }

  function LeftHomeKeys(): seq<Pair> {
    [("CapsLock", 44), ("A", 45), ("S", 46), ("D", 47), ("F", 48), ("G", 49), ("H", 50)]
  }

  function RightHomeKeys(): seq<Pair> {
    [("J", 51), ("K", 52), ("L", 53), ("Colon", 54), ("Quote", 55), ("Enter", 56)]
  }

  function LeftBottomKeys(): seq<Pair> {
    [("LShift", 57), ("Z", 58), ("X", 59), ("C", 60), ("V", 61), ("B", 62), ("N", 63)]
  }

  function RightBottomKeys(): seq<Pair> {
    [("M", 64), ("Comma", 65), ("Period", 66), ("Question", 67), ("RShift", 68), ("LControl", 69)]
  }

  function SpaceKeys(): seq<Pair> {
    [("LAlt", 71), ("Space", 72), ("RAlt", 73)]
  }

  function ArrowKeys(): seq<Pair> {
    [("Apps", 75), ("RControl", 76), ("Up", 77), ("Down", 78), ("Left", 79), ("Right", 80)]
  }

  function MenuKeys(): seq<Pair> {
    [("Insert", 81), ("Home", 82), ("PageUp", 83), ("Delete", 84), ("End", 85), ("PageDown", 86)]
  }

  function FirstNumpadKeys(): seq<Pair> {
    [("NumLock", 87), ("Divide", 88), ("Multiply", 89), ("Numpad0", 90), ("Numpad1", 91)]
  }

  function MiddleNumpadKeys(): seq<Pair> {
    [("Numpad2", 92), ("Numpad3", 93), ("Numpad4", 94), ("Numpad5", 95)]
  }

  function LastNumpadKeys(): seq<Pair> {
    [("Numpad6", 96), ("Numpad7", 97), ("Numpad8", 98), ("Numpad9", 99)]
  }

  function OperatorKeys(): seq<Pair> {
    [("Subtract", 100), ("Add", 101), ("NumpadEnter", 102), ("Decimal", 103)]
  }

  function ShiftKeys(): seq<Pair> {
    [("Shift", 105), ("Ctrl", 106)]
  }

  function AltKeys(): seq<Pair> {
    [("Alt", 108)]
  }

  function ClickButtons(): seq<Pair> {
    [("MouseLeft", 0), ("MouseMiddle", 1), ("MouseRight", 2), ("Mouse4", 3), ("Mouse5", 4)]
  }

  function WheelButtons(): seq<Pair> {
    [("MouseWheelUp", 8), ("MouseWheelDown", 9)]
  }

  function MovementActions(): seq<Pair> {
    [("Forward", 59), ("Back", 60), ("Left", 61), ("Right", 62), ("Sprint", 33)]
  }

  function BodyActions(): seq<Pair> {
    [("Jump", 16), ("Crouch", 29), ("Use", 21), ("DualWield", 23)]
  }

  function FireActions(): seq<Pair> {
    [("Fire", 26), ("FireLeft", 27), ("Reload", 20), ("ReloadLeft", 22), ("Zoom", 30)]
  }

  function WeaponActions(): seq<Pair> {
    [("SwitchWeapons", 18), ("Melee", 24), ("Grenade", 25), ("SwitchGrenades", 17)]
  }

  function DriveActions(): seq<Pair> {
    [("VehicleAccelerate", 51), ("VehicleBrake", 52), ("VehicleBoost", 48), ("VehicleRaise", 50)]
  }

  function VehicleActions(): seq<Pair> {
    [("VehicleDive", 49), ("VehicleFire", 53), ("VehicleAltFire", 54), ("BansheeBomb", 28)]
  }

  function MenuActions(): seq<Pair> {
    [("Menu", 6), ("Scoreboard", 7), ("ForgeDelete", 13), ("Chat", 39), ("TeamChat", 40)]
  }

  function ButtonParts(): seq<seq<Pair>> {
    [FirstButtons(), LastButtons()]
  }

  function KeyParts(): seq<seq<Pair>> {
    [FirstFunctionKeys(), LastFunctionKeys(), FirstDigitKeys(), LastDigitKeys(), LeftTopKeys(), RightTopKeys(),
     LeftHomeKeys(), RightHomeKeys(), LeftBottomKeys(), RightBottomKeys(), SpaceKeys(), ArrowKeys(), MenuKeys(),
     FirstNumpadKeys(), MiddleNumpadKeys(), LastNumpadKeys(), OperatorKeys(), ShiftKeys(), AltKeys()]
  }

  function MouseParts(): seq<seq<Pair>> {
    [ClickButtons(), WheelButtons()]
  }

  function ActionParts(): seq<seq<Pair>> {
    [MovementActions(), BodyActions(), FireActions(), WeaponActions(), DriveActions(), VehicleActions(),
     MenuActions()]
  }

  function Concat(parts: seq<seq<Pair>>): seq<Pair> {
    if parts == [] then [] else Concat(parts[..|parts| - 1]) + parts[|parts| - 1]
  }

  /** The tables of the game. */
  function GameNames(): Names {
    Names(Concat(ButtonParts()), Concat(KeyParts()), Concat(MouseParts()), Concat(ActionParts()))
  }

  // ----- What tells the names apart -----

  function ButtonOfTwo(s: string): int
    requires |s| == 2
  {
    match s[1]
    case 't' => (match s[0] case 'l' => 0 case 'r' => 1 case _ => -1) case 'p' => 2
    case 's' => (match s[0] case 'l' => 8 case 'r' => 9 case _ => -1)
    case 'b' => (match s[0] case 'l' => 14 case 'r' => 15 case _ => -1) case _ => -1
  }

  /** A number for each lower-case name of a controller button, found from a few of its letters. */
  function ButtonNumber(s: string): int {
    match |s|
    case 1 => (match s[0] case 'a' => 10 case 'b' => 11 case 'x' => 12 case 'y' => 13 case _ => -1)
    case 2 => ButtonOfTwo(s)
    case 4 => (match s[0] case 'd' => 3 case 'l' => 4 case _ => -1)
    case 5 => (match s[0] case 'r' => 5 case 's' => 6 case _ => -1)
    case 6 => 7
    case _ => -1
  }

  function KeyOfOne(s: string): int
    requires |s| == 1
  {
    if s[0] <= '8' then
      (match s[0]
       case '0' => 26 case '1' => 17 case '2' => 18 case '3' => 19 case '4' => 20 case '5' => 21 case '6' => 22
       case '7' => 23 case '8' => 24 case _ => -1)
    else if s[0] <= 'h' then
      (match s[0]
       case '9' => 25 case 'a' => 45 case 'b' => 62 case 'c' => 60 case 'd' => 47 case 'e' => 33 case 'f' => 48
       case 'g' => 49 case 'h' => 50 case _ => -1)
    else if s[0] <= 'q' then
      (match s[0]
       case 'i' => 38 case 'j' => 51 case 'k' => 52 case 'l' => 53 case 'm' => 64 case 'n' => 63 case 'o' => 39
       case 'p' => 40 case 'q' => 31 case _ => -1)
    else
      (match s[0]
       case 'r' => 34 case 's' => 46 case 't' => 35 case 'u' => 37 case 'v' => 61 case 'w' => 32 case 'x' => 59
       case 'y' => 36 case 'z' => 58 case _ => -1)
  }

  function KeyOfTwo(s: string): int
    requires |s| == 2
  {
    match s[1]
    case '1' => 1 case '2' => 2 case '3' => 3 case '4' => 4 case '5' => 5 case '6' => 6 case '7' => 7 case '8' => 8
    case '9' => 9 case 'p' => 77 case _ => -1
  }

  function KeyOfThree(s: string): int
    requires |s| == 3
  {
    match s[2]
    case '0' => 10 case '1' => 11 case '2' => 12 case '4' => 14 case '5' => 15 case 'b' => 30
    case 'd' => (match s[0] case 'e' => 85 case 'a' => 101 case _ => -1) case 't' => 108 case _ => -1
  }

  function KeyOfFour(s: string): int
    requires |s| == 4
  {
    match s[0]
    case 'p' => (match s[1] case 'l' => 28 case 'i' => 43 case _ => -1) case 'b' => 29
    case 'l' => (match s[1] case 'a' => 71 case 'e' => 79 case _ => -1) case 'r' => 73 case 'a' => 75 case 'd' => 78
    case 'h' => 82 case 'c' => 106 case _ => -1
  }

  function KeyOfFive(s: string): int
    requires |s| == 5
  {
    match s[3]
    case 'd' => 16 case 'u' => 27 case 'o' => 54 case 't' => 55 case 'e' => 56 case 'm' => 65 case 'c' => 72
    case 'h' => 80 case 'f' => 105 case _ => -1
  }

  function KeyOfSix(s: string): int
    requires |s| == 6
  {
    match s[2]
    case 'c' => 0 case 'h' => (match s[0] case 'l' => 57 case 'r' => 68 case _ => -1) case 'r' => 66 case 's' => 81
    case 'g' => 83 case 'l' => 84 case 'v' => 88
    case 'u' => (match s[5] case '4' => 259 case '5' => 260 case _ => -1) case _ => -1
  }

  function KeyOfSeven(s: string): int
    requires |s| == 7
  {
    match s[6]
    case 'k' => 87 case '0' => 90 case '1' => 91 case '2' => 92 case '3' => 93 case '4' => 94 case '5' => 95
    case '6' => 96 case '7' => 97 case '8' => 98 case '9' => 99 case 'l' => 103 case _ => -1
  }

  function KeyOfEight(s: string): int
    requires |s| == 8
  {
    match s[0]
    case 'l' => (match s[1] case 'b' => 41 case 'c' => 69 case _ => -1)
    case 'r' => (match s[1] case 'b' => 42 case 'c' => 76 case _ => -1) case 'c' => 44 case 'q' => 67 case 'p' => 86
    case 'm' => 89 case 's' => 100 case _ => -1
  }

  /** The same for keys and mouse buttons together. */
  function KeyNumber(s: string): int {
    match |s|
    case 1 => KeyOfOne(s)
    case 2 => KeyOfTwo(s)
    case 3 => KeyOfThree(s)
    case 4 => KeyOfFour(s)
    case 5 => KeyOfFive(s)
    case 6 => KeyOfSix(s)
    case 7 => KeyOfSeven(s)
    case 8 => KeyOfEight(s)
    case 9 => 256
    case 10 => 258
    case 11 => (match s[0] case 'p' => 13 case 'n' => 102 case 'm' => 257 case _ => -1)
    case 12 => 264
    case 14 => 265
    case _ => -1
  }

  function ActionOfFour(s: string): int
    requires |s| == 4
  {
    match s[0]
    case 'b' => 1 case 'l' => 2 case 'j' => 5 case 'f' => 9 case 'z' => 13 case 'm' => 26 case 'c' => 29
    case _ => -1
  }

  /** The same for actions. */
  function ActionNumber(s: string): int {
    match |s|
    case 3 => 7
    case 4 => ActionOfFour(s)
    case 5 => (match s[0] case 'r' => 3 case 'm' => 15 case _ => -1)
    case 6 => (match s[0] case 's' => 4 case 'c' => 6 case 'r' => 11 case _ => -1)
    case 7 => (match s[0] case 'f' => 0 case 'g' => 16 case _ => -1)
    case 8 => (match s[0] case 'f' => 10 case 't' => 30 case _ => -1)
    case 9 => 8
    case 10 => (match s[0] case 'r' => 12 case 's' => 27 case _ => -1)
    case 11 => (match s[7] case 'd' => 22 case 'f' => 23 case 'b' => 25 case 'l' => 28 case _ => -1)
    case 12 => (match s[8] case 'r' => 19 case 'o' => 20 case 'a' => 21 case _ => -1)
    case 13 => 14
    case 14 => (match s[0] case 's' => 17 case 'v' => 24 case _ => -1)
    case 17 => 18
    case _ => -1
  }

  /** The place of an action in its table. */
  function ActionPlace(value: int): int {
    match value
    case 6 => 26 case 7 => 27 case 13 => 28 case 16 => 5 case 17 => 17 case 18 => 14 case 20 => 11 case 21 => 7
    case 22 => 12 case 23 => 8 case 24 => 15 case 25 => 16 case 26 => 9 case 27 => 10 case 28 => 25 case 29 => 6
    case 30 => 13 case 33 => 4 case 39 => 29 case 40 => 30 case 48 => 20 case 49 => 22 case 50 => 21 case 51 => 18
    case 52 => 19 case 53 => 23 case 54 => 24 case 59 => 0 case 60 => 1 case 61 => 2 case 62 => 3 case _ => -1
  }

  datatype Kind = Button | Key | Mouse | Action

  function Number(kind: Kind, name: string): int {
    var s := Lower(name);
    match kind
    case Button => ButtonNumber(s)
    case Action => ActionNumber(s)
    case _ => KeyNumber(s)
  }

  /** Mouse buttons are counted after the keys, and actions by their place in the table. */
  function Place(kind: Kind, value: int): int {
    match kind
    case Mouse => 256 + value
    case Action => ActionPlace(value)
    case _ => value
  }

  // ----- Part by part -----

  /** The numbers of the names are the places of the values, one after another. */
  ghost predicate Listed(kind: Kind, pairs: seq<Pair>, low: nat) {
    forall k :: 0 <= k < |pairs| ==> Number(kind, pairs[k].0) == Place(kind, pairs[k].1) == low + k
  }

  lemma FirstButtonsAreListed()
    ensures Listed(Button, FirstButtons(), 0) && |FirstButtons()| == 8
  {
  }

  lemma LastButtonsAreListed()
    ensures Listed(Button, LastButtons(), 8) && |LastButtons()| == 8
  {
  }

  lemma FirstFunctionKeysAreListed()
    ensures Listed(Key, FirstFunctionKeys(), 0) && |FirstFunctionKeys()| == 8
  {
  }

  lemma LastFunctionKeysAreListed()
    ensures Listed(Key, LastFunctionKeys(), 8) && |LastFunctionKeys()| == 8
  {
  }

  lemma FirstDigitKeysAreListed()
    ensures Listed(Key, FirstDigitKeys(), 16) && |FirstDigitKeys()| == 7
  {
  }

  lemma LastDigitKeysAreListed()
    ensures Listed(Key, LastDigitKeys(), 23) && |LastDigitKeys()| == 7
  {
  }

  lemma LeftTopKeysAreListed()
    ensures Listed(Key, LeftTopKeys(), 30) && |LeftTopKeys()| == 7
  {
  }

  lemma RightTopKeysAreListed()
    ensures Listed(Key, RightTopKeys(), 37) && |RightTopKeys()| == 7
  {
  }

  lemma LeftHomeKeysAreListed()
    ensures Listed(Key, LeftHomeKeys(), 44) && |LeftHomeKeys()| == 7
  {
  }

  lemma RightHomeKeysAreListed()
    ensures Listed(Key, RightHomeKeys(), 51) && |RightHomeKeys()| == 6
  {
  }

  lemma LeftBottomKeysAreListed()
    ensures Listed(Key, LeftBottomKeys(), 57) && |LeftBottomKeys()| == 7
  {
  }

  lemma RightBottomKeysAreListed()
    ensures Listed(Key, RightBottomKeys(), 64) && |RightBottomKeys()| == 6
  {
  }

  lemma SpaceKeysAreListed()
    ensures Listed(Key, SpaceKeys(), 71) && |SpaceKeys()| == 3
  {
  }

  lemma ArrowKeysAreListed()
    ensures Listed(Key, ArrowKeys(), 75) && |ArrowKeys()| == 6
  {
  }

  lemma MenuKeysAreListed()
    ensures Listed(Key, MenuKeys(), 81) && |MenuKeys()| == 6
  {
  }

  lemma FirstNumpadKeysAreListed()
    ensures Listed(Key, FirstNumpadKeys(), 87) && |FirstNumpadKeys()| == 5
  {
  }

  lemma MiddleNumpadKeysAreListed()
    ensures Listed(Key, MiddleNumpadKeys(), 92) && |MiddleNumpadKeys()| == 4
  {
  }

  lemma LastNumpadKeysAreListed()
    ensures Listed(Key, LastNumpadKeys(), 96) && |LastNumpadKeys()| == 4
  {
  }

  lemma OperatorKeysAreListed()
    ensures Listed(Key, OperatorKeys(), 100) && |OperatorKeys()| == 4
  {
  }

  lemma ShiftKeysAreListed()
    ensures Listed(Key, ShiftKeys(), 105) && |ShiftKeys()| == 2
  {
  }

  lemma AltKeysAreListed()
    ensures Listed(Key, AltKeys(), 108) && |AltKeys()| == 1
  {
  }

  lemma ClickButtonsAreListed()
    ensures Listed(Mouse, ClickButtons(), 256) && |ClickButtons()| == 5
  {
  }

  lemma WheelButtonsAreListed()
    ensures Listed(Mouse, WheelButtons(), 264) && |WheelButtons()| == 2
  {
  }

  lemma MovementActionsAreListed()
    ensures Listed(Action, MovementActions(), 0) && |MovementActions()| == 5
  {
  }

  lemma BodyActionsAreListed()
    ensures Listed(Action, BodyActions(), 5) && |BodyActions()| == 4
  {
  }

  lemma FireActionsAreListed()
    ensures Listed(Action, FireActions(), 9) && |FireActions()| == 5
  {
  }

  lemma WeaponActionsAreListed()
    ensures Listed(Action, WeaponActions(), 14) && |WeaponActions()| == 4
  {
  }

  lemma DriveActionsAreListed()
    ensures Listed(Action, DriveActions(), 18) && |DriveActions()| == 4
  {
  }

  lemma VehicleActionsAreListed()
    ensures Listed(Action, VehicleActions(), 22) && |VehicleActions()| == 4
  {
  }

  lemma MenuActionsAreListed()
    ensures Listed(Action, MenuActions(), 26) && |MenuActions()| == 5
  {
  }

  ghost predicate AllWritable(pairs: seq<Pair>) {
    forall k :: 0 <= k < |pairs| ==> Writable(pairs[k].0)
  }

  lemma ButtonNamesAreWritable()
    ensures AllWritable(FirstButtons()) && AllWritable(LastButtons())
  {
  }

  lemma FunctionKeyNamesAreWritable()
    ensures AllWritable(FirstFunctionKeys()) && AllWritable(LastFunctionKeys()) && AllWritable(FirstDigitKeys()) &&
            AllWritable(LastDigitKeys())
  {
  }

  lemma TopKeyNamesAreWritable()
    ensures AllWritable(LeftTopKeys()) && AllWritable(RightTopKeys()) && AllWritable(LeftHomeKeys()) &&
            AllWritable(RightHomeKeys())
  {
  }

  lemma LowerKeyNamesAreWritable()
    ensures AllWritable(LeftBottomKeys()) && AllWritable(RightBottomKeys()) && AllWritable(SpaceKeys())
  {
  }

  lemma MenuKeyNamesAreWritable()
    ensures AllWritable(ArrowKeys()) && AllWritable(MenuKeys())
  {
  }

  lemma NumpadKeyNamesAreWritable()
    ensures AllWritable(FirstNumpadKeys()) && AllWritable(MiddleNumpadKeys())
  {
  }

  lemma ShiftKeyNamesAreWritable()
    ensures AllWritable(LastNumpadKeys()) && AllWritable(OperatorKeys()) && AllWritable(ShiftKeys()) &&
            AllWritable(AltKeys())
  {
  }

  lemma MouseNamesAreWritable()
    ensures AllWritable(ClickButtons()) && AllWritable(WheelButtons())
  {
  }

  lemma MovementNamesAreWritable()
    ensures AllWritable(MovementActions()) && AllWritable(BodyActions()) && AllWritable(FireActions())
  {
  }

  lemma WeaponNamesAreWritable()
    ensures AllWritable(WeaponActions()) && AllWritable(MenuActions())
  {
  }

  lemma DriveNamesAreWritable()
    ensures AllWritable(DriveActions())
  {
  }

  lemma VehicleNamesAreWritable()
    ensures AllWritable(VehicleActions())
  {
  }

  // ----- The tables -----

  /** Where the parts of each table start, and where it ends. */
  const BUTTON_STARTS: seq<nat> := [0, 8, BUTTONS]
  const KEY_STARTS: seq<nat> := [0, 8, 16, 23, 30, 37, 44, 51, 57, 64, 71, 75, 81, 87, 92, 96, 100, 105, 108, KEYS]
  const MOUSE_STARTS: seq<nat> := [256, 264, 256 + MOUSE_BUTTONS]
  const ACTION_STARTS: seq<nat> := [0, 5, 9, 14, 18, 22, 26, 31]

  /** The parts of a table, with the place of the first value of each and the end of the table. */
  ghost predicate AllListed(kind: Kind, parts: seq<seq<Pair>>, lows: seq<nat>) {
    && |lows| == |parts| + 1
    && forall i :: 0 <= i < |parts| ==> Listed(kind, parts[i], lows[i]) && lows[i] + |parts[i]| <= lows[i + 1]
  }

  /** The places grow along the table. */
  ghost predicate Ordered(kind: Kind, pairs: seq<Pair>, low: nat, high: nat) {
    && (forall i, j :: 0 <= i < j < |pairs| ==> Place(kind, pairs[i].1) < Place(kind, pairs[j].1))
    && (forall k :: 0 <= k < |pairs| ==>
          Number(kind, pairs[k].0) == Place(kind, pairs[k].1) && low <= Place(kind, pairs[k].1) < high)
  }

  lemma Extend(kind: Kind, before: seq<Pair>, part: seq<Pair>, low: nat, middle: nat, high: nat)
    requires Ordered(kind, before, low, middle) && Listed(kind, part, middle) && low <= middle && middle + |part| <= high
    ensures Ordered(kind, before + part, low, high)
  {
    hide Number, Place;
  }

  lemma {:induction false} PartsAreOrdered(kind: Kind, parts: seq<seq<Pair>>, lows: seq<nat>, low: nat)
    requires AllListed(kind, parts, lows) && low <= lows[0]
    ensures Ordered(kind, Concat(parts), low, lows[|parts|]) && low <= lows[|parts|]
  {
    hide Number, Place;
    if parts != [] {
      var n := |parts| - 1;
      PartsAreOrdered(kind, parts[..n], lows[..n + 1], low);
      Extend(kind, Concat(parts[..n]), parts[n], low, lows[n], lows[n + 1]);
    }
  }

  lemma {:induction false} PartsAreWritable(parts: seq<seq<Pair>>)
    requires forall i :: 0 <= i < |parts| ==> AllWritable(parts[i])
    ensures AllWritable(Concat(parts))
  {
    hide Writable;
    if parts != [] {
      var n := |parts| - 1;
      PartsAreWritable(parts[..n]);
      assert AllWritable(parts[n]);
    }
  }

  predicate InPart(part: seq<Pair>, low: nat, place: int) {
    low <= place < low + |part|
  }

  /** The places that have names are those of the parts. */
  lemma {:induction false} PlacesOf(kind: Kind, parts: seq<seq<Pair>>, lows: seq<nat>, place: int)
    requires AllListed(kind, parts, lows)
    ensures (exists p <- Concat(parts) :: Place(kind, p.1) == place) <==>
            exists i :: 0 <= i < |parts| && InPart(parts[i], lows[i], place)
  {
    hide Number, Place;
    if parts != [] {
      var n := |parts| - 1;
      PlacesOf(kind, parts[..n], lows[..n + 1], place);
      assert Listed(kind, parts[n], lows[n]);
      if InPart(parts[n], lows[n], place) {
        assert parts[n][place - lows[n]] in Concat(parts);
      } else {
        assert forall p <- parts[n] :: Place(kind, p.1) != place;
        assert forall i :: 0 <= i < n ==> parts[..n][i] == parts[i] && lows[..n + 1][i] == lows[i];
      }
    }
  }

  lemma OrderedIsOneToOne(kind: Kind, pairs: seq<Pair>, low: nat, high: nat)
    requires Ordered(kind, pairs, low, high)
    ensures OneToOne(pairs)
  {
    hide Place, Lower, ButtonNumber, KeyNumber, ActionNumber;
    forall i, j | 0 <= i < j < |pairs| ensures Lower(pairs[i].0) != Lower(pairs[j].0) && pairs[i].1 != pairs[j].1 {
      assert Number(kind, pairs[i].0) != Number(kind, pairs[j].0);
    }
  }

  lemma OrderedIsSayable(kind: Kind, pairs: seq<Pair>, low: nat, high: nat)
    requires Ordered(kind, pairs, low, high) && AllWritable(pairs)
    ensures forall p <- pairs :: Sayable(p.0)
  {
    Nothing(kind);
    hide Place, Lower, ButtonNumber, KeyNumber, ActionNumber;
  }

  /** Neither the empty name nor the word for "nothing" has a number. */
  lemma Nothing(kind: Kind)
    ensures Number(kind, "") == -1
    ensures forall name :: Lower(name) == "none" ==> Number(kind, name) == -1
  {
  }

  lemma AllButtonsAreListed()
    ensures AllListed(Button, ButtonParts(), BUTTON_STARTS)
  {
    FirstButtonsAreListed(); LastButtonsAreListed();
  }

  lemma AllKeysAreListed()
    ensures AllListed(Key, KeyParts(), KEY_STARTS)
  {
    hide Listed, Number, Place, FirstFunctionKeys, LastFunctionKeys, FirstDigitKeys, LastDigitKeys, LeftTopKeys, RightTopKeys,
         LeftHomeKeys, RightHomeKeys, LeftBottomKeys, RightBottomKeys, SpaceKeys, ArrowKeys, MenuKeys, FirstNumpadKeys,
         MiddleNumpadKeys, LastNumpadKeys, OperatorKeys, ShiftKeys, AltKeys;
    FirstFunctionKeysAreListed(); LastFunctionKeysAreListed(); FirstDigitKeysAreListed(); LastDigitKeysAreListed();
    LeftTopKeysAreListed(); RightTopKeysAreListed(); LeftHomeKeysAreListed(); RightHomeKeysAreListed();
    LeftBottomKeysAreListed(); RightBottomKeysAreListed(); SpaceKeysAreListed(); ArrowKeysAreListed();
    MenuKeysAreListed(); FirstNumpadKeysAreListed(); MiddleNumpadKeysAreListed(); LastNumpadKeysAreListed();
    OperatorKeysAreListed(); ShiftKeysAreListed(); AltKeysAreListed();
  }

  lemma AllMouseButtonsAreListed()
    ensures AllListed(Mouse, MouseParts(), MOUSE_STARTS)
  {
    ClickButtonsAreListed(); WheelButtonsAreListed();
  }

  lemma AllActionsAreListed()
    ensures AllListed(Action, ActionParts(), ACTION_STARTS)
  {
    MovementActionsAreListed(); BodyActionsAreListed(); FireActionsAreListed(); WeaponActionsAreListed();
    DriveActionsAreListed(); VehicleActionsAreListed(); MenuActionsAreListed();
  }

  /** The tables of the game: no name or value twice in one, no key with the name of a mouse button. */
  lemma GameNamesAreGood()
    ensures GoodNames(GameNames()) && ActionsInRange(GameNames().actions)
  {
    AllButtonsAreListed();
    AllKeysAreListed();
    AllMouseButtonsAreListed();
    AllActionsAreListed();
    NamesAreWritable();
    var names := GameNames();
    hide Concat, ButtonParts, KeyParts, MouseParts, ActionParts;
    TableIsGood(Button, ButtonParts(), BUTTON_STARTS, 0);
    TableIsGood(Key, KeyParts(), KEY_STARTS, 0);
    TableIsGood(Mouse, MouseParts(), MOUSE_STARTS, 256);
    TableIsGood(Action, ActionParts(), ACTION_STARTS, 0);
    KeysAreNotMouseButtons(names.keys, names.mouse);
    ActionsAreInRange(names.actions);
  }

  lemma TableIsGood(kind: Kind, parts: seq<seq<Pair>>, lows: seq<nat>, low: nat)
    requires AllListed(kind, parts, lows) && low <= lows[0] && (forall i :: 0 <= i < |parts| ==> AllWritable(parts[i]))
    ensures Ordered(kind, Concat(parts), low, lows[|parts|]) && OneToOne(Concat(parts))
    ensures forall p <- Concat(parts) :: Sayable(p.0)
  {
    PartsAreOrdered(kind, parts, lows, low);
    PartsAreWritable(parts);
    OrderedIsOneToOne(kind, Concat(parts), low, lows[|parts|]);
    OrderedIsSayable(kind, Concat(parts), low, lows[|parts|]);
  }

  /** Every name is one that the console can read back. */
  lemma NamesAreWritable()
    ensures forall i :: 0 <= i < |ButtonParts()| ==> AllWritable(ButtonParts()[i])
    ensures forall i :: 0 <= i < |KeyParts()| ==> AllWritable(KeyParts()[i])
    ensures forall i :: 0 <= i < |MouseParts()| ==> AllWritable(MouseParts()[i])
    ensures forall i :: 0 <= i < |ActionParts()| ==> AllWritable(ActionParts()[i])
  {
    ButtonNamesAreWritable(); FunctionKeyNamesAreWritable(); TopKeyNamesAreWritable(); LowerKeyNamesAreWritable();
    MenuKeyNamesAreWritable(); NumpadKeyNamesAreWritable(); ShiftKeyNamesAreWritable(); MouseNamesAreWritable();
    MovementNamesAreWritable(); WeaponNamesAreWritable(); DriveNamesAreWritable(); VehicleNamesAreWritable();
    hide AllWritable;
  }

  lemma KeysAreNotMouseButtons(keys: seq<Pair>, mouse: seq<Pair>)
    requires Ordered(Key, keys, 0, KEYS) && Ordered(Mouse, mouse, 256, 256 + MOUSE_BUTTONS)
    ensures forall k <- keys, m <- mouse :: Lower(k.0) != Lower(m.0)
  {
    hide Lower, ButtonNumber, KeyNumber, ActionNumber;
    forall k, m | k in keys && m in mouse ensures Lower(k.0) != Lower(m.0) {
      assert Number(Key, k.0) != Number(Mouse, m.0);
    }
  }

  lemma ActionsAreInRange(actions: seq<Pair>)
    requires Ordered(Action, actions, 0, 31)
    ensures forall a <- actions :: 0 <= a.1 < ACTIONS && a.1 != VEHICLE_EXIT
  {
    hide Number;
  }

  // ----- Which codes have names -----

  lemma NamedIff(kind: Kind, parts: seq<seq<Pair>>, lows: seq<nat>, low: nat, code: int, count: int)
    requires AllListed(kind, parts, lows) && low <= lows[0] && (forall i :: 0 <= i < |parts| ==> AllWritable(parts[i]))
    requires kind == Button || kind == Key || kind == Mouse
    ensures Printed(Concat(parts), code, count) != "" <==>
            0 <= code < count && exists i :: 0 <= i < |parts| && InPart(parts[i], lows[i], Place(kind, code))
  {
    TableIsGood(kind, parts, lows, low);
    PlacesOf(kind, parts, lows, Place(kind, code));
    NameOfIsThere(Concat(parts), code);
    hide Concat, AllListed, AllWritable, Ordered, OneToOne, InPart;
  }

  /** All key codes have a name but the three Windows keys, which never work, and one that is not used. */
  predicate NamedKey(code: int) {
    0 <= code < KEYS && code !in {0x46, 0x4A, 0x68, 0x6B}
  }

  predicate NamedMouseButton(code: int) {
    0 <= code < MOUSE_BUTTONS && !(5 <= code < 8)
  }

  lemma KeyInPart(code: int)
    requires exists i :: 0 <= i < |KeyParts()| && InPart(KeyParts()[i], KEY_STARTS[i], code)
    ensures NamedKey(code)
  {
  }

  lemma PartOfKey(code: int) returns (i: nat)
    requires NamedKey(code)
    ensures i < |KeyParts()| && InPart(KeyParts()[i], KEY_STARTS[i], code)
  {
    i := if code < 8 then 0 else if code < 16 then 1 else if code < 23 then 2 else if code < 30 then 3 else
         if code < 37 then 4 else if code < 44 then 5 else if code < 51 then 6 else if code < 57 then 7 else
         if code < 64 then 8 else if code < 70 then 9 else if code < 74 then 10 else if code < 81 then 11 else
         if code < 87 then 12 else if code < 92 then 13 else if code < 96 then 14 else if code < 100 then 15 else
         if code < 104 then 16 else if code < 107 then 17 else 18;
  }

  lemma KeyIsNamedIff(code: int)
    ensures Printed(GameNames().keys, code, KEYS) != "" <==> NamedKey(code)
  {
    AllKeysAreListed();
    NamesAreWritable();
    NamedIff(Key, KeyParts(), KEY_STARTS, 0, code, KEYS);
    if NamedKey(code) {
      var i := PartOfKey(code);
    }
    hide KeyParts, Concat, AllListed, AllWritable, Printed, InPart;
    if exists i :: 0 <= i < |KeyParts()| && InPart(KeyParts()[i], KEY_STARTS[i], code) {
      KeyInPart(code);
    }
  }

  lemma MouseButtonIsNamedIff(code: int)
    ensures Printed(GameNames().mouse, code, MOUSE_BUTTONS) != "" <==> NamedMouseButton(code)
  {
    AllMouseButtonsAreListed();
    NamesAreWritable();
    NamedIff(Mouse, MouseParts(), MOUSE_STARTS, 256, code, MOUSE_BUTTONS);
    hide Concat, AllListed, AllWritable, Printed;
    assert InPart(MouseParts()[0], 256, 256 + code) <==> 0 <= code < 5;
    assert InPart(MouseParts()[1], 264, 256 + code) <==> 8 <= code < 10;
  }

  lemma ButtonIsNamedIff(code: int)
    ensures Printed(GameNames().buttons, code, BUTTONS) != "" <==> 0 <= code < BUTTONS
  {
    AllButtonsAreListed();
    NamesAreWritable();
    NamedIff(Button, ButtonParts(), BUTTON_STARTS, 0, code, BUTTONS);
    hide Concat, AllListed, AllWritable, Printed;
    assert InPart(ButtonParts()[0], 0, code) <==> 0 <= code < 8;
    assert InPart(ButtonParts()[1], 8, code) <==> 8 <= code < 16;
  }

  /** A slot that the game keeps: a named key alone, a named mouse button alone unless the action is on the keyboard
      only, or nothing. */
  predicate KeptSlot(action: int, key: int, mouse: int) {
    && (key == UNBOUND || (NamedKey(key) && mouse == UNBOUND))
    && (mouse == UNBOUND || (NamedMouseButton(mouse) && action < CONTROLLER_ACTIONS))
  }

  lemma KeptSlotIff(action: int, key: int, mouse: int)
    ensures CanonicalSlot(GameNames(), action, key, mouse) <==> KeptSlot(action, key, mouse)
  {
    KeyIsNamedIff(key);
    MouseButtonIsNamedIff(mouse);
    hide Printed, GameNames;
  }

  /** An action whose slots are both kept, the first one not empty before the second, and whose controller button exists
      or is unbound. */
  predicate Kept(t: Table, action: int)
    requires t.Valid() && 0 <= action < ACTIONS
  {
    var s := t.keys[action];
    && KeptSlot(action, s.primaryKey, s.primaryMouse) && KeptSlot(action, s.secondaryKey, s.secondaryMouse)
    && (s.primaryKey == UNBOUND && s.primaryMouse == UNBOUND ==> s.secondaryKey == UNBOUND && s.secondaryMouse == UNBOUND)
    && (action < CONTROLLER_ACTIONS ==> t.buttons[action] == UNBOUND || 0 <= t.buttons[action] < BUTTONS)
  }

  /** An action is bound to the same after the bindings have been saved and executed in another table. */
  ghost predicate Survives(names: Names, saved: Table, t: Table, action: int) {
    && saved.Valid() && t.Valid() && 0 <= action < ACTIONS && ActionsInRange(names.actions)
    && At(ExecuteLines(names, t, Lines(Export(names, saved))), action) == At(saved, action)
  }

  /** With the game's own tables, what a named action is bound to survives, whatever table it is loaded into, exactly
      when it is kept. */
  lemma GameActionSurvivesIff(saved: Table, t: Table, action: Pair)
    requires saved.Valid() && t.Valid() && action in GameNames().actions
    ensures 0 <= action.1 < ACTIONS
    ensures Survives(GameNames(), saved, t, action.1) <==> Kept(saved, action.1)
  {
    hide GameNames, GoodNames, ExecuteLines, Export, Printed, CanonicalSlot, KeptSlot;
    GameNamesAreGood();
    ActionSurvivesIff(GameNames(), saved, t, action);
    var s := saved.keys[action.1];
    KeptSlotIff(action.1, s.primaryKey, s.primaryMouse);
    KeptSlotIff(action.1, s.secondaryKey, s.secondaryMouse);
    if action.1 < CONTROLLER_ACTIONS {
      ButtonIsNamedIff(saved.buttons[action.1]);
    }
  }

  // ----- A binding that is lost -----

  lemma {:induction false} PartIsInTable(parts: seq<seq<Pair>>, i: nat, p: Pair)
    requires i < |parts| && p in parts[i]
    ensures p in Concat(parts)
  {
    if i < |parts| - 1 {
      PartIsInTable(parts[..|parts| - 1], i, p);
    }
  }

  function Unbound(): Slots {
    Slots(UNBOUND, UNBOUND, UNBOUND, UNBOUND)
  }

  /** Nothing is bound, but Jump to the space bar and the left mouse button in one slot. */
  function JumpOnBoth(): (t: Table)
    ensures t.Valid()
  {
    Table(seq(CONTROLLER_ACTIONS, _ => UNBOUND), seq(CONTROLLER_ACTIONS, _ => false),
          seq(ACTIONS, i => if i == 16 then Slots(72, 0, UNBOUND, UNBOUND) else Unbound()))
  }

  /** Saved and loaded again, it is not bound to both. */
  lemma JumpIsLostExample(t: Table)
    requires t.Valid()
    ensures ("Jump", 16) in GameNames().actions && !Survives(GameNames(), JumpOnBoth(), t, 16)
  {
    assert ("Jump", 16) == ActionParts()[1][0];
    PartIsInTable(ActionParts(), 1, ("Jump", 16));
    assert ("Jump", 16) in GameNames().actions;
    assert JumpOnBoth().keys[16] == Slots(72, 0, UNBOUND, UNBOUND);
    hide Concat, ActionParts, KeyParts, ButtonParts, MouseParts, GameNames, Survives, JumpOnBoth;
    GameActionSurvivesIff(JumpOnBoth(), t, ("Jump", 16));
  }
}
