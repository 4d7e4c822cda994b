/** The stack of contexts that take over the game's input (ElDorito/Source/Patches/Input.cpp:32-34, 80-97, 138-200,
    222-229). */
module InputContexts {

  const INPUT_TYPES: nat := 3

  /** What is called on a context. An entry of the stack is known by the number of contexts pushed before it. */
  datatype Call = Activated(entry: nat) | Deactivated(entry: nat) | Ticked(entry: nat)

  /** `flags` are the engine's block flags, `requests` what the game last asked for. */
  datatype State = State(stack: seq<nat>, done: bool, requests: seq<bool>, flags: seq<bool>, log: seq<Call>, pushed: nat)

  /** `result` is what the context's tick returns, `pushes` how many contexts are pushed during the tick or, where there
      is none to tick, by the default handlers. */
  datatype Event =
    | Push
    | GameTick(result: bool, pushes: nat)
    | UiTick(result: bool, pushes: nat)
    | Request(kind: nat, blocked: bool)

  function All(blocked: bool): (r: seq<bool>)
    ensures |r| == INPUT_TYPES && forall b <- r :: b == blocked
  {
    [blocked, blocked, blocked]
  }

  const INITIAL: State := State([], false, All(false), All(false), [], 0)

  function Top(st: State): nat
    requires st.stack != []
  {
    st.stack[|st.stack| - 1]
  }

  function PushOne(st: State): State {
    var entry := st.pushed;
    var pushed := st.(stack := st.stack + [entry], pushed := entry + 1);
    if st.stack == [] then pushed.(flags := All(true), log := st.log + [Activated(entry)])
    else pushed.(log := st.log + [Deactivated(Top(st)), Activated(entry)])
  }

  function PushMany(st: State, n: nat): State {
    if n == 0 then st else PushOne(PushMany(st, n - 1))
  }

  function Pop(st: State): State
    requires st.stack != []
  {
    var rest := st.stack[..|st.stack| - 1];
    if rest == [] then st.(stack := rest, log := st.log + [Deactivated(Top(st))], flags := st.requests)
    else st.(stack := rest, log := st.log + [Deactivated(Top(st)), Activated(rest[|rest| - 1])])
  }

  /** The active context is ticked with nothing blocked, and everything is blocked again afterwards. */
  function TickTop(st: State, result: bool, pushes: nat): State
    requires st.stack != []
  {
    var ticked := PushMany(st.(flags := All(false), log := st.log + [Ticked(Top(st))]), pushes);
    ticked.(done := st.done || !result, flags := All(true))
  }

  function Step(st: State, ev: Event): State
    requires st.done ==> st.stack != []
  {
    match ev
    case Push => PushOne(st)
    case GameTick(result, pushes) =>
      var t := if st.done then Pop(st).(done := false) else st;
      if t.stack != [] then TickTop(t, result, pushes) else PushMany(t, pushes)
    case UiTick(result, pushes) => if st.stack == [] then st else TickTop(st, result, pushes)
    case Request(kind, blocked) =>
      if kind >= |st.requests| || kind >= |st.flags| then st
      else st.(requests := st.requests[kind := blocked], flags := if st.stack == [] then st.flags[kind := blocked] else st.flags)
  }

  // ----- What the contexts see -----

  /** An entry has been activated and not deactivated since. */
  predicate Active(log: seq<Call>, entry: nat) {
    if log == [] then false
    else
      var call := log[|log| - 1];
      if call == Activated(entry) then true
      else if call == Deactivated(entry) then false
      else Active(log[..|log| - 1], entry)
  }

  /** Its calls alternate, from an activation on; and it is ticked only while it is active. */
  predicate Orderly(log: seq<Call>, entry: nat) {
    log == [] ||
    var before, call := log[..|log| - 1], log[|log| - 1];
    && Orderly(before, entry)
    && (call == Activated(entry) ==> !Active(before, entry))
    && (call == Deactivated(entry) || call == Ticked(entry) ==> Active(before, entry))
  }

  /** The top of the stack and nothing else is active; every context has been called in order. */
  ghost predicate WellCalled(st: State) {
    && (forall i, j :: 0 <= i < j < |st.stack| ==> st.stack[i] != st.stack[j])
    && (forall entry <- st.stack :: entry < st.pushed)
    && (forall entry: nat :: Active(st.log, entry) <==> st.stack != [] && entry == Top(st))
    && (forall entry: nat :: Orderly(st.log, entry))
  }

  /** A pending end belongs to some context; while there are contexts all input is blocked, and otherwise the flags are
      what the game last asked for. */
  ghost predicate Sound(st: State) {
    && WellCalled(st)
    && |st.requests| == |st.flags| == INPUT_TYPES
    && (st.done ==> st.stack != [])
    && st.flags == if st.stack != [] then All(true) else st.requests
  }

  lemma CallOne(log: seq<Call>, call: Call, entry: nat)
    ensures Active(log + [call], entry) ==
            if call == Activated(entry) then true else if call == Deactivated(entry) then false else Active(log, entry)
    ensures Orderly(log + [call], entry) <==>
            Orderly(log, entry) && (call == Activated(entry) ==> !Active(log, entry))
            && (call == Deactivated(entry) || call == Ticked(entry) ==> Active(log, entry))
  {
    assert (log + [call])[..|log|] == log;
  }

  lemma CallTwo(log: seq<Call>, first: Call, second: Call, entry: nat)
    requires Orderly(log, entry) && first.entry != second.entry && first.Deactivated? && second.Activated?
    requires Active(log, entry) <==> entry == first.entry
    ensures Active(log + [first, second], entry) <==> entry == second.entry
    ensures Orderly(log + [first, second], entry)
  {
    assert log + [first, second] == (log + [first]) + [second];
    CallOne(log, first, entry);
    CallOne(log + [first], second, entry);
  }

  /** The calls on a change of the active context. */
  lemma Switched(st: State, next: State)
    requires WellCalled(st) && st.stack != [] && next.stack != [] && Top(next) != Top(st)
    requires next.log == st.log + [Deactivated(Top(st)), Activated(Top(next))]
    ensures forall entry: nat :: (Active(next.log, entry) <==> entry == Top(next)) && Orderly(next.log, entry)
  {
    forall entry: nat ensures (Active(next.log, entry) <==> entry == Top(next)) && Orderly(next.log, entry) {
      CallTwo(st.log, Deactivated(Top(st)), Activated(Top(next)), entry);
    }
  }

  lemma PushIsWellCalled(st: State)
    requires WellCalled(st)
    ensures WellCalled(PushOne(st))
  {
    var next := PushOne(st);
    forall i | 0 <= i < |st.stack| ensures next.stack[i] == st.stack[i] < st.pushed {
      assert st.stack[i] in st.stack;
    }
    if st.stack == [] {
      forall entry: nat ensures (Active(next.log, entry) <==> entry == Top(next)) && Orderly(next.log, entry) {
        CallOne(st.log, Activated(st.pushed), entry);
      }
    } else {
      assert Top(st) in st.stack;
      Switched(st, next);
    }
    hide Active, Orderly;
  }

  lemma PopIsWellCalled(st: State)
    requires WellCalled(st) && st.stack != []
    ensures WellCalled(Pop(st))
  {
    var next := Pop(st);
    assert forall entry <- next.stack :: entry in st.stack;
    if next.stack == [] {
      forall entry: nat ensures !Active(next.log, entry) && Orderly(next.log, entry) {
        CallOne(st.log, Deactivated(Top(st)), entry);
      }
    } else {
      Switched(st, next);
    }
    hide Active, Orderly;
  }

  lemma {:induction false} PushManyIsWellCalled(st: State, n: nat)
    requires WellCalled(st)
    ensures WellCalled(PushMany(st, n))
    ensures var t := PushMany(st, n);
            && t.requests == st.requests && t.done == st.done && |t.stack| == |st.stack| + n
            && (st.stack != [] ==> t.flags == st.flags) && (st.stack == [] && n > 0 ==> t.flags == All(true))
            && (n == 0 ==> t == st)
  {
    if n > 0 {
      PushManyIsWellCalled(st, n - 1);
      PushIsWellCalled(PushMany(st, n - 1));
      hide WellCalled;
    }
  }

  lemma TickIsSound(st: State, result: bool, pushes: nat)
    requires Sound(st) && st.stack != []
    ensures Sound(TickTop(st, result, pushes))
  {
    var t := st.(flags := All(false), log := st.log + [Ticked(Top(st))]);
    forall entry: nat ensures (Active(t.log, entry) <==> entry == Top(t)) && Orderly(t.log, entry) {
      CallOne(st.log, Ticked(Top(st)), entry);
    }
    hide Active, Orderly;
    assert WellCalled(t);
    PushManyIsWellCalled(t, pushes);
  }

  lemma PopIsSound(st: State)
    requires Sound(st) && st.stack != []
    ensures Sound(Pop(st).(done := false))
  {
    PopIsWellCalled(st);
    hide Active, Orderly;
  }

  /** Every event keeps the invariant, whatever the contexts return and push. */
  lemma StepIsSound(st: State, ev: Event)
    requires Sound(st)
    ensures Sound(Step(st, ev))
  {
    match ev {
      case Push =>
        PushIsWellCalled(st);
        hide WellCalled;
      case GameTick(result, pushes) =>
        if st.done {
          PopIsSound(st);
        }
        var t := if st.done then Pop(st).(done := false) else st;
        if t.stack != [] {
          TickIsSound(t, result, pushes);
        } else {
          PushManyIsWellCalled(t, pushes);
        }
        hide WellCalled;
      case UiTick(result, pushes) =>
        if st.stack != [] {
          TickIsSound(st, result, pushes);
        }
      case Request(kind, blocked) =>
    }
  }

  // ----- Runs -----

  function After(st: State, events: seq<Event>): (r: State)
    requires Sound(st)
    ensures Sound(r)
  {
    if events == [] then st
    else
      var before := After(st, events[..|events| - 1]);
      StepIsSound(before, events[|events| - 1]);
      Step(before, events[|events| - 1])
  }

  /** What the game last asked for. */
  function LastRequest(events: seq<Event>, kind: nat, otherwise: bool): bool {
    if events == [] then otherwise
    else
      var ev := events[|events| - 1];
      if ev.Request? && ev.kind == kind then ev.blocked else LastRequest(events[..|events| - 1], kind, otherwise)
  }

  lemma StepRequests(st: State, ev: Event, kind: nat)
    requires Sound(st) && kind < INPUT_TYPES
    ensures |Step(st, ev).requests| == INPUT_TYPES
    ensures Step(st, ev).requests[kind] == if ev.Request? && ev.kind == kind then ev.blocked else st.requests[kind]
  {
    StepIsSound(st, ev);
    match ev {
      case Push =>
      case GameTick(result, pushes) =>
        var t := if st.done then Pop(st).(done := false) else st;
        PushManyOnly(t, pushes);
        PushManyOnly(t.(flags := All(false), log := t.log + [Ticked(if t.stack == [] then 0 else Top(t))]), pushes);
      case UiTick(result, pushes) =>
        PushManyOnly(st.(flags := All(false), log := st.log + [Ticked(if st.stack == [] then 0 else Top(st))]), pushes);
      case Request(_, _) =>
    }
    hide Sound, PushMany;
  }

  lemma {:induction false} PushManyOnly(st: State, n: nat)
    ensures PushMany(st, n).requests == st.requests
  {
    if n > 0 {
      PushManyOnly(st, n - 1);
    }
  }

  lemma {:induction false} RequestsAreLatest(events: seq<Event>, kind: nat)
    requires Sound(INITIAL) && kind < INPUT_TYPES
    ensures |After(INITIAL, events).requests| == INPUT_TYPES
    ensures After(INITIAL, events).requests[kind] == LastRequest(events, kind, false)
  {
    if events != [] {
      var before := events[..|events| - 1];
      RequestsAreLatest(before, kind);
      StepRequests(After(INITIAL, before), events[|events| - 1], kind);
      hide Sound, Step;
    }
  }

  /** In every state that is reached: exactly the top of the stack is active and every context has been called in order;
      a pending end means that there is a context; while there is one everything is blocked, and when there is none the
      engine's flags are the game's latest requests. */
  lemma ReachableIsSound(events: seq<Event>)
    ensures Sound(INITIAL)
    ensures var st := After(INITIAL, events);
            && (forall entry: nat :: Orderly(st.log, entry))
            && (forall entry: nat :: Active(st.log, entry) <==> st.stack != [] && entry == Top(st))
            && (st.done ==> st.stack != [])
            && |st.flags| == INPUT_TYPES
            && forall kind: nat :: kind < INPUT_TYPES ==>
                 st.flags[kind] == (st.stack != [] || LastRequest(events, kind, false))
  {
    var st := After(INITIAL, events);
    forall kind: nat | kind < INPUT_TYPES ensures st.flags[kind] == (st.stack != [] || LastRequest(events, kind, false)) {
      RequestsAreLatest(events, kind);
    }
    hide After, Active, Orderly, LastRequest;
  }

  // ----- Whose end it is -----

  /** The contexts when an event ticks one: the game's tick first takes off one that has ended. */
  function Ticking(st: State, ev: Event): State
    requires st.done ==> st.stack != []
  {
    if ev.GameTick? && st.done then Pop(st).(done := false) else st
  }

  /** The event ticks a context, and this one ends: its tick returns false while no other end is pending. */
  predicate Ends(st: State, ev: Event)
    requires st.done ==> st.stack != []
  {
    (ev.GameTick? || ev.UiTick?) && !ev.result && !Ticking(st, ev).done && Ticking(st, ev).stack != []
  }

  /** How many contexts an event pushes while there is one. */
  function PushesOf(ev: Event): nat {
    match ev case Push => 1 case UiTick(_, n) => n case GameTick(_, n) => n case Request(_, _) => 0
  }

  function Pushes(events: seq<Event>): nat {
    if events == [] then 0 else Pushes(events[..|events| - 1]) + PushesOf(events[|events| - 1])
  }

  /** The later state has the contexts of the earlier one under `n` that were pushed since. */
  predicate PushedOn(earlier: State, later: State, n: nat) {
    && earlier.stack <= later.stack && |later.stack| == |earlier.stack| + n && later.pushed == earlier.pushed + n
    && (n > 0 ==> Top(later) == earlier.pushed + n - 1)
  }

  lemma PushedOnMore(a: State, b: State, c: State, m: nat, n: nat)
    requires PushedOn(a, b, m) && PushedOn(b, c, n)
    ensures PushedOn(a, c, m + n)
  {
  }

  /** An event other than a tick of the game leaves a pending end pending and the contexts where they are. */
  lemma StepWhilePending(st: State, ev: Event)
    requires Sound(st) && st.done && !ev.GameTick?
    ensures Step(st, ev).done && PushedOn(st, Step(st, ev), PushesOf(ev))
  {
    match ev {
      case UiTick(_, n) => PushManyStack(st.(flags := All(false), log := st.log + [Ticked(Top(st))]), n);
      case _ =>
    }
    hide PushMany;
  }

  lemma {:induction false} PendingStack(st: State, events: seq<Event>)
    requires Sound(st) && st.done && forall ev <- events :: !ev.GameTick?
    ensures After(st, events).done && PushedOn(st, After(st, events), Pushes(events))
  {
    if events != [] {
      var before, ev := events[..|events| - 1], events[|events| - 1];
      assert ev in events && forall e <- before :: e in events;
      PendingStack(st, before);
      var mid := After(st, before);
      StepWhilePending(mid, ev);
      hide Sound, Step, PushedOn;
      PushedOnMore(st, mid, Step(mid, ev), Pushes(before), PushesOf(ev));
    }
  }

  lemma EndingStack(st: State, ev: Event)
    requires Sound(st) && Ends(st, ev)
    ensures Sound(Step(st, ev)) && Step(st, ev).done
    ensures Top(Ticking(st, ev)) < Ticking(st, ev).pushed && PushedOn(Ticking(st, ev), Step(st, ev), ev.pushes)
  {
    StepIsSound(st, ev);
    var s := Ticking(st, ev);
    if ev.GameTick? && st.done {
      PopIsSound(st);
    }
    assert WellCalled(s) && Top(s) in s.stack;
    PushManyStack(s.(flags := All(false), log := s.log + [Ticked(Top(s))]), ev.pushes);
    hide PushMany, WellCalled;
  }

  /** A context's tick returns false, and the game or the windows tick the contexts on, push others and ask for blocks
      until the game's next tick. That one takes off the context that has ended if and only if nothing was pushed, neither
      during the ending tick nor since; otherwise it takes off the one pushed last, and the ended one stays. */
  lemma EndedIsPoppedIff(st: State, ev: Event, events: seq<Event>, result: bool, more: nat)
    requires Sound(st) && Ends(st, ev) && forall e <- events :: !e.GameTick?
    ensures Sound(Step(st, ev)) && After(Step(st, ev), events).done
    ensures var ended, pending := Top(Ticking(st, ev)), After(Step(st, ev), events);
            var next := Step(pending, GameTick(result, more));
            && |next.log| > |pending.log|
            && (next.log[|pending.log|] == Deactivated(ended) <==> ev.pushes + Pushes(events) == 0)
            && (ev.pushes + Pushes(events) > 0 ==> ended in Pop(pending).stack)
  {
    EndingStack(st, ev);
    PendingStack(Step(st, ev), events);
    var pending := After(Step(st, ev), events);
    PushedOnMore(Ticking(st, ev), Step(st, ev), pending, ev.pushes, Pushes(events));
    hide After, Step, Pushes, Sound, Ticking, Ends, PushedOn, Pop, Top;
    StillUnder(Ticking(st, ev), pending, ev.pushes + Pushes(events));
    NextGameTick(pending, result, more);
  }

  lemma StillUnder(earlier: State, later: State, n: nat)
    requires PushedOn(earlier, later, n) && earlier.stack != [] && Top(earlier) < earlier.pushed
    ensures later.stack != [] && (Top(later) == Top(earlier) <==> n == 0) && (n > 0 ==> Top(earlier) in Pop(later).stack)
  {
    if n > 0 {
      assert Pop(later).stack[|earlier.stack| - 1] == Top(earlier);
    }
  }

  lemma NextGameTick(pending: State, result: bool, more: nat)
    requires pending.done && pending.stack != []
    ensures var next := Step(pending, GameTick(result, more));
            |next.log| > |pending.log| && next.log[|pending.log|] == Deactivated(Top(pending))
  {
    var t := Pop(pending).(done := false);
    TickKeepsLog(t, result, more);
    hide PushMany, TickTop;
  }

  lemma TickKeepsLog(t: State, result: bool, pushes: nat)
    ensures t.stack != [] ==> t.log <= TickTop(t, result, pushes).log
    ensures t.log <= PushMany(t, pushes).log
  {
    PushManyStack(t, pushes);
    if t.stack != [] {
      PushManyStack(t.(flags := All(false), log := t.log + [Ticked(Top(t))]), pushes);
    }
    hide PushMany;
  }

  lemma {:induction false} PushManyStack(st: State, n: nat)
    ensures var t := PushMany(st, n);
            && st.stack <= t.stack && |t.stack| == |st.stack| + n && st.log <= t.log && t.done == st.done
            && t.pushed == st.pushed + n
            && (n > 0 ==> Top(t) == st.pushed + n - 1)
  {
    if n > 0 {
      PushManyStack(st, n - 1);
    }
  }

  lemma InitialIsSound()
    ensures Sound(INITIAL)
  {
  }

  lemma OneMoreEvent(st: State, events: seq<Event>, ev: Event)
    requires Sound(st)
    ensures After(st, events + [ev]) == Step(After(st, events), ev)
  {
    assert (events + [ev])[..|events|] == events;
  }

  lemma PushOnce(st: State)
    ensures PushMany(st, 1) == PushOne(st)
  {
    assert PushMany(st, 0) == st;
  }

  lemma FirstPush()
    ensures Step(INITIAL, Push) == State([0], false, All(false), All(true), [Activated(0)], 1)
  {
  }

  /** A context pushes another one during the tick in which it ends. */
  lemma EndsAndPushes()
    ensures Step(State([0], false, All(false), All(true), [Activated(0)], 1), GameTick(false, 1)) ==
            State([0, 1], true, All(false), All(true), [Activated(0), Ticked(0), Deactivated(0), Activated(1)], 2)
  {
    var t := State([0], false, All(false), All(false), [Activated(0), Ticked(0)], 1);
    PushOnce(t);
    assert [Activated(0)] + [Ticked(0)] == t.log;
    assert PushOne(t) == State([0, 1], false, All(false), All(false), [Activated(0), Ticked(0), Deactivated(0), Activated(1)], 2);
  }

  lemma PopsThePushed()
    ensures Step(State([0, 1], true, All(false), All(true), [Activated(0), Ticked(0), Deactivated(0), Activated(1)], 2), GameTick(true, 0)) ==
            State([0], false, All(false), All(true),
                  [Activated(0), Ticked(0), Deactivated(0), Activated(1), Deactivated(1), Activated(0), Ticked(0)], 2)
  {
  }

  /** The smallest such run: the next tick takes off the new context, and the ended one takes over again. */
  lemma PushedIsPoppedExample()
    ensures Sound(INITIAL)
    ensures After(INITIAL, [Push] + [GameTick(false, 1)] + [GameTick(true, 0)]) ==
            State([0], false, All(false), All(true),
                  [Activated(0), Ticked(0), Deactivated(0), Activated(1), Deactivated(1), Activated(0), Ticked(0)], 2)
  {
    hide Sound, PushMany, TickTop, PushOne, Pop, Active, Orderly;
    InitialIsSound();
    assert After(INITIAL, []) == INITIAL && [] + [Push] == [Push];
    hide After;
    OneMoreEvent(INITIAL, [], Push);
    OneMoreEvent(INITIAL, [Push], GameTick(false, 1));
    OneMoreEvent(INITIAL, [Push] + [GameTick(false, 1)], GameTick(true, 0));
    FirstPush();
    hide Step;
    EndsAndPushes();
    PopsThePushed();
  }

  // ----- The hooks -----

  /** The stack and the block states of the patch, and the engine's block flags that it writes. */
  class InputHooks {
    var contextStack: seq<nat>
    var contextDone: bool
    const blockStates: array<bool>
    const engineFlags: array<bool>
    var log: seq<Call>
    var pushed: nat

    predicate Valid() {
      blockStates != engineFlags && blockStates.Length == INPUT_TYPES && engineFlags.Length == INPUT_TYPES
    }

    ghost function Value(): State
      reads this, blockStates, engineFlags
    {
      State(contextStack, contextDone, blockStates[..], engineFlags[..], log, pushed)
    }

    constructor ()
      ensures Valid() && fresh(blockStates) && fresh(engineFlags) && Value() == INITIAL
    {
      contextStack, contextDone, log, pushed := [], false, [], 0;
      blockStates, engineFlags := new bool[INPUT_TYPES](_ => false), new bool[INPUT_TYPES](_ => false);
    }

    method SetFlags(blocked: bool)
      requires Valid()
      modifies engineFlags
      ensures engineFlags[..] == All(blocked)
    {
      var i := 0;
      while i < INPUT_TYPES
        invariant 0 <= i <= INPUT_TYPES && forall k :: 0 <= k < i ==> engineFlags[k] == blocked
      {
        engineFlags[i] := blocked;
        i := i + 1;
      }
    }

    method RestoreFlags()
      requires Valid()
      modifies engineFlags
      ensures engineFlags[..] == blockStates[..]
    {
      var i := 0;
      while i < INPUT_TYPES
        invariant 0 <= i <= INPUT_TYPES && forall k :: 0 <= k < i ==> engineFlags[k] == blockStates[k]
      {
        engineFlags[i] := blockStates[i];
        i := i + 1;
      }
    }

    method PushContext()
      requires Valid()
      modifies this, engineFlags
      ensures Value() == PushOne(old(Value()))
    {
      if contextStack == [] {
        SetFlags(true);
      } else {
        log := log + [Deactivated(contextStack[|contextStack| - 1])];
      }
      contextStack := contextStack + [pushed];
      log := log + [Activated(pushed)];
      pushed := pushed + 1;
    }

    method PopContext()
      requires Valid() && contextStack != []
      modifies this, engineFlags
      ensures Value() == Pop(old(Value()))
    {
      log := log + [Deactivated(contextStack[|contextStack| - 1])];
      contextStack := contextStack[..|contextStack| - 1];
      if contextStack != [] {
        log := log + [Activated(contextStack[|contextStack| - 1])];
      } else {
        RestoreFlags();
      }
    }

    /** The contexts that a tick or the default handlers push. */
    method PushContexts(n: nat)
      requires Valid()
      modifies this, engineFlags
      ensures Value() == PushMany(old(Value()), n)
    {
      hide PushOne;
      var i := 0;
      while i < n
        invariant 0 <= i <= n && Value() == PushMany(old(Value()), i)
      {
        PushContext();
        i := i + 1;
      }
    }

    method TickContext(result: bool, pushes: nat)
      requires Valid() && contextStack != []
      modifies this, engineFlags
      ensures Value() == TickTop(old(Value()), result, pushes)
    {
      hide PushMany;
      SetFlags(false);
      log := log + [Ticked(contextStack[|contextStack| - 1])];
      ghost var ticked := Value();
      PushContexts(pushes);
      PushManyKeepsDone(ticked, pushes);
      if !result {
        contextDone := true;
      }
      SetFlags(true);
    }

    static lemma {:induction false} PushManyKeepsDone(st: State, n: nat)
      ensures PushMany(st, n).done == st.done && PushMany(st, n).requests == st.requests
    {
      PushManyStack(st, n);
      PushManyOnly(st, n);
    }

    method UpdateInputHook(result: bool, pushes: nat)
      requires Valid() && (contextDone ==> contextStack != [])
      modifies this, engineFlags
      ensures Value() == Step(old(Value()), GameTick(result, pushes))
    {
      hide PushMany, TickTop, Pop;
      if contextDone {
        PopContext();
        contextDone := false;
      }
      if contextStack != [] {
        TickContext(result, pushes);
      } else {
        PushContexts(pushes);
      }
    }

    method UiInputTick(result: bool, pushes: nat)
      requires Valid() && (contextDone ==> contextStack != [])
      modifies this, engineFlags
      ensures Value() == Step(old(Value()), UiTick(result, pushes))
    {
      hide PushMany, TickTop;
      if contextStack == [] {
        return;
      }
      TickContext(result, pushes);
    }

    method BlockInputHook(kind: nat, blocked: bool)
      requires Valid() && kind < INPUT_TYPES && (contextDone ==> contextStack != [])
      modifies blockStates, engineFlags
      ensures Value() == Step(old(Value()), Request(kind, blocked))
    {
      if contextStack == [] {
        engineFlags[kind] := blocked;
      }
      blockStates[kind] := blocked;
    }
  }
}
