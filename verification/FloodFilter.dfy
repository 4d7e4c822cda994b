/** The chat flood filter (ElDorito/Source/Server/ServerChat.cpp:25-39, 194-242, 358-395): leaking scores, doubling
    timeouts, pruned table. */
module FloodFilter {
  import opened Integers
  import opened Collections

  const MAX_MESSAGE_LENGTH: nat := 128

  datatype Settings = Settings(shortScore: u32, longScore: u32, timeoutScore: u32, timeoutSeconds: u32, resetSeconds: u32)

  datatype Stats = Stats(score: int, timeout: int, next: int, reset: int)

  const FRESH: Stats := Stats(0, 0, 0, 0)

  // ----- One entry -----

  /** The score of a message, in the 32-bit unsigned arithmetic of the source. */
  function Score(s: Settings, length: nat): int {
    ToInt(s.shortScore + (length * ((s.longScore + 1 - s.shortScore) % TWO_32)) % TWO_32 / (MAX_MESSAGE_LENGTH + 1))
  }

  /** What a message does to its sender's entry. */
  function Filter(s: Settings, e: Stats, length: nat): Stats {
    if e.timeout > 0 then e
    else
      var score := ToInt(e.score + Score(s, length));
      if score < ToInt(s.timeoutScore) then e.(score := score)
      else
        var next := if e.next > 0 then ToInt(e.next * 2) else ToInt(s.timeoutSeconds);
        Stats(score, next, next, ToInt(s.resetSeconds))
  }

  predicate ThrownOut(s: Settings, e: Stats, length: nat) {
    Filter(s, e, length).timeout > 0
  }

  /** What one second does to an entry. */
  function Pass(e: Stats): Stats {
    var reset := if e.timeout <= 0 && e.reset > 0 then e.reset - 1 else e.reset;
    Stats(if e.score > 0 then e.score - 1 else e.score,
          if e.timeout > 0 then e.timeout - 1 else e.timeout,
          if reset == 0 then 0 else e.next,
          reset)
  }

  predicate Idle(e: Stats) {
    e.timeout <= 0 && e.score <= 0 && e.reset <= 0
  }

  function Passes(e: Stats, n: nat): Stats {
    if n == 0 then e else Pass(Passes(e, n - 1))
  }

  function Max0(n: int): nat {
    if n > 0 then n else 0
  }

  predicate NonNegative(e: Stats) {
    e.score >= 0 && e.timeout >= 0 && e.next >= 0 && e.reset >= 0
  }

  /** Any number of seconds at once: the score and the timeout run down together, the reset only after the timeout,
      and the next timeout is forgotten when the reset is over. */
  lemma {:induction false} PassesClosedForm(e: Stats, n: nat)
    requires NonNegative(e)
    ensures var reset := Max0(e.reset - Max0(n - e.timeout));
            Passes(e, n) == Stats(Max0(e.score - n), Max0(e.timeout - n), if n > 0 && reset == 0 then 0 else e.next, reset)
  {
    if n > 0 {
      PassesClosedForm(e, n - 1);
    }
  }

  /** The score of a message: it grows evenly from the short score by as many steps as there are from the short to the long
      score and one more, over the lengths up to the longest, so that it ends at the long score. */
  lemma ScoreIs(s: Settings, length: nat)
    requires OrderedScores(s) && length <= MAX_MESSAGE_LENGTH
    ensures var d, k := s.longScore + 1 - s.shortScore, Score(s, length) - s.shortScore;
            k * 129 <= length * d < (k + 1) * 129
  {
    var d := s.longScore + 1 - s.shortScore;
    ProductBounds(length, d);
    SmallMod(d, TWO_32);
    SmallMod(length * d, TWO_32);
    SmallToInt(s.shortScore + length * d / 129);
  }

  lemma ScoreGrows(s: Settings, a: nat, b: nat)
    requires OrderedScores(s) && a <= b <= MAX_MESSAGE_LENGTH
    ensures Score(s, a) <= Score(s, b) && Score(s, 0) == s.shortScore
    ensures s.longScore + 1 - s.shortScore <= 129 ==> Score(s, 128) == s.longScore
  {
    var d := s.longScore + 1 - s.shortScore;
    ScoreIs(s, a);
    ScoreIs(s, b);
    ScoreIs(s, 0);
    ScoreIs(s, 128);
    MoreSeconds(a, b, d);
    hide Score;
  }

  // ----- The table -----

  type Table = map<int, Stats>

  function EntryOf(t: Table, ip: int): Stats {
    if ip in t then t[ip] else FRESH
  }

  /** A message finds its sender's entry, or makes a fresh one. */
  function FilterTable(s: Settings, t: Table, ip: int, length: nat): Table {
    t[ip := Filter(s, EntryOf(t, ip), length)]
  }

  /** One second for every entry; those that have become idle are erased. */
  function PassTable(t: Table): Table {
    map ip | ip in t && !Idle(Pass(t[ip])) :: Pass(t[ip])
  }

  function PassesTable(t: Table, n: nat): Table {
    if n == 0 then t else PassTable(PassesTable(t, n - 1))
  }

  /** The filter: its table, the milliseconds since the last pass, and the time of the last tick. */
  datatype State = State(table: Table, updateMs: u32, lastTimeMs: u32)

  /** Messages are those that are put to the filter: while it is enabled, those of remote peers. */
  datatype Event = Message(ip: int, length: nat) | Tick(now: u32)

  /** The milliseconds that a tick has to account for. */
  function Pending(st: State, now: u32): u32 {
    (st.updateMs + (now - st.lastTimeMs) % TWO_32) % TWO_32
  }

  function PassCount(st: State, ev: Event): nat {
    match ev case Message(_, _) => 0 case Tick(now) => Pending(st, now) / 1000
  }

  function Step(s: Settings, st: State, ev: Event): State {
    match ev
    case Message(ip, length) => st.(table := FilterTable(s, st.table, ip, length))
    case Tick(now) => State(PassesTable(st.table, PassCount(st, ev)), Pending(st, now) % 1000, now)
  }

  /** The score that a message of one sender adds to those let through: nothing if it is thrown out. */
  function Accepted(s: Settings, st: State, ev: Event, ip: int): int {
    if ev.Message? && ev.ip == ip && !ThrownOut(s, EntryOf(st.table, ip), ev.length) then Score(s, ev.length) else 0
  }

  function After(s: Settings, st: State, events: seq<Event>): State {
    if events == [] then st
    else Step(s, After(s, st, events[..|events| - 1]), events[|events| - 1])
  }

  function TotalPasses(s: Settings, st: State, events: seq<Event>): nat {
    if events == [] then 0
    else
      var before := events[..|events| - 1];
      TotalPasses(s, st, before) + PassCount(After(s, st, before), events[|events| - 1])
  }

  /** The sum of the scores of one sender's messages that got through. */
  function TotalAccepted(s: Settings, st: State, events: seq<Event>, ip: int): int {
    if events == [] then 0
    else
      var before := events[..|events| - 1];
      TotalAccepted(s, st, before, ip) + Accepted(s, After(s, st, before), events[|events| - 1], ip)
  }

  // ----- What nothing wrapping means -----

  /** A message that finds its sender in this entry meets no 32-bit limit: its score is not negative as an `int`, and
      neither the sum of scores nor the doubled timeout overflows. A sender in a timeout meets none in any case. */
  predicate NoWrap(s: Settings, e: Stats, length: nat) {
    e.timeout <= 0 ==>
      && 0 <= Score(s, length) && e.score + Score(s, length) < TWO_31
      && (e.score + Score(s, length) >= ToInt(s.timeoutScore) ==> 2 * e.next < TWO_31)
  }

  /** No message of one sender meets a limit in the course of a run. */
  predicate Unwrapped(s: Settings, st: State, events: seq<Event>, ip: int) {
    events == [] ||
    var before, ev := events[..|events| - 1], events[|events| - 1];
    && Unwrapped(s, st, before, ip)
    && (ev.Message? && ev.ip == ip ==> NoWrap(s, EntryOf(After(s, st, before).table, ip), ev.length))
  }

  /** The filter as it is meant, in unbounded numbers. */
  function IntendedFilter(s: Settings, e: Stats, score: int): Stats {
    if e.timeout > 0 then e
    else if e.score + score < ToInt(s.timeoutScore) then e.(score := e.score + score)
    else
      var next := if e.next > 0 then 2 * e.next else ToInt(s.timeoutSeconds);
      Stats(e.score + score, next, next, ToInt(s.resetSeconds))
  }

  /** Where nothing wraps, the filter computes what it means to. */
  lemma FilterIsIntended(s: Settings, e: Stats, length: nat)
    requires e.score >= 0 && NoWrap(s, e, length)
    ensures Filter(s, e, length) == IntendedFilter(s, e, Score(s, length))
  {
    if e.timeout <= 0 {
      SmallToInt(e.score + Score(s, length));
      if e.next > 0 && e.score + Score(s, length) >= ToInt(s.timeoutScore) {
        SmallToInt(e.next * 2);
      }
    }
    hide Score, ToInt;
  }

  // ----- The rate bound -----

  /** However many seconds pass, an entry loses at most a point in each, and being erased costs it nothing more. */
  lemma {:induction false} PassesTableScore(t: Table, ip: int, n: nat)
    requires EntryOf(t, ip).score >= 0
    ensures 0 <= EntryOf(PassesTable(t, n), ip).score && EntryOf(t, ip).score - n <= EntryOf(PassesTable(t, n), ip).score
  {
    if n > 0 {
      PassesTableScore(t, ip, n - 1);
    }
  }

  /** One event: a message that gets through adds exactly its score and leaves it below the threshold; a second takes
      at most one point away. */
  lemma RateStep(s: Settings, st: State, ev: Event, ip: int)
    requires 0 < ToInt(s.timeoutScore) && 0 < ToInt(s.timeoutSeconds) && EntryOf(st.table, ip).score >= 0
    requires ev.Message? && ev.ip == ip ==> NoWrap(s, EntryOf(st.table, ip), ev.length)
    ensures var e, after := EntryOf(st.table, ip), EntryOf(Step(s, st, ev).table, ip);
            var gain, n := Accepted(s, st, ev, ip), PassCount(st, ev);
            && 0 <= after.score && 0 <= gain && e.score + gain <= after.score + n
            && (gain > 0 ==> n == 0 && after.score == e.score + gain < ToInt(s.timeoutScore))
  {
    match ev {
      case Message(sender, length) =>
        if sender == ip {
          FilterIsIntended(s, EntryOf(st.table, ip), length);
        }
        hide Score, Filter, ToInt;
      case Tick(_) =>
        PassesTableScore(st.table, ip, PassCount(st, ev));
    }
  }

  /** The rate bound, with what makes it inductive: what got through is still in the sender's score, except for what
      leaked away since. */
  lemma {:induction false} RateBoundFrom(s: Settings, st: State, events: seq<Event>, ip: int)
    requires 0 < ToInt(s.timeoutScore) && 0 < ToInt(s.timeoutSeconds) && EntryOf(st.table, ip).score >= 0
    requires Unwrapped(s, st, events, ip)
    ensures var total, n := TotalAccepted(s, st, events, ip), TotalPasses(s, st, events);
            && 0 <= EntryOf(After(s, st, events).table, ip).score
            && 0 <= total <= EntryOf(After(s, st, events).table, ip).score + n
            && total <= ToInt(s.timeoutScore) - 1 + n
  {
    if events != [] {
      var before, ev := events[..|events| - 1], events[|events| - 1];
      RateBoundFrom(s, st, before, ip);
      hide Step, Accepted, NoWrap, ToInt, PassCount;
      RateStep(s, After(s, st, before), ev, ip);
    }
  }

  /** In any window of any run from an empty table in which nothing of one sender wraps, the scores of the sender's
      messages that get through sum to at most the threshold minus one plus the number of seconds in the window,
      whatever timeouts, erasures and returns there are in between. */
  lemma RateBound(s: Settings, st0: State, earlier: seq<Event>, window: seq<Event>, ip: int)
    requires 0 < ToInt(s.timeoutScore) && 0 < ToInt(s.timeoutSeconds) && st0.table == map[]
    requires Unwrapped(s, st0, earlier, ip) && Unwrapped(s, After(s, st0, earlier), window, ip)
    ensures var st := After(s, st0, earlier);
            TotalAccepted(s, st, window, ip) <= ToInt(s.timeoutScore) - 1 + TotalPasses(s, st, window)
  {
    RateBoundFrom(s, st0, earlier, ip);
    hide ToInt, Unwrapped, After, TotalAccepted, TotalPasses;
    RateBoundFrom(s, After(s, st0, earlier), window, ip);
  }

  // ----- The condition on the length of a timeout is needed -----

  /** The same message again and again. */
  function Repeated(ip: int, length: nat, n: nat): seq<Event> {
    seq(n, _ => Message(ip, length))
  }

  /** Nobody is ever timed out for no time at all, nor for one that is negative as an `int`: however often a sender
      repeats a message, it gets through, until the score overflows. */
  lemma {:induction false} NoTimeoutNoFilter(s: Settings, st: State, ip: int, length: nat, n: nat)
    requires ToInt(s.timeoutSeconds) <= 0 <= Score(s, length)
    requires ip !in st.table && n * Score(s, length) < TWO_31
    ensures var events := Repeated(ip, length, n);
            && TotalAccepted(s, st, events, ip) == n * Score(s, length)
            && TotalPasses(s, st, events) == 0
            && Unwrapped(s, st, events, ip)
            && var e := EntryOf(After(s, st, events).table, ip);
               e.score == n * Score(s, length) && e.timeout <= 0 && e.next <= 0
  {
    if n > 0 {
      var events := Repeated(ip, length, n);
      assert events[..n - 1] == Repeated(ip, length, n - 1);
      OneMore(n - 1, Score(s, length));
      NonNegativeProduct(n - 1, Score(s, length));
      NoTimeoutNoFilter(s, st, ip, length, n - 1);
      var mid := After(s, st, events[..n - 1]);
      hide Score, ToInt, After, TotalAccepted, TotalPasses, Unwrapped, Repeated;
      RepeatedOnce(s, mid, ip, length);
      LastEvent(s, st, events, ip);
    }
  }

  lemma RepeatedOnce(s: Settings, st: State, ip: int, length: nat)
    requires ToInt(s.timeoutSeconds) <= 0 <= Score(s, length)
    requires var e := EntryOf(st.table, ip);
             e.timeout <= 0 && e.next <= 0 <= e.score && e.score + Score(s, length) < TWO_31
    ensures var e, ev := EntryOf(st.table, ip), Message(ip, length);
            && NoWrap(s, e, length) && Accepted(s, st, ev, ip) == Score(s, length)
            && var after := EntryOf(Step(s, st, ev).table, ip);
               after.score == e.score + Score(s, length) && after.timeout <= 0 && after.next <= 0
  {
    assert NoWrap(s, EntryOf(st.table, ip), length);
    FilterIsIntended(s, EntryOf(st.table, ip), length);
    hide Score, ToInt, Filter, NoWrap;
  }

  lemma LastEvent(s: Settings, st: State, events: seq<Event>, ip: int)
    requires events != []
    ensures var before, ev := events[..|events| - 1], events[|events| - 1];
            var mid := After(s, st, before);
            && After(s, st, events) == Step(s, mid, ev)
            && TotalPasses(s, st, events) == TotalPasses(s, st, before) + PassCount(mid, ev)
            && TotalAccepted(s, st, events, ip) == TotalAccepted(s, st, before, ip) + Accepted(s, mid, ev, ip)
            && (Unwrapped(s, st, events, ip) <==>
                  && Unwrapped(s, st, before, ip)
                  && (ev.Message? && ev.ip == ip ==> NoWrap(s, EntryOf(mid.table, ip), ev.length)))
  {
  }

  /** The rate bound for all senders and all runs from an empty table in which nothing wraps. */
  ghost predicate RateIsBounded(s: Settings) {
    forall st: State, events: seq<Event>, ip: int :: st.table == map[] && Unwrapped(s, st, events, ip) ==>
      TotalAccepted(s, st, events, ip) <= ToInt(s.timeoutScore) - 1 + TotalPasses(s, st, events)
  }

  /** It holds if and only if threshold and timeout are positive as 32-bit `int`s, given some message that scores and
      can reach the threshold without wrapping. */
  lemma RateBoundIffTimeouts(s: Settings, length: nat)
    requires 0 < Score(s, length) && ToInt(s.timeoutScore) + Score(s, length) <= TWO_31
    ensures RateIsBounded(s) <==> 0 < ToInt(s.timeoutScore) && 0 < ToInt(s.timeoutSeconds)
  {
    var st := State(map[], 0, 0);
    if 0 < ToInt(s.timeoutScore) && 0 < ToInt(s.timeoutSeconds) {
      forall st: State, events: seq<Event>, ip: int | st.table == map[] && Unwrapped(s, st, events, ip)
        ensures TotalAccepted(s, st, events, ip) <= ToInt(s.timeoutScore) - 1 + TotalPasses(s, st, events)
      {
        RateBoundFrom(s, st, events, ip);
      }
    } else if ToInt(s.timeoutScore) <= 0 {
      var none: seq<Event> := [];
      assert Unwrapped(s, st, none, 0);
      assert TotalAccepted(s, st, none, 0) > ToInt(s.timeoutScore) - 1 + TotalPasses(s, st, none);
    } else {
      BoundBroken(s, st, length);
    }
  }

  /** A timeout of 2^31 seconds, with the default scores: five short messages get through at once. */
  lemma HugeTimeoutExample()
    ensures var s, st, events := Settings(2, 5, 10, 0x8000_0000, 1800), State(map[], 0, 0), Repeated(1, 1, 5);
            && Unwrapped(s, st, events, 1) && TotalPasses(s, st, events) == 0
            && TotalAccepted(s, st, events, 1) == 10 > ToInt(s.timeoutScore) - 1
  {
    var s := Settings(2, 5, 10, 0x8000_0000, 1800);
    assert Score(s, 1) == 2;
    NoTimeoutNoFilter(s, State(map[], 0, 0), 1, 1, 5);
    hide Unwrapped, TotalAccepted, TotalPasses, After, Repeated;
  }

  lemma BoundBroken(s: Settings, st: State, length: nat)
    requires ToInt(s.timeoutSeconds) <= 0 < ToInt(s.timeoutScore) && st.table == map[]
    requires 0 < Score(s, length) && ToInt(s.timeoutScore) + Score(s, length) <= TWO_31
    ensures exists events: seq<Event> :: Unwrapped(s, st, events, 0) &&
              TotalAccepted(s, st, events, 0) > ToInt(s.timeoutScore) - 1 + TotalPasses(s, st, events)
  {
    var n := Enough(ToInt(s.timeoutScore), Score(s, length));
    EnoughIs(ToInt(s.timeoutScore), Score(s, length));
    hide ToInt, Score, Unwrapped, TotalAccepted, TotalPasses, After, Enough;
    NoTimeoutNoFilter(s, st, 0, length, n);
    assert Unwrapped(s, st, Repeated(0, length, n), 0);
  }

  /** The least number of messages that reach a threshold. */
  function Enough(threshold: nat, score: nat): nat
    requires score > 0
  {
    (threshold + score - 1) / score
  }

  lemma EnoughIs(threshold: nat, score: nat)
    requires score > 0
    ensures threshold <= Enough(threshold, score) * score < threshold + score
  {
    var m := threshold + score - 1;
    assert m == m / score * score + m % score;
  }

  // ----- Erasing idle entries changes nothing -----

  /** An entry that a pass leaves idle is a fresh one. */
  lemma IdleIsFresh(e: Stats)
    requires NonNegative(e)
    ensures Idle(Pass(e)) <==> Pass(e) == FRESH
  {
  }

  lemma {:induction false} PassesTableEntry(t: Table, ip: int, n: nat)
    requires NonNegative(EntryOf(t, ip))
    ensures EntryOf(PassesTable(t, n), ip) == Passes(EntryOf(t, ip), n) && NonNegative(Passes(EntryOf(t, ip), n))
  {
    if n > 0 {
      PassesTableEntry(t, ip, n - 1);
      IdleIsFresh(Passes(EntryOf(t, ip), n - 1));
    }
  }

  /** How one event changes the entry of any sender, present in the table or not. */
  lemma StepEntry(s: Settings, st: State, ev: Event, ip: int)
    requires NonNegative(EntryOf(st.table, ip))
    ensures EntryOf(Step(s, st, ev).table, ip) ==
            match ev
            case Message(sender, length) => if sender == ip then Filter(s, EntryOf(st.table, ip), length) else EntryOf(st.table, ip)
            case Tick(_) => Passes(EntryOf(st.table, ip), PassCount(st, ev))
  {
    if ev.Tick? {
      PassesTableEntry(st.table, ip, PassCount(st, ev));
    }
    hide Filter, Passes, PassesTable, PassCount;
  }

  /** The same filter with a table from which nothing is erased: an entry for every sender. */
  function StepUnpruned(s: Settings, entries: int -> Stats, st: State, ev: Event): int -> Stats {
    match ev
    case Message(sender, length) => ip => if ip == sender then Filter(s, entries(ip), length) else entries(ip)
    case Tick(_) => ip => Passes(entries(ip), PassCount(st, ev))
  }

  function Unpruned(s: Settings, st: State, events: seq<Event>): int -> Stats {
    if events == [] then ip => EntryOf(st.table, ip)
    else
      var before := events[..|events| - 1];
      StepUnpruned(s, Unpruned(s, st, before), After(s, st, before), events[|events| - 1])
  }

  /** Erasing idle entries is invisible: with a timeout and a reset that are not negative as `int`s, at every event of
      every run in which nothing of a sender wraps, the pruned table and the one of all senders hold the same entry for
      that sender, so they throw out the same messages. */
  lemma {:induction false} ErasingIsInvisible(s: Settings, st: State, events: seq<Event>, ip: int)
    requires 0 <= ToInt(s.timeoutSeconds) && 0 <= ToInt(s.resetSeconds) && NonNegative(EntryOf(st.table, ip))
    requires Unwrapped(s, st, events, ip)
    ensures EntryOf(After(s, st, events).table, ip) == Unpruned(s, st, events)(ip)
    ensures NonNegative(EntryOf(After(s, st, events).table, ip))
  {
    if events != [] {
      var before, ev := events[..|events| - 1], events[|events| - 1];
      ErasingIsInvisible(s, st, before, ip);
      var mid := After(s, st, before);
      StepEntry(s, mid, ev, ip);
      if ev.Tick? {
        PassesTableEntry(mid.table, ip, PassCount(mid, ev));
      } else if ev.ip == ip {
        FilterIsIntended(s, EntryOf(mid.table, ip), ev.length);
      }
      hide Filter, Passes, Score, ToInt, Step;
    }
  }

  // ----- When nothing wraps -----

  /** Scores in their order, and small enough for the score formula. */
  predicate OrderedScores(s: Settings) {
    s.shortScore <= s.longScore < TWO_31 && s.longScore + 1 - s.shortScore < 0x200_0000
  }

  /** A message's score lies between the short and the long score. */
  lemma ScoreBetween(s: Settings, length: nat)
    requires OrderedScores(s) && length <= MAX_MESSAGE_LENGTH
    ensures s.shortScore <= Score(s, length) <= s.longScore
  {
    var d := s.longScore + 1 - s.shortScore;
    ProductBounds(length, d);
    SmallMod(d, TWO_32);
    SmallMod(length * d, TWO_32);
    SmallToInt(s.shortScore + length * d / 129);
  }

  lemma ProductBounds(length: nat, d: nat)
    requires length <= 128 && 0 < d < 0x200_0000
    ensures 0 <= length * d < TWO_32 && 0 <= length * d / 129 <= d - 1
  {
    var p := length * d;
    assert p <= 128 * d;
  }

  predicate Typical(events: seq<Event>) {
    forall ev <- events :: ev.Message? ==> ev.length <= MAX_MESSAGE_LENGTH
  }

  /** The number of messages of one sender that get through. */
  function CountAccepted(s: Settings, st: State, events: seq<Event>, ip: int): nat {
    if events == [] then 0
    else
      var before, ev := events[..|events| - 1], events[|events| - 1];
      CountAccepted(s, st, before, ip) +
      if ev.Message? && ev.ip == ip && !ThrownOut(s, EntryOf(After(s, st, before).table, ip), ev.length) then 1 else 0
  }

  /** The bound on scores bounds their number too, as each scores at least the short score. */
  lemma {:induction false} CountBound(s: Settings, st: State, events: seq<Event>, ip: int)
    requires OrderedScores(s) && Typical(events)
    ensures CountAccepted(s, st, events, ip) * s.shortScore <= TotalAccepted(s, st, events, ip)
    ensures TotalAccepted(s, st, events, ip) <= CountAccepted(s, st, events, ip) * s.longScore
  {
    if events != [] {
      var before, ev := events[..|events| - 1], events[|events| - 1];
      assert ev in events && forall e <- before :: e in events;
      CountBound(s, st, before, ip);
      OneMore(CountAccepted(s, st, before, ip), s.shortScore);
      OneMore(CountAccepted(s, st, before, ip), s.longScore);
      if ev.Message? {
        ScoreBetween(s, ev.length);
      }
      hide Score, ThrownOut, After;
    }
  }

  /** Settings that mean what they say: scores in their order, nothing negative as an `int`, and a threshold and a
      timeout that are positive. */
  predicate Sane(s: Settings) {
    OrderedScores(s) && 1 <= s.timeoutScore < TWO_31 && 1 <= s.timeoutSeconds < TWO_31 && s.resetSeconds < TWO_31
  }

  /** After so many seconds no 32-bit number can have overflowed yet. With the default settings that is more than
      thirteen years. */
  predicate InRange(s: Settings, seconds: nat) {
    s.timeoutSeconds + seconds < TWO_31 && s.timeoutScore + (seconds + 1) * s.longScore < TWO_31
  }

  /** What every entry satisfies after so many seconds. A timeout can only double after the last one has been
      waited out, so it never outgrows the time that has passed; and each timeout costs at least a second, so the
      score can exceed the threshold by no more than one long score for each second. */
  predicate Bounded(s: Settings, e: Stats, seconds: nat) {
    && NonNegative(e)
    && (e.next > 0 ==> 2 * e.next <= seconds + e.timeout + s.timeoutSeconds)
    && e.score <= s.timeoutScore - 1 + (if e.timeout > 0 then (seconds + 1) * s.longScore else seconds * s.longScore)
  }

  lemma NonNegativeProduct(a: nat, b: nat)
    ensures a * b >= 0
  {
  }

  lemma OneMore(a: nat, b: nat)
    ensures (a + 1) * b == a * b + b
  {
  }

  lemma PassKeepsBounded(s: Settings, e: Stats, seconds: nat)
    requires Sane(s) && Bounded(s, e, seconds)
    ensures Bounded(s, Pass(e), seconds + 1)
  {
    OneMore(seconds, s.longScore);
    OneMore(seconds + 1, s.longScore);
  }

  lemma {:induction false} PassesKeepBounded(s: Settings, e: Stats, seconds: nat, n: nat)
    requires Sane(s) && Bounded(s, e, seconds)
    ensures Bounded(s, Passes(e, n), seconds + n)
  {
    if n > 0 {
      PassesKeepBounded(s, e, seconds, n - 1);
      PassKeepsBounded(s, Passes(e, n - 1), seconds + n - 1);
    }
  }

  /** A message in range meets no limit and leaves its sender's entry bounded. */
  lemma FilterInRange(s: Settings, e: Stats, length: nat, seconds: nat)
    requires Sane(s) && InRange(s, seconds) && Bounded(s, e, seconds) && length <= MAX_MESSAGE_LENGTH
    ensures NoWrap(s, e, length) && Bounded(s, Filter(s, e, length), seconds)
  {
    ScoreBetween(s, length);
    SmallToInt(s.timeoutScore);
    SmallToInt(s.timeoutSeconds);
    SmallToInt(s.resetSeconds);
    hide Score, ToInt, Filter;
    OneMore(seconds, s.longScore);
    NonNegativeProduct(seconds, s.longScore);
    FilterIsIntended(s, e, length);
  }

  lemma EarlierInRange(s: Settings, st: State, events: seq<Event>, seconds: nat)
    requires events != [] && InRange(s, seconds + TotalPasses(s, st, events)) && Typical(events)
    ensures var before := events[..|events| - 1];
            InRange(s, seconds + TotalPasses(s, st, before)) && Typical(before)
  {
    var before := events[..|events| - 1];
    assert forall ev <- before :: ev in events;
    MoreSeconds(seconds + TotalPasses(s, st, before) + 1, seconds + TotalPasses(s, st, events) + 1, s.longScore);
  }

  lemma MoreSeconds(a: nat, b: nat, long: nat)
    requires a <= b
    ensures a * long <= b * long
  {
  }

  /** With sane settings nothing wraps as long as the seconds that pass are in range. */
  lemma {:induction false} InRangeIsUnwrapped(s: Settings, st: State, events: seq<Event>, ip: int, seconds: nat)
    requires Sane(s) && Bounded(s, EntryOf(st.table, ip), seconds) && Typical(events)
    requires InRange(s, seconds + TotalPasses(s, st, events))
    ensures Unwrapped(s, st, events, ip)
    ensures Bounded(s, EntryOf(After(s, st, events).table, ip), seconds + TotalPasses(s, st, events))
  {
    if events != [] {
      var before, ev := events[..|events| - 1], events[|events| - 1];
      assert ev in events;
      EarlierInRange(s, st, events, seconds);
      InRangeIsUnwrapped(s, st, before, ip, seconds);
      LastEvent(s, st, events, ip);
      hide After, TotalPasses, Unwrapped, Step, Filter, Passes, InRange, NoWrap;
      StepInRange(s, After(s, st, before), ev, ip, seconds + TotalPasses(s, st, before));
    }
  }

  lemma StepInRange(s: Settings, st: State, ev: Event, ip: int, seconds: nat)
    requires Sane(s) && Bounded(s, EntryOf(st.table, ip), seconds) && InRange(s, seconds)
    requires ev.Message? ==> ev.length <= MAX_MESSAGE_LENGTH
    ensures ev.Message? && ev.ip == ip ==> NoWrap(s, EntryOf(st.table, ip), ev.length)
    ensures Bounded(s, EntryOf(Step(s, st, ev).table, ip), seconds + PassCount(st, ev))
  {
    var e := EntryOf(st.table, ip);
    StepEntry(s, st, ev, ip);
    match ev {
      case Message(sender, length) =>
        FilterInRange(s, e, length, seconds);
      case Tick(_) =>
        PassesKeepBounded(s, e, seconds, PassCount(st, ev));
    }
    hide Step, Filter, Passes, NoWrap, Bounded, InRange;
  }

  lemma NobodyIsBounded(s: Settings, ip: int)
    requires Sane(s)
    ensures Bounded(s, EntryOf(map[], ip), 0) && NonNegative(EntryOf(map[], ip))
  {
  }

  /** The rate bound with a condition that can be checked beforehand. */
  lemma RateBoundInRange(s: Settings, st0: State, earlier: seq<Event>, window: seq<Event>, ip: int)
    requires Sane(s) && st0.table == map[] && Typical(earlier) && Typical(window)
    requires InRange(s, TotalPasses(s, st0, earlier))
    requires InRange(s, TotalPasses(s, st0, earlier) + TotalPasses(s, After(s, st0, earlier), window))
    ensures var st := After(s, st0, earlier);
            TotalAccepted(s, st, window, ip) <= s.timeoutScore - 1 + TotalPasses(s, st, window)
  {
    hide Bounded, InRange, Unwrapped, After, TotalPasses, TotalAccepted, ToInt, Typical, EntryOf, NonNegative, OrderedScores;
    NobodyIsBounded(s, ip);
    SmallToInt(s.timeoutScore);
    SmallToInt(s.timeoutSeconds);
    InRangeIsUnwrapped(s, st0, earlier, ip, 0);
    InRangeIsUnwrapped(s, After(s, st0, earlier), window, ip, TotalPasses(s, st0, earlier));
    RateBound(s, st0, earlier, window, ip);
  }

  /** So is the erasing of idle entries. */
  lemma ErasingIsInvisibleInRange(s: Settings, st0: State, events: seq<Event>, ip: int)
    requires Sane(s) && st0.table == map[] && Typical(events) && InRange(s, TotalPasses(s, st0, events))
    ensures EntryOf(After(s, st0, events).table, ip) == Unpruned(s, st0, events)(ip)
  {
    hide Bounded, InRange, Unwrapped, After, TotalPasses, ToInt, Typical, Unpruned, EntryOf, NonNegative, OrderedScores;
    NobodyIsBounded(s, ip);
    SmallToInt(s.timeoutSeconds);
    SmallToInt(s.resetSeconds);
    InRangeIsUnwrapped(s, st0, events, ip, 0);
    ErasingIsInvisible(s, st0, events, ip);
  }

  // ----- Time -----

  /** A second is a thousand milliseconds: what has been passed and what is left over add up to what has gone by, through
      wrap-arounds of the clock. */
  lemma TickAccounts(s: Settings, st: State, now: u32)
    requires st.updateMs + (now - st.lastTimeMs) % TWO_32 < TWO_32
    ensures var after := Step(s, st, Tick(now));
            && 1000 * PassCount(st, Tick(now)) + after.updateMs == st.updateMs + (now - st.lastTimeMs) % TWO_32
            && after.updateMs < 1000 && after.lastTimeMs == now
            && after.table == PassesTable(st.table, PassCount(st, Tick(now)))
  {
    SmallMod(st.updateMs + (now - st.lastTimeMs) % TWO_32, TWO_32);
    hide PassesTable;
  }

  // ----- Doubling -----

  /** A sender who has run out a timeout and reaches the threshold again before the reset is over is timed out for twice as
      long; one who comes back later, for as long as the first time. */
  lemma TimeoutsDouble(s: Settings, e: Stats, n: nat, length: nat)
    requires NonNegative(e) && e.timeout <= n && e.next > 0 && 0 < ToInt(s.timeoutSeconds) && 2 * e.next < TWO_31
    requires 0 <= Score(s, length) && Max0(e.score - n) + Score(s, length) < TWO_31
    requires Max0(e.score - n) + Score(s, length) >= ToInt(s.timeoutScore) && n > 0
    ensures Filter(s, Passes(e, n), length).timeout == if n - e.timeout < e.reset then 2 * e.next else ToInt(s.timeoutSeconds)
    ensures Filter(s, Passes(e, n), length).next == Filter(s, Passes(e, n), length).timeout
    ensures Filter(s, Passes(e, n), length).reset == ToInt(s.resetSeconds)
  {
    PassesClosedForm(e, n);
    FilterIsIntended(s, Passes(e, n), length);
    hide Passes, Filter, Score, ToInt;
  }

  // ----- Ticking in parts -----

  lemma {:induction false} PassesTableSum(t: Table, a: nat, b: nat)
    ensures PassesTable(PassesTable(t, a), b) == PassesTable(t, a + b)
  {
    if b > 0 {
      PassesTableSum(t, a, b - 1);
    }
  }

  /** A tick performs one pass for each full second and keeps the rest; so ticking twice is ticking once at the later
      time, as long as the milliseconds to account for fit in 32 bits. */
  lemma TickInParts(s: Settings, st: State, now: u32, later: u32)
    requires st.updateMs < 1000
    requires st.updateMs + (now - st.lastTimeMs) % TWO_32 + (later - now) % TWO_32 < TWO_32
    ensures Step(s, Step(s, st, Tick(now)), Tick(later)) == Step(s, st, Tick(later))
  {
    var a, b := st.updateMs + (now - st.lastTimeMs) % TWO_32, (later - now) % TWO_32;
    PendingInParts(st, now, later);
    var mid := Step(s, st, Tick(now));
    hide Step, Pending, PassesTable, PassCount;
    PendingOnlyReads(mid, State(st.table, a % 1000, now), later);
    PassesTableSum(st.table, a / 1000, (a % 1000 + b) / 1000);
  }

  lemma PendingOnlyReads(st: State, other: State, now: u32)
    requires st.updateMs == other.updateMs && st.lastTimeMs == other.lastTimeMs
    ensures Pending(st, now) == Pending(other, now)
  {
  }

  lemma PendingInParts(st: State, now: u32, later: u32)
    requires st.updateMs < 1000
    requires st.updateMs + (now - st.lastTimeMs) % TWO_32 + (later - now) % TWO_32 < TWO_32
    ensures var a, b := st.updateMs + (now - st.lastTimeMs) % TWO_32, (later - now) % TWO_32;
            && Pending(st, now) == a
            && Pending(st, later) == a + b
            && Pending(State(st.table, a % 1000, now), later) == a % 1000 + b
  {
    var a, b := (now - st.lastTimeMs) % TWO_32, (later - now) % TWO_32;
    ModSum(now - st.lastTimeMs, later - now);
    SmallMod(st.updateMs + a, TWO_32);
    SmallMod(st.updateMs + a + b, TWO_32);
    SmallMod((st.updateMs + a) % 1000 + b, TWO_32);
  }

  lemma ModSum(a: int, b: int)
    requires a % TWO_32 + b % TWO_32 < TWO_32
    ensures (a + b) % TWO_32 == a % TWO_32 + b % TWO_32
  {
    var qa, qb := a / TWO_32, b / TWO_32;
    assert a + b == (qa + qb) * TWO_32 + (a % TWO_32 + b % TWO_32);
  }

  // ----- The filter that the server keeps -----

  /** The part of a table that a pass still has to visit, and the part it has dealt with. */
  ghost predicate HalfPassed(now: Table, start: Table, left: set<int>) {
    && left <= start.Keys && now.Keys <= start.Keys
    && (forall ip <- left :: ip in now && now[ip] == start[ip])
    && (forall ip <- start.Keys - left :: (ip in now <==> !Idle(Pass(start[ip]))) && (ip in now ==> now[ip] == Pass(start[ip])))
  }

  lemma PassedIsPassTable(now: Table, start: Table)
    requires HalfPassed(now, start, {})
    ensures now == PassTable(start)
  {
    forall ip ensures ip in now <==> ip in PassTable(start) {
      assert ip in start <==> ip in start.Keys - {};
    }
    forall ip | ip in now ensures now[ip] == PassTable(start)[ip] {
      assert ip in start.Keys - {};
    }
  }

  lemma {:induction false} OneMorePass(t: Table, n: nat)
    ensures PassesTable(PassTable(t), n) == PassesTable(t, n + 1)
  {
    assert PassesTable(t, 1) == PassTable(PassesTable(t, 0));
    PassesTableSum(t, 1, n);
  }

  class ChatFilter {
    var spamStats: Table
    var spamUpdateMs: u32
    var lastTimeMs: u32

    ghost function Value(): State
      reads this
    {
      State(spamStats, spamUpdateMs, lastTimeMs)
    }

    constructor (now: u32)
      ensures Value() == State(map[], 0, now)
    {
      spamStats, spamUpdateMs, lastTimeMs := map[], 0, now;
    }

    /** Checks a message, and tells whether it should be thrown out. */
    method FilterMessage(s: Settings, ip: int, length: nat) returns (thrownOut: bool)
      modifies this
      ensures Value() == Step(s, old(Value()), Message(ip, length))
      ensures thrownOut == ThrownOut(s, EntryOf(old(spamStats), ip), length)
    {
      hide Score, ToInt;
      if ip !in spamStats {
        spamStats := spamStats[ip := FRESH];
      }
      var e := spamStats[ip];
      if e.timeout <= 0 {
        e := e.(score := ToInt(e.score + Score(s, length)));
        if e.score >= ToInt(s.timeoutScore) {
          if e.next > 0 {
            e := e.(next := ToInt(e.next * 2));
          } else {
            e := e.(next := ToInt(s.timeoutSeconds));
          }
          e := e.(timeout := e.next, reset := ToInt(s.resetSeconds));
        }
        spamStats := spamStats[ip := e];
      }
      thrownOut := spamStats[ip].timeout > 0;
    }

    /** One second of one entry, which is erased when there is nothing left in it. */
    method UpdateEntry(ip: int)
      requires ip in spamStats
      modifies this`spamStats
      ensures spamStats == var e := Pass(old(spamStats)[ip]); if Idle(e) then old(spamStats) - {ip} else old(spamStats)[ip := e]
    {
      var e := spamStats[ip];
      if e.score > 0 {
        e := e.(score := e.score - 1);
      }
      if e.timeout > 0 {
        e := e.(timeout := e.timeout - 1);
      } else if e.reset > 0 {
        e := e.(reset := e.reset - 1);
      }
      if e.reset == 0 {
        e := e.(next := 0);
      }
      spamStats := spamStats[ip := e];
      if e.timeout <= 0 && e.score <= 0 && e.reset <= 0 {
        spamStats := spamStats - {ip};
      }
    }

    method UpdateEntries()
      modifies this`spamStats
      ensures spamStats == PassTable(old(spamStats))
    {
      ghost var start := spamStats;
      var left: set<int> := spamStats.Keys;
      while left != {}
        decreases |left|
        invariant HalfPassed(spamStats, start, left)
      {
        var ip := AnyOf(left);
        UpdateEntry(ip);
        left := left - {ip};
      }
      PassedIsPassTable(spamStats, start);
    }

    /** Accounts for the time since the last tick, one pass for each full second. */
    method Tick(s: Settings, now: u32)
      modifies this
      ensures Value() == Step(s, old(Value()), Event.Tick(now))
    {
      hide PassTable, PassesTable;
      ghost var pending, start := Pending(Value(), now), spamStats;
      var timeDeltaMs := (now - lastTimeMs) % TWO_32;
      lastTimeMs := now;
      spamUpdateMs := (spamUpdateMs + timeDeltaMs) % TWO_32;
      while spamUpdateMs >= 1000
        invariant lastTimeMs == now && spamUpdateMs % 1000 == pending % 1000
        invariant PassesTable(spamStats, spamUpdateMs / 1000) == PassesTable(start, pending / 1000)
      {
        spamUpdateMs := spamUpdateMs - 1000;
        OneMorePass(spamStats, spamUpdateMs / 1000);
        UpdateEntries();
      }
      assert PassesTable(spamStats, 0) == spamStats by { NoPasses(spamStats); }
    }
  }

  lemma NoPasses(t: Table)
    ensures PassesTable(t, 0) == t
  {
  }
}
