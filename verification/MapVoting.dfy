/** Map voting as a timed state machine (ElDorito/Source/Server/VotingSystem.cpp:104-110, 182-296, 317-457 and
    VotingSystem.hpp:44-94). */
module MapVoting {
  import opened Text

  const MAX_OPTIONS: nat := 5

  datatype GameMap = GameMap(name: string, displayName: string, id: int)

  datatype GameType = GameType(specificMaps: seq<GameMap>, name: string, displayName: string, sprint: string)

  datatype Choice = Choice(haloMap: GameMap, haloType: GameType, count: nat, index: int, isRevote: bool)

  datatype Settings = Settings(options: nat, revotes: nat, duplication: nat, votingTime: nat, startDelay: nat, shuffle: bool,
                               types: seq<GameType>, maps: seq<GameMap>)

  /** The ranges of the settings; there is something to choose from. */
  predicate Configured(s: Settings) {
    1 <= s.options <= 4 && s.types != [] && s.maps != []
  }

  /** What the server tells the players, and what it tells the game. */
  datatype Output =
    | Ballot(choices: seq<Choice>, votingTime: nat)
    | Tally(votes: seq<nat>)
    | Winner(index: int)
    | Prepare(haloType: string, haloMap: string, sprint: string, shuffle: bool)
    | StartGame

  datatype State = State(voteStarted: int, winnerChosen: int, revotesUsed: nat, revoteFlag: bool, idle: bool,
                         options: seq<Choice>, votes: map<string, int>, log: seq<Output>)

  // ----- Drawing a ballot -----

  // The random draws of a ballot and the order that sorting leaves are inputs of a step.

  /** Two calls of `rand()`. */
  datatype Draw = Draw(first: nat, second: nat)

  function Generate(s: Settings, d: Draw): Choice
    requires Configured(s)
  {
    var t := s.types[d.first % |s.types|];
    var pool := if t.specificMaps != [] then t.specificMaps else s.maps;
    Choice(pool[d.second % |pool|], t, 0, -1, false)
  }

  predicate Duplicates(level: nat, a: Choice, b: Choice) {
    var sameMap, sameType := a.haloMap.displayName == b.haloMap.displayName, a.haloType.displayName == b.haloType.displayName;
    if level == 0 then sameMap || sameType else if level == 1 then sameMap && sameType else false
  }

  /** At level 0 no map and no game type is offered twice, at level 1 no map with the same game type; above, anything goes. */
  predicate Apart(level: nat, a: Choice, b: Choice) {
    && (level == 0 ==> a.haloMap.displayName != b.haloMap.displayName && a.haloType.displayName != b.haloType.displayName)
    && (level == 1 ==> a.haloMap.displayName != b.haloMap.displayName || a.haloType.displayName != b.haloType.displayName)
  }

  lemma DuplicatesIff(level: nat, a: Choice, b: Choice)
    ensures Duplicates(level, a, b) <==> !Apart(level, a, b)
  {
  }

  predicate Taken(level: nat, picked: seq<Choice>, c: Choice) {
    exists p <- picked :: Duplicates(level, p, c)
  }

  /** A draw is made again exactly if it is not apart from a choice that has been picked. */
  lemma TakenIff(level: nat, picked: seq<Choice>, c: Choice)
    ensures Taken(level, picked, c) <==> exists p <- picked :: !Apart(level, p, c)
  {
    forall p | p in picked ensures Duplicates(level, p, c) <==> !Apart(level, p, c) {
      DuplicatesIff(level, p, c);
    }
    hide Duplicates, Apart;
  }

  /** Draws until there are enough choices, without duplicates; nothing if the draws run out first. */
  function Pick(s: Settings, draws: seq<Draw>, picked: seq<Choice>): Option<seq<Choice>>
    requires Configured(s)
  {
    if |picked| >= s.options then Some(picked)
    else if draws == [] then None
    else
      var c := Generate(s, draws[0]);
      if Taken(s.duplication, picked, c) then Pick(s, draws[1..], picked)
      else Pick(s, draws[1..], picked + [c.(index := |picked| + 1)])
  }

  function RevoteChoice(index: int): Choice {
    Choice(GameMap("", "Revote", 0), GameType([], "", "", ""), 0, index, true)
  }

  function WithRevote(s: Settings, picked: seq<Choice>, revotesUsed: nat): seq<Choice> {
    if revotesUsed < s.revotes then picked + [RevoteChoice(|picked| + 1)] else picked
  }

  predicate FromPool(s: Settings, c: Choice) {
    c.haloType in s.types && c.haloMap in (if c.haloType.specificMaps != [] then c.haloType.specificMaps else s.maps)
  }

  /** Ordinary choices: from the pool, unvoted, numbered from one, no two of them duplicates. */
  ghost predicate Drawn(s: Settings, picked: seq<Choice>) {
    && (forall i :: 0 <= i < |picked| ==> picked[i].index == i + 1)
    && (forall c <- picked :: FromPool(s, c) && c.count == 0 && !c.isRevote)
    && (forall i, j :: 0 <= i < j < |picked| ==> !Duplicates(s.duplication, picked[i], picked[j]))
  }

  lemma OneMoreDrawn(s: Settings, picked: seq<Choice>, c: Choice)
    requires Drawn(s, picked) && FromPool(s, c) && c.count == 0 && !c.isRevote && !Taken(s.duplication, picked, c)
    ensures Drawn(s, picked + [c.(index := |picked| + 1)])
  {
    hide Duplicates, FromPool;
    var d := c.(index := |picked| + 1);
    IndexIsIrrelevant(s, c, |picked| + 1);
    forall p | p in picked ensures !Duplicates(s.duplication, p, d) {
      SameDuplicates(s.duplication, p, c, |picked| + 1);
    }
  }

  lemma IndexIsIrrelevant(s: Settings, c: Choice, index: int)
    ensures FromPool(s, c.(index := index)) == FromPool(s, c)
  {
  }

  lemma SameDuplicates(level: nat, p: Choice, c: Choice, index: int)
    ensures Duplicates(level, p, c.(index := index)) == Duplicates(level, p, c)
  {
  }

  lemma {:induction false} PickedAreDrawn(s: Settings, draws: seq<Draw>, picked: seq<Choice>)
    requires Configured(s) && Drawn(s, picked) && |picked| <= s.options && Pick(s, draws, picked).Some?
    ensures Drawn(s, Pick(s, draws, picked).value) && |Pick(s, draws, picked).value| == s.options
    ensures forall i, j :: 0 <= i < j < s.options ==>
              Apart(s.duplication, Pick(s, draws, picked).value[i], Pick(s, draws, picked).value[j])
  {
    if Pick(s, draws, picked) == Some(picked) {
      forall i, j | 0 <= i < j < |picked| ensures Apart(s.duplication, picked[i], picked[j]) {
        DuplicatesIff(s.duplication, picked[i], picked[j]);
      }
    }
    if |picked| < s.options {
      var c := Generate(s, draws[0]);
      hide Generate, Taken, Drawn, FromPool, Apart;
      if Taken(s.duplication, picked, c) {
        PickedAreDrawn(s, draws[1..], picked);
      } else {
        OneMoreDrawn(s, picked, c);
        PickedAreDrawn(s, draws[1..], picked + [c.(index := |picked| + 1)]);
      }
    }
  }

  // ----- Counting -----

  ghost function VotersFor(votes: map<string, int>, names: set<string>, choice: int): set<string> {
    set name | name in names && name in votes && votes[name] == choice
  }

  /** How many of these names vote for a choice. */
  ghost function CountAmong(votes: map<string, int>, names: set<string>, choice: int): nat {
    |VotersFor(votes, names, choice)|
  }

  ghost function CountFor(votes: map<string, int>, choice: int): nat {
    CountAmong(votes, votes.Keys, choice)
  }

  /** The options with the votes of these names added. */
  ghost function CountedAmong(options: seq<Choice>, votes: map<string, int>, names: set<string>): (r: seq<Choice>)
    ensures |r| == |options|
  {
    seq(|options|, i requires 0 <= i < |options| => options[i].(count := options[i].count + CountAmong(votes, names, i + 1)))
  }

  ghost function Counted(options: seq<Choice>, votes: map<string, int>): (r: seq<Choice>) {
    CountedAmong(options, votes, votes.Keys)
  }

  /** The five numbers of a tally message. */
  function Shown(options: seq<Choice>): (r: seq<nat>)
    ensures |r| == MAX_OPTIONS
  {
    seq(MAX_OPTIONS, i => if 0 <= i < |options| then options[i].count else 0)
  }

  function Cleared(options: seq<Choice>): seq<Choice> {
    seq(|options|, i requires 0 <= i < |options| => options[i].(count := 0))
  }

  // ----- The winner -----

  ghost predicate SortOf(order: seq<Choice>, options: seq<Choice>) {
    && multiset(order) == multiset(options)
    && forall i, j :: 0 <= i < j < |order| ==> order[i].count <= order[j].count
  }

  function Decide(s: Settings, st: State, order: seq<Choice>, now: int): State
    requires order != []
  {
    var winner := order[|order| - 1];
    if winner.isRevote then
      st.(options := order, revotesUsed := st.revotesUsed + 1, votes := map[], voteStarted := 0, revoteFlag := true)
    else
      st.(options := order, winnerChosen := now, voteStarted := 0, votes := map[],
          log := st.log + [Winner(winner.index),
                           Prepare(winner.haloType.name, winner.haloMap.name, winner.haloType.sprint, s.shuffle)])
  }

  // ----- The steps -----

  function Reset(st: State): State {
    st.(revotesUsed := 0, winnerChosen := 0, voteStarted := 0, votes := map[])
  }

  function StartVoting(s: Settings, st: State, now: int, draws: seq<Draw>): State
    requires Configured(s) && (st.idle || Pick(s, draws, []).Some?)
  {
    if st.idle then st
    else
      var choices := WithRevote(s, Pick(s, draws, []).value, st.revotesUsed);
      st.(options := choices, voteStarted := now, log := st.log + [Ballot(choices, s.votingTime)])
  }

  /** When the countdown is over the game starts and everything is reset. */
  function Countdown(s: Settings, st: State, now: int): State {
    if st.winnerChosen != 0 && now - st.winnerChosen > s.startDelay then Reset(st.(log := st.log + [StartGame])) else st
  }

  /** `hosting`: voting is enabled, and this is the host of an established session. */
  datatype Event =
    | Tick(now: int, hosting: bool, players: nat, inLobby: bool, draws: seq<Draw>)
    | StartNewVote(now: int, hosting: bool, draws: seq<Draw>)
    | LogVote(hosting: bool, name: string, vote: int)
    | Cancel

  /** The event opens a ballot. */
  predicate Opens(s: Settings, st: State, ev: Event) {
    match ev
    case Tick(now, hosting, players, inLobby, _) =>
      hosting && players > 0 && if st.idle then inLobby else Countdown(s, st, now).revoteFlag
    case StartNewVote(_, hosting, _) => hosting && !st.idle
    case _ => false
  }

  /** The event closes a ballot and decides it. */
  predicate Decides(s: Settings, st: State, ev: Event) {
    && ev.Tick? && ev.hosting && ev.players > 0 && !st.idle
    && var t := Countdown(s, st, ev.now);
       !t.revoteFlag && t.voteStarted != 0 && ev.now - t.voteStarted >= s.votingTime
  }

  /** The time is not zero, the draws are enough for a ballot, and sorting leaves some sorted order. */
  ghost predicate Possible(s: Settings, st: State, ev: Event, order: seq<Choice>) {
    && (ev.Tick? || ev.StartNewVote? ==> ev.now != 0)
    && (Configured(s) && Opens(s, st, ev) ==> Pick(s, ev.draws, []).Some?)
    && (Decides(s, st, ev) ==> SortOf(order, Counted(Countdown(s, st, ev.now).options, Countdown(s, st, ev.now).votes)))
  }

  /** Votes are compared as unsigned numbers. */
  function Unsigned(vote: int): nat {
    vote % 0x1_0000_0000
  }

  ghost function Step(s: Settings, st: State, ev: Event, order: seq<Choice>): State
    requires Configured(s) && Possible(s, st, ev, order) && (Decides(s, st, ev) ==> order != [])
  {
    match ev
    case Cancel => Reset(st)
    case StartNewVote(now, hosting, draws) => if hosting then StartVoting(s, Reset(st), now, draws) else st
    case LogVote(hosting, name, vote) =>
      if !hosting || st.voteStarted == 0 || Unsigned(vote) > s.options + 1 then st
      else
        var votes := st.votes[name := Unsigned(vote)];
        var counted := Counted(st.options, votes);
        st.(votes := votes, options := Cleared(counted), log := st.log + [Tally(Shown(counted))])
    case Tick(now, hosting, players, inLobby, draws) =>
      if !hosting then st
      else if st.idle then
        if players == 0 then st
        else if inLobby then StartVoting(s, st.(idle := false), now, draws)
        else st.(idle := false)
      else if players == 0 then Reset(st.(idle := true))
      else
        var t := Countdown(s, st, now);
        if t.revoteFlag then StartVoting(s, t, now, draws).(revoteFlag := false)
        else if Decides(s, st, ev) then Decide(s, t, order, now)
        else t
  }

  // ----- The invariant -----

  // The settings may change at any time, also while a ballot is open: what the ballot looks like is a matter of those
  // that it was opened with.

  /** The settings that the latest ballot was opened with, after an event. */
  function OriginAfter(origin: Settings, s: Settings, st: State, ev: Event): Settings {
    if Opens(s, st, ev) then s else origin
  }

  /** An open ballot: no more than five choices, and a revote as the last one exactly while a revote is left. */
  ghost predicate OpenBallot(origin: Settings, options: seq<Choice>, revotesUsed: nat) {
    && Configured(origin)
    && |options| == origin.options + (if revotesUsed < origin.revotes then 1 else 0)
    && Drawn(origin, options[..origin.options])
    && (revotesUsed < origin.revotes ==> options[origin.options] == RevoteChoice(origin.options + 1))
  }

  /** The last thing sent in an open ballot is the ballot itself or a tally, and a tally holds the current counts. */
  ghost predicate LastIsCurrent(st: State) {
    && st.log != []
    && var last := st.log[|st.log| - 1];
       last.Ballot? || (last.Tally? && last.votes == Shown(Counted(st.options, st.votes)))
  }

  ghost predicate Sound(origin: Settings, st: State) {
    && !(st.voteStarted != 0 && st.winnerChosen != 0)
    && (st.idle ==> st.voteStarted == 0 && st.winnerChosen == 0)
    && (st.voteStarted == 0 ==> st.votes == map[])
    && (st.winnerChosen != 0 ==> !st.revoteFlag)
    && (forall name <- st.votes :: 0 <= st.votes[name] <= MAX_OPTIONS)
    && (st.voteStarted != 0 ==> OpenBallot(origin, st.options, st.revotesUsed) && LastIsCurrent(st))
  }

  const INITIAL: State := State(0, 0, 0, false, false, [], map[], [])

  lemma WithRevoteIsOpen(s: Settings, draws: seq<Draw>, revotesUsed: nat)
    requires Configured(s) && Pick(s, draws, []).Some?
    ensures OpenBallot(s, WithRevote(s, Pick(s, draws, []).value, revotesUsed), revotesUsed)
  {
    PickedAreDrawn(s, draws, []);
    var picked := Pick(s, draws, []).value;
    hide Pick, Drawn;
    assert WithRevote(s, picked, revotesUsed)[..s.options] == picked;
  }

  lemma StartVotingIsSound(origin: Settings, s: Settings, st: State, now: int, draws: seq<Draw>)
    requires Configured(s) && Sound(origin, st) && (st.idle || Pick(s, draws, []).Some?) && now != 0 && st.winnerChosen == 0
    ensures Sound(if st.idle then origin else s, StartVoting(s, st, now, draws))
  {
    if !st.idle {
      WithRevoteIsOpen(s, draws, st.revotesUsed);
      hide Pick, OpenBallot, WithRevote;
    }
  }

  /** The choices of an open ballot: numbered in order, unvoted, and a revote only after the ordinary ones. */
  lemma OpenChoices(origin: Settings, options: seq<Choice>, revotesUsed: nat)
    requires OpenBallot(origin, options, revotesUsed)
    ensures 1 <= |options| <= MAX_OPTIONS
    ensures forall i :: 0 <= i < |options| ==>
              options[i].count == 0 && options[i].index == i + 1 && (options[i].isRevote <==> i == origin.options)
  {
    forall i | 0 <= i < origin.options ensures options[i].count == 0 && options[i].index == i + 1 && !options[i].isRevote {
      assert options[..origin.options][i] in options[..origin.options];
    }
  }

  /** Counting and clearing leaves an open ballot as it was. */
  lemma ClearedIsSame(origin: Settings, options: seq<Choice>, votes: map<string, int>, revotesUsed: nat)
    requires OpenBallot(origin, options, revotesUsed)
    ensures Cleared(Counted(options, votes)) == options
  {
    OpenChoices(origin, options, revotesUsed);
    hide OpenBallot;
  }

  /** The winner is one of the counted options, and none has more votes. */
  lemma WinnerIsCounted(options: seq<Choice>, votes: map<string, int>, order: seq<Choice>)
    requires SortOf(order, Counted(options, votes)) && order != []
    ensures order[|order| - 1] in Counted(options, votes)
    ensures forall c <- Counted(options, votes) :: c.count <= order[|order| - 1].count
  {
    var counted := Counted(options, votes);
    hide Counted;
    assert order[|order| - 1] in multiset(order);
    forall c | c in counted ensures c.count <= order[|order| - 1].count {
      assert c in multiset(counted);
      assert c in order;
    }
  }

  lemma SortIsNonEmpty(origin: Settings, st: State, order: seq<Choice>)
    requires Sound(origin, st) && st.voteStarted != 0 && SortOf(order, Counted(st.options, st.votes))
    ensures order != []
  {
    assert |multiset(order)| == |order|;
    assert |multiset(Counted(st.options, st.votes))| == |st.options|;
  }

  lemma DecideIsSound(origin: Settings, s: Settings, st: State, order: seq<Choice>, now: int)
    requires Sound(origin, st) && st.voteStarted != 0 && !st.idle && now != 0 && !st.revoteFlag
    requires SortOf(order, Counted(st.options, st.votes)) && order != []
    ensures Sound(origin, Decide(s, st, order, now))
  {
    WinnerIsCounted(st.options, st.votes, order);
    hide SortOf, OpenBallot, Counted;
  }

  /** Where a decision is made, the ballot is the one that was open. */
  lemma DecidesOpenBallot(origin: Settings, s: Settings, st: State, ev: Event)
    requires Sound(origin, st) && Decides(s, st, ev)
    ensures Countdown(s, st, ev.now) == st && st.voteStarted != 0 && !st.revoteFlag
  {
  }

  lemma OrderIsNonEmpty(origin: Settings, s: Settings, st: State, ev: Event, order: seq<Choice>)
    requires Sound(origin, st) && Possible(s, st, ev, order)
    ensures Decides(s, st, ev) ==> order != []
  {
    if Decides(s, st, ev) {
      DecidesOpenBallot(origin, s, st, ev);
      SortIsNonEmpty(origin, st, order);
    }
  }

  lemma LogVoteIsSound(origin: Settings, s: Settings, st: State, name: string, vote: int)
    requires Configured(s) && Sound(origin, st)
    ensures Sound(origin, Step(s, st, LogVote(true, name, vote), []))
  {
    if st.voteStarted != 0 {
      ClearedIsSame(origin, st.options, st.votes[name := Unsigned(vote)], st.revotesUsed);
      hide OpenBallot, Counted, Cleared, Shown, Unsigned;
    }
  }

  lemma TickIsSound(origin: Settings, s: Settings, st: State, ev: Event, order: seq<Choice>)
    requires Configured(s) && Sound(origin, st) && Possible(s, st, ev, order) && ev.Tick? && (Decides(s, st, ev) ==> order != [])
    ensures Sound(OriginAfter(origin, s, st, ev), Step(s, st, ev, order))
  {
    if ev.hosting && ev.players > 0 {
      if st.idle {
        if ev.inLobby {
          StartVotingIsSound(origin, s, st.(idle := false), ev.now, ev.draws);
        }
      } else {
        var t := Countdown(s, st, ev.now);
        if t.revoteFlag {
          StartVotingIsSound(origin, s, t, ev.now, ev.draws);
        } else if Decides(s, st, ev) {
          DecideIsSound(origin, s, t, order, ev.now);
        }
      }
    }
    hide OpenBallot, SortOf, Counted, Pick, StartVoting, Decide;
  }

  /** Every step keeps the invariant, whatever the settings have become since the ballot was origin. */
  lemma StepIsSound(origin: Settings, s: Settings, st: State, ev: Event, order: seq<Choice>)
    requires Configured(s) && Sound(origin, st) && Possible(s, st, ev, order)
    ensures Decides(s, st, ev) ==> order != []
    ensures Sound(OriginAfter(origin, s, st, ev), Step(s, st, ev, order))
  {
    OrderIsNonEmpty(origin, s, st, ev, order);
    match ev {
      case Tick(_, _, _, _, _) => TickIsSound(origin, s, st, ev, order);
      case StartNewVote(now, hosting, draws) =>
        if hosting {
          StartVotingIsSound(origin, s, Reset(st), now, draws);
        }
      case LogVote(hosting, name, vote) =>
        if hosting {
          LogVoteIsSound(origin, s, st, name, vote);
          hide Sound;
        }
      case Cancel =>
    }
  }

  // ----- Runs -----

  /** What happens, and the settings at that time. */
  datatype Happening = Happening(s: Settings, ev: Event, order: seq<Choice>)

  /** A state, and the settings that its latest ballot was opened with. */
  datatype Situation = Situation(origin: Settings, st: State)

  ghost predicate SoundAt(x: Situation) {
    Sound(x.origin, x.st)
  }

  ghost predicate Happens(x: Situation, h: Happening) {
    Configured(h.s) && Possible(h.s, x.st, h.ev, h.order)
  }

  ghost function Next(x: Situation, h: Happening): (y: Situation)
    requires SoundAt(x) && Happens(x, h)
    ensures SoundAt(y)
  {
    StepIsSound(x.origin, h.s, x.st, h.ev, h.order);
    Situation(OriginAfter(x.origin, h.s, x.st, h.ev), Step(h.s, x.st, h.ev, h.order))
  }

  /** A run: every step is possible where it happens. */
  ghost predicate IsRun(x: Situation, run: seq<Happening>)
    requires SoundAt(x)
    decreases |run|
  {
    run == [] || (Happens(x, run[0]) && IsRun(Next(x, run[0]), run[1..]))
  }

  ghost function After(x: Situation, run: seq<Happening>): (r: Situation)
    requires SoundAt(x) && IsRun(x, run)
    ensures SoundAt(r)
    decreases |run|
  {
    if run == [] then x else After(Next(x, run[0]), run[1..])
  }

  /** The invariant spelled out for everything that can be reached from the start while the settings change. */
  lemma ReachableBallots(origin: Settings, run: seq<Happening>)
    requires IsRun(Situation(origin, INITIAL), run)
    ensures var x := After(Situation(origin, INITIAL), run);
            var st, s := x.st, x.origin;
            && !(st.voteStarted != 0 && st.winnerChosen != 0)
            && (st.idle ==> st.voteStarted == 0 && st.winnerChosen == 0)
            && (st.voteStarted == 0 ==> st.votes == map[])
            && (st.voteStarted != 0 ==>
                  && 1 <= |st.options| <= 5
                  && (forall i :: 0 <= i < |st.options| ==>
                        && st.options[i].count == 0 && st.options[i].index == i + 1
                        && (st.options[i].isRevote <==> i == s.options)
                        && if st.options[i].isRevote then st.options[i].haloMap.displayName == "Revote" else FromPool(s, st.options[i]))
                  && (forall i, j :: 0 <= i < j < |st.options| && !st.options[j].isRevote ==>
                        Apart(s.duplication, st.options[i], st.options[j])))
  {
    var x := After(Situation(origin, INITIAL), run);
    var st, s := x.st, x.origin;
    if st.voteStarted != 0 {
      OpenChoices(s, st.options, st.revotesUsed);
      forall i, j | 0 <= i < j < |st.options| && !st.options[j].isRevote
        ensures Apart(s.duplication, st.options[i], st.options[j])
      {
        DuplicatesIff(s.duplication, st.options[i], st.options[j]);
        assert st.options[..s.options][i] == st.options[i] && st.options[..s.options][j] == st.options[j];
      }
    }
    hide After, IsRun, Duplicates, Apart;
  }

  // ----- What a step does -----

  /** A ballot is opened where one is wanted: by the first player to come to the lobby, for a revote that has won, or by a
      new vote. What was chosen before is then no longer waited for. */
  lemma OpensIff(x: Situation, h: Happening)
    requires SoundAt(x) && Happens(x, h)
    ensures var st, t := x.st, Next(x, h).st;
            var opens := match h.ev
              case Tick(_, hosting, players, inLobby, _) => hosting && players > 0 && if st.idle then inLobby else st.revoteFlag
              case StartNewVote(_, hosting, _) => hosting && !st.idle
              case _ => false;
            if opens then |t.log| == |st.log| + 1 && t.log[..|st.log|] == st.log && t.log[|st.log|] == Ballot(t.options, h.s.votingTime)
                          && t.voteStarted == h.ev.now && t.winnerChosen == 0 && !t.idle
            else forall k :: |st.log| <= k < |t.log| ==> !t.log[k].Ballot?
  {
    OrderIsNonEmpty(x.origin, h.s, x.st, h.ev, h.order);
    hide OpenBallot, Pick, Counted, SortOf, Cleared, Shown, WithRevote, Unsigned;
  }

  /** A hosted tick with players around decides an open ballot if and only if its time is over and no revote is pending; and
      nothing else chooses a winner. */
  lemma DecidedIff(x: Situation, h: Happening)
    requires SoundAt(x) && Happens(x, h)
    ensures var st, t, ev := x.st, Next(x, h).st, h.ev;
            var decides := ev.Tick? && ev.hosting && ev.players > 0 && !st.idle && st.voteStarted != 0 && !st.revoteFlag
                           && ev.now - st.voteStarted >= h.s.votingTime;
            && (t.winnerChosen != 0 && t.winnerChosen != st.winnerChosen ==> decides)
            && (decides ==> t.voteStarted == 0 && t.votes == map[] && t.options == h.order &&
                            if t.revoteFlag then t.log == st.log
                            else t.winnerChosen == ev.now && |t.log| == |st.log| + 2 && t.log[..|st.log|] == st.log
                                 && t.log[|st.log|].Winner? && t.log[|st.log| + 1].Prepare?)
            && (ev.Tick? && ev.hosting && ev.players > 0 && !st.idle && !decides && st.voteStarted != 0 && !st.revoteFlag ==> t == st)
  {
    OrderIsNonEmpty(x.origin, h.s, x.st, h.ev, h.order);
    hide OpenBallot, Pick, Counted, SortOf, Cleared, Shown, WithRevote, Unsigned;
  }

  /** A hosted tick with players around starts the game if and only if a winner was chosen longer ago than the delay; that
      closes the countdown. Nothing else starts a game. */
  lemma GameStartsIff(x: Situation, h: Happening)
    requires SoundAt(x) && Happens(x, h)
    ensures var st, t, ev := x.st, Next(x, h).st, h.ev;
            var starts := ev.Tick? && ev.hosting && ev.players > 0 && !st.idle && st.winnerChosen != 0
                          && ev.now - st.winnerChosen > h.s.startDelay;
            && (starts ==> t.log == st.log + [StartGame] && t.winnerChosen == 0 && t.voteStarted == 0 && t.votes == map[]
                           && t.revotesUsed == 0 && !t.idle)
            && (!starts ==> st.log <= t.log && forall k :: |st.log| <= k < |t.log| ==> !t.log[k].StartGame?)
            && (ev.Tick? && ev.hosting && ev.players > 0 && !st.idle && !starts && st.winnerChosen != 0 ==> t == st)
  {
    OrderIsNonEmpty(x.origin, h.s, x.st, h.ev, h.order);
    hide OpenBallot, Pick, Counted, SortOf, Cleared, Shown, WithRevote, Unsigned;
  }

  /** The server goes idle with the last player, which forgets everything, and wakes up with the first one. */
  lemma IdleIff(x: Situation, h: Happening)
    requires SoundAt(x) && Happens(x, h)
    ensures var st, t := x.st, Next(x, h).st;
            && t.idle == (if h.ev.Tick? && h.ev.hosting then h.ev.players == 0 else st.idle)
            && (t.idle && !st.idle ==> t.voteStarted == 0 && t.winnerChosen == 0 && t.votes == map[] && t.revotesUsed == 0)
  {
    OrderIsNonEmpty(x.origin, h.s, x.st, h.ev, h.order);
    hide OpenBallot, Pick, Counted, SortOf, Cleared, Shown, WithRevote, Unsigned;
  }

  // ----- From the winner to the game -----

  /** The step chooses a winner and prepares the game for it. */
  ghost predicate Chooses(x: Situation, h: Happening)
    requires SoundAt(x) && Happens(x, h)
  {
    var st, t := x.st, Next(x, h).st;
    && h.ev.Tick? && t.winnerChosen == h.ev.now && |t.log| == |st.log| + 2 && t.log[..|st.log|] == st.log
    && t.log[|st.log|].Winner? && t.log[|st.log| + 1].Prepare?
  }

  /** A step in which the countdown goes on: nothing is sent, and nothing is started, reset or cancelled. */
  ghost predicate GoesOn(x: Situation, h: Happening)
    requires SoundAt(x) && Happens(x, h)
  {
    && Next(x, h).st.winnerChosen == x.st.winnerChosen != 0 && Next(x, h).st.log == x.st.log
    && !h.ev.Cancel? && (h.ev.StartNewVote? ==> !h.ev.hosting)
  }

  lemma CountdownStep(x: Situation, h: Happening)
    requires SoundAt(x) && Happens(x, h) && Next(x, h).st.winnerChosen != 0
    ensures Chooses(x, h) || GoesOn(x, h)
  {
    OrderIsNonEmpty(x.origin, h.s, x.st, h.ev, h.order);
    hide OpenBallot, Pick, Counted, SortOf, Cleared, Shown, WithRevote, Unsigned;
  }

  ghost predicate AllGoOn(x: Situation, run: seq<Happening>)
    requires SoundAt(x) && IsRun(x, run)
    decreases |run|
  {
    run == [] || (GoesOn(x, run[0]) && AllGoOn(Next(x, run[0]), run[1..]))
  }

  /** In some step of the run a winner is chosen, and from there on the countdown goes on. */
  ghost predicate ChosenSince(x: Situation, run: seq<Happening>)
    requires SoundAt(x) && IsRun(x, run)
    decreases |run|
  {
    run != [] &&
    ((Chooses(x, run[0]) && AllGoOn(Next(x, run[0]), run[1..])) || ChosenSince(Next(x, run[0]), run[1..]))
  }

  lemma {:induction false} ChosenOrGoesOn(x: Situation, run: seq<Happening>)
    requires SoundAt(x) && IsRun(x, run) && After(x, run).st.winnerChosen != 0
    ensures AllGoOn(x, run) || ChosenSince(x, run)
    ensures AllGoOn(x, run) ==> x.st.winnerChosen == After(x, run).st.winnerChosen
    decreases |run|
  {
    if run != [] {
      ChosenOrGoesOn(Next(x, run[0]), run[1..]);
      if AllGoOn(Next(x, run[0]), run[1..]) {
        CountdownStep(x, run[0]);
      }
      hide SoundAt, Happens, Next, Chooses;
    }
  }

  /** In every run from the start, a game is started only after a winner was chosen and the game prepared for it, with no
      ballot, reset or cancel in between. */
  lemma GameFollowsWinner(origin: Settings, run: seq<Happening>, h: Happening)
    requires IsRun(Situation(origin, INITIAL), run)
    requires var x := After(Situation(origin, INITIAL), run);
             Happens(x, h) && Next(x, h).st.log != [] && |Next(x, h).st.log| > |x.st.log| && Next(x, h).st.log[|Next(x, h).st.log| - 1].StartGame?
    ensures ChosenSince(Situation(origin, INITIAL), run)
  {
    var first := Situation(origin, INITIAL);
    var x := After(first, run);
    GameStartsIff(x, h);
    hide After, Next, ChosenSince, IsRun;
    ChosenOrGoesOn(first, run);
  }

  // ----- Revotes -----

  ghost predicate RevoteWins(st: State, h: Happening) {
    Decides(h.s, st, h.ev) && h.order != [] && h.order[|h.order| - 1].isRevote
  }

  /** The step sets the number of revotes back to zero. */
  predicate Resets(s: Settings, st: State, ev: Event) {
    match ev
    case Cancel => true
    case StartNewVote(_, hosting, _) => hosting
    case LogVote(_, _, _) => false
    case Tick(now, hosting, players, _, _) => hosting && !st.idle && (players == 0 || Countdown(s, st, now) != st)
  }

  /** A revote wins only if the number of revotes was below the limit when its ballot was origin; nothing else raises
      the number. */
  lemma RevoteStep(x: Situation, h: Happening)
    requires SoundAt(x) && Happens(x, h)
    ensures RevoteWins(x.st, h) ==> x.st.revotesUsed < x.origin.revotes
    ensures var used := Next(x, h).st.revotesUsed;
            used == if Resets(h.s, x.st, h.ev) then 0 else if RevoteWins(x.st, h) then x.st.revotesUsed + 1 else x.st.revotesUsed
  {
    var st := x.st;
    OrderIsNonEmpty(x.origin, h.s, st, h.ev, h.order);
    if Decides(h.s, st, h.ev) {
      DecidesOpenBallot(x.origin, h.s, st, h.ev);
      WinnerIsCounted(st.options, st.votes, h.order);
      OpenChoices(x.origin, st.options, st.revotesUsed);
      hide SortOf, Counted, Drawn;
      if RevoteWins(st, h) {
      }
    }
    hide Sound, Pick, SortOf, Counted;
  }

  /** The ballots of a run that a revote won, and all its decided ballots. */
  ghost function Decisions(x: Situation, run: seq<Happening>, revotesOnly: bool): nat
    requires SoundAt(x) && IsRun(x, run)
    decreases |run|
  {
    if run == [] then 0
    else
      var h := run[0];
      (if Decides(h.s, x.st, h.ev) && (revotesOnly ==> RevoteWins(x.st, h)) then 1 else 0) +
      Decisions(Next(x, h), run[1..], revotesOnly)
  }

  ghost predicate NeverResets(x: Situation, run: seq<Happening>)
    requires SoundAt(x) && IsRun(x, run)
    decreases |run|
  {
    run == [] || (!Resets(run[0].s, x.st, run[0].ev) && NeverResets(Next(x, run[0]), run[1..]))
  }

  /** Without a reset and with a fixed number of revotes, a chain of ballots picks a map after at most one ballot more
      than there are revotes left. */
  lemma {:induction false} RevoteBound(x: Situation, run: seq<Happening>, revotes: nat)
    requires SoundAt(x) && IsRun(x, run) && NeverResets(x, run)
    requires x.st.revotesUsed <= revotes && (x.st.voteStarted != 0 ==> x.origin.revotes == revotes)
    requires forall h <- run :: h.s.revotes == revotes
    ensures After(x, run).st.revotesUsed == x.st.revotesUsed + Decisions(x, run, true) <= revotes
    ensures Decisions(x, run, false) > revotes - x.st.revotesUsed ==> Decisions(x, run, true) < Decisions(x, run, false)
    decreases |run|
  {
    if run != [] {
      var h := run[0];
      RevoteStep(x, h);
      OpenOnlyIfOriginAfter(x, h);
      RevoteBound(Next(x, h), run[1..], revotes);
      hide SoundAt, Possible, Decides, Resets, Next, RevoteWins;
    }
  }

  /** An open ballot has been origin, now or earlier; a decision is made on an open one. */
  lemma OpenOnlyIfOriginAfter(x: Situation, h: Happening)
    requires SoundAt(x) && Happens(x, h)
    ensures Next(x, h).st.voteStarted != 0 ==> x.st.voteStarted != 0 || Next(x, h).origin == h.s
    ensures Next(x, h).origin == x.origin || Next(x, h).origin == h.s
    ensures RevoteWins(x.st, h) ==> x.st.voteStarted != 0
  {
    if Decides(h.s, x.st, h.ev) {
      DecidesOpenBallot(x.origin, h.s, x.st, h.ev);
    }
    hide OpenBallot, Pick, Counted, SortOf;
  }
}
