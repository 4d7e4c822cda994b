/** Votes on chat commands (ElDorito/Source/ChatCommands): who may start one, when it passes and when it fails. */
module ChatVotes {
  import opened Integers
  import opened Text
  import opened Tokenizer

  /** The commands in the order in which they are registered. */
  const NAMES: seq<string> := ["kick", "kickIndex", "endGame", "shuffleTeams"]

  /** One command. `subject` is the player that a kick is about. */
  datatype Vote = Vote(yesVoters: seq<int>, needed: nat, voting: bool, started: int, subject: string)

  const NO_VOTE: Vote := Vote([], 0, false, 0, "")

  datatype Outcome = Started(needed: nat, subject: string) | Passed(subject: string) | Failed

  /** `log` holds what happened to which command. */
  datatype State = State(votes: seq<Vote>, voteTimes: map<int, int>, active: bool, log: seq<(nat, Outcome)>)

  const INITIAL: State := State([NO_VOTE, NO_VOTE, NO_VOTE, NO_VOTE], map[], false, [])

  /** The clock, the settings and the number of players at an event. */
  datatype Env = Env(now: int, enabled: set<nat>, percentage: nat, voteTime: nat, players: nat)

  /** A message is the text after its exclamation mark. `subject` tells whether its arguments are accepted. `uid` is what
      the source takes for the sender's identifier: it looks the sender's peer index up in the table of players, so a
      player is whoever's identifier that slot holds. */
  datatype Event =
    | Tick(env: Env, hosting: bool)
    | Message(env: Env, uid: int, line: string, subject: Option<string>)
    | GameStarts
    | GameEnds

  /** How many have to say yes, in unsigned 32-bit arithmetic. */
  function VotesNeeded(players: nat, percentage: nat): nat {
    1 + ((players - 1) % TWO_32 * percentage) % TWO_32 / 100
  }

  predicate TimeIsUp(v: Vote, env: Env) {
    v.started != 0 && env.now - v.started >= env.voteTime
  }

  function TickOne(v: Vote, env: Env, command: nat): Vote {
    if command in env.enabled && TimeIsUp(v, env) then NO_VOTE else v
  }

  /** Every command in turn; those that run out of time fail. */
  function TickFrom(st: State, env: Env, command: nat): State
    decreases |st.votes| - command
  {
    if command >= |st.votes| then st
    else
      var v := st.votes[command];
      var t := if command in env.enabled && TimeIsUp(v, env)
               then st.(votes := st.votes[command := NO_VOTE], log := st.log + [(command, Failed)]) else st;
      TickFrom(t, env, command + 1)
  }

  /** The game is over: every vote fails. */
  function EndFrom(st: State, command: nat): State
    decreases |st.votes| - command
  {
    if command >= |st.votes| then st
    else
      var t := if st.votes[command].voting
               then st.(votes := st.votes[command := NO_VOTE], log := st.log + [(command, Failed)]) else st;
      EndFrom(t, command + 1)
  }

  /** The first command that is being voted on. */
  function VotingFrom(votes: seq<Vote>, command: nat): (r: Option<nat>)
    ensures r.Some? ==> command <= r.value < |votes| && votes[r.value].voting
    ensures r.None? ==> forall k :: command <= k < |votes| ==> !votes[k].voting
    decreases |votes| - command
  {
    if command >= |votes| then None
    else if votes[command].voting then Some(command) else VotingFrom(votes, command + 1)
  }

  function Named(name: string, command: nat): (r: Option<nat>)
    ensures r.Some? ==> command <= r.value < |NAMES| && Lower(NAMES[r.value]) == name
    ensures r.None? ==> forall k :: command <= k < |NAMES| ==> Lower(NAMES[k]) != name
    decreases |NAMES| - command
  {
    if command >= |NAMES| then None
    else if Lower(NAMES[command]) == name then Some(command) else Named(name, command + 1)
  }

  /** Somebody speaks while a command is being voted on: only "yes" counts, once for each player. */
  function Say(st: State, env: Env, command: nat, uid: int, line: string): State
    requires command < |st.votes|
  {
    var v := st.votes[command];
    if command !in env.enabled || Lower(line) != "yes" || uid == 0 || uid in v.yesVoters then st
    else
      var voters := v.yesVoters + [uid];
      if |voters| >= v.needed then st.(votes := st.votes[command := NO_VOTE], log := st.log + [(command, Passed(v.subject))])
      else st.(votes := st.votes[command := v.(yesVoters := voters)])
  }

  predicate MayStart(voteTimes: map<int, int>, uid: int, now: int) {
    uid in voteTimes ==> now - voteTimes[uid] >= 90
  }

  /** Somebody asks for a vote on a command. */
  function Ask(st: State, env: Env, command: nat, uid: int, subject: Option<string>): State
    requires command < |st.votes|
  {
    var v := st.votes[command];
    if command !in env.enabled || subject.None? then st
    else if !MayStart(st.voteTimes, uid, env.now) then st.(votes := st.votes[command := v.(subject := subject.value)])
    else
      var needed := VotesNeeded(env.players, env.percentage);
      st.(votes := st.votes[command := v.(needed := needed, voting := true, started := env.now, subject := subject.value)],
          voteTimes := st.voteTimes[uid := env.now], log := st.log + [(command, Started(needed, subject.value))])
  }

  predicate IsQuestion(line: string) {
    line == "help" || line == "listPlayers" || line == "list"
  }

  function Hear(st: State, env: Env, uid: int, line: string, subject: Option<string>): State
    requires |st.votes| == |NAMES|
  {
    if IsQuestion(line) || !st.active then st
    else
      var voting := VotingFrom(st.votes, 0);
      if voting.Some? then Say(st, env, voting.value, uid, line)
      else
        var words := Split(CStr(line));
        if words == [] then st
        else
          var command := Named(Lower(words[0]), 0);
          if command.Some? then Ask(st, env, command.value, uid, subject) else st
  }

  function Step(st: State, ev: Event): State
    requires |st.votes| == |NAMES|
  {
    match ev
    case Tick(env, hosting) => if hosting && st.active then TickFrom(st, env, 0) else st
    case Message(env, uid, line, subject) => Hear(st, env, uid, line, subject)
    case GameStarts => st.(active := true)
    case GameEnds => EndFrom(st.(voteTimes := map[], active := false), 0)
  }

  // ----- The invariant -----

  predicate Distinct(s: seq<int>) {
    forall i, j :: 0 <= i < j < |s| ==> s[i] != s[j]
  }

  /** Who has said yes is someone, and said it once; and there are not enough of them yet. */
  predicate VoteSound(v: Vote) {
    if v.voting then Distinct(v.yesVoters) && 0 !in v.yesVoters && |v.yesVoters| < v.needed && v.started != 0
    else v.yesVoters == [] && v.needed == 0 && v.started == 0
  }

  ghost predicate Sound(st: State) {
    && |st.votes| == |NAMES|
    && (forall v <- st.votes :: VoteSound(v))
    && (forall i, j :: 0 <= i < j < |st.votes| ==> !(st.votes[i].voting && st.votes[j].voting))
    && (!st.active ==> forall v <- st.votes :: !v.voting)
  }

  /** No event happens at time zero. */
  predicate Timed(ev: Event) {
    ev.Tick? || ev.Message? ==> ev.env.now != 0
  }

  /** Ending the votes of some commands keeps the invariant, and of the others changes nothing. */
  ghost predicate SomeEnded(before: State, after: State) {
    && |before.votes| == |after.votes| && after.voteTimes == before.voteTimes && after.active == before.active
    && before.log <= after.log
    && forall k :: 0 <= k < |before.votes| ==> after.votes[k] == before.votes[k] || after.votes[k] == NO_VOTE
  }

  lemma {:induction false} TickFromIs(st: State, env: Env, command: nat)
    ensures var after := TickFrom(st, env, command);
            && SomeEnded(st, after)
            && forall k :: 0 <= k < |st.votes| ==>
                 after.votes[k] == if k < command then st.votes[k] else TickOne(st.votes[k], env, k)
    decreases |st.votes| - command
  {
    if command < |st.votes| {
      hide TimeIsUp;
      var v := st.votes[command];
      var t := if command in env.enabled && TimeIsUp(v, env)
               then st.(votes := st.votes[command := NO_VOTE], log := st.log + [(command, Failed)]) else st;
      TickFromIs(t, env, command + 1);
    }
  }

  lemma {:induction false} EndFromIs(st: State, command: nat)
    ensures var after := EndFrom(st, command);
            && SomeEnded(st, after)
            && forall k :: command <= k < |st.votes| ==> !after.votes[k].voting
    decreases |st.votes| - command
  {
    if command < |st.votes| {
      var t := if st.votes[command].voting
               then st.(votes := st.votes[command := NO_VOTE], log := st.log + [(command, Failed)]) else st;
      EndFromIs(t, command + 1);
    }
  }

  lemma SayIsSound(st: State, env: Env, command: nat, uid: int, line: string)
    requires Sound(st) && command < |st.votes| && st.votes[command].voting && st.active
    ensures Sound(Say(st, env, command, uid, line))
  {
    assert VoteSound(st.votes[command]);
    hide Lower;
  }

  lemma AskIsSound(st: State, env: Env, command: nat, uid: int, subject: Option<string>)
    requires Sound(st) && command < |st.votes| && env.now != 0 && st.active && forall v <- st.votes :: !v.voting
    ensures Sound(Ask(st, env, command, uid, subject))
  {
    assert VoteSound(st.votes[command]);
    hide MayStart, VotesNeeded;
    assert VotesNeeded(env.players, env.percentage) >= 1;
    var after := Ask(st, env, command, uid, subject);
    forall i, j | 0 <= i < j < |after.votes| ensures !(after.votes[i].voting && after.votes[j].voting) {
      assert st.votes[i] in st.votes && st.votes[j] in st.votes;
    }
  }

  lemma HearIsSound(st: State, env: Env, uid: int, line: string, subject: Option<string>)
    requires Sound(st) && env.now != 0
    ensures Sound(Hear(st, env, uid, line, subject))
  {
    assert |st.votes| == |NAMES|;
    hide Sound, Say, Ask, Named, Split, CStr, Lower, IsQuestion;
    if st.active {
      var voting := VotingFrom(st.votes, 0);
      if voting.Some? {
        SayIsSound(st, env, voting.value, uid, line);
      } else {
        forall command: nat | command < |st.votes| ensures Sound(Ask(st, env, command, uid, subject)) {
          AskIsSound(st, env, command, uid, subject);
        }
      }
    }
  }

  /** Every event keeps the invariant: at most one command is being voted on, and while it is, those who have said yes
      are distinct, not nobody, and fewer than needed. */
  lemma StepIsSound(st: State, ev: Event)
    requires Sound(st) && Timed(ev)
    ensures Sound(Step(st, ev))
  {
    match ev {
      case Tick(env, hosting) =>
        if hosting && st.active {
          TickFromIs(st, env, 0);
        }
      case Message(env, uid, line, subject) =>
        HearIsSound(st, env, uid, line, subject);
      case GameStarts =>
      case GameEnds =>
        EndFromIs(st.(voteTimes := map[], active := false), 0);
    }
  }

  // ----- Runs -----

  predicate AllTimed(events: seq<Event>) {
    forall ev <- events :: Timed(ev)
  }

  ghost function After(st: State, events: seq<Event>): (r: State)
    requires Sound(st) && AllTimed(events)
    ensures Sound(r)
  {
    if events == [] then st
    else
      var before := events[..|events| - 1];
      assert AllTimed(before) by { assert forall ev <- before :: ev in events; }
      StepIsSound(After(st, before), events[|events| - 1]);
      Step(After(st, before), events[|events| - 1])
  }

  /** In every state that is reached from the start at most one command is being voted on, and only in a game; who has
      said yes is someone, said it once, and there are not enough of them yet. */
  lemma ReachableVotes(events: seq<Event>)
    requires AllTimed(events)
    ensures Sound(INITIAL)
    ensures var st := After(INITIAL, events);
            && |st.votes| == |NAMES|
            && (forall i, j :: 0 <= i < j < |st.votes| ==> !(st.votes[i].voting && st.votes[j].voting))
            && (forall v <- st.votes :: v.voting ==>
                  st.active && Distinct(v.yesVoters) && 0 !in v.yesVoters && |v.yesVoters| < v.needed)
  {
    var st := After(INITIAL, events);
    assert forall v <- st.votes :: VoteSound(v);
    hide After;
  }

  /** Of the starts and ends of games, the latest is a start. */
  predicate InGame(events: seq<Event>) {
    events != [] &&
    var ev := events[|events| - 1];
    ev == GameStarts || (ev != GameEnds && InGame(events[..|events| - 1]))
  }

  /** Commands are heard exactly while a game is on. */
  lemma {:induction false} ActiveInGame(events: seq<Event>)
    requires AllTimed(events)
    ensures Sound(INITIAL) && (After(INITIAL, events).active <==> InGame(events))
  {
    if events != [] {
      var before, ev := events[..|events| - 1], events[|events| - 1];
      assert AllTimed(before) by { assert forall e <- before :: e in events; }
      ActiveInGame(before);
      ActiveStep(After(INITIAL, before), ev);
      hide Step, Sound;
    }
  }

  lemma ActiveStep(st: State, ev: Event)
    requires |st.votes| == |NAMES|
    ensures Step(st, ev).active == (ev == GameStarts || (ev != GameEnds && st.active))
  {
    hide Split, CStr, Lower, IsQuestion, VotesNeeded, VotingFrom, Named;
    match ev {
      case Tick(env, _) => TickFromIs(st, env, 0);
      case GameEnds => EndFromIs(st.(voteTimes := map[], active := false), 0);
      case _ =>
    }
  }

  // ----- When a vote passes -----

  /** The event is a yes to the vote on a command. */
  predicate SaysYes(ev: Event, command: nat) {
    ev.Message? && command in ev.env.enabled && Lower(ev.line) == "yes" && ev.uid != 0
  }

  function YesSayers(events: seq<Event>, command: nat): set<int> {
    if events == [] then {}
    else
      var before, ev := events[..|events| - 1], events[|events| - 1];
      YesSayers(before, command) + if SaysYes(ev, command) then {ev.uid} else {}
  }

  /** What an event does while a command is being voted on. */
  lemma StepWhileVoting(st: State, ev: Event, command: nat)
    requires Sound(st) && command < |st.votes| && st.votes[command].voting
    ensures var v, after := st.votes[command], Step(st, ev);
            |after.votes| == |NAMES| &&
            match ev
            case Message(env, uid, line, _) =>
              if SaysYes(ev, command) && uid !in v.yesVoters then
                if |v.yesVoters| + 1 >= v.needed
                then after.log == st.log + [(command, Passed(v.subject))] && after.votes[command] == Vote([], 0, false, 0, "")
                else after.log == st.log && after.votes[command] == v.(yesVoters := v.yesVoters + [uid])
              else after == st
            case Tick(env, hosting) =>
              if hosting && command in env.enabled && TimeIsUp(v, env)
              then after.log == st.log + [(command, Failed)] && after.votes[command] == Vote([], 0, false, 0, "")
              else after == st
            case GameStarts => after.log == st.log && after.votes == st.votes
            case GameEnds => after.log == st.log + [(command, Failed)] && after.votes[command] == Vote([], 0, false, 0, "")
  {
    OnlyOneVotes(st, command);
    match ev {
      case Message(env, uid, line, subject) =>
        assert VotingFrom(st.votes, 0) == Some(command);
        if Lower(line) == "yes" {
        }
        hide Sound, Lower, VotingFrom, Ask;
      case Tick(env, hosting) =>
        OnlyOneTicks(st, env, command, 0);
      case GameStarts =>
      case GameEnds =>
        OnlyOneEnds(st.(voteTimes := map[], active := false), command, 0);
    }
  }

  lemma OnlyOneVotes(st: State, command: nat)
    requires Sound(st) && command < |st.votes| && st.votes[command].voting
    ensures st.active && forall k :: 0 <= k < |st.votes| && k != command ==> !st.votes[k].voting && st.votes[k].started == 0
  {
    forall k | 0 <= k < |st.votes| && k != command ensures !st.votes[k].voting && st.votes[k].started == 0 {
      assert st.votes[k] in st.votes;
      var one, other := st.votes[command].voting, st.votes[k].voting;
    }
  }

  lemma {:induction false} OnlyOneTicks(st: State, env: Env, command: nat, from: nat)
    requires command < |st.votes| && from <= |st.votes|
    requires forall k :: 0 <= k < |st.votes| && k != command ==> st.votes[k].started == 0
    ensures TickFrom(st, env, from) ==
            if from <= command && command in env.enabled && TimeIsUp(st.votes[command], env)
            then st.(votes := st.votes[command := NO_VOTE], log := st.log + [(command, Failed)]) else st
    decreases |st.votes| - from
  {
    if from < |st.votes| {
      if from == command && command in env.enabled && TimeIsUp(st.votes[command], env) {
        OnlyOneTicks(st.(votes := st.votes[command := NO_VOTE], log := st.log + [(command, Failed)]), env, command, from + 1);
      } else {
        OnlyOneTicks(st, env, command, from + 1);
      }
    }
  }

  lemma {:induction false} OnlyOneEnds(st: State, command: nat, from: nat)
    requires command < |st.votes| && from <= |st.votes|
    requires forall k :: 0 <= k < |st.votes| && k != command ==> !st.votes[k].voting
    ensures EndFrom(st, from) ==
            if from <= command && st.votes[command].voting
            then st.(votes := st.votes[command := NO_VOTE], log := st.log + [(command, Failed)]) else st
    decreases |st.votes| - from
  {
    if from < |st.votes| {
      if from == command && st.votes[command].voting {
        OnlyOneEnds(st.(votes := st.votes[command := NO_VOTE], log := st.log + [(command, Failed)]), command, from + 1);
      } else {
        OnlyOneEnds(st, command, from + 1);
      }
    }
  }

  /** Until something comes of a vote, the players in its list are those who have said yes since it was started. */
  lemma {:induction false} OpenVote(st: State, command: nat, events: seq<Event>)
    requires Sound(st) && AllTimed(events) && command < |st.votes|
    requires st.votes[command].voting && st.votes[command].yesVoters == []
    ensures st.log <= After(st, events).log
    ensures After(st, events).log == st.log ==>
              var v, now := st.votes[command], After(st, events).votes[command];
              && now == v.(yesVoters := now.yesVoters)
              && (set uid | uid in now.yesVoters) == YesSayers(events, command)
  {
    if events != [] {
      var before, ev := events[..|events| - 1], events[|events| - 1];
      OpenVote(st, command, before);
      var mid := After(st, before);
      hide After, Sound, SaysYes;
      StepLog(mid, ev);
      if mid.log == st.log {
        StepWhileVoting(mid, ev, command);
      }
    }
  }

  /** What has come of votes is never forgotten. */
  lemma StepLog(st: State, ev: Event)
    requires |st.votes| == |NAMES|
    ensures st.log <= Step(st, ev).log
  {
    match ev {
      case Tick(env, _) => TickFromIs(st, env, 0);
      case GameEnds => EndFromIs(st.(voteTimes := map[], active := false), 0);
      case _ =>
    }
  }

  lemma {:induction false} DistinctCount(s: seq<int>)
    requires Distinct(s)
    ensures |set x | x in s| == |s|
  {
    if s != [] {
      var front, last := s[..|s| - 1], s[|s| - 1];
      DistinctCount(front);
      assert s == front + [last];
      assert (set x | x in s) == (set x | x in front) + {last};
    }
  }

  /** What can come of a vote in one event. */
  lemma WhatComesOfIt(st: State, ev: Event, command: nat)
    requires Sound(st) && command < |st.votes| && st.votes[command].voting
    ensures |Step(st, ev).votes| == |NAMES|
    ensures var v, log := st.votes[command], Step(st, ev).log;
            && (log == st.log + [(command, Passed(v.subject))] <==>
                SaysYes(ev, command) && ev.uid !in v.yesVoters && |v.yesVoters| + 1 >= v.needed)
            && (log == st.log + [(command, Failed)] <==>
                ev.GameEnds? || (ev.Tick? && ev.hosting && command in ev.env.enabled && TimeIsUp(v, ev.env)))
  {
    StepWhileVoting(st, ev, command);
    OneOutcome(st.log, (command, Failed), (command, Passed(st.votes[command].subject)));
    hide Step, SaysYes, TimeIsUp, Sound;
    match ev {
      case Message(_, _, _, _) =>
      case Tick(_, _) =>
      case GameStarts =>
      case GameEnds =>
    }
  }

  lemma OneOutcome(log: seq<(nat, Outcome)>, a: (nat, Outcome), b: (nat, Outcome))
    requires a != b
    ensures log + [a] != log && log + [b] != log && log + [a] != log + [b]
  {
    assert (log + [a])[|log|] == a && (log + [b])[|log|] == b;
    assert |log + [a]| == |log + [b]| == |log| + 1;
  }

  lemma LastYes(events: seq<Event>, ev: Event, command: nat)
    ensures var voters := YesSayers(events, command);
            |YesSayers(events + [ev], command)| == |voters| + if SaysYes(ev, command) && ev.uid !in voters then 1 else 0
  {
    assert (events + [ev])[..|events + [ev]| - 1] == events;
    var voters := YesSayers(events, command);
    if SaysYes(ev, command) && ev.uid in voters {
      assert voters + {ev.uid} == voters;
    }
  }

  /** A vote passes exactly with the event by which as many players have said yes as were needed when it started; what
      passes is what the vote was started for. */
  lemma PassesExactlyWhen(st: State, command: nat, events: seq<Event>, ev: Event)
    requires Sound(st) && AllTimed(events) && command < |st.votes|
    requires st.votes[command].voting && st.votes[command].yesVoters == []
    requires After(st, events).log == st.log
    ensures var v, after, voters := st.votes[command], Step(After(st, events), ev), YesSayers(events + [ev], command);
            && |YesSayers(events, command)| < v.needed
            && (after.log == st.log + [(command, Passed(v.subject))] <==> |voters| >= v.needed)
            && (|voters| >= v.needed <==> |voters| == v.needed)
  {
    OpenVote(st, command, events);
    var mid := After(st, events);
    var now := mid.votes[command];
    assert VoteSound(now);
    DistinctCount(now.yesVoters);
    WhatComesOfIt(mid, ev, command);
    hide After, Sound, Step, SaysYes;
    LastYes(events, ev, command);
    assert ev.Message? ==> (ev.uid in now.yesVoters <==> ev.uid in YesSayers(events, command));
  }

  /** A vote fails exactly when the game ends, or a tick finds its time over while its command is enabled. */
  lemma FailsExactlyWhen(st: State, command: nat, ev: Event)
    requires Sound(st) && command < |st.votes| && st.votes[command].voting
    ensures Step(st, ev).log == st.log + [(command, Failed)] <==>
            ev.GameEnds? || (ev.Tick? && ev.hosting && command in ev.env.enabled
                             && ev.env.now - st.votes[command].started >= ev.env.voteTime)
  {
    WhatComesOfIt(st, ev, command);
    assert VoteSound(st.votes[command]);
    hide Step, SaysYes;
  }

  /** There are always enough players to pass a vote, if there is anyone in the game. */
  lemma VotesNeededIff(players: nat, percentage: nat)
    requires percentage <= 100 && players < 40_000_000
    ensures 1 <= VotesNeeded(players, percentage) <= players <==> players >= 1
  {
    if players >= 1 {
      var product := (players - 1) * percentage;
      assert product <= (players - 1) * 100;
      SmallMod(players - 1, TWO_32);
      SmallMod(product, TWO_32);
    }
  }

  /** The votes needed are one more than the wanted percentage of the other players, rounded down. */
  lemma VotesNeededIs(players: nat, percentage: nat)
    requires 1 <= players < 40_000_000 && percentage <= 100
    ensures var needed := VotesNeeded(players, percentage);
            1 <= needed && (needed - 1) * 100 <= (players - 1) * percentage < needed * 100
  {
    var product := (players - 1) * percentage;
    assert 0 <= product <= (players - 1) * 100;
    SmallMod(players - 1, TWO_32);
    SmallMod(product, TWO_32);
  }

  // ----- How often a player may start votes -----

  predicate StartsVote(st: State, ev: Event, uid: int)
    requires |st.votes| == |NAMES|
  {
    ev.Message? && ev.uid == uid && |Step(st, ev).log| == |st.log| + 1 && Step(st, ev).log[|st.log|].1.Started?
  }

  /** A vote starts fresh, with the number of votes that its players need, and nobody else's in the way. */
  lemma StartedVoteIsFresh(st: State, ev: Event, uid: int)
    requires Sound(st) && StartsVote(st, ev, uid)
    ensures forall v <- st.votes :: !v.voting
    ensures st.active && ev.subject.Some?
    ensures var (command, outcome), after := Step(st, ev).log[|st.log|], Step(st, ev);
            && command < |NAMES| && command in ev.env.enabled
            && outcome == Started(VotesNeeded(ev.env.players, ev.env.percentage), ev.subject.value)
            && after.votes == st.votes[command := Vote([], outcome.needed, true, ev.env.now, outcome.subject)]
            && (1 <= ev.env.players < 40_000_000 && ev.env.percentage <= 100 ==>
                  (outcome.needed - 1) * 100 <= (ev.env.players - 1) * ev.env.percentage < outcome.needed * 100)
  {
    if 1 <= ev.env.players < 40_000_000 && ev.env.percentage <= 100 {
      VotesNeededIs(ev.env.players, ev.env.percentage);
    }
    hide Lower, Split, CStr, IsQuestion, VotesNeeded;
    var command := Step(st, ev).log[|st.log|].0;
    assert st.votes[command] in st.votes;
  }

  /** A message starts a vote if and only if it is said in a game in which nobody is voting, names an enabled command with
      arguments that are accepted, and its sender has not started a vote within ninety seconds. */
  lemma StartsIff(st: State, ev: Event)
    requires Sound(st) && ev.Message?
    ensures |st.votes| == |NAMES|
    ensures StartsVote(st, ev, ev.uid) <==>
            && st.active && (forall v <- st.votes :: !v.voting)
            && ev.line != "help" && ev.line != "listPlayers" && ev.line != "list"
            && ev.subject.Some? && (ev.uid in st.voteTimes ==> ev.env.now - st.voteTimes[ev.uid] >= 90)
            && var words := Split(CStr(ev.line));
               words != [] && exists k :: 0 <= k < |NAMES| && k in ev.env.enabled && Lower(NAMES[k]) == Lower(words[0])
  {
    NamesDiffer();
    assert IsQuestion(ev.line) <==> ev.line == "help" || ev.line == "listPlayers" || ev.line == "list";
    hide Split, CStr, Lower, IsQuestion, VotesNeeded;
    if VotingFrom(st.votes, 0).Some? {
      assert st.votes[VotingFrom(st.votes, 0).value] in st.votes;
    } else {
      assert forall v <- st.votes :: !v.voting;
    }
  }

  /** Within the ninety seconds a message starts nothing, but the command it names remembers the new subject. */
  lemma TooEarlyIs(st: State, ev: Event, command: nat)
    requires Sound(st) && ev.Message? && st.active && forall v <- st.votes :: !v.voting
    requires ev.line != "help" && ev.line != "listPlayers" && ev.line != "list"
    requires ev.subject.Some? && ev.uid in st.voteTimes && ev.env.now - st.voteTimes[ev.uid] < 90
    requires var words := Split(CStr(ev.line));
             words != [] && command < |NAMES| && command in ev.env.enabled && Lower(NAMES[command]) == Lower(words[0])
    ensures Step(st, ev) == st.(votes := st.votes[command := st.votes[command].(subject := ev.subject.value)])
  {
    NamesDiffer();
    assert !IsQuestion(ev.line);
    hide Split, CStr, Lower, IsQuestion, VotesNeeded;
  }

  lemma NamesDiffer()
    ensures forall j, k :: 0 <= j < k < |NAMES| ==> Lower(NAMES[j]) != Lower(NAMES[k])
  {
    assert |NAMES[0]| == 4 && |NAMES[1]| == 9 && |NAMES[2]| == 7 && |NAMES[3]| == 12;
  }

  lemma VoteTimesOf(st: State, ev: Event, uid: int)
    requires |st.votes| == |NAMES| && !ev.GameEnds? && uid in st.voteTimes
    ensures uid in Step(st, ev).voteTimes && st.voteTimes[uid] <= Step(st, ev).voteTimes[uid]
  {
    hide Lower, Split, CStr, Named, IsQuestion, VotesNeeded, VotingFrom;
    if ev.Tick? {
      TickFromIs(st, ev.env, 0);
    }
  }

  lemma {:induction false} VoteTimesGrow(st: State, events: seq<Event>, uid: int)
    requires Sound(st) && AllTimed(events) && uid in st.voteTimes && forall ev <- events :: !ev.GameEnds?
    ensures uid in After(st, events).voteTimes && st.voteTimes[uid] <= After(st, events).voteTimes[uid]
  {
    if events != [] {
      var before := events[..|events| - 1];
      assert forall ev <- before :: ev in events;
      VoteTimesGrow(st, before, uid);
      hide After, Sound, Step;
      VoteTimesOf(After(st, before), events[|events| - 1], uid);
    }
  }

  /** Between two ends of a game, a player who has started a vote cannot start another for ninety seconds, on whatever
      command and whatever happens in between. */
  lemma StartsAreApart(st: State, first: Event, between: seq<Event>, second: Event, uid: int)
    requires Sound(st) && Timed(first) && StartsVote(st, first, uid)
    requires Sound(Step(st, first)) && AllTimed(between) && forall ev <- between :: !ev.GameEnds?
    requires StartsVote(After(Step(st, first), between), second, uid)
    ensures second.env.now - first.env.now >= 90
  {
    assert |st.votes| == |NAMES| && |After(Step(st, first), between).votes| == |NAMES|;
    hide Sound, After, Step, StartsVote;
    var mid := Step(st, first);
    VoteTimesGrow(mid, between, uid);
  }
}
