/** The chat commands as objects that are updated in place (ElDorito/Source/ChatCommands/ChatCommand.cpp:197-294 and
    ChatCommandMap.cpp:18-47, 81-108, 118-195).

    A map of commands holds the command objects, which are distinct; each of its methods is proved to do one step of the
    machine, and the loops over the commands to visit each of them once, in order. */
module ChatCommands {
  import opened Text
  import opened Tokenizer
  import opened ChatVotes

  class ChatCommand {
    var votesNeeded: nat
    var currentlyVoting: bool
    var voteTimeStarted: int
    var yesVoters: seq<int>
    var playerName: string

    ghost function Value(): Vote
      reads this
    {
      Vote(yesVoters, votesNeeded, currentlyVoting, voteTimeStarted, playerName)
    }

    constructor ()
      ensures Value() == NO_VOTE
    {
      votesNeeded, currentlyVoting, voteTimeStarted, yesVoters, playerName := 0, false, 0, [], "";
    }

    /** Ends the vote, after whatever the command does when it passes or fails. */
    method EndVoting()
      modifies this
      ensures Value() == NO_VOTE
    {
      playerName := "";
      yesVoters := [];
      currentlyVoting := false;
      voteTimeStarted := 0;
      votesNeeded := 0;
    }

    method Tick(env: Env, isEnabled: bool) returns (failed: bool)
      modifies this
      ensures failed == (isEnabled && TimeIsUp(old(Value()), env))
      ensures Value() == if failed then NO_VOTE else old(Value())
    {
      if !isEnabled || voteTimeStarted == 0 {
        return false;
      }
      var elapsed := env.now - voteTimeStarted;
      if elapsed < env.voteTime {
        return false;
      }
      EndVoting();
      return true;
    }

    method ProcessVote(isEnabled: bool, uid: int, message: string) returns (passed: bool)
      modifies this
      ensures var v, yes := old(Value()), isEnabled && Lower(message) == "yes" && uid != 0 && uid !in old(yesVoters);
              && passed == (yes && |v.yesVoters| + 1 >= v.needed)
              && Value() == if passed then NO_VOTE else if yes then v.(yesVoters := v.yesVoters + [uid]) else v
    {
      passed := false;
      if !isEnabled {
        return;
      }
      if Lower(message) == "yes" {
        if uid == 0 {
          return;
        }
        if uid in yesVoters {
          return;
        }
        yesVoters := yesVoters + [uid];
        if |yesVoters| >= votesNeeded {
          EndVoting();
          passed := true;
        }
      }
    }
  }

  class ChatCommandMap {
    const commands: seq<ChatCommand>
    var voteTimes: map<int, int>
    var chatCommandsActive: bool
    var log: seq<(nat, Outcome)>

    predicate Valid() {
      |commands| == |NAMES| && forall i, j :: 0 <= i < j < |commands| ==> commands[i] != commands[j]
    }

    ghost function Votes(): (r: seq<Vote>)
      reads commands
      ensures |r| == |commands| && forall i :: 0 <= i < |r| ==> r[i] == commands[i].Value()
    {
      seq(|commands|, i requires 0 <= i < |commands| reads commands => commands[i].Value())
    }

    ghost function Value(): State
      reads this, commands
    {
      State(Votes(), voteTimes, chatCommandsActive, log)
    }

    constructor (kickPlayer: ChatCommand, kickIndex: ChatCommand, endGame: ChatCommand, shuffleTeams: ChatCommand)
      requires kickPlayer != kickIndex && kickPlayer != endGame && kickPlayer != shuffleTeams
      requires kickIndex != endGame && kickIndex != shuffleTeams && endGame != shuffleTeams
      requires kickPlayer.Value() == kickIndex.Value() == endGame.Value() == shuffleTeams.Value() == NO_VOTE
      ensures Valid() && commands == [kickPlayer, kickIndex, endGame, shuffleTeams] && Value() == INITIAL
    {
      commands := [kickPlayer, kickIndex, endGame, shuffleTeams];
      voteTimes, chatCommandsActive, log := map[], false, [];
      new;
    }

    /** Remembers when somebody started a vote, unless it is too soon for another. */
    method AddToVoteTimes(sender: int, now: int) returns (added: bool)
      modifies this`voteTimes
      ensures added == MayStart(old(voteTimes), sender, now)
      ensures voteTimes == if added then old(voteTimes)[sender := now] else old(voteTimes)
    {
      if sender in voteTimes {
        if now - voteTimes[sender] < 90 {
          return false;
        }
        voteTimes := voteTimes[sender := now];
      } else {
        voteTimes := voteTimes[sender := now];
      }
      return true;
    }

    method ProcessMessage(env: Env, command: nat, uid: int, subject: Option<string>)
      requires Valid() && command < |commands|
      modifies this, commands
      ensures Value() == Ask(old(Value()), env, command, uid, subject)
    {
      hide VotesNeeded;
      var elem := commands[command];
      if command !in env.enabled {
        return;
      }
      if subject.None? {
        return;
      }
      elem.playerName := subject.value;
      var added := AddToVoteTimes(uid, env.now);
      if added {
        elem.votesNeeded := VotesNeeded(env.players, env.percentage);
        elem.currentlyVoting := true;
        elem.voteTimeStarted := env.now;
        log := log + [(command, Started(elem.votesNeeded, elem.playerName))];
      }
    }

    method TickOneCommand(env: Env, command: nat)
      requires Valid() && command < |commands|
      modifies this, commands
      ensures TickFrom(Value(), env, command + 1) == TickFrom(old(Value()), env, command)
    {
      ghost var st := Value();
      var failed := commands[command].Tick(env, command in env.enabled);
      if failed {
        log := log + [(command, Failed)];
      }
      assert Value().votes == if failed then st.votes[command := NO_VOTE] else st.votes;
    }

    method Tick(env: Env, hosting: bool)
      requires Valid()
      modifies this, commands
      ensures Value() == Step(old(Value()), Event.Tick(env, hosting))
    {
      if !hosting {
        return;
      }
      if chatCommandsActive {
        var i := 0;
        while i < |commands|
          invariant 0 <= i <= |commands|
          invariant TickFrom(Value(), env, i) == TickFrom(old(Value()), env, 0)
        {
          TickOneCommand(env, i);
          i := i + 1;
        }
      }
    }

    method EndOneCommand(command: nat)
      requires Valid() && command < |commands|
      modifies this, commands
      ensures EndFrom(Value(), command + 1) == EndFrom(old(Value()), command)
    {
      ghost var st := Value();
      var elem := commands[command];
      if elem.currentlyVoting {
        log := log + [(command, Failed)];
        elem.EndVoting();
        assert Value().votes == st.votes[command := NO_VOTE];
      }
    }

    method GameEnded()
      requires Valid()
      modifies this, commands
      ensures Value() == Step(old(Value()), GameEnds)
    {
      ghost var st := Value().(voteTimes := map[], active := false);
      voteTimes := map[];
      chatCommandsActive := false;
      assert Value() == st;
      var i := 0;
      while i < |commands|
        invariant 0 <= i <= |commands|
        invariant EndFrom(Value(), i) == EndFrom(st, 0)
      {
        EndOneCommand(i);
        i := i + 1;
      }
    }

    method GameStarted()
      requires Valid()
      modifies this
      ensures Value() == Step(old(Value()), GameStarts)
    {
      chatCommandsActive := true;
    }

    /** A message after its exclamation mark: a question, or a vote, or the start of one, which has to have a word. */
    method HandleChatMessage(env: Env, uid: int, line: string, subject: Option<string>) returns (handled: bool)
      requires Valid()
      requires !IsQuestion(line) && chatCommandsActive && (forall c <- commands :: !c.currentlyVoting) ==> Split(CStr(line)) != []
      modifies this, commands
      ensures Value() == Step(old(Value()), Message(env, uid, line, subject))
      ensures handled == (IsQuestion(line) || old(chatCommandsActive))
    {
      hide Split, CStr, Lower, TickFrom, EndFrom, Ask;
      if line == "help" {
        return true;
      } else if line == "listPlayers" || line == "list" {
        return true;
      }
      if !chatCommandsActive {
        return false;
      }
      ghost var st := Value();
      var i := 0;
      while i < |commands|
        invariant 0 <= i <= |commands| && Value() == st
        invariant VotingFrom(st.votes, i) == VotingFrom(st.votes, 0)
      {
        assert st.votes[i] == commands[i].Value();
        if commands[i].currentlyVoting {
          Answer(env, i, uid, line);
          return true;
        }
        i := i + 1;
      }
      assert forall c <- commands :: !c.currentlyVoting by { NobodyVotes(st); }
      var args := Split(CStr(line));
      Dispatch(env, Lower(args[0]), uid, subject);
      return true;
    }

    lemma NobodyVotes(st: State)
      requires st == Value() && VotingFrom(st.votes, 0) == None
      ensures forall c <- commands :: !c.currentlyVoting
    {
      forall i | 0 <= i < |commands| ensures !commands[i].currentlyVoting {
        assert !st.votes[i].voting;
      }
    }

    method Answer(env: Env, command: nat, uid: int, line: string)
      requires Valid() && command < |commands|
      modifies this, commands
      ensures Value() == Say(old(Value()), env, command, uid, line)
    {
      hide Lower;
      ghost var st := Value();
      var elem := commands[command];
      var subject := elem.playerName;
      var passed := elem.ProcessVote(command in env.enabled, uid, line);
      if passed {
        log := log + [(command, Passed(subject))];
      }
      assert Value().votes == st.votes[command := elem.Value()];
    }

    method Dispatch(env: Env, cmd: string, uid: int, subject: Option<string>)
      requires Valid()
      modifies this, commands
      ensures Value() == var command := Named(cmd, 0);
                         if command.Some? then Ask(old(Value()), env, command.value, uid, subject) else old(Value())
    {
      hide Ask, Lower;
      ghost var st := Value();
      var i := 0;
      while i < |commands|
        invariant 0 <= i <= |commands|
        invariant var command := Named(cmd, 0);
                  if command.Some? && command.value < i then Value() == Ask(st, env, command.value, uid, subject)
                  else Value() == st && Named(cmd, i) == command
      {
        if Lower(NAMES[i]) == cmd {
          ProcessMessage(env, i, uid, subject);
        }
        i := i + 1;
      }
    }

  }
}
