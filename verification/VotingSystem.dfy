/** The map-voting state that the server keeps and updates in place
    (ElDorito/Source/Server/VotingSystem.cpp:71-87, 104-110, 219-296, 329-391, 411-457).

    `Value` is the state of the machine whose runs are reasoned about; each method is proved to do one of its steps. Of
    sorting nothing is used but that it leaves some order by count, so the options afterwards tell which. */
module VotingSystem {
  import opened Text
  import opened Collections
  import opened MapVoting
  import VotingResults

  /** `std::sort` by count. Nothing more than this contract is used of it: it need not be stable. */
  method Sort(choices: seq<Choice>) returns (order: seq<Choice>)
    ensures SortOf(order, choices)
  {
    order := VotingResults.StableSort(choices);
    VotingResults.StableSortIs(choices);
  }

  lemma NoneCounted(options: seq<Choice>, votes: map<string, int>)
    ensures CountedAmong(options, votes, {}) == options
  {
    assert forall choice :: VotersFor(votes, {}, choice) == {};
  }

  lemma OneMoreVoter(votes: map<string, int>, names: set<string>, name: string, choice: int)
    requires name in votes && name !in names
    ensures CountAmong(votes, names + {name}, choice) == CountAmong(votes, names, choice) + if votes[name] == choice then 1 else 0
  {
    var before, after := VotersFor(votes, names, choice), VotersFor(votes, names + {name}, choice);
    if votes[name] == choice {
      assert after == before + {name};
    } else {
      assert after == before;
    }
  }

  /** Counting one more name. */
  lemma OneMoreCounted(options: seq<Choice>, votes: map<string, int>, names: set<string>, name: string)
    requires name in votes && name !in names
    ensures var before, after, v := CountedAmong(options, votes, names), CountedAmong(options, votes, names + {name}), votes[name];
            after == if 1 <= v <= |options| then before[v - 1 := before[v - 1].(count := before[v - 1].count + 1)] else before
  {
    forall choice: int
      ensures CountAmong(votes, names + {name}, choice) ==
              CountAmong(votes, names, choice) + if votes[name] == choice then 1 else 0
    {
      OneMoreVoter(votes, names, name, choice);
    }
    hide CountAmong;
  }

  /** One draw: it is either a duplicate, or the next choice. */
  lemma NextDraw(s: Settings, draws: seq<Draw>, k: nat, picked: seq<Choice>)
    requires Configured(s) && |picked| < s.options && k <= |draws| && Pick(s, draws[k..], picked).Some?
    ensures k < |draws|
    ensures var c := Generate(s, draws[k]);
            Pick(s, draws[k..], picked) ==
            Pick(s, draws[k + 1..], if Taken(s.duplication, picked, c) then picked else picked + [c.(index := |picked| + 1)])
  {
    hide Generate, Taken;
    assert draws[k..][1..] == draws[k + 1..];
  }

  lemma PickIsDone(s: Settings, draws: seq<Draw>, picked: seq<Choice>)
    requires Configured(s) && |picked| == s.options
    ensures Pick(s, draws, picked) == Some(picked)
  {
  }

  class Voting {
    var voteStartedTime: int
    var winnerChosenTime: int
    var numberOfRevotesUsed: nat
    var revoteFlag: bool
    var idle: bool
    var currentVotingOptions: seq<Choice>
    var mapVotes: map<string, int>
    /** The messages and commands that have gone out. */
    var log: seq<Output>

    ghost function Value(): State
      reads this
    {
      State(voteStartedTime, winnerChosenTime, numberOfRevotesUsed, revoteFlag, idle, currentVotingOptions, mapVotes, log)
    }

    constructor ()
      ensures Value() == INITIAL
    {
      voteStartedTime, winnerChosenTime, numberOfRevotesUsed, revoteFlag, idle := 0, 0, 0, false, false;
      currentVotingOptions, mapVotes, log := [], map[], [];
    }

    method ResetVotes()
      modifies this
      ensures Value() == Reset(old(Value()))
    {
      numberOfRevotesUsed := 0;
      winnerChosenTime := 0;
      voteStartedTime := 0;
      mapVotes := map[];
    }

    /** Adds the stored votes to the counts; votes for no option are passed over. */
    method CountVotes()
      modifies this`currentVotingOptions
      ensures currentVotingOptions == Counted(old(currentVotingOptions), mapVotes)
    {
      hide *;
      ghost var options, done := currentVotingOptions, {};
      var left: set<string> := mapVotes.Keys;
      NoneCounted(options, mapVotes);
      while left != {}
        invariant done !! left && done + left == mapVotes.Keys
        invariant currentVotingOptions == CountedAmong(options, mapVotes, done)
        decreases |left|
      {
        var name := AnyOf(left);
        left := left - {name};
        OneMoreCounted(options, mapVotes, done, name);
        done := done + {name};
        var vote := mapVotes[name];
        if !(vote > |currentVotingOptions| || vote < 1) {
          var option := currentVotingOptions[vote - 1];
          currentVotingOptions := currentVotingOptions[vote - 1 := option.(count := option.count + 1)];
        }
      }
      assert done == mapVotes.Keys;
      assert CountedAmong(options, mapVotes, done) == Counted(options, mapVotes) by { CountedIs(options, mapVotes); }
    }

    static lemma CountedIs(options: seq<Choice>, votes: map<string, int>)
      ensures CountedAmong(options, votes, votes.Keys) == Counted(options, votes)
    {
    }

    method FindWinner(s: Settings, now: int)
      requires currentVotingOptions != []
      modifies this
      ensures SortOf(currentVotingOptions, Counted(old(currentVotingOptions), old(mapVotes)))
      ensures currentVotingOptions != [] && Value() == Decide(s, old(Value()), currentVotingOptions, now)
    {
      ghost var counted := Counted(currentVotingOptions, mapVotes);
      assert |counted| == |currentVotingOptions|;
      CountVotes();
      hide Counted;
      currentVotingOptions := Sort(currentVotingOptions);
      assert |multiset(currentVotingOptions)| == |multiset(counted)|;
      var winningOption := currentVotingOptions[|currentVotingOptions| - 1];
      if winningOption.isRevote {
        numberOfRevotesUsed := numberOfRevotesUsed + 1;
        mapVotes := map[];
        voteStartedTime := 0;
        revoteFlag := true;
        return;
      }
      log := log + [Winner(winningOption.index)];
      log := log + [Prepare(winningOption.haloType.name, winningOption.haloMap.name, winningOption.haloType.sprint, s.shuffle)];
      winnerChosenTime := now;
      voteStartedTime := 0;
      mapVotes := map[];
    }

    /** Draws until there are enough options, again for each duplicate. */
    method DrawOptions(s: Settings, draws: seq<Draw>)
      requires Configured(s) && Pick(s, draws, []).Some?
      modifies this`currentVotingOptions
      ensures currentVotingOptions == Pick(s, draws, []).value
    {
      hide Pick, Taken, Generate;
      ghost var result := Pick(s, draws, []);
      currentVotingOptions := [];
      var i, k := 0, 0;
      assert draws[0..] == draws;
      while i < s.options
        invariant i == |currentVotingOptions| <= s.options && 0 <= k <= |draws|
        invariant Pick(s, draws[k..], currentVotingOptions) == result
      {
        NextDraw(s, draws, k, currentVotingOptions);
        var option := Generate(s, draws[k]);
        k := k + 1;
        while Taken(s.duplication, currentVotingOptions, option)
          invariant i == |currentVotingOptions| < s.options && 1 <= k <= |draws|
          invariant Pick(s, draws[k..], if Taken(s.duplication, currentVotingOptions, option) then currentVotingOptions
                                        else currentVotingOptions + [option.(index := i + 1)]) == result
          decreases |draws| - k
        {
          NextDraw(s, draws, k, currentVotingOptions);
          option := Generate(s, draws[k]);
          k := k + 1;
        }
        option := option.(index := i + 1);
        currentVotingOptions := currentVotingOptions + [option];
        i := i + 1;
      }
      PickIsDone(s, draws[k..], currentVotingOptions);
    }

    method StartVotingNow(s: Settings, now: int, draws: seq<Draw>)
      requires Configured(s) && (idle || Pick(s, draws, []).Some?)
      modifies this
      ensures Value() == StartVoting(s, old(Value()), now, draws)
    {
      if idle {
        return;
      }
      hide Pick;
      DrawOptions(s, draws);
      if numberOfRevotesUsed < s.revotes {
        var revote := RevoteChoice(|currentVotingOptions| + 1);
        currentVotingOptions := currentVotingOptions + [revote];
      }
      voteStartedTime := now;
      log := log + [Ballot(currentVotingOptions, s.votingTime)];
    }

    /** `origin` are the settings that the open ballot was opened with; they may have changed since. The order of the
        options afterwards is the one that sorting has left if a ballot was decided. */
    method Tick(ghost origin: Settings, s: Settings, now: int, hosting: bool, players: nat, inLobby: bool, draws: seq<Draw>)
      requires Configured(s) && Sound(origin, Value()) && now != 0
      requires Opens(s, Value(), Event.Tick(now, hosting, players, inLobby, draws)) ==> Pick(s, draws, []).Some?
      modifies this
      ensures var ev, st := Event.Tick(now, hosting, players, inLobby, draws), old(Value());
              && Sound(OriginAfter(origin, s, st, ev), Value())
              && Possible(s, st, ev, currentVotingOptions) && (Decides(s, st, ev) ==> currentVotingOptions != [])
              && Value() == Step(s, st, ev, currentVotingOptions)
    {
      ghost var st, ev := Value(), Event.Tick(now, hosting, players, inLobby, draws);
      TickBody(origin, s, now, hosting, players, inLobby, draws);
      StepIsSound(origin, s, st, ev, currentVotingOptions);
      hide Sound, Possible, Decides, Step, Opens, OriginAfter;
    }

    method TickBody(ghost origin: Settings, s: Settings, now: int, hosting: bool, players: nat, inLobby: bool, draws: seq<Draw>)
      requires Configured(s) && Sound(origin, Value()) && now != 0
      requires Opens(s, Value(), Event.Tick(now, hosting, players, inLobby, draws)) ==> Pick(s, draws, []).Some?
      modifies this
      ensures var ev, st := Event.Tick(now, hosting, players, inLobby, draws), old(Value());
              && Possible(s, st, ev, currentVotingOptions) && (Decides(s, st, ev) ==> currentVotingOptions != [])
              && Value() == Step(s, st, ev, currentVotingOptions)
    {
      hide Pick, Counted, SortOf, StartVoting, Decide;
      if !hosting {
        return;
      }
      if idle {
        if players > 0 {
          idle := false;
          if inLobby {
            StartVotingNow(s, now, draws);
          }
        }
        return;
      } else if players == 0 {
        idle := true;
        ResetVotes();
        return;
      }
      if winnerChosenTime != 0 {
        var elapsed := now - winnerChosenTime;
        if elapsed > s.startDelay {
          log := log + [StartGame];
          ResetVotes();
        }
      }
      if revoteFlag {
        StartVotingNow(s, now, draws);
        revoteFlag := false;
        return;
      }
      if voteStartedTime == 0 {
        return;
      }
      var elapsed := now - voteStartedTime;
      if elapsed < s.votingTime {
        return;
      }
      OpenChoices(origin, currentVotingOptions, numberOfRevotesUsed);
      FindWinner(s, now);
    }

    method StartVote(s: Settings, now: int, hosting: bool, draws: seq<Draw>)
      requires Configured(s) && now != 0 && (hosting && !idle ==> Pick(s, draws, []).Some?)
      modifies this
      ensures Value() == Step(s, old(Value()), StartNewVote(now, hosting, draws), [])
    {
      hide Pick;
      if !hosting {
        return;
      }
      ResetVotes();
      StartVotingNow(s, now, draws);
    }

    /** Stores a vote in place of the earlier one of that name, and sends the new tally. */
    method LogOneVote(ghost origin: Settings, s: Settings, hosting: bool, name: string, message: int)
      requires Configured(s) && Sound(origin, Value())
      modifies this
      ensures Value() == Step(s, old(Value()), LogVote(hosting, name, message), [])
    {
      if !hosting || voteStartedTime == 0 {
        return;
      }
      var vote := Unsigned(message);
      if vote > s.options + 1 {
        return;
      }
      mapVotes := mapVotes[name := vote];
      OpenChoices(origin, currentVotingOptions, numberOfRevotesUsed);
      CountVotes();
      hide Unsigned, Sound, Counted;
      var votes := TakeCounts();
      log := log + [Tally(votes)];
    }

    /** The counts for a tally message; they are cleared on the way. */
    method TakeCounts() returns (tally: seq<nat>)
      requires |currentVotingOptions| <= MAX_OPTIONS
      modifies this`currentVotingOptions
      ensures tally == Shown(old(currentVotingOptions)) && currentVotingOptions == Cleared(old(currentVotingOptions))
    {
      ghost var counted := currentVotingOptions;
      var votes := new nat[MAX_OPTIONS](_ => 0);
      var optionIndex := 0;
      while optionIndex < |currentVotingOptions|
        invariant 0 <= optionIndex <= |currentVotingOptions| == |counted| <= MAX_OPTIONS
        invariant forall i :: 0 <= i < |counted| ==>
                    currentVotingOptions[i] == if i < optionIndex then counted[i].(count := 0) else counted[i]
        invariant forall i :: 0 <= i < MAX_OPTIONS ==> votes[i] == if i < optionIndex then counted[i].count else 0
      {
        var option := currentVotingOptions[optionIndex];
        votes[optionIndex] := option.count;
        currentVotingOptions := currentVotingOptions[optionIndex := option.(count := 0)];
        optionIndex := optionIndex + 1;
      }
      tally := votes[..];
    }
  }
}
