/** What tallies and winners of map votes mean (ElDorito/Source/Server/VotingSystem.cpp:218-264, 425-457). */
module VotingResults {
  import opened Text
  import opened MapVoting

  // ----- Tallies -----

  function Sum(counts: seq<nat>): nat {
    if counts == [] then 0 else Sum(counts[..|counts| - 1]) + counts[|counts| - 1]
  }

  /** The names whose vote is for one of the first choices. */
  ghost function VotersUpTo(votes: map<string, int>, k: nat): set<string> {
    set name | name in votes && 1 <= votes[name] <= k
  }

  /** The names whose vote is for no choice. */
  ghost function Ignored(votes: map<string, int>, k: nat): set<string> {
    set name | name in votes && !(1 <= votes[name] <= k)
  }

  ghost function CountsFor(votes: map<string, int>, k: nat): seq<nat> {
    seq(k, i requires 0 <= i < k => CountFor(votes, i + 1))
  }

  lemma {:induction false} SumIsVoters(votes: map<string, int>, k: nat)
    ensures Sum(CountsFor(votes, k)) == |VotersUpTo(votes, k)|
  {
    if k == 0 {
      assert VotersUpTo(votes, 0) == {};
    } else {
      SumIsVoters(votes, k - 1);
      var all, last := CountsFor(votes, k), VotersFor(votes, votes.Keys, k);
      assert all[..k - 1] == CountsFor(votes, k - 1);
      assert VotersUpTo(votes, k) == VotersUpTo(votes, k - 1) + last;
      assert VotersUpTo(votes, k - 1) !! last;
    }
  }

  lemma EveryVoteOnce(votes: map<string, int>, k: nat)
    ensures Sum(CountsFor(votes, k)) + |Ignored(votes, k)| == |votes|
  {
    SumIsVoters(votes, k);
    assert votes.Keys == VotersUpTo(votes, k) + Ignored(votes, k);
    assert VotersUpTo(votes, k) !! Ignored(votes, k);
    assert |votes.Keys| == |votes|;
  }

  lemma {:induction false} PaddedSum(counts: seq<nat>, padded: seq<nat>)
    requires |counts| <= |padded|
    requires forall i :: 0 <= i < |padded| ==> padded[i] == if i < |counts| then counts[i] else 0
    ensures Sum(padded) == Sum(counts)
    decreases |padded|
  {
    if |counts| == |padded| {
      assert counts == padded;
    } else {
      PaddedSum(counts, padded[..|padded| - 1]);
    }
  }

  lemma TallyIsPadded(options: seq<Choice>, votes: map<string, int>)
    requires |options| <= MAX_OPTIONS && forall i :: 0 <= i < |options| ==> options[i].count == 0
    ensures var counts, tally := CountsFor(votes, |options|), Shown(Counted(options, votes));
            && |tally| == MAX_OPTIONS && |counts| == |options|
            && forall i :: 0 <= i < MAX_OPTIONS ==> tally[i] == if i < |counts| then counts[i] else 0
  {
    hide CountAmong;
  }

  /** The entries of the tally of an unvoted ballot. */
  lemma TallyEntries(options: seq<Choice>, votes: map<string, int>)
    requires |options| <= MAX_OPTIONS && forall i :: 0 <= i < |options| ==> options[i].count == 0
    ensures var tally := Shown(Counted(options, votes));
            && (forall i :: 0 <= i < MAX_OPTIONS ==> tally[i] == if i < |options| then CountFor(votes, i + 1) else 0)
            && Sum(tally) + |Ignored(votes, |options|)| == |votes|
  {
    TallyIsPadded(options, votes);
    hide Counted, Shown, CountFor, Ignored;
    EveryVoteOnce(votes, |options|);
    PaddedSum(CountsFor(votes, |options|), Shown(Counted(options, votes)));
  }

  lemma AcceptedVote(origin: Settings, s: Settings, st: State, name: string, vote: int)
    requires Configured(s) && Sound(origin, st) && st.voteStarted != 0 && Unsigned(vote) <= s.options + 1
    ensures var votes := st.votes[name := Unsigned(vote)];
            Step(s, st, LogVote(true, name, vote), []) ==
            st.(votes := votes, log := st.log + [Tally(Shown(Counted(st.options, votes)))])
  {
    ClearedIsSame(origin, st.options, st.votes[name := Unsigned(vote)], st.revotesUsed);
    hide Sound, OpenBallot, Cleared, Counted, Shown, Unsigned;
  }

  /** A vote in an open ballot replaces the earlier vote of that name, and the tally that is sent counts the latest
      vote of every name once: its entries and the votes for no choice sum to the number of names. Whether the vote is
      taken depends on the number of options now, not on that of the ballot. */
  lemma TallyCountsLatestVotes(origin: Settings, s: Settings, st: State, name: string, vote: int)
    requires Configured(s) && Sound(origin, st) && st.voteStarted != 0
    ensures var after := Step(s, st, LogVote(true, name, vote), []);
            if vote % 0x1_0000_0000 > s.options + 1 then after == st
            else
              && after.votes == st.votes[name := vote % 0x1_0000_0000] && after.options == st.options
              && |after.log| == |st.log| + 1 && st.log <= after.log && after.log[|st.log|].Tally?
              && var tally := after.log[|st.log|].votes;
                 && |tally| == MAX_OPTIONS
                 && (forall i :: 0 <= i < MAX_OPTIONS ==>
                       tally[i] == if i < |st.options| then CountFor(after.votes, i + 1) else 0)
                 && Sum(tally) + |Ignored(after.votes, |st.options|)| == |after.votes|
  {
    if Unsigned(vote) <= s.options + 1 {
      AcceptedVote(origin, s, st, name, vote);
      OpenChoices(origin, st.options, st.revotesUsed);
      TallyEntries(st.options, st.votes[name := Unsigned(vote)]);
    }
    hide Drawn, Counted, CountFor, Unsigned, Sum, Ignored;
  }

  // ----- Winners -----

  lemma MostCounted(options: seq<Choice>, votes: map<string, int>, winner: Choice)
    requires |options| <= MAX_OPTIONS && forall i :: 0 <= i < |options| ==> options[i].index == i + 1 && options[i].count == 0
    requires winner in Counted(options, votes) && forall c <- Counted(options, votes) :: c.count <= winner.count
    ensures 1 <= winner.index <= |options|
    ensures winner == options[winner.index - 1].(count := CountFor(votes, winner.index))
    ensures forall v :: 1 <= v <= |options| ==> CountFor(votes, v) <= CountFor(votes, winner.index)
    ensures var tally := Shown(Counted(options, votes));
            forall i :: 0 <= i < MAX_OPTIONS ==> tally[i] <= tally[winner.index - 1]
  {
    var counted := Counted(options, votes);
    var k :| 0 <= k < |counted| && counted[k] == winner;
    forall i | 0 <= i < |counted| ensures counted[i].count <= counted[k].count {
      assert counted[i] in counted;
    }
    forall v | 1 <= v <= |options| ensures CountFor(votes, v) <= CountFor(votes, winner.index) {
      assert counted[v - 1].count == CountFor(votes, v);
    }
  }

  /** A decision: the winner is a choice of the ballot for which no fewer names vote than for any other, it is this choice
      that the players and the game are told, and if a tally was the last thing sent, no choice has more in it. Otherwise
      it was the ballot itself. */
  lemma WinnerFollowsVotes(origin: Settings, s: Settings, st: State, ev: Event, order: seq<Choice>)
    requires Configured(s) && Sound(origin, st) && Possible(s, st, ev, order) && Decides(s, st, ev)
    ensures order != [] && st.log != []
    ensures var last, after, w := st.log[|st.log| - 1], Step(s, st, ev, order), order[|order| - 1].index;
            && 1 <= w <= |st.options| <= MAX_OPTIONS
            && (forall v :: 1 <= v <= |st.options| ==> CountFor(st.votes, v) <= CountFor(st.votes, w))
            && (if last.Tally? then |last.votes| == MAX_OPTIONS && forall i :: 0 <= i < MAX_OPTIONS ==> last.votes[i] <= last.votes[w - 1]
                else last.Ballot?)
            && var choice := st.options[w - 1];
               if choice.isRevote then after.revoteFlag && after.log == st.log
               else && after.winnerChosen == ev.now
                    && after.log == st.log + [Winner(w), Prepare(choice.haloType.name, choice.haloMap.name,
                                                                 choice.haloType.sprint, s.shuffle)]
  {
    OrderIsNonEmpty(origin, s, st, ev, order);
    DecidesOpenBallot(origin, s, st, ev);
    OpenChoices(origin, st.options, st.revotesUsed);
    WinnerIsCounted(st.options, st.votes, order);
    MostCounted(st.options, st.votes, order[|order| - 1]);
    assert Step(s, st, ev, order) == Decide(s, st, order, ev.now);
    hide Step, Drawn, SortOf, Counted, Shown, CountFor;
  }

  // ----- A ballot without a tally -----

  /** The log only grows; and where it does not, an open ballot stays as it is, with its votes, or is closed. */
  lemma SilentStep(x: Situation, h: Happening)
    requires SoundAt(x) && Happens(x, h)
    ensures x.st.log <= Next(x, h).st.log
    ensures var st, t := x.st, Next(x, h).st;
            t.log == st.log ==> t.voteStarted == 0 || (t.voteStarted, t.votes, t.options) == (st.voteStarted, st.votes, st.options)
  {
    if h.ev.LogVote? && h.ev.hosting && x.st.voteStarted != 0 && Unsigned(h.ev.vote) <= h.s.options + 1 {
      AcceptedVote(x.origin, h.s, x.st, h.ev.name, h.ev.vote);
    }
    hide OpenBallot, Pick, Counted, Cleared, SortOf, Shown, Unsigned;
  }

  lemma {:induction false} SilentRun(x: Situation, run: seq<Happening>)
    requires SoundAt(x) && IsRun(x, run)
    ensures x.st.log <= After(x, run).st.log
    ensures var st, t := x.st, After(x, run).st;
            t.log == st.log ==> t.voteStarted == 0 || (t.voteStarted, t.votes, t.options) == (st.voteStarted, st.votes, st.options)
    decreases |run|
  {
    if run != [] {
      SilentStep(x, run[0]);
      SilentRun(Next(x, run[0]), run[1..]);
      hide SoundAt, Happens, Next;
    }
  }

  /** A ballot that is decided although nothing was sent since it was opened is decided by the votes it was opened with:
      by nobody's, in which case sorting may leave any choice as the winner and a stable sort the last one, unless a
      pending revote has carried over those of the ballot before. */
  lemma UntalliedBallot(x: Situation, h: Happening, run: seq<Happening>, s: Settings, ev: Event)
    requires SoundAt(x) && Happens(x, h) && Opens(h.s, x.st, h.ev) && IsRun(Next(x, h), run)
    requires var st := After(Next(x, h), run).st; st.log == Next(x, h).st.log && Configured(s) && Decides(s, st, ev) && ev.now != 0
    ensures var st := After(Next(x, h), run).st;
            && st.votes == (if h.ev.Tick? && x.st.revoteFlag && x.st.voteStarted != 0 then x.st.votes else map[])
            && (st.votes == map[] ==>
                  && (forall c <- st.options :: exists order :: Possible(s, st, ev, order) && order != [] && order[|order| - 1] == c)
                  && StableSort(Counted(st.options, st.votes)) == st.options)
  {
    var y := Next(x, h);
    var st := After(y, run).st;
    SilentRun(y, run);
    OpeningVotes(x, h);
    hide SoundAt, IsRun, After, Next;
    assert SoundAt(After(y, run));
    if st.votes == map[] {
      UnvotedBallot(After(y, run), s, ev);
    }
    DecidesOpenBallotAt(After(y, run), s, ev);
  }

  lemma DecidesOpenBallotAt(x: Situation, s: Settings, ev: Event)
    requires SoundAt(x) && Decides(s, x.st, ev)
    ensures x.st.voteStarted != 0
  {
    DecidesOpenBallot(x.origin, s, x.st, ev);
  }

  lemma OpeningVotes(x: Situation, h: Happening)
    requires SoundAt(x) && Happens(x, h) && Opens(h.s, x.st, h.ev)
    ensures Next(x, h).st.votes == if h.ev.Tick? && x.st.revoteFlag && x.st.voteStarted != 0 then x.st.votes else map[]
  {
    OrderIsNonEmpty(x.origin, h.s, x.st, h.ev, h.order);
    hide OpenBallot, Pick;
  }

  lemma UnvotedBallot(x: Situation, s: Settings, ev: Event)
    requires SoundAt(x) && Configured(s) && Decides(s, x.st, ev) && ev.now != 0 && x.st.votes == map[]
    ensures forall c <- x.st.options :: exists order :: Possible(s, x.st, ev, order) && order != [] && order[|order| - 1] == c
    ensures StableSort(Counted(x.st.options, x.st.votes)) == x.st.options
  {
    var st := x.st;
    DecidesOpenBallot(x.origin, s, st, ev);
    OpenChoices(x.origin, st.options, st.revotesUsed);
    NobodyVoted(st.options);
    hide Counted, OpenBallot, SortOf, Sound;
    StableSortOfTies(st.options);
    forall c | c in st.options ensures exists order :: Possible(s, st, ev, order) && order != [] && order[|order| - 1] == c {
      var order := SortLeaving(st.options, c);
      assert Possible(s, st, ev, order);
    }
  }

  lemma {:induction false} StableSortOfTies(choices: seq<Choice>)
    requires forall c <- choices :: c.count == 0
    ensures StableSort(choices) == choices
  {
    if choices != [] {
      var front, last := choices[..|choices| - 1], choices[|choices| - 1];
      StableSortOfTies(front);
      assert choices == front + [last];
    }
  }

  // ----- Ties -----

  function InsertSorted(sorted: seq<Choice>, c: Choice): seq<Choice> {
    if sorted == [] then [c]
    else
      var n := |sorted| - 1;
      if sorted[n].count <= c.count then sorted + [c] else InsertSorted(sorted[..n], c) + [sorted[n]]
  }

  /** Insertion sort, which is stable. */
  function StableSort(choices: seq<Choice>): seq<Choice> {
    if choices == [] then []
    else InsertSorted(StableSort(choices[..|choices| - 1]), choices[|choices| - 1])
  }

  /** One choice may come after another. */
  predicate Before(a: Choice, b: Choice, ties: bool) {
    a.count <= b.count && (ties && a.count == b.count ==> a.index < b.index)
  }

  /** In order of count, and if wanted also in the order of the ballot among equal counts. */
  ghost predicate InOrder(order: seq<Choice>, ties: bool) {
    forall i, j :: 0 <= i < j < |order| ==> Before(order[i], order[j], ties)
  }

  lemma AppendInOrder(front: seq<Choice>, c: Choice, ties: bool)
    requires InOrder(front, ties) && forall d <- front :: Before(d, c, ties)
    ensures InOrder(front + [c], ties)
  {
  }

  lemma PrefixInOrder(order: seq<Choice>, ties: bool)
    requires InOrder(order, ties) && order != []
    ensures var n := |order| - 1;
            InOrder(order[..n], ties) && forall d <- order[..n] :: Before(d, order[n], ties)
  {
  }

  lemma {:induction false} InsertSortedAdds(sorted: seq<Choice>, c: Choice)
    ensures multiset(InsertSorted(sorted, c)) == multiset(sorted) + multiset{c}
    ensures forall d <- InsertSorted(sorted, c) :: d == c || d in sorted
  {
    if sorted != [] {
      var n := |sorted| - 1;
      assert sorted == sorted[..n] + [sorted[n]];
      if sorted[n].count > c.count {
        InsertSortedAdds(sorted[..n], c);
      }
    }
  }

  lemma {:induction false} InsertSortedIsInOrder(sorted: seq<Choice>, c: Choice, ties: bool)
    requires InOrder(sorted, ties) && (ties ==> forall d <- sorted :: d.index < c.index)
    ensures InOrder(InsertSorted(sorted, c), ties)
  {
    if sorted != [] {
      var n := |sorted| - 1;
      PrefixInOrder(sorted, ties);
      if sorted[n].count > c.count {
        assert forall d <- sorted[..n] :: d in sorted;
        InsertSortedIsInOrder(sorted[..n], c, ties);
        InsertSortedAdds(sorted[..n], c);
        AppendInOrder(InsertSorted(sorted[..n], c), sorted[n], ties);
      } else {
        forall d | d in sorted ensures Before(d, c, ties) {
          assert d in sorted[..n] || d == sorted[n];
        }
        AppendInOrder(sorted, c, ties);
      }
      hide InOrder;
    } else {
      AppendInOrder([], c, ties);
    }
  }

  lemma {:induction false} StableSortPermutes(choices: seq<Choice>)
    ensures multiset(StableSort(choices)) == multiset(choices)
    ensures forall d <- StableSort(choices) :: d in choices
  {
    if choices != [] {
      var front, c := choices[..|choices| - 1], choices[|choices| - 1];
      StableSortPermutes(front);
      InsertSortedAdds(StableSort(front), c);
      assert choices == front + [c];
    }
  }

  lemma {:induction false} StableSortIsInOrder(choices: seq<Choice>, ties: bool)
    requires ties ==> forall i, j :: 0 <= i < j < |choices| ==> choices[i].index < choices[j].index
    ensures InOrder(StableSort(choices), ties)
  {
    if choices != [] {
      var front, c := choices[..|choices| - 1], choices[|choices| - 1];
      StableSortPermutes(front);
      StableSortIsInOrder(front, ties);
      hide InOrder;
      InsertSortedIsInOrder(StableSort(front), c, ties);
    }
  }

  /** The stable sort is a sort by count that keeps the order of the ballot among equal counts. */
  lemma StableSortIs(choices: seq<Choice>)
    ensures SortOf(StableSort(choices), choices)
    ensures (forall i, j :: 0 <= i < j < |choices| ==> choices[i].index < choices[j].index) ==>
              InOrder(StableSort(choices), true)
  {
    StableSortPermutes(choices);
    StableSortIsInOrder(choices, false);
    InOrderIsSorted(StableSort(choices), choices);
    hide StableSort, InOrder;
    if forall i, j :: 0 <= i < j < |choices| ==> choices[i].index < choices[j].index {
      StableSortIsInOrder(choices, true);
    }
  }

  /** With a stable sort, the winner is the latest of the choices with the most votes. */
  lemma StableSortAwardsLatest(options: seq<Choice>, votes: map<string, int>, order: seq<Choice>)
    requires SortOf(order, Counted(options, votes)) && InOrder(order, true) && order != []
    ensures var w := order[|order| - 1];
            && w in Counted(options, votes)
            && forall c <- Counted(options, votes) :: c.count < w.count || (c.count == w.count && c.index <= w.index)
  {
    WinnerIsCounted(options, votes, order);
    var counted, w := Counted(options, votes), order[|order| - 1];
    forall c | c in counted ensures c.count < w.count || (c.count == w.count && c.index <= w.index) {
      assert c in multiset(counted);
      var i :| 0 <= i < |order| && order[i] == c;
      assert i < |order| - 1 ==> Before(order[i], w, true);
    }
  }

  /** What a sort by count alone may leave as the winner: any of the choices with the most votes. */
  lemma WinnersOfAnySort(choices: seq<Choice>, c: Choice)
    ensures (exists order :: SortOf(order, choices) && order != [] && order[|order| - 1] == c)
            <==> c in choices && forall d <- choices :: d.count <= c.count
  {
    if c in choices && forall d <- choices :: d.count <= c.count {
      var order := SortLeaving(choices, c);
    }
    forall order | SortOf(order, choices) && order != [] && order[|order| - 1] == c
      ensures c in choices && forall d <- choices :: d.count <= c.count
    {
      LastOfSort(order, choices);
    }
    hide SortOf;
  }

  /** So a choice, such as the latest of those with the most votes, wins under every sort if and only if no other choice
      has as many. */
  lemma WinsEverySortIff(choices: seq<Choice>, c: Choice)
    requires c in choices
    ensures (forall order :: SortOf(order, choices) && order != [] ==> order[|order| - 1] == c)
            <==> forall d <- choices :: d != c ==> d.count < c.count
  {
    hide SortOf;
    if forall d <- choices :: d != c ==> d.count < c.count {
      forall order | SortOf(order, choices) && order != [] ensures order[|order| - 1] == c {
        LastOfSort(order, choices);
      }
    } else {
      var d := MostVoted(choices, c);
      var order := SortLeaving(choices, d);
    }
  }

  /** Another choice with the most votes, if there is one with as many as `c`. */
  lemma {:induction false} MostVoted(choices: seq<Choice>, c: Choice) returns (most: Choice)
    requires exists d <- choices :: d != c && d.count >= c.count
    ensures most in choices && most != c && most.count >= c.count && forall d <- choices :: d.count <= most.count
  {
    var n := |choices| - 1;
    var front, last := choices[..n], choices[n];
    assert choices == front + [last];
    if exists d <- front :: d != c && d.count >= c.count {
      most := MostVoted(front, c);
      if last != c && last.count > most.count {
        most := last;
      }
    } else {
      most := last;
      forall d | d in front ensures d.count <= last.count {
        assert d == c || d.count < c.count;
      }
    }
  }

  lemma SortLeaving(choices: seq<Choice>, c: Choice) returns (order: seq<Choice>)
    requires c in choices && forall d <- choices :: d.count <= c.count
    ensures SortOf(order, choices) && order != [] && order[|order| - 1] == c
  {
    var k :| 0 <= k < |choices| && choices[k] == c;
    var others := choices[..k] + choices[k + 1..];
    assert forall d <- others :: d in choices;
    StableSortPermutes(others);
    StableSortIsInOrder(others, false);
    hide StableSort, InOrder;
    AppendInOrder(StableSort(others), c, false);
    order := StableSort(others) + [c];
    assert multiset(order) == multiset(choices) by { WithoutOne(choices, k); }
    InOrderIsSorted(order, choices);
  }

  lemma WithoutOne(choices: seq<Choice>, k: nat)
    requires k < |choices|
    ensures multiset(choices[..k] + choices[k + 1..]) + multiset{choices[k]} == multiset(choices)
  {
    assert choices == choices[..k] + [choices[k]] + choices[k + 1..];
  }

  lemma InOrderIsSorted(order: seq<Choice>, choices: seq<Choice>)
    requires InOrder(order, false) && multiset(order) == multiset(choices)
    ensures SortOf(order, choices)
  {
    assert forall i, j :: 0 <= i < j < |order| ==> Before(order[i], order[j], false);
  }

  lemma LastOfSort(order: seq<Choice>, choices: seq<Choice>)
    requires SortOf(order, choices) && order != []
    ensures order[|order| - 1] in choices && forall d <- choices :: d.count <= order[|order| - 1].count
  {
    assert order[|order| - 1] in multiset(order);
    forall d | d in choices ensures d.count <= order[|order| - 1].count {
      assert d in multiset(choices);
      assert d in order;
    }
  }

  // ----- A revote that is still pending -----

  /** A new ballot starts without votes, unless a pending revote opens it while another ballot is open and voted on:
      starting a new vote does not clear the flag of a revote. */
  lemma NewBallotIsUnvotedIff(x: Situation, h: Happening)
    requires SoundAt(x) && Happens(x, h) && Opens(h.s, x.st, h.ev)
    ensures Next(x, h).st.votes == map[] <==>
            !(h.ev.Tick? && x.st.revoteFlag && x.st.voteStarted != 0 && x.st.votes != map[])
  {
    OpeningVotes(x, h);
    hide Next;
  }

  lemma NobodyVoted(options: seq<Choice>)
    ensures Counted(options, map[]) == options
  {
    var none: map<string, int> := map[];
    assert forall choice :: VotersFor(none, none.Keys, choice) == {};
  }

  lemma LongerRun(x: Situation, h: Happening, run: seq<Happening>)
    requires SoundAt(x) && Happens(x, h) && IsRun(Next(x, h), run)
    ensures IsRun(x, [h] + run) && After(x, [h] + run) == After(Next(x, h), run)
  {
    assert ([h] + run)[1..] == run;
  }

  function SmallSettings(): Settings {
    Settings(1, 1, 2, 10, 4, false, [GameType([], "slayer", "Slayer", "0")], [GameMap("guardian", "Guardian", 320)])
  }

  lemma SmallBallot()
    ensures Configured(SmallSettings())
    ensures var s, c := SmallSettings(), Generate(SmallSettings(), Draw(0, 0)).(index := 1);
            Pick(s, [Draw(0, 0)], []) == Some([c]) && WithRevote(s, [c], 0) == [c, RevoteChoice(2)]
  {
    var s, c := SmallSettings(), Generate(SmallSettings(), Draw(0, 0));
    assert !Taken(s.duplication, [], c);
    assert [] + [c.(index := 1)] == [c.(index := 1)];
    assert Pick(s, [], [c.(index := 1)]) == Some([c.(index := 1)]);
  }

  function SmallChoices(): seq<Choice> {
    [Generate(SmallSettings(), Draw(0, 0)).(index := 1), RevoteChoice(2)]
  }

  /** A step that opens the small ballot. */
  lemma OpensSmallBallot(st: State, ev: Event)
    requires Sound(SmallSettings(), st) && Opens(SmallSettings(), st, ev) && st.winnerChosen == 0 && !st.idle
    requires ev.draws == [Draw(0, 0)] && ev.now != 0 && (ev.Tick? ==> st.revotesUsed == 0)
    ensures var s, b := SmallSettings(), SmallChoices();
            && Configured(s) && Possible(s, st, ev, []) && !Decides(s, st, ev)
            && var t := if ev.Tick? then st.(revoteFlag := false) else Reset(st);
               Step(s, st, ev, []) == t.(options := b, voteStarted := ev.now, log := st.log + [Ballot(b, 10)])
  {
    SmallBallot();
    hide Pick, WithRevote, Generate, Counted, SortOf, Sound;
  }

  function Alice(): map<string, int> {
    map["alice" := 1]
  }

  /** The states of the run below. */
  ghost function Stage(k: nat): State {
    var b := SmallChoices();
    var open := INITIAL.(options := b, voteStarted := 1, log := [Ballot(b, 10)]);
    var pending := open.(revotesUsed := 1, voteStarted := 0, revoteFlag := true);
    var again := pending.(revotesUsed := 0, voteStarted := 12, log := [Ballot(b, 10), Ballot(b, 10)]);
    var voted := again.(votes := Alice(), log := again.log + [Tally(Shown(Counted(b, Alice())))]);
    if k == 0 then INITIAL else if k == 1 then open else if k == 2 then pending else if k == 3 then again
    else if k == 4 then voted else voted.(revoteFlag := false, voteStarted := 13, log := voted.log + [Ballot(b, 10)])
  }

  function Scene(k: nat): Happening {
    var draws := [Draw(0, 0)];
    if k == 0 then Happening(SmallSettings(), StartNewVote(1, true, draws), [])
    else if k == 1 then Happening(SmallSettings(), Tick(11, true, 1, true, []), SmallChoices())
    else if k == 2 then Happening(SmallSettings(), StartNewVote(12, true, draws), [])
    else if k == 3 then Happening(SmallSettings(), LogVote(true, "alice", 1), [])
    else Happening(SmallSettings(), Tick(13, true, 1, true, draws), [])
  }

  ghost function At(k: nat): Situation {
    Situation(SmallSettings(), Stage(k))
  }

  ghost predicate Leads(k: nat) {
    SoundAt(At(k)) && Happens(At(k), Scene(k)) && Next(At(k), Scene(k)) == At(k + 1)
  }

  /** One scene, from what its step does. */
  lemma SceneLeads(k: nat)
    requires SoundAt(At(k)) && Scene(k).s == SmallSettings() && Happens(At(k), Scene(k))
    requires Decides(SmallSettings(), Stage(k), Scene(k).ev) ==> Scene(k).order != []
    requires Step(SmallSettings(), Stage(k), Scene(k).ev, Scene(k).order) == Stage(k + 1)
    ensures Leads(k) && SoundAt(At(k + 1))
  {
    hide Stage, Scene, SoundAt, Happens, Step, Decides, SmallSettings, Opens;
  }

  lemma FirstScenes()
    ensures Leads(0) && SoundAt(At(1))
  {
    hide SmallChoices, Pick, Counted, OpenBallot, WithRevote, Generate;
    OpensSmallBallot(Stage(0), Scene(0).ev);
    SceneLeads(0);
  }

  /** A tie in which the rule fails: nobody votes on the small ballot, the revote is its latest option, and sorting may
      as well leave the map as the winner. */
  lemma EarlierMayWinTie()
    ensures SoundAt(At(0)) && IsRun(At(0), [Scene(0)]) && Stage(0) == INITIAL
    ensures var s, st, ev := SmallSettings(), After(At(0), [Scene(0)]).st, Scene(1).ev;
            && Decides(s, st, ev) && |st.options| == 2
            && Counted(st.options, st.votes)[0].count == Counted(st.options, st.votes)[1].count
            && exists order :: Possible(s, st, ev, order) && order != [] && order[|order| - 1] == st.options[0]
  {
    hide Counted, SmallChoices, SmallSettings, SoundAt, Happens, Possible, Decides, Next;
    FirstScenes();
    LastStage();
    assert [Scene(0)] + [] == [Scene(0)];
    LongerRun(At(0), Scene(0), []);
    hide IsRun, After, Stage, Scene;
    TieAtStageOne();
  }

  lemma TieAtStageOne()
    ensures Configured(SmallSettings())
    ensures var s, st, ev := SmallSettings(), Stage(1), Scene(1).ev;
            && Decides(s, st, ev) && |st.options| == 2
            && Counted(st.options, st.votes)[0].count == Counted(st.options, st.votes)[1].count
            && exists order :: Possible(s, st, ev, order) && order != [] && order[|order| - 1] == st.options[0]
  {
    SmallBallot();
    NobodyVoted(SmallChoices());
    ReversedIsSorted();
    var order := [SmallChoices()[1], SmallChoices()[0]];
    hide Counted, SortOf, Pick, WithRevote;
    assert Possible(SmallSettings(), Stage(1), Scene(1).ev, order);
  }

  lemma ReversedIsSorted()
    ensures |SmallChoices()| == 2 && SortOf([SmallChoices()[1], SmallChoices()[0]], SmallChoices())
  {
    assert SmallChoices() == [SmallChoices()[0], SmallChoices()[1]];
  }

  lemma RevoteScene()
    ensures Leads(1) && SoundAt(At(2))
  {
    FirstScenes();
    SmallBallot();
    NobodyVoted(SmallChoices());
    SmallChoicesAreSorted();
    hide Counted, SmallChoices, OpenBallot, SortOf, Pick;
    RevoteIsLast();
    SceneLeads(1);
    hide Sound;
  }

  lemma SmallChoicesAreSorted()
    ensures SortOf(SmallChoices(), SmallChoices())
  {
  }

  lemma RevoteIsLast()
    ensures |SmallChoices()| == 2 && SmallChoices()[1].isRevote
  {
  }

  lemma SecondBallotScene()
    ensures Leads(2) && SoundAt(At(3))
  {
    RevoteScene();
    hide SmallChoices, Pick, Counted, OpenBallot, WithRevote, Generate, Sound, SortOf, Shown, Decide;
    OpensSmallBallot(Stage(2), Scene(2).ev);
    SceneLeads(2);
  }

  lemma VoteScene()
    ensures Leads(3) && SoundAt(At(4))
  {
    SecondBallotScene();
    SmallBallot();
    hide SmallChoices, Counted, Shown, Sound, Step, OpenBallot, Pick;
    AcceptedVote(SmallSettings(), SmallSettings(), Stage(3), "alice", 1);
    assert map[]["alice" := 1] == Alice();
    SceneLeads(3);
  }

  lemma CarryScene()
    ensures Leads(4) && SoundAt(At(5))
  {
    VoteScene();
    hide SmallChoices, Counted, Shown, Sound, Pick, SortOf, Decide;
    OpensSmallBallot(Stage(4), Scene(4).ev);
    SceneLeads(4);
  }

  ghost function ScenesFrom(k: nat): seq<Happening>
    decreases 5 - k
  {
    if k >= 5 then [] else [Scene(k)] + ScenesFrom(k + 1)
  }

  lemma {:induction false} ScenesAreRun(k: nat)
    requires k <= 5 && (forall i :: 0 <= i < 5 ==> Leads(i)) && SoundAt(At(5))
    ensures SoundAt(At(k)) && IsRun(At(k), ScenesFrom(k)) && After(At(k), ScenesFrom(k)) == At(5)
    decreases 5 - k
  {
    if k < 5 {
      ScenesAreRun(k + 1);
      assert Leads(k);
      hide At, Scene, SoundAt, Next, Happens;
      LongerRun(At(k), Scene(k), ScenesFrom(k + 1));
    }
  }

  lemma LastStage()
    ensures Stage(0) == INITIAL
    ensures var st := Stage(5);
            st.voteStarted != 0 && st.log != [] && st.log[|st.log| - 1].Ballot? && st.votes == Alice()
  {
    hide SmallChoices, Counted, Shown;
  }

  /** Such a run exists: a revote wins, a new vote is started before the next tick and somebody votes in it; then the
      tick opens yet another ballot, and that vote counts for a choice its voter has not seen. */
  lemma VotesCanBeCarriedOver()
    ensures exists origin, run: seq<Happening> ::
              SoundAt(Situation(origin, INITIAL)) && IsRun(Situation(origin, INITIAL), run) &&
              var st := After(Situation(origin, INITIAL), run).st;
              && st.voteStarted != 0 && st.log != [] && st.log[|st.log| - 1].Ballot? && st.votes == Alice()
  {
    hide Leads, SoundAt, IsRun, After, Scene, ScenesFrom, SmallSettings, Stage;
    FirstScenes();
    RevoteScene();
    SecondBallotScene();
    VoteScene();
    CarryScene();
    LastStage();
    ScenesAreRun(0);
  }
}
