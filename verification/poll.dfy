/** Polls attached to posts: an ordered list of option strings per post and,
    for each option, the set of name hashes that chose it. A user votes once
    per poll, for one option given by its exact text. */
module Poll {
  import opened Wrappers
  import opened Entities
  import opened Stores

  datatype Answer = Answer(option: string, votes: nat)

  /** What a reader sees of a poll: every option with its count, and the
      option the reader chose, if any. */
  datatype PollDict = PollDict(answers: seq<Answer>, vote: Option<string>)

  /** The option the user is among the voters of, searching the first `k`
      options and reporting the last match. */
  function LastChoice(opts: seq<string>, votes: VoteStore, pid: int, namehash: string, k: nat): (r: Option<string>)
    requires k <= |opts|
    ensures r.None? <==> forall i :: 0 <= i < k ==> !VoteHas(votes, pid, i, namehash)
    ensures r.Some? ==> exists i :: (0 <= i < k && VoteHas(votes, pid, i, namehash) && r.value == opts[i]
      && forall j :: i < j < k ==> !VoteHas(votes, pid, j, namehash))
  {
    if k == 0 then None
    else if VoteHas(votes, pid, k - 1, namehash) then Some(opts[k - 1])
    else LastChoice(opts, votes, pid, namehash, k - 1)
  }

  /** `get_poll_dict`: nothing for a post without options; otherwise the
      options in order with their vote counts, and the last option the reader
      voted for. */
  function GetPollDict(opts: seq<string>, votes: VoteStore, pid: int, namehash: string): (r: Option<PollDict>)
    ensures r.None? <==> |opts| == 0
    ensures r.Some? ==> (|r.value.answers| == |opts|
      && (forall i :: 0 <= i < |opts| ==> r.value.answers[i] == Answer(opts[i], VoteCount(votes, pid, i)))
      && r.value.vote == LastChoice(opts, votes, pid, namehash, |opts|))
  {
    if |opts| == 0 then None
    else
      Some(PollDict(
        seq(|opts|, i requires 0 <= i < |opts| => Answer(opts[i], VoteCount(votes, pid, i))),
        LastChoice(opts, votes, pid, namehash, |opts|)))
  }

  /** The user is among the voters of one of the first `n` options. */
  predicate VotedAny(votes: VoteStore, pid: int, n: nat, namehash: string) {
    exists i :: 0 <= i < n && VoteHas(votes, pid, i, namehash)
  }

  /** The first index holding `choice`, if any. */
  function Position(opts: seq<string>, choice: string): (r: Option<nat>)
    ensures r.None? <==> choice !in opts
    ensures r.Some? ==> (r.value < |opts| && opts[r.value] == choice
      && forall j :: 0 <= j < r.value ==> opts[j] != choice)
  {
    if |opts| == 0 then None
    else if opts[0] == choice then Some(0)
    else match Position(opts[1..], choice)
      case None => None
      case Some(k) => Some(k + 1)
  }

  /** `vote`: refuse a temporary user, a post without options, a user who
      already voted and a choice that is no option; otherwise record the
      vote under the first option equal to the choice, and answer with the
      poll as the voter now sees it. */
  function Vote(user: CurrentUser, opts: seq<string>, votes: VoteStore, pid: int, choice: string)
    : (r: Result<(VoteStore, Option<PollDict>), ApiError>)
    ensures r.Err? <==>
      user.id.None? || |opts| == 0 || VotedAny(votes, pid, |opts|, user.namehash) || choice !in opts
    ensures r.Err? ==> r.error == Pc(NotAllowed)
    ensures r.Ok? ==> (r.value.0 == VoteAdd(votes, pid, Position(opts, choice).value, user.namehash)
      && r.value.1 == GetPollDict(opts, r.value.0, pid, user.namehash))
  {
    if user.id.None? then Err(Pc(NotAllowed))
    else if |opts| == 0 then Err(Pc(NotAllowed))
    else if VotedAny(votes, pid, |opts|, user.namehash) then Err(Pc(NotAllowed))
    else match Position(opts, choice)
      case None => Err(Pc(NotAllowed))
      case Some(idx) =>
        var votes' := VoteAdd(votes, pid, idx, user.namehash);
        Ok((votes', GetPollDict(opts, votes', pid, user.namehash)))
  }

  /** Nobody is among the voters of two options of the poll. */
  predicate OneVoteEach(votes: VoteStore, pid: int, n: nat) {
    forall i, j :: 0 <= i < j < n ==> Voters(votes, pid, i) !! Voters(votes, pid, j)
  }

  /** Voting keeps every user at one vote per poll. */
  lemma VoteKeepsOneVoteEach(user: CurrentUser, opts: seq<string>, votes: VoteStore, pid: int, choice: string)
    requires OneVoteEach(votes, pid, |opts|)
    requires Vote(user, opts, votes, pid, choice).Ok?
    ensures OneVoteEach(Vote(user, opts, votes, pid, choice).value.0, pid, |opts|)
  {
    var idx := Position(opts, choice).value;
    var v' := Vote(user, opts, votes, pid, choice).value.0;
    forall i, j | 0 <= i < j < |opts|
      ensures Voters(v', pid, i) !! Voters(v', pid, j)
    {
      if i == idx {
        assert !VoteHas(votes, pid, j, user.namehash);
      } else if j == idx {
        assert !VoteHas(votes, pid, i, user.namehash);
      }
    }
  }

  /** After a successful vote the voter's poll shows the choice, that option
      has one vote more and every other option's count is unchanged. */
  lemma VoteShowsChoice(user: CurrentUser, opts: seq<string>, votes: VoteStore, pid: int, choice: string)
    requires Vote(user, opts, votes, pid, choice).Ok?
    ensures Vote(user, opts, votes, pid, choice).value.1.Some?
    ensures Vote(user, opts, votes, pid, choice).value.1.value.vote == Some(choice)
    ensures forall i :: 0 <= i < |opts| ==>
      Vote(user, opts, votes, pid, choice).value.1.value.answers[i].votes
        == VoteCount(votes, pid, i) + (if i == Position(opts, choice).value then 1 else 0)
  {
    var idx := Position(opts, choice).value;
    var v' := Vote(user, opts, votes, pid, choice).value.0;
    assert VoteHas(v', pid, idx, user.namehash);
    forall i | 0 <= i < |opts|
      ensures VoteHas(v', pid, i, user.namehash) <==> i == idx
    {
      if i != idx {
        assert Voters(v', pid, i) == Voters(votes, pid, i);
        assert !VoteHas(votes, pid, i, user.namehash);
      }
    }
    var last := LastChoice(opts, v', pid, user.namehash, |opts|);
    assert last.Some?;
    VoteAddCounts(votes, pid, idx, user.namehash);
  }

  /** A second vote by the same user on the same poll is refused. */
  lemma NoSecondVote(user: CurrentUser, opts: seq<string>, votes: VoteStore, pid: int, a: string, b: string)
    requires Vote(user, opts, votes, pid, a).Ok?
    ensures Vote(user, opts, Vote(user, opts, votes, pid, a).value.0, pid, b) == Err(Pc(NotAllowed))
  {
    var idx := Position(opts, a).value;
    assert VoteHas(Vote(user, opts, votes, pid, a).value.0, pid, idx, user.namehash);
  }
}
