/**
 The poll store the server's routes read and write, as three tables: polls in
 insertion order, options in insertion order, and the vote ledger keyed by the
 compound key (poll, voter). The aggregate a poll's room sees is derived from
 these tables alone.
 */
module Ledger {

  type PollId = string
  type OptionId = string
  type VoterId = string

  datatype PollRow = PollRow(id: PollId, shortCode: string, question: string)

  datatype OptionRow = OptionRow(id: OptionId, pollId: PollId, text: string)

  /** The compound unique key of the vote table. */
  datatype VoteKey = VoteKey(pollId: PollId, voterId: VoterId)

  /** The vote table: at most one row per (poll, voter), holding the chosen option. */
  type Votes = map<VoteKey, OptionId>

  datatype Store = Store(polls: seq<PollRow>, options: seq<OptionRow>, votes: Votes)

  /** An option row together with the number of votes naming it (`_count.votes`). */
  datatype OptionCount = OptionCount(id: OptionId, pollId: PollId, text: string, votes: nat)

  /** The vote rows whose option is `o`, whatever poll they are filed under. */
  function VotesFor(votes: Votes, o: OptionId): set<VoteKey> {
    set k | k in votes && votes[k] == o
  }

  function Count(votes: Votes, o: OptionId): nat {
    |VotesFor(votes, o)|
  }

  /** The vote rows filed under poll `p`. */
  function VotesOf(votes: Votes, p: PollId): set<VoteKey> {
    set k | k in votes && k.pollId == p
  }

  /** The number of voters of poll `p` (`vote.count` where pollId = p). */
  function Total(votes: Votes, p: PollId): nat {
    |VotesOf(votes, p)|
  }

  /** Insert-or-replace on the compound key (poll, voter). */
  function Upsert(votes: Votes, p: PollId, v: VoterId, o: OptionId): (r: Votes)
    ensures VoteKey(p, v) in r && r[VoteKey(p, v)] == o
    ensures r.Keys == votes.Keys + {VoteKey(p, v)}
    ensures forall k :: k in votes && k != VoteKey(p, v) ==> r[k] == votes[k]
  {
    votes[VoteKey(p, v) := o]
  }

  /** How an upsert changes the voter count of any poll `q`: up by one for the
      voter's poll when the voter had no row there yet, otherwise unchanged. */
  lemma TotalAfterUpsert(votes: Votes, p: PollId, v: VoterId, o: OptionId, q: PollId)
    ensures Total(Upsert(votes, p, v, o), q)
         == Total(votes, q) + (if q == p && VoteKey(p, v) !in votes then 1 else 0)
  {
    var key, r := VoteKey(p, v), Upsert(votes, p, v, o);
    var before, after := VotesOf(votes, q), VotesOf(r, q);
    if q == p && key !in votes {
      assert forall k :: k in after <==> k in before || k == key;
      assert after == before + {key} && key !in before;
    } else {
      assert forall k :: k in after <==> k in before;
      assert after == before;
    }
  }

  /** How an upsert changes the vote count of any option `x`: the new option
      gains the row and the option it previously held loses it. */
  lemma CountAfterUpsert(votes: Votes, p: PollId, v: VoterId, o: OptionId, x: OptionId)
    ensures x == o && (VoteKey(p, v) !in votes || votes[VoteKey(p, v)] != o) ==>
      Count(Upsert(votes, p, v, o), x) == Count(votes, x) + 1
    ensures x != o && VoteKey(p, v) in votes && votes[VoteKey(p, v)] == x ==>
      Count(Upsert(votes, p, v, o), x) + 1 == Count(votes, x)
    ensures x != o && (VoteKey(p, v) !in votes || votes[VoteKey(p, v)] != x) ==>
      Count(Upsert(votes, p, v, o), x) == Count(votes, x)
    ensures x == o && VoteKey(p, v) in votes && votes[VoteKey(p, v)] == o ==>
      Count(Upsert(votes, p, v, o), x) == Count(votes, x)
  {
    var key, r := VoteKey(p, v), Upsert(votes, p, v, o);
    var before, after := VotesFor(votes, x), VotesFor(r, x);
    if x == o && (key !in votes || votes[key] != o) {
      Gains(votes, r, key, x);
    } else if x != o && key in votes && votes[key] == x {
      Gains(r, votes, key, x);
    } else {
      assert forall k :: k in after <==> k in before;
      assert after == before;
    }
  }

  lemma Gains(votes: Votes, r: Votes, key: VoteKey, x: OptionId)
    requires key in r && r[key] == x && (key !in votes || votes[key] != x)
    requires forall k :: k != key ==> (k in r <==> k in votes)
    requires forall k :: k != key && k in r ==> r[k] == votes[k]
    ensures Count(r, x) == Count(votes, x) + 1
  {
    var before, after := VotesFor(votes, x), VotesFor(r, x);
    assert forall k :: k in after <==> k in before || k == key;
    assert after == before + {key};
  }

  /** A voter's first vote in a poll adds one voter to that poll and one vote to
      the chosen option; every other poll and option keeps its count. */
  lemma FirstVoteAddsOne(votes: Votes, p: PollId, v: VoterId, o: OptionId)
    requires VoteKey(p, v) !in votes
    ensures Total(Upsert(votes, p, v, o), p) == Total(votes, p) + 1
    ensures forall q :: q != p ==> Total(Upsert(votes, p, v, o), q) == Total(votes, q)
    ensures Count(Upsert(votes, p, v, o), o) == Count(votes, o) + 1
    ensures forall x :: x != o ==> Count(Upsert(votes, p, v, o), x) == Count(votes, x)
  {
    TotalAfterUpsert(votes, p, v, o, p);
    CountAfterUpsert(votes, p, v, o, o);
    forall q | q != p ensures Total(Upsert(votes, p, v, o), q) == Total(votes, q) {
      TotalAfterUpsert(votes, p, v, o, q);
    }
    forall x | x != o ensures Count(Upsert(votes, p, v, o), x) == Count(votes, x) {
      CountAfterUpsert(votes, p, v, o, x);
    }
  }

  /** A revote leaves every poll's voter count as it was and moves one vote
      from the previous option to the new one; other options are untouched. */
  lemma RevoteMovesOne(votes: Votes, p: PollId, v: VoterId, o: OptionId)
    requires VoteKey(p, v) in votes
    ensures forall q :: Total(Upsert(votes, p, v, o), q) == Total(votes, q)
    ensures var prev := votes[VoteKey(p, v)];
      prev != o ==>
        && Count(Upsert(votes, p, v, o), prev) == Count(votes, prev) - 1
        && Count(Upsert(votes, p, v, o), o) == Count(votes, o) + 1
    ensures forall x :: x != o && x != votes[VoteKey(p, v)] ==>
      Count(Upsert(votes, p, v, o), x) == Count(votes, x)
    ensures votes[VoteKey(p, v)] == o ==> Upsert(votes, p, v, o) == votes
  {
    var prev := votes[VoteKey(p, v)];
    forall q ensures Total(Upsert(votes, p, v, o), q) == Total(votes, q) {
      TotalAfterUpsert(votes, p, v, o, q);
    }
    CountAfterUpsert(votes, p, v, o, prev);
    CountAfterUpsert(votes, p, v, o, o);
    forall x | x != o && x != prev ensures Count(Upsert(votes, p, v, o), x) == Count(votes, x) {
      CountAfterUpsert(votes, p, v, o, x);
    }
  }

  /** The option rows of poll `p`, in table order (`option.findMany` where pollId = p). */
  function OptionsOf(options: seq<OptionRow>, p: PollId): (r: seq<OptionRow>)
    ensures forall o :: o in r <==> o in options && o.pollId == p
    decreases |options|
  {
    if |options| == 0 then []
    else (if options[0].pollId == p then [options[0]] else []) + OptionsOf(options[1..], p)
  }

  function Counted(o: OptionRow, votes: Votes): OptionCount {
    OptionCount(o.id, o.pollId, o.text, Count(votes, o.id))
  }

  /** `getOptionsWithCounts`: every option of poll `p`, including those nobody
      chose, each with the number of ledger rows naming it. */
  function OptionsWithCounts(options: seq<OptionRow>, votes: Votes, p: PollId): (r: seq<OptionCount>)
    ensures |r| == |OptionsOf(options, p)|
    ensures forall o :: o in options && o.pollId == p ==> Counted(o, votes) in r
    ensures forall c :: c in r ==> c.pollId == p && Count(votes, c.id) == c.votes
    ensures forall c :: c in r ==> OptionRow(c.id, c.pollId, c.text) in options
    decreases |options|
  {
    if |options| == 0 then []
    else
      (if options[0].pollId == p then [Counted(options[0], votes)] else [])
      + OptionsWithCounts(options[1..], votes, p)
  }

  function SumVotes(cs: seq<OptionCount>): nat {
    if |cs| == 0 then 0 else cs[0].votes + SumVotes(cs[1..])
  }

  /** No two option rows share an identifier. */
  ghost predicate DistinctOptionIds(options: seq<OptionRow>) {
    forall i, j :: 0 <= i < j < |options| ==> options[i].id != options[j].id
  }

  /** Every vote row names an option of the poll it is filed under. */
  ghost predicate VotesBelong(options: seq<OptionRow>, votes: Votes) {
    forall k :: k in votes ==> HasOption(options, votes[k], k.pollId)
  }

  ghost predicate HasOption(options: seq<OptionRow>, o: OptionId, p: PollId) {
    exists i :: 0 <= i < |options| && options[i].id == o && options[i].pollId == p
  }

  /** The vote rows whose option is an option of `p` listed in `options`. */
  ghost function VotesNaming(votes: Votes, options: seq<OptionRow>, p: PollId): set<VoteKey> {
    set k | k in votes && HasOption(options, votes[k], p)
  }

  lemma {:induction false} SumIsVotesNaming(options: seq<OptionRow>, votes: Votes, p: PollId)
    requires DistinctOptionIds(options)
    ensures SumVotes(OptionsWithCounts(options, votes, p)) == |VotesNaming(votes, options, p)|
    decreases |options|
  {
    if |options| == 0 {
      assert VotesNaming(votes, options, p) == {};
    } else {
      var o, rest := options[0], options[1..];
      assert DistinctOptionIds(rest) by {
        forall i, j | 0 <= i < j < |rest| ensures rest[i].id != rest[j].id {
          assert rest[i] == options[i + 1] && rest[j] == options[j + 1];
        }
      }
      SumIsVotesNaming(rest, votes, p);
      NamingSplits(options, votes, p);
      var tail := OptionsWithCounts(rest, votes, p);
      if o.pollId == p {
        assert OptionsWithCounts(options, votes, p) == [Counted(o, votes)] + tail;
        assert ([Counted(o, votes)] + tail)[1..] == tail;
      } else {
        assert OptionsWithCounts(options, votes, p) == tail;
      }
    }
  }

  /** The rows naming an option of `p` split into those naming the first
      option row, when it is `p`'s, and those naming one of the rest. */
  lemma NamingSplits(options: seq<OptionRow>, votes: Votes, p: PollId)
    requires |options| > 0 && DistinctOptionIds(options)
    ensures var o, rest := options[0], options[1..];
      && (o.pollId == p ==>
            && VotesFor(votes, o.id) !! VotesNaming(votes, rest, p)
            && VotesNaming(votes, options, p) == VotesFor(votes, o.id) + VotesNaming(votes, rest, p))
      && (o.pollId != p ==> VotesNaming(votes, options, p) == VotesNaming(votes, rest, p))
  {
    var o, rest := options[0], options[1..];
    forall k | k in votes ensures HasOption(options, votes[k], p) <==>
      (o.pollId == p && votes[k] == o.id) || HasOption(rest, votes[k], p)
    {
      if HasOption(options, votes[k], p) {
        var i :| 0 <= i < |options| && options[i].id == votes[k] && options[i].pollId == p;
        if i > 0 { assert rest[i - 1] == options[i]; }
      }
      if HasOption(rest, votes[k], p) {
        var i :| 0 <= i < |rest| && rest[i].id == votes[k] && rest[i].pollId == p;
        assert options[i + 1] == rest[i];
      }
    }
    forall i | 0 <= i < |rest| ensures rest[i].id != o.id {
      assert rest[i] == options[i + 1];
    }
  }

  /** When option identifiers are unique and every vote names an option of its
      own poll, a poll's per-option counts add up to its number of voters. */
  lemma CountsSumToTotal(options: seq<OptionRow>, votes: Votes, p: PollId)
    requires DistinctOptionIds(options) && VotesBelong(options, votes)
    ensures SumVotes(OptionsWithCounts(options, votes, p)) == Total(votes, p)
  {
    SumIsVotesNaming(options, votes, p);
    forall k | k in votes ensures HasOption(options, votes[k], p) <==> k.pollId == p {
      var i :| 0 <= i < |options| && options[i].id == votes[k] && options[i].pollId == k.pollId;
      if HasOption(options, votes[k], p) {
        var j :| 0 <= j < |options| && options[j].id == votes[k] && options[j].pollId == p;
        assert i == j;
      }
    }
    assert VotesNaming(votes, options, p) == VotesOf(votes, p);
  }

  /** A vote naming an option of its own poll keeps every ledger row attached
      to its poll's options. */
  lemma UpsertKeepsVotesBelong(options: seq<OptionRow>, votes: Votes, p: PollId, v: VoterId, o: OptionId)
    requires VotesBelong(options, votes) && HasOption(options, o, p)
    ensures VotesBelong(options, Upsert(votes, p, v, o))
  {
  }

  /** The invariants the database's keys and foreign keys maintain, plus the
      one the vote route does not check: a vote names an option of its poll. */
  ghost predicate WellFormed(s: Store) {
    && (forall i, j :: 0 <= i < j < |s.polls| ==> s.polls[i].id != s.polls[j].id)
    && (forall i, j :: 0 <= i < j < |s.polls| ==> s.polls[i].shortCode != s.polls[j].shortCode)
    && DistinctOptionIds(s.options)
    && (forall i :: 0 <= i < |s.options| ==> PollExists(s.polls, s.options[i].pollId))
    && VotesBelong(s.options, s.votes)
  }

  ghost predicate PollExists(polls: seq<PollRow>, p: PollId) {
    exists j :: 0 <= j < |polls| && polls[j].id == p
  }
}
