/**
 Where the fetch route meets the results panel: the total the panel computes
 from the options it receives is the voter count the server sent with them,
 whenever every vote names an option of its own poll.
 */
module ClientView {

  import opened Wrappers
  import opened Ledger
  import opened PollRoutes
  import Results

  /** An option with its count, as the panel receives it over the wire. */
  function AsResult(c: OptionCount): Results.ResultOption {
    Results.ResultOption(c.id, c.text, Some(c.votes))
  }

  /** The panel's left fold and the server's sum add up the same counts. */
  lemma {:induction false} TotalVotesIsSum(cs: seq<OptionCount>)
    ensures Results.TotalVotes(Results.Map(AsResult, cs)) == SumVotes(cs)
    decreases |cs|
  {
    if |cs| > 0 {
      var n := |cs|;
      var rs := Results.Map(AsResult, cs);
      assert rs[..n - 1] == Results.Map(AsResult, cs[..n - 1]);
      TotalVotesIsSum(cs[..n - 1]);
      SumSplitsLast(cs);
    }
  }

  lemma {:induction false} SumSplitsLast(cs: seq<OptionCount>)
    requires |cs| > 0
    ensures SumVotes(cs) == SumVotes(cs[..|cs| - 1]) + cs[|cs| - 1].votes
    decreases |cs|
  {
    if |cs| > 1 {
      var t := cs[1..];
      SumSplitsLast(t);
      assert t[..|t| - 1] == cs[..|cs| - 1][1..];
    }
  }

  /** In a well-formed store, the panel's "total votes" over a fetched poll's
      options equals the voter count the same response carries. */
  lemma PanelTotalIsVoterCount(store: Store, body: FetchBody, readFails: bool)
    requires WellFormed(store)
    requires FetchPoll(store, body, readFails).status == Ok
    ensures var d := FetchPoll(store, body, readFails).data.value;
      Results.TotalVotes(Results.Map(AsResult, d.options)) == d.voterCount
  {
    var d := FetchPoll(store, body, readFails).data.value;
    FetchCountsAgree(store, body, readFails);
    TotalVotesIsSum(d.options);
  }
}
