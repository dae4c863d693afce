/**
 The HTTP handlers of the poll router: create a poll, fetch a poll with its
 aggregate, and record a vote, plus the vote broadcast that follows a
 successful write. Each handler is a function from the store and the request
 body to a status, the store afterwards and, for votes, the poll whose room is
 to be told. What the database does on its own (generating identifiers,
 failing) arrives as a parameter.
 */
module PollRoutes {

  import opened Wrappers
  import opened Text
  import opened Json
  import opened Ledger
  import opened Broadcast

  /** Why a request was answered 400. */
  datatype Rejection =
    | BlankQuestion   // 'Question must be a non-empty string.'
    | BadOptions      // 'At least two valid, non-empty options are required.'
    | NoLookupKey     // 'Either id or shortCode must be provided.'
    | MissingField    // 'Missing required fields: ...'
    | WrongType       // 'Invalid data types provided.'

  datatype Status = Ok | Created | BadRequest(why: Rejection) | NotFound | ServerError

  // ---------------------------------------------------------------- create

  datatype CreateBody = CreateBody(question: Value, options: Value)

  /** What the database hands back for an insert: either an error, or the
      identifiers and short code it generated for the poll and its options. */
  datatype Assignment = Refused | Assigned(pollId: PollId, shortCode: string, optionIds: seq<OptionId>)

  datatype CreateReply = CreateReply(status: Status, store: Store, poll: Option<PollRow>)

  predicate ValidQuestion(q: Value) {
    Truthy(q) && q.Str? && Trim(q.s) != ""
  }

  predicate ValidOption(v: Value) {
    v.Str? && Trim(v.s) != ""
  }

  predicate ValidOptions(v: Value) {
    Truthy(v) && v.Arr? && |v.items| >= 2
    && forall i :: 0 <= i < |v.items| ==> ValidOption(v.items[i])
  }

  /** The generated identifiers respect the table keys: the poll id and short
      code are new, and there is one new, distinct option id per option. An
      assignment that breaks a key is a failed insert. */
  predicate Fits(store: Store, a: Assignment, n: nat) {
    && a.Assigned?
    && |a.optionIds| == n
    && (forall j :: 0 <= j < |store.polls| ==> store.polls[j].id != a.pollId)
    && (forall j :: 0 <= j < |store.polls| ==> store.polls[j].shortCode != a.shortCode)
    && (forall i, j :: 0 <= i < j < n ==> a.optionIds[i] != a.optionIds[j])
    && (forall i, j :: 0 <= i < n && 0 <= j < |store.options| ==> a.optionIds[i] != store.options[j].id)
  }

  /** The option rows a successful create inserts: the trimmed texts, in input order. */
  function NewOptionRows(pollId: PollId, ids: seq<OptionId>, texts: seq<Value>): seq<OptionRow>
    requires |ids| == |texts| && forall i :: 0 <= i < |texts| ==> texts[i].Str?
  {
    seq(|texts|, i requires 0 <= i < |texts| => OptionRow(ids[i], pollId, Trim(texts[i].s)))
  }

  /** POST /polls. */
  function CreatePoll(store: Store, body: CreateBody, a: Assignment): (r: CreateReply)
    ensures r.status.BadRequest? <==> !ValidQuestion(body.question) || !ValidOptions(body.options)
    ensures r.status == BadRequest(BlankQuestion) <==> !ValidQuestion(body.question)
    ensures r.status == BadRequest(BadOptions) <==> ValidQuestion(body.question) && !ValidOptions(body.options)
    ensures r.status == Created <==>
      ValidQuestion(body.question) && ValidOptions(body.options) && Fits(store, a, |body.options.items|)
    ensures r.status == ServerError <==>
      ValidQuestion(body.question) && ValidOptions(body.options) && !Fits(store, a, |body.options.items|)
    ensures r.status != Created ==> r.store == store && r.poll.None?
    ensures r.status == Created ==>
      && r.poll == Some(PollRow(a.pollId, a.shortCode, Trim(body.question.s)))
      && r.store.polls == store.polls + [r.poll.value]
      && |r.store.options| == |store.options| + |body.options.items|
      && r.store.options[..|store.options|] == store.options
      && (forall i :: 0 <= i < |body.options.items| ==>
            r.store.options[|store.options| + i]
              == OptionRow(a.optionIds[i], a.pollId, Trim(body.options.items[i].s)))
      && r.store.votes == store.votes
  {
    if !ValidQuestion(body.question) then CreateReply(BadRequest(BlankQuestion), store, None)
    else if !ValidOptions(body.options) then CreateReply(BadRequest(BadOptions), store, None)
    else if !Fits(store, a, |body.options.items|) then CreateReply(ServerError, store, None)
    else
      var row := PollRow(a.pollId, a.shortCode, Trim(body.question.s));
      var rows := NewOptionRows(a.pollId, a.optionIds, body.options.items);
      CreateReply(Created, Store(store.polls + [row], store.options + rows, store.votes), Some(row))
  }

  /** A successful create keeps the store well formed, and the new poll's
      options, as the aggregate lists them, are the trimmed inputs in order. */
  lemma CreateKeepsWellFormed(store: Store, body: CreateBody, a: Assignment)
    requires WellFormed(store)
    requires CreatePoll(store, body, a).status == Created
    ensures WellFormed(CreatePoll(store, body, a).store)
    ensures var opts := OptionsOf(CreatePoll(store, body, a).store.options, a.pollId);
      && |opts| == |body.options.items|
      && forall i :: 0 <= i < |opts| ==> opts[i].text == Trim(body.options.items[i].s)
  {
    CreateAppends(store, body, a);
    var items := body.options.items;
    var rows := NewOptionRows(a.pollId, a.optionIds, items);
    var s' := Store(store.polls + [PollRow(a.pollId, a.shortCode, Trim(body.question.s))], store.options + rows, store.votes);
    assert CreatePoll(store, body, a).store == s';
    AppendKeepsWellFormed(store, a, Trim(body.question.s), items);
  }

  /** What a successful create appends, in terms of the store before it. */
  lemma CreateAppends(store: Store, body: CreateBody, a: Assignment)
    requires CreatePoll(store, body, a).status == Created
    ensures ValidQuestion(body.question) && ValidOptions(body.options) && Fits(store, a, |body.options.items|)
    ensures CreatePoll(store, body, a).store
      == Store(store.polls + [PollRow(a.pollId, a.shortCode, Trim(body.question.s))],
               store.options + NewOptionRows(a.pollId, a.optionIds, body.options.items),
               store.votes)
  {
  }

  /** Appending a new poll and its option rows, with identifiers that fit the
      store, keeps it well formed and lists the new options in input order. */
  lemma AppendKeepsWellFormed(store: Store, a: Assignment, question: string, items: seq<Value>)
    requires WellFormed(store)
    requires Fits(store, a, |items|) && forall i :: 0 <= i < |items| ==> items[i].Str?
    ensures var rows := NewOptionRows(a.pollId, a.optionIds, items);
      var s' := Store(store.polls + [PollRow(a.pollId, a.shortCode, question)], store.options + rows, store.votes);
      && WellFormed(s')
      && var opts := OptionsOf(s'.options, a.pollId);
         && |opts| == |items|
         && forall i :: 0 <= i < |opts| ==> opts[i].text == Trim(items[i].s)
  {
    var row := PollRow(a.pollId, a.shortCode, question);
    var rows := NewOptionRows(a.pollId, a.optionIds, items);
    assert DistinctOptionIds(rows) by {
      forall i, j | 0 <= i < j < |rows| ensures rows[i].id != rows[j].id {
        assert rows[i].id == a.optionIds[i] && rows[j].id == a.optionIds[j];
      }
    }
    InsertKeepsWellFormed(store, row, rows);
    forall i | 0 <= i < |store.options| ensures store.options[i].pollId != a.pollId {
      assert PollExists(store.polls, store.options[i].pollId);
    }
    OptionsOfAppend(store.options, rows, a.pollId);
    OptionsOfOwn(rows, a.pollId);
  }

  /** Appending a poll row with fresh keys and option rows of that poll with
      fresh, distinct ids keeps every table invariant. */
  lemma InsertKeepsWellFormed(store: Store, row: PollRow, rows: seq<OptionRow>)
    requires WellFormed(store)
    requires forall j :: 0 <= j < |store.polls| ==> store.polls[j].id != row.id
    requires forall j :: 0 <= j < |store.polls| ==> store.polls[j].shortCode != row.shortCode
    requires forall i :: 0 <= i < |rows| ==> rows[i].pollId == row.id
    requires DistinctOptionIds(rows)
    requires forall i, j :: 0 <= i < |rows| && 0 <= j < |store.options| ==> rows[i].id != store.options[j].id
    ensures WellFormed(Store(store.polls + [row], store.options + rows, store.votes))
  {
    var s' := Store(store.polls + [row], store.options + rows, store.votes);
    var n := |store.options|;
    forall i | 0 <= i < |s'.options| ensures PollExists(s'.polls, s'.options[i].pollId) {
      if i < n {
        var j :| 0 <= j < |store.polls| && store.polls[j].id == store.options[i].pollId;
        assert s'.polls[j] == store.polls[j];
      } else {
        assert s'.polls[|store.polls|] == row;
      }
    }
    forall k | k in s'.votes ensures HasOption(s'.options, s'.votes[k], k.pollId) {
      var i :| 0 <= i < n && store.options[i].id == store.votes[k] && store.options[i].pollId == k.pollId;
      assert s'.options[i] == store.options[i];
    }
    AppendKeepsDistinct(store.options, rows);
  }

  lemma AppendKeepsDistinct(xs: seq<OptionRow>, ys: seq<OptionRow>)
    requires DistinctOptionIds(xs) && DistinctOptionIds(ys)
    requires forall i, j :: 0 <= i < |ys| && 0 <= j < |xs| ==> ys[i].id != xs[j].id
    ensures DistinctOptionIds(xs + ys)
  {
    var zs, n := xs + ys, |xs|;
    forall i, j | 0 <= i < j < |zs| ensures zs[i].id != zs[j].id {
      if j < n {
        assert zs[i] == xs[i] && zs[j] == xs[j];
      } else if i >= n {
        assert zs[i] == ys[i - n] && zs[j] == ys[j - n];
      } else {
        assert zs[i] == xs[i] && zs[j] == ys[j - n];
      }
    }
  }

  lemma {:induction false} OptionsOfAppend(xs: seq<OptionRow>, ys: seq<OptionRow>, p: PollId)
    requires forall i :: 0 <= i < |xs| ==> xs[i].pollId != p
    ensures OptionsOf(xs + ys, p) == OptionsOf(ys, p)
    decreases |xs|
  {
    if |xs| == 0 {
      assert xs + ys == ys;
    } else {
      assert (xs + ys)[0] == xs[0];
      assert (xs + ys)[1..] == xs[1..] + ys;
      OptionsOfAppend(xs[1..], ys, p);
    }
  }

  lemma {:induction false} OptionsOfOwn(ys: seq<OptionRow>, p: PollId)
    requires forall i :: 0 <= i < |ys| ==> ys[i].pollId == p
    ensures OptionsOf(ys, p) == ys
    decreases |ys|
  {
    if |ys| > 0 {
      OptionsOfOwn(ys[1..], p);
    }
  }

  // ----------------------------------------------------------------- fetch

  datatype FetchBody = FetchBody(id: Value, shortCode: Value)

  /** The 200 response body: the poll, its options with counts, and its voter count. */
  datatype Fetched = Fetched(poll: PollRow, options: seq<OptionCount>, voterCount: nat)

  datatype FetchReply = FetchReply(status: Status, data: Option<Fetched>)

  /** The `OR: [{ id }, { shortCode }]` filter: a string key selects the rows
      whose field equals it; an absent key selects nothing. */
  predicate Matches(p: PollRow, b: FetchBody) {
    || (b.id.Str? && b.id.s == p.id)
    || (b.shortCode.Str? && b.shortCode.s == p.shortCode)
  }

  /** A key the query builder refuses: present, but neither a string nor an object. */
  predicate BadKey(v: Value) {
    !(v.Undefined? || v.Str? || v.Obj?)
  }

  /** Whether the lookup throws: the read fails, or a key has the wrong type. */
  predicate LookupThrows(body: FetchBody, readFails: bool) {
    readFails || BadKey(body.id) || BadKey(body.shortCode)
  }

  /** `poll.findFirst`: the position of the first poll row the filter matches. */
  function FindFirst(polls: seq<PollRow>, b: FetchBody): (r: Option<nat>)
    ensures r.Some? ==> r.value < |polls| && Matches(polls[r.value], b)
    ensures forall j :: 0 <= j < |polls| && (r.None? || j < r.value) ==> !Matches(polls[j], b)
    decreases |polls|
  {
    if |polls| == 0 then None
    else if Matches(polls[0], b) then Some(0)
    else match FindFirst(polls[1..], b)
      case None => None
      case Some(j) => Some(j + 1)
  }

  /** POST /polls/fetch; `readFails` is a failing database read. */
  function FetchPoll(store: Store, body: FetchBody, readFails: bool): (r: FetchReply)
    ensures r.status == BadRequest(NoLookupKey) <==> !Truthy(body.id) && !Truthy(body.shortCode)
    ensures r.status == NotFound <==>
      && (Truthy(body.id) || Truthy(body.shortCode)) && !LookupThrows(body, readFails)
      && forall j :: 0 <= j < |store.polls| ==> !Matches(store.polls[j], body)
    ensures r.status == ServerError <==>
      (Truthy(body.id) || Truthy(body.shortCode)) && LookupThrows(body, readFails)
    ensures r.status == Ok <==>
      && (Truthy(body.id) || Truthy(body.shortCode)) && !LookupThrows(body, readFails)
      && exists j :: 0 <= j < |store.polls| && Matches(store.polls[j], body)
    ensures r.data.Some? <==> r.status == Ok
    ensures r.status == Ok ==>
      && r.data.value.poll in store.polls
      && Matches(r.data.value.poll, body)
      && r.data.value.voterCount == Total(store.votes, r.data.value.poll.id)
      && r.data.value.options == OptionsWithCounts(store.options, store.votes, r.data.value.poll.id)
  {
    if !Truthy(body.id) && !Truthy(body.shortCode) then FetchReply(BadRequest(NoLookupKey), None)
    else if LookupThrows(body, readFails) then FetchReply(ServerError, None)
    else match FindFirst(store.polls, body)
      case None => FetchReply(NotFound, None)
      case Some(j) =>
        var p := store.polls[j];
        FetchReply(Ok, Some(Fetched(p, OptionsWithCounts(store.options, store.votes, p.id), Total(store.votes, p.id))))
  }

  /** In a well-formed store the fetched per-option counts add up to the fetched voter count. */
  lemma FetchCountsAgree(store: Store, body: FetchBody, readFails: bool)
    requires WellFormed(store)
    requires FetchPoll(store, body, readFails).status == Ok
    ensures var d := FetchPoll(store, body, readFails).data.value;
      SumVotes(d.options) == d.voterCount
  {
    var d := FetchPoll(store, body, readFails).data.value;
    CountsSumToTotal(store.options, store.votes, d.poll.id);
  }

  // ------------------------------------------------------------------ vote

  datatype VoteBody = VoteBody(optionId: Value, pollId: Value, voterId: Value)

  /** The reply, the store afterwards, and the poll whose room must be told. */
  datatype VoteReply = VoteReply(status: Status, store: Store, broadcast: Option<PollId>)

  predicate AllPresent(b: VoteBody) {
    Truthy(b.optionId) && Truthy(b.pollId) && Truthy(b.voterId)
  }

  predicate AllStrings(b: VoteBody) {
    b.optionId.Str? && b.pollId.Str? && b.voterId.Str?
  }

  /** POST /vote; `upsertFails` is a failing write (including one the
      database's own constraints refuse). Nothing checks that the poll is open
      or that the option belongs to the poll. */
  function CastVote(store: Store, body: VoteBody, upsertFails: bool): (r: VoteReply)
    ensures r.status == BadRequest(MissingField) <==> !AllPresent(body)
    ensures r.status == BadRequest(WrongType) <==> AllPresent(body) && !AllStrings(body)
    ensures r.status == ServerError <==> AllPresent(body) && AllStrings(body) && upsertFails
    ensures r.status == Ok <==> AllPresent(body) && AllStrings(body) && !upsertFails
    ensures r.status != Ok ==> r.store == store && r.broadcast.None?
    ensures r.status == Ok ==>
      var key := VoteKey(body.pollId.s, body.voterId.s);
      && r.broadcast == Some(body.pollId.s)
      && r.store.polls == store.polls && r.store.options == store.options
      && key in r.store.votes && r.store.votes[key] == body.optionId.s
      && r.store.votes.Keys == store.votes.Keys + {key}
      && forall k :: k in store.votes && k != key ==> r.store.votes[k] == store.votes[k]
  {
    if !AllPresent(body) then VoteReply(BadRequest(MissingField), store, None)
    else if !AllStrings(body) then VoteReply(BadRequest(WrongType), store, None)
    else if upsertFails then VoteReply(ServerError, store, None)
    else
      var votes := Upsert(store.votes, body.pollId.s, body.voterId.s, body.optionId.s);
      VoteReply(Ok, store.(votes := votes), Some(body.pollId.s))
  }

  /** `broadcastPollUpdates`: re-reads the aggregate and the voter count and
      emits them to the poll's room; an empty poll id or a failing read emits nothing. */
  function BroadcastPollUpdates(store: Store, pollId: PollId, readFails: bool): (r: Option<Emit>)
    ensures r.Some? <==> pollId != "" && !readFails
    ensures r.Some? ==>
      && r.value.room == RoomOf(pollId)
      && r.value.event.NewVote?
      && r.value.event.voterCount == Total(store.votes, pollId)
      && r.value.event.options == OptionsWithCounts(store.options, store.votes, pollId)
  {
    if pollId == "" then None
    else if readFails then None
    else Some(Emit(RoomOf(pollId), NewVote(OptionsWithCounts(store.options, store.votes, pollId), Total(store.votes, pollId))))
  }

  /** The broadcast after an accepted vote reads the ledger after the write:
      the voter count grows by one exactly on the voter's first vote in the
      poll, the chosen option's count gains the voter's row unless it already
      held it, and the chosen option, when it is one of the poll's, is listed. */
  lemma VoteBroadcastSeesWrite(store: Store, body: VoteBody, readFails: bool)
    requires CastVote(store, body, false).status == Ok && !readFails
    ensures var r := CastVote(store, body, false);
      var p, o := body.pollId.s, body.optionId.s;
      var e := BroadcastPollUpdates(r.store, p, readFails);
      && e.Some? && e.value.room == RoomOf(p)
      && e.value.event.voterCount
         == Total(store.votes, p) + (if VoteKey(p, body.voterId.s) in store.votes then 0 else 1)
      && (forall c :: c in e.value.event.options && c.id == o ==>
            c.votes == Count(store.votes, o)
              + (if VoteKey(p, body.voterId.s) in store.votes && store.votes[VoteKey(p, body.voterId.s)] == o
                 then 0 else 1))
      && (HasOption(store.options, o, p) ==> exists c :: c in e.value.event.options && c.id == o)
  {
    var r := CastVote(store, body, false);
    var p, v, o := body.pollId.s, body.voterId.s, body.optionId.s;
    TotalAfterUpsert(store.votes, p, v, o, p);
    CountAfterUpsert(store.votes, p, v, o, o);
    if HasOption(store.options, o, p) {
      var i :| 0 <= i < |store.options| && store.options[i].id == o && store.options[i].pollId == p;
      assert store.options[i] in r.store.options;
      assert Counted(store.options[i], r.store.votes) in OptionsWithCounts(r.store.options, r.store.votes, p);
    }
  }

  /** A vote that names an option of its own poll keeps the store well formed,
      so the poll's counts keep adding up to its voter count. */
  lemma VoteKeepsWellFormed(store: Store, body: VoteBody, upsertFails: bool)
    requires WellFormed(store)
    requires AllPresent(body) && AllStrings(body)
    requires HasOption(store.options, body.optionId.s, body.pollId.s)
    ensures WellFormed(CastVote(store, body, upsertFails).store)
    ensures var s' := CastVote(store, body, upsertFails).store;
      SumVotes(OptionsWithCounts(s'.options, s'.votes, body.pollId.s)) == Total(s'.votes, body.pollId.s)
  {
    var s' := CastVote(store, body, upsertFails).store;
    UpsertKeepsVotesBelong(store.options, store.votes, body.pollId.s, body.voterId.s, body.optionId.s);
    CountsSumToTotal(s'.options, s'.votes, body.pollId.s);
  }

  // ------------------------------------------------- a sequence of votes

  datatype VoteCall = VoteCall(body: VoteBody, upsertFails: bool)

  /** The store after the calls, handled one after another. */
  function Replay(store: Store, calls: seq<VoteCall>): Store
    decreases |calls|
  {
    if |calls| == 0 then store
    else
      var last := calls[|calls| - 1];
      CastVote(Replay(store, calls[..|calls| - 1]), last.body, last.upsertFails).store
  }

  /** Whether a call is accepted by the vote route, for the given poll and voter. */
  predicate AcceptedFor(c: VoteCall, p: PollId, v: VoterId) {
    AllPresent(c.body) && AllStrings(c.body) && !c.upsertFails
    && c.body.pollId.s == p && c.body.voterId.s == v
  }

  /** The option of the last accepted call by voter `v` in poll `p`, if any. */
  function LastAccepted(calls: seq<VoteCall>, p: PollId, v: VoterId): Option<OptionId>
    decreases |calls|
  {
    if |calls| == 0 then None
    else if AcceptedFor(calls[|calls| - 1], p, v) then Some(calls[|calls| - 1].body.optionId.s)
    else LastAccepted(calls[..|calls| - 1], p, v)
  }

  /** One vote per voter per poll: after any sequence of vote requests the
      ledger holds exactly one row for (p, v), naming the option of the last
      accepted request, or the row it had before when none was accepted. */
  lemma {:induction false} LastAcceptedVoteWins(store: Store, calls: seq<VoteCall>, p: PollId, v: VoterId)
    ensures var votes := Replay(store, calls).votes;
      match LastAccepted(calls, p, v)
      case Some(o) => VoteKey(p, v) in votes && votes[VoteKey(p, v)] == o
      case None =>
        && (VoteKey(p, v) in votes <==> VoteKey(p, v) in store.votes)
        && (VoteKey(p, v) in votes ==> votes[VoteKey(p, v)] == store.votes[VoteKey(p, v)])
    decreases |calls|
  {
    if |calls| > 0 {
      LastAcceptedVoteWins(store, calls[..|calls| - 1], p, v);
    }
  }

  /** Poll P with options A and B: v1 votes A, v2 votes B, v1 changes to B.
      The counts go {A:1, B:0} with 1 voter, {A:1, B:1} with 2, {A:0, B:2} with 2. */
  lemma RevoteScenario()
    ensures var s0 := Store([PollRow("P", "CODE", "Q?")], [OptionRow("A", "P", "a"), OptionRow("B", "P", "b")], map[]);
      var s1 := CastVote(s0, VoteBody(Str("A"), Str("P"), Str("v1")), false).store;
      var s2 := CastVote(s1, VoteBody(Str("B"), Str("P"), Str("v2")), false).store;
      var s3 := CastVote(s2, VoteBody(Str("B"), Str("P"), Str("v1")), false).store;
      && Count(s1.votes, "A") == 1 && Count(s1.votes, "B") == 0 && Total(s1.votes, "P") == 1
      && Count(s2.votes, "A") == 1 && Count(s2.votes, "B") == 1 && Total(s2.votes, "P") == 2
      && Count(s3.votes, "A") == 0 && Count(s3.votes, "B") == 2 && Total(s3.votes, "P") == 2
  {
    var s0 := Store([PollRow("P", "CODE", "Q?")], [OptionRow("A", "P", "a"), OptionRow("B", "P", "b")], map[]);
    AcceptedVoteIsUpsert(s0, "A", "P", "v1");
    var s1 := CastVote(s0, VoteBody(Str("A"), Str("P"), Str("v1")), false).store;
    AcceptedVoteIsUpsert(s1, "B", "P", "v2");
    var s2 := CastVote(s1, VoteBody(Str("B"), Str("P"), Str("v2")), false).store;
    AcceptedVoteIsUpsert(s2, "B", "P", "v1");
    RevoteCounts();
  }

  /** The ledger side of the scenario above. */
  lemma RevoteCounts()
    ensures var v1 := Upsert(map[], "P", "v1", "A");
      var v2 := Upsert(v1, "P", "v2", "B");
      var v3 := Upsert(v2, "P", "v1", "B");
      && Count(v1, "A") == 1 && Count(v1, "B") == 0 && Total(v1, "P") == 1
      && Count(v2, "A") == 1 && Count(v2, "B") == 1 && Total(v2, "P") == 2
      && Count(v3, "A") == 0 && Count(v3, "B") == 2 && Total(v3, "P") == 2
  {
    var v0: Votes := map[];
    assert VotesFor(v0, "A") == {} && VotesFor(v0, "B") == {} && VotesOf(v0, "P") == {};
    FirstVoteAddsOne(v0, "P", "v1", "A");
    var v1 := Upsert(v0, "P", "v1", "A");
    FirstVoteAddsOne(v1, "P", "v2", "B");
    var v2 := Upsert(v1, "P", "v2", "B");
    RevoteMovesOne(v2, "P", "v1", "B");
  }

  lemma AcceptedVoteIsUpsert(store: Store, o: OptionId, p: PollId, v: VoterId)
    requires o != "" && p != "" && v != ""
    ensures CastVote(store, VoteBody(Str(o), Str(p), Str(v)), false).store.votes == Upsert(store.votes, p, v, o)
  {
  }
}
