# Live polling core, modelled in Dafny

A model of the core of the live polling app. Three parts are modelled:

- **The server.** It creates polls, answers fetches, and keeps one vote per voter per poll in a ledger with upsert semantics. After a successful write it broadcasts the poll's counts to the poll's socket room.
- **The socket room registry.** It tracks joins, participant counts and disconnects.
- **Two client components.** One is the poll-creation form's option editor with its submit step. The other is the results panel: its total, its descending sort and its percentages.

Modules, one concept each:

| file | module | what it holds |
|---|---|---|
| `wrappers.dfy` | `Wrappers` | `Option` |
| `text.dfy` | `Text` | JavaScript `trim` (ECMAScript white space and line terminators), `startsWith`, and `replace` with a string pattern (first occurrence only) |
| `json.dfy` | `Json` | parsed request values and JavaScript truthiness |
| `ledger.dfy` | `Ledger` | the poll, option and vote tables, the upsert on the key (poll, voter), and the per-option counts and per-poll voter count |
| `broadcast.dfy` | `Broadcast` | room names (`poll-<id>`) and the two events a room receives |
| `routes.dfy` | `PollRoutes` | `POST /polls`, `POST /polls/fetch`, `POST /vote` and `broadcastPollUpdates` |
| `rooms.dfy` | `Rooms` | the room registry, `joinPoll`, the participant count, and the disconnect broadcasts |
| `editor.dfy` | `OptionEditor` | the creation form's option list and `handleSubmit` |
| `results.dfy` | `Results` | the results panel |
| `submission.dfy` | `Submission` | the form's payload against the create route's validation |
| `clientview.dfy` | `ClientView` | the fetch response against the results panel's total |

Effects are modelled as follows:

- Each HTTP handler is a pure function. It takes the store and the parsed body, and returns the status, the store afterwards and what is to be broadcast.
- What the database decides on its own becomes a parameter: the identifiers it generates (`Assignment`), and whether a read or a write fails.
- Socket delivery is not modelled. An emit is a value naming the room and the event.

What the routes do not check, the model does not check either:

- **Close time.** The vote route has no close-time check. A vote is accepted whenever its fields are present strings and the write succeeds.
- **Option of another poll.** The vote route does not check that the option belongs to the poll, and `CastVote` accepts such a vote. The agreement between per-option counts and the voter count is therefore proved only for stores where every vote names an option of its own poll (`Ledger.WellFormed`).
- **Short codes.** The fetch route looks short codes up with an exact match, with no case folding, and the model compares them exactly.

## Model

| member | source | states |
|---|---|---|
| Text.Trim | apps/server/src/routes/poll.ts:73-75 | the result is the contiguous middle of the input left after all-white-space runs at both ends are removed; the result neither starts nor ends with white space |
| Text.TrimEmptyIffAllSpace | apps/server/src/routes/poll.ts:63 | `s.trim() === ''` holds exactly when every character of `s` is white space, so the guard rejects blank and whitespace-only text alike |
| Text.TrimmedIsFixed | apps/server/src/routes/poll.ts:73-75 | text without surrounding white space is stored exactly as sent |
| Text.TrimIdempotent | apps/client/src/components/CreatePollForm.tsx:82 | trimming text that was already trimmed changes nothing, so the client's trim and the server's trim agree |
| Text.IndexOf | apps/server/src/sockets.ts:21 | the position found is an occurrence of the pattern and no earlier position holds one |
| Text.StripPrefixRoundTrip | apps/server/src/sockets.ts:18-21 | for a name that starts with `poll-`, `replace('poll-', '')` removes exactly that prefix, and putting the prefix back gives the name again |
| Ledger.Upsert | apps/server/src/routes/poll.ts:155-159 | after the upsert the key (poll, voter) names the new option, the keys are the old keys plus this one, and every other row is unchanged |
| Ledger.TotalAfterUpsert | apps/server/src/routes/poll.ts:155-159 | an upsert raises the voter count of the voter's poll by one exactly when the voter had no row in that poll; every other poll's count is unchanged |
| Ledger.CountAfterUpsert | apps/server/src/routes/poll.ts:155-159 | an upsert adds one to the new option's count unless it was already chosen, takes one from the previously chosen option, and leaves every other option's count unchanged |
| Ledger.FirstVoteAddsOne | apps/server/src/routes/poll.ts:155-159 | a first vote adds one voter to its poll and one vote to its option, and nothing else changes |
| Ledger.RevoteMovesOne | apps/server/src/routes/poll.ts:155-159 | a revote keeps every voter count and moves one vote from the old option to the new one; revoting the same option leaves the ledger equal to what it was |
| Ledger.OptionsOf | apps/server/src/routes/poll.ts:23-24 | an option row is listed exactly when it is in the table and filed under the poll |
| Ledger.OptionsWithCounts | apps/server/src/routes/poll.ts:20-28 | every option of the poll is listed, including options with no votes, and nothing else is; each listed option carries the number of ledger rows naming it |
| Ledger.SumIsVotesNaming | apps/server/src/routes/poll.ts:20-26 | with unique option ids, the listed counts add up to the number of ledger rows that name one of the poll's options |
| Ledger.CountsSumToTotal | apps/server/src/routes/poll.ts:119-125 | when option ids are unique and every vote names an option of its own poll, the per-option counts add up to the poll's voter count |
| Ledger.UpsertKeepsVotesBelong | apps/server/src/routes/poll.ts:155-159 | a vote naming an option of its own poll keeps every ledger row attached to an option of its poll |
| PollRoutes.CreatePoll | apps/server/src/routes/poll.ts:56-91 | a 400 happens exactly when the question or the options fail the guards; a blank question gets the question message, and a valid question with failing options gets the options message; a 500 happens exactly when they pass and the insert fails; a 201 happens exactly when they pass and the insert succeeds, appending the poll with trimmed question and its trimmed options in order; any other outcome leaves the store unchanged |
| PollRoutes.CreateKeepsWellFormed | apps/server/src/routes/poll.ts:71-79 | a successful create keeps the store's key invariants, and the new poll's options, as later listed, are the trimmed inputs in input order |
| PollRoutes.FindFirst | apps/server/src/routes/poll.ts:106-113 | the poll found matches the id or the short code, and no earlier poll does |
| PollRoutes.FetchPoll | apps/server/src/routes/poll.ts:93-135 | the reply is 400 exactly when neither key is truthy; 500 exactly when a key is truthy and the read fails or a key is neither absent, a string nor an object; 404 exactly when otherwise no poll matches; 200 exactly when otherwise some poll matches, and a 200 carries a matching poll from the store, its voter count, and all of its options with their counts |
| PollRoutes.FetchCountsAgree | apps/server/src/routes/poll.ts:119-126 | in a well-formed store the fetched option counts add up to the fetched voter count |
| PollRoutes.CastVote | apps/server/src/routes/poll.ts:137-178 | missing fields are rejected before wrong types; a failed write is a 500; only a 200 changes the ledger, and it changes only the row (poll, voter), to the chosen option; a broadcast is requested exactly on a 200, for that poll |
| PollRoutes.BroadcastPollUpdates | apps/server/src/routes/poll.ts:30-52 | nothing is sent for an empty poll id or a failed read; otherwise room `poll-<id>` receives the poll's current option counts and voter count |
| PollRoutes.VoteBroadcastSeesWrite | apps/server/src/routes/poll.ts:172-176 | the broadcast that follows an accepted vote reflects the write: the voter count grew by one exactly on a first vote; the chosen option's count grew by one unless the voter already held it; the chosen option is listed whenever it is an option of the poll |
| PollRoutes.VoteKeepsWellFormed | apps/server/src/routes/poll.ts:155-159 | a vote naming an option of its own poll keeps the store well formed, so the poll's counts still add up to its voter count |
| PollRoutes.LastAcceptedVoteWins | apps/server/src/routes/poll.ts:155-161 | after any sequence of vote requests, a voter has exactly one row in a poll, naming the option of their last accepted request, or the row is as before when no request was accepted |
| PollRoutes.RevoteScenario | apps/server/src/routes/poll.ts:137-176 | voter 1 votes A, voter 2 votes B, then voter 1 changes to B: the counts are {A:1, B:0} with 1 voter, then {A:1, B:1} with 2 voters, then {A:0, B:2} with 2 voters |
| Rooms.Size | apps/server/src/sockets.ts:12 | a missing room counts 0, and an existing room counts its members |
| Rooms.AddMember | apps/server/src/sockets.ts:20 | joining adds exactly this connection to exactly this room and never leaves an empty room behind |
| Rooms.ParticipantBroadcast | apps/server/src/sockets.ts:8-15 | nothing is sent for an empty poll id; otherwise room `poll-<id>` receives its own member count |
| Rooms.JoinPoll | apps/server/src/sockets.ts:17-25 | anything but a string starting with `poll-` changes nothing and sends nothing; a poll room is joined; its count, which includes the joiner, is sent to that same room, except for the bare prefix, which sends nothing |
| Rooms.JoinTwice | apps/server/src/sockets.ts:20-21 | a second identical join leaves the registry and the reported count as the first join left them |
| Rooms.LeaveAll | apps/server/src/sockets.ts:27-36 | the departing connection is removed from every room, nobody else is, and rooms left empty disappear |
| Rooms.CountGoesToItsRoom | apps/server/src/sockets.ts:33 | stripping `poll-` from a room name and broadcasting for the result sends the room's own count to that very room |
| Rooms.Announcement | apps/server/src/sockets.ts:31-33 | for one room of a departing connection, a count is sent exactly when the room is an announced poll room; it goes to that room and is the room's size |
| Rooms.Disconnect | apps/server/src/sockets.ts:27-36 | every poll room the connection was in, other than its own-id room and the bare prefix, receives its member count minus the one who left; no other room receives anything; the registry loses exactly the connection |
| Rooms.PresenceAfterLeave | apps/server/src/sockets.ts:17-36 | two connections join room `poll-P`, and the second join reports 2; after the first leaves, the room counts 1 |
| OptionEditor.Initial | apps/client/src/components/CreatePollForm.tsx:22-27 | the form starts with two empty entries, with distinct keys when the generator gives distinct keys |
| OptionEditor.ChangeOption | apps/client/src/components/CreatePollForm.tsx:29-33 | only the entry at the index changes, and only its text; keys, order and length stay |
| OptionEditor.AddOption | apps/client/src/components/CreatePollForm.tsx:35-43 | below ten entries an empty entry is appended; at ten nothing changes; a fresh key keeps the keys unique |
| OptionEditor.RemoveOption | apps/client/src/components/CreatePollForm.tsx:45-50 | above two entries the entry at the index goes and the rest keep their order; at two nothing changes |
| OptionEditor.Move | apps/client/src/components/CreatePollForm.tsx:59 | the moved entry lands at the target position; every position holds the entry from a determined source position; the entries are a permutation of the original |
| OptionEditor.SourceInjective | apps/client/src/components/CreatePollForm.tsx:59 | distinct positions after a move come from distinct positions before it |
| OptionEditor.IndexOfKey | apps/client/src/components/CreatePollForm.tsx:57-58 | the index found holds the key and no earlier entry does; -1 means no entry does |
| OptionEditor.DragEnd | apps/client/src/components/CreatePollForm.tsx:52-62 | a drag permutes the entries and places the dragged entry where the target was; dropping on itself changes nothing |
| OptionEditor.DragKeepsValid | apps/client/src/components/CreatePollForm.tsx:52-62 | a drag keeps the entry count and the uniqueness of keys |
| OptionEditor.SessionKeepsValid | apps/client/src/components/CreatePollForm.tsx:22-62 | any sequence of change, add, remove and drag actions with freshly generated keys keeps between 2 and 10 entries with unique keys |
| OptionEditor.SubmittedOptions | apps/client/src/components/CreatePollForm.tsx:68 | at most one submitted text per entry, each non-empty and without surrounding white space |
| OptionEditor.SubmittedMembership | apps/client/src/components/CreatePollForm.tsx:68 | a text is submitted exactly when it is non-empty and some entry trims to it |
| OptionEditor.SubmittedOptionsAppend | apps/client/src/components/CreatePollForm.tsx:68 | the trim-and-filter keeps the entries' order: it distributes over concatenation |
| OptionEditor.HandleSubmit | apps/client/src/components/CreatePollForm.tsx:64-76 | the form refuses exactly when the trimmed question is empty or fewer than two options survive the filter; otherwise it sends the trimmed question and exactly the options the trim-and-filter keeps, in order |
| Submission.PayloadPassesValidation | apps/server/src/routes/poll.ts:63-68 | a non-empty trimmed question and at least two non-empty trimmed options pass both guards of the create route |
| Submission.SubmittedFormIsAccepted | apps/client/src/components/CreatePollForm.tsx:64-83 | a form the client lets through is never answered 400; with fresh keys it is created with the question and option texts exactly as the client sent them |
| Results.VotesWithinTotal | apps/client/src/components/PollResults.tsx:15 | every option's count, with an absent count as 0, is at most the total |
| Results.AbsentCountsAsZero | apps/client/src/components/PollResults.tsx:15 | an option with no `_count` adds nothing to the total |
| Results.Insert | apps/client/src/components/PollResults.tsx:20 | inserting into a descending list keeps it descending and adds exactly the one element |
| Results.SortDescending | apps/client/src/components/PollResults.tsx:20 | the sorted list is a permutation of the input, in non-increasing order of votes |
| Results.MapSort | apps/client/src/components/PollResults.tsx:20-21 | sorting options and then turning them into rows gives the same list as turning them into rows and then sorting by the rows' votes |
| Results.Percentage | apps/client/src/components/PollResults.tsx:22 | 0 when there are no votes; otherwise the nearest whole number to 100·v/t, halves rounding up, and at most 100 when v ≤ t |
| Results.Render | apps/client/src/components/PollResults.tsx:13-39 | "No results yet." exactly for an empty list; otherwise one row per option, most votes first, every percentage at most 100, and all 0 when the total is 0 |
| Results.RenderIsPermutation | apps/client/src/components/PollResults.tsx:20-33 | the rows shown are exactly the options' rows, reordered |
| ClientView.TotalVotesIsSum | apps/client/src/components/PollResults.tsx:15 | the panel's total over the received options equals the sum of the counts the server sent |
| ClientView.PanelTotalIsVoterCount | apps/client/src/components/PollResults.tsx:15 | in a well-formed store, the panel's total over a fetched poll equals the voter count in the same response |

## Left out

- Express, Prisma and Socket.IO themselves are not modelled. Request parsing, JSON responses, logging, `prisma.$disconnect` and network delivery are left out. A failing database call is a boolean parameter.
- The database schema is not part of this model. Generated ids are a parameter. An insert whose ids break a key counts as a failed insert (`Fits`). A vote that breaks a foreign key is a failed write (`upsertFails`).
- PollRoutes.FetchPoll: the keys reach Prisma's `OR: [{ id }, { shortCode }]` filter as they are. The model follows Prisma's documented behaviour:
  - An absent key selects nothing.
  - A string key, even an empty one, selects the rows whose field equals it.
  - A null, boolean, number or array key is refused by the query builder, and the request ends in the catch with a 500.
- PollRoutes.FetchPoll: an object key is read by Prisma as a filter expression (`{"not": ""}` matches every poll). The model does not interpret filter operators and lets an object key select nothing.
- PollRoutes.FindFirst: `findFirst` and `findMany` are taken to return rows in insertion order. The database does not promise that.
- PollRoutes.CastVote: two requests are never handled concurrently. Concurrent upserts on the same key are left to the database.
- Rooms.Disconnect: the emits are a set, so their order is not modelled. The `setTimeout(…, 0)` deferral is taken to run after the transport has removed the connection from every room. That is when the counts are taken.
- Rooms.Registry: the transport puts every connection into a room named after its own id. The model does not add that room by itself. `Disconnect` excludes a room named after the connection, as the source does.
- The `disconnect` handler only logs, and is left out.
- OptionEditor.ChangeOption: the source copies the list but mutates the shared entry object in place. The model builds a new entry. An index outside the list throws in the source and changes nothing here.
- OptionEditor.DragEnd: a drop outside the list (`over` is null) throws in the source. The model makes it change nothing. `arrayMove` with a key not found (index -1) is also modelled as no change. The library's behaviour for negative indices is not modelled.
- OptionEditor.Initial: the empty list shown before the mount effect runs is not modelled.
- The form's loading flag, toasts, navigation, the question input and the rendering are left out.
- Results.Percentage: the source computes with floating point and `Math.round`. The model uses exact rational rounding with halves rounding up. The two can differ only where floating-point error moves a value across a .5 boundary.
- Results.Render: `options.sort` sorts the prop array in place. The model returns a new sorted list.
- Json.Value: JSON numbers are integers here. NaN and fractional numbers are not modelled.
- The client pages (poll page, join card, navigation bar), the server and client bootstrap files and the shared type package are not part of this model. Their behaviour is UI, wiring or types.
