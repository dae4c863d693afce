/**
 What the server pushes to a poll's room. Both events carry a full snapshot,
 never a difference, so a member that missed one is caught up by the next.
 */
module Broadcast {

  import opened Ledger

  /** Room names of poll rooms start with this prefix, followed by the poll id. */
  const RoomPrefix: string := "poll-"

  function RoomOf(pollId: PollId): string {
    RoomPrefix + pollId
  }

  datatype Event =
    | NewVote(options: seq<OptionCount>, voterCount: nat)
    | ParticipantUpdate(participantCount: nat)

  /** One `io.to(room).emit(event)`. */
  datatype Emit = Emit(room: string, event: Event)
}
