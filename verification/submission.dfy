/**
 Where the creation form meets the create route: the body the form posts
 always passes the server's validation, and the server stores its texts
 unchanged, because both sides trim and trimming twice changes nothing.
 */
module Submission {

  import opened Json
  import opened Text
  import opened Ledger
  import opened OptionEditor
  import opened PollRoutes

  /** `JSON.stringify({ question, options })` as the server parses it. */
  function Payload(question: string, options: seq<string>): CreateBody {
    CreateBody(Str(question), Arr(seq(|options|, i requires 0 <= i < |options| => Str(options[i]))))
  }

  /** A form the client lets through is never answered 400; with fresh keys
      from the database it is created, with the texts exactly as sent. */
  lemma SubmittedFormIsAccepted(store: Store, question: string, opts: seq<Entry>, a: Assignment)
    requires HandleSubmit(question, opts).Submit?
    ensures var sub := HandleSubmit(question, opts);
      var r := CreatePoll(store, Payload(sub.question, sub.options), a);
      && !r.status.BadRequest?
      && (Fits(store, a, |sub.options|) ==>
            && r.status == Created
            && r.poll.value.question == sub.question
            && forall i :: 0 <= i < |sub.options| ==>
                 r.store.options[|store.options| + i].text == sub.options[i])
  {
    var sub := HandleSubmit(question, opts);
    PayloadPassesValidation(sub.question, sub.options);
    TrimmedIsFixed(sub.question);
    forall i | 0 <= i < |sub.options| ensures Trim(sub.options[i]) == sub.options[i] {
      assert sub.options[i] in sub.options;
      TrimmedIsFixed(sub.options[i]);
    }
  }

  lemma PayloadPassesValidation(question: string, options: seq<string>)
    requires question != "" && Trimmed(question)
    requires |options| >= MinOptions
    requires forall x :: x in options ==> x != "" && Trimmed(x)
    ensures ValidQuestion(Payload(question, options).question)
    ensures ValidOptions(Payload(question, options).options)
  {
    var body := Payload(question, options);
    TrimmedIsFixed(question);
    forall i | 0 <= i < |options| ensures ValidOption(body.options.items[i]) {
      assert options[i] in options;
      TrimmedIsFixed(options[i]);
    }
  }
}
