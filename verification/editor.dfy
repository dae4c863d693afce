/**
 The option list of the poll-creation form: between two and ten entries, each
 a stable key and the text typed so far, with add, remove, edit and drag
 operations, and the trim-and-filter step applied on submit. Keys come from a
 UUID generator and arrive here as parameters.
 */
module OptionEditor {

  import opened Wrappers
  import opened Text

  const MinOptions: nat := 2
  const MaxOptions: nat := 10

  datatype Entry = Entry(key: string, value: string)

  /** The invariant every operation keeps: length within bounds and keys unique. */
  ghost predicate Valid(opts: seq<Entry>) {
    && MinOptions <= |opts| <= MaxOptions
    && forall i, j :: 0 <= i < j < |opts| ==> opts[i].key != opts[j].key
  }

  /** The state the form's mount effect installs: two empty entries. */
  function Initial(k1: string, k2: string): (r: seq<Entry>)
    ensures |r| == 2 && r[0].value == "" && r[1].value == ""
    ensures k1 != k2 ==> Valid(r)
  {
    [Entry(k1, ""), Entry(k2, "")]
  }

  /** `handleOptionChange(index, value)`: only the entry at `index` changes,
      and only its text. An index outside the list throws before the state is set. */
  function ChangeOption(opts: seq<Entry>, index: int, value: string): (r: seq<Entry>)
    ensures |r| == |opts|
    ensures forall i :: 0 <= i < |r| ==> r[i].key == opts[i].key
    ensures forall i :: 0 <= i < |r| && i != index ==> r[i] == opts[i]
    ensures 0 <= index < |r| ==> r[index].value == value
    ensures Valid(opts) ==> Valid(r)
  {
    if 0 <= index < |opts| then opts[index := Entry(opts[index].key, value)] else opts
  }

  /** `addOption`: appends an empty entry below the limit, and otherwise leaves the list alone. */
  function AddOption(opts: seq<Entry>, key: string): (r: seq<Entry>)
    ensures |opts| < MaxOptions ==> r == opts + [Entry(key, "")]
    ensures |opts| >= MaxOptions ==> r == opts
    ensures |r| <= MaxOptions || r == opts
    ensures Valid(opts) && (forall i :: 0 <= i < |opts| ==> opts[i].key != key) ==> Valid(r)
  {
    if |opts| < MaxOptions then opts + [Entry(key, "")] else opts
  }

  /** `options.filter((_, i) => i !== index)`. */
  function Without(opts: seq<Entry>, index: int): seq<Entry> {
    if 0 <= index < |opts| then opts[..index] + opts[index + 1..] else opts
  }

  /** `removeOption(index)`: above the minimum the entry at `index` goes and
      the others keep their order; at the minimum nothing changes. */
  function RemoveOption(opts: seq<Entry>, index: int): (r: seq<Entry>)
    ensures |opts| <= MinOptions ==> r == opts
    ensures |opts| > MinOptions && 0 <= index < |opts| ==>
      && |r| == |opts| - 1
      && (forall i :: 0 <= i < index ==> r[i] == opts[i])
      && (forall i :: index <= i < |r| ==> r[i] == opts[i + 1])
    ensures !(0 <= index < |opts|) ==> r == opts
    ensures |r| >= MinOptions || r == opts
    ensures Valid(opts) ==> Valid(r)
  {
    if |opts| > MinOptions then Without(opts, index) else opts
  }

  /** Where the entry at position `k` after `Move(opts, from, to)` came from. */
  function Source(from: nat, to: nat, k: nat): nat {
    if k == to then from
    else
      var j := if k < to then k else k - 1;
      if j < from then j else j + 1
  }

  /** `arrayMove(list, from, to)`: take the entry at `from` out, then insert it
      at `to`. Every position of the result holds a distinct position's entry. */
  function Move(opts: seq<Entry>, from: nat, to: nat): (r: seq<Entry>)
    requires from < |opts| && to < |opts|
    ensures |r| == |opts|
    ensures r[to] == opts[from]
    ensures forall k :: 0 <= k < |r| ==> Source(from, to, k) < |opts| && r[k] == opts[Source(from, to, k)]
    ensures multiset(r) == multiset(opts)
  {
    var x := opts[from];
    var rest := opts[..from] + opts[from + 1..];
    MovePermutes(opts, from, to);
    rest[..to] + [x] + rest[to..]
  }

  lemma MovePermutes(opts: seq<Entry>, from: nat, to: nat)
    requires from < |opts| && to < |opts|
    ensures var rest := opts[..from] + opts[from + 1..];
      multiset(rest[..to] + [opts[from]] + rest[to..]) == multiset(opts)
  {
    var x := opts[from];
    var rest := opts[..from] + opts[from + 1..];
    assert multiset(opts) == multiset(rest) + multiset{x} by {
      assert opts == opts[..from] + [x] + opts[from + 1..];
    }
    assert multiset(rest) == multiset(rest[..to]) + multiset(rest[to..]) by {
      assert rest == rest[..to] + rest[to..];
    }
  }

  lemma SourceInjective(from: nat, to: nat, k1: nat, k2: nat)
    requires k1 != k2
    ensures Source(from, to, k1) != Source(from, to, k2)
  {
  }

  /** `findIndex(o => o.key == key)`. */
  function IndexOfKey(opts: seq<Entry>, key: string): (r: int)
    ensures -1 <= r < |opts|
    ensures r >= 0 ==> opts[r].key == key && forall i :: 0 <= i < r ==> opts[i].key != key
    ensures r == -1 ==> forall i :: 0 <= i < |opts| ==> opts[i].key != key
    decreases |opts|
  {
    if |opts| == 0 then -1
    else if opts[0].key == key then 0
    else
      var j := IndexOfKey(opts[1..], key);
      if j < 0 then -1 else j + 1
  }

  /** `handleDragEnd`: with a drop target other than the dragged entry, the
      dragged entry moves to the target's position. `over` is None when the
      drop lands outside the list, where the handler throws. */
  function DragEnd(opts: seq<Entry>, active: string, over: Option<string>): (r: seq<Entry>)
    ensures multiset(r) == multiset(opts)
    ensures |r| == |opts|
    ensures over.None? || over.value == active ==> r == opts
    ensures over.Some? && over.value != active && IndexOfKey(opts, active) >= 0 && IndexOfKey(opts, over.value) >= 0 ==>
      r[IndexOfKey(opts, over.value)].key == active
  {
    if over.None? || active == over.value then opts
    else
      var from, to := IndexOfKey(opts, active), IndexOfKey(opts, over.value);
      if from < 0 || to < 0 then opts else Move(opts, from, to)
  }

  /** A drag keeps keys unique: every entry after it is a distinct entry from before. */
  lemma DragKeepsValid(opts: seq<Entry>, active: string, over: Option<string>)
    requires Valid(opts)
    ensures Valid(DragEnd(opts, active, over))
  {
    if over.Some? && active != over.value {
      var from, to := IndexOfKey(opts, active), IndexOfKey(opts, over.value);
      if from >= 0 && to >= 0 {
        var r := Move(opts, from, to);
        forall i, j | 0 <= i < j < |r| ensures r[i].key != r[j].key {
          SourceInjective(from, to, i, j);
        }
      }
    }
  }

  /** One user action on the option list; `Add` carries the key the UUID generator produced. */
  datatype Edit =
    | Change(index: int, value: string)
    | Add(key: string)
    | Remove(index: int)
    | Drag(active: string, over: Option<string>)

  function Apply(opts: seq<Entry>, e: Edit): seq<Entry> {
    match e
    case Change(i, v) => ChangeOption(opts, i, v)
    case Add(k) => AddOption(opts, k)
    case Remove(i) => RemoveOption(opts, i)
    case Drag(a, o) => DragEnd(opts, a, o)
  }

  /** The list after the edits, applied first to last. */
  function Run(opts: seq<Entry>, edits: seq<Edit>): seq<Entry>
    decreases |edits|
  {
    if |edits| == 0 then opts else Run(Apply(opts, edits[0]), edits[1..])
  }

  /** Every added key differs from the keys in the list at the time it is added. */
  ghost predicate FreshKeys(opts: seq<Entry>, edits: seq<Edit>)
    decreases |edits|
  {
    |edits| == 0 ||
    ((edits[0].Add? ==> forall i :: 0 <= i < |opts| ==> opts[i].key != edits[0].key)
     && FreshKeys(Apply(opts, edits[0]), edits[1..]))
  }

  /** From the initial two entries, any sequence of edits with fresh keys
      keeps between two and ten entries with unique keys. */
  lemma {:induction false} SessionKeepsValid(opts: seq<Entry>, edits: seq<Edit>)
    requires Valid(opts) && FreshKeys(opts, edits)
    ensures Valid(Run(opts, edits))
    decreases |edits|
  {
    if |edits| > 0 {
      var e := edits[0];
      if e.Drag? {
        DragKeepsValid(opts, e.active, e.over);
      }
      SessionKeepsValid(Apply(opts, e), edits[1..]);
    }
  }

  /** `options.map(o => o.value.trim()).filter(o => o !== '')`. */
  function SubmittedOptions(opts: seq<Entry>): (r: seq<string>)
    ensures |r| <= |opts|
    ensures forall x :: x in r ==> x != "" && Trimmed(x)
    decreases |opts|
  {
    if |opts| == 0 then []
    else
      var t := Trim(opts[0].value);
      if t == "" then SubmittedOptions(opts[1..]) else [t] + SubmittedOptions(opts[1..])
  }

  /** Some entry among `opts` trims to `x`. */
  ghost predicate SomeEntryTrimsTo(opts: seq<Entry>, x: string) {
    exists i :: 0 <= i < |opts| && TrimsTo(opts[i], x)
  }

  predicate TrimsTo(e: Entry, x: string) {
    Trim(e.value) == x
  }

  /** A text is submitted exactly when some entry trims to it and it is not blank. */
  lemma {:induction false} SubmittedMembership(opts: seq<Entry>, x: string)
    ensures x in SubmittedOptions(opts) <==> x != "" && SomeEntryTrimsTo(opts, x)
    decreases |opts|
  {
    if |opts| > 0 {
      var rest := opts[1..];
      SubmittedMembership(rest, x);
      SomeEntrySplits(opts, x);
    }
  }

  lemma SomeEntrySplits(opts: seq<Entry>, x: string)
    requires |opts| > 0
    ensures SomeEntryTrimsTo(opts, x) <==> TrimsTo(opts[0], x) || SomeEntryTrimsTo(opts[1..], x)
  {
    var rest := opts[1..];
    if SomeEntryTrimsTo(opts, x) {
      var i :| 0 <= i < |opts| && TrimsTo(opts[i], x);
      if i > 0 {
        assert rest[i - 1] == opts[i];
        assert SomeEntryTrimsTo(rest, x);
      }
    }
    if SomeEntryTrimsTo(rest, x) {
      var i :| 0 <= i < |rest| && TrimsTo(rest[i], x);
      assert opts[i + 1] == rest[i];
      assert TrimsTo(opts[i + 1], x);
    }
  }

  /** The filter keeps the entries' order: it distributes over concatenation. */
  lemma {:induction false} SubmittedOptionsAppend(xs: seq<Entry>, ys: seq<Entry>)
    ensures SubmittedOptions(xs + ys) == SubmittedOptions(xs) + SubmittedOptions(ys)
    decreases |xs|
  {
    if |xs| == 0 {
      assert xs + ys == ys;
    } else {
      assert (xs + ys)[0] == xs[0];
      assert (xs + ys)[1..] == xs[1..] + ys;
      SubmittedOptionsAppend(xs[1..], ys);
    }
  }

  datatype Submission = Refused | Submit(question: string, options: seq<string>)

  /** `handleSubmit`: refuses a blank question or fewer than two non-blank
      options; otherwise sends the trimmed question and the submitted options. */
  function HandleSubmit(question: string, opts: seq<Entry>): (r: Submission)
    ensures r.Refused? <==> Trim(question) == "" || |SubmittedOptions(opts)| < MinOptions
    ensures r.Submit? ==>
      && r.question == Trim(question) && r.question != "" && Trimmed(r.question)
      && r.options == SubmittedOptions(opts)
      && |r.options| >= MinOptions
      && forall x :: x in r.options ==> x != "" && Trimmed(x)
  {
    var valid := SubmittedOptions(opts);
    if Trim(question) == "" || |valid| < MinOptions then Refused
    else Submit(Trim(question), valid)
  }
}
