/**
 The results panel of a poll page: the total number of votes, the options in
 descending order of votes (a stable sort, as JavaScript's `Array.prototype.sort`
 is), and each option's share of the votes as a whole percentage.
 */
module Results {

  import opened Wrappers

  /** An option as the server sends it; `votes` is `_count?.votes`, absent when the count is missing. */
  datatype ResultOption = ResultOption(id: string, text: string, votes: Option<nat>)

  /** `option._count?.votes || 0`. */
  function VotesOf(o: ResultOption): nat {
    o.votes.GetOr(0)
  }

  /** `options.reduce((sum, o) => sum + (o._count?.votes || 0), 0)`, folded from the left. */
  function TotalVotes(opts: seq<ResultOption>): nat
    decreases |opts|
  {
    if |opts| == 0 then 0 else TotalVotes(opts[..|opts| - 1]) + VotesOf(opts[|opts| - 1])
  }

  /** Every option's count is at most the total, an absent count counting as 0. */
  lemma {:induction false} VotesWithinTotal(opts: seq<ResultOption>, o: ResultOption)
    requires o in opts
    ensures VotesOf(o) <= TotalVotes(opts)
    decreases |opts|
  {
    var n := |opts|;
    if opts[n - 1] != o {
      assert o in opts[..n - 1] by {
        var i :| 0 <= i < n && opts[i] == o;
        assert opts[..n - 1][i] == o;
      }
      VotesWithinTotal(opts[..n - 1], o);
    }
  }

  /** An option whose count is absent contributes nothing to the total. */
  lemma {:induction false} AbsentCountsAsZero(opts: seq<ResultOption>, o: ResultOption)
    requires o.votes.None?
    ensures TotalVotes(opts + [o]) == TotalVotes(opts)
  {
    assert (opts + [o])[..|opts|] == opts;
  }

  ghost predicate NonIncreasing<T>(s: seq<T>, key: T -> nat) {
    forall i, j :: 0 <= i < j < |s| ==> key(s[i]) >= key(s[j])
  }

  /** Puts `x` after every element whose key is at least its own. */
  function Insert<T>(x: T, s: seq<T>, key: T -> nat): (r: seq<T>)
    ensures multiset(r) == multiset(s) + multiset{x}
    ensures NonIncreasing(s, key) ==> NonIncreasing(r, key)
    decreases |s|
  {
    if |s| == 0 then [x]
    else if key(s[0]) >= key(x) then
      var tail := Insert(x, s[1..], key);
      assert s == [s[0]] + s[1..];
      HeadBoundsTail(s, x, tail, key);
      ConsKeepsOrder(s[0], tail, key);
      [s[0]] + tail
    else
      ConsKeepsOrder(x, s, key);
      [x] + s
  }

  lemma ConsKeepsOrder<T>(h: T, s: seq<T>, key: T -> nat)
    ensures NonIncreasing(s, key) && (forall k :: 0 <= k < |s| ==> key(s[k]) <= key(h))
      ==> NonIncreasing([h] + s, key)
  {
    if NonIncreasing(s, key) && (forall k :: 0 <= k < |s| ==> key(s[k]) <= key(h)) {
      var r := [h] + s;
      forall i, j | 0 <= i < j < |r| ensures key(r[i]) >= key(r[j]) {
        assert r[j] == s[j - 1];
        if i > 0 { assert r[i] == s[i - 1]; }
      }
    }
  }

  lemma HeadBoundsTail<T>(s: seq<T>, x: T, tail: seq<T>, key: T -> nat)
    requires |s| > 0 && key(x) <= key(s[0])
    requires multiset(tail) == multiset(s[1..]) + multiset{x}
    ensures NonIncreasing(s, key) ==> forall k :: 0 <= k < |tail| ==> key(tail[k]) <= key(s[0])
  {
    if NonIncreasing(s, key) {
      forall k | 0 <= k < |tail| ensures key(tail[k]) <= key(s[0]) {
        assert tail[k] in multiset(tail);
        if tail[k] != x {
          assert tail[k] in multiset(s[1..]);
          var j :| 0 <= j < |s[1..]| && s[1..][j] == tail[k];
          assert s[j + 1] == tail[k];
        }
      }
    }
  }

  /** `options.sort((a, b) => key(b) - key(a))`: stable, largest key first. */
  function SortDescending<T>(xs: seq<T>, key: T -> nat): (r: seq<T>)
    ensures multiset(r) == multiset(xs)
    ensures NonIncreasing(r, key)
    decreases |xs|
  {
    if |xs| == 0 then []
    else
      var n := |xs|;
      assert xs == xs[..n - 1] + [xs[n - 1]];
      Insert(xs[n - 1], SortDescending(xs[..n - 1], key), key)
  }

  function Map<A, B>(f: A -> B, s: seq<A>): (r: seq<B>)
    ensures |r| == |s|
    ensures forall i :: 0 <= i < |s| ==> r[i] == f(s[i])
    decreases |s|
  {
    if |s| == 0 then [] else [f(s[0])] + Map(f, s[1..])
  }

  /** Mapping with a function that keeps the key commutes with inserting. */
  lemma {:induction false} MapInsert<A, B>(x: A, s: seq<A>, f: A -> B, ka: A -> nat, kb: B -> nat)
    requires forall a :: kb(f(a)) == ka(a)
    ensures Map(f, Insert(x, s, ka)) == Insert(f(x), Map(f, s), kb)
    decreases |s|
  {
    if |s| > 0 && ka(s[0]) >= ka(x) {
      MapInsert(x, s[1..], f, ka, kb);
      assert Map(f, s)[1..] == Map(f, s[1..]);
      assert Map(f, [s[0]] + Insert(x, s[1..], ka)) == [f(s[0])] + Map(f, Insert(x, s[1..], ka));
    } else if |s| > 0 {
      assert Map(f, [x] + s) == [f(x)] + Map(f, s);
    }
  }

  /** Sorting then mapping is mapping then sorting, for a map that keeps the key. */
  lemma {:induction false} MapSort<A, B>(xs: seq<A>, f: A -> B, ka: A -> nat, kb: B -> nat)
    requires forall a :: kb(f(a)) == ka(a)
    ensures Map(f, SortDescending(xs, ka)) == SortDescending(Map(f, xs), kb)
    decreases |xs|
  {
    if |xs| > 0 {
      var n := |xs|;
      var init, last := xs[..n - 1], xs[n - 1];
      var ys := Map(f, xs);
      MapInit(f, xs);
      calc {
        Map(f, SortDescending(xs, ka));
        Map(f, Insert(last, SortDescending(init, ka), ka));
        { MapInsert(last, SortDescending(init, ka), f, ka, kb); }
        Insert(f(last), Map(f, SortDescending(init, ka)), kb);
        { MapSort(init, f, ka, kb); }
        Insert(f(last), SortDescending(Map(f, init), kb), kb);
        Insert(ys[n - 1], SortDescending(ys[..n - 1], kb), kb);
        SortDescending(ys, kb);
      }
    }
  }

  lemma MapInit<A, B>(f: A -> B, xs: seq<A>)
    requires |xs| > 0
    ensures Map(f, xs)[..|xs| - 1] == Map(f, xs[..|xs| - 1])
  {
  }

  /** `Math.round(voteCount / totalVotes * 100)`, or 0 when there are no votes,
      computed exactly: the integer nearest to 100 * v / t, halves rounding up. */
  function Percentage(v: nat, t: nat): (p: nat)
    ensures t == 0 ==> p == 0
    ensures t > 0 ==> 2 * p * t - t <= 200 * v < 2 * p * t + t
    ensures v <= t ==> p <= 100
  {
    if t > 0 then
      RoundedShare(v, t);
      (200 * v + t) / (2 * t)
    else 0
  }

  lemma RoundedShare(v: nat, t: nat)
    requires t > 0
    ensures var p := (200 * v + t) / (2 * t);
      && 2 * p * t - t <= 200 * v < 2 * p * t + t
      && (v <= t ==> p <= 100)
  {
    var d, n := 2 * t, 200 * v + t;
    var p, m := n / d, n % d;
    assert n == p * d + m && 0 <= m < d;
    assert 2 * p * t == p * d;
    if v <= t {
      assert p * d < 101 * d;
      ProductOrder(p, 101, d);
    }
  }

  lemma ProductOrder(a: int, b: int, d: int)
    requires d > 0 && a * d < b * d
    ensures a < b
  {
  }

  datatype Row = Row(id: string, text: string, votes: nat, percentage: nat)

  datatype View = NoResults | Rows(rows: seq<Row>)

  function RowOf(o: ResultOption, total: nat): Row {
    Row(o.id, o.text, VotesOf(o), Percentage(VotesOf(o), total))
  }

  function RowVotes(r: Row): nat {
    r.votes
  }

  /** The panel: "No results yet." for an empty list, otherwise one row per
      option, most votes first, each with its percentage of the total. */
  function Render(opts: seq<ResultOption>): (v: View)
    ensures v.NoResults? <==> |opts| == 0
    ensures v.Rows? ==>
      && |v.rows| == |opts|
      && NonIncreasing(v.rows, RowVotes)
      && (forall i :: 0 <= i < |v.rows| ==> v.rows[i].percentage <= 100)
      && (TotalVotes(opts) == 0 ==> forall i :: 0 <= i < |v.rows| ==> v.rows[i].percentage == 0)
  {
    if |opts| == 0 then NoResults
    else
      var total := TotalVotes(opts);
      var sorted := SortDescending(opts, VotesOf);
      var rows := Map((o: ResultOption) => RowOf(o, total), sorted);
      SortedWithinTotal(opts, sorted);
      assert |multiset(sorted)| == |multiset(opts)|;
      Rows(rows)
  }

  lemma SortedWithinTotal(opts: seq<ResultOption>, sorted: seq<ResultOption>)
    requires multiset(sorted) == multiset(opts)
    ensures forall i :: 0 <= i < |sorted| ==> VotesOf(sorted[i]) <= TotalVotes(opts)
  {
    forall i | 0 <= i < |sorted| ensures VotesOf(sorted[i]) <= TotalVotes(opts) {
      assert sorted[i] in multiset(opts);
      VotesWithinTotal(opts, sorted[i]);
    }
  }

  /** The rows shown are exactly the options' rows, reordered. */
  lemma RenderIsPermutation(opts: seq<ResultOption>)
    requires |opts| > 0
    ensures var total := TotalVotes(opts);
      multiset(Render(opts).rows) == multiset(Map((o: ResultOption) => RowOf(o, total), opts))
  {
    var total := TotalVotes(opts);
    var f := (o: ResultOption) => RowOf(o, total);
    MapSort(opts, f, VotesOf, RowVotes);
  }
}
