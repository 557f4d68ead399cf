/** The two list views of a chain (markov.py:98-115, the same code at
    tweets_util.py:133-148): a node's successors, and all nodes, each as a list
    of records sorted by decreasing probability with Python's stable `sorted`. */
module Ranking {
  import opened Wrappers
  import opened Tokens
  import opened Dicts
  import opened Chains

  /** One record of a list: a word, its count and its probability. */
  datatype Ranked = Ranked(word: Token, cnt: nat, prob: real)

  ghost predicate SortedDesc(s: seq<Ranked>) {
    forall i, j :: 0 <= i < j < |s| ==> s[i].prob >= s[j].prob
  }

  /** The sum of the probabilities of a list. */
  function SumRanked(s: seq<Ranked>): real {
    if |s| == 0 then 0.0 else s[0].prob + SumRanked(s[1..])
  }

  /** Insert `x` in front of the first record whose probability is not larger:
      records of equal probability keep their order, as in a stable sort. */
  function InsertDesc(x: Ranked, ys: seq<Ranked>): (r: seq<Ranked>)
    ensures |r| == |ys| + 1
    ensures multiset(r) == multiset(ys) + multiset{x}
  {
    if |ys| == 0 then [x]
    else if ys[0].prob > x.prob then
      assert ys == [ys[0]] + ys[1..];
      [ys[0]] + InsertDesc(x, ys[1..])
    else [x] + ys
  }

  /** Inserting into a sorted list keeps it sorted. */
  lemma {:induction false} InsertSorted(x: Ranked, ys: seq<Ranked>)
    requires SortedDesc(ys)
    ensures SortedDesc(InsertDesc(x, ys))
    ensures |ys| > 0 ==> InsertDesc(x, ys)[0] == x || InsertDesc(x, ys)[0] == ys[0]
  {
    if |ys| > 0 && ys[0].prob > x.prob {
      InsertSorted(x, ys[1..]);
      var r := InsertDesc(x, ys);
      assert r == [ys[0]] + InsertDesc(x, ys[1..]);
      forall j | 1 <= j < |r|
        ensures r[0].prob >= r[j].prob
      {
        assert r[j] in multiset(InsertDesc(x, ys[1..]));
        assert r[j] in multiset(ys[1..]) + multiset{x};
        if r[j] != x {
          assert r[j] in ys[1..];
        }
      }
    }
  }

  /** Inserting a record adds its probability to the sum. */
  lemma {:induction false} InsertSum(x: Ranked, ys: seq<Ranked>)
    ensures SumRanked(InsertDesc(x, ys)) == x.prob + SumRanked(ys)
  {
    if |ys| > 0 && ys[0].prob > x.prob {
      InsertSum(x, ys[1..]);
      assert InsertDesc(x, ys)[1..] == InsertDesc(x, ys[1..]);
    }
  }

  /** `sorted(s, key=lambda x: -x["prob"])`, as an insertion sort. */
  function SortDesc(s: seq<Ranked>): (r: seq<Ranked>)
    ensures SortedDesc(r)
    ensures multiset(r) == multiset(s)
    ensures |r| == |s|
    ensures SumRanked(r) == SumRanked(s)
  {
    if |s| == 0 then []
    else
      assert s == [s[0]] + s[1..];
      InsertSorted(s[0], SortDesc(s[1..]));
      InsertSum(s[0], SortDesc(s[1..]));
      InsertDesc(s[0], SortDesc(s[1..]))
  }

  /** The records of probability `p`, in their order. */
  function WithProb(s: seq<Ranked>, p: real): seq<Ranked> {
    if |s| == 0 then [] else (if s[0].prob == p then [s[0]] else []) + WithProb(s[1..], p)
  }

  lemma WithProbCons(x: Ranked, s: seq<Ranked>, p: real)
    ensures WithProb([x] + s, p) == (if x.prob == p then [x] else []) + WithProb(s, p)
  {
    assert ([x] + s)[1..] == s;
  }

  /** Inserting never passes a record of the same probability. */
  lemma {:induction false} InsertStable(x: Ranked, ys: seq<Ranked>, p: real)
    ensures WithProb(InsertDesc(x, ys), p) == (if x.prob == p then [x] else []) + WithProb(ys, p)
  {
    if |ys| == 0 {
      WithProbCons(x, [], p);
    } else if ys[0].prob > x.prob {
      var rest := WithProb(ys[1..], p);
      InsertStable(x, ys[1..], p);
      assert InsertDesc(x, ys) == [ys[0]] + InsertDesc(x, ys[1..]);
      WithProbCons(ys[0], InsertDesc(x, ys[1..]), p);
      WithProbCons(ys[0], ys[1..], p);
      assert [ys[0]] + ys[1..] == ys;
      if x.prob == p {
        // ys[0] is more probable than x, so it is not counted
        assert WithProb(InsertDesc(x, ys), p) == [x] + rest;
        assert WithProb(ys, p) == rest;
      } else if ys[0].prob == p {
        assert WithProb(InsertDesc(x, ys), p) == [ys[0]] + rest;
        assert WithProb(ys, p) == [ys[0]] + rest;
      } else {
        assert WithProb(InsertDesc(x, ys), p) == rest;
        assert WithProb(ys, p) == rest;
      }
    } else {
      WithProbCons(x, ys, p);
    }
  }

  /** The sort is stable: the records of each probability keep their order. */
  lemma {:induction false} SortStable(s: seq<Ranked>, p: real)
    ensures WithProb(SortDesc(s), p) == WithProb(s, p)
  {
    if |s| > 0 {
      SortStable(s[1..], p);
      InsertStable(s[0], SortDesc(s[1..]), p);
    }
  }

  // ---------------------------------------------------------------- the two lists

  /** A node's successors as records, in the node's order. */
  function Successors(node: Node): (s: seq<Ranked>)
    ensures |s| == |node.dst|
  {
    seq(|node.dst|, j requires 0 <= j < |node.dst| => Ranked(node.dst[j].0, node.dst[j].1.cnt, node.dst[j].1.prob))
  }

  /** The successor list of a node, most probable first. */
  method ProbListForWord(node: Node) returns (ret: seq<Ranked>)
    ensures ret == SortDesc(Successors(node))
    ensures SortedDesc(ret) && multiset(ret) == multiset(Successors(node))
    ensures SumRanked(ret) == SumProb(node.dst)
  {
    var dstlist := node.dst;
    var listed: seq<Ranked> := [];
    var j := 0;
    while j < |dstlist|
      invariant 0 <= j <= |dstlist|
      invariant listed == Successors(node)[..j]
    {
      listed := listed + [Ranked(dstlist[j].0, dstlist[j].1.cnt, dstlist[j].1.prob)];
      j := j + 1;
    }
    assert listed == Successors(node);
    ret := SortDesc(listed);
    SuccessorsSum(node.dst);
  }

  /** The successor records carry the node's probabilities. */
  lemma {:induction false} SuccessorsSum(dst: Dict<Edge>)
    ensures SumRanked(Successors(Node(0, None, dst))) == SumProb(dst)
  {
    var s := Successors(Node(0, None, dst));
    if |dst| > 0 {
      var n := |dst|;
      SuccessorsSum(dst[..n - 1]);
      SumRankedSnoc(s[..n - 1], s[n - 1]);
      assert s == s[..n - 1] + [s[n - 1]];
      assert s[..n - 1] == Successors(Node(0, None, dst[..n - 1]));
    }
  }

  /** Summing from the front equals summing from the back. */
  lemma {:induction false} SumRankedSnoc(s: seq<Ranked>, x: Ranked)
    ensures SumRanked(s + [x]) == SumRanked(s) + x.prob
  {
    if |s| > 0 {
      assert (s + [x])[1..] == s[1..] + [x];
      SumRankedSnoc(s[1..], x);
    }
  }

  /** Every node as a record whose probability is its share of `total`. */
  function NodeShares(chain: Chain, total: nat): (s: seq<Ranked>)
    requires |chain| == 0 || total > 0
    ensures |s| == |chain|
  {
    seq(|chain|, i requires 0 <= i < |chain| =>
      Ranked(chain[i].0, chain[i].1.cnt, chain[i].1.cnt as real / total as real))
  }

  /** The list of all nodes with their share of all counts, most probable
      first. Dividing by a zero total raises ZeroDivisionError, unless there
      is nothing to divide. */
  method AllWordsProb(chain: Chain) returns (r: Result<seq<Ranked>, Exception>)
    ensures r.Err? <==> |chain| > 0 && TotalCnt(chain) == 0
    ensures r.Err? ==> r.error == ZeroDivisionError
    ensures r.Ok? ==> r.value == SortDesc(NodeShares(chain, TotalCnt(chain)))
    ensures r.Ok? ==> SortedDesc(r.value) && |r.value| == |chain|
    ensures r.Ok? && |chain| > 0 ==> SumRanked(r.value) == 1.0
  {
    var totalCnt := 0;
    var ret: seq<(Token, nat)> := [];
    var i := 0;
    while i < |chain|
      invariant 0 <= i <= |chain|
      invariant |ret| == i
      invariant forall k :: 0 <= k < i ==> ret[k] == (chain[k].0, chain[k].1.cnt)
      invariant totalCnt == TotalCnt(chain[..i])
    {
      ret := ret + [(chain[i].0, chain[i].1.cnt)];
      totalCnt := totalCnt + chain[i].1.cnt;
      assert chain[..i + 1][..i] == chain[..i];
      i := i + 1;
    }
    assert chain[..|chain|] == chain;
    if |ret| > 0 && totalCnt == 0 {
      return Err(ZeroDivisionError);
    }
    var shares := seq(|ret|, k requires 0 <= k < |ret| => Ranked(ret[k].0, ret[k].1, ret[k].1 as real / totalCnt as real));
    assert shares == NodeShares(chain, totalCnt);
    var sorted := SortDesc(shares);
    r := Ok(sorted);
    if |chain| > 0 {
      SumNodeShares(chain, totalCnt);
      DivSelf(totalCnt as real);
    }
  }

  /** The shares of all nodes add up to the total count over the divisor. */
  lemma {:induction false} SumNodeShares(chain: Chain, total: nat)
    requires total > 0
    ensures SumRanked(NodeShares(chain, total)) == TotalCnt(chain) as real / total as real
  {
    if |chain| > 0 {
      var n := |chain|;
      var init := chain[..n - 1];
      var s := NodeShares(chain, total);
      SumNodeShares(init, total);
      assert s == NodeShares(init, total) + [s[n - 1]];
      SumRankedSnoc(NodeShares(init, total), s[n - 1]);
      DivAdd(TotalCnt(init) as real, chain[n - 1].1.cnt as real, total as real);
    }
  }

  /** In a chain without repeated keys, each node's record carries its unigram probability. */
  lemma NodeSharesUnigram(chain: Chain, i: nat)
    requires Keyed(chain) && i < |chain| && TotalCnt(chain) > 0
    ensures NodeShares(chain, TotalCnt(chain))[i].prob == Unigram(chain, chain[i].0)
  {
    FindDistinct(chain, i);
  }
}
