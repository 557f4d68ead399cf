/** `build_markov_chain` of markov.py (markov.py:38-86): the tweets are
    sanitised and tokenised, counted, and every node's successor counts are
    turned into probabilities (a successor's count over the node's total). */
module MarkovBuild {
  import opened Wrappers
  import opened Tokens
  import opened Dicts
  import opened Counting
  import opened Chains
  import opened Sanitizer

  /** The token lists the builder counts: every tweet sanitised, tokenised by
      `tokenize`, and every token lower-cased. */
  function Tokenised(content: seq<string>, tokenize: string -> seq<Token>): (tweets: seq<seq<Token>>)
    ensures |tweets| == |content|
    ensures NoSentinel(tweets)
  {
    var raw := seq(|content|, i requires 0 <= i < |content| => tokenize(Sanitize(content[i])));
    LowerAllNoSentinel(raw);
    LowerAll(raw)
  }

  /** Every counter with entries has a positive total, so it can be normalised. */
  ghost predicate Normalisable(words: Words) {
    forall i :: 0 <= i < |words| ==> |words[i].1.dst| == 0 || Total(words[i].1.dst) > 0
  }

  /** The share of `c` in `total`. */
  function Share(c: nat, total: nat): real
    requires total > 0
  {
    c as real / total as real
  }

  /** Each successor count divided by `total`. */
  function Shares(d: Dict<nat>, total: nat): Dict<Edge>
    requires |d| == 0 || total > 0
  {
    seq(|d|, j requires 0 <= j < |d| => (d[j].0, Edge(d[j].1, Share(d[j].1, total))))
  }

  /** A node of the finished chain: its count, no probability of its own, and
      every successor count divided by the sum of the node's successor counts. */
  function NormaliseNode(t: Tally): Node
    requires |t.dst| == 0 || Total(t.dst) > 0
  {
    Node(t.cnt, None, Shares(t.dst, Total(t.dst)))
  }

  function Normalise(words: Words): Chain
    requires Normalisable(words)
  {
    seq(|words|, i requires 0 <= i < |words| => (words[i].0, NormaliseNode(words[i].1)))
  }

  lemma WellNormalisable(words: Words)
    requires WellCounted(words)
    ensures Normalisable(words)
  {
    forall i | 0 <= i < |words| && |words[i].1.dst| > 0
      ensures Total(words[i].1.dst) > 0
    {
      PositiveTotal(words[i].1.dst);
    }
  }

  /** The chain markov.py builds from the token lists of a corpus. */
  function Built(tweets: seq<seq<Token>>): Chain {
    CountWell(tweets, |tweets|);
    WellNormalisable(Count(tweets, |tweets|));
    Normalise(Count(tweets, |tweets|))
  }

  /** The builder: None for a user without tweets, otherwise the counted and
      normalised chain. */
  method BuildMarkovChain(content: seq<string>, tokenize: string -> seq<Token>) returns (r: Option<Chain>)
    ensures r.None? <==> |content| == 0
    ensures r.Some? ==> r.value == Built(Tokenised(content, tokenize))
    ensures r.Some? ==> Keyed(r.value) && Closed(r.value) && Stochastic(r.value) && ProbsInUnit(r.value)
  {
    if |content| == 0 {
      return None;
    }
    var tweets := Tokenised(content, tokenize);
    var words := CountTweets(tweets);
    WellNormalisable(words);
    var chain := NormaliseWords(words);
    r := Some(chain);
    BuiltKeyed(tweets);
    BuiltClosed(tweets);
    BuiltStochastic(tweets);
    BuiltProbsInUnit(tweets);
  }

  /** The normalisation loop: every node's successor counts are overwritten,
      in place and in order, with their count and their probability. */
  method NormaliseWords(words: Words) returns (chain: Chain)
    requires Normalisable(words)
    ensures chain == Normalise(words)
  {
    chain := [];
    var i := 0;
    while i < |words|
      invariant 0 <= i <= |words|
      invariant |chain| == i
      invariant forall k :: 0 <= k < i ==> chain[k] == (words[k].0, NormaliseNode(words[k].1))
    {
      var edges := NormaliseCounts(words[i].1.dst);
      chain := chain + [(words[i].0, Node(words[i].1.cnt, None, edges))];
      i := i + 1;
    }
  }

  /** One node: each successor count becomes the count and its share of the
      sum of the node's successor counts. */
  method NormaliseCounts(dstlist: Dict<nat>) returns (edges: Dict<Edge>)
    requires |dstlist| == 0 || Total(dstlist) > 0
    ensures edges == Shares(dstlist, Total(dstlist))
  {
    var count := Total(dstlist);
    edges := [];
    var j := 0;
    while j < |dstlist|
      invariant 0 <= j <= |dstlist|
      invariant |edges| == j
      invariant forall k :: 0 <= k < j ==> edges[k] == (dstlist[k].0, Edge(dstlist[k].1, Share(dstlist[k].1, count)))
    {
      edges := edges + [(dstlist[j].0, Edge(dstlist[j].1, dstlist[j].1 as real / count as real))];
      j := j + 1;
    }
  }

  // ---------------------------------------------------------------- what the built chain is

  /** The built chain has the nodes and keys of the counting pass. */
  lemma BuiltFind(tweets: seq<seq<Token>>, t: Token)
    ensures Find(Built(tweets), t) == Find(Count(tweets, |tweets|), t)
  {
    FindSameKeys(Built(tweets), Count(tweets, |tweets|), t);
  }

  /** Nodes: exactly the sentinels and the tokens that occur, each with its
      number of occurrences (START: the number of non-empty tweets), and
      without a probability of its own. */
  lemma BuiltNode(tweets: seq<seq<Token>>, t: Token)
    ensures Has(Built(tweets), t) <==> IsSentinel(t) || Occurrences(tweets, |tweets|, t) > 0
    ensures Has(Built(tweets), t) ==>
      && Get(Built(tweets), t).cnt == Occurrences(tweets, |tweets|, t) + (if t == START then NonEmpty(tweets, |tweets|) else 0)
      && Get(Built(tweets), t).prob == None
  {
    BuiltFind(tweets, t);
    CountHas(tweets, |tweets|, t);
    CountCnt(tweets, |tweets|, t);
  }

  /** Normalising a counter keeps its keys where they are. */
  lemma SharesFind(d: Dict<nat>, total: nat, k: string)
    requires |d| == 0 || total > 0
    ensures Find(Shares(d, total), k) == Find(d, k)
  {
    FindSameKeys(Shares(d, total), d, k);
  }

  /** Edges: `s` leads to `d` exactly when `d` followed `s` somewhere (or was
      a first token, for START); the edge keeps that count, and its
      probability is the count over the count of `s`. */
  lemma BuiltEdge(tweets: seq<seq<Token>>, s: Token, d: Token)
    requires Has(Built(tweets), s)
    ensures var n := Successions(tweets, |tweets|, s, d) + (if s == START then Starts(tweets, |tweets|, d) else 0);
      && (Has(Get(Built(tweets), s).dst, d) <==> n > 0)
      && (Has(Get(Built(tweets), s).dst, d) ==>
            Get(Built(tweets), s).cnt > 0 &&
            Get(Get(Built(tweets), s).dst, d) == Edge(n, n as real / Get(Built(tweets), s).cnt as real))
  {
    var words := Count(tweets, |tweets|);
    CountWell(tweets, |tweets|);
    BuiltFind(tweets, s);
    CountEdge(tweets, |tweets|, s, d);
    var i := Find(words, s).value;
    var dst := words[i].1.dst;
    SharesFind(dst, Total(dst), d);
    if Find(dst, d).Some? {
      PositiveTotal(dst);
    }
  }

  /** No key repeats in the built chain. */
  lemma BuiltKeyed(tweets: seq<seq<Token>>)
    ensures Keyed(Built(tweets))
  {
    var words := Count(tweets, |tweets|);
    var chain := Built(tweets);
    CountWell(tweets, |tweets|);
    assert forall i :: 0 <= i < |chain| ==> chain[i].0 == words[i].0;
    forall i | 0 <= i < |chain|
      ensures Distinct(chain[i].1.dst)
    {
      var dst := words[i].1.dst;
      assert forall j :: 0 <= j < |dst| ==> chain[i].1.dst[j].0 == dst[j].0;
    }
  }

  /** Every successor in the built chain is a node of it. */
  lemma BuiltClosed(tweets: seq<seq<Token>>)
    ensures Closed(Built(tweets))
  {
    var words := Count(tweets, |tweets|);
    var chain := Built(tweets);
    forall i, j | 0 <= i < |chain| && 0 <= j < |chain[i].1.dst|
      ensures Has(chain, chain[i].1.dst[j].0)
    {
      assert chain[i].1.dst[j].0 == words[i].1.dst[j].0;
      CountClosed(tweets, i, j);
      BuiltFind(tweets, words[i].1.dst[j].0);
    }
  }

  /** The shares of a counter add up to its total over the divisor. */
  lemma {:induction false} SumShares(d: Dict<nat>, total: nat)
    requires total > 0
    ensures SumProb(Shares(d, total)) == Total(d) as real / total as real
  {
    if |d| > 0 {
      var n := |d|;
      var init := d[..n - 1];
      assert Shares(d, total)[..n - 1] == Shares(init, total);
      SumShares(init, total);
      assert Total(d) == Total(init) + d[n - 1].1;
      DivAdd(Total(init) as real, d[n - 1].1 as real, total as real);
    }
  }

  /** The successor probabilities of every node with successors add up to 1. */
  lemma BuiltStochastic(tweets: seq<seq<Token>>)
    ensures Stochastic(Built(tweets))
  {
    var words := Count(tweets, |tweets|);
    var chain := Built(tweets);
    CountWell(tweets, |tweets|);
    forall i | 0 <= i < |chain| && |chain[i].1.dst| > 0
      ensures SumProb(chain[i].1.dst) == 1.0
    {
      PositiveTotal(words[i].1.dst);
      SumShares(words[i].1.dst, Total(words[i].1.dst));
    }
  }

  /** The shares of a counter with positive counts lie in (0, 1]. */
  lemma SharesInUnit(d: Dict<nat>)
    requires Positive(d) && Total(d) > 0
    ensures forall j :: 0 <= j < |d| ==> 0.0 < Shares(d, Total(d))[j].1.prob <= 1.0
  {
    forall j | 0 <= j < |d|
      ensures 0.0 < Shares(d, Total(d))[j].1.prob <= 1.0
    {
      EntryBelowTotal(d, j);
      RatioInUnit(d[j].1 as real, Total(d) as real);
    }
  }

  /** A positive part of a whole is a share in (0, 1]. */
  lemma RatioInUnit(c: real, t: real)
    requires 0.0 < c <= t
    ensures 0.0 < c / t <= 1.0
  {
    assert c / t * t == c;
  }

  /** Every successor probability of the built chain lies in (0, 1]. */
  lemma BuiltProbsInUnit(tweets: seq<seq<Token>>)
    ensures ProbsInUnit(Built(tweets))
  {
    var words := Count(tweets, |tweets|);
    var chain := Built(tweets);
    CountWell(tweets, |tweets|);
    forall i | 0 <= i < |chain| && |chain[i].1.dst| > 0
      ensures forall j :: 0 <= j < |chain[i].1.dst| ==> 0.0 < chain[i].1.dst[j].1.prob <= 1.0
    {
      PositiveTotal(words[i].1.dst);
      SharesInUnit(words[i].1.dst);
    }
  }

  /** For a corpus without sentinel tokens: START counts the non-empty tweets
      and leads to their first tokens; END has count 0 and no successors; no
      node leads back to START. */
  lemma BuiltSentinels(tweets: seq<seq<Token>>, s: Token)
    requires NoSentinel(tweets)
    ensures Has(Built(tweets), START) && Has(Built(tweets), END)
    ensures Get(Built(tweets), START).cnt == NonEmpty(tweets, |tweets|)
    ensures Get(Built(tweets), END) == Node(0, None, [])
    ensures Has(Built(tweets), s) ==> !Has(Get(Built(tweets), s).dst, START)
  {
    var words := Count(tweets, |tweets|);
    CountWell(tweets, |tweets|);
    BuiltNode(tweets, START);
    BuiltNode(tweets, END);
    SentinelNeverOccurs(tweets, |tweets|, START, START);
    SentinelNeverOccurs(tweets, |tweets|, END, END);
    BuiltFind(tweets, END);
    if Has(Built(tweets), s) {
      BuiltEdge(tweets, s, START);
      if Successions(tweets, |tweets|, s, START) > 0 {
        SuccessionsTarget(tweets, |tweets|, s, START);
      }
      if s == START && Starts(tweets, |tweets|, START) > 0 {
        StartsTarget(tweets, |tweets|, START);
      }
    }
  }

  /** For a corpus without sentinel tokens, START never leads to END: it
      leads only to first tokens. */
  lemma StartNeverEnds(tweets: seq<seq<Token>>)
    requires NoSentinel(tweets)
    ensures Has(Built(tweets), START) && !Has(Get(Built(tweets), START).dst, END)
  {
    BuiltNode(tweets, START);
    BuiltEdge(tweets, START, END);
    SentinelNeverOccurs(tweets, |tweets|, START, END);
    SentinelNeverOccurs(tweets, |tweets|, END, END);
    if Starts(tweets, |tweets|, END) > 0 {
      StartsTarget(tweets, |tweets|, END);
    }
  }
}
