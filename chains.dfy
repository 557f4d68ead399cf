/** The Markov chain both programs work with: a dictionary from token to node;
    a node has a count, the successors it was seen with, and (only in a chain
    rebuilt from the tables of tweets_util.py) its own probability. */
module Chains {
  import opened Wrappers
  import opened Tokens
  import opened Dicts

  /** One successor of a node: how often it followed, and its share of the node. */
  datatype Edge = Edge(cnt: nat, prob: real)

  /** A node. markov.py never sets `prob` (None); tweets_util.py sets it to the
      node's share of all counts (Some). */
  datatype Node = Node(cnt: nat, prob: Option<real>, dst: Dict<Edge>)

  type Chain = Dict<Node>

  /** The sum of the successor probabilities of a node. */
  function SumProb(dst: Dict<Edge>): real {
    if |dst| == 0 then 0.0 else SumProb(dst[..|dst| - 1]) + dst[|dst| - 1].1.prob
  }

  /** The sum of the counts of all nodes of a chain. */
  function TotalCnt(chain: Chain): nat {
    if |chain| == 0 then 0 else TotalCnt(chain[..|chain| - 1]) + chain[|chain| - 1].1.cnt
  }

  /** Every successor of every node is itself a node. */
  ghost predicate Closed(chain: Chain) {
    forall i, j :: 0 <= i < |chain| && 0 <= j < |chain[i].1.dst| ==> Has(chain, chain[i].1.dst[j].0)
  }

  /** The successor probabilities of every node with successors add up to 1. */
  ghost predicate Stochastic(chain: Chain) {
    forall i :: 0 <= i < |chain| && |chain[i].1.dst| > 0 ==> SumProb(chain[i].1.dst) == 1.0
  }

  /** Every successor probability lies in (0, 1]. */
  ghost predicate ProbsInUnit(chain: Chain) {
    forall i, j :: 0 <= i < |chain| && 0 <= j < |chain[i].1.dst| ==> 0.0 < chain[i].1.dst[j].1.prob <= 1.0
  }

  /** No key repeats, neither among the nodes nor among any node's successors. */
  ghost predicate Keyed(chain: Chain) {
    Distinct(chain) && forall i :: 0 <= i < |chain| ==> Distinct(chain[i].1.dst)
  }

  /** The share of all counts held by node `w`: what tweets_util.py stores as
      the node's own probability; 0 when all counts are 0. */
  function Unigram(chain: Chain, w: Token): (p: real)
    requires Has(chain, w)
    ensures 0.0 <= p <= 1.0
  {
    CntBelowTotal(chain, Find(chain, w).value);
    if TotalCnt(chain) == 0 then 0.0 else Get(chain, w).cnt as real / TotalCnt(chain) as real
  }

  /** A node holds a positive share exactly when it was counted. */
  lemma UnigramPositive(chain: Chain, w: Token)
    requires Has(chain, w)
    ensures Unigram(chain, w) > 0.0 <==> Get(chain, w).cnt > 0
  {
    CntBelowTotal(chain, Find(chain, w).value);
  }

  /** A node's count is at most the total count. */
  lemma {:induction false} CntBelowTotal(chain: Chain, i: nat)
    requires i < |chain|
    ensures chain[i].1.cnt <= TotalCnt(chain)
  {
    if i < |chain| - 1 {
      CntBelowTotal(chain[..|chain| - 1], i);
    }
  }

  /** The probability of taking the edge from `s` to `d`, 0 when there is none. */
  function EdgeProb(chain: Chain, s: Token, d: Token): real {
    match Find(chain, s)
    case None => 0.0
    case Some(i) =>
      match Find(chain[i].1.dst, d)
      case None => 0.0
      case Some(j) => chain[i].1.dst[j].1.prob
  }

  /** The edge probability read through the dictionaries. */
  lemma EdgeProbGet(chain: Chain, s: Token, d: Token)
    requires Has(chain, s)
    ensures EdgeProb(chain, s, d) == if Has(Get(chain, s).dst, d) then Get(Get(chain, s).dst, d).prob else 0.0
  {
  }

  /** Edge probabilities of a chain with probabilities in (0, 1] lie in [0, 1]. */
  lemma EdgeProbInUnit(chain: Chain, s: Token, d: Token)
    requires ProbsInUnit(chain)
    ensures 0.0 <= EdgeProb(chain, s, d) <= 1.0
    ensures EdgeProb(chain, s, d) > 0.0 <==> Has(chain, s) && Has(Get(chain, s).dst, d)
  {
  }

  /** Shares of one total add up. */
  lemma DivAdd(a: real, b: real, t: real)
    requires t > 0.0
    ensures a / t + b / t == (a + b) / t
  {
  }

  /** A positive total is all of itself. */
  lemma DivSelf(t: real)
    requires t > 0.0
    ensures t / t == 1.0
  {
  }
}
