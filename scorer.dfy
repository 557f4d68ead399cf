/** The probability of a fragment (markov.py:144-156): the probability of its
    first word times the probability of every step from one word to the next,
    0 as soon as a word is unknown or a step was never seen. The tokenizer is
    not modelled: a fragment arrives as its list of tokens. */
module Fragments {
  import opened Wrappers
  import opened Tokens
  import opened Dicts
  import opened Chains

  /** Entry `i + 1` of `words` was seen after entry `i`. */
  ghost predicate EdgeAt(chain: Chain, words: seq<Token>, i: nat)
    requires i + 1 < |words|
  {
    Has(chain, words[i]) && Has(Get(chain, words[i]).dst, words[i + 1])
  }

  /** Every step among the first `k` words was seen. */
  ghost predicate OnPath(chain: Chain, words: seq<Token>, k: nat)
    requires k <= |words|
  {
    forall i :: 0 <= i < k - 1 ==> EdgeAt(chain, words, i)
  }

  /** The running product of the first `k` words: `p`, the probability given
      to the first word, times the probability of every step among them. */
  function PathProb(chain: Chain, words: seq<Token>, p: real, k: nat): real
    requires k <= |words|
  {
    if k <= 1 then p else PathProb(chain, words, p, k - 1) * EdgeProb(chain, words[k - 2], words[k - 1])
  }

  lemma MulNonNeg(a: real, b: real)
    requires 0.0 <= a && 0.0 <= b
    ensures 0.0 <= a * b
  {
  }

  lemma MulPos(a: real, b: real)
    requires 0.0 < a && 0.0 < b
    ensures 0.0 < a * b
  {
  }

  /** A product of two numbers in [0, 1] lies in [0, 1] and is at most the first. */
  lemma MulUnit(a: real, b: real)
    requires 0.0 <= a <= 1.0 && 0.0 <= b <= 1.0
    ensures 0.0 <= a * b <= a
  {
    MulNonNeg(a, b);
    MulNonNeg(a, 1.0 - b);
    assert a * (1.0 - b) == a - a * b;
  }

  /** One more factor of the running product, named by its parts. */
  lemma PathProbStep(chain: Chain, words: seq<Token>, p: real, k: nat, a: real, e: real)
    requires 1 < k <= |words| && a == PathProb(chain, words, p, k - 1) && e == EdgeProb(chain, words[k - 2], words[k - 1])
    ensures PathProb(chain, words, p, k) == a * e
  {
  }

  /** A product of two numbers in [0, 1] lies between 0 and the first. */
  lemma UnitStep(a: real, e: real, c: real)
    requires 0.0 <= a <= 1.0 && 0.0 <= e <= 1.0 && c == a * e
    ensures 0.0 <= c <= a
  {
    MulUnit(a, e);
  }

  /** A product of two non-negative numbers is positive exactly when both are. */
  lemma PosStep(a: real, e: real, c: real)
    requires 0.0 <= a && 0.0 <= e && c == a * e
    ensures c > 0.0 <==> a > 0.0 && e > 0.0
  {
    if a > 0.0 && e > 0.0 {
      MulPos(a, e);
    }
  }

  /** Over a chain whose step probabilities lie in (0, 1], and from a first
      probability in [0, 1], the running product lies in [0, 1] and never
      grows as the fragment grows. */
  lemma {:induction false} PathProbInUnit(chain: Chain, words: seq<Token>, p: real, k: nat)
    requires ProbsInUnit(chain) && 0.0 <= p <= 1.0 && k <= |words|
    ensures 0.0 <= PathProb(chain, words, p, k) <= 1.0
    ensures k > 1 ==> PathProb(chain, words, p, k) <= PathProb(chain, words, p, k - 1)
  {
    if k > 1 {
      PathProbInUnit(chain, words, p, k - 1);
      var a, e := PathProb(chain, words, p, k - 1), EdgeProb(chain, words[k - 2], words[k - 1]);
      EdgeProbInUnit(chain, words[k - 2], words[k - 1]);
      PathProbStep(chain, words, p, k, a, e);
      UnitStep(a, e, PathProb(chain, words, p, k));
    }
  }

  /** Over such a chain, and from a non-negative first probability, the
      running product is positive exactly when the first probability is and
      every step was seen. */
  lemma {:induction false} PathProbPositive(chain: Chain, words: seq<Token>, p: real, k: nat)
    requires ProbsInUnit(chain) && 0.0 <= p <= 1.0 && k <= |words|
    ensures PathProb(chain, words, p, k) > 0.0 <==> p > 0.0 && OnPath(chain, words, k)
  {
    if k > 1 {
      PathProbPositive(chain, words, p, k - 1);
      PathProbInUnit(chain, words, p, k - 1);
      var a, e := PathProb(chain, words, p, k - 1), EdgeProb(chain, words[k - 2], words[k - 1]);
      EdgeProbInUnit(chain, words[k - 2], words[k - 1]);
      PathProbStep(chain, words, p, k, a, e);
      PosStep(a, e, PathProb(chain, words, p, k));
      assert e > 0.0 <==> EdgeAt(chain, words, k - 2);
      assert OnPath(chain, words, k) <==> OnPath(chain, words, k - 1) && EdgeAt(chain, words, k - 2);
    }
  }

  /** Once a step was never seen, the running product stays 0. */
  lemma {:induction false} PathProbZero(chain: Chain, words: seq<Token>, p: real, k: nat, m: nat)
    requires 0 < k <= m <= |words| && PathProb(chain, words, p, k) == 0.0
    ensures PathProb(chain, words, p, m) == 0.0
    decreases m - k
  {
    if k < m {
      PathProbStep(chain, words, p, k + 1, 0.0, EdgeProb(chain, words[k - 1], words[k]));
      PathProbZero(chain, words, p, k + 1, m);
    }
  }

  /** The loop of `probability_of_fragment`: from the first word's probability
      `first`, multiply by each step's probability; 0 when a step was never
      seen; KeyError when a word that is not a node must be looked up. */
  method PathProduct(chain: Chain, words: seq<Token>, first: real) returns (r: Result<real, Exception>)
    requires |words| > 0 && Has(chain, words[0])
    ensures r.Ok? ==> r.value == PathProb(chain, words, first, |words|)
    ensures r.Err? ==> r.error == KeyError
    ensures r.Err? ==> exists i :: 0 <= i < |words| - 1 && !Has(chain, words[i])
    ensures Closed(chain) ==> r.Ok?
  {
    var totalProb := first;
    var i := 1;
    while i < |words|
      invariant 1 <= i <= |words|
      invariant totalProb == PathProb(chain, words, first, i)
      invariant Closed(chain) ==> Has(chain, words[i - 1])
    {
      if !Has(chain, words[i - 1]) {
        return Err(KeyError);
      }
      var node := Get(chain, words[i - 1]);
      ProductStep(chain, words, first, i, totalProb);
      if !Has(node.dst, words[i]) {
        return Ok(0.0);
      }
      totalProb := totalProb * Get(node.dst, words[i]).prob;
      i := i + 1;
    }
    return Ok(totalProb);
  }

  /** One turn of that loop, from the word at `i - 1` (a node): a seen step
      multiplies the product by its probability and, in a closed chain, lands
      on a node; a step never seen leaves the whole product at 0. */
  lemma ProductStep(chain: Chain, words: seq<Token>, first: real, i: nat, t: real)
    requires 0 < i < |words| && Has(chain, words[i - 1]) && t == PathProb(chain, words, first, i)
    ensures Has(Get(chain, words[i - 1]).dst, words[i]) ==>
      t * Get(Get(chain, words[i - 1]).dst, words[i]).prob == PathProb(chain, words, first, i + 1)
    ensures Has(Get(chain, words[i - 1]).dst, words[i]) && Closed(chain) ==> Has(chain, words[i])
    ensures !Has(Get(chain, words[i - 1]).dst, words[i]) ==> PathProb(chain, words, first, |words|) == 0.0
  {
    var dst := Get(chain, words[i - 1]).dst;
    EdgeProbGet(chain, words[i - 1], words[i]);
    if Has(dst, words[i]) {
      PathProbStep(chain, words, first, i + 1, t, Get(dst, words[i]).prob);
      if Closed(chain) {
        ClosedStep(chain, words[i - 1], words[i]);
      }
    } else {
      PathProbStep(chain, words, first, i + 1, t, 0.0);
      PathProbZero(chain, words, first, i + 1, |words|);
    }
  }

  /** In a closed chain, a successor is a node. */
  lemma ClosedStep(chain: Chain, s: Token, d: Token)
    requires Closed(chain) && Has(chain, s) && Has(Get(chain, s).dst, d)
    ensures Has(chain, d)
  {
    var i := Find(chain, s).value;
    var j := Find(chain[i].1.dst, d).value;
    assert chain[i].1.dst[j].0 == d;
  }

  /** `probability_of_fragment` as written: the first factor is the node's own
      probability, which only a chain rebuilt from tweets_util.py's tables has;
      on a chain built by markov.py the lookup fails with KeyError. */
  method ProbabilityOfFragment(chain: Chain, tokens: seq<Token>) returns (r: Result<real, Exception>)
    ensures |tokens| == 0 ==> r == Err(IndexError)
    ensures |tokens| > 0 && !Has(chain, LowerWords(tokens)[0]) ==> r == Ok(0.0)
    ensures |tokens| > 0 && Has(chain, LowerWords(tokens)[0]) && Get(chain, LowerWords(tokens)[0]).prob.None? ==> r == Err(KeyError)
    ensures |tokens| > 0 && Has(chain, LowerWords(tokens)[0]) && Get(chain, LowerWords(tokens)[0]).prob.Some? && r.Ok? ==>
      r.value == PathProb(chain, LowerWords(tokens), Get(chain, LowerWords(tokens)[0]).prob.value, |tokens|)
    ensures |tokens| > 0 && Has(chain, LowerWords(tokens)[0]) && Get(chain, LowerWords(tokens)[0]).prob.Some? && r.Err? ==>
      r.error == KeyError && exists i :: 0 <= i < |tokens| - 1 && !Has(chain, LowerWords(tokens)[i])
    ensures |tokens| > 0 && Has(chain, LowerWords(tokens)[0]) && Get(chain, LowerWords(tokens)[0]).prob.Some? && Closed(chain) ==> r.Ok?
  {
    var words := LowerWords(tokens);
    if |words| == 0 {
      r := Err(IndexError);
    } else if !Has(chain, words[0]) {
      r := Ok(0.0);
    } else if Get(chain, words[0]).prob.None? {
      r := Err(KeyError);
    } else {
      r := PathProduct(chain, words, Get(chain, words[0]).prob.value);
    }
  }

  /** `probability_of_fragment` as intended: the first factor is the first
      word's share of all counts, which every chain carries. */
  method FragmentProbability(chain: Chain, tokens: seq<Token>) returns (r: Result<real, Exception>)
    requires Closed(chain)
    ensures |tokens| == 0 ==> r == Err(IndexError)
    ensures |tokens| > 0 && !Has(chain, LowerWords(tokens)[0]) ==> r == Ok(0.0)
    ensures |tokens| > 0 && Has(chain, LowerWords(tokens)[0]) ==>
      r.Ok? && r.value == PathProb(chain, LowerWords(tokens), Unigram(chain, LowerWords(tokens)[0]), |tokens|)
  {
    var words := LowerWords(tokens);
    if |words| == 0 {
      return Err(IndexError);
    }
    if !Has(chain, words[0]) {
      return Ok(0.0);
    }
    r := PathProduct(chain, words, Unigram(chain, words[0]));
  }

  /** The intended probability lies in [0, 1] and is positive exactly when
      the first word was counted and every step was seen. */
  lemma FragmentInUnit(chain: Chain, words: seq<Token>)
    requires ProbsInUnit(chain) && |words| > 0 && Has(chain, words[0])
    ensures 0.0 <= PathProb(chain, words, Unigram(chain, words[0]), |words|) <= 1.0
    ensures PathProb(chain, words, Unigram(chain, words[0]), |words|) > 0.0 <==>
      Get(chain, words[0]).cnt > 0 && OnPath(chain, words, |words|)
  {
    var u := Unigram(chain, words[0]);
    PathProbInUnit(chain, words, u, |words|);
    PathProbPositive(chain, words, u, |words|);
    UnigramPositive(chain, words[0]);
  }
}
