/** The probability report of probability_of_fragment.py: for a fragment and
    a chain rebuilt from the tables, one line per word with the word's own
    probability and the running product, then the most likely next word. The
    printing itself (upper-casing, percentages, column widths) is not modelled:
    a report is the data its lines show. */
module Report {
  import opened Wrappers
  import opened Tokens
  import opened Dicts
  import opened Chains
  import opened Ranking
  import opened Fragments

  /** One printed line: the word, its own probability, the running product. */
  datatype Line = Line(word: Token, ind: real, total: real)

  /** How the script ends. `NeverUsed`: the first word is not a node.
      `Aborted`: `word` never followed `after`. `Finished`: every step was
      seen and `next` is the most likely successor of the last word.
      `NoNext`: every step was seen but the last word has no successor, so
      taking the head of its empty list fails with IndexError. */
  datatype Outcome =
    | NeverUsed(word: Token)
    | Aborted(lines: seq<Line>, word: Token, after: Token)
    | Finished(lines: seq<Line>, next: Token)
    | NoNext(lines: seq<Line>)

  /** Line `k` of the report for a fragment whose first word has probability `p`. */
  function LineAt(chain: Chain, words: seq<Token>, p: real, k: nat): Line
    requires k < |words|
  {
    Line(words[k], if k == 0 then p else EdgeProb(chain, words[k - 1], words[k]), PathProb(chain, words, p, k + 1))
  }

  /** The first `n` lines of that report. */
  function Lines(chain: Chain, words: seq<Token>, p: real, n: nat): (ls: seq<Line>)
    requires n <= |words|
    ensures |ls| == n
  {
    if n == 0 then [] else Lines(chain, words, p, n - 1) + [LineAt(chain, words, p, n - 1)]
  }

  /** Line `k` of the first `n` lines is line `k` of the report. */
  lemma {:induction false} LinesAt(chain: Chain, words: seq<Token>, p: real, n: nat, k: nat)
    requires k < n <= |words|
    ensures Lines(chain, words, p, n)[k] == LineAt(chain, words, p, k)
  {
    if k < n - 1 {
      LinesAt(chain, words, p, n - 1, k);
    }
  }

  /** What the report says about a fragment whose first word is a node with
      probability `p`. */
  ghost predicate Describes(chain: Chain, words: seq<Token>, p: real, out: Outcome)
    requires |words| > 0
  {
    match out
    case NeverUsed(_) => false
    case Aborted(lines, word, after) =>
      && 0 < |lines| < |words|
      && lines == Lines(chain, words, p, |lines|)
      && OnPath(chain, words, |lines|) && !EdgeAt(chain, words, |lines| - 1)
      && word == words[|lines|] && after == words[|lines| - 1]
    case Finished(lines, next) =>
      && lines == Lines(chain, words, p, |words|)
      && OnPath(chain, words, |words|)
      && Has(chain, words[|words| - 1])
      && |Get(chain, words[|words| - 1]).dst| > 0
      && next == SortDesc(Successors(Get(chain, words[|words| - 1])))[0].word
    case NoNext(lines) =>
      && lines == Lines(chain, words, p, |words|)
      && OnPath(chain, words, |words|)
      && Has(chain, words[|words| - 1])
      && |Get(chain, words[|words| - 1]).dst| == 0
  }

  /** The script: Err(IndexError) for an empty fragment, Err(KeyError) when a
      lookup fails (a node without its own probability, or a word of the
      fragment that is not a node, which a closed chain never meets). */
  method FragmentReport(chain: Chain, tokens: seq<Token>) returns (r: Result<Outcome, Exception>)
    ensures |tokens| == 0 ==> r == Err(IndexError)
    ensures r.Err? ==> r.error == IndexError || r.error == KeyError
    ensures |tokens| > 0 && !Has(chain, LowerWords(tokens)[0]) ==> r == Ok(NeverUsed(LowerWords(tokens)[0]))
    ensures |tokens| > 0 && Has(chain, LowerWords(tokens)[0]) && Get(chain, LowerWords(tokens)[0]).prob.None? ==> r == Err(KeyError)
    ensures |tokens| > 0 && Has(chain, LowerWords(tokens)[0]) && Get(chain, LowerWords(tokens)[0]).prob.Some? && r.Ok? ==>
      Describes(chain, LowerWords(tokens), Get(chain, LowerWords(tokens)[0]).prob.value, r.value)
    ensures |tokens| > 0 && Has(chain, LowerWords(tokens)[0]) && Get(chain, LowerWords(tokens)[0]).prob.Some? && r.Err? ==>
      r.error == KeyError && exists i :: 0 <= i < |tokens| && !Has(chain, LowerWords(tokens)[i])
    ensures |tokens| > 0 && Has(chain, LowerWords(tokens)[0]) && Get(chain, LowerWords(tokens)[0]).prob.Some? && Closed(chain) ==> r.Ok?
  {
    var words := LowerWords(tokens);
    if |words| == 0 {
      return Err(IndexError);
    }
    if !Has(chain, words[0]) {
      return Ok(NeverUsed(words[0]));
    }
    if Get(chain, words[0]).prob.None? {
      return Err(KeyError);
    }
    r := ReportFrom(chain, words, Get(chain, words[0]).prob.value);
  }

  /** The report's loop and its last lookup, once the first word's
      probability `p` is known. */
  method ReportFrom(chain: Chain, words: seq<Token>, p: real) returns (r: Result<Outcome, Exception>)
    requires |words| > 0 && Has(chain, words[0])
    ensures r.Err? ==> r.error == KeyError
    ensures r.Err? ==> exists i :: 0 <= i < |words| && !Has(chain, words[i])
    ensures r.Ok? ==> Describes(chain, words, p, r.value)
    ensures Closed(chain) ==> r.Ok?
  {
    var totalProb := p;
    var lines := [Line(words[0], totalProb, totalProb)];
    LinesFirst(chain, words, p);
    var i := 1;
    while i < |words|
      invariant 1 <= i <= |words|
      invariant totalProb == PathProb(chain, words, p, i)
      invariant lines == Lines(chain, words, p, i)
      invariant OnPath(chain, words, i)
      invariant Closed(chain) ==> Has(chain, words[i - 1])
    {
      if !Has(chain, words[i - 1]) {
        return Err(KeyError);
      }
      if !Has(Get(chain, words[i - 1]).dst, words[i]) {
        DescribesAborted(chain, words, p, lines, i);
        return Ok(Aborted(lines, words[i], words[i - 1]));
      }
      var prob := Get(Get(chain, words[i - 1]).dst, words[i]).prob;
      ReportStep(chain, words, p, i, lines, totalProb);
      totalProb := prob * totalProb;
      lines := lines + [Line(words[i], prob, totalProb)];
      i := i + 1;
    }
    var last := words[|words| - 1];
    if !Has(chain, last) {
      return Err(KeyError);
    }
    var nextWordList := ProbListForWord(Get(chain, last));
    DescribesEnd(chain, words, p, lines, nextWordList);
    if |nextWordList| == 0 {
      return Ok(NoNext(lines));
    }
    return Ok(Finished(lines, nextWordList[0].word));
  }

  /** One turn of the report's loop over a seen step: the product, the lines
      and the path grow by that step, and in a closed chain the next word is
      a node. */
  lemma ReportStep(chain: Chain, words: seq<Token>, p: real, i: nat, lines: seq<Line>, t: real)
    requires 0 < i < |words| && Has(chain, words[i - 1]) && Has(Get(chain, words[i - 1]).dst, words[i])
    requires t == PathProb(chain, words, p, i) && lines == Lines(chain, words, p, i) && OnPath(chain, words, i)
    ensures var prob := Get(Get(chain, words[i - 1]).dst, words[i]).prob;
      && prob * t == PathProb(chain, words, p, i + 1)
      && lines + [Line(words[i], prob, prob * t)] == Lines(chain, words, p, i + 1)
      && OnPath(chain, words, i + 1)
      && (Closed(chain) ==> Has(chain, words[i]))
  {
    var prob := Get(Get(chain, words[i - 1]).dst, words[i]).prob;
    ProductStep(chain, words, p, i, t);
    EdgeProbGet(chain, words[i - 1], words[i]);
    OnPathSnoc(chain, words, i);
    LinesSnoc(chain, words, p, i, lines, prob, prob * t);
  }

  /** A step never seen ends the report there. */
  lemma DescribesAborted(chain: Chain, words: seq<Token>, p: real, lines: seq<Line>, i: nat)
    requires 0 < i < |words| && lines == Lines(chain, words, p, i) && OnPath(chain, words, i)
    requires Has(chain, words[i - 1]) && !Has(Get(chain, words[i - 1]).dst, words[i])
    ensures Describes(chain, words, p, Aborted(lines, words[i], words[i - 1]))
  {
  }

  /** Once every step was seen, the report ends with the head of the last
      word's ranked successors, or without one when it has none. */
  lemma DescribesEnd(chain: Chain, words: seq<Token>, p: real, lines: seq<Line>, ranked: seq<Ranked>)
    requires |words| > 0 && lines == Lines(chain, words, p, |words|) && OnPath(chain, words, |words|)
    requires Has(chain, words[|words| - 1])
    requires ranked == SortDesc(Successors(Get(chain, words[|words| - 1])))
    requires multiset(ranked) == multiset(Successors(Get(chain, words[|words| - 1])))
    ensures |ranked| == 0 ==> Describes(chain, words, p, NoNext(lines))
    ensures |ranked| > 0 ==> Describes(chain, words, p, Finished(lines, ranked[0].word))
  {
    assert |ranked| == |multiset(ranked)| == |Successors(Get(chain, words[|words| - 1]))|;
  }

  /** The lines grow by the line of the next word. */
  lemma LinesSnoc(chain: Chain, words: seq<Token>, p: real, i: nat, lines: seq<Line>, prob: real, total: real)
    requires 0 < i < |words| && lines == Lines(chain, words, p, i)
    requires prob == EdgeProb(chain, words[i - 1], words[i]) && total == PathProb(chain, words, p, i + 1)
    ensures lines + [Line(words[i], prob, total)] == Lines(chain, words, p, i + 1)
  {
  }

  /** The first line shows the first word's probability twice. */
  lemma LinesFirst(chain: Chain, words: seq<Token>, p: real)
    requires |words| > 0
    ensures [Line(words[0], p, p)] == Lines(chain, words, p, 1)
  {
    assert Lines(chain, words, p, 1) == [] + [LineAt(chain, words, p, 0)];
  }

  /** A seen step extends the path. */
  lemma OnPathSnoc(chain: Chain, words: seq<Token>, i: nat)
    requires 0 < i < |words| && OnPath(chain, words, i) && EdgeAt(chain, words, i - 1)
    ensures OnPath(chain, words, i + 1)
  {
  }

  /** The totals of a report all lie in [0, 1] and never grow from one line
      to the next, for a chain whose step probabilities lie in (0, 1] and a
      first word whose probability lies in [0, 1]. */
  lemma TotalsDecrease(chain: Chain, words: seq<Token>, p: real, n: nat, k: nat)
    requires ProbsInUnit(chain) && 0.0 <= p <= 1.0 && 0 < k < n <= |words|
    ensures 0.0 <= Lines(chain, words, p, n)[k].total <= Lines(chain, words, p, n)[k - 1].total <= 1.0
  {
    LinesAt(chain, words, p, n, k);
    LinesAt(chain, words, p, n, k - 1);
    PathProbInUnit(chain, words, p, k + 1);
    PathProbInUnit(chain, words, p, k);
  }

  /** The word the report names as next is a successor of the last word with
      a probability no successor exceeds. */
  lemma NextMostLikely(node: Node)
    requires |node.dst| > 0
    ensures Has(node.dst, SortDesc(Successors(node))[0].word)
    ensures forall j :: 0 <= j < |node.dst| ==> node.dst[j].1.prob <= SortDesc(Successors(node))[0].prob
  {
    var s := Successors(node);
    var sorted := SortDesc(s);
    assert sorted[0] in multiset(s);
    var m :| 0 <= m < |node.dst| && s[m] == sorted[0];
    assert node.dst[m].0 == sorted[0].word;
    forall j | 0 <= j < |node.dst|
      ensures node.dst[j].1.prob <= sorted[0].prob
    {
      assert s[j] in multiset(sorted);
      var q :| 0 <= q < |sorted| && sorted[q] == s[j];
      if q > 0 {
        assert sorted[0].prob >= sorted[q].prob;
      }
    }
  }
}
