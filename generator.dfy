/** Random walks over a chain: `get_next_word` and `generate_tweet`
    (markov.py:118-141), without the final detokenisation. The calls to
    `random.random()` become a sequence of draws, used in order. */
module Generator {
  import opened Wrappers
  import opened Tokens
  import opened Dicts
  import opened Chains
  import opened Ranking
  import opened MarkovBuild

  /** The running total of the first `k` probabilities of a list. */
  function Cum(s: seq<Ranked>, k: nat): real
    requires k <= |s|
  {
    if k == 0 then 0.0 else Cum(s, k - 1) + s[k - 1].prob
  }

  /** The running total over a prefix is the sum of the prefix. */
  lemma {:induction false} CumAll(s: seq<Ranked>, k: nat)
    requires k <= |s|
    ensures Cum(s, k) == SumRanked(s[..k])
  {
    if k > 0 {
      CumAll(s, k - 1);
      assert s[..k] == s[..k - 1] + [s[k - 1]];
      SumRankedSnoc(s[..k - 1], s[k - 1]);
    }
  }

  /** The successor list `get_next_word` walks for `word`, most probable first. */
  function Choices(chain: Chain, word: Token): seq<Ranked>
    requires Has(chain, word)
  {
    SortDesc(Successors(Get(chain, word)))
  }

  /** The pick the loop makes from position `i` on: the first word whose
      running total reaches the selector. */
  function PickFrom(c: seq<Ranked>, selector: real, i: nat): Option<Token>
    requires i <= |c|
    decreases |c| - i
  {
    if i == |c| then None
    else if selector <= Cum(c, i + 1) then Some(c[i].word)
    else PickFrom(c, selector, i + 1)
  }

  /** The word `get_next_word` returns after `word` for the draw `selector`:
      END after a missing word (None), otherwise the pick from its list. */
  function Next(chain: Chain, word: Option<Token>, selector: real): Option<Token>
    requires word.Some? ==> Has(chain, word.value)
  {
    if word.None? then Some(END) else PickFrom(Choices(chain, word.value), selector, 0)
  }

  /** No running total of the first `j` entries reaches the selector. */
  ghost predicate Below(c: seq<Ranked>, selector: real, j: nat)
    requires j <= |c|
  {
    forall k :: 0 < k <= j ==> selector > Cum(c, k)
  }

  /** What PickFrom returns, stated through running totals: None exactly when
      no running total reaches the selector; otherwise the word at the least
      index whose running total reaches it. */
  lemma {:induction false} PickCharacterised(c: seq<Ranked>, selector: real, i: nat)
    requires i <= |c| && Below(c, selector, i)
    ensures PickFrom(c, selector, i).None? <==> Below(c, selector, |c|)
    ensures PickFrom(c, selector, i).Some? ==>
      exists j :: 0 <= j < |c| && PickFrom(c, selector, i) == Some(c[j].word) && selector <= Cum(c, j + 1) && Below(c, selector, j)
    decreases |c| - i
  {
    if i == |c| {
    } else if selector > Cum(c, i + 1) {
      assert PickFrom(c, selector, i) == PickFrom(c, selector, i + 1);
      PickCharacterised(c, selector, i + 1);
    } else {
      assert PickFrom(c, selector, i) == Some(c[i].word);
      assert !(selector > Cum(c, i + 1)) && 0 < i + 1 <= |c|;
    }
  }

  /** A word picked from a node's list is one of the node's successors. */
  lemma NextIsSuccessor(chain: Chain, word: Token, selector: real)
    requires Has(chain, word)
    ensures Next(chain, Some(word), selector).Some? ==> Has(Get(chain, word).dst, Next(chain, Some(word), selector).value)
  {
    var c := Choices(chain, word);
    PickCharacterised(c, selector, 0);
    if PickFrom(c, selector, 0).Some? {
      var j :| 0 <= j < |c| && PickFrom(c, selector, 0) == Some(c[j].word);
      var node := Get(chain, word);
      assert c[j] in multiset(Successors(node));
      var m :| 0 <= m < |node.dst| && Successors(node)[m] == c[j];
      assert node.dst[m].0 == c[j].word;
    }
  }

  /** A draw in [0, 1) always picks a word from a node whose successor
      probabilities add up to 1. */
  lemma NextTotal(chain: Chain, word: Token, selector: real)
    requires Has(chain, word) && SumProb(Get(chain, word).dst) == 1.0
    requires 0.0 <= selector < 1.0
    ensures Next(chain, Some(word), selector).Some?
  {
    var node := Get(chain, word);
    var c := Choices(chain, word);
    PickCharacterised(c, selector, 0);
    CumAll(c, |c|);
    assert c[..|c|] == c;
    assert Successors(node) == Successors(Node(0, None, node.dst));
    SuccessorsSum(node.dst);
  }

  /** `get_next_word`: KeyError for a word that is not a node, otherwise the
      pick `Next` describes (None when the loop falls through). */
  method NextWord(chain: Chain, word: Option<Token>, selector: real) returns (r: Result<Option<Token>, Exception>)
    ensures word.Some? && !Has(chain, word.value) ==> r == Err(KeyError)
    ensures word.None? || Has(chain, word.value) ==> r == Ok(Next(chain, word, selector))
  {
    if word.None? {
      return Ok(Some(END));
    }
    if !Has(chain, word.value) {
      return Err(KeyError);
    }
    var probMap := ProbListForWord(Get(chain, word.value));
    var total := 0.0;
    var i := 0;
    while i < |probMap|
      invariant 0 <= i <= |probMap|
      invariant total == Cum(probMap, i)
      invariant PickFrom(probMap, selector, 0) == PickFrom(probMap, selector, i)
    {
      total := total + probMap[i].prob;
      if selector <= total {
        return Ok(Some(probMap[i].word));
      }
      i := i + 1;
    }
    return Ok(None);
  }

  // ---------------------------------------------------------------- walks

  /** `s` is what the loop of `generate_tweet` builds from `draws`: its first
      entry is picked after START with the first draw, every later entry after
      the entry before it with the next draw; only the last entry may be None,
      and END is never appended after the first entry. */
  ghost predicate Drawn(chain: Chain, s: seq<Option<Token>>, draws: seq<real>) {
    && 0 < |s| <= |draws|
    && Has(chain, START)
    && s[0] == Next(chain, Some(START), draws[0])
    && forall i :: 0 <= i < |s| - 1 ==> DrawnAt(chain, s, draws, i)
  }

  /** Entry `i + 1` of `s` is the word the draw `i + 1` picks after entry `i`. */
  ghost predicate DrawnAt(chain: Chain, s: seq<Option<Token>>, draws: seq<real>, i: nat)
    requires i + 1 < |s| <= |draws|
  {
    && s[i].Some? && Has(chain, s[i].value)
    && s[i + 1] == Next(chain, s[i], draws[i + 1])
    && s[i + 1] != Some(END)
  }

  /** A sentence built from the draws grows by the word the next draw picks. */
  lemma DrawnSnoc(chain: Chain, s: seq<Option<Token>>, draws: seq<real>, w: Option<Token>)
    requires Drawn(chain, s, draws) && |s| < |draws|
    requires s[|s| - 1].Some? && Has(chain, s[|s| - 1].value)
    requires w == Next(chain, s[|s| - 1], draws[|s|]) && w != Some(END)
    ensures Drawn(chain, s + [w], draws)
  {
    var t := s + [w];
    forall i | 0 <= i < |t| - 1
      ensures DrawnAt(chain, t, draws, i)
    {
      if i < |s| - 1 {
        assert DrawnAt(chain, s, draws, i);
        assert t[i] == s[i] && t[i + 1] == s[i + 1];
      }
    }
  }

  /** `next` is a successor of node `prev`. */
  ghost predicate Step(chain: Chain, prev: Token, next: Token) {
    Has(chain, prev) && Has(Get(chain, prev).dst, next)
  }

  /** A sentence that follows the chain: the first entry is a successor of
      START, every later one a successor of the one before it, or None. */
  ghost predicate Walk(chain: Chain, s: seq<Option<Token>>) {
    && |s| > 0
    && (s[0].Some? ==> Step(chain, START, s[0].value))
    && forall i :: 0 <= i < |s| - 1 ==> WalkAt(chain, s, i)
  }

  /** Entry `i + 1` of `s` is a successor of entry `i`, or None. */
  ghost predicate WalkAt(chain: Chain, s: seq<Option<Token>>, i: nat)
    requires i + 1 < |s|
  {
    s[i].Some? && (s[i + 1].Some? ==> Step(chain, s[i].value, s[i + 1].value))
  }

  /** Whatever the draws, a generated sentence follows the chain's edges. */
  lemma DrawnWalk(chain: Chain, s: seq<Option<Token>>, draws: seq<real>)
    requires Drawn(chain, s, draws)
    ensures Walk(chain, s)
  {
    NextIsSuccessor(chain, START, draws[0]);
    forall i | 0 <= i < |s| - 1
      ensures WalkAt(chain, s, i)
    {
      assert DrawnAt(chain, s, draws, i);
      NextIsSuccessor(chain, s[i].value, draws[i + 1]);
    }
  }

  /** The sentence stopped where the walk ended: its last entry is None, or
      the draw after it picks END. */
  ghost predicate Ended(chain: Chain, s: seq<Option<Token>>, draws: seq<real>)
    requires |s| > 0
  {
    var last := s[|s| - 1];
    last.None? || (Has(chain, last.value) && |s| < |draws| && Next(chain, last, draws[|s|]) == Some(END))
  }

  /** `generate_tweet` as written: `size` is set to 1 and never changes, so
      for a positive `length` the loop never runs and the sentence is the one
      word after START; for 0 or a negative `length` the walk goes on until it
      ends. None when the walk needs more draws than there are. */
  method GenerateTweet(chain: Chain, length: int, draws: seq<real>) returns (r: Option<seq<Option<Token>>>)
    requires Closed(chain) && Has(chain, START)
    ensures |draws| == 0 ==> r.None?
    ensures r.Some? ==> Drawn(chain, r.value, draws)
    ensures r.Some? && length > 0 ==> |r.value| == 1
    ensures r.Some? && length <= 0 ==> Ended(chain, r.value, draws)
    ensures length > 0 && |draws| > 0 ==> r.Some? && |r.value| == 1
    ensures r.None? ==>
      (|draws| == 0 || (length <= 0 && exists s: seq<Option<Token>> :: Drawn(chain, s, draws) && |s| == |draws| && s[|s| - 1].Some?))
  {
    if |draws| == 0 {
      return None;
    }
    var size := 1;
    var first := NextWord(chain, Some(START), draws[0]);
    var sentence := [first.value];
    NextIsSuccessor(chain, START, draws[0]);
    while length == 0 || length + 2 <= size
      invariant Drawn(chain, sentence, draws)
      invariant sentence[|sentence| - 1].Some? ==> Has(chain, sentence[|sentence| - 1].value)
      invariant length > 0 ==> |sentence| == 1
      decreases |draws| - |sentence|
    {
      var last := sentence[|sentence| - 1];
      var nextWord: Option<Token>;
      if last.None? {
        var res := NextWord(chain, None, 0.0);
        nextWord := res.value;
      } else if |sentence| == |draws| {
        assert Drawn(chain, sentence, draws) && |sentence| == |draws|;
        return None;
      } else {
        var res := NextWord(chain, last, draws[|sentence|]);
        nextWord := res.value;
        NextIsSuccessor(chain, last.value, draws[|sentence|]);
      }
      if nextWord == Some(END) {
        assert Ended(chain, sentence, draws);
        break;
      }
      DrawnSnoc(chain, sentence, draws, nextWord);
      sentence := sentence + [nextWord];
    }
    r := Some(sentence);
  }

  /** `generate_tweet` as intended: a positive `length` bounds the number of
      words, and the walk stops earlier only where it ends. */
  method GenerateTweetBounded(chain: Chain, length: int, draws: seq<real>) returns (r: Option<seq<Option<Token>>>)
    requires Closed(chain) && Has(chain, START)
    ensures |draws| == 0 ==> r.None?
    ensures r.Some? ==> Drawn(chain, r.value, draws)
    ensures r.Some? && length > 0 ==> |r.value| <= length
    ensures r.Some? && (length <= 0 || |r.value| < length) ==> Ended(chain, r.value, draws)
    ensures length > 0 && |draws| >= length ==> r.Some?
    ensures r.None? ==>
      (|draws| == 0 || ((length <= 0 || |draws| < length) && exists s: seq<Option<Token>> :: Drawn(chain, s, draws) && |s| == |draws| && s[|s| - 1].Some?))
  {
    if |draws| == 0 {
      return None;
    }
    var first := NextWord(chain, Some(START), draws[0]);
    var sentence := [first.value];
    NextIsSuccessor(chain, START, draws[0]);
    while length <= 0 || |sentence| < length
      invariant Drawn(chain, sentence, draws)
      invariant sentence[|sentence| - 1].Some? ==> Has(chain, sentence[|sentence| - 1].value)
      invariant length > 0 ==> |sentence| <= length
      decreases |draws| - |sentence|
    {
      var last := sentence[|sentence| - 1];
      var nextWord: Option<Token>;
      if last.None? {
        var res := NextWord(chain, None, 0.0);
        nextWord := res.value;
      } else if |sentence| == |draws| {
        assert Drawn(chain, sentence, draws) && |sentence| == |draws|;
        return None;
      } else {
        var res := NextWord(chain, last, draws[|sentence|]);
        nextWord := res.value;
        NextIsSuccessor(chain, last.value, draws[|sentence|]);
      }
      if nextWord == Some(END) {
        assert Ended(chain, sentence, draws);
        break;
      }
      DrawnSnoc(chain, sentence, draws, nextWord);
      sentence := sentence + [nextWord];
    }
    r := Some(sentence);
  }

  /** No generated sentence holds END, when START has no edge to END: the
      first word is a successor of START, and the loop stops before appending
      END. */
  lemma DrawnNoEnd(chain: Chain, s: seq<Option<Token>>, draws: seq<real>)
    requires Drawn(chain, s, draws) && !Has(Get(chain, START).dst, END)
    ensures forall i :: 0 <= i < |s| ==> s[i] != Some(END)
  {
    NextIsSuccessor(chain, START, draws[0]);
    forall i | 0 < i < |s|
      ensures s[i] != Some(END)
    {
      assert DrawnAt(chain, s, draws, i - 1);
    }
  }

  /** Hence a sentence generated from the chain of a corpus never holds END. */
  lemma GeneratedNoEnd(tweets: seq<seq<Token>>, s: seq<Option<Token>>, draws: seq<real>)
    requires NoSentinel(tweets) && Drawn(Built(tweets), s, draws)
    ensures forall i :: 0 <= i < |s| ==> s[i] != Some(END)
  {
    StartNeverEnds(tweets);
    DrawnNoEnd(Built(tweets), s, draws);
  }
}
