/** The counting pass shared by both chain builders (markov.py:48-77 and
    tweets_util.py:55-90): every token occurrence bumps its own count and the
    count of the edge to its successor (or to END); every non-empty tweet bumps
    START and START's edge to the tweet's first token. */
module Counting {
  import opened Wrappers
  import opened Tokens
  import opened Dicts

  /** A node while it is being counted: its own count and a counter of successors. */
  datatype Tally = Tally(cnt: nat, dst: Dict<nat>)

  /** The builder's `words` dictionary. */
  type Words = Dict<Tally>

  // ---------------------------------------------------------------- counters

  /** The count stored under `k`, 0 when `k` is absent. */
  function CountOf(d: Dict<nat>, k: string): nat {
    match Find(d, k)
    case Some(i) => d[i].1
    case None => 0
  }

  /** The sum of all counts of a counter. */
  function Total(d: Dict<nat>): nat {
    if |d| == 0 then 0 else Total(d[..|d| - 1]) + d[|d| - 1].1
  }

  /** Every stored count is at least 1 (entries are only ever created with 1). */
  ghost predicate Positive(d: Dict<nat>) {
    forall i :: 0 <= i < |d| ==> d[i].1 > 0
  }

  /** Count one more `k`: increment its counter, or create it with 1 at the end. */
  function Bump(d: Dict<nat>, k: string): Dict<nat> {
    match Find(d, k)
    case Some(i) => d[i := (k, d[i].1 + 1)]
    case None => d + [(k, 1)]
  }

  lemma {:induction false} TotalUpdate(d: Dict<nat>, i: nat, e: (string, nat))
    requires i < |d|
    ensures Total(d[i := e]) + d[i].1 == Total(d) + e.1
  {
    var n := |d|;
    if i < n - 1 {
      assert d[i := e][..n - 1] == d[..n - 1][i := e];
      TotalUpdate(d[..n - 1], i, e);
    } else {
      assert d[i := e][..n - 1] == d[..n - 1];
    }
  }

  lemma {:induction false} EntryBelowTotal(d: Dict<nat>, i: nat)
    requires i < |d|
    ensures d[i].1 <= Total(d)
  {
    if i < |d| - 1 {
      EntryBelowTotal(d[..|d| - 1], i);
    }
  }

  /** A counter is at most its total. */
  lemma CountBelowTotal(d: Dict<nat>, k: string)
    ensures CountOf(d, k) <= Total(d)
  {
    if Find(d, k).Some? {
      EntryBelowTotal(d, Find(d, k).value);
    }
  }

  /** A positive counter with at least one entry has a positive total. */
  lemma PositiveTotal(d: Dict<nat>)
    requires Positive(d) && |d| > 0
    ensures Total(d) > 0
  {
    EntryBelowTotal(d, 0);
  }

  /** Bumping `k` adds one to `k`'s count, creating it if needed, and changes no other count. */
  lemma BumpCount(d: Dict<nat>, k: string, x: string)
    ensures Has(Bump(d, k), x) == (x == k || Has(d, x))
    ensures CountOf(Bump(d, k), x) == CountOf(d, x) + (if x == k then 1 else 0)
  {
    match Find(d, k)
    case Some(i) =>
      FindSameKeys(d[i := (k, d[i].1 + 1)], d, x);
    case None =>
      FindAppend(d, k, 1, x);
  }

  /** Bumping keeps keys distinct and counts positive, and adds one to the total. */
  lemma BumpWell(d: Dict<nat>, k: string)
    requires Distinct(d) && Positive(d)
    ensures Distinct(Bump(d, k)) && Positive(Bump(d, k))
    ensures Total(Bump(d, k)) == Total(d) + 1
  {
    match Find(d, k)
    case Some(i) =>
      TotalUpdate(d, i, (k, d[i].1 + 1));
    case None =>
      assert (d + [(k, 1)])[..|d|] == d;
  }

  // ---------------------------------------------------------------- the words dictionary

  /** The count of node `t`, 0 for a token without a node. */
  function CntOf(words: Words, t: Token): nat {
    match Find(words, t)
    case Some(i) => words[i].1.cnt
    case None => 0
  }

  /** The count of the edge from `s` to `d`, 0 when there is no such edge. */
  function EdgeCnt(words: Words, s: Token, d: Token): nat {
    match Find(words, s)
    case Some(i) => CountOf(words[i].1.dst, d)
    case None => 0
  }

  /** What the counting pass keeps true: distinct keys everywhere, positive edge
      counts, and every node's count equal to the sum of its edge counts. */
  ghost predicate WellCounted(words: Words) {
    && Distinct(words)
    && forall i :: 0 <= i < |words| ==>
         && Distinct(words[i].1.dst)
         && Positive(words[i].1.dst)
         && words[i].1.cnt == Total(words[i].1.dst)
  }

  /** The two sentinel nodes the pass starts from, with count 0 and no successors. */
  const Init: Words := [(START, Tally(0, [])), (END, Tally(0, []))]

  /** The initial dictionary holds exactly the sentinels, with no counts. */
  lemma InitFacts(s: Token, d: Token)
    ensures WellCounted(Init)
    ensures Has(Init, s) == IsSentinel(s)
    ensures CntOf(Init, s) == 0 && EdgeCnt(Init, s, d) == 0
  {
    assert START[0] != END[0];
    FindAt(Init, START, 0);
    FindAt(Init, END, 1);
    assert CountOf([], d) == 0;
  }

  /** The successor of position `i`: the next token, or END after the last. */
  function Child(tw: seq<Token>, i: nat): Token
    requires i < |tw|
  {
    if i != |tw| - 1 then tw[i + 1] else END
  }

  /** One occurrence of `w` followed by `child`: `w`'s node is created with
      count 1 or incremented, and its edge to `child` is created or incremented. */
  function Occur(words: Words, w: Token, child: Token): Words {
    match Find(words, w)
    case Some(i) => words[i := (w, Tally(words[i].1.cnt + 1, Bump(words[i].1.dst, child)))]
    case None => words + [(w, Tally(1, Bump([], child)))]
  }

  /** The first `k` positions of one tweet. */
  function Steps(words: Words, tw: seq<Token>, k: nat): Words
    requires k <= |tw|
  {
    if k == 0 then words else Occur(Steps(words, tw, k - 1), tw[k - 1], Child(tw, k - 1))
  }

  /** One whole tweet: START's link to its first token, then every position. */
  function AddTweet(words: Words, tw: seq<Token>): Words {
    Steps(if |tw| > 0 then Occur(words, START, tw[0]) else words, tw, |tw|)
  }

  /** The counting pass over the first `n` tweets of the corpus. */
  function Count(tweets: seq<seq<Token>>, n: nat): Words
    requires n <= |tweets|
  {
    if n == 0 then Init else AddTweet(Count(tweets, n - 1), tweets[n - 1])
  }

  // ---------------------------------------------------------------- reference counts

  /** How many of the first `k` positions of `tw` hold `t`. */
  ghost function Freq(tw: seq<Token>, k: nat, t: Token): nat
    requires k <= |tw|
  {
    if k == 0 then 0 else Freq(tw, k - 1, t) + (if tw[k - 1] == t then 1 else 0)
  }

  /** How often `t` occurs in the first `n` tweets. */
  ghost function Occurrences(tweets: seq<seq<Token>>, n: nat, t: Token): nat
    requires n <= |tweets|
  {
    if n == 0 then 0 else Occurrences(tweets, n - 1, t) + Freq(tweets[n - 1], |tweets[n - 1]|, t)
  }

  /** How many of the first `k` positions of `tw` hold `s` followed by `d`. */
  ghost function Pairs(tw: seq<Token>, k: nat, s: Token, d: Token): nat
    requires k <= |tw|
  {
    if k == 0 then 0
    else Pairs(tw, k - 1, s, d) + (if tw[k - 1] == s && Child(tw, k - 1) == d then 1 else 0)
  }

  /** How often `s` is followed by `d` (or ends a tweet, for `d == END`) in the first `n` tweets. */
  ghost function Successions(tweets: seq<seq<Token>>, n: nat, s: Token, d: Token): nat
    requires n <= |tweets|
  {
    if n == 0 then 0 else Successions(tweets, n - 1, s, d) + Pairs(tweets[n - 1], |tweets[n - 1]|, s, d)
  }

  /** The number of tweets with at least one token among the first `n`. */
  ghost function NonEmpty(tweets: seq<seq<Token>>, n: nat): nat
    requires n <= |tweets|
  {
    if n == 0 then 0 else NonEmpty(tweets, n - 1) + (if |tweets[n - 1]| > 0 then 1 else 0)
  }

  /** The number of tweets among the first `n` whose first token is `t`. */
  ghost function Starts(tweets: seq<seq<Token>>, n: nat, t: Token): nat
    requires n <= |tweets|
  {
    if n == 0 then 0 else Starts(tweets, n - 1, t) + (if |tweets[n - 1]| > 0 && tweets[n - 1][0] == t then 1 else 0)
  }

  /** A token at no position is not counted. */
  lemma {:induction false} FreqAbsent(tw: seq<Token>, k: nat, t: Token)
    requires k <= |tw| && forall j :: 0 <= j < k ==> tw[j] != t
    ensures Freq(tw, k, t) == 0
  {
    if k > 0 {
      FreqAbsent(tw, k - 1, t);
    }
  }

  /** A token at some position is counted. */
  lemma {:induction false} FreqAt(tw: seq<Token>, k: nat, j: nat)
    requires j < k <= |tw|
    ensures Freq(tw, k, tw[j]) > 0
  {
    if j < k - 1 {
      FreqAt(tw, k - 1, j);
    }
  }

  // ---------------------------------------------------------------- the counting pass, counted

  /** Incrementing node `i` and one of its edges keeps the invariant. */
  lemma OccurKnownWell(words: Words, i: nat, child: Token)
    requires WellCounted(words) && i < |words|
    ensures WellCounted(words[i := (words[i].0, Tally(words[i].1.cnt + 1, Bump(words[i].1.dst, child)))])
  {
    var e := words[i].1;
    BumpWell(e.dst, child);
    var r := words[i := (words[i].0, Tally(e.cnt + 1, Bump(e.dst, child)))];
    assert forall j :: 0 <= j < |r| ==> r[j].0 == words[j].0;
    forall j | 0 <= j < |r|
      ensures Distinct(r[j].1.dst) && Positive(r[j].1.dst) && r[j].1.cnt == Total(r[j].1.dst)
    {
      if j != i {
        assert r[j] == words[j];
      }
    }
  }

  /** Adding a new node with one edge keeps the invariant. */
  lemma OccurNewWell(words: Words, w: Token, child: Token)
    requires WellCounted(words) && !Has(words, w)
    ensures WellCounted(words + [(w, Tally(1, Bump([], child)))])
  {
    BumpWell([], child);
    var r := words + [(w, Tally(1, Bump([], child)))];
    forall j | 0 <= j < |r|
      ensures Distinct(r[j].1.dst) && Positive(r[j].1.dst) && r[j].1.cnt == Total(r[j].1.dst)
    {
      if j < |words| {
        assert r[j] == words[j];
      }
    }
  }

  /** One occurrence keeps the invariant. */
  lemma OccurWell(words: Words, w: Token, child: Token)
    requires WellCounted(words)
    ensures WellCounted(Occur(words, w, child))
  {
    match Find(words, w)
    case Some(i) =>
      OccurKnownWell(words, i, child);
    case None =>
      OccurNewWell(words, w, child);
  }

  /** One occurrence adds `w` as a node and one to its count, and changes no other count. */
  lemma OccurCnt(words: Words, w: Token, child: Token, s: Token)
    ensures Has(Occur(words, w, child), s) == (s == w || Has(words, s))
    ensures CntOf(Occur(words, w, child), s) == CntOf(words, s) + (if s == w then 1 else 0)
  {
    match Find(words, w)
    case Some(i) =>
      FindSameKeys(Occur(words, w, child), words, s);
    case None =>
      FindAppend(words, w, Tally(1, Bump([], child)), s);
  }

  /** One occurrence adds one to the count of the edge from `w` to `child`, and to no other. */
  lemma OccurEdge(words: Words, w: Token, child: Token, s: Token, d: Token)
    ensures EdgeCnt(Occur(words, w, child), s, d) == EdgeCnt(words, s, d) + (if s == w && d == child then 1 else 0)
  {
    match Find(words, w)
    case Some(i) =>
      FindSameKeys(Occur(words, w, child), words, s);
      BumpCount(words[i].1.dst, child, d);
    case None =>
      FindAppend(words, w, Tally(1, Bump([], child)), s);
      BumpCount([], child, d);
  }

  /** The positions of one tweet keep the invariant. */
  lemma {:induction false} StepsWell(words: Words, tw: seq<Token>, k: nat)
    requires k <= |tw| && WellCounted(words)
    ensures WellCounted(Steps(words, tw, k))
  {
    if k > 0 {
      StepsWell(words, tw, k - 1);
      OccurWell(Steps(words, tw, k - 1), tw[k - 1], Child(tw, k - 1));
    }
  }

  /** The positions of one tweet add the tweet's tokens as nodes. */
  lemma {:induction false} StepsHas(words: Words, tw: seq<Token>, k: nat, s: Token)
    requires k <= |tw|
    ensures Has(Steps(words, tw, k), s) == (Has(words, s) || Freq(tw, k, s) > 0)
  {
    if k > 0 {
      StepsHas(words, tw, k - 1, s);
      OccurCnt(Steps(words, tw, k - 1), tw[k - 1], Child(tw, k - 1), s);
    }
  }

  /** The positions of one tweet add their occurrences to the node counts. */
  lemma {:induction false} StepsCnt(words: Words, tw: seq<Token>, k: nat, s: Token)
    requires k <= |tw|
    ensures CntOf(Steps(words, tw, k), s) == CntOf(words, s) + Freq(tw, k, s)
  {
    if k > 0 {
      StepsCnt(words, tw, k - 1, s);
      OccurCnt(Steps(words, tw, k - 1), tw[k - 1], Child(tw, k - 1), s);
    }
  }

  /** The positions of one tweet add their successions to the edge counts. */
  lemma {:induction false} StepsEdge(words: Words, tw: seq<Token>, k: nat, s: Token, d: Token)
    requires k <= |tw|
    ensures EdgeCnt(Steps(words, tw, k), s, d) == EdgeCnt(words, s, d) + Pairs(tw, k, s, d)
  {
    if k > 0 {
      StepsEdge(words, tw, k - 1, s, d);
      OccurEdge(Steps(words, tw, k - 1), tw[k - 1], Child(tw, k - 1), s, d);
    }
  }

  /** One tweet keeps the invariant. */
  lemma AddTweetWell(words: Words, tw: seq<Token>)
    requires WellCounted(words)
    ensures WellCounted(AddTweet(words, tw))
  {
    if |tw| > 0 {
      OccurWell(words, START, tw[0]);
      StepsWell(Occur(words, START, tw[0]), tw, |tw|);
    } else {
      StepsWell(words, tw, |tw|);
    }
  }

  /** One tweet adds its tokens as nodes (and START, when it is not empty). */
  lemma AddTweetHas(words: Words, tw: seq<Token>, s: Token)
    ensures Has(AddTweet(words, tw), s) == (Has(words, s) || Freq(tw, |tw|, s) > 0 || (s == START && |tw| > 0))
  {
    if |tw| > 0 {
      OccurCnt(words, START, tw[0], s);
      StepsHas(Occur(words, START, tw[0]), tw, |tw|, s);
    } else {
      StepsHas(words, tw, |tw|, s);
    }
  }

  /** One tweet adds its occurrences to the node counts (and one to START's, when it is not empty). */
  lemma AddTweetCnt(words: Words, tw: seq<Token>, s: Token)
    ensures CntOf(AddTweet(words, tw), s)
         == CntOf(words, s) + Freq(tw, |tw|, s) + (if s == START && |tw| > 0 then 1 else 0)
  {
    if |tw| > 0 {
      OccurCnt(words, START, tw[0], s);
      StepsCnt(Occur(words, START, tw[0]), tw, |tw|, s);
    } else {
      StepsCnt(words, tw, |tw|, s);
    }
  }

  /** One tweet adds its successions to the edge counts (and its first token to START's). */
  lemma AddTweetEdge(words: Words, tw: seq<Token>, s: Token, d: Token)
    ensures EdgeCnt(AddTweet(words, tw), s, d)
         == EdgeCnt(words, s, d) + Pairs(tw, |tw|, s, d) + (if s == START && |tw| > 0 && d == tw[0] then 1 else 0)
  {
    if |tw| > 0 {
      OccurEdge(words, START, tw[0], s, d);
      StepsEdge(Occur(words, START, tw[0]), tw, |tw|, s, d);
    } else {
      StepsEdge(words, tw, |tw|, s, d);
    }
  }

  /** The counting pass keeps its invariant. */
  lemma {:induction false} CountWell(tweets: seq<seq<Token>>, n: nat)
    requires n <= |tweets|
    ensures WellCounted(Count(tweets, n))
  {
    if n == 0 {
      InitFacts(START, START);
    } else {
      CountWell(tweets, n - 1);
      AddTweetWell(Count(tweets, n - 1), tweets[n - 1]);
    }
  }

  /** The counting pass has nodes for exactly the sentinels and the tokens that occur. */
  lemma {:induction false} CountHas(tweets: seq<seq<Token>>, n: nat, s: Token)
    requires n <= |tweets|
    ensures Has(Count(tweets, n), s) == (IsSentinel(s) || Occurrences(tweets, n, s) > 0)
  {
    if n == 0 {
      InitFacts(s, s);
    } else {
      CountHas(tweets, n - 1, s);
      CountHas(tweets, n - 1, START);
      AddTweetHas(Count(tweets, n - 1), tweets[n - 1], s);
    }
  }

  /** Node counts are occurrence counts; START's is the number of non-empty tweets. */
  lemma {:induction false} CountCnt(tweets: seq<seq<Token>>, n: nat, s: Token)
    requires n <= |tweets|
    ensures CntOf(Count(tweets, n), s) == Occurrences(tweets, n, s) + (if s == START then NonEmpty(tweets, n) else 0)
  {
    if n == 0 {
      InitFacts(s, s);
    } else {
      CountCnt(tweets, n - 1, s);
      AddTweetCnt(Count(tweets, n - 1), tweets[n - 1], s);
    }
  }

  /** Edge counts are succession counts; START's are first-token counts. */
  lemma {:induction false} CountEdge(tweets: seq<seq<Token>>, n: nat, s: Token, d: Token)
    requires n <= |tweets|
    ensures EdgeCnt(Count(tweets, n), s, d) == Successions(tweets, n, s, d) + (if s == START then Starts(tweets, n, d) else 0)
  {
    if n == 0 {
      InitFacts(s, d);
    } else {
      CountEdge(tweets, n - 1, s, d);
      AddTweetEdge(Count(tweets, n - 1), tweets[n - 1], s, d);
    }
  }

  /** A token that ends up as a successor occurs in the tweet (unless it is END). */
  lemma {:induction false} PairsTarget(tw: seq<Token>, k: nat, s: Token, d: Token)
    requires k <= |tw| && Pairs(tw, k, s, d) > 0 && d != END
    ensures Freq(tw, |tw|, d) > 0
  {
    if tw[k - 1] == s && Child(tw, k - 1) == d {
      FreqAt(tw, |tw|, k);
    } else {
      PairsTarget(tw, k - 1, s, d);
    }
  }

  /** A token that has a successor occurs in the tweet. */
  lemma {:induction false} PairsSource(tw: seq<Token>, k: nat, s: Token, d: Token)
    requires k <= |tw| && Pairs(tw, k, s, d) > 0
    ensures Freq(tw, k, s) > 0
  {
    if !(tw[k - 1] == s && Child(tw, k - 1) == d) {
      PairsSource(tw, k - 1, s, d);
    }
  }

  lemma {:induction false} SuccessionsTarget(tweets: seq<seq<Token>>, n: nat, s: Token, d: Token)
    requires n <= |tweets| && Successions(tweets, n, s, d) > 0 && d != END
    ensures Occurrences(tweets, n, d) > 0
  {
    var last := tweets[n - 1];
    if Pairs(last, |last|, s, d) > 0 {
      PairsTarget(last, |last|, s, d);
    } else {
      SuccessionsTarget(tweets, n - 1, s, d);
    }
  }

  lemma {:induction false} StartsTarget(tweets: seq<seq<Token>>, n: nat, d: Token)
    requires n <= |tweets| && Starts(tweets, n, d) > 0
    ensures Occurrences(tweets, n, d) > 0
  {
    var last := tweets[n - 1];
    if |last| > 0 && last[0] == d {
      FreqAt(last, |last|, 0);
    } else {
      StartsTarget(tweets, n - 1, d);
    }
  }

  /** Every edge of the counted corpus leads to a node: the chain is closed under `dst`. */
  lemma CountClosed(tweets: seq<seq<Token>>, i: nat, j: nat)
    requires i < |Count(tweets, |tweets|)| && j < |Count(tweets, |tweets|)[i].1.dst|
    ensures Has(Count(tweets, |tweets|), Count(tweets, |tweets|)[i].1.dst[j].0)
  {
    var n := |tweets|;
    var words := Count(tweets, n);
    var s, d := words[i].0, words[i].1.dst[j].0;
    CountWell(tweets, n);
    CountEdge(tweets, n, s, d);
    FindDistinct(words, i);
    FindDistinct(words[i].1.dst, j);
    assert EdgeCnt(words, s, d) > 0;
    if d != END {
      if Successions(tweets, n, s, d) > 0 {
        SuccessionsTarget(tweets, n, s, d);
      } else {
        StartsTarget(tweets, n, d);
      }
    }
    CountHas(tweets, n, d);
  }

  /** Sentinel tokens never occur in a corpus without sentinels. */
  lemma {:induction false} SentinelNeverOccurs(tweets: seq<seq<Token>>, n: nat, t: Token, d: Token)
    requires n <= |tweets| && NoSentinel(tweets) && IsSentinel(t)
    ensures Occurrences(tweets, n, t) == 0
    ensures Successions(tweets, n, t, d) == 0
  {
    if n > 0 {
      var last := tweets[n - 1];
      SentinelNeverOccurs(tweets, n - 1, t, d);
      assert forall j :: 0 <= j < |last| ==> last[j] != t by {
        forall j | 0 <= j < |last| ensures last[j] != t {
          assert !IsSentinel(tweets[n - 1][j]);
        }
      }
      FreqAbsent(last, |last|, t);
      if Pairs(last, |last|, t, d) > 0 {
        PairsSource(last, |last|, t, d);
      }
    }
  }

  /** The source's statements that increment or create one counter compute Bump. */
  lemma BumpStatements(d: Dict<nat>, k: Token, r: Dict<nat>)
    requires r == if Has(d, k) then Put(d, k, Get(d, k) + 1) else Put(d, k, 1)
    ensures r == Bump(d, k)
  {
  }

  /** The source's statements for START's link to a tweet's first token:
      increment START's count and bump its edge to `first`. */
  method LinkStart(words: Words, first: Token) returns (r: Words)
    requires Has(words, START)
    ensures r == Occur(words, START, first)
  {
    var cur := Get(words, START);
    var dst := if Has(cur.dst, first) then Put(cur.dst, first, Get(cur.dst, first) + 1) else Put(cur.dst, first, 1);
    BumpStatements(cur.dst, first, dst);
    r := Put(words, START, Tally(cur.cnt + 1, dst));
  }

  /** The source's statements for one occurrence of `word` followed by `child`:
      create the node with count 1 or increment its count, then bump its edge
      to the child and store the node back. */
  method CountOccurrence(words: Words, word: Token, child: Token) returns (r: Words)
    ensures r == Occur(words, word, child)
  {
    var node := if !Has(words, word) then Tally(1, []) else Tally(Get(words, word).cnt + 1, Get(words, word).dst);
    r := Put(words, word, node);
    PutGet(words, word, node, word);
    var cur := Get(r, word);
    var dst := if Has(cur.dst, child) then Put(cur.dst, child, Get(cur.dst, child) + 1) else Put(cur.dst, child, 1);
    BumpStatements(cur.dst, child, dst);
    PutPut(words, word, node, Tally(cur.cnt, dst));
    r := Put(r, word, Tally(cur.cnt, dst));
  }

  /** One tweet's statements take the counting pass one tweet further. */
  lemma TweetStatements(tweets: seq<seq<Token>>, i: nat, before: Words, r: Words)
    requires i < |tweets|
    requires before == if |tweets[i]| > 0 then Occur(Count(tweets, i), START, tweets[i][0]) else Count(tweets, i)
    requires r == Steps(before, tweets[i], |tweets[i]|)
    ensures r == Count(tweets, i + 1)
  {
  }

  /** What the counting pass promises, for every token and every pair of tokens. */
  lemma CountCharacterised(tweets: seq<seq<Token>>)
    ensures WellCounted(Count(tweets, |tweets|))
    ensures forall t :: Has(Count(tweets, |tweets|), t) == (IsSentinel(t) || Occurrences(tweets, |tweets|, t) > 0)
    ensures forall t :: CntOf(Count(tweets, |tweets|), t)
                     == Occurrences(tweets, |tweets|, t) + (if t == START then NonEmpty(tweets, |tweets|) else 0)
    ensures forall s, d :: EdgeCnt(Count(tweets, |tweets|), s, d)
                        == Successions(tweets, |tweets|, s, d) + (if s == START then Starts(tweets, |tweets|, d) else 0)
  {
    CountWell(tweets, |tweets|);
    forall t
      ensures Has(Count(tweets, |tweets|), t) == (IsSentinel(t) || Occurrences(tweets, |tweets|, t) > 0)
      ensures CntOf(Count(tweets, |tweets|), t)
           == Occurrences(tweets, |tweets|, t) + (if t == START then NonEmpty(tweets, |tweets|) else 0)
    {
      CountHas(tweets, |tweets|, t);
      CountCnt(tweets, |tweets|, t);
    }
    forall s, d
      ensures EdgeCnt(Count(tweets, |tweets|), s, d)
           == Successions(tweets, |tweets|, s, d) + (if s == START then Starts(tweets, |tweets|, d) else 0)
    {
      CountEdge(tweets, |tweets|, s, d);
    }
  }

  /** The counting loops of the source, nested as there. */
  method CountTweets(tweets: seq<seq<Token>>) returns (words: Words)
    ensures words == Count(tweets, |tweets|)
    ensures WellCounted(words)
    ensures forall t :: Has(words, t) == (IsSentinel(t) || Occurrences(tweets, |tweets|, t) > 0)
    ensures forall t :: CntOf(words, t) == Occurrences(tweets, |tweets|, t) + (if t == START then NonEmpty(tweets, |tweets|) else 0)
    ensures forall s, d :: EdgeCnt(words, s, d) == Successions(tweets, |tweets|, s, d) + (if s == START then Starts(tweets, |tweets|, d) else 0)
  {
    words := [(START, Tally(0, [])), (END, Tally(0, []))];
    var i := 0;
    while i < |tweets|
      invariant 0 <= i <= |tweets|
      invariant words == Count(tweets, i)
    {
      var tw := tweets[i];
      if |tw| > 0 {
        CountHas(tweets, i, START);
        words := LinkStart(words, tw[0]);
      }
      ghost var before := words;
      var index := 0;
      while index < |tw|
        invariant 0 <= index <= |tw|
        invariant words == Steps(before, tw, index)
      {
        var child := if index != |tw| - 1 then tw[index + 1] else END;
        words := CountOccurrence(words, tw[index], child);
        index := index + 1;
      }
      TweetStatements(tweets, i, before, words);
      i := i + 1;
    }
    CountCharacterised(tweets);
  }
}
