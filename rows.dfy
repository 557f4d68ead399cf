/** The tables of tweets_util.py: `build_markov_chain` (tweets_util.py:47-112)
    counts the corpus as markov.py does and writes the chain as one row per
    node and one row per edge; `get_markov_chain` (tweets_util.py:115-130)
    rebuilds a chain from those rows and gives every node its share of all
    counts. The database is not modelled: the rows written are the result,
    the rows read are the input, both in the order they were written. */
module Tables {
  import opened Wrappers
  import opened Tokens
  import opened Dicts
  import opened Counting
  import opened Chains
  import opened Sanitizer
  import opened MarkovBuild
  import opened Fragments

  /** A row of `markov_nodes`. */
  datatype NodeRow = NodeRow(word: Token, cnt: nat)

  /** A row of `markov_link`. */
  datatype LinkRow = LinkRow(src: Token, dst: Token, cnt: nat, probability: real)

  /** The token lists this builder counts: hashtags and handles removed, then
      `tokenize` (which here also stands for the URL substitution), then
      lower-cased. */
  function TableTokens(content: seq<string>, tokenize: string -> seq<Token>): (tweets: seq<seq<Token>>)
    ensures |tweets| == |content|
    ensures NoSentinel(tweets)
  {
    var raw := seq(|content|, i requires 0 <= i < |content| => tokenize(RemoveTags(content[i])));
    LowerAllNoSentinel(raw);
    LowerAll(raw)
  }

  // ---------------------------------------------------------------- writing the rows

  /** One node row per key, in the dictionary's order. */
  function NodeRows(words: Words): seq<NodeRow> {
    seq(|words|, i requires 0 <= i < |words| => NodeRow(words[i].0, words[i].1.cnt))
  }

  /** Every node with successors has a count to divide by. */
  ghost predicate Emittable(words: Words) {
    forall i :: 0 <= i < |words| ==> |words[i].1.dst| == 0 || words[i].1.cnt > 0
  }

  /** The link rows of one node: every successor with its count and that
      count over the node's own count. */
  function LinkRowsOf(w: Token, t: Tally): seq<LinkRow>
    requires |t.dst| == 0 || t.cnt > 0
  {
    seq(|t.dst|, j requires 0 <= j < |t.dst| => LinkRow(w, t.dst[j].0, t.dst[j].1, t.dst[j].1 as real / t.cnt as real))
  }

  /** The link rows of the first `n` nodes. */
  function LinkRows(words: Words, n: nat): seq<LinkRow>
    requires n <= |words| && Emittable(words)
  {
    if n == 0 then [] else LinkRows(words, n - 1) + LinkRowsOf(words[n - 1].0, words[n - 1].1)
  }

  /** A counted dictionary can be written out. */
  lemma WellEmittable(words: Words)
    requires WellCounted(words)
    ensures Emittable(words)
  {
    forall i | 0 <= i < |words| && |words[i].1.dst| > 0
      ensures words[i].1.cnt > 0
    {
      PositiveTotal(words[i].1.dst);
    }
  }

  /** The rows the builder writes for a corpus of token lists. */
  function Tables(tweets: seq<seq<Token>>): (seq<NodeRow>, seq<LinkRow>) {
    CountWell(tweets, |tweets|);
    WellEmittable(Count(tweets, |tweets|));
    (NodeRows(Count(tweets, |tweets|)), LinkRows(Count(tweets, |tweets|), |Count(tweets, |tweets|)|))
  }

  /** `build_markov_chain` of tweets_util.py: count, then write the node rows
      and the link rows. */
  method BuildTables(content: seq<string>, tokenize: string -> seq<Token>) returns (nodes: seq<NodeRow>, links: seq<LinkRow>)
    ensures (nodes, links) == Tables(TableTokens(content, tokenize))
  {
    var tweets := TableTokens(content, tokenize);
    var words := CountTweets(tweets);
    WellEmittable(words);
    nodes, links := EmitRows(words);
  }

  /** The two insertion loops: a node row per key, then a link row per
      successor of every key. */
  method EmitRows(words: Words) returns (nodes: seq<NodeRow>, links: seq<LinkRow>)
    requires Emittable(words)
    ensures nodes == NodeRows(words)
    ensures links == LinkRows(words, |words|)
  {
    nodes := [];
    var i := 0;
    while i < |words|
      invariant 0 <= i <= |words|
      invariant nodes == NodeRows(words)[..i]
    {
      nodes := nodes + [NodeRow(words[i].0, words[i].1.cnt)];
      assert NodeRows(words)[..i + 1] == NodeRows(words)[..i] + [NodeRows(words)[i]];
      i := i + 1;
    }
    links := [];
    i := 0;
    while i < |words|
      invariant 0 <= i <= |words|
      invariant links == LinkRows(words, i)
    {
      var word := words[i].0;
      var dst := words[i].1.dst;
      ghost var block := LinkRowsOf(word, words[i].1);
      var j := 0;
      while j < |dst|
        invariant 0 <= j <= |dst|
        invariant links == LinkRows(words, i) + block[..j]
      {
        links := links + [LinkRow(word, dst[j].0, dst[j].1, dst[j].1 as real / words[i].1.cnt as real)];
        assert block[..j + 1] == block[..j] + [block[j]];
        j := j + 1;
      }
      assert block[..|dst|] == block;
      i := i + 1;
    }
  }

  // ---------------------------------------------------------------- reading them back

  /** `SELECT SUM(cnt) FROM markov_nodes`. */
  function RowTotal(nodes: seq<NodeRow>): nat {
    if |nodes| == 0 then 0 else RowTotal(nodes[..|nodes| - 1]) + nodes[|nodes| - 1].cnt
  }

  /** The chain after the node rows: every word with its count, its share of
      `total` and no successors; a repeated word overwrites the earlier one. */
  function LoadNodes(nodes: seq<NodeRow>, total: real): Chain
    requires total != 0.0
  {
    if |nodes| == 0 then []
    else
      var last := nodes[|nodes| - 1];
      Put(LoadNodes(nodes[..|nodes| - 1], total), last.word, Node(last.cnt, Some(last.cnt as real / total), []))
  }

  /** One link row stored under its source node. */
  function Attach(chain: Chain, link: LinkRow): Chain
    requires Has(chain, link.src)
  {
    var node := Get(chain, link.src);
    Put(chain, link.src, node.(dst := Put(node.dst, link.dst, Edge(link.cnt, link.probability))))
  }

  /** The link rows stored one after the other; KeyError at the first row
      whose source is not a node. */
  function LoadLinks(chain: Chain, links: seq<LinkRow>): Result<Chain, Exception>
    decreases |links|
  {
    if |links| == 0 then Ok(chain)
    else if !Has(chain, links[0].src) then Err(KeyError)
    else LoadLinks(Attach(chain, links[0]), links[1..])
  }

  /** The rebuilt chain. With no node rows the sum is NULL and `float(None)`
      raises TypeError; with a sum of 0 the first share raises
      ZeroDivisionError. */
  function Rebuild(nodes: seq<NodeRow>, links: seq<LinkRow>): Result<Chain, Exception> {
    if |nodes| == 0 then Err(TypeError)
    else if RowTotal(nodes) == 0 then Err(ZeroDivisionError)
    else LoadLinks(LoadNodes(nodes, RowTotal(nodes) as real), links)
  }

  /** `get_markov_chain` of tweets_util.py, over the rows of the two tables. */
  method GetMarkovChain(nodes: seq<NodeRow>, links: seq<LinkRow>) returns (r: Result<Chain, Exception>)
    ensures r == Rebuild(nodes, links)
  {
    if |nodes| == 0 {
      return Err(TypeError);
    }
    var total := RowTotal(nodes) as real;
    if total == 0.0 {
      return Err(ZeroDivisionError);
    }
    var chain: Chain := [];
    var i := 0;
    while i < |nodes|
      invariant 0 <= i <= |nodes|
      invariant chain == LoadNodes(nodes[..i], total)
    {
      var entry := nodes[i];
      chain := Put(chain, entry.word, Node(entry.cnt, Some(entry.cnt as real / total), []));
      assert nodes[..i + 1][..i] == nodes[..i];
      i := i + 1;
    }
    assert nodes[..|nodes|] == nodes;
    ghost var loaded := chain;
    i := 0;
    while i < |links|
      invariant 0 <= i <= |links|
      invariant LoadLinks(loaded, links) == LoadLinks(chain, links[i..])
    {
      var link := links[i];
      if !Has(chain, link.src) {
        return Err(KeyError);
      }
      var node := Get(chain, link.src);
      chain := Put(chain, link.src, node.(dst := Put(node.dst, link.dst, Edge(link.cnt, link.probability))));
      assert links[i..][1..] == links[i + 1..];
      i := i + 1;
    }
    return Ok(chain);
  }

  // ---------------------------------------------------------------- what rebuilding gives

  /** Some node row names `w`. */
  ghost predicate Named(nodes: seq<NodeRow>, w: Token) {
    exists i :: 0 <= i < |nodes| && nodes[i].word == w
  }

  /** `d` is stored among the successors of node `s`. */
  ghost predicate HasEdge(chain: Chain, s: Token, d: Token) {
    Has(chain, s) && Has(Get(chain, s).dst, d)
  }

  /** The last node row naming `w`: the one whose count `get_markov_chain`
      keeps, since each row overwrites the node. */
  function LastNamed(nodes: seq<NodeRow>, w: Token): (r: Option<nat>)
    ensures r.Some? ==> r.value < |nodes| && nodes[r.value].word == w
    ensures r.Some? ==> forall i :: r.value < i < |nodes| ==> nodes[i].word != w
    ensures r.None? ==> forall i :: 0 <= i < |nodes| ==> nodes[i].word != w
  {
    if |nodes| == 0 then None
    else if nodes[|nodes| - 1].word == w then Some(|nodes| - 1)
    else LastNamed(nodes[..|nodes| - 1], w)
  }

  /** The last link row from `s` to `d`: the one whose edge is kept. */
  function LastLink(links: seq<LinkRow>, s: Token, d: Token): (r: Option<nat>)
    ensures r.Some? ==> r.value < |links| && links[r.value].src == s && links[r.value].dst == d
    ensures r.Some? ==> forall k :: r.value < k < |links| ==> links[k].src != s || links[k].dst != d
    ensures r.None? ==> forall k :: 0 <= k < |links| ==> links[k].src != s || links[k].dst != d
  {
    if |links| == 0 then None
    else if links[|links| - 1].src == s && links[|links| - 1].dst == d then Some(|links| - 1)
    else LastLink(links[..|links| - 1], s, d)
  }

  /** The last matching row of a list is the last one of its tail, moved by
      one, or else its head when that matches. */
  lemma LastLinkFront(links: seq<LinkRow>, s: Token, d: Token)
    requires |links| > 0
    ensures LastLink(links, s, d) ==
      match LastLink(links[1..], s, d)
      case Some(k) => Some(k + 1)
      case None => if links[0].src == s && links[0].dst == d then Some(0) else None
  {
    var l := LastLink(links, s, d);
    var m := LastLink(links[1..], s, d);
    if m.Some? {
      assert links[1..][m.value] == links[m.value + 1];
    }
    if l.Some? && l.value > 0 {
      assert links[1..][l.value - 1] == links[l.value];
    }
  }

  /** The edge stored from `s` to `d`. */
  ghost function EdgeAt(chain: Chain, s: Token, d: Token): Edge
    requires HasEdge(chain, s, d)
  {
    Get(Get(chain, s).dst, d)
  }

  /** Two chains with the same keys, counts and own probabilities, in the same order. */
  ghost predicate SameNodes(a: Chain, b: Chain) {
    |a| == |b| && forall i :: 0 <= i < |a| ==> a[i].0 == b[i].0 && a[i].1.cnt == b[i].1.cnt && a[i].1.prob == b[i].1.prob
  }

  /** Every node carries its share of `total` as its own probability. */
  ghost predicate Shared(chain: Chain, total: real)
    requires total != 0.0
  {
    forall i :: 0 <= i < |chain| ==> chain[i].1.prob == Some(chain[i].1.cnt as real / total)
  }

  /** The node rows give a node for exactly the words they name, each with
      its share of `total` and no successors yet. */
  lemma {:induction false} LoadNodesFacts(nodes: seq<NodeRow>, total: real, w: Token)
    requires total != 0.0
    ensures Has(LoadNodes(nodes, total), w) <==> Named(nodes, w)
    ensures Shared(LoadNodes(nodes, total), total)
  {
    if |nodes| > 0 {
      var prefix := nodes[..|nodes| - 1];
      var last := nodes[|nodes| - 1];
      LoadNodesFacts(prefix, total, w);
      PutGet(LoadNodes(prefix, total), last.word, Node(last.cnt, Some(last.cnt as real / total), []), w);
      if Named(prefix, w) {
        var i :| 0 <= i < |prefix| && prefix[i].word == w;
        assert nodes[i].word == w;
      }
      if Named(nodes, w) && last.word != w {
        var i :| 0 <= i < |nodes| && nodes[i].word == w;
        assert prefix[i].word == w;
      }
    }
  }

  /** Storing a link row keeps every key, count and own probability, adds
      exactly the row's edge, and leaves every other edge as it was. */
  lemma AttachFacts(chain: Chain, link: LinkRow, s: Token, d: Token)
    requires Has(chain, link.src)
    ensures SameNodes(chain, Attach(chain, link))
    ensures Find(Attach(chain, link), s) == Find(chain, s)
    ensures HasEdge(Attach(chain, link), s, d) <==> HasEdge(chain, s, d) || (s == link.src && d == link.dst)
    ensures HasEdge(Attach(chain, link), s, d) ==>
      EdgeAt(Attach(chain, link), s, d) == if s == link.src && d == link.dst then Edge(link.cnt, link.probability) else EdgeAt(chain, s, d)
  {
    var p := Find(chain, link.src).value;
    var node := chain[p].1;
    var inner := Put(node.dst, link.dst, Edge(link.cnt, link.probability));
    var r := Attach(chain, link);
    assert r == chain[p := (link.src, node.(dst := inner))];
    FindSameKeys(r, chain, s);
    PutGet(node.dst, link.dst, Edge(link.cnt, link.probability), d);
  }

  /** Storing link rows fails exactly when one of them names an unknown
      source, and then with KeyError. */
  lemma {:induction false} LoadLinksFails(chain: Chain, links: seq<LinkRow>)
    ensures LoadLinks(chain, links).Err? <==> exists k :: 0 <= k < |links| && !Has(chain, links[k].src)
    ensures LoadLinks(chain, links).Err? ==> LoadLinks(chain, links).error == KeyError
    decreases |links|
  {
    if |links| > 0 && Has(chain, links[0].src) {
      var next := Attach(chain, links[0]);
      LoadLinksFails(next, links[1..]);
      forall x
        ensures Has(next, x) == Has(chain, x)
      {
        AttachFacts(chain, links[0], x, x);
      }
      if exists k :: 0 <= k < |links| && !Has(chain, links[k].src) {
        var k :| 0 <= k < |links| && !Has(chain, links[k].src);
        assert links[1..][k - 1] == links[k];
      }
      if exists k :: 0 <= k < |links[1..]| && !Has(next, links[1..][k].src) {
        var k :| 0 <= k < |links[1..]| && !Has(next, links[1..][k].src);
        assert links[k + 1] == links[1..][k];
      }
    }
  }

  /** Stored link rows keep the nodes, keep every edge already there, and
      leave the edge of every row in place. */
  lemma {:induction false} LoadLinksKeeps(chain: Chain, links: seq<LinkRow>)
    requires LoadLinks(chain, links).Ok?
    ensures SameNodes(chain, LoadLinks(chain, links).value)
    ensures forall s, d :: HasEdge(chain, s, d) ==> HasEdge(LoadLinks(chain, links).value, s, d)
    ensures forall k :: 0 <= k < |links| ==> HasEdge(LoadLinks(chain, links).value, links[k].src, links[k].dst)
    decreases |links|
  {
    if |links| > 0 {
      var next := Attach(chain, links[0]);
      var r := LoadLinks(chain, links).value;
      LoadLinksKeeps(next, links[1..]);
      AttachFacts(chain, links[0], links[0].src, links[0].dst);
      forall s, d | HasEdge(chain, s, d)
        ensures HasEdge(r, s, d)
      {
        AttachFacts(chain, links[0], s, d);
      }
      forall k | 0 < k < |links|
        ensures HasEdge(r, links[k].src, links[k].dst)
      {
        assert links[1..][k - 1] == links[k];
      }
    }
  }

  /** Each word named by the node rows has the count and share of the last
      row naming it, and no successors yet. */
  lemma {:induction false} LoadNodesNode(nodes: seq<NodeRow>, total: real, w: Token)
    requires total != 0.0
    ensures Has(LoadNodes(nodes, total), w) <==> LastNamed(nodes, w).Some?
    ensures LastNamed(nodes, w).Some? ==>
      Get(LoadNodes(nodes, total), w) == Node(nodes[LastNamed(nodes, w).value].cnt, Some(nodes[LastNamed(nodes, w).value].cnt as real / total), [])
  {
    if |nodes| > 0 {
      var prefix := nodes[..|nodes| - 1];
      var last := nodes[|nodes| - 1];
      LoadNodesNode(prefix, total, w);
      PutGet(LoadNodes(prefix, total), last.word, Node(last.cnt, Some(last.cnt as real / total), []), w);
      if last.word != w && LastNamed(prefix, w).Some? {
        assert nodes[LastNamed(prefix, w).value] == prefix[LastNamed(prefix, w).value];
      }
    }
  }

  /** After the link rows, `d` is a successor of `s` exactly when it was one
      before or some row links them; its edge is the last such row's, or the
      one already there when no row links them. */
  lemma {:induction false} LoadLinksEdge(chain: Chain, links: seq<LinkRow>, s: Token, d: Token)
    requires LoadLinks(chain, links).Ok?
    ensures HasEdge(LoadLinks(chain, links).value, s, d) <==> HasEdge(chain, s, d) || LastLink(links, s, d).Some?
    ensures LastLink(links, s, d).Some? ==>
      EdgeAt(LoadLinks(chain, links).value, s, d) == Edge(links[LastLink(links, s, d).value].cnt, links[LastLink(links, s, d).value].probability)
    ensures LastLink(links, s, d).None? && HasEdge(chain, s, d) ==>
      EdgeAt(LoadLinks(chain, links).value, s, d) == EdgeAt(chain, s, d)
    decreases |links|
  {
    if |links| > 0 {
      var next := Attach(chain, links[0]);
      LoadLinksEdge(next, links[1..], s, d);
      AttachFacts(chain, links[0], s, d);
      LastLinkFront(links, s, d);
      if LastLink(links[1..], s, d).Some? {
        var k := LastLink(links[1..], s, d).value;
        assert links[1..][k] == links[k + 1];
      }
    }
  }

  /** What `get_markov_chain` gives: TypeError for no node rows,
      ZeroDivisionError for counts summing to 0, KeyError exactly when a link
      row names a source no node row names; otherwise a node for exactly the
      words named, each with its share of the sum, and every link row's edge
      stored under its source. */
  lemma RebuildCharacterised(nodes: seq<NodeRow>, links: seq<LinkRow>)
    ensures |nodes| == 0 ==> Rebuild(nodes, links) == Err(TypeError)
    ensures |nodes| > 0 && RowTotal(nodes) == 0 ==> Rebuild(nodes, links) == Err(ZeroDivisionError)
    ensures RowTotal(nodes) > 0 ==>
      (Rebuild(nodes, links).Err? <==> exists k :: 0 <= k < |links| && !Named(nodes, links[k].src))
    ensures RowTotal(nodes) > 0 && Rebuild(nodes, links).Err? ==> Rebuild(nodes, links).error == KeyError
    ensures RowTotal(nodes) > 0 && Rebuild(nodes, links).Ok? ==>
      && (forall w :: Has(Rebuild(nodes, links).value, w) <==> Named(nodes, w))
      && Shared(Rebuild(nodes, links).value, RowTotal(nodes) as real)
      && (forall k :: 0 <= k < |links| ==> HasEdge(Rebuild(nodes, links).value, links[k].src, links[k].dst))
  {
    if RowTotal(nodes) > 0 {
      var total := RowTotal(nodes) as real;
      var loaded := LoadNodes(nodes, total);
      forall w
        ensures Has(loaded, w) <==> Named(nodes, w)
      {
        LoadNodesFacts(nodes, total, w);
      }
      LoadNodesFacts(nodes, total, "");
      LoadLinksFails(loaded, links);
      if LoadLinks(loaded, links).Ok? {
        var r := LoadLinks(loaded, links).value;
        LoadLinksKeeps(loaded, links);
        forall w
          ensures Has(r, w) <==> Named(nodes, w)
        {
          FindSameKeys(r, loaded, w);
        }
      }
    }
  }

  /** The rebuilt chain, key by key: a node for exactly the words named, with
      the count of the last row naming it and that count's share of the sum;
      a successor for exactly the pairs some link row names, with the last
      such row's count and probability. */
  lemma RebuildRows(nodes: seq<NodeRow>, links: seq<LinkRow>, w: Token, d: Token)
    requires Rebuild(nodes, links).Ok?
    ensures RowTotal(nodes) > 0
    ensures Has(Rebuild(nodes, links).value, w) <==> LastNamed(nodes, w).Some?
    ensures LastNamed(nodes, w).Some? ==>
      && Get(Rebuild(nodes, links).value, w).cnt == nodes[LastNamed(nodes, w).value].cnt
      && Get(Rebuild(nodes, links).value, w).prob == Some(nodes[LastNamed(nodes, w).value].cnt as real / RowTotal(nodes) as real)
    ensures HasEdge(Rebuild(nodes, links).value, w, d) <==> LastLink(links, w, d).Some?
    ensures LastLink(links, w, d).Some? ==>
      EdgeAt(Rebuild(nodes, links).value, w, d) == Edge(links[LastLink(links, w, d).value].cnt, links[LastLink(links, w, d).value].probability)
  {
    var total := RowTotal(nodes) as real;
    var loaded := LoadNodes(nodes, total);
    var r := Rebuild(nodes, links).value;
    LoadNodesNode(nodes, total, w);
    LoadLinksKeeps(loaded, links);
    FindSameKeys(r, loaded, w);
    LoadLinksEdge(loaded, links, w, d);
  }

  // ---------------------------------------------------------------- the round trip

  /** markov.py's chain with every node given its share of `total`. */
  function Stamp(chain: Chain, total: real): Chain
    requires total != 0.0
  {
    seq(|chain|, i requires 0 <= i < |chain| => (chain[i].0, chain[i].1.(prob := Some(chain[i].1.cnt as real / total))))
  }

  /** The nodes after the node rows of `words`, before any link row. */
  function Bare(words: Words, total: real): Chain
    requires total != 0.0
  {
    seq(|words|, i requires 0 <= i < |words| => (words[i].0, Node(words[i].1.cnt, Some(words[i].1.cnt as real / total), [])))
  }

  /** The chain once the link rows of the first `m` nodes and the first `j`
      link rows of node `m` are stored. */
  function Partial(words: Words, total: real, m: nat, j: nat): Chain
    requires Emittable(words) && total != 0.0
  {
    seq(|words|, i requires 0 <= i < |words| =>
      (words[i].0, Node(words[i].1.cnt, Some(words[i].1.cnt as real / total),
        if i < m then Shares(words[i].1.dst, words[i].1.cnt)
        else if i == m && j <= |words[i].1.dst| then Shares(words[i].1.dst, words[i].1.cnt)[..j]
        else [])))
  }

  /** The node rows of distinct keys load as those keys, in order. */
  lemma {:induction false} LoadNodeRows(words: Words, total: real)
    requires Distinct(words) && total != 0.0
    ensures LoadNodes(NodeRows(words), total) == Bare(words, total)
  {
    if |words| > 0 {
      var n := |words|;
      var prefix := words[..n - 1];
      assert NodeRows(words)[..n - 1] == NodeRows(prefix);
      LoadNodeRows(prefix, total);
      var key := words[n - 1].0;
      var b := Bare(prefix, total);
      assert Put(b, key, Node(words[n - 1].1.cnt, Some(words[n - 1].1.cnt as real / total), [])) == Bare(words, total);
    }
  }

  /** Storing link row `j` of node `m` grows that node's successors by one. */
  lemma BlockStep(words: Words, total: real, m: nat, j: nat)
    requires WellCounted(words) && Emittable(words) && total != 0.0
    requires m < |words| && j < |words[m].1.dst|
    ensures Has(Partial(words, total, m, j), words[m].0)
    ensures Attach(Partial(words, total, m, j), LinkRowsOf(words[m].0, words[m].1)[j]) == Partial(words, total, m, j + 1)
  {
    var c := Partial(words, total, m, j);
    var t := words[m].1;
    var sh := Shares(t.dst, t.cnt);
    FindAt(c, words[m].0, m);
    var row := LinkRowsOf(words[m].0, t)[j];
    var before := sh[..j];
    assert Put(before, row.dst, Edge(row.cnt, row.probability)) == sh[..j + 1];
    assert c[m := (words[m].0, c[m].1.(dst := sh[..j + 1]))] == Partial(words, total, m, j + 1);
  }

  /** Storing the link rows of node `m` from its `j`-th on completes it. */
  lemma {:induction false} Block(words: Words, total: real, m: nat, j: nat)
    requires WellCounted(words) && Emittable(words) && total != 0.0
    requires m < |words| && j <= |words[m].1.dst|
    ensures LoadLinks(Partial(words, total, m, j), LinkRowsOf(words[m].0, words[m].1)[j..]) == Ok(Partial(words, total, m + 1, 0))
    decreases |words[m].1.dst| - j
  {
    var rows := LinkRowsOf(words[m].0, words[m].1);
    if j == |words[m].1.dst| {
      assert rows[j..] == [];
      BlockDone(words, total, m);
    } else {
      BlockStep(words, total, m, j);
      assert rows[j..][1..] == rows[j + 1..];
      Block(words, total, m, j + 1);
    }
  }

  /** A node whose link rows are all stored is complete. */
  lemma BlockDone(words: Words, total: real, m: nat)
    requires Emittable(words) && total != 0.0 && m < |words|
    ensures Partial(words, total, m, |words[m].1.dst|) == Partial(words, total, m + 1, 0)
  {
    var a := Partial(words, total, m, |words[m].1.dst|);
    var b := Partial(words, total, m + 1, 0);
    forall i | 0 <= i < |words|
      ensures a[i] == b[i]
    {
      if i == m {
        var sh := Shares(words[m].1.dst, words[m].1.cnt);
        assert sh[..|words[m].1.dst|] == sh;
      }
    }
  }

  /** Storing two runs of rows is storing the first, then the second. */
  lemma {:induction false} LoadLinksAppend(chain: Chain, a: seq<LinkRow>, b: seq<LinkRow>)
    ensures LoadLinks(chain, a + b) == match LoadLinks(chain, a) case Ok(c) => LoadLinks(c, b) case Err(e) => Err(e)
    decreases |a|
  {
    if |a| > 0 {
      assert (a + b)[0] == a[0];
      assert (a + b)[1..] == a[1..] + b;
      if Has(chain, a[0].src) {
        LoadLinksAppend(Attach(chain, a[0]), a[1..], b);
      }
    } else {
      assert a + b == b;
    }
  }

  /** Storing the link rows of the first `n` nodes. */
  lemma {:induction false} Blocks(words: Words, total: real, n: nat)
    requires WellCounted(words) && Emittable(words) && total != 0.0 && n <= |words|
    ensures LoadLinks(Partial(words, total, 0, 0), LinkRows(words, n)) == Ok(Partial(words, total, n, 0))
  {
    if n > 0 {
      Blocks(words, total, n - 1);
      LoadLinksAppend(Partial(words, total, 0, 0), LinkRows(words, n - 1), LinkRowsOf(words[n - 1].0, words[n - 1].1));
      Block(words, total, n - 1, 0);
      assert LinkRowsOf(words[n - 1].0, words[n - 1].1)[0..] == LinkRowsOf(words[n - 1].0, words[n - 1].1);
    }
  }

  /** The sum of the node rows is the sum of the chain's counts. */
  lemma {:induction false} RowTotalCounts(words: Words)
    requires Normalisable(words)
    ensures RowTotal(NodeRows(words)) == TotalCnt(Normalise(words))
  {
    if |words| > 0 {
      var n := |words|;
      assert NodeRows(words)[..n - 1] == NodeRows(words[..n - 1]);
      assert Normalise(words)[..n - 1] == Normalise(words[..n - 1]);
      RowTotalCounts(words[..n - 1]);
    }
  }

  /** Round trip over a counted dictionary with a positive sum: rebuilding
      from the rows written gives back markov.py's chain, every key, count,
      successor, successor count and successor probability in place, with
      every node's share of the sum as its own probability. */
  lemma {:induction false} RoundTripCounted(words: Words)
    requires WellCounted(words) && TotalCnt(Normalise(words)) > 0
    ensures Emittable(words)
    ensures Rebuild(NodeRows(words), LinkRows(words, |words|)) == Ok(Stamp(Normalise(words), TotalCnt(Normalise(words)) as real))
  {
    WellEmittable(words);
    var total := TotalCnt(Normalise(words)) as real;
    RowTotalCounts(words);
    LoadNodeRows(words, total);
    PartialEnds(words, total);
    Blocks(words, total, |words|);
  }

  /** Before any link row the nodes are bare; after all of them they are
      markov.py's nodes with their shares. */
  lemma {:induction false} PartialEnds(words: Words, total: real)
    requires WellCounted(words) && Emittable(words) && total != 0.0
    ensures Partial(words, total, 0, 0) == Bare(words, total)
    ensures Partial(words, total, |words|, 0) == Stamp(Normalise(words), total)
  {
    WellNormalisable(words);
    var last := Partial(words, total, |words|, 0);
    var stamped := Stamp(Normalise(words), total);
    forall i | 0 <= i < |words|
      ensures last[i] == stamped[i]
    {
      assert words[i].1.cnt == Total(words[i].1.dst);
    }
  }

  /** Round trip over a corpus with at least one token: the rows
      tweets_util.py writes rebuild into the chain markov.py builds from the
      same token lists, each node with its share of all counts. */
  lemma RoundTrip(tweets: seq<seq<Token>>)
    requires NonEmpty(tweets, |tweets|) > 0
    ensures TotalCnt(Built(tweets)) > 0
    ensures Rebuild(Tables(tweets).0, Tables(tweets).1) == Ok(Stamp(Built(tweets), TotalCnt(Built(tweets)) as real))
  {
    var words := Count(tweets, |tweets|);
    CountWell(tweets, |tweets|);
    CountHas(tweets, |tweets|, START);
    CountCnt(tweets, |tweets|, START);
    BuiltFind(tweets, START);
    CntBelowTotal(Built(tweets), Find(words, START).value);
    RoundTripCounted(words);
  }

  /** Counting tweets without tokens leaves the two sentinels untouched. */
  lemma {:induction false} NoTokensCount(tweets: seq<seq<Token>>, n: nat)
    requires n <= |tweets| && NonEmpty(tweets, n) == 0
    ensures Count(tweets, n) == Init
  {
    if n > 0 {
      NoTokensCount(tweets, n - 1);
    }
  }

  /** A corpus without a single token writes two node rows of count 0, and
      rebuilding from them fails with ZeroDivisionError. */
  lemma EmptyCorpusTables(tweets: seq<seq<Token>>)
    requires NonEmpty(tweets, |tweets|) == 0
    ensures Tables(tweets).0 == [NodeRow(START, 0), NodeRow(END, 0)]
    ensures Rebuild(Tables(tweets).0, Tables(tweets).1) == Err(ZeroDivisionError)
  {
    NoTokensCount(tweets, |tweets|);
    var rows := NodeRows(Init);
    assert rows == [NodeRow(START, 0), NodeRow(END, 0)];
    assert rows[..1][..0] == [];
    assert RowTotal(rows[..1]) == 0;
  }

  /** The rebuilt node's own probability is the share of all counts that
      the corrected scorer uses, and every step probability is unchanged. */
  lemma StampUnigram(chain: Chain, w: Token)
    requires TotalCnt(chain) > 0 && Has(chain, w)
    ensures Has(Stamp(chain, TotalCnt(chain) as real), w)
    ensures Get(Stamp(chain, TotalCnt(chain) as real), w).prob == Some(Unigram(chain, w))
  {
    FindSameKeys(Stamp(chain, TotalCnt(chain) as real), chain, w);
  }

  /** Giving the nodes their shares changes no key and no successor. */
  lemma StampKeeps(chain: Chain, total: real, s: Token, d: Token)
    requires total != 0.0
    ensures Has(Stamp(chain, total), s) == Has(chain, s)
    ensures EdgeProb(Stamp(chain, total), s, d) == EdgeProb(chain, s, d)
  {
    FindSameKeys(Stamp(chain, total), chain, s);
  }

  /** So the running product of a fragment is the same over both chains. */
  lemma {:induction false} PathProbStamped(chain: Chain, total: real, words: seq<Token>, p: real, k: nat)
    requires total != 0.0 && k <= |words|
    ensures PathProb(Stamp(chain, total), words, p, k) == PathProb(chain, words, p, k)
  {
    if k > 1 {
      PathProbStamped(chain, total, words, p, k - 1);
      StampKeeps(chain, total, words[k - 2], words[k - 1]);
    }
  }

  /** `probability_of_fragment` as written, run on the chain rebuilt from the
      tables of a closed chain, computes what the corrected scorer computes on
      the chain itself: the rebuilt chain is still closed, its first node has
      the probability the lookup wants, and that probability is the first
      word's share of all counts. */
  lemma ScorersAgree(chain: Chain, words: seq<Token>)
    requires Closed(chain) && TotalCnt(chain) > 0 && |words| > 0 && Has(chain, words[0])
    ensures Closed(Stamp(chain, TotalCnt(chain) as real))
    ensures Has(Stamp(chain, TotalCnt(chain) as real), words[0])
    ensures Get(Stamp(chain, TotalCnt(chain) as real), words[0]).prob == Some(Unigram(chain, words[0]))
    ensures PathProb(Stamp(chain, TotalCnt(chain) as real), words, Unigram(chain, words[0]), |words|) ==
      PathProb(chain, words, Unigram(chain, words[0]), |words|)
  {
    var total := TotalCnt(chain) as real;
    var st := Stamp(chain, total);
    StampUnigram(chain, words[0]);
    PathProbStamped(chain, total, words, Unigram(chain, words[0]), |words|);
    forall i, j | 0 <= i < |st| && 0 <= j < |st[i].1.dst|
      ensures Has(st, st[i].1.dst[j].0)
    {
      StampKeeps(chain, total, st[i].1.dst[j].0, "");
    }
  }
}
