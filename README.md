# Markov chains of a user's tweets

This Dafny project models the Markov-chain core of a small tweet-analysis
program, and proves properties of that model. The program has these parts:

- It builds a chain from a user's tweets. Each token's node counts how often
  the token occurs. Its edges count how often each successor followed it, with
  `END` after a tweet's last token and the sentinel `START` in front of every
  tweet.
- It caches one chain per user.
- It lists successors and nodes by decreasing probability.
- It generates a tweet by a weighted random walk.
- It scores a fragment as the product of its step probabilities.
- A second builder writes the chain into a node table and a link table. The
  same module reads the chain back from those rows.
- A report script prints the probability of every step of a fragment and the
  most likely next word.

Python dictionaries are modelled as sequences of (key, value) pairs in
insertion order (module `Dicts`). That order decides how the stable sort
breaks ties, and it is the order in which rows are written.

A node is `Node(cnt, prob, dst)`. The field `prob` is `None` in the chains
that markov.py builds. In a chain rebuilt from the tables it is
`Some(cnt / sum of all counts)`.

Randomness becomes a sequence of draws, used in order. The tokenizers are a
parameter, `tokenize`. The database becomes explicit state:
- the `chains` table is the field of the class `Store.ChainStore`;
- `markov_nodes` and `markov_link` are sequences of rows.

Modules and files:

| module | file | models |
|---|---|---|
| `Tokens` | tokens.dfy | tokens, the sentinels, lower-casing |
| `Dicts` | dicts.dfy | insertion-ordered dictionaries |
| `Counting` | counting.dfy | the counting pass both builders share |
| `Chains` | chains.dfy | chains, edge probabilities, a node's share of all counts |
| `Sanitizer` | sanitize.dfy | `sanitize` |
| `MarkovBuild` | builder.dfy | markov.py's `build_markov_chain` |
| `Ranking` | ranking.dfy | `prob_list_for_word` and `all_words_prob` |
| `Generator` | generator.dfy | `get_next_word` and `generate_tweet` |
| `Fragments` | scorer.dfy | `probability_of_fragment` |
| `Report` | script.dfy | probability_of_fragment.py |
| `Tables` | rows.dfy | tweets_util.py's `build_markov_chain` and `get_markov_chain` |
| `Store` | store.dfy | markov.py's `get_markov_chain` cache |

Where the code and the design description differ, the model follows the code:

- **Rebuilding a cached chain.** A forced rebuild inserts a second row for the
  user; it does not replace the first. The lookup reads the first row, so the
  old chain is still the one read back.
- **Sampling a word with no node.** `get_next_word` raises KeyError. It does
  not return `END`.
- **Ties in sampling order.** Successors with equal probability keep their
  insertion order, which is what the stable `sorted` does.
- **Fragments.**
  - An empty fragment raises IndexError at `words[0]`.
  - The first factor is the node's stored `prob`; it is not computed from
    counts.
  - A word that is not a node raises KeyError when it must be looked up.
- **Link-row probabilities.** tweets_util.py divides an edge count by the
  node's own count, where markov.py divides by the sum of the node's edge
  counts. `Counting.CountCharacterised` shows the two are equal for every
  counted node.

## Model

| member | source | states |
|---|---|---|
| `Tokens.LowerWords` | markov.py:146 | every token of a fragment lower-cased, in order, with the same length |
| `Tokens.LowerAll` | tweets_util.py:64 | every token of every tweet lower-cased, keeping each tweet's length |
| `Tokens.LowerAllNoSentinel` | markov.py:48-51 | a lower-cased token list never contains `START` or `END`, so the sentinel keys never collide with a word |
| `Counting.BumpStatements` | markov.py:57-60 | the increment-or-create statements on a successor counter compute `Bump` |
| `Counting.LinkStart` | markov.py:54-61 | linking a tweet's first token increments START's count and bumps its edge to that token |
| `Counting.CountOccurrence` | markov.py:63-77 | one position creates the node with count 1 or increments it, then bumps its edge to the next token or `END` |
| `Counting.InitFacts` | markov.py:48 | the initial dictionary holds exactly the two sentinels with count 0 and no edges, and is well counted |
| `Counting.CountWell` | markov.py:48-77 | after counting, keys are distinct, edge counts are positive and every node's count is the sum of its edge counts |
| `Counting.CountHas` | markov.py:63-66 | a token has a node exactly when it is a sentinel or occurs in some tweet |
| `Counting.CountCnt` | markov.py:54-68 | a node's count is the token's number of occurrences; START's is the number of non-empty tweets |
| `Counting.CountEdge` | markov.py:57-76 | an edge count is the number of times the successor (or `END`) followed the token; START's edges count first tokens |
| `Counting.CountClosed` | markov.py:70-76 | every successor recorded is itself a node |
| `Counting.SentinelNeverOccurs` | markov.py:48-51 | when no tweet holds a sentinel, the sentinels have no occurrences and no successions |
| `Counting.CountCharacterised` | markov.py:48-77 | for every token and pair of tokens: node existence, node counts and edge counts given by occurrence counts, and the invariant kept |
| `Counting.CountTweets` | tweets_util.py:55-90 | the nested counting loops compute the counting pass and satisfy everything `CountCharacterised` states |
| `Sanitizer.RemoveTags` | markov.py:91 | the result is no longer than the text, and a text without `#` or `@` is unchanged |
| `Sanitizer.RemoveTagsClean` | markov.py:91 | no `#`/`@` followed by a word character is left after the substitution |
| `Sanitizer.RemoveTagsIdempotent` | markov.py:91 | removing hashtags and handles twice is the same as once |
| `Sanitizer.NoTagFixed` | markov.py:91 | a text with nothing to remove is left unchanged |
| `Sanitizer.UrlAt` | markov.py:94 | a matched link starts with `h` and is followed by whitespace or the end of the text |
| `Sanitizer.RemoveUrls` | markov.py:94 | the result is no longer than the text, and a text without `h` is unchanged |
| `Sanitizer.NoUrlFixed` | markov.py:94 | a text in which no link starts anywhere is left unchanged |
| `Sanitizer.UrlsPrefix` | markov.py:94 | a leading run of non-whitespace in the result was already at the start of the text, because a dropped link is followed by whitespace or the end |
| `Sanitizer.UrlKept` | markov.py:94 | a kept character starts a link in the result only if it started one in the text |
| `Sanitizer.RemoveUrlsClean` | markov.py:94 | no link is left anywhere after the substitution |
| `Sanitizer.RemoveUrlsIdempotent` | markov.py:94 | removing links twice is the same as once |
| `Sanitizer.PicAt` | markov.py:95 | a matched picture link starts with `p` and is followed by whitespace or the end of the text |
| `Sanitizer.RemovePic` | markov.py:95 | the result is no longer than the text, and a text without `p` is unchanged |
| `Sanitizer.NoPicFixed` | markov.py:95 | a text in which no picture link starts anywhere is left unchanged |
| `Sanitizer.Sanitize` | markov.py:89-95 | sanitising never lengthens a text |
| `Sanitizer.SanitizePlain` | markov.py:89-95 | a text in which none of the three patterns matches anywhere is left as it is |
| `MarkovBuild.BuildMarkovChain` | markov.py:38-86 | None exactly for an empty corpus; otherwise the counted and normalised chain, keyed, closed, stochastic and with probabilities in (0, 1] |
| `MarkovBuild.NormaliseWords` | markov.py:80-84 | the normalisation loop gives every node its count, no probability of its own, and its normalised successors, in order |
| `MarkovBuild.NormaliseCounts` | markov.py:81-84 | each successor keeps its count and gets its count over the sum of the node's successor counts |
| `MarkovBuild.BuiltNode` | markov.py:48-86 | the built chain has a node exactly for the sentinels and the occurring tokens, with their occurrence counts and no `prob` |
| `MarkovBuild.BuiltEdge` | markov.py:57-84 | an edge exists exactly for an observed succession `n > 0`, and then has count `n` and probability `n / node count` |
| `MarkovBuild.BuiltKeyed` | markov.py:48-86 | no key repeats among the nodes or among any node's successors |
| `MarkovBuild.BuiltClosed` | markov.py:70-77 | every successor in the built chain is a node |
| `MarkovBuild.SumShares` | markov.py:82-84 | the shares of a counter sum to its total over the divisor |
| `MarkovBuild.BuiltStochastic` | markov.py:80-84 | the probabilities of every node that has successors add up to exactly 1 |
| `MarkovBuild.SharesInUnit` | markov.py:84 | every share of a counter with positive entries lies in (0, 1] |
| `MarkovBuild.BuiltProbsInUnit` | markov.py:84 | every edge probability of the built chain lies in (0, 1] |
| `MarkovBuild.BuiltSentinels` | markov.py:48-61 | START and END are nodes; START's count is the number of non-empty tweets; END has count 0 and no successors; nothing leads back to START |
| `MarkovBuild.StartNeverEnds` | markov.py:48-61 | START is a node of a built chain and END is never among its successors, since only a tweet's last word leads to END |
| `Chains.UnigramPositive` | tweets_util.py:118-123 | a node's share of all counts is positive exactly when its count is |
| `Chains.EdgeProbInUnit` | markov.py:153-155 | over a chain with probabilities in (0, 1], a step's probability lies in [0, 1] and is positive exactly when the edge exists |
| `Ranking.SortDesc` | markov.py:105 | the result is sorted by decreasing probability and is a permutation of the input with the same sum |
| `Ranking.SortStable` | markov.py:105 | records of equal probability keep their relative order |
| `Ranking.ProbListForWord` | markov.py:98-105 | a node's successor records sorted by decreasing probability, a permutation of the successors, summing to the node's probability total |
| `Ranking.SuccessorsSum` | markov.py:101-104 | the successor records carry the edges' probabilities |
| `Ranking.AllWordsProb` | markov.py:108-115 | ZeroDivisionError exactly for a non-empty chain whose counts are all 0; otherwise every node's share of the total, sorted, one per node, summing to 1 |
| `Ranking.SumNodeShares` | markov.py:115 | the node shares sum to the total count over the divisor |
| `Ranking.NodeSharesUnigram` | markov.py:115 | each listed share is the node's share of all counts |
| `Generator.PickCharacterised` | markov.py:123-128 | the pick is the word at the least index whose running total reaches the draw, or None when no running total does |
| `Generator.NextIsSuccessor` | markov.py:122-128 | a picked word is a successor of the word before it |
| `Generator.NextTotal` | markov.py:123-128 | for a node whose probabilities add up to 1, a draw in [0, 1) always picks a word |
| `Generator.NextWord` | markov.py:118-128 | END after None, KeyError for a word with no node, otherwise the pick `Next` describes |
| `Generator.DrawnSnoc` | markov.py:136-140 | appending the word the next draw picks keeps the sentence the draws' walk |
| `Generator.DrawnWalk` | markov.py:131-141 | a generated sentence follows the chain's edges from START |
| `Generator.GenerateTweet` | markov.py:131-141 | the sentence is the walk the draws pick; for a positive length and at least one draw it is always produced and is one word; otherwise it runs until the walk ends; None only when there are no draws, or for a length of at most 0 when every draw was used and the last pick was a word |
| `Generator.GenerateTweetBounded` | markov.py:131-141 | as intended: at most `length` words for a positive length, always produced when there are at least `length` draws, and the walk stops early only where it ends; None only when the draws run out before that |
| `Generator.DrawnNoEnd` | markov.py:122-141 | when START has no edge to END, no walk from START ever picks END |
| `Generator.GeneratedNoEnd` | markov.py:131-141 | a walk over a built chain never contains the END sentinel |
| `Fragments.PathProbInUnit` | markov.py:150-155 | from a first factor in [0, 1], the running product stays in [0, 1] and never grows |
| `Fragments.PathProbPositive` | markov.py:150-156 | the product is positive exactly when the first factor is positive and every step was seen |
| `Fragments.PathProbZero` | markov.py:153-154 | once a step was never seen, the product stays 0 |
| `Fragments.PathProduct` | markov.py:150-156 | the loop returns the running product of all steps; it fails only with KeyError, and only when a word before the last is not a node; it never fails on a closed chain |
| `Fragments.ProbabilityOfFragment` | markov.py:144-156 | IndexError for no tokens, 0 for an unknown first word, KeyError when the first node has no `prob`; otherwise, the product from that `prob` whenever it succeeds, KeyError only for a word that is not a node, and success on a closed chain |
| `Fragments.FragmentProbability` | markov.py:144-156 | as intended: the same product, from the first word's share of all counts |
| `Fragments.FragmentInUnit` | markov.py:144-156 | the intended probability lies in [0, 1] and is positive exactly when the first word was counted and every step was seen |
| `Report.LinesAt` | probability_of_fragment.py:17-26 | line `k` of the report shows word `k`, its step probability and the running product up to it |
| `Report.FragmentReport` | probability_of_fragment.py:8-29 | IndexError for no tokens, "never used" for an unknown first word, KeyError without a `prob`; otherwise every report it gives `Describes` the fragment, it fails only with KeyError for a word that is not a node, and it never fails on a closed chain |
| `Report.ReportFrom` | probability_of_fragment.py:13-29 | KeyError only for a word that is not a node, never on a closed chain; every report it gives has the report's lines, aborts exactly at the first unseen step, and ends naming the most likely successor of the last word or, when there is none, with no word to name |
| `Report.ReportStep` | probability_of_fragment.py:21-26 | a seen step multiplies the product by its probability, adds its line and extends the path; in a closed chain the next word is a node |
| `Report.DescribesAborted` | probability_of_fragment.py:21-23 | a report that stops at an unseen step has the lines so far and names that step |
| `Report.DescribesEnd` | probability_of_fragment.py:28-29 | once every step was seen, the report names the head of the last word's ranked successors, or has none to name |
| `Report.TotalsDecrease` | probability_of_fragment.py:25-26 | the printed totals lie in [0, 1] and never grow from one line to the next |
| `Report.NextMostLikely` | probability_of_fragment.py:28-29 | the word named next is a successor whose probability no other successor exceeds |
| `Tables.TableTokens` | tweets_util.py:56-64 | one token list per tweet, none holding a sentinel |
| `Tables.BuildTables` | tweets_util.py:47-112 | the rows written are the node rows and link rows of the counted corpus |
| `Tables.EmitRows` | tweets_util.py:92-109 | one node row per key in order, then one link row per successor of every key, with count over node count |
| `Tables.GetMarkovChain` | tweets_util.py:115-130 | the rebuild loops compute `Rebuild` |
| `Tables.LoadNodesFacts` | tweets_util.py:120-123 | after the node rows, exactly the named words are nodes, each with its share of the total |
| `Tables.LastNamed` | tweets_util.py:120-123 | the index of the last node row naming a word, or None when no row names it |
| `Tables.LoadNodesNode` | tweets_util.py:120-123 | after the node rows, a word's node has the count of the last row naming it, that count's share of the total, and no successors |
| `Tables.LastLink` | tweets_util.py:125-128 | the index of the last link row from one word to another, or None when no row links them |
| `Tables.LastLinkFront` | tweets_util.py:125-128 | the last matching link row of a list is its tail's, moved by one, or else its head when that matches |
| `Tables.AttachFacts` | tweets_util.py:125-128 | one link row keeps every node, adds exactly its own edge with its count and probability, and leaves every other edge as it was |
| `Tables.LoadLinksEdge` | tweets_util.py:125-128 | after the link rows, a pair is an edge exactly when it was one before or some row links it, and its value is the last such row's |
| `Tables.LoadLinksFails` | tweets_util.py:125-128 | storing the link rows fails exactly when some row's source is not a node, and then with KeyError |
| `Tables.LoadLinksKeeps` | tweets_util.py:125-128 | the link rows keep the nodes, keep the edges and add every row's edge |
| `Tables.RebuildCharacterised` | tweets_util.py:115-130 | TypeError with no node rows; ZeroDivisionError with a zero sum; KeyError exactly for a link from an unnamed word; otherwise the named words with their shares and every row's edge |
| `Tables.RebuildRows` | tweets_util.py:115-130 | a rebuilt chain has a node for exactly the named words, with the last naming row's count and its share of the sum, and an edge for exactly the pairs some link row names, with the last such row's count and probability |
| `Tables.RoundTripCounted` | tweets_util.py:92-130 | rebuilding the rows of a counted dictionary gives the normalised chain with every node's share stamped on it |
| `Tables.RoundTrip` | tweets_util.py:47-130 | for a corpus with a non-empty tweet, reading back the written rows gives markov.py's chain of the corpus, with every share |
| `Tables.EmptyCorpusTables` | tweets_util.py:55-130 | a corpus without tokens writes two zero-count sentinel rows, and reading them back raises ZeroDivisionError |
| `Tables.PathProbStamped` | tweets_util.py:123 | stamping the shares does not change any running product of step probabilities |
| `Tables.ScorersAgree` | probability_of_fragment.py:13-25 | on the rebuilt chain the as-written scorer's first factor is the share the corrected scorer uses, and both products agree |
| `Store.LookupAppend` | markov.py:20-31 | after an insert, a user with an earlier row still reads the old chain; the new row is read only by a user who had none |
| `Store.LookupStored` | markov.py:33-35 | a chain read back is one that was stored |
| `Store.ChainStore.GetMarkovChain` | markov.py:13-35 | a cached chain returned unchanged unless forced; None and nothing stored for an empty corpus; else the built chain, appended; every stored chain sound |

## Left out

- The database connections, SQL text, commits and cursors are not modelled. Table contents are sequences of rows in insertion order, and `SELECT ... fetchone()` takes the first matching row.
- pickle is not modelled: a stored chain reads back as itself.
- The tokenizers (`casual_tokenize`, `word_tokenize`) are a parameter, `tokenize`. tweets_util.py's URL substitution (tweets_util.py:61) is folded into that parameter.
- Character classes (`\w`, `\s`) and lower-casing are ASCII only; Unicode case folding is not modelled.
- `random.random()` is a sequence of draws in [0, 1), used one per call. A walk that needs more draws than given returns None.
- Detokenisation (markov.py:133, 141) is not modelled. `generate_tweet` returns the token list, and the `None` a fallen-through `get_next_word` gives stays in that list. The TypeError the detokenizer would raise on it is not modelled.
- Generator.GenerateTweet: requires a closed chain holding START, which every built chain is (`MarkovBuild.BuiltClosed`, `MarkovBuild.BuiltSentinels`). The KeyError it would raise on an open chain is not modelled there; `Generator.NextWord` models that KeyError.
- Floating point is modelled as exact reals, so the sums are exactly 1. Printing and number formatting in probability_of_fragment.py are not modelled, nor its `exit(1)`, which ends the report.
- Building into tables that already hold rows is not modelled. tweets_util.py never clears `markov_nodes` or `markov_link`, so a second build meets the first build's keys, and the `IntegrityError` branches (tweets_util.py:99-109) then skip the clashing rows. `Tables.BuildTables` and `Tables.Rebuild` start from empty tables, where the keys written are distinct and those branches are never taken.
- Case folding in markov.py: `casual_tokenize(preserve_case=False)` lower-cases words but keeps the case of emoticons, whereas `MarkovBuild.Tokenised` lower-cases every token. Emoticons that differ only in case (`:P` and `:p`) are therefore one node in the model and two in the source. tweets_util.py lower-cases every token itself (tweets_util.py:64), so the model is exact there.
- Report.ReportFrom: when the fragment's last word has an empty successor list, it returns `Ok(NoNext(lines))`. probability_of_fragment.py:29 indexes that empty list and raises IndexError instead. In a chain built by tweets_util.py only `END` has an empty successor list.
- Sanitizer.RemovePic: no "nothing left after one pass" lemma is given, because the substitution is not idempotent. Each `.` of the pattern also matches a space, so text kept before a dropped link can join the whitespace after it into a new link. For example, `picpic.twitter.com/a twitter.com/x` becomes `pic twitter.com/x`, and a second pass removes that too. `Sanitizer.NoPicFixed` covers text with no picture link.
- The corpus query (which tweets are fetched, retweet and year filters) is not modelled: the corpus is the `content` parameter.
- data.py, db.py, scrape.py, sentiment.py, api.py, analysis.py and tweet_generator.py are not part of this model. Neither is the `load_from_json` loader in tweets_util.py.

## Findings

| source | as written | input that shows it | evidently intended | confidence | as-written member | corrected member |
|---|---|---|---|---|---|---|
| markov.py:149 | the first factor is `chain[words[0]]["prob"]`, a field the chains markov.py builds never have | any fragment whose first word is a node of a chain built by markov.py raises KeyError | the first word's share of all counts, as tweets_util.py stores it | not executed | `Fragments.ProbabilityOfFragment` | `Fragments.FragmentProbability` |
| markov.py:134-136 | `size` is set to 1 and never updated, so `length + 2 <= size` is false for every positive `length` | `length = 5` generates exactly one word | stop after `length` words | not executed | `Generator.GenerateTweet` | `Generator.GenerateTweetBounded` |
