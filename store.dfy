/** The cache of markov.py's `get_markov_chain` (markov.py:13-35): a `chains`
    table of (username, chain) rows; a user's chain is built, stored and
    returned when the table has none for that user or a new one is forced,
    and otherwise read back. The serialiser is not modelled: a stored chain
    reads back as itself. The lookup takes the first row of the user, in
    the order the rows were inserted. */
module Store {
  import opened Wrappers
  import opened Tokens
  import opened Chains
  import opened MarkovBuild

  /** `SELECT chain FROM chains WHERE username=...` then `fetchone()`. */
  function Lookup(rows: seq<(string, Chain)>, username: string): Option<Chain> {
    if |rows| == 0 then None
    else if rows[0].0 == username then Some(rows[0].1)
    else Lookup(rows[1..], username)
  }

  /** A new row is found only by a user that had no row before; a user who
      had one keeps reading the old chain. */
  lemma {:induction false} LookupAppend(rows: seq<(string, Chain)>, username: string, user: string, chain: Chain)
    ensures Lookup(rows + [(user, chain)], username) ==
      if Lookup(rows, username).Some? then Lookup(rows, username)
      else if user == username then Some(chain)
      else None
  {
    if |rows| == 0 {
      assert (rows + [(user, chain)])[1..] == [];
    } else {
      assert (rows + [(user, chain)])[1..] == rows[1..] + [(user, chain)];
      LookupAppend(rows[1..], username, user, chain);
    }
  }

  /** What every built chain satisfies. */
  ghost predicate Sound(chain: Chain) {
    Keyed(chain) && Closed(chain) && Stochastic(chain) && ProbsInUnit(chain)
  }

  /** A stored chain read back is one of the stored chains. */
  lemma {:induction false} LookupStored(rows: seq<(string, Chain)>, username: string)
    requires forall i :: 0 <= i < |rows| ==> Sound(rows[i].1)
    ensures Lookup(rows, username).Some? ==> Sound(Lookup(rows, username).value)
  {
    if |rows| > 0 && rows[0].0 != username {
      assert forall i :: 0 <= i < |rows[1..]| ==> rows[1..][i] == rows[i + 1];
      LookupStored(rows[1..], username);
    }
  }

  /** The `chains` table. */
  class ChainStore {
    var rows: seq<(string, Chain)>

    /** Every row holds a chain the builder produced. */
    ghost predicate Valid()
      reads this
    {
      forall i :: 0 <= i < |rows| ==> Sound(rows[i].1)
    }

    constructor ()
      ensures rows == [] && Valid()
    {
      rows := [];
    }

    /** `get_markov_chain(username, force_new)`, where `content` is the user's
        tweets that `build_markov_chain` would fetch. An empty corpus gives
        None and stores nothing; a build appends a row (an INSERT, never a
        replacement); a cached chain is returned as stored. */
    method GetMarkovChain(username: string, forceNew: bool, content: seq<string>, tokenize: string -> seq<Token>)
      returns (r: Option<Chain>)
      requires Valid()
      modifies this
      ensures Valid()
      ensures Lookup(old(rows), username).Some? && !forceNew ==>
        r == Lookup(old(rows), username) && rows == old(rows)
      ensures (Lookup(old(rows), username).None? || forceNew) && |content| == 0 ==>
        r.None? && rows == old(rows)
      ensures (Lookup(old(rows), username).None? || forceNew) && |content| > 0 ==>
        r == Some(Built(Tokenised(content, tokenize))) && rows == old(rows) + [(username, r.value)]
      ensures r.Some? ==> Sound(r.value)
      ensures Lookup(rows, username) == if Lookup(old(rows), username).Some? then Lookup(old(rows), username) else r
    {
      var res := Lookup(rows, username);
      if res.None? || forceNew {
        var chain := BuildMarkovChain(content, tokenize);
        if chain.None? {
          return None;
        }
        LookupAppend(rows, username, username, chain.value);
        rows := rows + [(username, chain.value)];
        return chain;
      }
      LookupStored(rows, username);
      return res;
    }
  }
}
