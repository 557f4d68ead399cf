/** Tokens of a tweet and the two sentinel tokens of the chain. */
module Tokens {

  /** A word as the tokenizer produces it. */
  type Token = string

  /** Entry marker of the chain: its node counts tweets, its edges lead to first words. */
  const START: Token := "START"

  /** Exit marker of the chain: the successor of every tweet's last word. */
  const END: Token := "END"

  predicate IsSentinel(t: Token) {
    t == START || t == END
  }

  /** No token of any tweet is one of the sentinels. */
  ghost predicate NoSentinel(tweets: seq<seq<Token>>) {
    forall i, j :: 0 <= i < |tweets| && 0 <= j < |tweets[i]| ==> !IsSentinel(tweets[i][j])
  }

  /** Lower-casing, for ASCII letters only. */
  function LowerChar(c: char): (r: char)
    ensures !('A' <= r <= 'Z')
    ensures !('A' <= c <= 'Z') ==> r == c
  {
    if 'A' <= c <= 'Z' then (c as int + 32) as char else c
  }

  function Lower(s: string): (r: string)
    ensures |r| == |s|
    ensures forall i :: 0 <= i < |s| ==> r[i] == LowerChar(s[i])
  {
    seq(|s|, i requires 0 <= i < |s| => LowerChar(s[i]))
  }

  /** Every token of one text, lower-cased. */
  function LowerWords(words: seq<Token>): (r: seq<Token>)
    ensures |r| == |words|
    ensures forall j :: 0 <= j < |words| ==> r[j] == Lower(words[j])
  {
    seq(|words|, j requires 0 <= j < |words| => Lower(words[j]))
  }

  /** Every token of every tweet, lower-cased. */
  function LowerAll(tweets: seq<seq<Token>>): (r: seq<seq<Token>>)
    ensures |r| == |tweets|
    ensures forall i :: 0 <= i < |tweets| ==> |r[i]| == |tweets[i]|
    ensures forall i, j :: 0 <= i < |tweets| && 0 <= j < |tweets[i]| ==> r[i][j] == Lower(tweets[i][j])
  {
    seq(|tweets|, i requires 0 <= i < |tweets| => LowerWords(tweets[i]))
  }

  /** A lowercased word is never a sentinel, whose letters are upper case. */
  lemma LowerIsNoSentinel(s: string)
    ensures !IsSentinel(Lower(s))
  {
    assert |s| == 0 || !('A' <= Lower(s)[0] <= 'Z');
  }

  /** Hence lowercased tweets never contain a sentinel token. */
  lemma LowerAllNoSentinel(tweets: seq<seq<Token>>)
    ensures NoSentinel(LowerAll(tweets))
  {
    var r := LowerAll(tweets);
    forall i, j | 0 <= i < |r| && 0 <= j < |r[i]|
      ensures !IsSentinel(r[i][j])
    {
      LowerIsNoSentinel(tweets[i][j]);
    }
  }
}
