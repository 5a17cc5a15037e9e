/**
 * The vote totals behind a question's results page, and how a single
 * counter increment changes them.
 */
module Tally {
  import opened Models

  /** The votes a choice contributes to question `questionId`'s total. */
  function VotesIfOf(c: Choice, questionId: int): int
  {
    if c.question == questionId then c.votes else 0
  }

  /** Each key is listed once. */
  ghost predicate NoDuplicates(keys: seq<int>)
  {
    forall i, j :: 0 <= i < j < |keys| ==> keys[i] != keys[j]
  }

  /** The sum of the counters of the listed choices that belong to question `questionId`. */
  function VotesOver(choices: map<int, Choice>, keys: seq<int>, questionId: int): int
    requires forall i :: 0 <= i < |keys| ==> keys[i] in choices
  {
    if keys == [] then 0
    else VotesIfOf(choices[keys[0]], questionId) + VotesOver(choices, keys[1..], questionId)
  }

  /**
   * Raising the counter of choice `c` by one raises the total of its own
   * question by exactly one, over any listing of the choices that names `c`
   * once, and leaves every other total, and every listing without `c`, alone.
   */
  lemma {:induction false} VoteAddsOne(choices: map<int, Choice>, c: int, keys: seq<int>, questionId: int)
    requires c in choices
    requires forall i :: 0 <= i < |keys| ==> keys[i] in choices
    requires NoDuplicates(keys)
    ensures var after := choices[c := choices[c].(votes := choices[c].votes + 1)];
            VotesOver(after, keys, questionId)
            == VotesOver(choices, keys, questionId)
               + (if c in keys && choices[c].question == questionId then 1 else 0)
  {
    if keys != [] {
      assert c == keys[0] ==> c !in keys[1..];
      VoteAddsOne(choices, c, keys[1..], questionId);
    }
  }
}
