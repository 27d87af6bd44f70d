/** Scoring (the asking loop of quiz in main.go, without its goroutine): each
    question is paired with the line read for it, and a point is given when
    the trimmed line equals the expected answer exactly. */
module Scoring {
  import opened Text
  import opened Questions

  /** A guess earns the point when, trimmed, it is exactly the expected
      answer: case-sensitive, no partial credit. So only an answer that
      neither starts nor ends with white space can ever be matched, and the
      line typed for it is at least as long as the answer. */
  predicate Correct(q: Question, guess: string): (ok: bool)
    ensures ok ==> Trimmed(q.answer) && |q.answer| <= |guess|
  {
    TrimSpec(guess);
    Trim(guess) == q.answer
  }

  /** The number of questions whose guess is correct, counted from the
      front; it never exceeds the number of questions. */
  function CountMatches(questions: seq<Question>, guesses: seq<string>): (n: nat)
    requires |guesses| == |questions|
    ensures n <= |questions|
  {
    if questions == [] then 0
    else
      var last := |questions| - 1;
      CountMatches(questions[..last], guesses[..last]) + (if Correct(questions[last], guesses[last]) then 1 else 0)
  }

  /** The positions whose guess is correct. */
  function MatchSet(questions: seq<Question>, guesses: seq<string>): set<nat>
    requires |guesses| == |questions|
  {
    set k: nat | k < |questions| && Correct(questions[k], guesses[k])
  }

  /** The score loop: `guesses[k]` is whatever was read for question k (a
      partial line after a read error is still compared), and the score
      goes up by one for each correct guess. */
  method Score(questions: seq<Question>, guesses: seq<string>) returns (score: nat)
    requires |guesses| == |questions|
    ensures score == CountMatches(questions, guesses)
  {
    score := 0;
    for k := 0 to |questions|
      invariant score == CountMatches(questions[..k], guesses[..k])
    {
      assert questions[..k + 1][..k] == questions[..k];
      assert guesses[..k + 1][..k] == guesses[..k];
      if Correct(questions[k], guesses[k]) {
        score := score + 1;
      }
    }
    assert questions[..|questions|] == questions;
    assert guesses[..|guesses|] == guesses;
  }

  /** Extending the lists by one position adds that position to the match
      set exactly when its guess is correct. */
  lemma MatchSetSnoc(questions: seq<Question>, guesses: seq<string>)
    requires |guesses| == |questions| > 0
    ensures var last := |questions| - 1;
      MatchSet(questions, guesses) ==
        MatchSet(questions[..last], guesses[..last]) + (if Correct(questions[last], guesses[last]) then {last} else {})
  {
    var last := |questions| - 1;
    var qs, gs := questions[..last], guesses[..last];
    forall k: nat | k < last
      ensures k in MatchSet(questions, guesses) <==> k in MatchSet(qs, gs)
    {
      assert qs[k] == questions[k] && gs[k] == guesses[k];
    }
  }

  /** The count is the number of positions with a correct guess. */
  lemma {:induction false} CountIsMatchSetSize(questions: seq<Question>, guesses: seq<string>)
    requires |guesses| == |questions|
    ensures CountMatches(questions, guesses) == |MatchSet(questions, guesses)|
  {
    if questions != [] {
      var last := |questions| - 1;
      var qs, gs := questions[..last], guesses[..last];
      CountIsMatchSetSize(qs, gs);
      MatchSetSnoc(questions, guesses);
      assert last !in MatchSet(qs, gs);
    }
  }

  /** Every guess correct exactly when the score is full. */
  lemma {:induction false} FullScoreIffAllCorrect(questions: seq<Question>, guesses: seq<string>)
    requires |guesses| == |questions|
    ensures CountMatches(questions, guesses) == |questions| <==>
      forall k :: 0 <= k < |questions| ==> Correct(questions[k], guesses[k])
  {
    if questions != [] {
      var last := |questions| - 1;
      FullScoreIffAllCorrect(questions[..last], guesses[..last]);
    }
  }

  /** No guess correct exactly when the score is zero. */
  lemma {:induction false} ZeroScoreIffNoneCorrect(questions: seq<Question>, guesses: seq<string>)
    requires |guesses| == |questions|
    ensures CountMatches(questions, guesses) == 0 <==>
      forall k :: 0 <= k < |questions| ==> !Correct(questions[k], guesses[k])
  {
    if questions != [] {
      var last := |questions| - 1;
      ZeroScoreIffNoneCorrect(questions[..last], guesses[..last]);
    }
  }

  /** The running score never decreases and grows by at most one per
      question answered: after j questions and after k >= j questions the
      scores differ by at most k - j. */
  lemma {:induction false} ScoreGrowsByAtMostOne(questions: seq<Question>, guesses: seq<string>, j: nat, k: nat)
    requires |guesses| == |questions| && j <= k <= |questions|
    ensures CountMatches(questions[..j], guesses[..j]) <= CountMatches(questions[..k], guesses[..k])
    ensures CountMatches(questions[..k], guesses[..k]) <= CountMatches(questions[..j], guesses[..j]) + (k - j)
    decreases k
  {
    if j < k {
      assert questions[..k][..k - 1] == questions[..k - 1];
      assert guesses[..k][..k - 1] == guesses[..k - 1];
      ScoreGrowsByAtMostOne(questions, guesses, j, k - 1);
    }
  }

  /** White space around a typed answer, including the line's '\n', does
      not change whether it is correct. */
  lemma CorrectIgnoresSurroundingSpace(q: Question, lead: string, typed: string, trail: string)
    requires AllSpace(lead) && AllSpace(trail)
    ensures Correct(q, lead + typed + trail) <==> Correct(q, typed)
  {
    TrimIgnoresSurroundingSpace(lead, typed, trail);
  }

  /** Two questions answered correctly, each line ending in '\n', score 2;
      the same second answer in lower case scores only 1, and a first answer
      typed as "  4  \n" still earns its point. */
  lemma ScoreExamples()
    ensures CountMatches([Question("2+2", "4"), Question("CapitalOfFrance", "Paris")], ["4\n", "Paris\n"]) == 2
    ensures CountMatches([Question("2+2", "4"), Question("CapitalOfFrance", "Paris")], ["  4  \n", "paris\n"]) == 1
  {
    var qs := [Question("2+2", "4"), Question("CapitalOfFrance", "Paris")];
    TrimLineExamples();
    assert qs[..1] == [Question("2+2", "4")];
    assert ["4\n", "Paris\n"][..1] == ["4\n"];
    assert ["  4  \n", "paris\n"][..1] == ["  4  \n"];
  }
}
