/**
 * One session of the assistant: suggest the best guesses for the possible answers,
 * read the feedback for the guess that was played, narrow the possible answers, and
 * count the guess; after the last round, offer to start over with the full lexicon.
 *
 * The session ends when no possible answer is left or when the sixth guess has been
 * counted; both end with the "solved" message. A "failed" message exists in the
 * source, but its condition is already covered by the first branch, so Verdict never
 * returns Failed.
 */
module Session {
  import opened Lexicon
  import Scorer
  import Ranker
  import opened Feedback
  import opened Filter

  /** The guess count at which the session ends. */
  const MaxGuesses: nat := 6

  /** The answer that ends a session with a new one. */
  const RestartReply: string := "y"

  /** Where a session stands after a round. */
  datatype Outcome =
    | Playing   // the loop goes on to the next round
    | Solved    // "Wordle solved!" and the restart prompt
    | Failed    // "Wordle failed!" and the restart prompt
    | Panicked  // the feedback line could not be read and the program stopped

  /** The verdict after a counted guess, the branches of the source in their order. */
  function Verdict(remaining: nat, totalGuess: nat): (r: Outcome)
    ensures r != Failed && r != Panicked
    ensures r == Playing <==> remaining != 0 && totalGuess != MaxGuesses
    ensures r == Solved <==> remaining == 0 || totalGuess == MaxGuesses
  {
    if remaining == 0 || totalGuess == MaxGuesses then Solved
    else if totalGuess == MaxGuesses then Failed
    else Playing
  }

  class Game {
    /** The full word list, reloaded by a restart. */
    const lexicon: seq<string>
    /** The words that may still be the answer. */
    var possibleAnswers: seq<string>
    /** The guesses counted in this session. */
    var totalGuess: nat
    var status: Outcome

    ghost predicate Valid()
      reads this
    {
      && AllPlayable(lexicon)
      && AllPlayable(possibleAnswers)
      && (forall w :: w in possibleAnswers ==> w in lexicon)
      && totalGuess <= MaxGuesses
      && (status == Playing ==> totalGuess < MaxGuesses)
    }

    /** A new session over the whole lexicon. */
    constructor(lexicon: seq<string>)
      requires AllPlayable(lexicon)
      ensures Valid()
      ensures this.lexicon == lexicon && possibleAnswers == lexicon
      ensures totalGuess == 0 && status == Playing
    {
      this.lexicon := lexicon;
      possibleAnswers := lexicon;
      totalGuess := 0;
      status := Playing;
    }

    /**
     * The suggestions shown before a guess: the possible answers ranked by score, at
     * most five. The work is split over threads chunks, whose partial vectors arrive
     * in the order arrival gives.
     */
    method Suggest(threads: nat, arrival: seq<nat>) returns (best: seq<Ranker.Entry>)
      requires Valid() && threads >= 1
      requires Scorer.IsArrivalOrder(arrival, threads)
      ensures |Ranker.Rank(possibleAnswers, Scorer.ScoreVector(possibleAnswers))| == |possibleAnswers|
      ensures best == Ranker.Top(Ranker.Rank(possibleAnswers, Scorer.ScoreVector(possibleAnswers)), |possibleAnswers|)
    {
      var scores := Scorer.Scores(possibleAnswers, threads, arrival);
      assert scores == Scorer.ScoreVector(possibleAnswers);
      var ranked := Ranker.Rank(possibleAnswers, scores);
      best := Ranker.Top(ranked, |possibleAnswers|);
    }

    /**
     * Narrow the possible answers by one round: retain per '2' and '1' position while
     * recording present and absent letters, then retain per absent letter that was
     * never present, then drop the guess.
     */
    method ApplyFeedback(round: Round)
      requires Valid() && WellFormed(round)
      modifies this`possibleAnswers
      ensures Valid()
      ensures possibleAnswers == Filtered(old(possibleAnswers), round)
    {
      ghost var start := possibleAnswers;
      var present: seq<char> := [];
      var absent: seq<char> := [];
      SurvivorsAllKept(start, []);
      for i := 0 to WordLength
        invariant present == PresentLetters(round, i)
        invariant absent == AbsentLetters(round, i)
        invariant possibleAnswers == Survivors(start, PositionRules(round, i))
      {
        var code := round.codes[i];
        PositionStep(start, round, i);
        if code == ExactCode {
          present := present + [round.word[i]];
          possibleAnswers := Survivors(possibleAnswers, [Exact(i, round.word[i])]);
        }
        if code == PartialCode {
          present := present + [round.word[i]];
          possibleAnswers := Survivors(possibleAnswers, [Partial(i, round.word[i])]);
        }
        if code == AbsentCode {
          absent := absent + [round.word[i]];
        }
      }
      ghost var positional := PositionRules(round, WordLength);
      assert positional + AbsentRules(absent[..0], present) == positional;
      for k := 0 to |absent|
        invariant possibleAnswers == Survivors(start, positional + AbsentRules(absent[..k], present))
      {
        var c := absent[k];
        AbsentStep(start, positional, absent, present, k);
        if c !in present {
          possibleAnswers := Survivors(possibleAnswers, [Absent(c)]);
        }
      }
      assert absent[..|absent|] == absent;
      SurvivorsStep(start, positional + AbsentRules(absent, present), NotGuess(round.word));
      possibleAnswers := Survivors(possibleAnswers, [NotGuess(round.word)]);
    }

    /**
     * One round of feedback: read the line, narrow the possible answers, count the
     * guess and decide whether the session goes on. A line the source cannot read
     * stops the program.
     */
    method Guess(line: string) returns (outcome: Outcome)
      requires Valid() && status == Playing
      modifies this`possibleAnswers, this`totalGuess, this`status
      ensures Valid()
      ensures status == outcome && outcome != Failed
      ensures ParseLine(line).None? ==>
        outcome == Panicked && possibleAnswers == old(possibleAnswers) && totalGuess == old(totalGuess)
      ensures ParseLine(line).Some? ==>
        && possibleAnswers == Filtered(old(possibleAnswers), ParseLine(line).value)
        && totalGuess == old(totalGuess) + 1
        && outcome == Verdict(|possibleAnswers|, totalGuess)
    {
      var parsed := ParseLine(line);
      if parsed.None? {
        outcome := Panicked;
      } else {
        ApplyFeedback(parsed.value);
        totalGuess := totalGuess + 1;
        outcome := Verdict(|possibleAnswers|, totalGuess);
      }
      status := outcome;
    }

    /** The restart prompt after a finished session: "y" starts a new session over the whole lexicon. */
    method Restart(reply: string) returns (again: bool)
      requires Valid() && (status == Solved || status == Failed)
      modifies this`possibleAnswers, this`totalGuess, this`status
      ensures Valid()
      ensures again <==> Trim(reply) == RestartReply
      ensures again ==> possibleAnswers == lexicon && totalGuess == 0 && status == Playing
      ensures !again ==> possibleAnswers == old(possibleAnswers) && totalGuess == old(totalGuess) && status == old(status)
    {
      again := Trim(reply) == RestartReply;
      if again {
        possibleAnswers := lexicon;
        totalGuess := 0;
        status := Playing;
      }
    }
  }
}
