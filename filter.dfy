/**
 * The candidate filter: what one round of feedback removes from the list of
 * possible answers.
 *
 * The source builds the round out of order-preserving `retain` calls, one per
 * position with a '2' or '1' code, one per letter coded '0' that no position marked
 * present, and a last one that drops the guess itself. Each call keeps the words a
 * Rule keeps. Survivors is that `retain`, generalised to a list of rules; RoundRules
 * lists the rules of a round in the order the source applies them, and Consistent
 * states, position by position, what a surviving word satisfies.
 */
module Filter {
  import opened Lexicon
  import opened Feedback

  /** The predicate of one `retain` call. */
  datatype Rule =
    | Exact(pos: Position, letter: char)    // code '2': the letter sits at pos
    | Partial(pos: Position, letter: char)  // code '1': the letter occurs, but not at pos
    | Absent(letter: char)                  // code '0', letter never marked present
    | NotGuess(guess: string)               // the guess is not the answer

  /** The rule keeps w. */
  predicate Keeps(rule: Rule, w: string)
    requires Playable(w)
  {
    match rule
    case Exact(p, c) => w[p] == c && c in w
    case Partial(p, c) => w[p] != c && c in w
    case Absent(c) => c !in w
    case NotGuess(g) => w != g
  }

  /**
   * What each rule keeps: '2' the words with the letter at the position, '1' the words
   * with another letter there and the letter elsewhere, an absent letter the words
   * without it, and the last rule every word but the guess.
   */
  lemma KeepsMeaning(rule: Rule, w: string)
    requires Playable(w)
    ensures rule.Exact? ==> (Keeps(rule, w) <==> w[rule.pos] == rule.letter)
    ensures rule.Partial? ==>
      (Keeps(rule, w) <==> w[rule.pos] != rule.letter && rule.letter in w[..rule.pos] + w[rule.pos + 1..])
    ensures rule.Absent? ==> (Keeps(rule, w) <==> forall i :: 0 <= i < |w| ==> w[i] != rule.letter)
    ensures rule.NotGuess? ==> (Keeps(rule, w) <==> w != rule.guess)
  {
    if rule.Partial? {
      var p := rule.pos;
      assert w == w[..p] + [w[p]] + w[p + 1..];
    }
  }

  /** Every rule keeps w. */
  predicate KeepsAll(rules: seq<Rule>, w: string)
    requires Playable(w)
  {
    forall i :: 0 <= i < |rules| ==> Keeps(rules[i], w)
  }

  /** The words of ws every rule keeps, in their order in ws. */
  function Survivors(ws: seq<string>, rules: seq<Rule>): (r: seq<string>)
    requires AllPlayable(ws)
    ensures AllPlayable(r)
    ensures |r| <= |ws|
    ensures forall w :: w in r <==> w in ws && KeepsAll(rules, w)
  {
    if ws == [] then []
    else
      assert forall w :: w in ws[1..] ==> w in ws;
      (if KeepsAll(rules, ws[0]) then [ws[0]] else []) + Survivors(ws[1..], rules)
  }

  /** The code at position i is '2' or '1': the letter there is recorded as present. */
  predicate MarksPresent(c: char)
  {
    c == ExactCode || c == PartialCode
  }

  /** The rule position i contributes, if any. */
  function RuleAt(round: Round, i: Position): (r: seq<Rule>)
    requires WellFormed(round)
    ensures |r| <= 1
    ensures r == [] <==> !MarksPresent(round.codes[i])
  {
    if round.codes[i] == ExactCode then [Exact(i, round.word[i])]
    else if round.codes[i] == PartialCode then [Partial(i, round.word[i])]
    else []
  }

  /** The rules of positions 0 .. n-1, in position order. */
  function PositionRules(round: Round, n: nat): (r: seq<Rule>)
    requires WellFormed(round) && n <= WordLength
    ensures |r| <= n
  {
    if n == 0 then [] else PositionRules(round, n - 1) + RuleAt(round, n - 1)
  }

  /** The letters of positions 0 .. n-1 whose codes mark them present, in position order. */
  function PresentLetters(round: Round, n: nat): seq<char>
    requires WellFormed(round) && n <= WordLength
  {
    if n == 0 then []
    else PresentLetters(round, n - 1) + (if MarksPresent(round.codes[n - 1]) then [round.word[n - 1]] else [])
  }

  /** The letters of positions 0 .. n-1 coded '0', in position order. */
  function AbsentLetters(round: Round, n: nat): seq<char>
    requires WellFormed(round) && n <= WordLength
  {
    if n == 0 then []
    else AbsentLetters(round, n - 1) + (if round.codes[n - 1] == AbsentCode then [round.word[n - 1]] else [])
  }

  /** One Absent rule per letter of absent that is not in present, in the order of absent. */
  function AbsentRules(absent: seq<char>, present: seq<char>): (r: seq<Rule>)
    ensures |r| <= |absent|
  {
    if absent == [] then []
    else
      var c := absent[|absent| - 1];
      AbsentRules(absent[..|absent| - 1], present) + (if c !in present then [Absent(c)] else [])
  }

  /** Every rule of a round, in the order the source applies them. */
  function RoundRules(round: Round): (r: seq<Rule>)
    requires WellFormed(round)
    ensures |r| >= 1 && r[|r| - 1] == NotGuess(round.word)
  {
    PositionRules(round, WordLength)
    + AbsentRules(AbsentLetters(round, WordLength), PresentLetters(round, WordLength))
    + [NotGuess(round.word)]
  }

  /** The possible answers left after a round. */
  function Filtered(ws: seq<string>, round: Round): (r: seq<string>)
    requires AllPlayable(ws) && WellFormed(round)
    ensures AllPlayable(r)
    ensures |r| <= |ws|
    ensures forall w :: w in r ==> w in ws
  {
    Survivors(ws, RoundRules(round))
  }

  /** Some position of the guess holds letter c with a code that marks it present. */
  predicate MarkedPresent(round: Round, c: char)
    requires WellFormed(round)
  {
    exists j :: 0 <= j < WordLength && MarksPresent(round.codes[j]) && round.word[j] == c
  }

  /** What a word left after the round satisfies, stated position by position. */
  predicate Consistent(round: Round, s: string)
    requires WellFormed(round) && Playable(s)
  {
    && (forall i :: 0 <= i < WordLength && round.codes[i] == ExactCode ==> s[i] == round.word[i])
    && (forall i :: 0 <= i < WordLength && round.codes[i] == PartialCode ==>
          s[i] != round.word[i] && round.word[i] in s)
    && (forall i :: 0 <= i < WordLength && round.codes[i] == AbsentCode && !MarkedPresent(round, round.word[i]) ==>
          round.word[i] !in s)
    && s != round.word
  }

  // ---------------------------------------------------------------------------
  // The shape of the rules of a round

  /** Position i contributes an Exact rule for '2' and a Partial rule for '1', at i and with the guess's letter there. */
  lemma RuleAtShape(round: Round, i: Position)
    requires WellFormed(round)
    ensures forall k :: 0 <= k < |RuleAt(round, i)| ==>
      var rule := RuleAt(round, i)[k];
      && (rule.Exact? || rule.Partial?)
      && rule.pos == i && rule.letter == round.word[i]
      && (rule.Exact? <==> round.codes[i] == ExactCode)
  {
  }

  /** The first n positions contribute only positional rules, at positions below n. */
  lemma {:induction false} PositionRulesShape(round: Round, n: nat)
    requires WellFormed(round) && n <= WordLength
    ensures forall k :: 0 <= k < |PositionRules(round, n)| ==>
      var rule := PositionRules(round, n)[k];
      (rule.Exact? || rule.Partial?) && rule.pos < n
  {
    if n > 0 {
      PositionRulesShape(round, n - 1);
      RuleAtShape(round, n - 1);
    }
  }

  /** The absent pass has a rule for a letter exactly when the letter is absent and not present, and only Absent rules. */
  lemma {:induction false} AbsentRulesShape(absent: seq<char>, present: seq<char>)
    ensures forall k :: 0 <= k < |AbsentRules(absent, present)| ==>
      var rule := AbsentRules(absent, present)[k];
      rule.Absent? && rule.letter in absent && rule.letter !in present
    ensures forall c :: c in absent && c !in present ==> Absent(c) in AbsentRules(absent, present)
  {
    if absent != [] {
      var init := absent[..|absent| - 1];
      AbsentRulesShape(init, present);
      assert absent == init + [absent[|absent| - 1]];
    }
  }

  /** The last rule of a round drops the guess, and no earlier rule does. */
  lemma RoundRulesShape(round: Round)
    requires WellFormed(round)
    ensures forall k :: 0 <= k < |RoundRules(round)| - 1 ==> !RoundRules(round)[k].NotGuess?
  {
    PositionRulesShape(round, WordLength);
    AbsentRulesShape(AbsentLetters(round, WordLength), PresentLetters(round, WordLength));
  }

  // ---------------------------------------------------------------------------
  // Lemmas about Survivors, the meaning of `retain`

  /** Retaining keeps order: the survivors of a concatenation are the concatenated survivors. */
  lemma {:induction false} SurvivorsConcat(a: seq<string>, b: seq<string>, rules: seq<Rule>)
    requires AllPlayable(a) && AllPlayable(b)
    ensures AllPlayable(a + b)
    ensures Survivors(a + b, rules) == Survivors(a, rules) + Survivors(b, rules)
  {
    assert forall w :: w in a + b ==> w in a || w in b;
    if a == [] {
      assert a + b == b;
    } else {
      var head := if KeepsAll(rules, a[0]) then [a[0]] else [];
      assert (a + b)[0] == a[0];
      assert (a + b)[1..] == a[1..] + b;
      assert forall w :: w in a[1..] ==> w in a;
      SurvivorsConcat(a[1..], b, rules);
      calc {
        Survivors(a + b, rules);
        head + Survivors(a[1..] + b, rules);
        head + (Survivors(a[1..], rules) + Survivors(b, rules));
        (head + Survivors(a[1..], rules)) + Survivors(b, rules);
      }
    }
  }

  /** Survivors only removes: its result occurs in ws no more often than each word does. */
  lemma {:induction false} SurvivorsSubMultiset(ws: seq<string>, rules: seq<Rule>)
    requires AllPlayable(ws)
    ensures multiset(Survivors(ws, rules)) <= multiset(ws)
  {
    if ws != [] {
      assert forall w :: w in ws[1..] ==> w in ws;
      SurvivorsSubMultiset(ws[1..], rules);
      assert ws == [ws[0]] + ws[1..];
    }
  }

  /** A list every rule keeps is left as it is. */
  lemma {:induction false} SurvivorsAllKept(ws: seq<string>, rules: seq<Rule>)
    requires AllPlayable(ws)
    requires forall w :: w in ws ==> KeepsAll(rules, w)
    ensures Survivors(ws, rules) == ws
  {
    if ws != [] {
      assert forall w :: w in ws[1..] ==> w in ws;
      SurvivorsAllKept(ws[1..], rules);
      assert ws == [ws[0]] + ws[1..];
    }
  }

  /** One more `retain` after a list of them is the same as one pass with the longer list. */
  lemma {:induction false} SurvivorsStep(ws: seq<string>, rules: seq<Rule>, rule: Rule)
    requires AllPlayable(ws)
    ensures Survivors(Survivors(ws, rules), [rule]) == Survivors(ws, rules + [rule])
  {
    if ws != [] {
      var w, rest := ws[0], ws[1..];
      assert forall v :: v in rest ==> v in ws;
      SurvivorsStep(rest, rules, rule);
      var head := if KeepsAll(rules, w) then [w] else [];
      assert Survivors(ws, rules) == head + Survivors(rest, rules);
      SurvivorsConcat(head, Survivors(rest, rules), [rule]);
      KeepsAllConcat(rules, [rule], w);
      KeepsAllSingle(rule, w);
      SurvivorsSingle(w, [rule]);
    }
  }

  /** A single rule keeps w exactly when that rule does. */
  lemma KeepsAllSingle(rule: Rule, w: string)
    requires Playable(w)
    ensures KeepsAll([rule], w) <==> Keeps(rule, w)
  {
    assert [rule][0] == rule;
  }

  /** The survivors of a one-word list. */
  lemma SurvivorsSingle(w: string, rules: seq<Rule>)
    requires Playable(w)
    ensures Survivors([w], rules) == if KeepsAll(rules, w) then [w] else []
  {
    assert [w][1..] == [];
  }

  /** The retain of position i after those of positions 0 .. i-1 leaves the survivors of positions 0 .. i. */
  lemma PositionStep(ws: seq<string>, round: Round, i: Position)
    requires AllPlayable(ws) && WellFormed(round)
    ensures Survivors(ws, PositionRules(round, i + 1)) ==
      if MarksPresent(round.codes[i]) then Survivors(Survivors(ws, PositionRules(round, i)), RuleAt(round, i))
      else Survivors(ws, PositionRules(round, i))
  {
    var rules := PositionRules(round, i);
    if MarksPresent(round.codes[i]) {
      var r := RuleAt(round, i);
      assert r == [r[0]];
      SurvivorsStep(ws, rules, r[0]);
    } else {
      assert PositionRules(round, i + 1) == rules;
    }
  }

  /** The retain for absent[k] after those of absent[..k] leaves the survivors of absent[..k + 1]. */
  lemma AbsentStep(ws: seq<string>, before: seq<Rule>, absent: seq<char>, present: seq<char>, k: nat)
    requires AllPlayable(ws) && k < |absent|
    ensures Survivors(ws, before + AbsentRules(absent[..k + 1], present)) ==
      if absent[k] !in present then Survivors(Survivors(ws, before + AbsentRules(absent[..k], present)), [Absent(absent[k])])
      else Survivors(ws, before + AbsentRules(absent[..k], present))
  {
    var c := absent[k];
    assert absent[..k + 1][..k] == absent[..k];
    var prior := before + AbsentRules(absent[..k], present);
    if c !in present {
      assert before + AbsentRules(absent[..k + 1], present) == prior + [Absent(c)];
      SurvivorsStep(ws, prior, Absent(c));
    } else {
      assert before + AbsentRules(absent[..k + 1], present) == prior;
    }
  }

  /** Filtering twice with the same rules removes nothing further. */
  lemma SurvivorsIdempotent(ws: seq<string>, rules: seq<Rule>)
    requires AllPlayable(ws)
    ensures Survivors(Survivors(ws, rules), rules) == Survivors(ws, rules)
  {
    SurvivorsAllKept(Survivors(ws, rules), rules);
  }

  // ---------------------------------------------------------------------------
  // What the rules of a round mean

  lemma KeepsAllConcat(a: seq<Rule>, b: seq<Rule>, w: string)
    requires Playable(w)
    ensures KeepsAll(a + b, w) <==> KeepsAll(a, w) && KeepsAll(b, w)
  {
    assert forall i :: 0 <= i < |a| ==> (a + b)[i] == a[i];
    assert forall i :: 0 <= i < |b| ==> (a + b)[|a| + i] == b[i];
  }

  /** The position rules of the first n positions keep exactly the words that agree with their '2' and '1' codes. */
  lemma {:induction false} PositionRulesMeaning(round: Round, n: nat, s: string)
    requires WellFormed(round) && n <= WordLength && Playable(s)
    ensures KeepsAll(PositionRules(round, n), s) <==>
      && (forall i :: 0 <= i < n && round.codes[i] == ExactCode ==> s[i] == round.word[i])
      && (forall i :: 0 <= i < n && round.codes[i] == PartialCode ==> s[i] != round.word[i] && round.word[i] in s)
  {
    if n > 0 {
      var last := n - 1;
      PositionRulesMeaning(round, last, s);
      KeepsAllConcat(PositionRules(round, last), RuleAt(round, last), s);
      if round.codes[last] == ExactCode {
        var c := round.word[last];
        assert s[last] == c ==> c in s;
        assert RuleAt(round, last)[0] == Exact(last, c);
      } else if round.codes[last] == PartialCode {
        assert RuleAt(round, last)[0] == Partial(last, round.word[last]);
      }
    }
  }

  /** A letter is in PresentLetters exactly when some position marks it present. */
  lemma {:induction false} PresentLettersMeaning(round: Round, n: nat, c: char)
    requires WellFormed(round) && n <= WordLength
    ensures c in PresentLetters(round, n) <==>
      exists j :: 0 <= j < n && MarksPresent(round.codes[j]) && round.word[j] == c
  {
    if n > 0 {
      PresentLettersMeaning(round, n - 1, c);
    }
  }

  /** A letter is in AbsentLetters exactly when some position codes it '0'. */
  lemma {:induction false} AbsentLettersMeaning(round: Round, n: nat, c: char)
    requires WellFormed(round) && n <= WordLength
    ensures c in AbsentLetters(round, n) <==>
      exists i :: 0 <= i < n && round.codes[i] == AbsentCode && round.word[i] == c
  {
    if n > 0 {
      AbsentLettersMeaning(round, n - 1, c);
    }
  }

  /** The Absent rules keep exactly the words with no letter of absent that present lacks. */
  lemma {:induction false} AbsentRulesMeaning(absent: seq<char>, present: seq<char>, s: string)
    requires Playable(s)
    ensures KeepsAll(AbsentRules(absent, present), s) <==>
      forall k :: 0 <= k < |absent| && absent[k] !in present ==> absent[k] !in s
  {
    if absent != [] {
      var init, c := absent[..|absent| - 1], absent[|absent| - 1];
      var extra := if c !in present then [Absent(c)] else [];
      AbsentRulesMeaning(init, present, s);
      KeepsAllConcat(AbsentRules(init, present), extra, s);
      assert KeepsAll(extra, s) <==> (c !in present ==> c !in s) by {
        if c !in present {
          assert extra[0] == Absent(c);
        }
      }
      assert forall k :: 0 <= k < |init| ==> absent[k] == init[k];
    }
  }

  /** The letters the second pass removes: coded '0' somewhere, marked present nowhere. */
  lemma AbsentPassMeaning(round: Round, s: string)
    requires WellFormed(round) && Playable(s)
    ensures KeepsAll(AbsentRules(AbsentLetters(round, WordLength), PresentLetters(round, WordLength)), s) <==>
      forall i :: 0 <= i < WordLength && round.codes[i] == AbsentCode && !MarkedPresent(round, round.word[i]) ==>
        round.word[i] !in s
  {
    var absent, present := AbsentLetters(round, WordLength), PresentLetters(round, WordLength);
    AbsentRulesMeaning(absent, present, s);
    forall c
      ensures c in present <==> MarkedPresent(round, c)
    {
      PresentLettersMeaning(round, WordLength, c);
    }
    forall c
      ensures c in absent <==> exists i :: 0 <= i < WordLength && round.codes[i] == AbsentCode && round.word[i] == c
    {
      AbsentLettersMeaning(round, WordLength, c);
    }
    if forall i :: 0 <= i < WordLength && round.codes[i] == AbsentCode && !MarkedPresent(round, round.word[i]) ==>
        round.word[i] !in s {
      forall k | 0 <= k < |absent| && absent[k] !in present
        ensures absent[k] !in s
      {
        assert absent[k] in absent;
      }
    }
    if forall k :: 0 <= k < |absent| && absent[k] !in present ==> absent[k] !in s {
      forall i | 0 <= i < WordLength && round.codes[i] == AbsentCode && !MarkedPresent(round, round.word[i])
        ensures round.word[i] !in s
      {
        var c := round.word[i];
        assert c in absent;
        var k :| 0 <= k < |absent| && absent[k] == c;
      }
    }
  }

  /** The rules of a round keep exactly the words consistent with it. */
  lemma RoundRulesMeaning(round: Round, s: string)
    requires WellFormed(round) && Playable(s)
    ensures KeepsAll(RoundRules(round), s) <==> Consistent(round, s)
  {
    var pos := PositionRules(round, WordLength);
    var abs := AbsentRules(AbsentLetters(round, WordLength), PresentLetters(round, WordLength));
    KeepsAllConcat(pos + abs, [NotGuess(round.word)], s);
    KeepsAllConcat(pos, abs, s);
    PositionRulesMeaning(round, WordLength, s);
    AbsentPassMeaning(round, s);
    assert KeepsAll([NotGuess(round.word)], s) <==> s != round.word by {
      assert [NotGuess(round.word)][0] == NotGuess(round.word);
    }
  }

  // ---------------------------------------------------------------------------
  // What a round does to the possible answers

  /**
   * The survivors of a round are exactly the prior words consistent with it, in their
   * prior order, and no word occurs more often than before.
   */
  lemma FilteredSurvivors(ws: seq<string>, round: Round)
    requires AllPlayable(ws) && WellFormed(round)
    ensures forall w :: w in Filtered(ws, round) <==> w in ws && Consistent(round, w)
    ensures multiset(Filtered(ws, round)) <= multiset(ws)
  {
    forall w | w in ws
      ensures KeepsAll(RoundRules(round), w) <==> Consistent(round, w)
    {
      RoundRulesMeaning(round, w);
    }
    SurvivorsSubMultiset(ws, RoundRules(round));
  }

  /** Filtering a concatenation filters each part, so relative order is kept. */
  lemma FilteredConcat(a: seq<string>, b: seq<string>, round: Round)
    requires AllPlayable(a) && AllPlayable(b) && WellFormed(round)
    ensures AllPlayable(a + b)
    ensures Filtered(a + b, round) == Filtered(a, round) + Filtered(b, round)
  {
    SurvivorsConcat(a, b, RoundRules(round));
  }

  /** The guess itself never survives its round. */
  lemma GuessNeverSurvives(ws: seq<string>, round: Round)
    requires AllPlayable(ws) && WellFormed(round)
    ensures round.word !in Filtered(ws, round)
  {
    if round.word in ws {
      assert Keeps(NotGuess(round.word), round.word) == false;
      assert RoundRules(round)[|RoundRules(round)| - 1] == NotGuess(round.word);
    }
  }

  /** Entering the same round again removes nothing further. */
  lemma FilteredIdempotent(ws: seq<string>, round: Round)
    requires AllPlayable(ws) && WellFormed(round)
    ensures Filtered(Filtered(ws, round), round) == Filtered(ws, round)
  {
    SurvivorsIdempotent(ws, RoundRules(round));
  }

  /** A position whose code is not '0', '1' or '2' adds no constraint, whatever character it holds. */
  lemma UncodedPositionIgnored(round: Round, i: nat, c: char, s: string)
    requires WellFormed(round) && i < WordLength && Playable(s)
    requires !IsCode(round.codes[i]) && !IsCode(c)
    ensures WellFormed(Round(round.word, round.codes[i := c]))
    ensures Consistent(round, s) <==> Consistent(Round(round.word, round.codes[i := c]), s)
  {
    var other := Round(round.word, round.codes[i := c]);
    forall d
      ensures MarkedPresent(round, d) <==> MarkedPresent(other, d)
    {
      if MarkedPresent(round, d) {
        var j :| 0 <= j < WordLength && MarksPresent(round.codes[j]) && round.word[j] == d;
        assert other.codes[j] == round.codes[j];
      }
      if MarkedPresent(other, d) {
        var j :| 0 <= j < WordLength && MarksPresent(other.codes[j]) && other.word[j] == d;
        assert other.codes[j] == round.codes[j];
      }
    }
  }

  /** A list with one word that is consistent with the round is left as it is. */
  lemma ConsistentSingleKept(w: string, round: Round)
    requires Playable(w) && WellFormed(round) && Consistent(round, w)
    ensures Filtered([w], round) == [w]
  {
    FilteredSurvivors([w], round);
  }

  /** A letter coded '0' at position 1 is not eliminated when position 0 marks it present. */
  lemma PresentBeforeAbsent(w: string, round: Round)
    requires w == "xyzwa" && round == Round("aabcd", "10000")
    ensures Playable(w) && WellFormed(round)
    ensures Filtered([w], round) == [w]
  {
    assert MarksPresent(round.codes[0]) && round.word[0] == 'a';
    assert w[4] == 'a';
    ConsistentSingleKept(w, round);
  }

  /** A letter coded '0' at position 0 is not eliminated when position 1 marks it present. */
  lemma AbsentBeforePresent(w: string, round: Round)
    requires w == "xyzwa" && round == Round("aabcd", "01000")
    ensures Playable(w) && WellFormed(round)
    ensures Filtered([w], round) == [w]
  {
    assert MarksPresent(round.codes[1]) && round.word[1] == 'a';
    assert w[4] == 'a';
    ConsistentSingleKept(w, round);
  }

  /** When every code is '2', only words that agree at all five positions survive. */
  lemma AllExactNarrows(slate: string, round: Round)
    requires slate == "slate" && round == Round("crane", "22222")
    ensures Playable(slate) && WellFormed(round)
    ensures Filtered(["crane", slate], round) == []
  {
    var ws := ["crane", slate];
    FilteredSurvivors(ws, round);
    assert !Consistent(round, slate) by {
      assert round.codes[0] == ExactCode && slate[0] != round.word[0];
    }
  }
}
