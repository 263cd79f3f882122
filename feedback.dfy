/**
 * Reading one round's feedback line, `word-codes` (for example `crane-02010`).
 *
 * The source trims the line, splits it at every '-', takes the first field as the
 * guessed word and the second as the codes, and then reads code i and letter i for
 * i in 0..5. It panics when the line has no '-', when the codes field is shorter than
 * five characters, and when a code '0', '1' or '2' sits at a position the word does
 * not reach. ParseLine returns None in exactly those cases.
 */
module Feedback {
  import opened Lexicon

  datatype Option<T> = None | Some(value: T)

  /** One round: the guessed word and its per-position codes, in the fields the line held. */
  datatype Round = Round(word: string, codes: string)

  const Separator: char := '-'
  const ExactCode: char := '2'
  const PartialCode: char := '1'
  const AbsentCode: char := '0'

  /** The code characters the source acts on; any other character is ignored. */
  predicate IsCode(c: char)
  {
    c == AbsentCode || c == PartialCode || c == ExactCode
  }

  /** Position i of the round can be read: code i exists and, when it is acted on, so does letter i. */
  predicate Readable(round: Round, i: nat)
  {
    i < |round.codes| && (IsCode(round.codes[i]) ==> i < |round.word|)
  }

  /** The round can be read at every position without a panic. */
  predicate WellFormed(round: Round)
  {
    && |round.codes| >= WordLength
    && forall i :: 0 <= i < WordLength && IsCode(round.codes[i]) ==> i < |round.word|
  }

  /** The characters with the Unicode White_Space property, which the source's trim removes. */
  predicate IsWhitespace(c: char)
  {
    || ('\U{0009}' <= c <= '\U{000D}')
    || c == '\U{0020}'
    || c == '\U{0085}'
    || c == '\U{00A0}'
    || c == '\U{1680}'
    || ('\U{2000}' <= c <= '\U{200A}')
    || c == '\U{2028}'
    || c == '\U{2029}'
    || c == '\U{202F}'
    || c == '\U{205F}'
    || c == '\U{3000}'
  }

  /** s without its leading whitespace. */
  function TrimStart(s: string): (r: string)
    ensures |r| <= |s| && r == s[|s| - |r|..]
    ensures forall i :: 0 <= i < |s| - |r| ==> IsWhitespace(s[i])
    ensures r == [] || !IsWhitespace(r[0])
  {
    if s != [] && IsWhitespace(s[0]) then
      var r := TrimStart(s[1..]);
      assert s[1..][|s| - 1 - |r|..] == s[|s| - |r|..];
      r
    else s
  }

  /** s without its trailing whitespace. */
  function TrimEnd(s: string): (r: string)
    ensures |r| <= |s| && r == s[..|r|]
    ensures forall i :: |r| <= i < |s| ==> IsWhitespace(s[i])
    ensures r == [] || !IsWhitespace(r[|r| - 1])
  {
    if s != [] && IsWhitespace(s[|s| - 1]) then
      var r := TrimEnd(s[..|s| - 1]);
      assert s[..|s| - 1][..|r|] == s[..|r|];
      r
    else s
  }

  /** s without leading and trailing whitespace. */
  function Trim(s: string): (r: string)
    ensures |r| <= |s|
    ensures r == [] || (!IsWhitespace(r[0]) && !IsWhitespace(r[|r| - 1]))
  {
    TrimEnd(TrimStart(s))
  }

  /** A line trims to nothing exactly when it is all whitespace. */
  lemma TrimEmpty(s: string)
    ensures Trim(s) == [] <==> forall i :: 0 <= i < |s| ==> IsWhitespace(s[i])
  {
    var t := TrimStart(s);
    assert t != [] ==> t[0] == s[|s| - |t|];
  }

  /** The position of the first c in s. */
  function IndexOf(s: string, c: char): (k: nat)
    requires c in s
    ensures k < |s| && s[k] == c && c !in s[..k]
  {
    if s[0] == c then 0
    else
      var k := IndexOf(s[1..], c);
      assert s[..k + 1] == [s[0]] + s[1..][..k];
      k + 1
  }

  /** The pieces joined back with sep between them. */
  function Join(pieces: seq<string>, sep: char): string
    requires |pieces| >= 1
  {
    if |pieces| == 1 then pieces[0] else pieces[0] + [sep] + Join(pieces[1..], sep)
  }

  /** The fields of s between the occurrences of sep; "" gives [""] and "a-" gives ["a", ""]. */
  function Split(s: string, sep: char): (r: seq<string>)
    ensures |r| >= 1
    ensures forall i :: 0 <= i < |r| ==> sep !in r[i]
    ensures Join(r, sep) == s
    ensures |r| >= 2 <==> sep in s
    decreases |s|
  {
    if sep !in s then [s]
    else
      var k := IndexOf(s, sep);
      var rest := Split(s[k + 1..], sep);
      var r := [s[..k]] + rest;
      assert r[1..] == rest;
      assert s == s[..k] + [sep] + s[k + 1..];
      r
  }

  /** Read one feedback line; None where the source would panic. */
  function ParseLine(line: string): (r: Option<Round>)
    ensures r.Some? ==> WellFormed(r.value)
    ensures r.Some? ==>
      var t, w, c := Trim(line), r.value.word, r.value.codes;
      && Separator !in w && Separator !in c
      && w + [Separator] + c <= t
      && (|t| == |w| + 1 + |c| || t[|w| + 1 + |c|] == Separator)
    ensures r.None? ==> Separator !in Trim(line) || !WellFormed(Round(Split(Trim(line), Separator)[0], Split(Trim(line), Separator)[1]))
  {
    var t := Trim(line);
    var fields := Split(t, Separator);
    if |fields| < 2 then None
    else
      var round := Round(fields[0], fields[1]);
      if !WellFormed(round) then None
      else
        JoinFirstTwo(fields, Separator);
        Some(round)
  }

  // ---------------------------------------------------------------------------
  // Lemmas

  /** A joined line starts with its first two fields, followed by its end or by the separator. */
  lemma JoinFirstTwo(fields: seq<string>, sep: char)
    requires |fields| >= 2
    ensures fields[0] + [sep] + fields[1] <= Join(fields, sep)
    ensures var n := |fields[0]| + 1 + |fields[1]|;
      |Join(fields, sep)| == n || (n < |Join(fields, sep)| && Join(fields, sep)[n] == sep)
  {
    var head := fields[0] + [sep] + fields[1];
    assert fields[1..][0] == fields[1];
    if |fields| == 2 {
      assert Join(fields, sep) == head;
    } else {
      var tail := Join(fields[2..], sep);
      assert fields[1..][1..] == fields[2..];
      assert Join(fields, sep) == head + ([sep] + tail);
      assert (head + ([sep] + tail))[..|head|] == head;
    }
  }

  /** A round is well formed exactly when every one of its five positions can be read. */
  lemma WellFormedMeaning(round: Round)
    ensures WellFormed(round) <==> forall i :: 0 <= i < WordLength ==> Readable(round, i)
  {
    if forall i :: 0 <= i < WordLength ==> Readable(round, i) {
      assert Readable(round, WordLength - 1);
      forall i | 0 <= i < WordLength && IsCode(round.codes[i])
        ensures i < |round.word|
      {
        assert Readable(round, i);
      }
    }
  }

  /** Splitting undoes joining, when no piece holds the separator. */
  lemma {:induction false} SplitJoin(pieces: seq<string>, sep: char)
    requires |pieces| >= 1
    requires forall i :: 0 <= i < |pieces| ==> sep !in pieces[i]
    ensures Split(Join(pieces, sep), sep) == pieces
    decreases |pieces|
  {
    if |pieces| > 1 {
      var head, rest := pieces[0], pieces[1..];
      var s := Join(pieces, sep);
      assert s == head + [sep] + Join(rest, sep);
      assert s[|head|] == sep;
      var k := IndexOf(s, sep);
      assert s[..|head|] == head;
      assert k == |head|;
      assert s[k + 1..] == Join(rest, sep);
      SplitJoin(rest, sep);
      assert pieces == [head] + rest;
    }
  }

  /** A line that starts and ends with something other than whitespace is its own trim. */
  lemma TrimUnchanged(s: string)
    requires s != [] && !IsWhitespace(s[0]) && !IsWhitespace(s[|s| - 1])
    ensures Trim(s) == s
  {
    assert TrimStart(s) == s;
    assert TrimEnd(s) == s;
  }

  /** What read_line gives, the typed text and a newline, trims to the typed text. */
  lemma TrimNewline(typed: string)
    requires typed != [] && !IsWhitespace(typed[0]) && !IsWhitespace(typed[|typed| - 1])
    ensures Trim(typed + "\n") == typed
  {
    var line := typed + "\n";
    LeadingKept(line);
    TrailingNewlineDropped(typed);
  }

  /** A line that starts with something other than whitespace keeps its start. */
  lemma LeadingKept(s: string)
    requires s != [] && !IsWhitespace(s[0])
    ensures TrimStart(s) == s
  {
  }

  /** The newline after text that ends in something other than whitespace is the only thing TrimEnd drops. */
  lemma TrailingNewlineDropped(typed: string)
    requires typed != [] && !IsWhitespace(typed[|typed| - 1])
    ensures TrimEnd(typed + "\n") == typed
  {
    var line := typed + "\n";
    assert line[..|line| - 1] == typed;
    assert TrimEnd(typed) == typed;
  }

  /** The fields of a line made of two hyphen-free fields are those two. */
  lemma SplitTwo(word: string, codes: string)
    requires Separator !in word && Separator !in codes
    ensures Split(word + [Separator] + codes, Separator) == [word, codes]
  {
    assert Join([word, codes], Separator) == word + [Separator] + codes by {
      assert [word, codes][1..] == [codes];
    }
    SplitJoin([word, codes], Separator);
  }

  /** A line typed as `word-codes` and ended by a newline reads back as that round. */
  lemma ParseRoundTrip(word: string, codes: string)
    requires WellFormed(Round(word, codes))
    requires Separator !in word && Separator !in codes
    requires word == [] || !IsWhitespace(word[0])
    requires !IsWhitespace(codes[|codes| - 1])
    ensures ParseLine(word + [Separator] + codes + "\n") == Some(Round(word, codes))
  {
    var typed := word + [Separator] + codes;
    assert typed[0] == if word == [] then Separator else word[0];
    assert typed[|typed| - 1] == codes[|codes| - 1];
    TrimNewline(typed);
    SplitTwo(word, codes);
  }

  /** A line without a hyphen is rejected. */
  lemma ParseRejectsMissingHyphen(line: string)
    requires line == "crane02010"
    ensures ParseLine(line).None?
  {
    TrimUnchanged(line);
    assert Separator !in line;
  }

  /** A line with only four codes is rejected. */
  lemma ParseRejectsShortCodes(line: string)
    requires line == "crane-0201"
    ensures ParseLine(line).None?
  {
    TrimUnchanged(line);
    assert line == "crane" + [Separator] + "0201";
    SplitTwo("crane", "0201");
  }

  /** A code at a position the word does not reach is rejected. */
  lemma ParseRejectsShortWord(line: string)
    requires line == "cran-02010"
    ensures ParseLine(line).None?
  {
    TrimUnchanged(line);
    assert line == "cran" + [Separator] + "02010";
    SplitTwo("cran", "02010");
  }

  /** Fields after the second are ignored: a trimmed line of three or more fields reads as its first two. */
  lemma ParseIgnoresExtraFields(pieces: seq<string>, line: string)
    requires |pieces| >= 3 && forall i :: 0 <= i < |pieces| ==> Separator !in pieces[i]
    requires WellFormed(Round(pieces[0], pieces[1]))
    requires line == Join(pieces, Separator) && Trim(line) == line
    ensures ParseLine(line) == Some(Round(pieces[0], pieces[1]))
  {
    SplitJoin(pieces, Separator);
  }
}
