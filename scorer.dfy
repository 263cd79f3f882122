/**
 * The candidate scorer. For every ordered pair (x, y) of words of the lexicon,
 * x == y included, and every letter position p, the score of y gains 5 when x and y
 * have the same letter at p, and otherwise 4 when y contains x's letter at p anywhere.
 *
 * The source splits the x-range into one contiguous chunk per worker thread; every
 * worker builds a full-length partial score vector for its chunk and sends it over a
 * channel; the main thread adds the vectors up in whatever order they arrive. Here the
 * workers run one after another and the arrival order is a parameter.
 */
module Scorer {
  import opened Lexicon

  const ExactWeight: nat := 5
  const PresentWeight: nat := 4
  /** The most one word x can add to the score of one word y. */
  const MaxPairScore: nat := ExactWeight * WordLength

  // ---------------------------------------------------------------------------
  // The score as a plain double sum

  /** What letter position p of x adds to the score of y. */
  function Weight(x: string, y: string, p: nat): (r: nat)
    requires p < |x| && p < |y|
    ensures r <= ExactWeight
    ensures r == ExactWeight <==> x[p] == y[p]
    ensures r == PresentWeight <==> x[p] != y[p] && x[p] in y
    ensures r == 0 <==> x[p] !in y
  {
    if x[p] == y[p] then ExactWeight
    else if x[p] in y then PresentWeight
    else 0
  }

  /** What letter positions 0..k of x add to the score of y. */
  function PrefixScore(x: string, y: string, k: nat): nat
    requires k <= |x| && k <= |y|
  {
    if k == 0 then 0 else PrefixScore(x, y, k - 1) + Weight(x, y, k - 1)
  }

  /** What word x adds to the score of word y. */
  function PairScore(x: string, y: string): nat
    requires Playable(x) && Playable(y)
  {
    PrefixScore(x, y, WordLength)
  }

  /** What the words lex[lo..hi] add to the score of lex[y]; an empty or inverted range adds nothing. */
  function RowScore(lex: seq<string>, y: nat, lo: nat, hi: nat): nat
    requires AllPlayable(lex) && y < |lex| && hi <= |lex|
    decreases hi
  {
    if hi <= lo then 0 else RowScore(lex, y, lo, hi - 1) + PairScore(lex[hi - 1], lex[y])
  }

  /** The final score of lex[y]: the contributions of every word of the lexicon. */
  function Score(lex: seq<string>, y: nat): nat
    requires AllPlayable(lex) && y < |lex|
  {
    RowScore(lex, y, 0, |lex|)
  }

  /** The score vector, one entry per word of the lexicon. */
  function ScoreVector(lex: seq<string>): (r: seq<nat>)
    requires AllPlayable(lex)
    ensures |r| == |lex|
  {
    seq(|lex|, y requires 0 <= y < |lex| => Score(lex, y))
  }

  // ---------------------------------------------------------------------------
  // Chunks of the x-range

  /** The chunk length: the ceiling of n / threads, computed on integers. */
  function ChunkSize(n: nat, threads: nat): nat
    requires threads >= 1
  {
    (n + threads - 1) / threads
  }

  /** The chunk length is at most n, and n itself for one thread. */
  lemma ChunkSizeAtMost(n: nat, threads: nat)
    requires threads >= 1
    ensures ChunkSize(n, threads) <= n
    ensures threads == 1 ==> ChunkSize(n, threads) == n
  {
    var q := ChunkSize(n, threads);
    assert q * threads <= n + threads - 1;
    if q > n {
      MulMonotone(threads, n + 1, q);
      MulMonotone(n, 1, threads);
      assert false;
    }
  }

  /** First x of chunk c. */
  function ChunkFrom(n: nat, threads: nat, c: nat): nat
    requires threads >= 1
  {
    ChunkSize(n, threads) * c
  }

  /** One past the last x of chunk c, clamped to n; below ChunkFrom when the chunk starts beyond n. */
  function ChunkTo(n: nat, threads: nat, c: nat): (r: nat)
    requires threads >= 1
    ensures r <= n
    ensures ChunkFrom(n, threads, c) <= n ==> ChunkFrom(n, threads, c) <= r
    ensures r <= ChunkFrom(n, threads, c) + ChunkSize(n, threads)
  {
    var lo := ChunkFrom(n, threads, c);
    if lo + ChunkSize(n, threads) > n then n else lo + ChunkSize(n, threads)
  }

  /** What chunk c's partial vector holds at y. */
  function ChunkRow(lex: seq<string>, y: nat, threads: nat, c: nat): nat
    requires AllPlayable(lex) && y < |lex| && threads >= 1
  {
    RowScore(lex, y, ChunkFrom(|lex|, threads, c), ChunkTo(|lex|, threads, c))
  }

  /** The chunk numbers 0..c in increasing order. */
  function Range(c: nat): (r: seq<nat>)
    ensures |r| == c
    ensures forall i :: 0 <= i < c ==> r[i] == i
  {
    if c == 0 then [] else Range(c - 1) + [c - 1]
  }

  /** An order in which the partial vectors of chunks 0..threads can arrive: each exactly once. */
  predicate IsArrivalOrder(order: seq<nat>, threads: nat)
  {
    && (forall i :: 0 <= i < |order| ==> order[i] < threads)
    && multiset(order) == multiset(Range(threads))
  }

  /** Every entry of order indexes v. */
  predicate Indexes(order: seq<nat>, v: seq<nat>)
  {
    forall i :: 0 <= i < |order| ==> order[i] < |v|
  }

  /** The values v[order[0]], v[order[1]], ... added one by one. */
  function OrderedSum(v: seq<nat>, order: seq<nat>): nat
    requires Indexes(order, v)
  {
    if order == [] then 0
    else OrderedSum(v, order[..|order| - 1]) + v[order[|order| - 1]]
  }

  /** What each chunk's partial vector holds at y, by chunk. */
  function ChunkRows(lex: seq<string>, y: nat, threads: nat): (r: seq<nat>)
    requires AllPlayable(lex) && y < |lex| && threads >= 1
    ensures |r| == threads
    ensures forall c :: 0 <= c < threads ==> r[c] == ChunkRow(lex, y, threads, c)
  {
    seq(threads, c requires 0 <= c < threads => ChunkRow(lex, y, threads, c))
  }

  /** The sum at y of the partial vectors of the chunks, received in the given order. */
  function ArrivalSum(lex: seq<string>, y: nat, threads: nat, order: seq<nat>): nat
    requires AllPlayable(lex) && y < |lex| && threads >= 1
    requires forall i :: 0 <= i < |order| ==> order[i] < threads
  {
    OrderedSum(ChunkRows(lex, y, threads), order)
  }

  // ---------------------------------------------------------------------------
  // The scorer as the source runs it

  /** One worker: the partial score vector of the x-range lo..hi. */
  method PartialScores(lex: seq<string>, lo: nat, hi: nat) returns (part: seq<nat>)
    requires AllPlayable(lex) && hi <= |lex|
    ensures |part| == |lex|
    ensures forall y :: 0 <= y < |lex| ==> part[y] == RowScore(lex, y, lo, hi)
  {
    var n := |lex|;
    var acc := new nat[n](_ => 0);
    if lo <= hi {
      for x := lo to hi
        invariant forall k :: 0 <= k < n ==> acc[k] == RowScore(lex, k, lo, x)
      {
        for y := 0 to n
          invariant forall k :: 0 <= k < y ==> acc[k] == RowScore(lex, k, lo, x + 1)
          invariant forall k :: y <= k < n ==> acc[k] == RowScore(lex, k, lo, x)
        {
          assert lex[x] in lex && lex[y] in lex;
          for p := 0 to WordLength
            invariant acc[y] == RowScore(lex, y, lo, x) + PrefixScore(lex[x], lex[y], p)
            invariant forall k :: 0 <= k < y ==> acc[k] == RowScore(lex, k, lo, x + 1)
            invariant forall k :: y < k < n ==> acc[k] == RowScore(lex, k, lo, x)
          {
            var letter := lex[x][p];
            if letter == lex[y][p] {
              acc[y] := acc[y] + ExactWeight;
            } else if letter in lex[y] {
              acc[y] := acc[y] + PresentWeight;
            }
          }
        }
      }
    }
    part := acc[..];
  }

  /** The spawn loop: one worker per chunk, each sending the partial vector of its x-range. */
  method SpawnWorkers(lex: seq<string>, threads: nat) returns (sent: seq<seq<nat>>)
    requires AllPlayable(lex) && threads >= 1
    ensures |sent| == threads
    ensures forall c :: 0 <= c < threads ==> |sent[c]| == |lex|
    ensures forall c, k :: 0 <= c < threads && 0 <= k < |lex| ==> sent[c][k] == ChunkRow(lex, k, threads, c)
  {
    var n := |lex|;
    var chunkSize := (n + threads - 1) / threads;
    sent := [];
    for chunk := 0 to threads
      invariant |sent| == chunk
      invariant forall c :: 0 <= c < chunk ==> |sent[c]| == n
      invariant forall c, k :: 0 <= c < chunk && 0 <= k < n ==> sent[c][k] == ChunkRow(lex, k, threads, c)
    {
      var lo := chunkSize * chunk;
      var hi := if lo + chunkSize > n then n else lo + chunkSize;
      var part := PartialScores(lex, lo, hi);
      sent := sent + [part];
    }
  }

  /** The receive loop: add every partial vector into the score vector, in the order they arrive. */
  method Collect(lex: seq<string>, threads: nat, sent: seq<seq<nat>>, arrival: seq<nat>) returns (scores: seq<nat>)
    requires AllPlayable(lex) && threads >= 1
    requires |sent| == threads
    requires forall c :: 0 <= c < threads ==> |sent[c]| == |lex|
    requires forall c, k :: 0 <= c < threads && 0 <= k < |lex| ==> sent[c][k] == ChunkRow(lex, k, threads, c)
    requires IsArrivalOrder(arrival, threads)
    ensures |scores| == |lex|
    ensures forall k :: 0 <= k < |lex| ==> scores[k] == ArrivalSum(lex, k, threads, arrival)
  {
    var n := |lex|;
    ArrivalOrderLength(arrival, threads);
    var total := new nat[n](_ => 0);
    for r := 0 to threads
      invariant forall k :: 0 <= k < n ==> total[k] == ArrivalSum(lex, k, threads, arrival[..r])
    {
      var received := sent[arrival[r]];
      assert arrival[..r + 1][..r] == arrival[..r];
      for i := 0 to n
        invariant forall k :: 0 <= k < i ==> total[k] == ArrivalSum(lex, k, threads, arrival[..r + 1])
        invariant forall k :: i <= k < n ==> total[k] == ArrivalSum(lex, k, threads, arrival[..r])
      {
        total[i] := total[i] + received[i];
      }
    }
    assert arrival[..threads] == arrival;
    scores := total[..];
  }

  /** The whole scorer: spawn one worker per chunk, then add the partial vectors as they arrive. */
  method Scores(lex: seq<string>, threads: nat, arrival: seq<nat>) returns (scores: seq<nat>)
    requires AllPlayable(lex) && threads >= 1
    requires IsArrivalOrder(arrival, threads)
    ensures |scores| == |lex|
    ensures forall y :: 0 <= y < |lex| ==> scores[y] == Score(lex, y)
  {
    var sent := SpawnWorkers(lex, threads);
    scores := Collect(lex, threads, sent, arrival);
    forall y | 0 <= y < |lex|
      ensures scores[y] == Score(lex, y)
    {
      ArrivalSumIsScore(lex, y, threads, arrival);
    }
  }

  // ---------------------------------------------------------------------------
  // The chunks partition the x-range

  /** The chunk length is the least one whose threads-fold covers n. */
  lemma CeilDiv(n: nat, threads: nat)
    requires threads >= 1
    ensures n <= ChunkSize(n, threads) * threads < n + threads
  {
    var m := n + threads - 1;
    var q, r := m / threads, m % threads;
    assert m == q * threads + r && 0 <= r < threads;
  }

  lemma MulMonotone(k: nat, a: nat, b: nat)
    requires a <= b
    ensures k * a <= k * b
  {
  }

  /** Every x below n lies in exactly one chunk of 0..threads, the chunk x / ChunkSize. */
  lemma ChunksPartition(n: nat, threads: nat, x: nat)
    requires threads >= 1 && x < n
    ensures ChunkSize(n, threads) >= 1
    ensures x / ChunkSize(n, threads) < threads
    ensures forall c :: 0 <= c < threads ==>
      (ChunkFrom(n, threads, c) <= x < ChunkTo(n, threads, c) <==> c == x / ChunkSize(n, threads))
  {
    var size := ChunkSize(n, threads);
    assert size >= 1 by {
      assert n + threads - 1 >= threads;
    }
    CeilDiv(n, threads);
    var q := x / size;
    assert x == size * q + x % size;
    if q >= threads {
      MulMonotone(size, threads, q);
      assert false;
    }
    forall c | 0 <= c < threads
      ensures ChunkFrom(n, threads, c) <= x < ChunkTo(n, threads, c) <==> c == q
    {
      assert ChunkFrom(n, threads, c) == size * c;
      if c < q {
        MulMonotone(size, c + 1, q);
        assert size * (c + 1) == size * c + size;
      } else if c > q {
        MulMonotone(size, q + 1, c);
        assert size * (q + 1) == size * q + size;
      } else {
        assert size * (q + 1) == size * q + size;
      }
    }
  }

  /** How far into the x-range chunks 0..c reach. */
  function Covered(n: nat, threads: nat, c: nat): nat
    requires threads >= 1
  {
    if ChunkSize(n, threads) * c <= n then ChunkSize(n, threads) * c else n
  }

  // ---------------------------------------------------------------------------
  // Lemmas about the score sums

  /** RowScore adds up over adjacent ranges. */
  lemma {:induction false} RowScoreSplit(lex: seq<string>, y: nat, a: nat, b: nat, c: nat)
    requires AllPlayable(lex) && y < |lex|
    requires a <= b <= c <= |lex|
    ensures RowScore(lex, y, a, c) == RowScore(lex, y, a, b) + RowScore(lex, y, b, c)
    decreases c
  {
    if c > b {
      RowScoreSplit(lex, y, a, b, c - 1);
    }
  }

  /** The chunks 0..c in increasing order add up to the contributions of x < Covered(c). */
  lemma {:induction false} ChunksInOrder(lex: seq<string>, y: nat, threads: nat, c: nat)
    requires AllPlayable(lex) && y < |lex| && threads >= 1 && c <= threads
    ensures ArrivalSum(lex, y, threads, Range(c)) == RowScore(lex, y, 0, Covered(|lex|, threads, c))
  {
    if c > 0 {
      var n, size := |lex|, ChunkSize(|lex|, threads);
      ChunksInOrder(lex, y, threads, c - 1);
      assert Range(c)[..c - 1] == Range(c - 1);
      var lo, hi := ChunkFrom(n, threads, c - 1), ChunkTo(n, threads, c - 1);
      assert ChunkRows(lex, y, threads)[c - 1] == RowScore(lex, y, lo, hi);
      assert size * c == size * (c - 1) + size;
      if lo < n {
        assert Covered(n, threads, c - 1) == lo;
        assert Covered(n, threads, c) == hi;
        RowScoreSplit(lex, y, 0, lo, hi);
      } else {
        MulMonotone(size, c - 1, c);
        assert Covered(n, threads, c - 1) == n && Covered(n, threads, c) == n;
      }
    }
  }

  /** Taking one entry out of the middle of an order. */
  lemma {:induction false} OrderedSumRemove(v: seq<nat>, a: seq<nat>, x: nat, b: seq<nat>)
    requires Indexes(a + [x] + b, v)
    ensures x < |v| && Indexes(a + b, v)
    ensures OrderedSum(v, a + [x] + b) == OrderedSum(v, a + b) + v[x]
    decreases |b|
  {
    var whole := a + [x] + b;
    assert whole[|a|] == x;
    assert forall i :: 0 <= i < |a| ==> (a + b)[i] == whole[i];
    assert forall i :: |a| <= i < |a + b| ==> (a + b)[i] == whole[i + 1];
    if b == [] {
      assert whole == a + [x] && a + b == a;
      assert whole[..|a|] == a;
    } else {
      var b', z := b[..|b| - 1], b[|b| - 1];
      var shorter := a + [x] + b';
      assert whole[..|whole| - 1] == shorter;
      assert forall i :: 0 <= i < |shorter| ==> shorter[i] == whole[i];
      OrderedSumRemove(v, a, x, b');
      assert (a + b)[..|a + b| - 1] == a + b';
    }
  }

  /** Taking entry j out of a sequence takes one copy of it out of the multiset. */
  lemma RemoveAt(order: seq<nat>, j: nat)
    requires j < |order|
    ensures order == order[..j] + [order[j]] + order[j + 1..]
    ensures multiset(order[..j] + order[j + 1..]) + multiset{order[j]} == multiset(order)
  {
    var a, b := order[..j], order[j + 1..];
    assert order == a + order[j..];
    assert order[j..] == [order[j]] + b;
    assert multiset(order[j..]) == multiset{order[j]} + multiset(b);
    assert multiset(a + b) == multiset(a) + multiset(b);
  }

  /** Multiset union with one element cancels. */
  lemma CancelOne(m1: multiset<nat>, m2: multiset<nat>, x: nat)
    requires m1 + multiset{x} == m2 + multiset{x}
    ensures m1 == m2
  {
    forall e
      ensures m1[e] == m2[e]
    {
      assert (m1 + multiset{x})[e] == (m2 + multiset{x})[e];
    }
  }

  /** Range(c + 1) is Range(c) with c added. */
  lemma RangeMultiset(c: nat)
    ensures multiset(Range(c)) + multiset{c} == multiset(Range(c + 1))
  {
    assert Range(c + 1) == Range(c) + [c];
  }

  /** A position at which x occurs in order. */
  lemma FindIn(order: seq<nat>, x: nat) returns (j: nat)
    requires x in multiset(order)
    ensures j < |order| && order[j] == x
  {
    assert x in order;
    j :| 0 <= j < |order| && order[j] == x;
  }

  /** An order of 0..c + 1 holds c somewhere, and without it is an order of 0..c. */
  lemma SplitOrder(order: seq<nat>, c: nat) returns (a: seq<nat>, b: seq<nat>)
    requires multiset(order) == multiset(Range(c + 1))
    ensures order == a + [c] + b
    ensures multiset(a + b) == multiset(Range(c))
  {
    RangeMultiset(c);
    var j := FindIn(order, c);
    RemoveAt(order, j);
    a, b := order[..j], order[j + 1..];
    ghost var whole := multiset(order);
    assert multiset(a + b) + multiset{c} == whole;
    assert multiset(Range(c)) + multiset{c} == whole;
    CancelOne(multiset(a + b), multiset(Range(c)), c);
  }

  /** The order in which the values are added does not change their sum. */
  lemma {:induction false} OrderIrrelevant(v: seq<nat>, order: seq<nat>, c: nat)
    requires c <= |v| && Indexes(order, v)
    requires multiset(order) == multiset(Range(c))
    ensures OrderedSum(v, order) == OrderedSum(v, Range(c))
    decreases c
  {
    if c == 0 {
      assert |order| == |multiset(order)| == 0;
    } else {
      var k := c - 1;
      var a, b := SplitOrder(order, k);
      OrderedSumRemove(v, a, k, b);
      OrderIrrelevant(v, a + b, k);
      OrderedSumRange(v, k);
    }
  }

  /** Adding 0..k + 1 in order is adding 0..k and then entry k. */
  lemma OrderedSumRange(v: seq<nat>, k: nat)
    requires k < |v|
    ensures Indexes(Range(k), v) && Indexes(Range(k + 1), v)
    ensures OrderedSum(v, Range(k + 1)) == OrderedSum(v, Range(k)) + v[k]
  {
    assert Range(k + 1)[..k] == Range(k);
  }

  /** Whatever the thread count and the arrival order, the summed partial vectors are the plain double sum. */
  lemma ArrivalSumIsScore(lex: seq<string>, y: nat, threads: nat, order: seq<nat>)
    requires AllPlayable(lex) && y < |lex| && threads >= 1
    requires IsArrivalOrder(order, threads)
    ensures ArrivalSum(lex, y, threads, order) == Score(lex, y)
  {
    OrderIrrelevant(ChunkRows(lex, y, threads), order, threads);
    ChunksInOrder(lex, y, threads, threads);
    AllChunksCoverAll(|lex|, threads);
  }

  /** The summed vector does not depend on the thread count nor on the order the partial vectors arrive in. */
  lemma ThreadCountIrrelevant(lex: seq<string>, y: nat, t1: nat, o1: seq<nat>, t2: nat, o2: seq<nat>)
    requires AllPlayable(lex) && y < |lex| && t1 >= 1 && t2 >= 1
    requires IsArrivalOrder(o1, t1) && IsArrivalOrder(o2, t2)
    ensures ArrivalSum(lex, y, t1, o1) == ArrivalSum(lex, y, t2, o2)
  {
    ArrivalSumIsScore(lex, y, t1, o1);
    ArrivalSumIsScore(lex, y, t2, o2);
  }

  /** Chunk c + 1 starts where chunk c would end without the clamp; the clamp only cuts at n. */
  lemma ChunksAdjacent(n: nat, threads: nat, c: nat)
    requires threads >= 1
    ensures ChunkFrom(n, threads, c + 1) == ChunkFrom(n, threads, c) + ChunkSize(n, threads)
    ensures ChunkTo(n, threads, c) == n || ChunkTo(n, threads, c) == ChunkFrom(n, threads, c + 1)
    ensures ChunkFrom(n, threads, c) < n ==> ChunkFrom(n, threads, c) < ChunkTo(n, threads, c)
  {
    var k := ChunkSize(n, threads);
    assert k * (c + 1) == k * c + k;
  }

  /** A running total of the receive loop never exceeds the sum of all the vectors. */
  lemma {:induction false} OrderedSumPrefix(v: seq<nat>, order: seq<nat>, r: nat)
    requires Indexes(order, v) && r <= |order|
    ensures Indexes(order[..r], v)
    ensures OrderedSum(v, order[..r]) <= OrderedSum(v, order)
    decreases |order|
  {
    if r < |order| {
      var init := order[..|order| - 1];
      assert init[..r] == order[..r];
      OrderedSumPrefix(v, init, r);
    } else {
      assert order[..r] == order;
    }
  }

  /**
   * The source adds the received vectors into u32 entries: with fewer than 171798692
   * words, no running total of the receive loop reaches 2^32.
   */
  lemma RunningTotalFitsU32(lex: seq<string>, y: nat, threads: nat, order: seq<nat>, r: nat)
    requires AllPlayable(lex) && y < |lex| && threads >= 1
    requires IsArrivalOrder(order, threads) && r <= |order|
    requires |lex| <= 171798691
    ensures forall i :: 0 <= i < r ==> order[..r][i] < threads
    ensures ArrivalSum(lex, y, threads, order[..r]) <= Score(lex, y) < 0x1_0000_0000
  {
    OrderedSumPrefix(ChunkRows(lex, y, threads), order, r);
    ArrivalSumIsScore(lex, y, threads, order);
    ScoreFitsU32(lex, y, 0, |lex|);
  }

  /** Chunks 0..threads reach the end of the x-range. */
  lemma AllChunksCoverAll(n: nat, threads: nat)
    requires threads >= 1
    ensures Covered(n, threads, threads) == n
  {
    CeilDiv(n, threads);
  }

  /** An arrival order names every chunk 0..threads exactly once, so it has threads entries. */
  lemma ArrivalOrderLength(order: seq<nat>, threads: nat)
    requires IsArrivalOrder(order, threads)
    ensures |order| == threads
  {
    assert |order| == |multiset(order)| == |multiset(Range(threads))| == threads;
  }

  /** Bounds on what positions 0..k of x add to y; a word against itself scores the maximum. */
  lemma {:induction false} PrefixScoreBounds(x: string, y: string, k: nat)
    requires k <= |x| && k <= |y|
    ensures PrefixScore(x, y, k) <= ExactWeight * k
    ensures x == y ==> PrefixScore(x, y, k) == ExactWeight * k
  {
    if k > 0 {
      PrefixScoreBounds(x, y, k - 1);
    }
  }

  /** One word adds at most 25 to another, and exactly 25 to itself. */
  lemma PairScoreBounds(x: string, y: string)
    requires Playable(x) && Playable(y)
    ensures PairScore(x, y) <= MaxPairScore
    ensures PairScore(y, y) == MaxPairScore
  {
    PrefixScoreBounds(x, y, WordLength);
    PrefixScoreBounds(y, y, WordLength);
  }

  /** A range of words adds at most 25 per word, and at least 25 when it holds y itself. */
  lemma {:induction false} RowScoreBounds(lex: seq<string>, y: nat, lo: nat, hi: nat)
    requires AllPlayable(lex) && y < |lex| && hi <= |lex|
    ensures lo <= hi ==> RowScore(lex, y, lo, hi) <= MaxPairScore * (hi - lo)
    ensures lo <= y < hi ==> RowScore(lex, y, lo, hi) >= MaxPairScore
    decreases hi
  {
    if hi > lo {
      RowScoreBounds(lex, y, lo, hi - 1);
      PairScoreBounds(lex[hi - 1], lex[y]);
    }
  }

  /** Every word of the lexicon scores between 25 and 25 times the lexicon size. */
  lemma ScoreBounds(lex: seq<string>, y: nat)
    requires AllPlayable(lex) && y < |lex|
    ensures MaxPairScore <= Score(lex, y) <= MaxPairScore * |lex|
  {
    RowScoreBounds(lex, y, 0, |lex|);
  }

  /** A one-word lexicon scores exactly 25. */
  lemma SingleWordScore(w: string)
    requires Playable(w)
    ensures Score([w], 0) == MaxPairScore
  {
    assert [w][0] == w;
    assert Score([w], 0) == RowScore([w], 0, 0, 0) + PairScore(w, w);
    PairScoreBounds(w, w);
  }

  /** Appending a word that is not lex[..hi] leaves the contributions of lex[lo..hi] alone. */
  lemma {:induction false} RowScoreFrame(lex: seq<string>, w: string, y: nat, lo: nat, hi: nat)
    requires AllPlayable(lex) && Playable(w) && y < |lex| && hi <= |lex|
    ensures AllPlayable(lex + [w])
    ensures RowScore(lex + [w], y, lo, hi) == RowScore(lex, y, lo, hi)
    decreases hi
  {
    if hi > lo {
      RowScoreFrame(lex, w, y, lo, hi - 1);
    }
  }

  /** Adding a word to the lexicon adds exactly its pair score to each old word's score, so scores never drop. */
  lemma ScoreGrowsWithLexicon(lex: seq<string>, w: string, y: nat)
    requires AllPlayable(lex) && Playable(w) && y < |lex|
    ensures AllPlayable(lex + [w])
    ensures Score(lex + [w], y) == Score(lex, y) + PairScore(w, lex[y])
    ensures Score(lex + [w], y) >= Score(lex, y)
  {
    RowScoreFrame(lex, w, y, 0, |lex|);
  }

  /** The source keeps scores in u32: for any lexicon below 171798692 words, no partial or final score wraps. */
  lemma ScoreFitsU32(lex: seq<string>, y: nat, lo: nat, hi: nat)
    requires AllPlayable(lex) && y < |lex| && hi <= |lex|
    requires |lex| <= 171798691
    ensures RowScore(lex, y, lo, hi) < 0x1_0000_0000
    ensures Score(lex, y) < 0x1_0000_0000
  {
    RowScoreBounds(lex, y, lo, hi);
    RowScoreBounds(lex, y, 0, |lex|);
    if lo <= hi {
      MulMonotone(MaxPairScore, hi - lo, |lex|);
    }
    MulMonotone(MaxPairScore, |lex|, 171798691);
  }
}
