/** The best-view search of `CameraSimplex::execute`: a numTheta x numPhi grid
    of cameras, visited row-major (theta outer, phi inner), each scored by one
    render plus one metric. The search fills a dense score buffer, tracks the
    first strictly greatest score, and writes the buffer to `<metric>.bin`.
    The render-and-score step is the parameter `score(i, j)`. */
module GridSearch {
  import opened Floats
  import MetricDispatch

  const NumTheta: nat := 100
  const NumPhi: nat := 100

  /** The running best: `winning_score`, `winning_i`, `winning_j`. */
  datatype Winner = Winner(score: Float, i: int, j: int)

  const Initial: Winner := Winner(NegDblMax, -1, -1)

  /** One update of the running best: a sample replaces it only when its score is
      strictly greater, so a NaN score or a tie leaves the earlier winner. */
  function Track(w: Winner, s: Float, i: int, j: int): (r: Winner)
    ensures r == w || (r == Winner(s, i, j) && Gt(s, w.score))
    ensures Gt(s, w.score) ==> r == Winner(s, i, j)
    ensures !IsNaN(w.score) ==> Le(w.score, r.score)
    ensures (IsNaN(s) || Eq(s, w.score)) ==> r == w
  {
    if Gt(s, w.score) then Winner(s, i, j) else w
  }

  /** The tracker once every sample before (i, j) in row-major order is seen. */
  function Scan(score: (nat, nat) -> Float, numPhi: nat, i: nat, j: nat): (r: Winner)
    requires j <= numPhi
    ensures r == Initial ||
            (0 <= r.i && 0 <= r.j < numPhi && Before(r.i, r.j, i, j) && r.score == score(r.i, r.j))
    decreases i, j
  {
    if j == 0 then (if i == 0 then Initial else Scan(score, numPhi, i - 1, numPhi))
    else Track(Scan(score, numPhi, i, j - 1), score(i, j - 1), i, j - 1)
  }

  /** (i', j') comes before (i, j) in row-major order. */
  predicate Before(i': int, j': int, i: int, j: int)
  {
    i' < i || (i' == i && j' < j)
  }

  /** What the tracker holds after any prefix of the enumeration:
      - its score is never NaN and is at least -DBL_MAX;
      - it is at least every non-NaN score seen;
      - with no winner yet (-1, -1) no score seen exceeded -DBL_MAX;
      - otherwise the winner is a sample seen, whose score is the best, and no
        earlier sample has that score (the first maximum wins; later ties never move it). */
  lemma {:induction false} ScanFacts(score: (nat, nat) -> Float, numPhi: nat, i: nat, j: nat)
    requires j <= numPhi
    ensures var w := Scan(score, numPhi, i, j);
      && !IsNaN(w.score) && Le(NegDblMax, w.score)
      && (forall i': nat, j': nat :: Before(i', j', i, j) && j' < numPhi && !IsNaN(score(i', j')) ==>
            Le(score(i', j'), w.score))
      && (w.i == -1 ==>
            w == Initial &&
            forall i': nat, j': nat :: Before(i', j', i, j) && j' < numPhi ==> !Gt(score(i', j'), NegDblMax))
      && (w.i != -1 ==>
            Gt(w.score, NegDblMax) && 0 <= w.i && 0 <= w.j < numPhi && Before(w.i, w.j, i, j) && score(w.i, w.j) == w.score &&
            forall i': nat, j': nat :: Before(i', j', w.i, w.j) && j' < numPhi ==> score(i', j') != w.score)
    decreases i, j
  {
    if j == 0 {
      if i > 0 {
        ScanFacts(score, numPhi, i - 1, numPhi);
      }
    } else {
      ScanFacts(score, numPhi, i, j - 1);
      var prev := Scan(score, numPhi, i, j - 1);
      var s := score(i, j - 1);
      if Gt(s, prev.score) {
        forall i': nat, j': nat | Before(i', j', i, j) && j' < numPhi && !IsNaN(score(i', j'))
          ensures Le(score(i', j'), s)
        {
          if Before(i', j', i, j - 1) {
            LeTransitive(score(i', j'), prev.score, s);
          }
        }
      } else if !IsNaN(s) {
        Trichotomy(s, prev.score);
      }
    }
  }

  /** The double loop: fills `buffer[i][j]` and updates the running best. */
  method SearchGrid(numTheta: nat, numPhi: nat, score: (nat, nat) -> Float)
    returns (buffer: array2<Float>, winningScore: Float, winningI: int, winningJ: int)
    ensures buffer.Length0 == numTheta && buffer.Length1 == numPhi
    ensures forall i, j :: 0 <= i < numTheta && 0 <= j < numPhi ==> buffer[i, j] == score(i, j)
    ensures Winner(winningScore, winningI, winningJ) == Scan(score, numPhi, numTheta, 0)
  {
    buffer := new Float[numTheta, numPhi];
    winningScore, winningI, winningJ := NegDblMax, -1, -1;
    for i := 0 to numTheta
      invariant Winner(winningScore, winningI, winningJ) == Scan(score, numPhi, i, 0)
      invariant forall i', j' :: 0 <= i' < i && 0 <= j' < numPhi ==> buffer[i', j'] == score(i', j')
    {
      for j := 0 to numPhi
        invariant Winner(winningScore, winningI, winningJ) == Scan(score, numPhi, i, j)
        invariant forall i', j' :: 0 <= i' < i && 0 <= j' < numPhi ==> buffer[i', j'] == score(i', j')
        invariant forall j' :: 0 <= j' < j ==> buffer[i, j'] == score(i, j')
      {
        var s := score(i, j);
        buffer[i, j] := s;
        if Gt(s, winningScore) {
          winningScore := s;
          winningI := i;
          winningJ := j;
        }
      }
    }
  }

  // ---------------------------------------------------------------------------
  // The output artefact.

  /** The C string a `char` array holds: everything before the first NUL. */
  function CString(s: seq<char>): (r: seq<char>)
    ensures '\0' !in r && r <= s
    ensures |r| < |s| ==> s[|r|] == '\0'
  {
    if |s| == 0 || s[0] == '\0' then [] else [s[0]] + CString(s[1..])
  }

  /** The name passed to fopen: `strcpy` of the metric into a `char[len + 5]`, then
      '.', 'b', 'i', 'n' and NUL from index `len` on. */
  method DataFileName(metric: string) returns (name: string)
    ensures '\0' !in metric ==> name == metric + ".bin"
    ensures '\0' in metric ==> name == CString(metric)
  {
    var n := |metric|;
    var buf := new char[n + 5];
    var k := 0;
    while k < n && metric[k] != '\0'
      invariant 0 <= k <= n
      invariant forall m :: 0 <= m < k ==> buf[m] == metric[m] && metric[m] != '\0'
    {
      buf[k] := metric[k];
      k := k + 1;
    }
    buf[k] := '\0';
    buf[n] := '.';
    buf[n + 1] := 'b';
    buf[n + 2] := 'i';
    buf[n + 3] := 'n';
    buf[n + 4] := '\0';
    FileNameBuffer(metric, buf[..], k);
    name := CString(buf[..]);
  }

  /** The buffer `strcpy` and the suffix writes leave: the copied characters, a NUL at
      `k` when the copy stopped early, then ".bin" and NUL from index `|metric|`. */
  lemma FileNameBuffer(metric: string, buf: seq<char>, k: nat)
    requires |buf| == |metric| + 5 && k <= |metric|
    requires forall m :: 0 <= m < k ==> buf[m] == metric[m] && metric[m] != '\0'
    requires k < |metric| ==> metric[k] == '\0' && buf[k] == '\0'
    requires buf[|metric|..] == ".bin\0"
    ensures '\0' !in metric ==> CString(buf) == metric + ".bin"
    ensures '\0' in metric ==> CString(buf) == CString(metric)
  {
    var n := |metric|;
    if k < n {
      CStringOfPrefix(buf, k);
      CStringOfPrefix(metric, k);
      assert buf[..k] == metric[..k];
    } else {
      assert buf[n..n + 4] == ".bin" && buf[n + 4] == '\0';
      assert buf[..n + 4] == metric + ".bin";
      CStringOfPrefix(buf, n + 4);
    }
  }

  /** A C string is determined by the characters before its first NUL. */
  lemma {:induction false} CStringOfPrefix(s: seq<char>, k: nat)
    requires k <= |s| && (k < |s| ==> s[k] == '\0')
    requires forall m :: 0 <= m < k ==> s[m] != '\0'
    ensures CString(s) == s[..k]
  {
    if k > 0 {
      CStringOfPrefix(s[1..], k - 1);
      assert s[..k] == [s[0]] + s[1..][..k - 1];
    }
  }

  /** The write loop emits each row of the buffer in turn, numPhi floats at a time:
      the file holds the buffer's floats row after row. */
  method WriteRows(buffer: array2<Float>) returns (contents: seq<Float>)
    ensures |contents| == buffer.Length0 * buffer.Length1
    ensures forall p :: 0 <= p < |contents| ==>
              contents[p] == buffer[p / buffer.Length1, p % buffer.Length1]
  {
    var n := buffer.Length1;
    contents := [];
    for k := 0 to buffer.Length0
      invariant |contents| == k * n
      invariant forall p :: 0 <= p < |contents| ==> p / n < buffer.Length0 && contents[p] == buffer[p / n, p % n]
    {
      var row := seq(n, c requires 0 <= c < n reads buffer => buffer[k, c]);
      forall p | k * n <= p < k * n + n
        ensures p / n == k && p % n == p - k * n
      {
        RowMajorPosition(p, n, k, p - k * n);
      }
      contents := contents + row;
    }
  }

  /** Division recovers the row and column of a row-major position. */
  lemma RowMajorPosition(p: int, n: int, row: int, col: int)
    requires 0 <= col < n && p == row * n + col
    ensures p / n == row && p % n == col
  {
    var q, r := p / n, p % n;
    assert q * n + r == row * n + col;
    assert (q - row) * n == col - r;
    if q > row {
      MulAtLeast(q - row, n);
    } else if q < row {
      MulAtLeast(row - q, n);
    }
  }

  lemma MulAtLeast(a: int, n: int)
    requires a >= 1 && n > 0
    ensures a * n >= n
  {
  }

  /** How the search ends: it completes with the winner's indices, or the first
      sample's metric call raises an error and nothing further happens. */
  datatype SearchOutcome = Completed(winningI: int, winningJ: int) | Aborted(message: string)

  /** The whole of `CameraSimplex::execute` that the model keeps: the data file is
      created under its name, then the 100 x 100 search runs and its buffer is
      written. Every sample calls the metric dispatch with the same name, so an
      unsupported name raises at the very first sample, after the file has been
      created and before any score is written to it. */
  method Execute(metric: string, score: (nat, nat) -> Float)
    returns (fileName: string, contents: seq<Float>, outcome: SearchOutcome)
    ensures '\0' !in metric ==> fileName == metric + ".bin"
    ensures '\0' in metric ==> fileName == CString(metric)
    ensures metric !in MetricDispatch.MetricNames ==>
              contents == [] && outcome == Aborted(MetricDispatch.UnsupportedMetric)
    ensures metric in MetricDispatch.MetricNames ==>
              && |contents| == NumTheta * NumPhi
              && (forall p :: 0 <= p < |contents| ==> contents[p] == score(p / NumPhi, p % NumPhi))
              && outcome == Completed(Scan(score, NumPhi, NumTheta, 0).i, Scan(score, NumPhi, NumTheta, 0).j)
  {
    fileName := DataFileName(metric);
    if metric !in MetricDispatch.MetricNames {
      return fileName, [], Aborted(MetricDispatch.UnsupportedMetric);
    }
    var buffer, winningScore, winningI, winningJ := SearchGrid(NumTheta, NumPhi, score);
    contents := WriteRows(buffer);
    outcome := Completed(winningI, winningJ);
  }

  // ---------------------------------------------------------------------------
  // Consequences for whole grids.

  /** If no score exceeds -DBL_MAX (for instance every score is NaN), both indices stay -1. */
  lemma NoScoreAboveSeedKeepsNoWinner(score: (nat, nat) -> Float, numTheta: nat, numPhi: nat)
    requires forall i: nat, j: nat :: i < numTheta && j < numPhi ==> !Gt(score(i, j), NegDblMax)
    ensures Scan(score, numPhi, numTheta, 0) == Initial
  {
    ScanFacts(score, numPhi, numTheta, 0);
  }

  /** -FLT_MAX (the max_depth score of an empty frame) still beats the seed -DBL_MAX:
      a grid of such scores is won by its first sample. */
  lemma FltMaxSentinelBeatsSeed(score: (nat, nat) -> Float, numTheta: nat, numPhi: nat)
    requires numTheta > 0 && numPhi > 0
    requires forall i: nat, j: nat :: i < numTheta && j < numPhi ==> score(i, j) == NegFltMax
    ensures Scan(score, numPhi, numTheta, 0) == Winner(NegFltMax, 0, 0)
  {
    ScanFacts(score, numPhi, numTheta, 0);
    var w := Scan(score, numPhi, numTheta, 0);
    assert Gt(score(0, 0), NegDblMax);
    assert w.i != -1;
    assert w.score == NegFltMax;
  }

  /** Scenario: on the 2 x 2 grid [[1, 5], [3, 2]] the winner is (0, 1). */
  lemma TwoByTwoScenario(score: (nat, nat) -> Float)
    requires score(0, 0) == Finite(1.0) && score(0, 1) == Finite(5.0)
    requires score(1, 0) == Finite(3.0) && score(1, 1) == Finite(2.0)
    ensures Scan(score, 2, 2, 0) == Winner(Finite(5.0), 0, 1)
  {
  }
}
