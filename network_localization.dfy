/** `netprop_localization`: how far a seed set's proximal network outgrows the
    ones grown from random degree-matched seed sets.

    Each random propagation trial is scored leave-one-out: its row of heats is
    blanked with NaN, the per-gene log mean and deviation are taken over the
    rows left, and the trial's own row is standardized against them. A gene is
    proximal when its score is strictly above the threshold; seed genes are
    discounted by subtracting their number. The real seed set's count is then
    placed on the log scale of the random counts. */
module NetworkLocalization {
  import opened Floats

  /** The exceptions the function raises before it can return. */
  datatype Error =
    | EmptyHeats   // no random trial: `random_final_heats[0]` raises IndexError
    | RaggedHeats  // rows of different widths: `np.log` of the matrix raises

  datatype Result<T> = Success(value: T) | Failure(error: Error)

  /** The returned triple `(z_score, proximal_network_size, random_proximal_network_sizes)`. */
  datatype Localization = Localization(zScore: Float, proximalSize: int, randomSizes: seq<int>)

  // ---------------------------------------------------------------- counting

  /** `sum(xs > t)`: how many entries are strictly greater than `t`. */
  function CountAbove(xs: seq<Float>, t: real): (c: nat)
    ensures c <= |xs|
  {
    if xs == [] then 0
    else CountAbove(xs[..|xs| - 1], t) + (if Greater(xs[|xs| - 1], t) then 1 else 0)
  }

  /** The positions of the entries strictly greater than `t`. */
  function AboveIndices(xs: seq<Float>, t: real): set<nat>
  {
    set i: nat | i < |xs| && Greater(xs[i], t)
  }

  /** The count is the number of positions whose entry is strictly above the threshold. */
  lemma {:induction false} CountAboveIsCardinality(xs: seq<Float>, t: real)
    ensures CountAbove(xs, t) == |AboveIndices(xs, t)|
  {
    if xs == [] {
      assert AboveIndices(xs, t) == {};
    } else {
      var last := |xs| - 1;
      var init := xs[..last];
      CountAboveIsCardinality(init, t);
      assert AboveIndices(xs, t) ==
        AboveIndices(init, t) + (if Greater(xs[last], t) then {last} else {});
    }
  }

  /** An entry exactly at the threshold is not counted, wherever it stands. */
  lemma AtThresholdNotCounted(xs: seq<Float>, t: real)
    ensures forall i :: 0 <= i < |xs| && xs[i] == Finite(t) ==> i !in AboveIndices(xs, t)
  {
  }

  /** Raising the threshold never adds to the count. */
  lemma {:induction false} CountAboveMonotone(xs: seq<Float>, t1: real, t2: real)
    requires t1 <= t2
    ensures CountAbove(xs, t2) <= CountAbove(xs, t1)
  {
    if xs != [] {
      CountAboveMonotone(xs[..|xs| - 1], t1, t2);
    }
  }

  /** A run of NaN counts nothing, whatever the threshold. */
  lemma {:induction false} CountAboveAllNaN(xs: seq<Float>, t: real)
    requires forall i :: 0 <= i < |xs| ==> xs[i].NaN?
    ensures CountAbove(xs, t) == 0
  {
    if xs != [] {
      CountAboveAllNaN(xs[..|xs| - 1], t);
    }
  }

  // ------------------------------------------------------- the heats matrix

  /** `[np.nan] * width` */
  function NanRow(width: nat): seq<Float>
  {
    seq(width, _ => NaN)
  }

  /** Every row is `w` entries wide. */
  predicate Width(m: seq<seq<Float>>, w: nat)
  {
    forall i :: 0 <= i < |m| ==> |m[i]| == w
  }

  /** Every row has the width of row 0, so numpy sees a matrix. */
  predicate Rectangular(m: seq<seq<Float>>)
  {
    |m| == 0 || Width(m, |m[0]|)
  }

  /** The matrix while trial `r` runs: row `r` blanked with a NaN row as wide as row 0. */
  function Excluded(m: seq<seq<Float>>, r: nat): seq<seq<Float>>
    requires r < |m|
  {
    m[r := NanRow(|m[0]|)]
  }

  /** The other rows, in order: what trial `r` is meant to compare against. */
  function Dropped(m: seq<seq<Float>>, r: nat): seq<seq<Float>>
    requires r < |m|
  {
    m[..r] + m[r + 1..]
  }

  /** Column `j` of `np.log(m)`. */
  function LogColumn(k: Kernels, m: seq<seq<Float>>, j: nat): seq<Float>
    requires forall i :: 0 <= i < |m| ==> j < |m[i]|
  {
    seq(|m|, i requires 0 <= i < |m| => Log(k, m[i][j]))
  }

  // ------------------------------------------------------------ one trial

  /** `(np.log(focal) - nanmean(np.log(m), axis=0)) / nanstd(np.log(m), axis=0)`, gene by gene. */
  function TrialScores(k: Kernels, m: seq<seq<Float>>, focal: seq<Float>): (z: seq<Float>)
    requires Width(m, |focal|)
    ensures |z| == |focal|
  {
    seq(|focal|, j requires 0 <= j < |focal| =>
      Standardize(k, Log(k, focal[j]), NanMean(k, LogColumn(k, m, j)), NanStd(k, LogColumn(k, m, j))))
  }

  /** One trial's proximal size: genes scoring strictly above `t`, less the seed count. */
  function TrialSize(k: Kernels, m: seq<seq<Float>>, focal: seq<Float>, seedCount: nat, t: real): (s: int)
    requires Width(m, |focal|)
    ensures 0 <= s + seedCount <= |focal|
  {
    CountAbove(TrialScores(k, m, focal), t) - seedCount
  }

  lemma LogColumnSplit(k: Kernels, m: seq<seq<Float>>, r: nat, j: nat)
    requires Rectangular(m) && r < |m| && j < |m[0]|
    ensures LogColumn(k, Excluded(m, r), j) == LogColumn(k, m[..r], j) + [NaN] + LogColumn(k, m[r + 1..], j)
    ensures LogColumn(k, Dropped(m, r), j) == LogColumn(k, m[..r], j) + LogColumn(k, m[r + 1..], j)
  {
  }

  lemma ExcludedColumnSkipped(k: Kernels, m: seq<seq<Float>>, r: nat, j: nat)
    requires Rectangular(m) && r < |m| && j < |m[0]|
    ensures NonNaN(LogColumn(k, Excluded(m, r), j)) == NonNaN(LogColumn(k, Dropped(m, r), j))
  {
    LogColumnSplit(k, m, r, j);
    var a, b := LogColumn(k, m[..r], j), LogColumn(k, m[r + 1..], j);
    calc {
      NonNaN(a + [NaN] + b);
      { NonNaNConcat(a + [NaN], b); }
      NonNaN(a + [NaN]) + NonNaN(b);
      { NonNaNConcat(a, [NaN]); assert NonNaN([NaN]) == []; }
      NonNaN(a) + NonNaN(b);
      { NonNaNConcat(a, b); }
      NonNaN(a + b);
    }
  }

  lemma DroppedWidth(m: seq<seq<Float>>, r: nat)
    requires Rectangular(m) && r < |m|
    ensures Width(Dropped(m, r), |m[r]|)
  {
    forall i | 0 <= i < |Dropped(m, r)| ensures |Dropped(m, r)[i]| == |m[r]| {
      assert Dropped(m, r)[i] == if i < r then m[i] else m[i + 1];
    }
  }

  /** Blanking row `r` with NaN is the same, to every statistic the trial takes,
      as leaving row `r` out: trial `r` sees exactly the other rows. */
  lemma ExcludedRowIsSkipped(k: Kernels, m: seq<seq<Float>>, r: nat)
    requires Rectangular(m) && r < |m|
    ensures Width(Dropped(m, r), |m[r]|)
    ensures TrialScores(k, Excluded(m, r), m[r]) == TrialScores(k, Dropped(m, r), m[r])
  {
    DroppedWidth(m, r);
    var excluded, dropped := TrialScores(k, Excluded(m, r), m[r]), TrialScores(k, Dropped(m, r), m[r]);
    forall j | 0 <= j < |m[r]| ensures excluded[j] == dropped[j] {
      ExcludedColumnSkipped(k, m, r, j);
    }
  }

  /** A gene whose heat is not a positive number never counts: a heat of 0 has
      log -inf, which stays -inf or becomes NaN, and a negative, NaN or -inf
      heat has log NaN. */
  lemma NonPositiveHeatNeverCounts(k: Kernels, m: seq<seq<Float>>, focal: seq<Float>, j: nat, t: real)
    requires Width(m, |focal|) && j < |focal|
    requires !(focal[j].Finite? && focal[j].v > 0.0) && focal[j] != PosInf
    ensures j !in AboveIndices(TrialScores(k, m, focal), t)
  {
  }

  /** A gene whose heat is +inf always counts, as long as its column's mean and
      deviation over the other rows are finite numbers. */
  lemma InfiniteHeatCounts(k: Kernels, m: seq<seq<Float>>, focal: seq<Float>, j: nat, t: real)
    requires Width(m, |focal|) && j < |focal| && focal[j] == PosInf
    requires NanMean(k, LogColumn(k, m, j)).Finite? && NanStd(k, LogColumn(k, m, j)).Finite?
    ensures j in AboveIndices(TrialScores(k, m, focal), t)
  {
  }

  /** With only one other row, its finite log is both the mean and, with
      deviation 0, the whole spread: a gene scores +inf when its log heat is
      above the other row's, -inf when below and NaN when equal. */
  lemma OneOtherRowScore(k: Kernels, m: seq<seq<Float>>, focal: seq<Float>, j: nat)
    requires |m| == 1 && |m[0]| == |focal| && j < |focal|
    requires focal[j].Finite? && focal[j].v > 0.0 && m[0][j].Finite? && m[0][j].v > 0.0
    ensures Width(m, |focal|)
    ensures var own, other := k.ln(focal[j].v), k.ln(m[0][j].v);
      TrialScores(k, m, focal)[j] == if own > other then PosInf else if own < other then NegInf else NaN
  {
  }

  // ------------------------------------------------------------ the whole

  /** The list built by the loop: entry `r` from trial `r`, in row order. */
  function TrialSizes(k: Kernels, m: seq<seq<Float>>, seedCount: nat, t: real): (sizes: seq<int>)
    requires |m| > 0 && Rectangular(m)
    ensures |sizes| == |m|
    ensures forall r :: 0 <= r < |m| ==> 0 <= sizes[r] + seedCount <= |m[0]|
  {
    seq(|m|, r requires 0 <= r < |m| => TrialSize(k, Excluded(m, r), m[r], seedCount, t))
  }

  /** `sum(z_scores > t) - len(seed_genes)` */
  function ProximalSize(zScores: seq<Float>, seedCount: nat, t: real): (p: int)
    ensures 0 <= p + seedCount <= |zScores|
  {
    CountAbove(zScores, t) - seedCount
  }

  /** `np.log` of a list of ints. */
  function LogSizes(k: Kernels, sizes: seq<int>): seq<Float>
  {
    seq(|sizes|, i requires 0 <= i < |sizes| => Log(k, Finite(sizes[i] as real)))
  }

  /** The real size on the log scale of the random sizes, NaN entries skipped. */
  function LocalizationZ(k: Kernels, proximal: int, sizes: seq<int>): Float
  {
    var logs := LogSizes(k, sizes);
    Standardize(k, Log(k, Finite(proximal as real)), NanMean(k, logs), NanStd(k, logs))
  }

  /** What the function returns when the matrix has at least one row and is rectangular. */
  function Localize(k: Kernels, zScores: seq<Float>, m: seq<seq<Float>>, seedCount: nat, t: real): (loc: Localization)
    requires |m| > 0 && Rectangular(m)
    ensures |loc.randomSizes| == |m|
  {
    var sizes := TrialSizes(k, m, seedCount, t);
    var proximal := ProximalSize(zScores, seedCount, t);
    Localization(LocalizationZ(k, proximal, sizes), proximal, sizes)
  }

  /** The counts are what they claim to be: the real one counts the genes strictly
      above the threshold, and trial `r` counts the genes of row `r` whose score
      against the other rows is strictly above it; both less the seed count. */
  lemma LocalizeCounts(k: Kernels, zScores: seq<Float>, m: seq<seq<Float>>, seedCount: nat, t: real, r: nat)
    requires |m| > 0 && Rectangular(m) && r < |m|
    ensures Width(Dropped(m, r), |m[r]|)
    ensures Localize(k, zScores, m, seedCount, t).proximalSize == |AboveIndices(zScores, t)| - seedCount
    ensures Localize(k, zScores, m, seedCount, t).randomSizes[r]
         == |AboveIndices(TrialScores(k, Dropped(m, r), m[r]), t)| - seedCount
  {
    ExcludedRowIsSkipped(k, m, r);
    CountAboveIsCardinality(zScores, t);
    CountAboveIsCardinality(TrialScores(k, Dropped(m, r), m[r]), t);
  }

  /** Raising the threshold never increases the real size nor any trial's size. */
  lemma LocalizeMonotone(k: Kernels, zScores: seq<Float>, m: seq<seq<Float>>, seedCount: nat, t1: real, t2: real)
    requires |m| > 0 && Rectangular(m) && t1 <= t2
    ensures Localize(k, zScores, m, seedCount, t2).proximalSize <= Localize(k, zScores, m, seedCount, t1).proximalSize
    ensures forall r :: 0 <= r < |m| ==>
      Localize(k, zScores, m, seedCount, t2).randomSizes[r] <= Localize(k, zScores, m, seedCount, t1).randomSizes[r]
  {
    CountAboveMonotone(zScores, t1, t2);
    forall r | 0 <= r < |m|
      ensures TrialSizes(k, m, seedCount, t2)[r] <= TrialSizes(k, m, seedCount, t1)[r]
    {
      CountAboveMonotone(TrialScores(k, Excluded(m, r), m[r]), t1, t2);
    }
  }

  /** The score is NaN when the real size is negative, when some trial has size
      exactly 0 (its log is -inf, which `nanstd` does not skip), or when every
      trial is negative (nothing is left for `nanmean`). */
  lemma ScoreUndefined(k: Kernels, proximal: int, sizes: seq<int>)
    requires proximal < 0 || 0 in sizes || forall i :: 0 <= i < |sizes| ==> sizes[i] < 0
    ensures LocalizationZ(k, proximal, sizes) == NaN
  {
    var logs := LogSizes(k, sizes);
    NonNaNMembers(logs);
    if 0 in sizes {
      var i :| 0 <= i < |sizes| && sizes[i] == 0;
      assert logs[i] == NegInf;
      assert NegInf in NonNaN(logs);
    } else if forall i :: 0 <= i < |sizes| ==> sizes[i] < 0 {
      if NonNaN(logs) != [] {
        assert NonNaN(logs)[0] in NonNaN(logs);
      }
    }
  }

  /** When the real size and every trial are positive nothing is skipped: the
      score standardizes the log size by the mean and deviation of all the logs. */
  lemma ScoreOverPositiveTrials(k: Kernels, proximal: int, sizes: seq<int>)
    requires proximal > 0 && |sizes| > 0
    requires forall i :: 0 <= i < |sizes| ==> sizes[i] > 0
    ensures var logs := seq(|sizes|, i requires 0 <= i < |sizes| => Finite(k.ln(sizes[i] as real)));
      LocalizationZ(k, proximal, sizes) == Standardize(k, Finite(k.ln(proximal as real)), FiniteMean(k, logs), FiniteStd(k, logs))
  {
    var logs := LogSizes(k, sizes);
    assert logs == seq(|sizes|, i requires 0 <= i < |sizes| => Finite(k.ln(sizes[i] as real)));
    NonNaNOfNoNaN(logs);
    assert PosInf !in logs && NegInf !in logs;
  }

  /** The trial sizes whose log is a finite number: the positive ones, in order. */
  function Positives(sizes: seq<int>): (p: seq<int>)
    ensures forall x :: x in p <==> x in sizes && x > 0
  {
    if sizes == [] then []
    else (if sizes[0] > 0 then [sizes[0]] else []) + Positives(sizes[1..])
  }

  lemma LogSizesConcat(k: Kernels, a: seq<int>, b: seq<int>)
    ensures LogSizes(k, a + b) == LogSizes(k, a) + LogSizes(k, b)
  {
  }

  /** With no trial of size 0, the logs `nanmean` and `nanstd` keep are exactly
      the logs of the positive trials: the negative ones are NaN and skipped. */
  lemma {:induction false} NonNaNLogSizes(k: Kernels, sizes: seq<int>)
    requires 0 !in sizes
    ensures NonNaN(LogSizes(k, sizes)) == LogSizes(k, Positives(sizes))
  {
    if sizes != [] {
      var head, rest := sizes[0], sizes[1..];
      assert sizes == [head] + rest;
      assert 0 !in rest;
      NonNaNLogSizes(k, rest);
      LogSizesConcat(k, [head], rest);
      var logs := LogSizes(k, sizes);
      assert logs[0] == Log(k, Finite(head as real));
      assert logs[1..] == LogSizes(k, rest);
      LogSizesConcat(k, if head > 0 then [head] else [], Positives(rest));
    }
  }

  /** With a positive real size, no trial of size 0 and at least one positive
      trial, the score standardizes the log real size by the mean and deviation
      of the logs of the positive trials alone; the negative trials drop out of
      the statistics although they stay in the returned list. */
  lemma ScoreOverPositiveEntries(k: Kernels, proximal: int, sizes: seq<int>)
    requires proximal > 0 && 0 !in sizes
    requires exists i :: 0 <= i < |sizes| && sizes[i] > 0
    ensures LocalizationZ(k, proximal, sizes) == Standardize(k, Finite(k.ln(proximal as real)),
      FiniteMean(k, LogSizes(k, Positives(sizes))), FiniteStd(k, LogSizes(k, Positives(sizes))))
  {
    var kept := LogSizes(k, Positives(sizes));
    NonNaNLogSizes(k, sizes);
    var i :| 0 <= i < |sizes| && sizes[i] > 0;
    assert sizes[i] in Positives(sizes);
    assert kept != [];
    forall x | x in kept ensures x.Finite? {
      var j :| 0 <= j < |kept| && kept[j] == x;
      assert Positives(sizes)[j] in Positives(sizes);
    }
    assert PosInf !in kept && NegInf !in kept;
  }

  /** A real size of exactly 0 has log -inf, and the score is -inf, or NaN when
      the statistics of the random logs are not finite numbers. */
  lemma EmptyProximalScore(k: Kernels, sizes: seq<int>)
    ensures LocalizationZ(k, 0, sizes) == NegInf || LocalizationZ(k, 0, sizes) == NaN
    ensures NanMean(k, LogSizes(k, sizes)).Finite? && NanStd(k, LogSizes(k, sizes)).Finite? ==>
      LocalizationZ(k, 0, sizes) == NegInf
  {
  }

  /** Five genes scored 1, 1, 1, 10, 10 with one seed and threshold 3: two genes
      are above, one is the seed's, so the proximal size is 1. */
  lemma ProximalSizeExample()
    ensures ProximalSize([Finite(1.0), Finite(1.0), Finite(1.0), Finite(10.0), Finite(10.0)], 1, 3.0) == 1
  {
    var low, high := Finite(1.0), Finite(10.0);
    assert CountAbove([low], 3.0) == 0 by { assert [low][..0] == []; }
    assert CountAbove([low, low], 3.0) == 0 by { assert [low, low][..1] == [low]; }
    assert CountAbove([low, low, low], 3.0) == 0 by { assert [low, low, low][..2] == [low, low]; }
    assert CountAbove([low, low, low, high], 3.0) == 1 by { assert [low, low, low, high][..3] == [low, low, low]; }
    assert [low, low, low, high, high][..4] == [low, low, low, high];
  }

  /** Random sizes 0, 1, 2: the size-0 trial is not left out of the null as
      one might expect; its log is -inf and the score is NaN. */
  lemma ZeroSizedTrialExample(k: Kernels)
    ensures LocalizationZ(k, 1, [0, 1, 2]) == NaN
  {
    ScoreUndefined(k, 1, [0, 1, 2]);
  }

  // ------------------------------------------------------- the procedure

  /** `netprop_localization` on a list of row lists: `focal_row` is the row
      value itself, so the restore writes the original back. */
  method NetpropLocalization(k: Kernels, zScores: seq<Float>, heats: array<seq<Float>>, seedGenes: seq<string>, threshold: real := 3.0)
    returns (result: Result<Localization>)
    modifies heats
    ensures heats.Length == 0 ==> result == Failure(EmptyHeats) && heats[..] == old(heats[..])
    ensures heats.Length > 0 && !Rectangular(old(heats[..])) ==>
      result == Failure(RaggedHeats) && heats[..] == Excluded(old(heats[..]), 0)
    ensures heats.Length > 0 && Rectangular(old(heats[..])) ==>
      result == Success(Localize(k, zScores, old(heats[..]), |seedGenes|, threshold)) && heats[..] == old(heats[..])
  {
    if heats.Length == 0 {
      return Failure(EmptyHeats);
    }
    ghost var original := heats[..];
    var nanRow := NanRow(|heats[0]|);
    var sizes: seq<int> := [];
    var r := 0;
    while r < heats.Length
      invariant 0 <= r <= heats.Length
      invariant heats[..] == original
      invariant r > 0 ==> Rectangular(original)
      invariant |sizes| == r
      invariant forall i :: 0 <= i < r ==>
        sizes[i] == TrialSize(k, Excluded(original, i), original[i], |seedGenes|, threshold)
    {
      var focal := heats[r];
      heats[r] := nanRow;
      // only row r differs from the input while the trial runs
      assert heats[..] == Excluded(original, r);
      if !Rectangular(heats[..]) {
        return Failure(RaggedHeats);
      }
      var count := TrialSize(k, heats[..], focal, |seedGenes|, threshold);
      sizes := sizes + [count];
      heats[r] := focal;
      r := r + 1;
    }
    assert sizes == TrialSizes(k, original, |seedGenes|, threshold);
    var proximal := ProximalSize(zScores, |seedGenes|, threshold);
    result := Success(Localization(LocalizationZ(k, proximal, sizes), proximal, sizes));
  }
  // ------------------------------------------- the same code on an ndarray

  /** A NaN focal row counts nothing: each of its scores is NaN. */
  lemma NaNFocalCountsNothing(k: Kernels, m: seq<seq<Float>>, width: nat, seedCount: nat, t: real)
    requires Width(m, width)
    ensures TrialSize(k, m, NanRow(width), seedCount, t) == -(seedCount as int)
  {
    CountAboveAllNaN(TrialScores(k, m, NanRow(width)), t);
  }

  /** When every trial has the same non-positive size `-seedCount`, the score is NaN. */
  lemma ViewScoreIsNaN(k: Kernels, proximal: int, trials: nat, seedCount: nat)
    requires trials > 0
    ensures LocalizationZ(k, proximal, seq(trials, _ => -(seedCount as int))) == NaN
  {
    var sizes := seq(trials, _ => -(seedCount as int));
    if seedCount == 0 {
      assert sizes[0] == 0;
    }
    ScoreUndefined(k, proximal, sizes);
  }

  /** The rows of a 2-D ndarray: row `i` is the storage `random_final_heats[i]` views. */
  function ViewRows(heats: array<array<Float>>): seq<seq<Float>>
    reads heats, heats[..]
  {
    seq(heats.Length, i requires 0 <= i < heats.Length reads heats, heats[..] => heats[i][..])
  }

  /** `random_final_heats[r] = values` on an ndarray: copies into the row's storage. */
  method CopyIntoRow(row: array<Float>, values: seq<Float>)
    requires |values| == row.Length
    modifies row
    ensures row[..] == values
  {
    forall j | 0 <= j < row.Length {
      row[j] := values[j];
    }
  }

  /** One pass of the loop on an ndarray: `focal_row` is the storage of row `r`
      itself, so it is blanked with the row and the restore copies NaN onto NaN. */
  method TrialOnView(k: Kernels, heats: array<array<Float>>, r: nat, seedCount: nat, threshold: real)
    returns (count: int)
    requires r < heats.Length
    requires forall i :: 0 <= i < heats.Length ==> heats[i].Length == heats[0].Length
    modifies heats[r]
    ensures heats[r][..] == NanRow(heats[0].Length)
    ensures count == -(seedCount as int)
  {
    var width := heats[0].Length;
    var focal := heats[r];
    CopyIntoRow(heats[r], NanRow(width));
    var rows := ViewRows(heats);
    assert Width(rows, width);
    count := TrialSize(k, rows, focal[..], seedCount, threshold);
    NaNFocalCountsNothing(k, rows, width, seedCount, threshold);
    CopyIntoRow(heats[r], focal[..]);
  }

  /** `netprop_localization` on a 2-D float ndarray, as its docstring asks for:
      `focal_row` is a view of row `r`, so blanking the row blanks the focal row
      too, and the restore copies the NaN row onto itself. Every row comes back
      NaN, every trial counts `-len(seed_genes)` and the score is NaN. */
  method NetpropLocalizationOnView(k: Kernels, zScores: seq<Float>, heats: array<array<Float>>, seedGenes: seq<string>, threshold: real := 3.0)
    returns (result: Result<Localization>)
    requires forall i :: 0 <= i < heats.Length ==> heats[i].Length == heats[0].Length
    requires forall i, j :: 0 <= i < j < heats.Length ==> heats[i] != heats[j]
    modifies heats[..]
    ensures heats.Length == 0 ==> result == Failure(EmptyHeats)
    ensures heats.Length > 0 ==> result == Success(Localization(
      NaN, ProximalSize(zScores, |seedGenes|, threshold), seq(heats.Length, _ => -|seedGenes|)))
    ensures forall i :: 0 <= i < heats.Length ==> heats[i][..] == NanRow(heats[i].Length)
  {
    if heats.Length == 0 {
      return Failure(EmptyHeats);
    }
    var width := heats[0].Length;
    var nanRow := NanRow(width);
    var sizes: seq<int> := [];
    var r := 0;
    while r < heats.Length
      invariant 0 <= r <= heats.Length
      invariant forall i :: 0 <= i < r ==> heats[i][..] == nanRow
      invariant forall i :: r <= i < heats.Length ==> heats[i][..] == old(heats[i][..])
      invariant sizes == seq(r, _ => -|seedGenes|)
    {
      var count := TrialOnView(k, heats, r, |seedGenes|, threshold);
      sizes := sizes + [count];
      r := r + 1;
    }
    var proximal := ProximalSize(zScores, |seedGenes|, threshold);
    ViewScoreIsNaN(k, proximal, heats.Length, |seedGenes|);
    result := Success(Localization(LocalizationZ(k, proximal, sizes), proximal, sizes));
  }
}
