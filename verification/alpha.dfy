/**
 * The spike-in alpha factor of lines 79-88. The 16 libraries form four
 * contiguous blocks of four (one strain/fraction each, told apart by the tags
 * below); in each block the row at offset 2 is the input library, whose
 * S. cerevisiae / S. pombe ratio normalises every library of the block:
 *
 *   alpha_i = 1 / (spom_i * scer_ref / spom_ref) = spom_ref / (spom_i * scer_ref)
 */
module Alpha {
  import opened Wrappers
  import opened PyText
  import opened Records

  const BlockSize: nat := 4
  const BlockCount: nat := 4
  /** Offset of the input (reference) row inside its block: rows 2, 6, 10 and 14. */
  const ReferenceOffset: nat := 2
  /** The name tag every row of block b carries (the filters of lines 85-88). */
  const BlockTags: seq<string> := ["93_D", "93_I", "95_D", "95_I"]
  const InputMarker: string := "input"

  predicate IsInput(r: Library)
  {
    Contains(r.name, InputMarker)
  }

  function ReferenceRow(b: nat): nat
  {
    BlockSize * b + ReferenceOffset
  }

  /** The block of row i: rows 4b..4b+3 form block b. */
  function BlockOf(i: nat): (b: nat)
    ensures BlockSize * b <= i < BlockSize * b + BlockSize
  {
    i / BlockSize
  }

  /** Line 84: the ratio scer/spom of every input row, keyed by its row label. */
  function NormSeries(t: seq<Library>): (norm: map<nat, real>)
    requires forall i :: 0 <= i < |t| && IsInput(t[i]) ==> t[i].spom != 0
    ensures forall i: nat :: i in norm <==> i < |t| && IsInput(t[i])
    ensures forall i: nat :: i in norm ==> i < |t| && norm[i] * t[i].spom as real == t[i].scer as real
  {
    map i: nat | i < |t| && IsInput(t[i]) :: t[i].scer as real / t[i].spom as real
  }

  /**
   * What lines 84-88 need of the counts to stay finite: 16 rows, no zero
   * spike-in count and no zero S. cerevisiae count on a reference input row
   * (otherwise pandas writes inf or NaN).
   */
  predicate AlphaReady(t: seq<Library>)
  {
    |t| == BlockCount * BlockSize &&
    (forall i :: 0 <= i < |t| ==> t[i].spom != 0) &&
    (forall b :: 0 <= b < BlockCount && IsInput(t[ReferenceRow(b)]) ==> t[ReferenceRow(b)].scer != 0)
  }

  /**
   * Every row of block b carries the block's tag, so the filtered series of
   * lines 85-88 has a value for every label of the block (pandas writes NaN
   * on a label the series lacks).
   */
  predicate TagsMatch(t: seq<Library>)
  {
    |t| == BlockCount * BlockSize &&
    forall i :: 0 <= i < |t| ==> Contains(t[i].name, BlockTags[BlockOf(i)])
  }

  /** The expression of line 85 for one row: `1 / (spom_counts * norm[ref])`. */
  function AlphaOf(spom: int, norm: real): real
    requires spom != 0 && norm != 0.0
  {
    1.0 / (spom as real * norm)
  }

  lemma NormOfReference(t: seq<Library>, b: nat)
    requires AlphaReady(t) && b < BlockCount && IsInput(t[ReferenceRow(b)])
    ensures ReferenceRow(b) in NormSeries(t) && NormSeries(t)[ReferenceRow(b)] != 0.0
  {
    var r := ReferenceRow(b);
    assert NormSeries(t)[r] * t[r].spom as real == t[r].scer as real;
  }

  /**
   * The right-hand side of one line of 85-88,
   * `1/(aligned_reads.loc[library contains tag]["spom_counts"] * n)`: a series
   * keyed by the labels of the rows whose name holds the tag.
   */
  function TaggedAlphas(t: seq<Library>, tag: string, n: real): (series: map<nat, real>)
    requires forall i :: 0 <= i < |t| ==> t[i].spom != 0
    requires n != 0.0
    ensures forall i: nat :: i in series <==> i < |t| && Contains(t[i].name, tag)
    ensures forall i: nat :: i in series ==> i < |t| && series[i] == AlphaOf(t[i].spom, n)
  {
    map i: nat | i < |t| && Contains(t[i].name, tag) :: AlphaOf(t[i].spom, n)
  }

  /** The alpha of row i, computed from its own block's reference. */
  function RowAlpha(t: seq<Library>, i: nat): real
    requires AlphaReady(t) && i < |t| && IsInput(t[ReferenceRow(BlockOf(i))])
  {
    NormOfReference(t, BlockOf(i));
    AlphaOf(t[i].spom, NormSeries(t)[ReferenceRow(BlockOf(i))])
  }

  /** The four alphas of block b. */
  function BlockAlpha(t: seq<Library>, b: nat): (alpha: seq<real>)
    requires AlphaReady(t) && b < BlockCount && IsInput(t[ReferenceRow(b)])
    ensures |alpha| == BlockSize
  {
    seq(BlockSize, j requires 0 <= j < BlockSize =>
      assert BlockOf(BlockSize * b + j) == b;
      RowAlpha(t, BlockSize * b + j))
  }

  /**
   * Blocks b, b+1, ... in order; the first block whose reference row is not
   * an input row fails the lookup `norm[ref]`.
   */
  function AlphaFrom(t: seq<Library>, b: nat): (r: Result<seq<real>, Failure>)
    requires AlphaReady(t) && b <= BlockCount
    ensures r.Ok? ==> |r.value| == BlockSize * (BlockCount - b)
    decreases BlockCount - b
  {
    if b == BlockCount then Ok([])
    else if ReferenceRow(b) !in NormSeries(t) then Err(ReferenceNotInput(ReferenceRow(b)))
    else match AlphaFrom(t, b + 1)
      case Err(e) => Err(e)
      case Ok(rest) => Ok(BlockAlpha(t, b) + rest)
  }

  /** The `alpha_IP` column after lines 84-88. */
  function AlphaColumn(t: seq<Library>): (r: Result<seq<real>, Failure>)
    requires AlphaReady(t)
    ensures r.Ok? ==> |r.value| == |t|
  {
    AlphaFrom(t, 0)
  }

  predicate ReferencesFrom(t: seq<Library>, b: nat)
    requires |t| == BlockCount * BlockSize
  {
    forall c :: b <= c < BlockCount ==> IsInput(t[ReferenceRow(c)])
  }

  lemma {:induction false} AlphaFromOk(t: seq<Library>, b: nat)
    requires AlphaReady(t) && b <= BlockCount
    ensures AlphaFrom(t, b).Ok? <==> ReferencesFrom(t, b)
    decreases BlockCount - b
  {
    if b < BlockCount {
      AlphaFromOk(t, b + 1);
      NormSeriesKeys(t, b);
    }
  }

  lemma NormSeriesKeys(t: seq<Library>, b: nat)
    requires AlphaReady(t) && b < BlockCount
    ensures ReferenceRow(b) in NormSeries(t) <==> IsInput(t[ReferenceRow(b)])
  {
  }

  lemma BlockAlphaAt(t: seq<Library>, b: nat, i: nat)
    requires AlphaReady(t) && b < BlockCount && IsInput(t[ReferenceRow(b)])
    requires BlockSize * b <= i < BlockSize * (b + 1)
    ensures BlockOf(i) == b && BlockAlpha(t, b)[i - BlockSize * b] == RowAlpha(t, i)
  {
  }

  /**
   * With the tags in place, the series of block b's line, read at the labels
   * 4b..4b+3 as `.loc` aligns it, is exactly the block's alphas.
   */
  lemma TaggedBlock(t: seq<Library>, b: nat)
    requires AlphaReady(t) && TagsMatch(t) && b < BlockCount && IsInput(t[ReferenceRow(b)])
    ensures NormSeries(t)[ReferenceRow(b)] != 0.0
    ensures var series := TaggedAlphas(t, BlockTags[b], NormSeries(t)[ReferenceRow(b)]);
      forall j :: 0 <= j < BlockSize ==>
        BlockSize * b + j in series && series[BlockSize * b + j] == BlockAlpha(t, b)[j]
  {
    NormOfReference(t, b);
    var series := TaggedAlphas(t, BlockTags[b], NormSeries(t)[ReferenceRow(b)]);
    forall j | 0 <= j < BlockSize
      ensures BlockSize * b + j in series && series[BlockSize * b + j] == BlockAlpha(t, b)[j]
    {
      BlockAlphaAt(t, b, BlockSize * b + j);
    }
  }

  lemma {:induction false} AlphaFromValues(t: seq<Library>, b: nat)
    requires AlphaReady(t) && b <= BlockCount && AlphaFrom(t, b).Ok?
    ensures forall i :: BlockSize * b <= i < |t| ==> AlphaFrom(t, b).value[i - BlockSize * b] == RowAlpha(t, i)
    decreases BlockCount - b
  {
    if b < BlockCount {
      AlphaFromValues(t, b + 1);
      NormSeriesKeys(t, b);
      var rest := AlphaFrom(t, b + 1).value;
      var block := BlockAlpha(t, b);
      assert AlphaFrom(t, b).value == block + rest;
      forall i | BlockSize * b <= i < |t|
        ensures AlphaFrom(t, b).value[i - BlockSize * b] == RowAlpha(t, i)
      {
        if i < BlockSize * (b + 1) {
          BlockAlphaAt(t, b, i);
          assert (block + rest)[i - BlockSize * b] == block[i - BlockSize * b];
        } else {
          assert (block + rest)[i - BlockSize * b] == rest[i - BlockSize * (b + 1)];
        }
      }
    }
  }

  lemma {:induction false} AlphaFromError(t: seq<Library>, b: nat)
    requires AlphaReady(t) && b <= BlockCount && AlphaFrom(t, b).Err?
    ensures var e := AlphaFrom(t, b).error;
      e.ReferenceNotInput? && e.row < |t| && e.row % BlockSize == ReferenceOffset &&
      b <= BlockOf(e.row) && !IsInput(t[e.row]) &&
      forall c :: b <= c < BlockOf(e.row) ==> IsInput(t[ReferenceRow(c)])
    decreases BlockCount - b
  {
    NormSeriesKeys(t, b);
    var r := ReferenceRow(b);
    assert BlockOf(r) == b;
    if IsInput(t[r]) {
      AlphaFromError(t, b + 1);
    }
  }

  /**
   * Lines 84-88 as a whole: the column is computed exactly when every block's
   * row 4b+2 is an input row; it then holds, for every row, the alpha taken
   * from that row's own block reference. Otherwise the run stops at the first
   * block whose row 4b+2 is not an input row.
   */
  lemma AlphaSpec(t: seq<Library>)
    requires AlphaReady(t)
    ensures AlphaColumn(t).Ok? <==> ReferencesFrom(t, 0)
    ensures AlphaColumn(t).Ok? ==> forall i :: 0 <= i < |t| ==> AlphaColumn(t).value[i] == RowAlpha(t, i)
    ensures AlphaColumn(t).Err? ==>
      var e := AlphaColumn(t).error;
      e.ReferenceNotInput? && e.row < |t| && e.row % BlockSize == ReferenceOffset && !IsInput(t[e.row]) &&
      forall c :: 0 <= c < BlockOf(e.row) ==> IsInput(t[ReferenceRow(c)])
  {
    AlphaFromOk(t, 0);
    if AlphaColumn(t).Ok? {
      AlphaFromValues(t, 0);
    } else {
      AlphaFromError(t, 0);
    }
  }

  lemma NormValue(t: seq<Library>, r: nat)
    requires forall i :: 0 <= i < |t| && IsInput(t[i]) ==> t[i].spom != 0
    requires r < |t| && IsInput(t[r])
    ensures r in NormSeries(t) && NormSeries(t)[r] == t[r].scer as real / t[r].spom as real
  {
  }

  /** 1 / (x * (c / s)) == s / (x * c) over nonzero reals. */
  lemma ReciprocalOfScaledRatio(x: real, c: real, s: real)
    requires x != 0.0 && c != 0.0 && s != 0.0
    ensures 1.0 / (x * (c / s)) == s / (x * c)
  {
    var n := c / s;
    assert n * s == c;
    assert x * n * s == x * c;
    var y := x * n;
    assert y != 0.0;
    assert (s / (x * c)) * y == (s * y) / (x * c);
    assert s * y == x * c;
  }

  /** (s / (x * c)) * x == s / c over nonzero reals. */
  lemma ScaledRatioTimesFactor(x: real, c: real, s: real)
    requires x != 0.0 && c != 0.0
    ensures s / (x * c) * x == s / c
  {
    assert s / (x * c) * x == (s * x) / (x * c);
    assert (s / c) * (x * c) == s * x;
  }

  /** Comment of line 79, simplified: alpha_i = spom_ref / (spom_i * scer_ref). */
  lemma AlphaClosedForm(t: seq<Library>, i: nat)
    requires AlphaReady(t) && i < |t| && IsInput(t[ReferenceRow(BlockOf(i))])
    ensures var r := t[ReferenceRow(BlockOf(i))];
      RowAlpha(t, i) == r.spom as real / (t[i].spom as real * r.scer as real)
  {
    var ref := ReferenceRow(BlockOf(i));
    var r := t[ref];
    NormValue(t, ref);
    var spomRef, scerRef, spom := r.spom as real, r.scer as real, t[i].spom as real;
    assert RowAlpha(t, i) == 1.0 / (spom * (scerRef / spomRef));
    ReciprocalOfScaledRatio(spom, scerRef, spomRef);
  }

  /** The reference row's own alpha is 1 / scer_ref. */
  lemma ReferenceAlpha(t: seq<Library>, b: nat)
    requires AlphaReady(t) && b < BlockCount && IsInput(t[ReferenceRow(b)])
    ensures BlockOf(ReferenceRow(b)) == b
    ensures RowAlpha(t, ReferenceRow(b)) == 1.0 / t[ReferenceRow(b)].scer as real
  {
    var r := ReferenceRow(b);
    assert BlockOf(r) == b;
    AlphaClosedForm(t, r);
    var spom, scer := t[r].spom as real, t[r].scer as real;
    ScaledRatioTimesFactor(spom, scer, 1.0);
    assert spom / (spom * scer) == 1.0 / (spom * scer) * spom;
  }

  /** alpha_i * spom_i is the same for every row of a block: spom_ref / scer_ref. */
  lemma AlphaTimesSpikeIsBlockConstant(t: seq<Library>, i: nat)
    requires AlphaReady(t) && i < |t| && IsInput(t[ReferenceRow(BlockOf(i))])
    ensures var r := t[ReferenceRow(BlockOf(i))];
      RowAlpha(t, i) * t[i].spom as real == r.spom as real / r.scer as real
  {
    AlphaClosedForm(t, i);
    var r := t[ReferenceRow(BlockOf(i))];
    var a, spomRef, scerRef, spom := RowAlpha(t, i), r.spom as real, r.scer as real, t[i].spom as real;
    assert a == spomRef / (spom * scerRef);
    ScaledRatioTimesFactor(spom, scerRef, spomRef);
    assert a * spom == spomRef / (spom * scerRef) * spom;
  }

  lemma SmallerFactorOfSameProduct(ai: real, aj: real, si: real, sj: real)
    requires 0.0 < si < sj && aj > 0.0 && ai * si == aj * sj
    ensures aj < ai
  {
    assert aj * sj > aj * si;
    assert ai * si > aj * si;
  }

  lemma PositiveRatio(s: real, d: real)
    requires s > 0.0 && d > 0.0
    ensures s / d > 0.0
  {
  }

  /** Within a block (positive reference counts), more spike-in reads means a smaller alpha. */
  lemma AlphaDecreasesWithSpike(t: seq<Library>, i: nat, j: nat)
    requires AlphaReady(t) && i < |t| && j < |t| && BlockOf(i) == BlockOf(j)
    requires IsInput(t[ReferenceRow(BlockOf(i))])
    requires t[ReferenceRow(BlockOf(i))].spom > 0 && t[ReferenceRow(BlockOf(i))].scer > 0
    requires 0 < t[i].spom < t[j].spom
    ensures 0.0 < RowAlpha(t, j) < RowAlpha(t, i)
  {
    AlphaClosedForm(t, j);
    AlphaTimesSpikeIsBlockConstant(t, i);
    AlphaTimesSpikeIsBlockConstant(t, j);
    var r := t[ReferenceRow(BlockOf(i))];
    var spomRef, scerRef, sj := r.spom as real, r.scer as real, t[j].spom as real;
    assert sj * scerRef > 0.0;
    PositiveRatio(spomRef, sj * scerRef);
    SmallerFactorOfSameProduct(RowAlpha(t, i), RowAlpha(t, j), t[i].spom as real, sj);
  }

  /**
   * Block b uses its row 4b+2 and no other: a row's alpha is fixed by its own
   * spike-in count and its reference row, whatever the other rows hold.
   */
  lemma AlphaDependsOnlyOnReference(t: seq<Library>, u: seq<Library>, i: nat)
    requires AlphaReady(t) && AlphaReady(u) && i < |t|
    requires IsInput(t[ReferenceRow(BlockOf(i))])
    requires t[i].spom == u[i].spom && t[ReferenceRow(BlockOf(i))] == u[ReferenceRow(BlockOf(i))]
    ensures RowAlpha(t, i) == RowAlpha(u, i)
  {
    AlphaClosedForm(t, i);
    AlphaClosedForm(u, i);
  }

  /** One `aligned_reads.loc[4b:4b+3, 'alpha_IP'] = ...` statement of lines 85-88. */
  method AssignBlock(t: seq<Library>, norm: map<nat, real>, alphaIP: array<real>, b: nat)
    returns (err: Option<Failure>)
    requires AlphaReady(t) && TagsMatch(t) && norm == NormSeries(t) && alphaIP.Length == |t| && b < BlockCount
    modifies alphaIP
    ensures err.Some? <==> !IsInput(t[ReferenceRow(b)])
    ensures err.Some? ==> err.value == ReferenceNotInput(ReferenceRow(b)) && alphaIP[..] == old(alphaIP[..])
    ensures err.None? ==> forall i :: 0 <= i < |t| ==>
      alphaIP[i] == if BlockOf(i) == b then RowAlpha(t, i) else old(alphaIP[i])
  {
    var ref := ReferenceRow(b);
    if ref !in norm {
      return Some(ReferenceNotInput(ref));
    }
    TaggedBlock(t, b);
    var series := TaggedAlphas(t, BlockTags[b], norm[ref]);
    forall i | BlockSize * b <= i < BlockSize * (b + 1) {
      alphaIP[i] := series[i];
    }
    forall i | 0 <= i < |t| && BlockOf(i) == b ensures alphaIP[i] == RowAlpha(t, i) {
      assert BlockSize * b <= i < BlockSize * (b + 1);
    }
    return None;
  }

  /** Lines 84-88: norm, then the four block assignments in order. */
  method AssignAlpha(t: seq<Library>, alphaIP: array<real>) returns (err: Option<Failure>)
    requires AlphaReady(t) && TagsMatch(t) && alphaIP.Length == |t|
    modifies alphaIP
    ensures err.None? <==> AlphaColumn(t).Ok?
    ensures err.None? ==> alphaIP[..] == AlphaColumn(t).value
    ensures err.Some? ==> err.value == AlphaColumn(t).error
  {
    AlphaSpec(t);
    var norm := NormSeries(t);
    err := AssignBlock(t, norm, alphaIP, 0);
    if err.Some? { return; }
    err := AssignBlock(t, norm, alphaIP, 1);
    if err.Some? { return; }
    err := AssignBlock(t, norm, alphaIP, 2);
    if err.Some? { return; }
    err := AssignBlock(t, norm, alphaIP, 3);
    if err.Some? { return; }
    forall i | 0 <= i < |t| ensures alphaIP[i] == AlphaColumn(t).value[i] {
      assert BlockOf(i) < BlockCount;
    }
  }
}
