/** The masking bookkeeping of the SPOTER encoder: mask selection, target
    extraction, the pad and mask overwrites of the hidden batch, and the
    forward pass that sequences them and gathers predictions. */
module Encoder {
  import opened MaskIndices
  import opened Ragged

  datatype Option<T> = None | Some(value: T)

  /** The boundary list `forward` uses: the caller's list, or every sequence
      at full length when none is given (model.py:105-106). */
  function ResolvePadding(paddingIdx: Option<seq<nat>>, batchSize: nat, seqLen: nat): (r: seq<nat>)
    ensures paddingIdx.Some? ==> r == paddingIdx.value
    ensures paddingIdx.None? ==> |r| == batchSize && forall bi :: 0 <= bi < batchSize ==> r[bi] == seqLen
  {
    match paddingIdx
    case Some(p) => p
    case None => seq(batchSize, _ => seqLen)
  }

  /** The boundary list the mask selection at model.py:97 receives as the
      code is written: the argument itself, before any default. None stands
      for the failure at model.py:64, which subscripts the absent list as
      soon as there is one sequence to loop over. */
  function MaskBoundaryAsWritten(paddingIdx: Option<seq<nat>>, batchSize: nat): Option<seq<nat>>
  {
    match paddingIdx
    case Some(p) => Some(p)
    case None => if batchSize == 0 then Some([]) else None
  }

  /** Over all inputs, the code as written hands mask selection the same
      boundary list that the corrected forward pass resolves exactly when a
      list is given or the batch is empty; otherwise it fails. */
  lemma AsWrittenBoundaryMatchesResolved(paddingIdx: Option<seq<nat>>, batchSize: nat, seqLen: nat)
    requires paddingIdx.Some? ==> |paddingIdx.value| >= batchSize
    ensures MaskBoundaryAsWritten(paddingIdx, batchSize) == Some(ResolvePadding(paddingIdx, batchSize, seqLen))
      <==> paddingIdx.Some? || batchSize == 0
    ensures MaskBoundaryAsWritten(paddingIdx, batchSize).None? <==> paddingIdx.None? && batchSize > 0
  {
    if paddingIdx.None? && batchSize == 0 {
      assert ResolvePadding(paddingIdx, batchSize, seqLen) == [];
    }
  }

  /** Calling forward without `padding_idx` on a one-sequence batch: the
      default the code resolves for the padding overwrite is [seqLen], yet
      the mask selection fails before it. */
  lemma OmittedPaddingFailsMaskSelection(seqLen: nat)
    ensures MaskBoundaryAsWritten(None, 1).None?
    ensures ResolvePadding(None, 1, seqLen) == [seqLen]
  {
  }

  /** With the default boundary the padding overwrite is a no-op. */
  lemma DefaultPaddingIsNoop<T>(batch: seq<seq<T>>, seqLen: nat, pad: T)
    requires forall bi :: 0 <= bi < |batch| ==> |batch[bi]| == seqLen
    ensures PadBatch(batch, ResolvePadding(None, |batch|, seqLen), pad) == batch
  {
    PadBatchFullIsNoop(batch, seqLen, pad);
  }

  /** Boundaries that `replace_padding` accepts for a batch of `batchSize`
      sequences of `seqLen` steps: one per sequence, none past the end. */
  predicate ValidBoundaries(paddingIdx: seq<nat>, batchSize: nat, seqLen: nat)
  {
    |paddingIdx| >= batchSize && forall bi :: 0 <= bi < batchSize ==> paddingIdx[bi] <= seqLen
  }

  /** The default boundary list is always acceptable. */
  lemma DefaultBoundariesValid(batchSize: nat, seqLen: nat)
    ensures ValidBoundaries(ResolvePadding(None, batchSize, seqLen), batchSize, seqLen)
  {
  }

  /** Mask lists that index a batch of `batchSize` sequences of `seqLen` steps. */
  predicate ValidMaskIdxs(maskIdxs: seq<seq<nat>>, batchSize: nat, seqLen: nat)
  {
    |maskIdxs| >= batchSize &&
    forall bi, j :: 0 <= bi < batchSize && 0 <= j < |maskIdxs[bi]| ==> maskIdxs[bi][j] < seqLen
  }

  /** The encoder. Its learned parts are given, not trained: the mask and
      pad tokens, the frame embedding (linear layer and GELU), and the
      network that maps a prepared sequence of hidden frames to one output
      frame per time step (positional encoding, transformer stack and
      reconstruction head). */
  class SpoterEncoder<R, H(!new)> {
    const maskToken: H
    const padToken: H
    const embed: R -> H
    const network: seq<H> -> seq<R>

    /** The network keeps the sequence length. */
    ghost predicate Valid()
    {
      forall s: seq<H> :: |network(s)| == |s|
    }

    constructor (maskToken: H, padToken: H, embed: R -> H, network: seq<H> -> seq<R>)
      requires forall s: seq<H> :: |network(s)| == |s|
      ensures Valid()
      ensures this.maskToken == maskToken && this.padToken == padToken
      ensures this.embed == embed && this.network == network
    {
      this.maskToken, this.padToken := maskToken, padToken;
      this.embed, this.network := embed, network;
    }

    /** For each sequence, the sorted first ceil(paddingIdx[bi] * ratio)
        entries of its shuffled valid range (model.py:60-70). `shuffles[bi]`
        stands for what `np.random.shuffle` made of `np.arange(paddingIdx[bi])`. */
    method GetMaskIdxs(data: array2<R>, paddingIdx: seq<nat>, ratio: MaskRatio, shuffles: seq<seq<nat>>)
      returns (maskIdxs: seq<seq<nat>>)
      requires ratio.Valid()
      requires |paddingIdx| >= data.Length0 && |shuffles| >= data.Length0
      requires forall bi :: 0 <= bi < data.Length0 ==> IsPermutation(shuffles[bi], paddingIdx[bi])
      ensures |maskIdxs| == data.Length0
      ensures forall bi :: 0 <= bi < data.Length0 ==>
        maskIdxs[bi] == SelectedMask(shuffles[bi], paddingIdx[bi], ratio)
      ensures forall bi :: 0 <= bi < data.Length0 ==>
        |maskIdxs[bi]| == MaskCount(paddingIdx[bi], ratio) && StrictlyIncreasing(maskIdxs[bi])
      ensures forall bi, j :: 0 <= bi < data.Length0 && 0 <= j < |maskIdxs[bi]| ==>
        maskIdxs[bi][j] < paddingIdx[bi]
    {
      maskIdxs := [];
      for bi := 0 to data.Length0
        invariant |maskIdxs| == bi
        invariant forall k :: 0 <= k < bi ==> maskIdxs[k] == SelectedMask(shuffles[k], paddingIdx[k], ratio)
        invariant forall k :: 0 <= k < bi ==>
          |maskIdxs[k]| == MaskCount(paddingIdx[k], ratio) && StrictlyIncreasing(maskIdxs[k])
        invariant forall k, j :: 0 <= k < bi && 0 <= j < |maskIdxs[k]| ==> maskIdxs[k][j] < paddingIdx[k]
      {
        var idxs := SelectMaskIdxs(paddingIdx[bi], ratio, shuffles[bi]);
        maskIdxs := maskIdxs + [idxs];
      }
    }

    /** The raw frames at each sequence's mask positions (model.py:72-78);
        the buffer is only read. */
    method GetTargets(data: array2<R>, maskIdxs: seq<seq<nat>>) returns (targets: seq<seq<R>>)
      requires ValidMaskIdxs(maskIdxs, data.Length0, data.Length1)
      ensures |targets| == data.Length0
      ensures forall bi :: 0 <= bi < data.Length0 ==> |targets[bi]| == |maskIdxs[bi]|
      ensures forall bi, j :: 0 <= bi < data.Length0 && 0 <= j < |maskIdxs[bi]| ==>
        targets[bi][j] == data[bi, maskIdxs[bi][j]]
    {
      targets := [];
      for bi := 0 to data.Length0
        invariant |targets| == bi
        invariant forall k :: 0 <= k < bi ==> targets[k] == Gather(Row(data, k), maskIdxs[k])
      {
        targets := targets + [Gather(Row(data, bi), maskIdxs[bi])];
      }
    }

    /** Overwrites every time step from each sequence's boundary on with the
        pad token (model.py:50-58); nothing else changes. */
    method ReplacePadding(data: array2<H>, paddingIdx: seq<nat>)
      requires ValidBoundaries(paddingIdx, data.Length0, data.Length1)
      modifies data
      ensures forall bi, t :: 0 <= bi < data.Length0 && 0 <= t < data.Length1 ==>
        data[bi, t] == if t < paddingIdx[bi] then old(data[bi, t]) else padToken
      ensures Rows(data) == PadBatch(old(Rows(data)), paddingIdx, padToken)
    {
      for bi := 0 to data.Length0
        invariant forall k, t :: 0 <= k < data.Length0 && 0 <= t < data.Length1 ==>
          data[k, t] == if k < bi && t >= paddingIdx[k] then padToken else old(data[k, t])
      {
        var padLen := data.Length1 - paddingIdx[bi];
        if padLen == 0 {
          continue;
        }
        for t := paddingIdx[bi] to data.Length1
          invariant forall k, u :: 0 <= k < data.Length0 && 0 <= u < data.Length1 ==>
            data[k, u] == if (k < bi && u >= paddingIdx[k]) || (k == bi && paddingIdx[bi] <= u < t)
              then padToken else old(data[k, u])
        {
          data[bi, t] := padToken;
        }
      }
      RowsFromCells(data, PadBatch(old(Rows(data)), paddingIdx, padToken));
    }

    /** Overwrites each sequence's mask positions with the mask token
        (model.py:80-86); nothing else changes. */
    method MaskInput(data: array2<H>, maskIdxs: seq<seq<nat>>)
      requires ValidMaskIdxs(maskIdxs, data.Length0, data.Length1)
      modifies data
      ensures forall bi, t :: 0 <= bi < data.Length0 && 0 <= t < data.Length1 ==>
        data[bi, t] == if t in maskIdxs[bi] then maskToken else old(data[bi, t])
      ensures Rows(data) == MaskBatch(old(Rows(data)), maskIdxs, maskToken)
    {
      for bi := 0 to data.Length0
        invariant forall k, t :: 0 <= k < data.Length0 && 0 <= t < data.Length1 ==>
          data[k, t] == if k < bi && t in maskIdxs[k] then maskToken else old(data[k, t])
      {
        var idxs := maskIdxs[bi];
        for j := 0 to |idxs|
          invariant forall k, u :: 0 <= k < data.Length0 && 0 <= u < data.Length1 ==>
            data[k, u] == if (k < bi && u in maskIdxs[k]) || (k == bi && u in idxs[..j])
              then maskToken else old(data[k, u])
        {
          data[bi, idxs[j]] := maskToken;
          assert idxs[..j + 1] == idxs[..j] + [idxs[j]];
        }
        assert idxs[..|idxs|] == idxs;
      }
      RowsFromCells(data, MaskBatch(old(Rows(data)), maskIdxs, maskToken));
    }

    /** The input embedding, frame by frame, into a new hidden buffer
        (model.py:101). */
    method Embed(x: array2<R>) returns (h: array2<H>)
      ensures fresh(h)
      ensures h.Length0 == x.Length0 && h.Length1 == x.Length1
      ensures forall bi :: 0 <= bi < x.Length0 ==> Row(h, bi) == MapRow(embed, Row(x, bi))
    {
      h := new H[x.Length0, x.Length1]((bi, t) requires 0 <= bi < x.Length0 && 0 <= t < x.Length1 reads x =>
        embed(x[bi, t]));
      forall bi | 0 <= bi < x.Length0
        ensures Row(h, bi) == MapRow(embed, Row(x, bi))
      {
      }
    }

    /** The network's output at each sequence's mask positions
        (model.py:115-122); the buffer is only read. */
    method GetPredictions(h: array2<H>, maskIdxs: seq<seq<nat>>) returns (predictions: seq<seq<R>>)
      requires Valid() && ValidMaskIdxs(maskIdxs, h.Length0, h.Length1)
      ensures |predictions| == h.Length0
      ensures forall bi :: 0 <= bi < h.Length0 ==> |predictions[bi]| == |maskIdxs[bi]|
      ensures forall bi :: 0 <= bi < h.Length0 ==>
        predictions[bi] == Gather(network(Row(h, bi)), maskIdxs[bi])
    {
      predictions := [];
      for bi := 0 to h.Length0
        invariant |predictions| == bi
        invariant forall k :: 0 <= k < bi ==> predictions[k] == Gather(network(Row(h, k)), maskIdxs[k])
      {
        predictions := predictions + [Gather(network(Row(h, bi)), maskIdxs[bi])];
      }
    }

    /** The index skeleton of the forward pass (model.py:88-127). The mask
        set and the targets come from the raw batch, which is never written;
        a new hidden buffer gets the embedding, then the pad overwrite, then
        the mask overwrite; each prepared sequence goes through the network
        and the predictions are gathered at the same mask positions. The
        boundary list is resolved once and used by every step. */
    method Forward(x: array2<R>, paddingIdx: Option<seq<nat>>, ratio: MaskRatio, shuffles: seq<seq<nat>>)
      returns (predictions: seq<seq<R>>, targets: seq<seq<R>>, maskIdxs: seq<seq<nat>>)
      requires Valid() && ratio.Valid()
      requires ValidBoundaries(ResolvePadding(paddingIdx, x.Length0, x.Length1), x.Length0, x.Length1)
      requires |shuffles| >= x.Length0
      requires forall bi :: 0 <= bi < x.Length0 ==>
        IsPermutation(shuffles[bi], ResolvePadding(paddingIdx, x.Length0, x.Length1)[bi])
      ensures |maskIdxs| == |targets| == |predictions| == x.Length0
      ensures forall bi :: 0 <= bi < x.Length0 ==>
        maskIdxs[bi] == SelectedMask(shuffles[bi], ResolvePadding(paddingIdx, x.Length0, x.Length1)[bi], ratio)
      ensures forall bi, j :: 0 <= bi < x.Length0 && 0 <= j < |maskIdxs[bi]| ==>
        maskIdxs[bi][j] < ResolvePadding(paddingIdx, x.Length0, x.Length1)[bi]
      ensures forall bi :: 0 <= bi < x.Length0 ==>
        |predictions[bi]| == |targets[bi]| == |maskIdxs[bi]| ==
          MaskCount(ResolvePadding(paddingIdx, x.Length0, x.Length1)[bi], ratio)
      ensures forall bi, j :: 0 <= bi < x.Length0 && 0 <= j < |maskIdxs[bi]| ==>
        targets[bi][j] == x[bi, maskIdxs[bi][j]]
      ensures forall bi :: 0 <= bi < x.Length0 ==>
        predictions[bi] == Gather(network(PreparedRow(MapRow(embed, Row(x, bi)),
          ResolvePadding(paddingIdx, x.Length0, x.Length1)[bi], maskIdxs[bi], padToken, maskToken)), maskIdxs[bi])
    {
      var bounds := ResolvePadding(paddingIdx, x.Length0, x.Length1);
      maskIdxs := GetMaskIdxs(x, bounds, ratio, shuffles);
      targets := GetTargets(x, maskIdxs);

      var h := Embed(x);
      ghost var embedded := Rows(h);
      assert forall bi :: 0 <= bi < x.Length0 ==> embedded[bi] == MapRow(embed, Row(x, bi));
      ReplacePadding(h, bounds);
      MaskInput(h, maskIdxs);
      assert Rows(h) == MaskBatch(PadBatch(embedded, bounds, padToken), maskIdxs, maskToken);

      forall bi | 0 <= bi < x.Length0
        ensures Row(h, bi) == PreparedRow(embedded[bi], bounds[bi], maskIdxs[bi], padToken, maskToken)
      {
        PadThenMaskIsPrepared(embedded[bi], bounds[bi], maskIdxs[bi], padToken, maskToken);
        assert Row(h, bi) == Rows(h)[bi];
      }

      predictions := GetPredictions(h, maskIdxs);
      assert forall bi :: 0 <= bi < x.Length0 ==> |predictions[bi]| == |targets[bi]| == |maskIdxs[bi]| == MaskCount(bounds[bi], ratio);
      forall bi | 0 <= bi < x.Length0
        ensures predictions[bi] == Gather(network(PreparedRow(MapRow(embed, Row(x, bi)), bounds[bi], maskIdxs[bi], padToken, maskToken)), maskIdxs[bi])
      {
        assert MapRow(embed, Row(x, bi)) == embedded[bi];
      }
    }
  }
}
