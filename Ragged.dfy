/** Value-level view of a right-padded batch: rows of frames, and what the
    padding overwrite, the mask overwrite and the gather at mask positions
    do to them. The encoder's in-place methods are specified by these. */
module Ragged {

  /** Sequence `bi` of a batch buffer, one frame per time step. */
  function Row<T>(a: array2<T>, bi: nat): seq<T>
    requires bi < a.Length0
    reads a
  {
    seq(a.Length1, t requires 0 <= t < a.Length1 reads a => a[bi, t])
  }

  /** The whole buffer as a batch of rows. */
  ghost function Rows<T>(a: array2<T>): seq<seq<T>>
    reads a
  {
    seq(a.Length0, bi requires 0 <= bi < a.Length0 reads a => Row(a, bi))
  }

  /** A buffer equals a batch value when they agree cell by cell. */
  lemma RowsFromCells<T>(a: array2<T>, b: seq<seq<T>>)
    requires |b| == a.Length0
    requires forall bi :: 0 <= bi < |b| ==> |b[bi]| == a.Length1
    requires forall bi, t :: 0 <= bi < a.Length0 && 0 <= t < a.Length1 ==> a[bi, t] == b[bi][t]
    ensures Rows(a) == b
  {
    forall bi | 0 <= bi < a.Length0
      ensures Rows(a)[bi] == b[bi]
    {
      assert Row(a, bi) == b[bi];
    }
  }

  /** A row with every time step from `validLen` on replaced by `pad`. */
  function PadRow<T>(row: seq<T>, validLen: nat, pad: T): seq<T>
  {
    seq(|row|, t requires 0 <= t < |row| => if t < validLen then row[t] else pad)
  }

  function PadBatch<T>(batch: seq<seq<T>>, paddingIdx: seq<nat>, pad: T): seq<seq<T>>
    requires |paddingIdx| >= |batch|
  {
    seq(|batch|, bi requires 0 <= bi < |batch| => PadRow(batch[bi], paddingIdx[bi], pad))
  }

  /** A row with every time step listed in `idxs` replaced by `token`. */
  function MaskRow<T>(row: seq<T>, idxs: seq<nat>, token: T): seq<T>
  {
    seq(|row|, t requires 0 <= t < |row| => if t in idxs then token else row[t])
  }

  function MaskBatch<T>(batch: seq<seq<T>>, maskIdxs: seq<seq<nat>>, token: T): seq<seq<T>>
    requires |maskIdxs| >= |batch|
  {
    seq(|batch|, bi requires 0 <= bi < |batch| => MaskRow(batch[bi], maskIdxs[bi], token))
  }

  /** The frames of `row` at the listed time steps, in list order. */
  function Gather<T>(row: seq<T>, idxs: seq<nat>): seq<T>
    requires forall j :: 0 <= j < |idxs| ==> idxs[j] < |row|
  {
    seq(|idxs|, j requires 0 <= j < |idxs| => row[idxs[j]])
  }

  /** A frame-wise map, as the input embedding is applied. */
  function MapRow<A, B>(f: A -> B, row: seq<A>): seq<B>
  {
    seq(|row|, t requires 0 <= t < |row| => f(row[t]))
  }

  /** What a sequence should look like when it enters the encoder stack:
      the pad token in the padding region, else the mask token at a mask
      position, else the sequence's own frame. */
  function PreparedRow<T>(row: seq<T>, validLen: nat, idxs: seq<nat>, pad: T, mask: T): seq<T>
  {
    seq(|row|, t requires 0 <= t < |row| =>
      if t >= validLen then pad else if t in idxs then mask else row[t])
  }

  /** Padding twice with the same boundary is padding once. */
  lemma PadRowIdempotent<T>(row: seq<T>, validLen: nat, pad: T)
    ensures PadRow(PadRow(row, validLen, pad), validLen, pad) == PadRow(row, validLen, pad)
  {
  }

  lemma PadBatchIdempotent<T>(batch: seq<seq<T>>, paddingIdx: seq<nat>, pad: T)
    requires |paddingIdx| >= |batch|
    ensures PadBatch(PadBatch(batch, paddingIdx, pad), paddingIdx, pad) == PadBatch(batch, paddingIdx, pad)
  {
    var once := PadBatch(batch, paddingIdx, pad);
    forall bi | 0 <= bi < |batch|
      ensures PadBatch(once, paddingIdx, pad)[bi] == once[bi]
    {
      PadRowIdempotent(batch[bi], paddingIdx[bi], pad);
    }
  }

  /** A sequence whose boundary is its full length has no padding region. */
  lemma PadRowFullIsNoop<T>(row: seq<T>, pad: T)
    ensures PadRow(row, |row|, pad) == row
  {
  }

  /** When every boundary is the full sequence length (what an absent
      `padding_idx` defaults to) the padding overwrite changes nothing. */
  lemma PadBatchFullIsNoop<T>(batch: seq<seq<T>>, seqLen: nat, pad: T)
    requires forall bi :: 0 <= bi < |batch| ==> |batch[bi]| == seqLen
    ensures PadBatch(batch, seq(|batch|, _ => seqLen), pad) == batch
  {
    forall bi | 0 <= bi < |batch|
      ensures PadBatch(batch, seq(|batch|, _ => seqLen), pad)[bi] == batch[bi]
    {
      PadRowFullIsNoop(batch[bi], pad);
    }
  }

  /** An empty mask list changes nothing. */
  lemma MaskRowEmptyIsNoop<T>(row: seq<T>, token: T)
    ensures MaskRow(row, [], token) == row
  {
  }

  /** Padding and then masking, with every mask position inside the valid
      region, gives the prepared row; so does masking first: the two
      overwrites never touch the same time step. */
  lemma PadThenMaskIsPrepared<T>(row: seq<T>, validLen: nat, idxs: seq<nat>, pad: T, mask: T)
    requires forall j :: 0 <= j < |idxs| ==> idxs[j] < validLen
    ensures MaskRow(PadRow(row, validLen, pad), idxs, mask) == PreparedRow(row, validLen, idxs, pad, mask)
    ensures PadRow(MaskRow(row, idxs, mask), validLen, pad) == PreparedRow(row, validLen, idxs, pad, mask)
  {
    var prepared := PreparedRow(row, validLen, idxs, pad, mask);
    forall t | 0 <= t < |row|
      ensures MaskRow(PadRow(row, validLen, pad), idxs, mask)[t] == prepared[t]
      ensures PadRow(MaskRow(row, idxs, mask), validLen, pad)[t] == prepared[t]
    {
      if t >= validLen {
        assert t !in idxs;
      }
    }
  }
}
