# SPOTER encoder masking bookkeeping, modelled in Dafny

This project models the index bookkeeping that `SPOTEREncoder` performs for
masked pretraining on a batch of right-padded pose sequences: choosing the
masked time steps of each sequence, extracting their raw frames as targets,
overwriting the padding region and the masked steps of the hidden batch with
the learned pad and mask tokens, and gathering the network's predictions at
the masked steps.

- `MaskIndices.dfy`: the mask ratio as an exact fraction, the mask count
  ceil(L * ratio), the sorted mask set of one sequence and its properties.
- `Ragged.dfy`: rows of a batch buffer as values, and the padding overwrite,
  the mask overwrite, the gather and the prepared sequence as functions on
  them, with idempotence, no-op and non-interference lemmas.
- `Encoder.dfy`: class `SpoterEncoder<R, H>` (R a raw frame, H a hidden
  frame) with the mask and pad tokens, the frame embedding and the
  sequence network as constant fields, and the five imperative operations
  of the source as methods over `array2` buffers with loop invariants.

A frame (the `data_dim` or `hidden_dim` vector at one time step) is an
opaque element. The random shuffle is a permutation of `[0, L)` supplied
by the caller for each sequence. `np.sort` is modelled by a marking sort,
which gives the same result for distinct indices below a known bound.

The code accepts a `padding_idx` list longer than the batch and ignores its
extra entries. It never checks that `mask_ratio` lies in [0, 1]; the model
makes that a precondition. The default `mask_ratio` of 0.1 is passed as
`MaskRatio(1, 10)`.

## Model

| member | source | states |
|---|---|---|
| `MaskIndices.MaskCount` | spoter2/model/model.py:66-67 | the number of masked steps never exceeds the valid length, so the slice of the shuffled range is always full length |
| `MaskIndices.MaskCountIsCeiling` | spoter2/model/model.py:66 | the count is ceil(L * ratio): the least c with c * den >= L * num; it is 0 for an empty sequence and at least 1 for a non-empty sequence and a positive ratio |
| `MaskIndices.WorkedCounts` | spoter2/model/model.py:66 | ratios 0.2 on 5 and 3 valid steps mask one step each, 0.5 on zero steps masks none, 0.7 on 10 steps masks exactly 7 |
| `MaskIndices.Range` | spoter2/model/model.py:64 | `np.arange(L)` is a permutation of [0, L), so every valid length admits a shuffle |
| `MaskIndices.Members` | spoter2/model/model.py:68 | the ascending enumeration of a set below n: every entry is below n, exactly the members of the set below n occur, strictly increasing |
| `MaskIndices.SortIndices` | spoter2/model/model.py:68 | sorting distinct bounded indices yields the ascending enumeration of their set: strictly increasing, the same values, and as many entries as the input, so it is the sorted permutation of the input |
| `MaskIndices.SelectedMaskProperties` | spoter2/model/model.py:64-68 | a sequence's mask set has exactly ceil(L * ratio) entries, all in [0, L), strictly increasing, and they are exactly the first ceil(L * ratio) entries of the shuffle |
| `MaskIndices.SelectMaskIdxs` | spoter2/model/model.py:64-68 | one sequence's selection returns the sorted prefix of its shuffle, of the right size, inside the valid region, strictly increasing |
| `Ragged.PadRowIdempotent` | spoter2/model/model.py:53-57 | padding a sequence twice with the same boundary gives the same row as padding it once |
| `Ragged.PadBatchIdempotent` | spoter2/model/model.py:52-57 | padding the batch twice with the same boundary list gives the same batch as padding it once |
| `Ragged.PadRowFullIsNoop` | spoter2/model/model.py:53-55 | a boundary equal to the sequence length leaves the row unchanged |
| `Ragged.PadBatchFullIsNoop` | spoter2/model/model.py:52-55 | full-length boundaries for every sequence leave the batch unchanged |
| `Ragged.MaskRowEmptyIsNoop` | spoter2/model/model.py:83-85 | an empty mask list leaves the row unchanged |
| `Ragged.PadThenMaskIsPrepared` | spoter2/model/model.py:107-108 | with mask indices inside the valid region, padding then masking gives: pad token from the boundary on, else mask token at mask positions, else the original frame; masking first gives the same row |
| `Encoder.ResolvePadding` | spoter2/model/model.py:105-106 | a given list is returned as is; an absent one becomes `seqLen` for each of `batchSize` sequences |
| `Encoder.AsWrittenBoundaryMatchesResolved` | spoter2/model/model.py:97-106 | for all inputs, the boundary list mask selection receives as the code is written equals the list the corrected forward pass resolves exactly when `padding_idx` is given or the batch is empty, and it fails exactly when `padding_idx` is absent and the batch is non-empty |
| `Encoder.OmittedPaddingFailsMaskSelection` | spoter2/model/model.py:97-106 | on a one-sequence batch without `padding_idx`, mask selection fails even though the later default resolves the boundary to the full length |
| `Encoder.DefaultBoundariesValid` | spoter2/model/model.py:105-106 | the default boundary list (full length for every sequence) is acceptable for the padding overwrite |
| `Encoder.DefaultPaddingIsNoop` | spoter2/model/model.py:105-107 | with the default boundary list the padding overwrite changes nothing |
| `Encoder.SpoterEncoder.constructor` | spoter2/model/model.py:8-44 | the encoder holds the given mask token, pad token, embedding and network, and the network keeps sequence length |
| `Encoder.SpoterEncoder.GetMaskIdxs` | spoter2/model/model.py:60-70 | one mask list per sequence, equal to the sorted ceil(L * ratio)-prefix of that sequence's shuffle, strictly increasing, every index below that sequence's boundary |
| `Encoder.SpoterEncoder.GetTargets` | spoter2/model/model.py:72-78 | one target list per sequence, as long as its mask list, whose j-th entry is the raw frame at the j-th mask index; the buffer is only read |
| `Encoder.SpoterEncoder.ReplacePadding` | spoter2/model/model.py:50-58 | afterwards every step at or past a sequence's boundary holds the pad token and every other cell of the buffer holds its old value; the buffer equals the value-level padding of its old rows |
| `Encoder.SpoterEncoder.MaskInput` | spoter2/model/model.py:80-86 | afterwards every listed step of a sequence holds the mask token and every other cell holds its old value; the buffer equals the value-level masking of its old rows |
| `Encoder.SpoterEncoder.Embed` | spoter2/model/model.py:101 | a new hidden buffer of the same shape whose every row is the raw row embedded frame by frame |
| `Encoder.SpoterEncoder.GetPredictions` | spoter2/model/model.py:115-122 | one prediction list per sequence, as long as its mask list, equal to the network output of that sequence gathered at its mask indices |
| `Encoder.SpoterEncoder.Forward` | spoter2/model/model.py:88-127 | the mask lists are the selected masks for the resolved boundaries and lie inside the valid region; predictions, targets and mask lists have one entry per sequence and equal lengths ceil(L * ratio); targets are the raw frames at the mask indices; predictions are the network output, gathered at the mask indices, of the sequence that is the pad token from the boundary on, else the mask token at mask positions, else the embedded frame |

## Left out

- The linear layers, GELU, sigmoid and the transformer stack are not modelled numerically: the embedding is a given function from raw to hidden frames, and positional encoding, transformer and reconstruction head together are one given function from a hidden sequence to an output sequence of the same length. The sigmoid bound of the output is therefore not stated.
- The transformer layers keep their default dropout (model.py:24), so in training mode their output is random; `network` stands for evaluation mode or for one fixed dropout draw.
- `LearnablePositionalEncoding` is not part of this model, nor is the choice of positional-encoding variant by name (model.py:33-40).
- The random initialisation of the tokens and the unused `__initialize_weights` are left out; the tokens are constructor arguments.
- The randomness of `np.random.shuffle`: each sequence's shuffle is a caller-supplied permutation of [0, L).
- Floating point in `mask_ratio`: the ratio is an exact fraction, so the count is the exact ceiling. The float product in the code can come out above the exact value and round up one step too far: in IEEE-754 doubles `100 * 0.55` is `55.00000000000001`, so the code masks 56 steps where the exact ceiling is 55.
- `MaskIndices.SelectMaskIdxs` and `Encoder.SpoterEncoder.GetMaskIdxs` require a ratio in [0, 1]. The code does not check it; a ratio above 1 would take the whole range and a negative one would slice from the end.
- Out-of-range boundaries or mask indices make the code raise (a negative repeat count at model.py:56, an index error at model.py:76 and 85), and so do lists shorter than the batch (an index error at model.py:53 and 64 for `padding_idx`, at model.py:76 and 83 for `mask_idxs`). The model makes both preconditions instead of error results: `Encoder.ValidBoundaries`, `Encoder.ValidMaskIdxs` and the length requirements of `Encoder.SpoterEncoder.GetMaskIdxs` exclude them.
- MaskIndices.SortIndices: sorts only lists without repeated values, where `np.sort` would also keep duplicates; line 68 only ever sorts a prefix of a permutation, which has none.
- The dtype cast of the mask tokens (model.py:85) and gradient tracking are tensor-library details with no counterpart here.
- The `get_mask_idx` flag of `forward`: `Forward` always returns the mask lists alongside predictions and targets.
- `replace_padding` and `mask_input` also return the buffer they modified; the methods modify it in place and return nothing.

## Findings

| source | as written | input that shows it | evidently intended | confidence | as-written member | corrected member |
|---|---|---|---|---|---|---|
| spoter2/model/model.py:97 | `forward` passes `padding_idx` to mask selection before the `None` default of lines 105-106 is applied, and line 64 subscripts it | `forward(x)` without `padding_idx` on any batch with at least one sequence | the default boundary (full length for every sequence) applies to mask selection as well as to the padding overwrite | high; not executed | `Encoder.MaskBoundaryAsWritten` | `Encoder.SpoterEncoder.Forward` |
