# Patch-mask sampler and batch collation of the masked-image-modelling transform

This project models two parts of `torchmultimodal/transforms/image_masking_transform.py`. The first is `MaskingGenerator`, the sampler that builds the patch mask for masked-image-modelling pretraining. The second is the batch branch of `MaskedImageModelingTransform.__call__`.

**The sampler.** A call starts from an all-zero `height x width` integer grid, where 1 marks a masked patch. It then runs rounds until `num_masking_patches` cells are masked or a round makes no progress.

- The budget of a round is `min(num_masking_patches - mask_count, max_num_patches)`.
- A round (`_mask`) tries up to 10 candidate blocks. It fills the first one that fits strictly inside the window and whose number of newly masked cells is positive and within the budget.
- A round reports how many cells it newly masked.

**Modelling the randomness.** The sampler's random draws come from an oracle.

- One attempt of a round is a `Block(h, w, top, left)`. `h` and `w` are any naturals.
- When the block fits (`h < height`, `w < width`), its corner obeys `top <= height - h` and `left <= width - w`. These are the ranges of the two `randint` draws (`Drawable`).
- A round is the sequence of its 10 blocks (`RoundDraw`).
- A whole call is `draws: nat -> seq<Block>`, which gives round `r` its blocks.

Every property below holds for every oracle.

**How the proofs are structured.** The grid is a value (`MaskGrid.Grid`, rows of integers) with recursive sums (`Count`, `BlockSum`, `BlockUnset`) and the block update `Fill`. Two specification functions describe the sampler:

- `MaskRound` is one round: the first accepted block is filled; if none is accepted, nothing changes.
- `Run` is the outer loop.

The methods work in place on an `array2<int>`, as the source does on its numpy array:

- `Mask` is `_mask`;
- `FillBlock` and `FillRowSpan` are its nested `for i` / `for j` loops;
- `Generate` is `__call__`.

Each method is proved to leave the array holding exactly what the specification function computes. The lemmas then prove the invariants of those functions:

- the running count equals the number of masked cells;
- cells only go from 0 to 1;
- nothing outside the accepted block changes;
- the count never passes the target;
- a call stops short of the target only after a round that made no progress.

**The collation.** A list of images becomes a map from each of the three record keys to the list of that key's values, in input order. An empty list gives an empty map. A single image gives its own record.

## Model

| member | source | states |
|---|---|---|
| ImageMasking.MaskingGenerator.constructor | torchmultimodal/transforms/image_masking_transform.py:39-49 | a single size gives a square window (n, n) and a pair gives (height, width); `num_patches` is height * width; `max_num_patches` defaults to `num_masking_patches` when absent and is the given value otherwise |
| ImageMasking.MaskingGenerator.GetShape | torchmultimodal/transforms/image_masking_transform.py:66-67 | returns (height, width), whose product is the window's number of patches |
| ImageMasking.MaskingGenerator.Mask | torchmultimodal/transforms/image_masking_transform.py:69-91 | the round run in place on the array leaves it holding the grid of `MaskRound` on its old contents, and returns that round's delta |
| ImageMasking.MaskingGenerator.FillBlock | torchmultimodal/transforms/image_masking_transform.py:83-87 | the nested loops set exactly the zero cells of the block to 1, leave every other cell as it was, and return the number of zero cells the block had |
| ImageMasking.MaskingGenerator.FillRowSpan | torchmultimodal/transforms/image_masking_transform.py:84-87 | the inner loop sets the zero cells of one row's column span to 1, changes nothing else, and counts them |
| ImageMasking.MaskingGenerator.Generate | torchmultimodal/transforms/image_masking_transform.py:93-106 | returns a fresh height x width array that holds the grid `Run` computes from an all-zero window, with count 0 and round 0 as starting values |
| ImageMasking.AcceptedBlock | torchmultimodal/transforms/image_masking_transform.py:76-87 | filling a block that passes the size test and the overlap guard keeps a 0/1 grid of the same shape, cells only go 0 to 1, and it masks between 1 and `max_mask_patches` new cells, which is what the count grows by |
| ImageMasking.MaskRoundCount | torchmultimodal/transforms/image_masking_transform.py:69-91 | a round on a 0/1 grid keeps it 0/1 and of the same shape; its delta is at most `max_mask_patches` and is exactly the growth of the masked-cell count; a delta of 0 leaves the grid unchanged; cells only go 0 to 1 |
| ImageMasking.MaskRoundPlacesOneBlock | torchmultimodal/transforms/image_masking_transform.py:71-90 | a round reports 0 exactly when none of its 10 blocks passes the size test and the guard, and then the grid is unchanged; otherwise the result is the first block that passes them, which lies inside the window, filled into the grid, with delta equal to h * w minus the block's old sum; cells only go 0 to 1 |
| ImageMasking.MaskRoundStalls | torchmultimodal/transforms/image_masking_transform.py:71-90 | a round reports 0 exactly when none of its 10 blocks passes the size test and the guard |
| ImageMasking.MaskRoundFirst | torchmultimodal/transforms/image_masking_transform.py:76-90 | a round with a positive delta filled the first block that passes the size test and the guard (every earlier block fails them, as the break at :89-90 makes it), that block lies inside the window, and the delta is h * w minus its old sum |
| ImageMasking.RunDone | torchmultimodal/transforms/image_masking_transform.py:96 | once the count reaches the target the loop stops without another round and without stalling |
| ImageMasking.RunStep | torchmultimodal/transforms/image_masking_transform.py:96-104 | below the target, a round with delta 0 stops the loop as stalled with the grid unchanged; any other round continues the loop from the round's grid with the count raised by delta |
| ImageMasking.RunKeepsCount | torchmultimodal/transforms/image_masking_transform.py:95-104 | from a 0/1 grid whose masked-cell count is the running count: the final grid is 0/1 of the same shape, cells only went 0 to 1, its masked-cell count is the final count, which lies between the start and the target, and the loop stalled exactly when the final count is below the target |
| ImageMasking.SamplerOutcome | torchmultimodal/transforms/image_masking_transform.py:93-106 | a call from a fresh window returns a 0/1 height x width grid with at most `num_masking_patches` masked cells, exactly that many unless a round made no progress |
| MaskGrid.EmptyCount | torchmultimodal/transforms/image_masking_transform.py:94-95 | the fresh zero grid has no masked cell, matching the starting count 0 |
| MaskGrid.FillEffect | torchmultimodal/transforms/image_masking_transform.py:83-86 | filling a block changes only cells inside the block, only from 0 to 1; on a 0/1 grid the result is 0/1 and the whole block is masked |
| MaskGrid.BlockUnsetIsAreaMinusSum | torchmultimodal/transforms/image_masking_transform.py:80-82 | on a 0/1 grid, `h * w - num_masked` is the number of zero cells of the block, that is, the cells the guard counts as newly masked |
| MaskGrid.FillCount | torchmultimodal/transforms/image_masking_transform.py:83-87 | filling a block inside the window raises the masked-cell count by exactly the number of the block's zero cells, the delta the loops count |
| Collation.CollateBatch | torchmultimodal/transforms/image_masking_transform.py:274-282 | for an empty list the result has no key; otherwise each of the three keys maps to a list with one entry per image, in input order, entry i being that key's value in the record the i-th transform call returns for image i |
| Collation.Call | torchmultimodal/transforms/image_masking_transform.py:273-284 | a list input is collated as above; a single image yields the record of its one transform call unchanged |
| Collation.CollatedUnique | torchmultimodal/transforms/image_masking_transform.py:274-282 | the collated result of a list is unique: any two maps meeting the collation property are equal |

## Left out

- The float sampling of a block, at torchmultimodal/transforms/image_masking_transform.py:72-75, is left out: the `random.uniform` area and aspect ratio and the `round(sqrt(...))`. `h` and `w` are any naturals supplied by the oracle. So `min_num_patches` is stored but plays no role in the model.
- The log aspect ratio at :51-52 and the `min_aspect`/`max_aspect` parameters are not modelled. They only feed the float sampling.
- `__repr__` is a formatting helper and is not modelled.
- The mask is an `array2<int>` created by `Generate` and passed to `Mask`, as in the source, where it is local to `__call__`. The class keeps only the configuration.
- Counts and sizes are naturals, so negative window sizes, patch counts and `max_num_patches` are outside the model. A negative size makes `np.zeros` (:94) fail. A negative `max_num_patches` makes the budget at :98 negative: the guard at :82 then rejects every block, so the call returns an all-zero mask, unless the draw at :72 is negative and `math.sqrt` raises.
- `Mask` requires a 0/1 grid, which its only caller guarantees. On other grids the source's guard and its count would disagree.
- `np.int` (:94) is a numpy-version concern. The cells are unbounded integers that only ever hold 0 or 1.
- The nested loops of `_mask` are in the helper methods `FillBlock` and `FillRowSpan`, so that each loop has its own invariant. They run in the same order and do the same writes.
- Generate: states the result as the grid of `Run`. The 0/1 shape and the bound on the masked count are proved about that grid by `SamplerOutcome`, not repeated in the method's contract.
- The per-image `transform` (:265-271) is a function parameter indexed by the call: `transform(i, x)` is the record the i-th call returns for image x, so an image listed twice can receive two different records, as the random crop and mask make it do in the source. Resizing, normalisation, `map_pixels` and the mask generation inside it are not modelled.
- Collation.CollateBatch: the result is a map, so the insertion order of keys in the Python dict (image, image_for_codebook, image_patches_mask) is not modelled. Keys are visited in that order.
- `isinstance(images, list)` is modelled as the `Batch`/`Single` input cases. A tuple of images, which the source sends to `transform` as one image, falls under `Single`.
- `map_pixels` (:22-26), `TwoWayResize` and `TwoWayRandomResizedCrop` (:109-199) and the image pipelines (:218-263) are not part of this model. They are floating-point tensor and image-library code.
- torchmultimodal/models/mdetr.py is not part of this model. It is tensor algebra over torch modules.
- The mask is an integer grid of 0s and 1s (`np.zeros(..., dtype=np.int)` at :94); the model follows that.
