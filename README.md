# Recognizer data preparation, modelled in Dafny

This project models the data-preparation code of the text recognizer in
the Open-OCR-Engine repository (`datasets/deepTextRecog_dataset.py`):

- **`DatasetSYNTH`** loads a list of records, each an image file name and a
  text label. It keeps the file names and the labels in two parallel lists.
  Every run of spaces in a label becomes one space. It builds a vocabulary
  from the tokens of `label.strip().split(' ')`, and it serves item `i` as
  entry `i % len`, with Python's modulo.
- **`AlignCollate`** drops missing samples from a batch. With `PAD` set, each
  image is resized to height `imgH`. Its width is `min(imgW, ceil(imgH * w / h))`.
  The image is then right-padded to `imgW` by `NormalizePAD`. Without `PAD`,
  every image is resized to `imgW x imgH`.
- **`NormalizePAD`** allocates a zero tensor of fixed shape
  `(channels, imgH, imgW)`. It copies the image into the first columns. It
  fills every later column with the image's last column.

Modules, one per part of the source file:

- `wrappers.dfy`: `Wrappers`, with `Option` and `Result`. A `Failure` models
  a Python exception.
- `labels.dfy`: `Labels`. It holds the `re.sub(' +', ' ', ·)` substitution,
  `str.strip()` with Python's whitespace set, `str.split(' ')` with its
  inverse `' '.join`, tokenization and the vocabulary.
- `dataset.dfy`: `Dataset`. It holds the class `DatasetSynth`, the
  vocabulary-building loop, `list(set)`, and Python's `%`.
- `pad.dfy`: `Pad`. `NormalizePad.Apply` works in place on a fresh `array3`.
  It follows PyTorch broadcasting: a channel or row dimension of size 1 is
  copied across the target.
- `collate.dfy`: `Collate`. It holds the filter, the resized-width rule and
  the collation loop.

Pixel values are an opaque type parameter. The image library's resize is
not modelled. A collated batch records, for each image, the size it is
resized to (`Size(width, height)`) and the padding transform the source
builds. The collation fails where the source raises: on an empty batch;
with `PAD`, on an image of height 0 or an image the padding transform
rejects; without `PAD`, on tensors whose channel counts differ. `Collate.CollatedImagesPad`
connects this to `Pad.Apply`: the clamped width is between 1 and `imgW`. So
padding succeeds, border fill included, exactly when the image's channel
count broadcasts to the transform's channel count. That count is 3 for an
RGB first image and 1 for any other.

## Model

| member | source | states |
|---|---|---|
| `Labels.CollapseSpaces` | datasets/deepTextRecog_dataset.py:24 | the result has no two adjacent spaces; it keeps the non-space characters in order; it is no longer than the input; it keeps the first and last character |
| `Labels.CollapseKeepsWords` | datasets/deepTextRecog_dataset.py:24 | the substitution keeps the text before the first space and every word in order, so a run of spaces between two words becomes exactly one space and is never dropped |
| `Labels.CollapseFixpoint` | datasets/deepTextRecog_dataset.py:24 | the substitution leaves a label unchanged if and only if the label has no double space |
| `Labels.CollapseIdempotent` | datasets/deepTextRecog_dataset.py:24 | applying the substitution twice gives the same result as applying it once |
| `Labels.TrimStart` | datasets/deepTextRecog_dataset.py:28 | the result is a suffix of the input; everything removed is whitespace; the result is empty or starts with a non-whitespace character |
| `Labels.TrimEnd` | datasets/deepTextRecog_dataset.py:28 | the result is a prefix of the input; everything removed is whitespace; the result is empty or ends with a non-whitespace character |
| `Labels.Strip` | datasets/deepTextRecog_dataset.py:28 | the result is empty exactly when the input is all whitespace; otherwise both of its ends are non-whitespace; stripping a string without double spaces gives a string without double spaces |
| `Labels.Split` | datasets/deepTextRecog_dataset.py:28 | splitting on `' '` gives at least one token, and no token contains a space |
| `Labels.JoinSplit` | datasets/deepTextRecog_dataset.py:28 | joining the tokens of a split with single spaces gives back the string |
| `Labels.SplitJoin` | datasets/deepTextRecog_dataset.py:28 | splitting a join of space-free tokens gives back the tokens |
| `Labels.SplitTokensNonEmpty` | datasets/deepTextRecog_dataset.py:28 | a non-empty string without double, leading or trailing spaces splits into non-empty tokens only |
| `Labels.Tokenize` | datasets/deepTextRecog_dataset.py:28 | the tokens of a label contain no space and, joined with single spaces, give back the stripped label |
| `Labels.CleanTokens` | datasets/deepTextRecog_dataset.py:24-28 | a stored label's tokens include the empty token exactly when the raw label is all whitespace; otherwise every token is non-empty |
| `Labels.BlankNonSpaces` | datasets/deepTextRecog_dataset.py:24 | removing spaces does not change whether a string is all whitespace |
| `Labels.VocabularyStep` | datasets/deepTextRecog_dataset.py:27-29 | one more label adds exactly its tokens to the vocabulary |
| `Labels.VocabularyMembership` | datasets/deepTextRecog_dataset.py:26-29 | a string is in the vocabulary if and only if it is a token of some stored label |
| `Labels.UnionMembership` | datasets/deepTextRecog_dataset.py:26-29 | a string is in the union of token lists if and only if it is in one of the lists |
| `Dataset.CollectTokens` | datasets/deepTextRecog_dataset.py:26-29 | the set filled token by token over all labels equals the vocabulary of those labels |
| `Dataset.AddTokens` | datasets/deepTextRecog_dataset.py:28-29 | adding one label's tokens one at a time gives the old set plus exactly those tokens |
| `Dataset.ListOfSet` | datasets/deepTextRecog_dataset.py:30 | the list has the set's elements, each exactly once, in some order |
| `Dataset.LoadRecords` | datasets/deepTextRecog_dataset.py:21-24 | one file name and one label per record, in record order; each label is the record's text with every run of spaces collapsed |
| `Dataset.DatasetSynth.constructor` | datasets/deepTextRecog_dataset.py:21-30 | `imnames` and `txt` have one entry per record; entry i is record i's file name and its space-collapsed text; `tokens` holds exactly the vocabulary of `txt`, with no duplicates |
| `Dataset.DatasetSynth.Len` | datasets/deepTextRecog_dataset.py:35-36 | the length is the number of file names, which is also the number of labels |
| `Dataset.FloorMod` | datasets/deepTextRecog_dataset.py:39 | Python's `item % n` for n > 0 lies in [0, n); it is the identity on [0, n); for item in [-n, 0) it is item + n |
| `Dataset.FloorModPeriodic` | datasets/deepTextRecog_dataset.py:39 | Python's `item % n` repeats with period n |
| `Dataset.DatasetSynth.GetItem` | datasets/deepTextRecog_dataset.py:38-44 | an empty dataset raises division by zero; otherwise the result is the file name and label at the wrapped index; an index in range selects itself; a negative index counts from the end |
| `Dataset.GetItemPeriodic` | datasets/deepTextRecog_dataset.py:39 | indexes that differ by the dataset length give the same item |
| `Dataset.EmptyTokenIffBlankLabel` | datasets/deepTextRecog_dataset.py:21-30 | for the stored labels (each record's label with its runs of spaces collapsed), the vocabulary holds the empty token if and only if some record's raw label is all whitespace |
| `Pad.NormalizePad.Apply` | datasets/deepTextRecog_dataset.py:101-110 | padding succeeds exactly when the image broadcasts into the target (else a shape error, or an index error for an image with no columns); the result is fresh and has the target shape; column k < w holds the image's column k; every column from w on holds the image's last column; the input is not modified |
| `Collate.Present` | datasets/deepTextRecog_dataset.py:53 | the kept samples are exactly the non-missing entries of the batch |
| `Collate.PresentAppend` | datasets/deepTextRecog_dataset.py:53 | filtering a concatenation gives the concatenation of the filtered parts, so batch order is kept |
| `Collate.PresentSingle` | datasets/deepTextRecog_dataset.py:53 | a present sample is kept and a missing one is dropped |
| `Collate.CeilDiv` | datasets/deepTextRecog_dataset.py:64-65 | the result is the least integer q with a <= q * b |
| `Collate.ResizedWidth` | datasets/deepTextRecog_dataset.py:64-68 | the width is at most imgW; below imgW it is the least width whose ratio to imgH is at least w / h; it is never one column more than needed |
| `Collate.ResizedWidthPositive` | datasets/deepTextRecog_dataset.py:64-68 | for positive sizes and targets the resized width lies in [1, imgW] |
| `Collate.Collate` | datasets/deepTextRecog_dataset.py:52-80 | the call fails exactly when no sample is present; or when the aspect ratio is kept and some present image has height 0 or a resized tensor the transform rejects (the first such image is reported, and which of the two); or when it is not kept and some tensor's channel count differs from the first one's (the first such image is reported). Otherwise there is one label and one size per present sample, in batch order. With the ratio kept, each size is (ResizedWidth, imgH) and the transform pads to (3 if the first image is RGB else 1, imgH, imgW); without it, each size is (imgW, imgH) |
| `Collate.ResizeAndPad` | datasets/deepTextRecog_dataset.py:61-71 | the loop fails exactly when some image has height 0 or a resized tensor the first image's transform rejects, and reports the first such image and which of the two; otherwise it gives one size (ResizedWidth, imgH) per image, in order |
| `Collate.FirstChannelMismatch` | datasets/deepTextRecog_dataset.py:75-78 | no index is returned exactly when every tensor has the first one's channel count; otherwise the first index whose count differs is returned |
| `Collate.CollatedImagesPad` | datasets/deepTextRecog_dataset.py:57-71 | an image at least one column wide, resized with the aspect ratio kept, gets a width in [1, imgW]; the transform built from the first image pads it, and the collator accepts it, exactly when its channel count broadcasts to the transform's (3 for an RGB first image, 1 otherwise) |
| `Collate.FirstImageFitsTransform` | datasets/deepTextRecog_dataset.py:58-71 | a first image of positive size fits the transform built from it exactly when it is RGB or single-band; any other mode is padded to one channel and fails |
| `Collate.ModeDecidesPadding` | datasets/deepTextRecog_dataset.py:58-71 | with imgH 32 and imgW 100: after a grayscale first image a grayscale image pads and an RGB one does not; after an RGB first image a grayscale one pads; a four-band first image is rejected by its own transform |

## Left out

- Reading the pickled record list, the progress bar and writing `vocab.txt` (lines 18-19, 22, 32-33) are file I/O. The constructor takes the records as a parameter. `Labels.Join` is the `' '.join` that line 33 writes. It is defined on every list, so an empty record list, whose vocabulary is empty, gives the empty string.
- The configuration object and the data paths (lines 14-16) are only used for I/O.
- A record without an `fn` or `txt` key would raise a `KeyError`. This is not modelled: `Dataset.Record` always has both fields.
- The order of `tokens` comes from iterating a Python set, so it is unspecified. `Dataset.ListOfSet` picks any order and promises only membership and no duplicates.
- `Dataset.DatasetSynth.GetItem`: does not open the image file or convert its mode (lines 40-41). The image is an external library call, so the item carries the file name in its place.
- `Collate.ResizedWidth`: uses exact integer ceiling division instead of the floating-point `w / float(h)` and `imgH * ratio`. Float rounding could move the ceiling by one column on some inputs, and that is not captured.
- `Collate.Collate`: does not resize the images (`image.resize(..., BICUBIC)`, line 70), run `ResizeNormalize` (lines 82-92), or build the stacked tensor with `torch.cat` (lines 73, 78). These are image-library and tensor-library calls. The result records each image's target size and the padding transform. The batch size is the number of sizes, which equals the number of present samples. The shape errors of padding (line 71) and of stacking (line 78) are modelled from the tensors' shapes; errors the image library itself might raise, for example when resizing to a width of 0, are not modelled.
- `ToTensor` and the `sub_(0.5).div_(0.5)` normalisation (lines 90-91, 102-103) are floating-point arithmetic. Pixel values are an opaque type, so `Pad.NormalizePad.Apply` pads the tensor it is given.
- `NormalizePAD` stores `max_width_half` and `PAD_type` (lines 98-99), but its call never reads them. They are not modelled.
- `AlignCollate`'s `imgH` and `imgW` are natural numbers. A negative target size would make the tensor allocation fail, and that is not modelled.
- `train.py` is not part of this model. It covers argument parsing, the random train/validation split, data-loader workers, the training framework, distributed training, logging and checkpoints. It is orchestration over external libraries.
