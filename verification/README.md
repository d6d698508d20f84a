# Face anonymiser: region blur, path walk and classification in Dafny

The tool blurs faces in images and videos. A pretrained detector finds the
faces. `blur_one_image` grows each detection box by a 20-pixel margin and
blurs that rectangle of the frame in place. `get_paths` walks the input path
recursively. `split_images_videos` sorts the files it finds into images and
videos by suffix. `parse_args` picks the input path from the command line.
This project models those four functions of `main.py` and proves what they
promise.

- `region_blur.dfy`, module `RegionBlur`. The frame is an `array2<P>` with a
  generic pixel type, so a pixel can stand for a tuple of channels. The box
  filter belongs to the image library, so it is a parameter: a total function
  giving the value the filter writes at a position of the patch it is given.
  A patch therefore always keeps its shape. The rectangle arithmetic is
  modelled as written, Python's slice truncation included. `BlurOneImage`
  overwrites each detection's rectangle in place, in list order. Its
  postcondition ties the array to `BlurAll`, a function of the old pixels.
  The library filter raises an error on an empty patch. That error is the
  `EmptyPatchError` outcome, and it carries the index of the failing detection.
- `path_walk.dfy`, module `PathWalk`. The filesystem below the input path is
  a tree: `File(name)` or `Dir(name, children)`, with children in listing
  order. `Join` is POSIX `os.path.join`. `GetPaths` is a recursive method that
  builds its list entry by entry, and it is proved against `Leaves`. `Walk`
  gives the same walk as lists of entry names, and `Render` turns such a list
  back into the string path. In a well-formed tree (plain entry names, no two
  equal names in one directory), every file is returned exactly once and no
  directory is returned.
- `classifier.dfy`, module `Classifier`. `KindOf` does the suffix tests.
  `Select` is the order-preserving filter that specifies `SplitImagesVideos`.
- `command_line.dfy`, module `CommandLine`. `argv` is a parameter. Path
  existence is membership in a map from each existing path to its node. A
  failed `assert` becomes an error value.
- `seqs.dfy`, module `Seqs`: flattening, duplicate-freedom and subsequence
  helpers.

Behaviour kept as the code has it:

- The far edge is measured from the clamped origin: `x2 = max(0, x - 20) + w + 40`.
  So when `x < 20`, the rectangle ends at `w + 40`, not at `x + w + 20`.
  `Expand` states this.
- A rectangle whose clamped origin lies at or past the frame edge is empty.
  Its bounds are then `left == right == width`. The bound `x1 < x2` does not
  hold for such a box (`Effective`). The box filter rejects the empty patch,
  so the call stops with an error at that detection. The detections before
  it have already been written into the frame (`BlurOneImage`, `FirstEmpty`).
  A frame with no rows or no columns fails on its first detection
  (`EmptyPatchIff`).
- The third image suffix is `jpeg` without a dot, so `scan_jpeg` is an image
  (`KindOf`, `JpegWithoutDot`). The tests are case-sensitive (`UpperCaseDropped`).
- Detections are applied one after another. A later one blurs pixels an
  earlier one already blurred. Order is irrelevant when neither patch is
  empty and the rectangles do not overlap. Two such neighbours may be swapped
  anywhere in the list: the call fails at the same index, if at all, and
  leaves the same frame (`SwapOutcome`). Moving a detection with an empty
  patch does matter, because it changes which detections are written before
  the error. In general, the pixel keeps the value from its last
  covering detection (`LastCoverWins`).
- Too many arguments is reported before a missing path, and it is reported
  even when the path exists.

## Model

| member | source | states |
|---|---|---|
| `RegionBlur.Expand` | main.py:125-128 | The rectangle spans exactly `w + 40` columns and `h + 40` rows from the clamped origin. The near edge is `origin - 20`, or 0 when that is negative. The box plus 20 pixels past its far edge is always covered. The far edge is exactly 20 past the box iff the origin was not clamped. |
| `RegionBlur.SliceBounds` | main.py:131 | The range a slice `[lo:hi]` covers lies in `0..n`. A position is in it iff it is in `[lo, hi)` and below `n`. |
| `RegionBlur.Effective` | main.py:125-131 | The blurred rectangle lies inside the frame. A pixel is in it iff it is in the expanded rectangle and inside the frame. The rectangle is empty iff the clamped origin is at or past the right (or bottom) edge. |
| `RegionBlur.Crop` | main.py:131 | The cut-out patch has the rectangle's shape. Pixel (i, j) of the patch is pixel (top + i, left + j) of the frame. |
| `RegionBlur.Overwrite` | main.py:131 | After `image[r] = blur(image[r])` the frame keeps its shape. Each pixel of `r` holds the filter's value for the patch cut out before the write. Every other pixel is unchanged. |
| `RegionBlur.BlurAll` | main.py:117-133 | Processing the detections keeps the frame's dimensions. With no detections the frame is returned unchanged. |
| `RegionBlur.UnchangedAfter` | main.py:117-131 | A pixel that no detection from index k on covers keeps the value it had after the first k detections. |
| `RegionBlur.OutsideUntouched` | main.py:117-133 | A pixel outside every detection's effective rectangle is unchanged. |
| `RegionBlur.LastCoverWins` | main.py:117-131 | A pixel whose last covering detection is number k holds the filter's value for that detection's patch. The patch is cut from the frame the first k detections left. |
| `RegionBlur.CropUnaffected` | main.py:131 | Blurring one rectangle leaves the patch of a disjoint rectangle unchanged. |
| `RegionBlur.OverwriteCommute` | main.py:131 | Two disjoint rectangles give the same frame whichever is blurred first. |
| `RegionBlur.DisjointCommute` | main.py:117-131 | Under `BlurAll`, two detections with disjoint effective rectangles may be processed in either order. On its own this says nothing about the empty-patch error, which `SwapOutcome` covers. |
| `RegionBlur.BlurRow` | main.py:131 | Writing one row of the rectangle sets its pixels to the filter's values for the patch. Every other pixel keeps its old value. |
| `RegionBlur.BlurRegion` | main.py:131 | The in-place write leaves the array equal to `Overwrite` of its old pixels. |
| `RegionBlur.BlurAllAppend` | main.py:117-131 | Processing a list and then a second list is processing the two lists joined. |
| `RegionBlur.SwapAdjacent` | main.py:117-131 | Under `BlurAll`, two neighbouring detections with disjoint effective rectangles may be swapped anywhere in the list without changing the resulting frame. On its own this says nothing about the empty-patch error, which `SwapOutcome` covers. |
| `RegionBlur.FirstEmpty` | main.py:117-131 | The index lies within the list. Every detection before it has a non-empty patch. The detection at it, when there is one, has an empty patch. |
| `RegionBlur.FirstEmptyUnique` | main.py:117-131 | Any index that every earlier detection passes, and at which the list ends or the patch is empty, is the first empty patch. |
| `RegionBlur.EmptyPatchIff` | main.py:125-131 | The patch the filter is given is empty iff the clamped origin lies at or past the right or the bottom edge. |
| `RegionBlur.FirstEmptySamePlaces` | main.py:117-131 | Two lists of equal length with empty patches at the same indices fail at the same index. |
| `RegionBlur.SwapFirstEmpty` | main.py:117-131 | Swapping two neighbours with non-empty patches leaves the index of the first empty patch unchanged, and that index never falls between them. |
| `RegionBlur.SwapOutcome` | main.py:117-133 | Swapping two neighbouring detections whose patches are non-empty and disjoint changes nothing `blur_one_image` does: it fails at the same index, if at all, and the detections written before that leave the same frame. |
| `RegionBlur.BlurOneImage` | main.py:105-133 | The array ends up equal to `BlurAll` of its old pixels over the detections before the first empty patch. The call returns the same array iff no patch is empty. Otherwise it reports the index of the first empty patch. |
| `PathWalk.Join` | main.py:164 | An absolute name replaces the base. Otherwise the name follows the base, with one '/' between unless the base is empty or already ends with '/'. |
| `PathWalk.RenderInjective` | main.py:164 | Below one base, two distinct lists of plain entry names give two distinct path strings. |
| `PathWalk.Leaves` | main.py:172-175 | A root that is not a directory gives exactly `[base]`. |
| `PathWalk.LeavesRender` | main.py:157-169 | The returned strings are the walked name lists rendered below the base, one for one and in order. |
| `PathWalk.WalkIsFiles` | main.py:160-169 | In a well-formed tree, a name list is walked iff it leads to a file. So every file is listed and no directory is. |
| `PathWalk.WalkNoDuplicates` | main.py:160-169 | In a well-formed tree, no name list is walked twice. |
| `PathWalk.LeavesAreFiles` | main.py:154-175 | In a well-formed tree the returned paths have no duplicates, and there is one per file. A plain name list's path is returned iff the list leads to a file. |
| `PathWalk.GetPaths` | main.py:154-175 | The recursive walk, which appends and extends a local list, returns exactly `Leaves`. That is the depth-first, listing-order file paths, or `[base]` for a non-directory root. |
| `Classifier.KindOf` | main.py:185-189 | A path is an image iff it ends with `.png`, `.jpg` or `jpeg`. It is a video iff it is not an image and ends with `.mp4` or `.avi`. |
| `Classifier.Select` | main.py:183-189 | A path is selected iff it is in the input and of the kind. |
| `Classifier.SelectCounts` | main.py:183-189 | Every path of the kind is kept as many times as it occurs, and no other path is kept. |
| `Classifier.SelectIsSubsequence` | main.py:181-191 | The selected paths form an order-preserving subsequence of the input. |
| `Classifier.SplitImagesVideos` | main.py:178-191 | `images` and `videos` are the image and the video selections of `Leaves(base, root)`. They hold exactly the walked paths of their kind and are disjoint. Each keeps walk order. |
| `Classifier.JpegWithoutDot` | main.py:186 | A name ending in `jpeg` with no dot before it, `scan_jpeg`, is an image. |
| `Classifier.UpperCaseDropped` | main.py:186-188 | The suffix tests are case-sensitive: `b.PNG` is neither an image nor a video. |
| `CommandLine.BaseDir` | main.py:142-149 | The result is `TooManyArguments` iff there is more than one user argument, whether or not the path exists. It is `Ok` iff there is at most one and the chosen path exists. Otherwise the path is the argument, or `assets` when there is none. It must exist, or the error names the missing path. |
| `CommandLine.ParseArgs` | main.py:136-151 | It fails exactly when `BaseDir` does, with the same error. Otherwise it returns the image and video selections of the walk below the chosen path. |

## Left out

- The box filter's pixel arithmetic (`cv2.blur` with a 30x30 kernel, border handling, 8-bit rounding) belongs to the image library. It is the `blur` parameter, and only its shape is used.
- `BlurOneImage` reports the box filter's failure on an empty patch as the `EmptyPatchError` outcome, not as an exception. The error's text is not modelled. Whether the library fails on other inputs is not modelled.
- `process_images`, `process_videos` and `main`: image and video decoding and encoding, the face detector and its timestamps, the codec and frame-rate queries, creating the output directory, printing. All of it is I/O or calls into foreign libraries.
- `webcam.py`: camera capture, the display window and key polling. It is device I/O, and it only calls `blur_one_image`.
- The real filesystem calls (`os.path.exists`, `isdir`, `listdir`). The tree and the existence map replace them. Symbolic links are not modelled. The listing order is whatever order the tree's children have.
- `GetPaths` does not model the errors the real walk can raise: a directory that cannot be listed (`PermissionError` from `os.listdir`), or a tree deep enough to exceed Python's recursion limit. The model always returns the list.
- `GetPaths` always gets a node. The source, called on a missing path, returns `[base]`. It is only reached after `parse_args` has rejected missing paths.
- `BoundingBox` has non-negative width and height, as the detector yields them. With a negative size, Python's negative slice indices could arise. That case is not modelled.
- The usage message text of the two assertions in `parse_args` is not modelled. A failed check is an error value and not an `AssertionError` that ends the process.
