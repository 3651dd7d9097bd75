# ExifCopy geometry, modelled in Dafny

ExifCopy is a small web application. It takes pairs of images: a *source*,
whose EXIF metadata and aspect ratio are wanted, and a *target*, whose pixels
are kept. For each pair it turns the target by the source's EXIF Orientation,
crops the target, centred, to the source's aspect ratio, and saves it with the
source's EXIF data. This project models the three pieces of geometry behind
that, in `app.py`:

- `exif_tags.dfy` (module `ExifTags`) covers the Orientation lookup
  (`get_orientation`). The library's tag table is a sequence of (id, name)
  entries in iteration order. The lookup takes the first id named
  "Orientation" and reads that id from the image's EXIF mapping. An image
  without EXIF data gives `None` as its mapping, and reading from it is the
  error `NoExifData`. With the standard table the lookup reads tag 274
  (0x0112), the Orientation tag of TIFF 6.0, Section 8.
- `orientation.dfy` (module `Orientation`) covers the choice of rotation
  (`adjust_orientation`): 3 gives 180, 6 gives 270 and 8 gives 90 degrees,
  counter-clockwise, with the canvas expanded. Any other value, and a missing
  tag, leaves the image alone. The angle's meaning is a map from stored pixel
  positions to rotated ones. It is compared with the display map that TIFF
  6.0, Section 8 gives each of the eight Orientation values.
- `aspect_crop.dfy` (module `AspectCrop`) covers the crop box
  (`crop_to_aspect`). The target's width is cropped when the target is
  strictly wider than the source. Otherwise its height is cropped. The new
  side is truncated, and the box is centred with a floor-halved offset.
  Division by zero is an error value rather than a precondition.
- `geometry.dfy` holds the sizes, points and boxes, and `wrappers.dfy` holds
  `Option` and `Result`.

The application compares `src_width / src_height` with
`target_width / target_height` as floating-point numbers and truncates with
`int()`. The model uses exact integers instead: it compares
`tw * sh > th * sw` and computes the new side as `(th * sw) / sh` or
`(tw * sh) / sw`. `WiderMeansGreaterAspect` and
`CroppedSideIsTruncatedQuotient` prove that these equal the source's formulas
evaluated in exact rational arithmetic.

## Model

| member | source | states |
|---|---|---|
| `ExifTags.FindTagId` | app.py:15-16 | None exactly when no table entry has the name; otherwise the id of the first entry that has it (the loop returns at the first match) |
| `ExifTags.GetOrientation` | app.py:13-18 | fails exactly when the Orientation name is in the table and the image has no EXIF mapping; a value it returns is the one stored under the first Orientation id; with a mapping it yields a value exactly when that id is a key |
| `ExifTags.StandardLookup` | app.py:15-17 | with the standard table (every Orientation entry has id 0x0112) the result is the value under tag 274, None when absent, and the error only without EXIF data |
| `ExifTags.NoOrientationEntry` | app.py:18 | a table with no Orientation entry gives None for every image, with or without EXIF data |
| `Orientation.AdjustmentFor` | app.py:20-28 | rotates exactly for orientation 3, 6 and 8, and always by a quarter turn (90, 180 or 270) |
| `Orientation.Apply` | app.py:23-27 | a rotated pixel of the image stays inside the rotated canvas (quarter turns exchange width and height) |
| `Orientation.AdjustedSize` | app.py:23-27 | the expanded canvas has the image's two sides, possibly exchanged, so it holds the whole rotated image |
| `Orientation.ApplyInjective` | app.py:23-27 | no two pixels of the image are sent to the same place by the rotation |
| `Orientation.UnmirroredUpright` | app.py:22-27 | for 1, 3, 6 and 8 the chosen rotation moves every pixel where TIFF 6.0 orientation says it is shown, and gives the display size |
| `Orientation.MirroredNotUpright` | app.py:28 | 2, 4, 5 and 7 get no rotation, so an image of at least 2x2 pixels is not shown as its orientation intends |
| `Orientation.UprightExactlyUnmirrored` | app.py:20-28 | for images of at least 2x2 pixels the result is upright if and only if the value is 1, 3, 6 or 8 |
| `Orientation.UnknownLeavesImage` | app.py:28 | a missing tag, or a value outside 1..8, leaves the image unchanged |
| `AspectCrop.Aspect` | app.py:36-37 | the aspect ratio is the exact non-negative quotient: times the height it gives the width |
| `AspectCrop.Wider` | app.py:39 | the branch test; only a target of positive width against a source of positive height can be wider |
| `AspectCrop.Undefined` | app.py:36-44 | holds exactly when one of the divisions the computation performs has a zero divisor: either height (both ratios), or the source ratio in the height-crop branch |
| `AspectCrop.CropBox` | app.py:30-46 | fails (division by zero) exactly when a height is zero, or both widths are zero |
| `AspectCrop.CropWithin` | app.py:39-46 | whenever the box is defined it lies inside the target: `0 <= left <= right <= tw` and `0 <= top <= bottom <= th` |
| `AspectCrop.CropKeepsOneSide` | app.py:39-46 | the full height is kept exactly when the target is strictly wider than the source; otherwise the full width is kept (equal ratios go to the height crop) |
| `AspectCrop.CropCentred` | app.py:41-46 | the left (top) margin is at most the right (bottom) margin, which is at most one pixel more |
| `AspectCrop.CropRatio` | app.py:40-44 | the cropped side is the largest integer not exceeding the side the source ratio calls for: `w*sh <= h*sw < (w+1)*sh`, and the same with the roles exchanged for a height crop |
| `AspectCrop.SameAspectKeepsWhole` | app.py:39-46 | a target with the source's exact aspect ratio gets the whole image as its box |
| `AspectCrop.WiderMeansGreaterAspect` | app.py:36-39 | `tw*sh > th*sw` holds exactly when `tw/th > sw/sh` in exact rational arithmetic |
| `AspectCrop.CroppedSideIsTruncatedQuotient` | app.py:40-44 | the cropped side is the exact rational `th * (sw/sh)` or `tw / (sw/sh)`, truncated |

## Left out

- The HTTP route `index` (app.py:48-94) is left out: request parsing, the two 400 replies, the JSON reply and template rendering. So is the per-pair loop that composes lookup, rotation and crop, and its exception skip.
- Pixel work is left out: `Image.open`, `rotate`, `crop` and `save`. The model keeps only the angle and the box handed to the library, plus the rotation's effect on pixel positions and the size of the expanded canvas. The rotation's point maps follow the library's documented counter-clockwise convention; the library itself is not part of this model.
- piexif `load`/`dump` and the library's `ExifTags.TAGS` table are not part of this model. The tag table is a parameter, and the mapping `_getexif()` returns is `Option<map<int, int>>`.
- EXIF values are modelled as integers. A stored value numerically equal to an integer (a float 3.0, a rational 3/1) compares equal to it in the source and is modelled as that integer. Any other value (a non-integral number, a tuple, bytes) compares unequal to 3, 6 and 8 and behaves like an unknown value.
- File-system effects are left out: the save folder, `os.path.exists`, `os.remove` and path joins.
- `AspectCrop.CropBox`: does not model floating-point rounding. The source computes both ratios and the new side in binary floating point and truncates with `int()`. Near a boundary that can differ by one pixel from the exact floor, or flip the comparison for nearly equal ratios. The model uses exact integers throughout.
