# ITKTools `pxerodeimage` and `pxextractslice`: argument checking and dispatch

This project models the logic the two ITKTools command-line programs add on top of ITK.

- `pxerodeimage` applies a grayscale erosion with a ball-shaped structuring element.
- `pxextractslice` cuts one 2-D slice out of a 3-D volume.

Each program's `main` is modelled as a decision function `Decide`. Its inputs are:

- the parsed flags, each an `Option`, plus the argument count;
- the collaborators it calls but does not implement (`Collaborators`): the header inspector `GetImageProperties`, and the two path helpers that return a file name without its last extension (`stem`) and that extension (`ext`).

Its result is an `Outcome`:

- `Failed(error)`: `main` returns 1, and the error says which check failed.
- `Finished(runs)`: the `run` lines of the dispatch chain whose condition held, each with the parameters it passes.
- A third case for the one place where the source indexes a `std::vector` past its end, which C++ leaves undefined.

`ExitCode` turns an outcome into the status the process returns. It takes as a parameter whether the instantiation that ran threw an ITK exception.

Inside the processing routines, two steps are modelled:

- `ErodeImage` fills the structuring element's radius array and chooses the boundary value.
- `ExtractSlice` builds the extraction region.

Both are modelled as methods over arrays, as the source writes them.

Modules:

- `common.dfy`, module `ToolCommon`: `unsigned int` values and their wrap-around, flag options, header properties, the pixel component types and their C++ spellings, the underscore replacement, and the selection of `run` lines.
- `erodeimage.dfy`, module `ErodeImage`: the erosion tool.
- `extractslice.dfy`, module `ExtractSlice`: the slice tool.

In three places the code does less than its own messages and checks say it should. The model follows the code:

- `src/erodeimage/erodeimage.cxx:139` says "No nonpositive numbers are allowed in radius". The loop before it starts at index 1, so the first entry is never checked.
- `src/extractslice/extractslice.cxx:110-115` tells the user that the image "only has N slices", so the valid slices are 0 to N-1. Line 108 rejects only a slice above N.
- `src/extractslice/extractslice.cxx:120-127` is meant to reject an axis at or beyond the dimension. Line 108 has already indexed the extents with that axis.

Each of these is listed under "Findings" with a corrected definition next to it.

## Model

| member | source | states |
|---|---|---|
| ToolCommon.Decrement | src/extractslice/extractslice.cxx:120 | `Dimension - 1` in `unsigned int` is the mathematical difference taken modulo 2^32, so 0 wraps to 4294967295 |
| ToolCommon.ReplaceUnderscoreWithSpace | src/erodeimage/erodeimage.cxx:117-118 | the type tag keeps its length; every `_` becomes a space and every other character is unchanged; no `_` is left |
| ToolCommon.ExclusiveSelectsAtMostOne | src/erodeimage/erodeimage.cxx:13-19 | each `run` line is its own `if`; when no two conditions of a chain can hold together, at most one line runs |
| ErodeImage.Decide | src/erodeimage/erodeimage.cxx:33-164 | each check fails exactly on the inputs that reach it and break it, in the source's order: argc outside 5..13 first; then a missing `-in`, only then a missing `-r`, then a failed inspection, then more than one component (checked after the `-dim`/`-pt` overrides and before any radius check); a radius list whose length is neither 1 nor the overridden Dimension gives 1, and that is the only case that does; the tool rejects a nonpositive radius iff the list has Dimension entries and one of them at index 1 or later is 0; the undefined read of `radius[0]` happens exactly for an empty list with Dimension 0; `main` reaches the dispatch iff the header checks pass and the list is non-empty, has 1 or Dimension entries, and has no 0 at index 1 or later; it then runs at most one instantiation |
| ErodeImage.PrepareOutcome | src/erodeimage/erodeimage.cxx:33-128 | each check before the radius loop fails exactly on the inputs that reach it and break it; an input that passes them all is accepted, and no check there rejects a radius value |
| ErodeImage.PreparedRequest | src/erodeimage/erodeimage.cxx:47-128 | an accepted request carries `-in`, the `-out` name or else stem + "ERODED" + ext, the `-bc` text or "", the `-r` list, `-dim` over the header dimension, and `-pt` over the header type with `_` read as space; the list has 1 or Dimension entries |
| ErodeImage.BuildRadius | src/erodeimage/erodeimage.cxx:130-143 | the loop as written: the radius has exactly Dimension entries; a single radius is broadcast to all of them; a Dimension-long list is copied verbatim; it fails iff that list has a 0 at some index from 1 on; the result agrees with `EffectiveRadius` |
| ErodeImage.RadiusShape | src/erodeimage/erodeimage.cxx:130-143 | the derived radius has Dimension entries, equals `radius[0]` everywhere for a length-1 list, and equals a Dimension-long list with entries from index 1 on positive |
| ErodeImage.MatrixRows | src/erodeimage/erodeimage.cxx:148-155 | the eight `run` lines are exactly {unsigned char, char, unsigned short, short} x {2, 3} |
| ErodeImage.SelectedAtMostOne | src/erodeimage/erodeimage.cxx:145-156 | no two of the eight `run` conditions hold together, so at most one instantiation runs |
| ErodeImage.SelectedCoversSupported | src/erodeimage/erodeimage.cxx:145-156 | some `run` line fires iff the type and dimension are a supported pair, and that line has the same spelling and dimension and an integer pixel type |
| ErodeImage.Runs | src/erodeimage/erodeimage.cxx:13-19 | at most one call; exactly one iff the pair is supported; the call passes the request's file names, boundary text and radius unchanged |
| ErodeImage.DispatchMatrix | src/erodeimage/erodeimage.cxx:145-164 | after the checks, an erosion runs iff (overridden type with `_` read as space, overridden dimension) is supported; when nothing runs the exit status is 0 |
| ErodeImage.DispatchedErosion | src/erodeimage/erodeimage.cxx:117-155 | a running erosion gets the overridden type and a dimension of 2 or 3, `-in`, `-out` or the default name, the `-bc` text, and a radius of Dimension entries that broadcasts a single value or copies a Dimension-long list whose entries from index 1 on are positive |
| ErodeImage.MaxValue | src/erodeimage/erodeimage.cxx:218-221 | the default boundary value is representable in the pixel type and no representable value exceeds it |
| ErodeImage.KernelParameters | src/erodeimage/erodeimage.cxx:206-234 | the radius array has one entry per dimension, each a copy of `radius[i]`; the boundary is max(PixelType) iff the `-bc` text is empty, and otherwise the `-bc` text |
| ErodeImage.LeadingZeroRadiusAccepted | src/erodeimage/erodeimage.cxx:131-143 | a zero first radius is accepted: `-r 0` is broadcast to (0,0,0), and `-r 0,3` in 2-D is copied as (0,3) |
| ErodeImage.CheckedRadius | src/erodeimage/erodeimage.cxx:131-143 | corrected derivation: rejects iff any entry is 0; an accepted radius has Dimension entries, none 0; it agrees with the source's when the first entry is non-zero |
| ErodeImage.DecideIntended | src/erodeimage/erodeimage.cxx:120-155 | the corrected `main` never runs an erosion with a zero radius entry |
| ErodeImage.IntendedDiffersOnlyOnLeadingZero | src/erodeimage/erodeimage.cxx:131-143 | the corrected `main` differs from the source's exactly where the source finishes (running an erosion or nothing) with a zero first radius; there the corrected one returns 1 |
| ExtractSlice.Decide | src/extractslice/extractslice.cxx:39-97 | each check fails exactly on the inputs that reach it and break it, in the source's order: argc below 5 first; then a missing `-in`, then a failed inspection, then more than one component, even when `-sn` is missing too; only then a missing `-sn`; `main` reaches the dispatch iff these checks and both sanity checks pass, and otherwise ends in a sanity-check failure or the read past the end; the read past the end happens iff the axis is at or beyond the number of extents |
| ExtractSlice.AxisBound | src/extractslice/extractslice.cxx:119-128 | with the axis inside the extents and the slice check passed, the tool returns 1 for the axis iff it is above `Dimension - 1` in `unsigned int`, and passes otherwise; this is reached when the header lists more extents than its dimension |
| ExtractSlice.PreparedRequest | src/extractslice/extractslice.cxx:51-105 | an accepted request carries `-in`, `-out`, `-pt` over the header type with no underscore replacement, the header dimension and extents, the `-sn` number and text, and `-d` defaulting to 2 |
| ExtractSlice.SliceBound | src/extractslice/extractslice.cxx:104-117 | with the axis inside the extents, the tool returns 1 for the slice iff `slicenumber > imagesize[axis]`, so a slice equal to the extent passes; the axis is 2 unless `-d` is given |
| ExtractSlice.ZeroDimensionAxisUnchecked | src/extractslice/extractslice.cxx:120 | on a 0-dimensional header `Dimension - 1` wraps, so the axis check never rejects any axis |
| ExtractSlice.AxisCheckUnreachable | src/extractslice/extractslice.cxx:104-128 | with one extent per dimension, the axis check never fires: an axis at or beyond the dimension has already been used to index the extents past their end |
| ExtractSlice.SliceGuardCounterexamples | src/extractslice/extractslice.cxx:107-128 | on a 4x4x4 volume, slice 4 on axis 2 passes both checks, and axis 3 reads `imagesize[3]` |
| ExtractSlice.SliceGuardIntended | src/extractslice/extractslice.cxx:107-128 | corrected checks: the axis is rejected iff it is at or beyond the dimension; with one extent per dimension, nothing is read past the end, and a request passes iff axis < Dimension and slice < extent |
| ExtractSlice.DecideIntended | src/extractslice/extractslice.cxx:107-148 | on every header, the corrected `main` only extracts an axis below the dimension and below the number of extents, and a slice below that axis's extent |
| ExtractSlice.IntendedDiffers | src/extractslice/extractslice.cxx:107-128 | on a header with one extent per dimension, the corrected and source checks differ exactly on an axis at or beyond the dimension (the source reads past the end; the correction returns 1) and on a slice equal to the extent (the source passes both checks and, for a supported type, dispatches a region that starts one past the last slice; the correction returns 1) |
| ExtractSlice.SelectedAtMostOne | src/extractslice/extractslice.cxx:141-149 | no two of the five `run` conditions hold together, so at most one instantiation runs |
| ExtractSlice.SelectedCoversSupported | src/extractslice/extractslice.cxx:141-149 | some `run` line fires iff the type is one of unsigned char, char, unsigned short, short, float, and that line has the spelling compared |
| ExtractSlice.Runs | src/extractslice/extractslice.cxx:130-148 | at most one call, exactly one iff the type is supported, none when the type holds `_`; the call gets `-out` or else stem + "_slice_" + letter + "=" + the `-sn` text + ext |
| ExtractSlice.DispatchByType | src/extractslice/extractslice.cxx:141-157 | after the checks, an extraction runs iff the type from `-pt` or the header is one of the five spellings as typed, so `unsigned_char` runs nothing; when nothing runs the exit status is 0 |
| ExtractSlice.DispatchedExtraction | src/extractslice/extractslice.cxx:98-148 | a running extraction gets the `-sn` number and the axis (2 unless `-d`); the axis is inside the extents and at most Dimension - 1; the slice is at most the extent; the name is `-out` or else stem + "_slice_" + x/y/z (x for 0, y for 1, z otherwise) + "=" + the raw `-sn` text + ext |
| ExtractSlice.DesiredRegion | src/extractslice/extractslice.cxx:193-206 | the extraction region copies the input's largest region, except that the axis gets size 0 and start `slicenumber`; every other axis keeps its size and start |
| ExtractSlice.KeptExtentDropsAxis | src/extractslice/extractslice.cxx:193-206 | collapsing one axis of an extent with no zero sizes removes exactly that axis's entry and keeps the others in order |
| ExtractSlice.CollapsedRegionIsPlane | src/extractslice/extractslice.cxx:193-206 | on a non-empty input, the region selects an index iff its axis coordinate is `slicenumber` and its other coordinates lie in the input; the output keeps the other two extents in order |

## Left out

- Image reading and writing (`ImageFileReader`, `ImageFileWriter`) and file formats are I/O. They are not modelled.
- The structuring element, the grayscale erosion filter and the extraction filter's pixel copying belong to ITK. A run is modelled only as a `Call` that records its parameters. The one exception is `ExtractSlice.Selects`, which gives the extraction filter's documented reading of a region with a zero-size axis.
- `GetImageProperties` is in `CommandLineArgumentHelper.h`, which is not part of this model. Its result is the `inspect` parameter; `None` stands for a non-zero return.
- `ReplaceUnderscoreWithSpace` is also in `CommandLineArgumentHelper.h`. It is modelled as replacing each `_` with a space.
- The `itksys` path helpers are the uninterpreted `stem` and `ext` parameters. Directory handling is not modelled.
- The command-line parser (`itkCommandLineArgumentParser.h`) is not part of this model. Each flag is an option value.
  - The model lets `-r` be an empty list, because nothing visible rules it out.
  - `-sn` is a `Token` that holds the number and the text the user typed, since the tool reads the flag both ways.
- `ErodeImage.KernelParameters`: the `-bc` text is kept as text. Its conversion by `atoi`/`atof` and the cast to the pixel type are C library parsing and are not modelled.
- `PrintHelp` and all standard output and standard error messages are not modelled.
- ITK exceptions are modelled only as the `routineThrows` argument of `ExitCode`.
- `ExitCode` is not defined for the two undefined reads past the end of a vector.
- `ErodeImage.MaxValue` takes `char` as signed (maximum 127), as on x86 Linux. Where `char` is unsigned, the default boundary for `char` images is 255.
- A failed allocation of the Dimension-long radius vector (`-dim` near 2^32) is not modelled.
- `ExtractSlice.DesiredRegion` requires a 3-element region and an axis below 3, because `ExtractSlice` always reads the input as a 3-D image. The tool accepts a 4-D header with `-d 3`, and the routine would then index a 3-element ITK size with 3. This case is left outside the model.

## Findings

| source | as written | input that shows it | evidently intended | confidence | as-written member | corrected member |
|---|---|---|---|---|---|---|
| src/erodeimage/erodeimage.cxx:131-143 | the positivity loop starts at index 1, so `radius[0]` is never checked, and a single radius is broadcast unchecked | `-r 0` on any image, or `-r 0,3` on a 2-D image | every radius entry is at least 1 | medium, not executed | ErodeImage.LeadingZeroRadiusAccepted | ErodeImage.CheckedRadius |
| src/extractslice/extractslice.cxx:108 | `slicenumber > imagesize[which_dimension]` lets a slice equal to the extent through | a 4x4x4 volume with `-sn 4 -d 2`: both checks pass and `ExtractSlice` gets a region starting one past the last slice; what the ITK filter then does is outside the model (an ITK exception would give exit 1) | reject `slicenumber >= imagesize[which_dimension]` | high, not executed | ExtractSlice.SliceGuardCounterexamples | ExtractSlice.SliceGuardIntended |
| src/extractslice/extractslice.cxx:108-128 | the slice check indexes `imagesize` with the axis before the axis check runs, so the axis check can never fire on a consistent header | a 3-D volume with `-sn 0 -d 3` | check the axis against the dimension before reading its extent | high, not executed | ExtractSlice.AxisCheckUnreachable | ExtractSlice.DecideIntended |
