# DCT reduction: frames, their combination, and the filename expander

This project models the data side of a small reduction pipeline for CCD
frames from the Discovery Channel Telescope, and proves properties of the model.
The code comes from two Python files, `DCTRedux.py` and `DCTReduxGUI.py`.

- **Reading a frame.** A frame (`DataEnc`, with the role subclasses `Bias`, `Flat` and
  `Image`) is read from a FITS file. Its name comes from the path. Its data array
  is transposed and cut into prescan, image and overscan column regions by the
  header's PRESCAN, NAXIS1 and POSTSCAN keywords.
- **Combining frames.** Frames combine with `+` and `-`. Each operator works on a
  deep copy of the left operand, so both operands are left alone. The copy gains
  the right operand's first name and header, and each region is combined element
  by element. The docstring of `avg` describes adding the frames and dividing by
  the number of images combined. The code as written cannot do that (see
  "## Findings"), so the model keeps both forms.
- **Header accessors.** Properties such as `airmass` or `date` return one value
  for a raw frame and a list, one value per header, for a combined one.
- **Counters.** Each role keeps a class-level count of its live objects.
- **Filename expansion.** The GUI turns the input directory and a filename pattern
  into the files to load. The pattern can be a single name, a comma list, or a
  `prefix[a,b,c]` bracket list.

Modules:

- `Outcomes` (`outcomes.dfy`): the Python exceptions the code raises, and the
  `Result` and `Option` wrappers that every other module uses.
- `PyOps` (`python_ops.dfy`): Python's slicing and the `str`/`re` operations
  the code relies on. These are `split`, `re.split` over a character class,
  `replace`, `rfind` and `in`. Each is stated once, with its own lemmas.
- `Planes` (`planes.dfy`): the 2-D sample arrays and numpy's element-wise `+=`,
  `-=` and `/`.
- `Frames` (`frames.dfy`): the frame as a value. It covers extracting the name,
  splitting the regions, width and height, `+`/`-` (`Combine`), `sum` and `avg`
  (`Sum`, `Average`) and the header accessors.
- `FrameObjects` (`frame_objects.dfy`): the frame objects as a class whose
  operators deep-copy and then update fields in place, and the role counters as a
  `Registry` class. The methods that compute frame data (`Combined`, `Add`,
  `Sub`, `SubtractBias`, `SubtractFlat`, `SubtractInPlace`, `SumOf`, `Avg`)
  are proved against the functions in `Frames`, and the frame constructor
  holds what `Frames.Load` gives. `Copy` and the counter methods state the
  object state they produce.
- `FileNames` (`file_names.dfy`): the input-path normalisation of `loadImages`
  and `__getFiles`.

Reading the FITS file is replaced by parameters: the constructor takes the path,
the header map and the 2-D data rows directly. Samples are `real`, and element-wise
operations require equal shapes.

Where the code and its own docstrings disagree, the model follows the code and
states the documented behaviour beside it.

- **Subtracting calibration frames.** The docstrings of `subtractBias` and
  `subtractFlat` (DCTRedux.py:470-473, 477-480) say the frame is subtracted
  from this instance. The code's `self -= frame` only rebinds the method's
  local name, so the caller's frame keeps its bias. `Frame.SubtractBias` and
  `Frame.SubtractFlat` model the code, and `Frame.SubtractInPlace` models the
  docstrings. See "## Findings".
- **Averaging.** The docstring of `avg` (DCTRedux.py:115-136) says the frames
  are added and the three regions divided by the number of images combined.
  The code raises on every input. `Frames.AvgAsWritten` models the code, and
  `Frames.Average` models the docstring, dividing by the header count of the
  sum. For raw, single-header inputs that count is the number of frames
  (`Frames.AverageOfSingles`).

## Model

| member | source | states |
|---|---|---|
| PyOps.SliceBound | DCTRedux.py:87-89 | a Python slice bound: a negative one counts from the end, then it is clamped to [0, n] |
| PyOps.PySlice | DCTRedux.py:87-89 | `s[lo:hi]` is `s[a..b]` for the normalised bounds when a <= b and empty otherwise; it never fails |
| PyOps.PySliceFrom | DCTRedux.py:89 | `s[lo:]` is the suffix from the normalised bound |
| PyOps.DropLast | DCTRedux.py:75 | `s[:-k]` drops the last k elements, or gives `[]` when there are fewer than k |
| PyOps.SlicesPartition | DCTRedux.py:87-89 | cuts at 0 <= a <= b <= n give slices of lengths a, b - a and n - b whose concatenation is the whole sequence |
| PyOps.CountOf | DCTReduxGUI.py:221-222 | the number of separator characters, at most the length |
| PyOps.Split | DCTRedux.py:75 | `split`/`re.split` on a character class gives at least one field and no field contains a separator |
| PyOps.SplitLength | DCTReduxGUI.py:225-226 | there is one field more than there are separators |
| PyOps.SplitJoin | DCTReduxGUI.py:225-226 | joining the fields of `s.split(c)` with c gives back s |
| PyOps.SplitLast | DCTRedux.py:75 | the last field is a suffix and is all of s or is preceded by a separator |
| PyOps.CountZero | DCTReduxGUI.py:221 | a string counts no separator exactly when it contains none |
| PyOps.LastAfterSeparator | DCTRedux.py:75 | a separator-free text at the start or after a separator is the last field |
| PyOps.RFind | DCTReduxGUI.py:212-217 | `rfind` gives -1 or an index holding c, with no c after it |
| PyOps.SplitNone | DCTReduxGUI.py:222 | a string with no separator is one field |
| PyOps.SplitFirst | DCTReduxGUI.py:222 | splitting `a + c + b` at the separator-free a gives a followed by the fields of b |
| PyOps.SplitAvoids | DCTReduxGUI.py:223 | a character absent from the string is absent from every field |
| PyOps.RemoveKeepsCount | DCTReduxGUI.py:226 | `replace(' ', '')` leaves the number of commas unchanged |
| PyOps.ContainsSuffix | DCTReduxGUI.py:207 | a string ending in `.fits` contains `.fits` |
| PyOps.ContainsFirst | DCTReduxGUI.py:207 | an occurrence of a pattern puts its first character in the string |
| PyOps.Contains | DCTReduxGUI.py:207 | `pat in s` holds exactly when the pattern occurs at some index of s |
| PyOps.ReplaceAll | DCTReduxGUI.py:208 | left-to-right non-overlapping `replace`; a replacement that is no longer than the pattern does not lengthen the string, and replacing a single character by text without it removes it |
| PyOps.ReplaceAbsent | DCTReduxGUI.py:207-208 | without an occurrence, `replace` returns its input |
| PyOps.ReplaceAppend | DCTReduxGUI.py:207-208 | when the pattern's first character does not recur in it, appending one occurrence appends exactly one replacement |
| PyOps.ReplaceChars | DCTReduxGUI.py:208 | every character of the result comes from the input or from the replacement |
| PyOps.ReplaceCharConcat | DCTRedux.py:242 | replacing one character works piecewise: on `a + b` it is the replacement on a followed by the replacement on b |
| PyOps.ReplaceCharSingle | DCTRedux.py:242 | on one character, replacing c gives the replacement text for c and the character itself otherwise |
| PyOps.ReplaceCharAbsent | DCTReduxGUI.py:223 | replacing a character that does not occur changes nothing |
| Planes.Transpose | DCTRedux.py:84 | `np.transpose`: a rectangular plane of `width` columns and one row per data row, with sample (x, y) equal to `rows[y][x]` |
| Planes.Plus | DCTRedux.py:171-173 | `+=` on equal shapes: same shape, each sample is the sum |
| Planes.Minus | DCTRedux.py:201-203 | `-=` on equal shapes: same shape, each sample is the difference |
| Planes.Divide | DCTRedux.py:138-140 | division by a positive count: same shape, each sample divided |
| Planes.Extensional | DCTRedux.py:171-173 | rectangular planes of one shape with equal samples are equal |
| Planes.MinusPlus | DCTRedux.py:171-173 | subtracting what was added restores the plane |
| Planes.PlusMinus | DCTRedux.py:201-203 | adding what was subtracted restores the plane |
| Frames.FrameName | DCTRedux.py:75 | the name is the last `[\,/]` field of the path without its last five characters, so it holds no comma or slash and is no longer than the path |
| Frames.FrameNameOfFile | DCTRedux.py:75 | the name of `directory/base.fits` is `base` |
| Frames.FrameNameOfLastField | DCTRedux.py:75 | for a separator-free last field t, the name is t without its last five characters, or empty when t has fewer than five |
| Frames.IntField | DCTRedux.py:87 | `header[key]` as a slice bound: Ok exactly when present and an integer, KeyError when missing, TypeError when present and not an integer |
| Frames.Lookup | DCTRedux.py:88 | `header[key]`: the value when present, KeyError naming the key otherwise |
| Frames.Difference | DCTRedux.py:352 | Python `-` on header values: defined exactly when both are numbers, its number is the difference, it is an int exactly when both are, TypeError otherwise |
| Frames.Columns | DCTRedux.py:87-89 | a column slice of a rectangular plane is rectangular with the same height |
| Frames.SplitRegions | DCTRedux.py:87-89 | the split succeeds exactly when PRESCAN, NAXIS1 and POSTSCAN are integers; the error is PRESCAN's first, then a missing NAXIS1, then a missing POSTSCAN, then TypeError for a text NAXIS1 or POSTSCAN; the three regions are rectangular and as tall as the data |
| Frames.SplitGeometry | DCTRedux.py:87-89 | with sensible scan widths the regions have PRESCAN, NAXIS1 - PRESCAN - POSTSCAN and POSTSCAN columns, the middle one is `width`, and together they are the whole array |
| Frames.HeaderWidth | DCTRedux.py:351-352 | NAXIS1 - PRESCAN - POSTSCAN, with Python's error order (KeyError for NAXIS1, then PRESCAN, TypeError for text among those two, then KeyError for POSTSCAN); Ok exactly when all three are numbers, the value is their difference and an int exactly when all three are |
| Frames.FrameWidth | DCTRedux.py:351-352 | `width` reads only the first header; no header is an error |
| Frames.FrameHeight | DCTRedux.py:287-288 | `height` is the first header's NAXIS2, KeyError when missing, IndexError with no header |
| Frames.FirstHeaderField | DCTRedux.py:287-288 | `header[0][key]`: IndexError with no header, KeyError when missing, the value otherwise |
| Frames.PrescanPix | DCTRedux.py:338-339 | `prescanPix` is the first header's PRESCAN, with the same errors |
| Frames.OverscanPix | DCTRedux.py:330-331 | `overscanPix` is the first header's POSTSCAN, with the same errors |
| Frames.Dim | DCTRedux.py:256-257 | `dim` is (width, height), fails exactly when one of them fails, and reports the width's error first |
| Frames.Load | DCTRedux.py:72-92 | a freshly read frame has one name (from the path), one header, and exactly the three regions of the split; it fails exactly as the split does, with its error |
| Frames.LoadGeometry | DCTRedux.py:83-89 | with sensible scan widths a loaded frame has PRESCAN, `width` and POSTSCAN columns in its three regions, and they concatenate to the transposed array |
| Frames.NumbImagesCombined | DCTRedux.py:304-305 | the number of raw frames combined is at least one and equals the number of names |
| Frames.Apply | DCTRedux.py:171-173 | an element-wise operation keeps the shape |
| Frames.Combine | DCTRedux.py:146-207 | `+`/`-` succeed exactly when all region shapes match; the result has a's names and headers plus b's first, one more image combined, a's shapes, and every region combined element-wise |
| Frames.AddThenSub | DCTRedux.py:146-207 | `(a + b) - b` has a's regions and a's names followed by b's first name twice |
| Frames.SubTwice | DCTRedux.py:197-205 | subtracting b twice subtracts twice b's sample from every sample |
| Frames.FirstNames | DCTRedux.py:169 | the first name of each frame, in order |
| Frames.FirstHeaders | DCTRedux.py:170 | the first header of each frame, in order |
| Frames.Sum | DCTRedux.py:137 | the left fold of `+` has the first frame's shapes |
| Frames.Divided | DCTRedux.py:138-140 | dividing keeps shapes, names and headers and divides every sample |
| Frames.Average | DCTRedux.py:114-136 | the documented average exists exactly when there is a frame and the sum exists; it has the first frame's shapes and the sum's names and headers |
| Frames.SumDefined | DCTRedux.py:137 | the sum exists exactly when every frame has the first frame's shapes |
| Frames.SumPrefixNone | DCTRedux.py:137 | once a prefix fails to add up, the whole sum fails |
| Frames.SumProvenance | DCTRedux.py:153-154 | the sum carries the first frame's names and headers followed by the first name and header of each later frame, in order |
| Frames.SumValues | DCTRedux.py:171-173 | every sample of the sum is the sum of that sample over the frames |
| Frames.AverageDefined | DCTRedux.py:114-142 | the average exists exactly when there is a frame and all frames match |
| Frames.AverageOfCombined | DCTRedux.py:117-122 | averaging matching frames, raw or already combined, divides by the header count of the sum: the first frame's header count plus one for each later frame; each sample is the sum over the frames divided by that count |
| Frames.AverageOfSingles | DCTRedux.py:117-122 | averaging raw frames lists their names and headers in order, combines as many images as frames, and makes each sample the mean over the frames |
| Frames.FirstsOfSingles | DCTRedux.py:169-170 | a raw frame's names followed by the first names of the rest are the first names of all |
| Frames.SumOfCopies | DCTRedux.py:171-173 | n copies of a sample sum to n times it |
| Frames.AverageOfCopies | DCTRedux.py:117-122 | the average of n copies of one raw frame has its regions and n images combined |
| Frames.AverageOfCopiesRegion | DCTRedux.py:117-122 | each region of the average of copies is the copied region |
| Frames.AverageOfCopiesAt | DCTRedux.py:117-122 | each sample of the average of copies is the copied sample |
| Frames.MeanOfCopies | DCTRedux.py:117-122 | the mean of n copies of a sample is the sample |
| Frames.AvgAsWrittenFails | DCTRedux.py:137-140 | the code as written fails on one raw frame, whose documented average gives back its image |
| Frames.AvgAsWritten | DCTRedux.py:137-140 | `avg` as written always raises: AttributeError exactly when there is no argument, and TypeError (`0 + frame`) whenever there is one |
| Frames.Field | DCTRedux.py:228-348 | a property of one header: KeyError when missing, otherwise the value itself; for `date` the text with every 'T' replaced by two spaces, hence without 'T', and AttributeError when DATE-OBS is not text |
| Frames.KeysDistinct | DCTRedux.py:228-348 | `Key` gives each of the ten accessors its own keyword (AIRMASS, DATE-OBS, TELDEC, EXPTIME, FILTERS, GAIN, HA, SCALE, OBSTYPE, TELRA) |
| Frames.Fields | DCTRedux.py:233 | the comprehension succeeds exactly when every header's field does, gives them in header order, and otherwise fails with the first failing header's error |
| Frames.Read | DCTRedux.py:228-348 | an accessor fails with "No header files found" exactly when there is no header, returns the value for one header and one value per header otherwise |
| Frames.DatesHaveNoT | DCTRedux.py:238-244 | every date a frame reports is text without 'T' |
| Frames.ReadAfterCombine | DCTRedux.py:169-170 | after `a + b` or `a - b` a property lists a's values followed by the value from b's first header |
| FrameObjects.Registry.constructor | DCTRedux.py:370 | all three counters start at zero |
| FrameObjects.Registry.Count | DCTRedux.py:390-391 | `getNumbBias` (and `getNumbFlat`, `getNumbImagesOpened` at lines 431-432 and 499-500) return the role's class counter |
| FrameObjects.Registry.Opened | DCTRedux.py:376 | constructing a frame of one role adds one to that role's counter and leaves the others |
| FrameObjects.Registry.Release | DCTRedux.py:380-381 | releasing a frame subtracts one from its role's counter and leaves the others |
| FrameObjects.Frame.constructor | DCTRedux.py:72-92 | the new object holds the loaded frame, has the given role, and its role's counter (only) grew by one |
| FrameObjects.Frame.Open | DCTRedux.py:72-92 | construction fails exactly when loading fails, with the same error and no counter change; otherwise as the constructor |
| FrameObjects.Frame.Copy | DCTRedux.py:168 | `copy.deepcopy`: a new object with the same role and data, no counter change |
| FrameObjects.Frame.Combined | DCTRedux.py:167-178 | the copy-then-update body of `+`/`-` gives None exactly when Combine does, and otherwise a fresh object of the same role holding Combine's result |
| FrameObjects.Frame.Add | DCTRedux.py:146-178 | `self + other` agrees with Combine(.., Add) |
| FrameObjects.Frame.Sub | DCTRedux.py:180-207 | `self - other` agrees with Combine(.., Sub) |
| FrameObjects.Frame.SubtractBias | DCTRedux.py:469-474 | the frame is left unchanged; the difference computed is Combine(self, bias, Sub) |
| FrameObjects.Frame.SubtractFlat | DCTRedux.py:476-481 | the frame is left unchanged; the difference computed is Combine(self, flat, Sub) |
| FrameObjects.Frame.SubtractInPlace | DCTRedux.py:469-481 | the frame becomes `self - frame` exactly when the shapes match, and is untouched otherwise |
| FrameObjects.Frame.SumOf | DCTRedux.py:137 | the loop of `+` over the frames gives None exactly when Sum does, and otherwise a fresh object holding Sum's result |
| FrameObjects.Frame.Avg | DCTRedux.py:114-142 | `avg` gives None exactly when Average does, and otherwise a fresh object of the first argument's role holding Average's result |
| FrameObjects.DataOf | DCTRedux.py:114 | the values held by the frame objects, in argument order |
| FileNames.NormalizePath | DCTReduxGUI.py:183 | an empty path is an error; otherwise `/` is appended exactly when the path does not end in `\` or `/`, so the result always does |
| FileNames.NormalizeIdempotent | DCTReduxGUI.py:183 | normalising twice is normalising once |
| FileNames.NoSpaces | DCTReduxGUI.py:223 | `replace(' ', '')` leaves no space |
| FileNames.NoSpacesSplice | DCTReduxGUI.py:223 | removing spaces keeps every other character in order: a space vanishes, any other character stays between the cleaned text before and after it |
| FileNames.Stem | DCTReduxGUI.py:207-208 | the pattern without `.fits` is no longer than the input, holds only its characters, and is the input itself when `.fits` does not occur |
| FileNames.BracketFields | DCTReduxGUI.py:223 | the bracket body without its last character is split into one more field than it has commas, fields free of commas and spaces that join back to the body without spaces |
| FileNames.CommaFields | DCTReduxGUI.py:226 | a comma list is split into one more field than it has commas, fields free of commas and spaces that join back to the list without spaces |
| FileNames.WithExtension | DCTReduxGUI.py:224 | one file per field, in order, each `prefix + field + '.fits'` |
| FileNames.OrSingle | DCTReduxGUI.py:229-230 | the file list is never empty and a non-empty one is kept |
| FileNames.CutIndex | DCTReduxGUI.py:213-214 | where an `rfind` step cuts: at the start when the pattern holds no c, otherwise just after a c with no c from there on, that is just after the last c |
| FileNames.CutAt | DCTReduxGUI.py:212-217 | one `rfind` step splits the pattern at that cut: the directory gains everything before it (the last c included) and the pattern keeps the rest, so without c nothing moves |
| FileNames.Wildcard | DCTReduxGUI.py:211-217 | the wildcard branch's pattern is the last field of the stem split at `\` and `/` (a suffix without either separator that is all of the stem or follows one), and the directory is the input directory followed by the rest of the stem |
| FileNames.GetFiles | DCTReduxGUI.py:206-232 | some input fails exactly when it has no `*`, a bracket pair and more than one `[`; a `*` in the stem gives exactly Wildcard's directory and pattern; outside the wildcard branch the directory is returned as given and the list is not empty |
| FileNames.ExtensionIgnored | DCTReduxGUI.py:207-208 | a pattern that is `x` followed by `.fits` expands as `x` |
| FileNames.SingleName | DCTReduxGUI.py:229-230 | without `*`, a bracket pair or a comma the result is exactly `[stem + '.fits']` |
| FileNames.CommaList | DCTReduxGUI.py:225-227 | a comma list gives one `field + '.fits'` per field, one more than there are commas, fields without spaces or commas that join back to the space-free input |
| FileNames.BracketList | DCTReduxGUI.py:221-224 | `prefix[body` gives `prefix + field + '.fits'` for each comma field of the body without its last character and spaces, one more than its commas, whatever commas the prefix holds (brackets take precedence over commas) |
| FileNames.HelpTextExample | DCTReduxGUI.py:170-173 | `bias_0[1,2,3].fits` expands to bias_01.fits, bias_02.fits and bias_03.fits |

## Left out

- Reading FITS files (`fits.open`), and the `FileNotFoundError`/`OSError` handlers that print and exit (DCTRedux.py:80, 94-100). These are I/O. The constructor takes the header and data directly.
- The messages that a failing `+` or `-` prints before returning None (DCTRedux.py:176-177, 206-207). Printing is output, so the model only returns `None`.
- `__correctImage`, `findCentroid` and `show` are empty in the source. The two correction flags therefore have no effect on the model.
- `__str__` and `__repr__`: they cannot run (the local `str` shadows the builtin), so there is no behaviour to state.
- Garbage collection. `__del__` is modelled as an explicit `Registry.Release`, and the model does not track which objects are live. `copy.deepcopy` does not run `__init__`, so a copy never increments a counter. Its `__del__` still decrements one in these cases:
  - a `+` or `-` whose shapes do not match drops its copy at once;
  - every as-written `subtractBias` or `subtractFlat` drops the difference it computed;
  `Frame.Combined`, `Frame.SubtractBias`, `Frame.SubtractFlat` and `Frame.Copy` never touch the registry.
- Broadcasting, floating point and integer FITS data types. Samples are exact reals, and `+=`/`-=` are modelled only for equal shapes. Any other shape gives `None`, where numpy would broadcast compatible shapes. Rounding of floats is not modelled, nor the wrap-around of `+=`/`-=` on integer arrays such as uint16 images.
- Real-valued PRESCAN, NAXIS1 or POSTSCAN values are modelled: `width` computes with them (`Frames.Difference`), while the region split rejects them because a numpy slice bound must be an integer. The text of Python's error messages is not modelled, only which exception is raised for which key.
- The wildcard branch of `__getFiles` stops at the directory and name pattern (`FileNames.Wildcard`). Listing the directory with `os.listdir` and matching with `fnmatch` touch the filesystem and a foreign library, so they are outside the model.
- The GUI widgets, menus, help text, main loop and the loading loops of `loadImages` (DCTReduxGUI.py:12-178, 185-204).
- The fallback name `[path]` at DCTRedux.py:77 cannot be reached for a string path: slicing never raises.
- Frames.Average: models `avg` as its docstring describes it, not as written. The divisor is the number of images combined, read as the header count of the sum. That is len(frames) for raw frames, but it undercounts inputs that are already combined, because `+` keeps only the first header of its right operand: `avg(A+B, C+D)` divides the sum of four frames by 3 (`Frames.AverageOfCombined`). See "## Findings".
- FrameObjects.Frame.SubtractBias and FrameObjects.Frame.SubtractFlat return the difference so that it can be stated. The source drops it. See "## Findings" for the in-place form.
- If `__init__` fails, Python still calls `__del__` on the half-built object and decrements a counter it never incremented. `Frame.Open` models the failure with no counter change.

## Findings

| source | as written | input that shows it | evidently intended | confidence | as-written member | corrected member |
|---|---|---|---|---|---|---|
| DCTRedux.py:137-140 | `sum(args)` adds the first frame to the integer 0, which raises TypeError (frames have no `__radd__`); the three divisions are never assigned back and use an undefined `self` | `avg(F)` for any frame F | the sum of the frames with every region divided by the number of images combined | high (not executed) | Frames.AvgAsWrittenFails | Frames.Average |
| DCTRedux.py:469-474 | `self -= biasFrame` rebinds the method's local name, and the caller's frame keeps its bias | `img.subtractBias(bias)` on matching frames | the frame itself becomes `self - biasFrame` | medium (not executed) | FrameObjects.Frame.SubtractBias | FrameObjects.Frame.SubtractInPlace |
| DCTRedux.py:476-481 | `self -= flatFrame` rebinds the method's local name, and the caller's frame is unchanged | `img.subtractFlat(flat)` on matching frames | the frame itself becomes `self - flatFrame` | medium (not executed) | FrameObjects.Frame.SubtractFlat | FrameObjects.Frame.SubtractInPlace |
