# wgetter, modelled in Dafny

A model of the core of `wgetter.py`, a single-file Python download utility.
Its `download(link, outdir)` does four things:

- It picks a provisional file name from the URL path.
- It streams the HTTP body in chunks into a temporary file. After every chunk it calls a progress callback: a bar, a size-only line, or an unknown-size line. About once a second it takes a speed sample.
- It closes both handles, whatever happened.
- It commits the file:
  - a Content-Disposition name, when present, overrides the provisional name;
  - a taken name gets a numeric suffix;
  - a size mismatch prints a warning;
  - a Content-MD5 header triggers a checksum comparison.

The model has one module per concern, one file each:

| file | module | what it holds |
|---|---|---|
| `wrappers.dfy` | `Wrappers` | `Option` and `Result` |
| `text.dfy` | `Text` | character sets (as `set<char>`) and the Python `str` operations the code relies on: `strip`, `lstrip`, `rstrip`, `os.path.basename`, `split`, `split(sep, 1)`, `rsplit(sep, 1)`, `replace(pat, '')`, `lower`, `splitlines`, `str(int)` |
| `size_format.dfy` | `SizeFormat` | `approximate_size`: the function `Approximate`, and the method `ApproximateSize` holding the source's `for` loop, proved equal to it |
| `names.dfy` | `Names` | `filename_from_url`, `filename_from_headers` and `filename_fix_existing` (as written and corrected) |
| `progress.dfy` | `Progress` | the reporter choice and the arithmetic of `report_bar`, `report_onlysize` and `report_unknown` (as written and corrected) |
| `engine.dfy` | `Engine` | the temporary file (a class), the streaming loop (a method with invariants), the commit decisions (a function), and `download` itself (a method) |

How the model stands in for the outside world:

- The HTTP body is the sequence of values successive `url.read(chunk_size)` calls return. An empty value ends the loop, and reads past the end are empty.
- The one-second timer is one "sample due" flag per iteration.
- The output directory is its listing.
- The console width, the platform, `Content-Length` as parsed, the response headers and the MD5 hex digest of the moved file are all parameters.

Python 3 semantics are modelled throughout:

- `/` (true division) is exact division on `real`, not a rounded double; see "## Left out" for where the two differ.
- `int()` on a float truncates toward zero.
- `'=' * n` is empty for a negative `n`.
- `int >= str` raises TypeError.

Three points where the code's behaviour is easy to misread:

- `filename_fix_existing` promises a name that does not exist yet (wgetter.py:170-171). With "report.txt" and "report(1).txt" listed, it returns "report(1).txt": it counts only "name (N)" entries, with a space, but writes "name(N)", without one. The model keeps this behaviour beside a corrected rule; see Findings.
- `Content-Length` goes through `int()`, which also accepts a negative value, and the model keeps it. A negative total then makes `approximate_size` raise inside the known-size callbacks.
- `get_console_width` says it returns 80 on other platforms (wgetter.py:68-69), but its POSIX branch returns 0 when the terminal query fails. The model takes the width as a parameter, so no default is built in.

## Model

| member | source | states |
|---|---|---|
| SizeFormat.Approximate | wgetter.py:53-56 | `ValueError('number must be non-negative')` is raised exactly for negative sizes |
| SizeFormat.ApproximateSize | wgetter.py:53-64 | the `for` loop over the suffix table (divide, stop at the first quotient below the multiple, else raise 'number too large') returns exactly `Approximate` |
| SizeFormat.ApproximatePicksFirstFit | wgetter.py:58-62 | the unit chosen is suffix `k` iff the size is non-negative and `k` is the first index whose quotient `size / m^(k+1)` is below `m`; the value is that quotient |
| SizeFormat.TooLargeExactly | wgetter.py:58-64 | 'number too large' is raised iff the size is non-negative and `size / m^8 >= m` (even YiB/YB does not fit) |
| SizeFormat.SmallSizesInFirstUnit | wgetter.py:58-62 | sizes below one multiple are shown in KiB (KB), as `size / m` |
| Text.Strip | wgetter.py:134 | `strip(chars)` is empty iff every character is in the set; a non-empty result neither starts nor ends with one |
| Text.StripIsMiddle | wgetter.py:134 | `strip(chars)` is the contiguous middle of the text, and everything before and after it is in the set |
| Text.LStrip | wgetter.py:162 | the dropped prefix is all set characters and the result does not start with one |
| Text.RStrip | wgetter.py:162 | the dropped suffix is all set characters and the result does not end with one |
| Text.Basename | wgetter.py:133 | `os.path.basename` is the '/'-free suffix after the last '/' (or the whole path) |
| Text.BasenameAfterSlash | wgetter.py:133 | the basename of `dir + "/" + name` is `name` for any '/'-free `name` |
| Text.Split | wgetter.py:153 | `split(sep)` yields at least one field, none containing `sep`, and one field iff `sep` does not occur |
| Text.SplitFirst | wgetter.py:153 | the first field is the text before the first separator, and the remaining fields are those of the text after it |
| Text.SplitSecond | wgetter.py:162 | with a separator present, the second field is the text between the first two separators |
| Text.SplitOnce | wgetter.py:149 | `split(':', 1)` fails iff there is no ':'; otherwise the line is `key + ":" + value` with no ':' in `key` |
| Text.RSplitOnce | wgetter.py:173 | `rsplit('.', 1)` fails iff there is no '.'; otherwise the name is `stem + "." + ext` with no '.' in `ext` |
| Text.DropExtension | wgetter.py:175 | `rsplit('.', 1)[0]` removes exactly one '.'-free extension, or leaves a name without '.' unchanged |
| Text.DropAppendedExtension | wgetter.py:173-175 | splitting `stem + "." + ext` at its last '.' gives back `stem` and `ext` |
| Text.RemoveAll | wgetter.py:176 | `replace(pat, '')` never lengthens the text |
| Text.RemoveAllUnchanged | wgetter.py:176 | for a non-empty pattern, `replace(pat, '')` returns the text unchanged iff the pattern does not occur in it |
| Text.RemoveAllLeading | wgetter.py:176 | removing `pat` from `pat + t` is removing it from `t` |
| Text.RemoveAllKeepsOut | wgetter.py:176 | a character absent from the text is absent from the result |
| Text.LowerAsciiMatches | wgetter.py:156 | `lower()` equals a lower-case word iff the text has the word's length and each character is the word's letter in either case |
| Text.SplitLines | wgetter.py:147 | `splitlines()` yields no lines iff the text is empty, and no line contains a line boundary |
| Text.SplitLinesJoin | wgetter.py:147 | on text whose only line boundaries are '\n' and that does not end in one, joining the lines with '\n' gives back the text |
| Text.SplitLinesCrLf | wgetter.py:147 | "\r\n" is one boundary: `a + "\r\n" + b` splits into `a` and the lines of `b` |
| Text.NatToString | wgetter.py:185 | `str(n)` is a non-empty digit string whose value is `n`, with no leading zero |
| Names.FilenameFromUrl | wgetter.py:131-136 | the result is `None` iff the basename consists only of ' ', '\n', '\t' and '.'; otherwise it is that (non-empty) basename |
| Names.FilenameFromUrlExamples | wgetter.py:131-136 | "/d/f.gz" gives "f.gz"; "/d/" and "/d/.." give `None` |
| Names.LinesToFields | wgetter.py:148-149 | `dict([x.split(':', 1) ...])` raises iff some line lacks ':' |
| Names.LinesToFieldsLastWins | wgetter.py:149 | every line's key is present, with that line's value when no later line repeats the key |
| Names.LinesToFieldsDomain | wgetter.py:149 | the keys of the dict are exactly the keys of the lines that contain ':' |
| Names.FilenameParams | wgetter.py:159 | the filter keeps at most the given segments, and only `filename=` parameters |
| Names.FilenameParamsEmpty | wgetter.py:159 | the filter keeps nothing iff no segment is a `filename=` parameter |
| Names.FilenameParamsKeepsAll | wgetter.py:159 | every `filename=` segment is kept |
| Names.FilenameParamsSeveral | wgetter.py:159-160 | two or more are kept iff two or more segments are `filename=` parameters |
| Names.ParamHasValue | wgetter.py:159-162 | a `filename=` segment contains '=', so `split('=')[1]` exists |
| Names.ParamValue | wgetter.py:162 | the value taken has no '=' |
| Names.ParamValueBetweenEquals | wgetter.py:162 | the value is exactly the text between the first and second '=' |
| Names.FilenameFromDisposition | wgetter.py:150-166 | no name for a missing or empty header, no ';', a type other than inline/attachment, or several `filename=` parameters; `fnames[0]` raises iff the type is accepted and there is no `filename=` parameter; a name comes only from a single parameter and is non-empty and '/'-free |
| Names.FilenameFromHeaders | wgetter.py:139-152 | the str / list / dict forms of the headers: a malformed line raises, a missing Content-Disposition gives no name, a present one gives exactly what the disposition rule gives for its value; a name is non-empty and '/'-free |
| Names.DispositionNameIsParamValue | wgetter.py:153-166 | with an accepted type and one `filename=` parameter, the name is the basename of the parameter's value stripped of ' ', '\t' and '"' (or none when that is empty) |
| Names.NextIndex | wgetter.py:180-184 | `int('')` raises iff some entry reads " ()"; otherwise the index is 1 + the largest counted index, or 1 |
| Names.FilenameFixExisting | wgetter.py:169-185 | as written: raises iff the name has no '.' or an entry reads " ()"; otherwise `name(idx).ext` with `idx` the next index over the " (N)" entries |
| Names.FixExistingReturnsTakenName | wgetter.py:173-185 | with "a.txt" and "a(1).txt" present, the result "a(1).txt" is already in the listing |
| Names.FixExistingEmptyIndexRaises | wgetter.py:178-181 | an entry "a ().txt" makes `filename_fix_existing("a.txt")` raise on `int('')` |
| Names.SlotOfBareName | wgetter.py:174-179 | the entry "a.txt" is not counted for the name "a" |
| Names.SlotOfSuffixedIgnored | wgetter.py:174-179 | as written: for every name, index and '.'-free extension, the entry `name(idx).ext` that the function itself writes is never counted |
| Names.SlotOfEmptyParens | wgetter.py:174-181 | the entry "a ().txt" yields the empty index that `int` rejects |
| Names.IntendedNextIndex | wgetter.py:182-184 | corrected: the index is 1 + the largest index read, or 1 when none is read |
| Names.FixExistingCorrected | wgetter.py:169-185 | corrected: fails iff the name has no '.'; otherwise returns `name(idx).ext` with `idx` 1 + the largest index of the `name(N)` entries, or 1 |
| Names.IntendedSlotOfSuffixed | wgetter.py:185 | corrected: the name written, `name(idx).ext`, is read back as index `idx` |
| Names.FixExistingCorrectedIsFresh | wgetter.py:169-185 | corrected: the name returned is never in the listing |
| Names.FixExistingCorrectedExample | wgetter.py:169-185 | corrected: with "a.txt" and "a(1).txt" present, "a.txt" becomes "a(2).txt" |
| Progress.BarRoom | wgetter.py:127-128 | wherever the bar is chosen, AVAIL_WIDTH is at least -1, and it is below 1 exactly on Windows with a console of 58 or 59 columns |
| Progress.ChooseReporterCases | wgetter.py:289-295 | unknown size gives `report_unknown` whatever the width; a known size gives `report_bar` iff the width exceeds 57, else `report_onlysize` |
| Progress.ReportBar | wgetter.py:188-208 | a zero total raises ZeroDivisionError (and only it does); a negative total always raises; success iff the total is positive and both sizes format; then the percent is `bytes * 100 // total`, the two sizes are the formatted count and total, the shaded cells are `bytes * AVAIL_WIDTH // total` for a non-negative width, and the newline is written iff the count has reached the total |
| Progress.ReportOnlySize | wgetter.py:226-239 | the same error cases, percent, sizes and newline rule, without the bar |
| Progress.ReportUnknownAsWritten | wgetter.py:211-223 | as written: with the total 'unknown' every call raises |
| Progress.ReportUnknownAsWrittenRaises | wgetter.py:217-222 | as written: for any count whose size can be formatted the call raises TypeError at the comparison, where the corrected callback succeeds without a newline |
| Progress.ReportUnknown | wgetter.py:211-223 | corrected: fails only when the count is too large to format; the newline only with a numeric total that has been reached |
| Progress.TruncRatio | wgetter.py:192-195 | `int()` of a non-negative true quotient is the integer quotient |
| Progress.PercentBounds | wgetter.py:192 | the percent is `bytes * 100 // total`, lies in 0..100 while the count is at most the total, and is 100 iff the count equals the total |
| Progress.ShadedBounds | wgetter.py:195 | the shaded cells are `bytes * AVAIL_WIDTH // total`, between 0 and the width, and fill it at completion |
| Progress.ShadedIsQuotient | wgetter.py:195 | `int(float(bytes) / total * AVAIL_WIDTH)` equals `bytes * AVAIL_WIDTH // total` for a positive total and a non-negative width |
| Progress.BarInteriorWidth | wgetter.py:197-200 | with 1..AVAIL_WIDTH cells shaded, '=', '>' and spaces fill exactly the width; with none shaded the '>' sticks out one cell |
| Progress.NewlineGuard | wgetter.py:207-208 | every callback the loop uses (this guard, and its copies at lines 222-223 and 238-239) writes its newline iff there is a total and the count has reached it |
| Engine.TempFile.constructor | wgetter.py:275 | the file opened with mode 'wb' is empty and open |
| Engine.TempFile.Write | wgetter.py:330 | `fh.write(chunk)` appends the chunk and nothing else |
| Engine.TempFile.Close | wgetter.py:339-340 | `fh.close()` keeps the contents and closes |
| Engine.StreamEnd | wgetter.py:306-328 | the loop runs until the first empty read: every chunk before it is non-empty |
| Engine.FirstFailing | wgetter.py:331 | every callback before the first raising one succeeds, and that one raises |
| Engine.CountDueCounts | wgetter.py:309-312 | the sample count is the number of iterations on which the one-second timer had run out |
| Engine.Sample | wgetter.py:309-323 | a sample appends the bytes since the last one to `speed_list` and moves the register; with a known size a third sample empties the list into an ETA window; the sample count and window invariant are kept |
| Engine.Stream | wgetter.py:306-331 | the loop ends normally iff no callback raises: then every chunk before the empty read was written and reported, in order, and the counter and the file hold the whole body; otherwise the first raising callback ends it after its chunk was written and counted; the sampling invariant holds at the end |
| Engine.CounterIsFileLength | wgetter.py:325-330 | `bytes_so_far` equals the number of bytes written to the file |
| Engine.ReportedCountsIncrease | wgetter.py:325-331 | the callback sees strictly increasing counts |
| Engine.FlattenAppend | wgetter.py:325-330 | appending a chunk appends its bytes to the file and its length to the counter |
| Engine.WindowBound | wgetter.py:319-323 | under the sampling invariant, a known size has as many ETA windows as the sample count holds threes and keeps the remainder waiting; an unknown size keeps every sample |
| Engine.Commit | wgetter.py:342-364 | corrected: a header error propagates; a rename happens iff the chosen name exists; it fails iff the name exists and has no '.'; the name kept is never taken; the size warning is printed iff the size is known and differs from the count; the MD5 verdict is absent for a missing or empty header, and a pass iff the header equals the digest |
| Engine.SuffixedNameNotDot | wgetter.py:185 | a suffixed name is never "." or ".." |
| Engine.HeaderNameUsedWhenFree | wgetter.py:342-349 | a free Content-Disposition name is used unchanged |
| Engine.Download | wgetter.py:256-366 | a fresh temporary file is always closed; if a callback raises, the download fails with that error and the file holds the body up to and including the chunk that raised; otherwise the result is the commit of the whole body and the file holds it |

## Left out

- Network I/O (`urlopen`, `url.read`, `url.close`) is left out: the body is a sequence of chunks, and `chunk_size` is not modelled.
- Names.FilenameFromUrl: takes the URL's path, because `urlparse` is not part of this model.
- Filesystem effects are left out: `tempfile.mkstemp`, `os.unlink`, `os.path.join`, `shutil.move` and `os.listdir` (a listing is a parameter). The temporary file is the `TempFile` class.
- `get_console_width` (ioctl / Windows console API) is left out: the width and the platform are parameters.
- `md5sum` (hashing the saved file) is left out: its hex digest is a parameter of `Engine.Commit`.
- Engine.Sample: keeps the byte delta behind each speed sample, not the speed, because `time()` is not modelled (the per-iteration "sample due" flags replace it) and dividing by the elapsed seconds is floating point.
- Engine.Stream: does not compute the ETA seconds or their `timedelta` text. It only keeps the windows of three samples the ETA is taken from, each with a positive sum, so the ETA division never divides by zero.
- Progress.TruncRatio, Progress.PercentBounds, Progress.ShadedBounds, Progress.ShadedIsQuotient: state the exact quotients of real division, not of Python's doubles. The percent agrees while `bytes * 100 + total` stays below 2^53. The shaded count is a product of a rounded quotient and can differ from the exact one by one: `int(float(29) / 100 * 100)` is 28 where the model gives 29, and once `total * AVAIL_WIDTH` nears 2^52 the product can also round up to the next integer.
- Progress.ReportBar, Progress.ReportOnlySize: their percent and shaded count are those exact quotients, with the same float caveat.
- Engine.Commit: uses the corrected collision rule. As written, the suffixed name can already exist (it is then replaced), and an entry "a ().txt" makes the commit of "a.txt" raise ValueError; `Names.FilenameFixExisting` models that behaviour.
- SizeFormat.Approximate: exact `real` division instead of float rounding. It returns the quotient and the index of its suffix in the table; `SizeFormat.Suffix` gives the suffix text.
- Text rendering is left out: `center`, `'{0:.1f}'`, the `'=' * n` strings, `\r` and `print` output. The reports carry the numbers they render.
- The `approximate_size(speed)` calls inside the callbacks are left out, because the speed is not modelled.
- `Content-Length` parsing (`int(headers['Content-Length'])`) is left out: the total is a parameter, `None` standing for 'unknown'.
- Names.FilenameFromHeaders: looks up exact keys in a map, where the response's `HTTPMessage` lookup is case-insensitive. The same holds for the Content-MD5 lookup in `Engine.Commit`.
- Text.Basename: follows POSIX `os.path.basename`, which splits at `/` only. On Windows `ntpath.basename` also splits at `\` and after a drive's `:`, so a header value `filename="dir\a.txt"` gives `a.txt` there and `dir\a.txt` here.
- Text.LowerAscii: folds ASCII letters only. Its result is only ever compared with "inline" and "attachment".
- `KeyboardInterrupt` handling and `sys.exit` are left out, as is the `__main__` command-line loop.
- Engine.Download: takes the URL's path rather than the link, and returns the commit result and the closed temporary file rather than a path. It uses the corrected `report_unknown` and the corrected collision rule; the as-written versions are modelled beside them (see Findings).

## Findings

| source | as written | input that shows it | evidently intended | confidence | as-written member | corrected member |
|---|---|---|---|---|---|---|
| wgetter.py:174-185 | entries are counted only when shaped `name (N).ext` (with a space), but the name built is `name(N).ext` (without one) | `filename_fix_existing("a.txt", dir)` with "a.txt" and "a(1).txt" in `dir` returns "a(1).txt", which exists; `shutil.move` then replaces it | count the shape that is written, so the returned name is never one that exists | not executed | Names.FixExistingReturnsTakenName | Names.FixExistingCorrectedIsFresh |
| wgetter.py:217-223 | `report_unknown` compares `bytes_so_far >= total_size` where `total_size` is the string 'unknown' | any download without a usable Content-Length: the first non-empty chunk (any count `approximate_size` can format) raises TypeError under Python 3, aborting the download | write the completion newline only for a numeric total that has been reached | not executed | Progress.ReportUnknownAsWrittenRaises | Progress.ReportUnknown |
