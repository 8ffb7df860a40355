# EXIF metadata analyzer — a verified model of its metadata-to-record path

The EXIF metadata analyzer is a desktop tool. The user picks a folder and ticks
the image formats to look for. The tool scans the folder, recursively or not.
It then builds one metadata record per image: the file name, the size, the
capture date, the camera, the GPS position and a few technical tags. The records
are shown in a table. This project models, in Dafny, the logic behind those
records and the analysis run that produces them:

- `gps.dfy` (module `Gps`) covers `_convert_to_degrees` and `get_gps_coords`:
  - degrees, minutes and seconds are turned into decimal degrees;
  - the value is negated for the southern and western hemispheres;
  - the result goes through `round(x, 6)`, here round-half-even on exact reals;
  - every failure gives `(None, None)`, modelled as `None`.
- `sizes.dfy` (module `Sizes`) covers `format_bytes`:
  - the loop divides by 1024 while the size exceeds 1024;
  - the unit label is looked up afterwards;
  - there is no label beyond GB, so the lookup raises `KeyError`.
- `dates.dfy` (module `Dates`) covers `_parse_date`:
  - a falsy argument gives "-";
  - a stripped text that `datetime.strptime(s, '%Y:%m:%d %H:%M:%S')` accepts is
    rewritten as `DD.MM.YYYY HH:MM`;
  - anything else is returned as its unstripped text.
  - The accepted grammar follows CPython's `_strptime`:
    - four-digit year;
    - one- or two-digit month, hour, minute and second;
    - a day that may also be a space and one digit;
    - any run of whitespace between date and time;
    - calendar checks including leap years.
- `records.dfy` (module `Records`) covers `process_image`:
  - the record starts from defaults: date "-", camera "-", blank coordinates,
    size "0 KB", no details;
  - it is filled field by field from the byte size and the decoded tag table.
- `scanner.dfy` (module `Scanner`) covers how files are chosen:
  - the ticked extensions, from `get_target_extensions`;
  - the case-insensitive suffix match;
  - the recursive walk and the flat listing of `run_analysis`.
- `analyzer.dfy` (module `Analyzer`) covers the window state as a class,
  `PhotoAnalyzer`:
  - the folder choice;
  - the `is_processing` guard of `start_analysis_thread` and `finish_analysis`;
  - the processing loop of `run_analysis`;
  - the callbacks that the loop schedules on the interface (add a row, update
    the progress bar, finish).
- `text.dfy`, `paths.dfy`, `tags.dfy` and `option.dfy` hold the Python string
  operations, the POSIX path operations, the tag table and an option type.

The file system and the tag decoder are inputs:

- `FileInput` gives the byte size, or `None` when `os.path.getsize` raises.
- It also gives the decoded tag table, or `None` when opening or decoding raises.
- `FileSystem` gives the walk of the folder tree and the flat listing. The
  listing is `None` when `os.listdir` raises.

The model follows the code as written; in particular:

- Files are processed one after another on a single worker. There is no pool,
  no cancellation and no count of skipped files.
- A missing date or camera is "-", missing coordinates stay empty, and an
  unread size is "0 KB". GPS at latitude 0 cannot be told from no GPS.
- A latitude of exactly 0 is falsy, so its coordinates are dropped. See
  `Records.EquatorDropped`.
- With no files found, no progress callback is scheduled.
- Ticking no format is not refused. The scan then keeps nothing.
- When the flat listing fails, the worker ends without finishing. The guard stays
  raised, so every later start is refused. See `Analyzer.PhotoAnalyzer.Analyze`.

## Model

| member | source | states |
|---|---|---|
| Gps.ConvertToDegrees | main.py:19-23 | the conversion yields a value exactly when the tag holds at least three ratios with non-zero denominators; an ASCII tag, a short tag or a zero denominator is the raised error |
| Gps.DegreesWithinDegree | main.py:19-23 | with non-negative minutes and seconds adding up to less than a degree, the result lies in [d, d + 1) |
| Gps.Round6 | main.py:33 | `round(x, 6)` lies within half a millionth of x |
| Gps.Round6Negate | main.py:31-33 | rounding to six places commutes with negation, so the sign of the hemisphere and the rounding can be applied in either order |
| Gps.GetGpsCoords | main.py:26-36 | a pair is returned exactly when both position tags are present and convertible and both hemisphere tags are present; otherwise `(None, None)` and nothing escapes |
| Gps.GpsHemisphere | main.py:29-33 | a returned latitude is the rounded magnitude negated exactly when the reference is "S", the longitude likewise for "W", each within half a millionth of the signed exact value |
| Gps.PittsburghExample | main.py:26-36 | 40°26'46" N, 79°58'56" W resolves to (40.446111, -79.982222) |
| Sizes.FormatBytes | main.py:39-46 | the loop terminates and returns `FormatBytesSpec(size)`: the scaled size and unit, or the `KeyError` of the label lookup |
| Sizes.FormatBytesSpec | main.py:39-46 | `format_bytes` as a value: the size divided by 1024 once per turn of the loop, with the unit of the number of turns, or the `KeyError` when there are more than three turns; its least-turns and `KeyError` bounds are the lemmas below |
| Sizes.DivisionsLeast | main.py:43-45 | the loop stops at the least number of divisions that brings the size to at most 1024, so exactly 1024 is not divided |
| Sizes.ScaleIsQuotient | main.py:43-45 | dividing by 1024 once per turn of the loop divides the size by 1024 to the number of turns |
| Sizes.FormatBytesKeyError | main.py:39-46 | the label lookup fails exactly when the size exceeds 1024^4; otherwise the scaled value is at most 1024 and the unit index at most 3 |
| Text.StripPadded | main.py:105 | `strip()` removes exactly the whitespace around a text that neither starts nor ends with whitespace |
| Text.Strip | main.py:105 | `strip()`: the result neither starts nor ends with whitespace; `StripPadded` says it is exactly what lies between the surrounding whitespace |
| Text.Lower | main.py:280 | `lower()` on ASCII: same length, every capital letter replaced by its small letter (code point + 32), every other character unchanged, and no capital letter left |
| Text.EndsWithAny | main.py:280 | `endswith` on a tuple holds exactly when one of the suffixes ends the text; the empty tuple matches nothing |
| Scanner.Matches | main.py:280-285 | a file name is kept when its lower-cased form ends with one of the ticked extensions |
| Paths.BasenameOfJoin | main.py:281 | the file name of a joined path is the entry name that was joined |
| Paths.Join | main.py:281 | `os.path.join` for POSIX paths: an absolute entry name replaces the directory, otherwise one separator is put between them unless the directory is empty or already ends with one |
| Paths.JoinParts | main.py:281 | a joined path ends with the entry name and, unless the name is absolute, starts with the directory |
| Paths.Basename | main.py:307 | `os.path.basename` for POSIX paths: what follows the last separator, characterised by `BasenameIsLastPart` |
| Paths.BasenameIsLastPart | main.py:307 | the file name is a suffix of the path without a separator, preceded by a separator unless it is the whole path |
| Dates.SplitCanonical | main.py:106 | the date pattern cuts a text in the `YYYY:MM:DD HH:MM:SS` layout into its six fields |
| Dates.ParseExif | main.py:106 | `strptime` with `%Y:%m:%d %H:%M:%S`: a text it accepts gives a real calendar date and time whose fields fit their written widths, and `None` stands for the `ValueError` |
| Dates.ParseDate | main.py:102-109 | `_parse_date`: "-" for a falsy argument, `DD.MM.YYYY HH:MM` when the stripped text parses, otherwise the text as given; the lemmas below state its cases |
| Dates.CanonicalParses | main.py:106 | a text in that layout parses back to the same date and time exactly when it is a real calendar date and time of day |
| Dates.ParseDateWellFormed | main.py:102-107 | a well-formed date, with any whitespace around it, is shown as `DD.MM.YYYY HH:MM` of the same date and time |
| Dates.FormatFields | main.py:107 | the shown text has day, month, year, hour and minute at fixed places, so only the seconds are lost |
| Dates.ParseDateKeepsImpossible | main.py:108-109 | a date in the layout that is not on the calendar is shown as it was given |
| Dates.ParseDateDash | main.py:102-109 | "-" comes out exactly for a falsy argument or for the text "-" itself |
| Dates.LeapDayExample | main.py:102-107 | "2024:02:29 23:59:59" is shown as "29.02.2024 23:59" |
| Dates.CommonYearExample | main.py:108-109 | "2023:02:29 12:00:00" is kept as written because 2023 is not a leap year |
| Dates.ShortFieldsExample | main.py:102-107 | one-digit month, day, hour, minute and second are accepted: "2024:1:5 7:3:9" is shown as "05.01.2024 07:03" |
| Records.ProcessImage | main.py:304-334 | updating the record field by field equals `RecordOf(path, input)` for every input |
| Records.RecordOf | main.py:304-334 | the record of `process_image`: defaults with path and file name, the size once it is read and scaled, and the tag-derived fields once the tags are decoded; a failing size read or label lookup skips everything after it |
| Records.CollectDetails | main.py:327-331 | the allow-list loop equals `DetailsOf(tags, entries)` for the entries visited in order |
| Records.RecordDefaults | main.py:304-316 | path and file name are always set; an unreadable size or one above 1024^4 leaves every other field at its default; one with a unit label is shown scaled to at most 1024 |
| Records.RecordDate | main.py:317-318 | the original capture date wins over the file date, and with neither tag the date stays "-" |
| Records.RecordDateWellFormed | main.py:317-318 | a well-formed original capture date is shown as `DD.MM.YYYY HH:MM`, whatever the file date says |
| Records.JoinStripped | main.py:322 | the stripped join of a stripped make and model is the non-empty one alone or both separated by one space, and "-" when both are empty |
| Records.RecordCamera | main.py:320-322 | the camera is "-" when make and model are both blank, the non-blank one alone, or both separated by one space |
| Records.RecordCoordinates | main.py:324-325 | coordinates are stored together and only when the GPS tags resolve to a non-zero latitude, and then they are the resolved pair |
| Records.EquatorDropped | main.py:324-325 | valid GPS tags at latitude 0 resolve to a pair, yet the record keeps blank coordinates |
| Records.DetailsExactly | main.py:327-331 | with distinct names, the details hold exactly the listed tags that are present, each under its name with its printable value |
| Records.RecordDetails | main.py:327-331 | the record's details hold exactly the allow-listed tags present in the file, keyed without their namespace prefix |
| Records.NoMetadata | main.py:304-334 | a file of at most 1024^4 bytes without tags keeps every derived field at its default and has its size shown |
| Scanner.Enabled | main.py:249-253 | the target extensions are exactly the ticked ones, no more than there are check boxes |
| Scanner.GetTargetExtensions | main.py:249-253 | one pass over the check boxes collects the ticked extensions in order |
| Scanner.DefaultSelection | main.py:138-143 | at start-up the target extensions are ".jpg" and ".jpeg" |
| Scanner.MatchesIgnoresCase | main.py:280 | two names of the same length that agree letter by letter up to ASCII case match exactly the same extensions |
| Scanner.UpperCaseMatches | main.py:280 | the match ignores case: "IMG_0001.JPG" is kept for ".jpg" |
| Scanner.ScanRecursive | main.py:277-281 | the nested loops over the walk collect the matching files of every directory, directory after directory |
| Scanner.ScanFolder | main.py:282-286 | the loop over the listing collects the folder's regular files whose names match |
| Scanner.KeptNamesExactly | main.py:279-281 | a path is kept from a directory exactly when it joins the directory with one of its matching names |
| Scanner.KeptWalkExactly | main.py:277-281 | a path is kept from the walk exactly when some walked directory keeps it |
| Scanner.KeptWalkMatches | main.py:277-281 | every path kept from the walk has a file name that ends with a ticked extension, ignoring case |
| Scanner.KeptListingExactly | main.py:282-286 | a path is kept from the listing exactly when it joins the folder with a matching regular file |
| Scanner.KeptListingMatches | main.py:282-286 | every path kept from the listing has a file name that ends with a ticked extension, ignoring case |
| Scanner.NoWalkKept | main.py:280 | with no format ticked the walk keeps nothing |
| Scanner.NoListingKept | main.py:285 | with no format ticked the listing keeps nothing |
| Analyzer.PhotoAnalyzer.constructor | main.py:57-59 | the window starts idle with no results, no folder, recursive search on, the default formats ticked, an empty table and the progress bar at 0 of Tk's default maximum 100 |
| Analyzer.PhotoAnalyzer.SelectFolder | main.py:242-247 | a chosen folder replaces the selection and a cancelled dialog keeps it, nothing else changes |
| Analyzer.PhotoAnalyzer.StartAnalysis | main.py:255-268 | a start is accepted exactly when a folder is selected and no analysis runs; then the guard is raised and the results and table are cleared; a refused start changes nothing |
| Analyzer.PhotoAnalyzer.RunAnalysis | main.py:272-302 | the run appends one record per scanned file in scan order, schedules a row and a progress callback per file and then the finish callback, and sets the bar's maximum to the number of files; a failing listing changes nothing |
| Analyzer.PhotoAnalyzer.ProcessFiles | main.py:293-300 | the loop appends the record of each file to the results in order and schedules, per file, its row and then its progress count; only the results and the queue change |
| Analyzer.ProcessFile | main.py:295 | processing one file of the file system gives the record of its path and of what reading it yields |
| Analyzer.PhotoAnalyzer.FinishAnalysis | main.py:355-356 | finishing lowers the guard and changes nothing else |
| Analyzer.PhotoAnalyzer.DispatchNext | main.py:336-356 | running one callback adds its row, moves the bar, or lowers the guard |
| Analyzer.PhotoAnalyzer.DispatchAll | main.py:336-356 | running every callback adds their rows in order, leaves the bar at the last progress value and lowers the guard exactly when a finish was among them |
| Analyzer.PhotoAnalyzer.Analyze | main.py:255-302 | a started analysis that runs to the end leaves the guard lowered, the results and the table equal to the records of the scanned files, and the bar full; after a failed listing the guard stays raised |
| Analyzer.RecordsOfStep | main.py:293-296 | each step of the loop appends the record of the next file |
| Analyzer.RunEvents | main.py:293-302 | delivering one run's callbacks adds its records as rows, leaves the bar at the number of files and finishes |
| Analyzer.EventsRows | main.py:297 | the row callbacks carry the records in order |
| Analyzer.EventsProgress | main.py:300 | the last progress callback reports every file done |
| Analyzer.ProgressCounts | main.py:293-300 | the callbacks alternate a row and a progress value, the progress values running 1..total in order |
| Analyzer.FileNames | main.py:305-307 | each record of a run carries, as its file name, the last path component of one of the scanned files |
| Analyzer.ScannedMatch | main.py:277-286 | every scanned path, from the walk or the listing, has a file name that ends with a ticked extension |
| Analyzer.RecordsMatchFilter | main.py:277-286 | every record of a run has a file name that ends with a ticked extension, ignoring case |

## Left out

- The Tk interface is not modelled: widgets, styles, the log, the status label,
  the preview pane and the image thumbnails.
- The CSV and HTML exports are not modelled. They only write files and fill
  templates.
- The background thread and Tk's `after` scheduling are modelled as one queue
  run in order. Tk may run the finish callback, scheduled with delay 0, before
  the last row and progress callbacks, scheduled with delay 1. The model does
  not capture that reordering, nor the worker and the interface interleaving.
- Tag decoding by `exifread` is not modelled. The tag table is an input, and a
  tag is either a printable text or a list of ratios. Integer-valued tags and
  the other value kinds are not modelled.
- The file system calls (`os.walk`, `os.listdir`, `os.path.isfile`,
  `os.path.getsize`, `open`) are inputs. `os.walk` ignores errors, so its
  walk is given as data.
- Paths are POSIX paths. The Windows rules of `os.path` are not modelled.
- Gps.ConvertToDegrees: computes on exact reals. Floating-point rounding of
  the divisions and sums is not modelled, so a result can differ from
  Python's in the last bits.
- Gps.Round6: exact round-half-even of the real value. Python rounds the
  binary double, so ties and near-ties can differ.
- Sizes.FormatBytes: exact for sizes below 2^53 bytes. Larger sizes lose
  precision as Python floats, and that is not modelled. The `:.2f` text is not
  modelled either; the scaled value and the unit label are.
- Dates.ParseExif: accepts ASCII digits only. Python's `\d` also matches other
  Unicode decimal digits.
- Dates.Format: matches `strftime` for years 1000 and later. Years below 1000
  are padded in a platform-dependent way.
- Text.Lower: lowers ASCII letters only. Python's `lower()` also lowers other
  Unicode letters, so a non-ASCII extension could match differently.
- The check box toggles for recursion and formats are not modelled as
  operations. They are fields that the analysis reads.
