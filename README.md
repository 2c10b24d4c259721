# OCR-based file renaming: a Dafny model of the classification core

`rename_image.py` sorts scanned images by an identifier printed on them. For each
image it recognises the text (EasyOCR), looks for the first code of the form
`MT_PM_<word characters>`, corrects characters that OCR often confuses with digits
in the code's version run (`MT_PM_VI_...` becomes `MT_PM_V1_...`), and copies the
image into the output directory under that name. If the name is taken it appends
`_1`, `_2`, ... until the name is free. An image without a code, or one whose
reading fails, is moved into the error directory. Every image adds one to exactly
one of two counters, successes and failures.

The model has seven modules:

- `Wrappers` (wrappers.dfy): the `Option` type for results that may be absent.
- `Paths` (paths.dfy): `os.path.join` for two components, `basename` and `splitext`,
  as `posixpath` defines them.
- `PatternMatcher` (matcher.dfy): `find_pattern_in_text`. The match is specified
  declaratively as the leftmost-longest match of `MT_PM_[\w_]+`. The matcher is
  proved to return exactly that span, and None exactly when no index starts a match.
  The word-character class is a parameter, because Python 3's `\w` is Unicode-aware.
  The worked examples assume only what Python guarantees on ASCII.
- `PatternNormalizer` (normalizer.dfy): `normalize_pattern`. It is proved to change
  only the version run, to keep the code's structure, and to be idempotent.
- `Storage` (storage.dfy): the filesystem as a map from path to bytes. The class
  `FileSystem` is updated in place by `Copy` (`shutil.copy2`) and `Move` (`shutil.move`).
- `DestinationResolver` (resolver.dfy): `get_unique_destination_path`. It is an
  imperative probe loop, proved equal to the specification function `Resolve`, which
  picks the first free candidate among `name+ext`, `name_1+ext`, ... Termination is
  proved by counting: the candidates are pairwise distinct paths, so at most
  `|existing|` of them can be taken.
- `ClassificationPipeline` (pipeline.dfy): the loop body of `process_project_folder`
  (the `try` and `except` branches) as the function `Step`, and the whole loop as
  `Run`. The imperative `ProcessImages` is proved to leave the filesystem and the
  counters exactly as `Run` says. Lemmas then prove three things about `Run`:
  - the counters always sum to the number of images;
  - no file other than an input image ever disappears;
  - a placed image keeps its source file.

Two notes on the source:

- The docstring of `normalize_pattern` lists `I`, `i` and `l` as becoming `1`. The
  translation table on line 63 also maps `L`. The model follows the table.
- OCR is a parameter `ocr: Data -> Option<seq<string>>`, where None stands for an
  exception raised by the recogniser. Reading a path that does not exist also raises.
  These are the only exceptions the model has (see "Left out").

## Model

| member | source | states |
|---|---|---|
| Paths.Join | rename_image.py:83 | an absolute name replaces the directory; otherwise exactly one separator is inserted unless the directory is empty or already ends with one |
| Paths.JoinInjective | rename_image.py:83-88 | two names of the same kind (both absolute or both relative) joined under one directory give the same path only if they are equal |
| Paths.JoinShape | rename_image.py:83 | a relative name is joined below the directory: the path starts with the directory and ends with the name |
| Paths.BasenameOfJoin | rename_image.py:148 | a name without separators, joined under a directory, is the base name of the joined path |
| Paths.LastIndexOf | rename_image.py:121 | `str.rfind`, which `basename` and `splitext` use: -1 exactly when the character is absent, otherwise an index holding it after which it does not occur again |
| Paths.JoinLength | rename_image.py:83 | a joined path is never shorter than the joined name |
| Paths.Basename | rename_image.py:121 | the base name holds no separator, is a suffix of the path, and is preceded by a separator whenever it is not the whole path |
| Paths.SplitExt | rename_image.py:135 | root and extension concatenate back to the path; the extension is empty, or a dot followed by characters that are neither dots nor separators |
| Paths.SplitExtOfImageName | rename_image.py:135 | `scan.v2.JPG` splits at its last dot into `scan.v2` and `.JPG` |
| Paths.SplitExtOfHiddenName | rename_image.py:135 | a leading dot starts no extension: `.hidden` has none |
| Paths.SplitExtOfDottedDirectory | rename_image.py:135 | a dot in a directory name starts no extension |
| PatternMatcher.RunEnd | rename_image.py:14 | the greedy `+`: the returned end closes a run of word characters that cannot be extended |
| PatternMatcher.SearchFrom | rename_image.py:75 | `re.search` trying each start in turn: the returned index starts a match and no earlier index does; None means no index from there on starts one |
| PatternMatcher.FindPatternInText | rename_image.py:73-78 | None exactly when no index of the text starts a match; otherwise the leftmost-longest match, which begins with `MT_PM_`, is longer than it, and continues with word characters only |
| PatternMatcher.LeftmostLongestUnique | rename_image.py:75 | at most one span of a text is its leftmost-longest match |
| PatternMatcher.FindReturnsLeftmostLongest | rename_image.py:73-78 | every span that meets the declarative description is exactly what the matcher returns |
| PatternMatcher.FoundCodeHasNoNewline | rename_image.py:14 | with Python's word class, a found code never contains a line break |
| PatternMatcher.NoMatchWhereNoM | rename_image.py:75 | no match starts at an index, within a range, whose character is not `M` |
| PatternMatcher.NoMatchWithoutUnderscore | rename_image.py:75-78 | a text without an underscore contains no code |
| PatternMatcher.FindCodeAfterPlainText | rename_image.py:75-77 | a code preceded by text without `M` and followed by a non-word character (or nothing) is exactly what is found, whatever follows |
| PatternMatcher.FindCodeInSentence | test_rename.py:12-15 | the code inside a sentence is found without the text around it |
| PatternMatcher.FindCodeAtStart | test_rename.py:17-20 | a code at the very start of the text is found |
| PatternMatcher.FindNothingWithoutCode | test_rename.py:22-25 | `MT PM` with spaces is not a code: nothing is found |
| PatternMatcher.FindFirstOfTwoCodes | test_rename.py:27-30 | of two codes, the first is returned |
| PatternNormalizer.Correct | rename_image.py:63 | `I`, `i`, `L`, `l` become `1`; `O`, `o` become `0`; every other character is unchanged |
| PatternNormalizer.CorrectProperties | rename_image.py:63 | correcting neither creates nor removes an underscore, is idempotent, and leaves none of the six confusable letters |
| PatternNormalizer.Translate | rename_image.py:64 | the translated run has the same length and is corrected character by character |
| PatternNormalizer.IndexFrom | rename_image.py:55 | the first occurrence at or after a position, or the length if there is none: no earlier position in between holds the character |
| PatternNormalizer.NormalizePattern | rename_image.py:44-71 | an input without the `MT_PM_V<run>_` structure comes back unchanged; otherwise the length is kept and exactly the characters of the version run are corrected |
| PatternNormalizer.NormalizePatternAsWritten | rename_image.py:55-71 | the regex as written: an input without the structure comes back unchanged; a structured one gives the corrected result cut at the first line break after the version run's underscore, where group 3 `(_.*)` stops; so the result is always a prefix of the corrected one |
| PatternNormalizer.AsWrittenIdempotent | rename_image.py:55-67 | applying the function as written twice is applying it once |
| PatternNormalizer.AsWrittenAgreesWithoutNewline | rename_image.py:55 | on a string without a line break, the regex as written and the corrected reading agree |
| PatternNormalizer.AsWrittenTruncatesAtNewline | rename_image.py:55-67 | `MT_PM_VI_A\nB` gives `MT_PM_V1_A` as written but `MT_PM_V1_A\nB` corrected |
| PatternNormalizer.NormalizeKeepsStructure | rename_image.py:55-67 | a structured code stays structured after normalizing, with its version run in the same place |
| PatternNormalizer.NormalizeIdempotent | rename_image.py:62-67 | normalizing twice is normalizing once |
| PatternNormalizer.NormalizedRunIsClean | rename_image.py:63-64 | after normalizing, the version run holds none of the confusable letters |
| PatternNormalizer.NormalizeVersionI | rename_image.py:47 | the documented example: `MT_PM_VI_TEST_CODE` becomes `MT_PM_V1_TEST_CODE` |
| PatternNormalizer.NormalizeLeavesUnversioned | rename_image.py:69-71 | every string that starts with `MT_PM_` followed by a character other than `V` is returned unchanged |
| PatternNormalizer.NormalizeLeavesStartCode | rename_image.py:69-71 | the code `MT_PM_START_01` is returned unchanged |
| Storage.Copied | rename_image.py:139 | after a copy, the destination holds the source's bytes, the source is still there, and every other file is unchanged |
| Storage.Moved | rename_image.py:149 | after a move, the destination holds the source's bytes, the source is gone unless it was the destination, and every other file is unchanged |
| Storage.FileSystem.Exists | rename_image.py:86 | `os.path.exists`: true exactly for a path that holds a file (also used on line 156) |
| Storage.FileSystem.Copy | rename_image.py:139 | `shutil.copy2` updates the filesystem in place to `Copied` of the old files |
| Storage.FileSystem.Move | rename_image.py:149 | `shutil.move` updates the filesystem in place to `Moved` of the old files |
| DestinationResolver.DecimalString | rename_image.py:87 | `str(counter)`: non-empty, decimal digits only, no leading zero |
| DestinationResolver.DecimalRoundTrip | rename_image.py:87 | reading back the decimal form of a counter gives the counter |
| DestinationResolver.DecimalStringInjective | rename_image.py:87 | distinct counters have distinct decimal forms |
| DestinationResolver.CandidateName | rename_image.py:82-87 | the first probe uses the plain `name+ext`; every later probe's name is strictly longer |
| DestinationResolver.CandidateNameShape | rename_image.py:82-87 | every probed name starts with the code and ends with the extension |
| DestinationResolver.Candidate | rename_image.py:83-88 | the probed path is never shorter than the probed name; CandidatesDistinct shows that no two probes give the same path |
| DestinationResolver.CandidateNamesDistinct | rename_image.py:82-87 | no two probe steps use the same file name |
| DestinationResolver.CandidatesDistinct | rename_image.py:83-88 | no two probe steps use the same path |
| DestinationResolver.TakenCandidatesBound | rename_image.py:86-89 | if the first `n` candidates all exist, at least `n` paths exist |
| DestinationResolver.FirstFreeFrom | rename_image.py:85-89 | if every candidate before `k` is taken, the result is the first free candidate, found at or after `k` and no later than the number of existing paths |
| DestinationResolver.FirstFreeUnique | rename_image.py:86 | there is only one first free candidate |
| DestinationResolver.Resolve | rename_image.py:80-91 | the resolved path does not exist, and it is the first free candidate among at most `|existing| + 1` probes |
| DestinationResolver.ResolveIsFirstFree | rename_image.py:80-91 | any first free candidate is what the resolver returns |
| DestinationResolver.GetUniqueDestinationPath | rename_image.py:80-91 | the probe loop terminates and returns `Resolve` of the existing paths, a path that does not exist |
| DestinationResolver.ProbedCandidateTaken | rename_image.py:86-89 | one more probe: when the current candidate is taken, all candidates up to it are taken and the counter stays within the number of existing paths |
| DestinationResolver.SuffixedCandidateName | rename_image.py:87 | from step 1 on, the probed name is `name + "_" + str(k) + ext` |
| DestinationResolver.ResolveWithoutConflict | test_rename.py:35-45 | with no existing file, the plain name is used |
| DestinationResolver.ResolveWithOneConflict | test_rename.py:47-60 | when only the plain name is taken, `_1` is appended |
| DestinationResolver.ResolveWithThreeConflicts | test_rename.py:62-78 | when the plain name, `_1` and `_2` are taken, `_3` is used |
| ClassificationPipeline.JoinFragments | rename_image.py:42 | `" ".join`: no fragment gives the empty text, and one fragment gives that fragment |
| ClassificationPipeline.ExtractText | rename_image.py:39-42 | text is obtained exactly when the image exists and recognition succeeds, and it is the recognised fragments joined by spaces |
| ClassificationPipeline.ErrorDestination | rename_image.py:148 | the error path lies under the error directory and keeps the image's own file name |
| ClassificationPipeline.Step | rename_image.py:124-158 | a placed image is copied to a path that did not exist and keeps its source; an unmatched image is moved to the error directory under its own name; after an exception the image is moved exactly when it still exists; no other path ever disappears |
| ClassificationPipeline.PlacedIffCodeFound | rename_image.py:126-131 | an image is placed exactly when it exists, recognition succeeds and its text holds a code |
| ClassificationPipeline.PlacedUnderNormalizedCode | rename_image.py:133-136 | a placed image goes to the resolved path for the normalized code, with the image's own extension |
| ClassificationPipeline.Fold | rename_image.py:120 | one outcome per image |
| ClassificationPipeline.Run | rename_image.py:117-158 | the loop of `process_project_folder` over the images in order, with one outcome per image; what it does to the files is stated by RunRemovesOnlyImages, RunKeepsPlacedSources and ProcessImages |
| ClassificationPipeline.StepKeeps | rename_image.py:139-157 | the loop body removes no path other than its own image, and a placed image stays in place |
| ClassificationPipeline.FoldSnoc | rename_image.py:120 | handling one more image is one more step on the files left by the earlier ones |
| ClassificationPipeline.RunExtend | rename_image.py:120-158 | one more pass of the loop body extends the run by that image's step and outcome |
| ClassificationPipeline.CountPlaced | rename_image.py:146 | the success counter never exceeds the number of images |
| ClassificationPipeline.CountFailed | rename_image.py:151-158 | the failure counter never exceeds the number of images |
| ClassificationPipeline.CountsSnoc | rename_image.py:146-158 | each image adds one to the counter its outcome belongs to and nothing to the other |
| ClassificationPipeline.CountsPartition | rename_image.py:117-158 | successes plus failures equal the number of images |
| ClassificationPipeline.FoldRemovesOnlyImages | rename_image.py:120-158 | when no step removes another path, only the images themselves can disappear |
| ClassificationPipeline.RunRemovesOnlyImages | rename_image.py:120-158 | over a whole run, every file that is not an input image is still there at the end |
| ClassificationPipeline.FoldKeepsPlacedSources | rename_image.py:139 | with distinct images and steps that keep other paths and placed images, every placed image is still there at the end |
| ClassificationPipeline.RunKeepsPlacedSources | rename_image.py:139 | with distinct images, every image that was placed is still in the input directory when the run ends |
| ClassificationPipeline.ProcessImage | rename_image.py:121-158 | one pass of the loop body, `try` and `except` included, leaves the files and the outcome exactly as `Step` says, and reports which counter to increment |
| ClassificationPipeline.ProcessImages | rename_image.py:117-158 | after the loop the files are those of `Run`, the counters count its placed and failed outcomes, and they sum to the number of images |

## Left out

- `main`, argument parsing and the loop over project folders (rename_image.py:164-193): these are command-line plumbing.
- Creating the EasyOCR reader and recognising text: recognition is the parameter `ocr`, and its failure is its None result.
- All printing (progress lines, the success messages on lines 141-144, the summary): output only, with no effect on state.
- `setup_directories` and `os.makedirs`: directories are not modelled, and the output and error directories are taken to exist.
- `find_image_files` (glob over `*.jpg`, `*.jpeg`, `*.png`): the images are an input sequence in the order the loop sees them. A missing input directory corresponds to the empty sequence, for which `Run` changes nothing.
- The `os.path.isdir(project_path)` check and the early return for zero images: each only prints and returns.
- Exceptions raised by `shutil.copy2` or `shutil.move` (permissions, a missing directory, a full disk, a different device): the model's copy and move always succeed once their source exists. So the `except` branch is entered only when reading or recognition fails.
- File metadata preserved by `copy2`, permissions, and case-insensitive filesystems: a file is its bytes.
- Concurrent changes to the filesystem between the existence probe and the copy: the model is single-threaded.
- Python's Unicode tables for `\w`: the word class is a parameter, and only its ASCII behaviour is assumed.
- Windows path rules (`ntpath`): paths follow `posixpath`.
- Paths.SplitExt: the contract states the split and the shape of the extension, but not on its own that the split is at the last dot after a non-dot character. That choice is shown by the three SplitExt examples.
- ClassificationPipeline.JoinFragments: the contract covers zero and one fragment only. For more fragments the result is the fragments joined by single spaces, as the body says.
- ClassificationPipeline.Step: the contract says what each outcome does to the files. Which outcome an image gets is stated separately, by PlacedIffCodeFound and PlacedUnderNormalizedCode.

## Findings

| source | as written | input that shows it | evidently intended | confidence | as-written member | corrected member |
|---|---|---|---|---|---|---|
| rename_image.py:55 | `re.match(r"(MT_PM_V)([^_]+)(_.*)", pattern)` rebuilds the code from group 3. `.` does not match a line break, so everything from the first `\n` after the underscore is dropped | `MT_PM_VI_A\nB` gives `MT_PM_V1_A` | keep the whole remainder, as the comment on line 54 says ("the rest of the string"), giving `MT_PM_V1_A\nB`. With Python's word class (IsPythonWordClass), codes found by the matcher never contain `\n` (FoundCodeHasNoNewline, AsWrittenAgreesWithoutNewline), so the pipeline is unaffected | high for the function on its own; not executed | PatternNormalizer.AsWrittenTruncatesAtNewline | PatternNormalizer.NormalizePattern |
