# CompressCBZ in Dafny

CompressCBZ recompresses the page images of a comic-book archive (`.cbz`, a zip
file of images). It takes three arguments: the input archive name, an optional
output name and a JPEG quality. It reads every entry of the input archive in
order and keeps, for each one, its name and an in-memory buffer. A page whose
name passes the JPEG test is re-saved into that buffer as RGB JPEG at the chosen
quality with marker optimisation. A page that passes the PNG test is re-saved as
PNG. Any other entry is never recoded: its buffer stays empty and its name is
reported as skipped. Then the tool writes a new archive with every kept name
and buffer, in the original order.

This project models that program from the point where the arguments are
parsed:

- `pyslice.dfy` (module `PySlice`): Python's negative-index string slices
  `s[-n:]` and `s[:-n]`. A slice never fails: on a short string, `s[-n:]` is the
  whole string and `s[:-n]` is empty. These slices are the basis of every
  suffix test in the tool.
- `arguments.dfy` (module `Arguments`): argument validation, in source order.
  The extension is checked first, then the quality range. After that, the
  default output name `<input stem>_compressed.cbz` is filled in.
- `classify.dfy` (module `Classification`): sorts an entry into JPEG, PNG or
  unsupported from its name. It has the tests exactly as written
  (`ClassifyAsWritten`) and the corrected tests (`Classify`); see
  "## Findings".
- `recompress.dfy` (module `Recompress`): the read pass and the write pass.
  The read pass is a loop that appends to the two parallel lists of the
  `compressed` dictionary. The write pass is an index loop that pairs name i
  with buffer i. `CompressArchive` runs the whole tool. Every member of this
  module takes the name test as a parameter `classify`. The program as written
  is the instance `classify := ClassifyAsWritten`; the corrected program is
  `classify := Classify`. `AsWrittenDotJpegRun` and `CorrectedDotJpegRun` show
  the two instances on the same archive.
- `wrappers.dfy` (module `Wrappers`): `Option` and `Result`.

The image library is a function parameter, `Codec = (Bytes, SaveOptions) ->
Option<Bytes>`, and `None` stands for an exception it raises. The input zip is
an `Option<seq<Entry>>`, and `None` means the archive cannot be opened. The
output zip is the `seq<Entry>` that the write pass produces.

Two texts in the program say more than its code does:

- The message printed for an entry that fails both tests ends in "Skipping"
  (CompressCBZ.py:43). But the entry's name and an empty buffer were already
  appended before the tests (CompressCBZ.py:35-36), so the entry still reaches
  the output archive, as an empty entry under its original name. The model
  follows the code. In `CompressArchive` the output names are exactly the input
  names, and the output has as many entries as the input.
- The help text for `--output` says that the default is the input name plus
  `_compressed.cbz` (CompressCBZ.py:12). The code first removes the last four
  characters, `.cbz` (CompressCBZ.py:27). The model follows the code.

The second JPEG test, `file.name[-5:] == 'jpeg'` (CompressCBZ.py:38), compares
a five-character slice with a four-character string. It therefore holds only
for the bare name `jpeg` (see "## Findings").

## Model

| member | source | states |
|---|---|---|
| PySlice.LastN | CompressCBZ.py:22 | `s[-n:]` is the last n characters of `s`, or all of `s` when it is shorter; the result is always a suffix of `s` |
| PySlice.AllButLastN | CompressCBZ.py:27 | `s[:-n]` followed by `s[-n:]` gives back `s`, and `s[:-n]` is empty when `s` has fewer than n characters |
| PySlice.LastNMatchIff | CompressCBZ.py:22 | comparing `s[-n:]` with a string of length n is exactly a suffix test |
| PySlice.LastNLongerThanTarget | CompressCBZ.py:38 | comparing `s[-n:]` with a string shorter than n succeeds only when `s` is that whole string |
| Arguments.Validate | CompressCBZ.py:21-27 | the wrong-extension error comes exactly when the input does not end in `.cbz` (case-sensitive, so any name shorter than 4 characters fails); the quality error comes exactly when the extension is right and the quality is outside 1..100; otherwise the run is accepted with the input and quality unchanged, a non-empty output name kept and an empty one replaced by the default name |
| Arguments.DefaultOutputNameShape | CompressCBZ.py:26-27 | for an accepted input, the default output name is the input minus `.cbz` plus `_compressed.cbz`: it ends in `.cbz`, is 11 characters longer and is never the input name |
| Arguments.DefaultOutputExample | CompressCBZ.py:26-27 | `--input a.cbz` without `--output` resolves to `a_compressed.cbz` |
| Arguments.QualityBounds | CompressCBZ.py:24-25 | qualities 0 and 101 are rejected; 1 and 100 are accepted |
| Classification.AsWrittenCases | CompressCBZ.py:38-43 | as written, an entry is JPEG exactly when its name ends in `.jpg` or is the bare name `jpeg`, PNG exactly when it ends in `.png`, and unsupported otherwise |
| Classification.AsWrittenMissesDotJpeg | CompressCBZ.py:38 | as written, every name ending in `.jpeg` is classified unsupported |
| Classification.ClassifyCases | CompressCBZ.py:38-43 | the corrected classification is the source's chain of slice tests with the five-character slice compared to `.jpeg`; it gives JPEG exactly for `.jpg`/`.jpeg`, PNG exactly for `.png`, and unsupported otherwise |
| Classification.CorrectionScope | CompressCBZ.py:38 | the corrected and as-written tests differ exactly on names ending in `.jpeg` (now JPEG) and the bare name `jpeg` (now unsupported) |
| Classification.ExampleKinds | CompressCBZ.py:38-43 | under both the as-written and the corrected tests, `page1.jpg` is JPEG, `page2.png` is PNG, `notes.txt` is unsupported |
| Recompress.RecompressedByKind | CompressCBZ.py:38-43 | a JPEG entry is recoded with exactly the configured quality and optimisation on; a PNG entry with options that have no quality, so its buffer does not depend on the quality; an unsupported entry never reaches the codec and keeps an empty buffer |
| Recompress.SkippedSpec | CompressCBZ.py:38-43 | the skip report over the first n entries has exactly one line per entry that fails both tests: its length is the number of such entries, each reported name is the name of such an entry, and it is empty exactly when every entry read passes the JPEG or PNG test |
| Recompress.CollectedSpec | CompressCBZ.py:33-36 | the read pass over n entries succeeds exactly when every one of them can be recoded; the two lists then have length n, the name list is the entry names in order (unsupported included), and buffer i is entry i's recoding |
| Recompress.MixedArchiveExample | CompressCBZ.py:33-43 | under any name test that classifies them as the program does, for `page1.jpg`, `page2.png`, `notes.txt`, the lists hold all three names with the two recoded images and an empty buffer, and only `notes.txt` is reported as skipped |
| Recompress.CollectImages | CompressCBZ.py:30-46 | the loop appends the name and an empty buffer, then fills the buffer or reports the name, and keeps the two lists the same length, with the entry count read so far; on success they equal `Collected` for the whole archive and the report lists every unsupported name; on failure, some entry k failed to recode after all entries before it were read, and the report covers exactly those earlier entries |
| Recompress.WriteArchive | CompressCBZ.py:49-51 | output entry i has name `filenames[i]` and data `data[i]`, for every i in order |
| Recompress.CompressArchive | CompressCBZ.py:21-51 | a run is rejected exactly when validation fails, with that error; it writes an archive exactly when validation passes, the input opens and every entry recodes; the written archive goes to the resolved output name, has the input's entry names in input order, and entry i holds entry i's recoding, and the skip report names every entry that failed both tests; an archive that cannot be opened aborts with an empty report; a recoding failure at entry k aborts with the report for the entries before k, and no archive is written |
| Recompress.AsWrittenDotJpegRun | CompressCBZ.py:21-51 | the program as written, run on `book.cbz` holding only `page.jpeg`, writes `book_compressed.cbz` with one empty entry `page.jpeg` and reports `page.jpeg` as skipped |
| Recompress.CorrectedDotJpegRun | CompressCBZ.py:21-51 | with the corrected test, the same run writes `page.jpeg` recoded as JPEG at the chosen quality and reports nothing |

## Findings

| source | as written | input that shows it | evidently intended | confidence | as-written member | corrected member |
|---|---|---|---|---|---|---|
| CompressCBZ.py:38 | `file.name[-5:] == 'jpeg'` compares a five-character slice with a four-character string, so it holds only for the bare name `jpeg` | an archive `book.cbz` holding one entry `page.jpeg`: the entry is classified unsupported, reported as skipped and written to `book_compressed.cbz` as an empty entry | `file.name[-5:] == '.jpeg'`: names with the `.jpeg` extension are JPEG pages and are recompressed | high (not executed) | Recompress.AsWrittenDotJpegRun | Recompress.CorrectedDotJpegRun |

## Left out

- Argument parsing with argparse (CompressCBZ.py:10-19), including the default quality of 50: the model starts from the three parsed values.
- Zip I/O (CompressCBZ.py:32-34, 49-51): the input archive is a sequence of (name, bytes) entries, and `None` stands for an archive that cannot be opened. The output archive is the sequence of entries written. The zip storage mode, entry metadata, overwriting an existing output file and the never-closed output `ZipFile` are not modelled. Nor are errors raised while writing.
- The image library (CompressCBZ.py:39, 41): `Image.open`, `convert('RGB')` and `save` are one opaque function parameter. The model says nothing about pixel content, size or idempotence. A failure to read an entry's bytes is counted as a recoding failure of that entry.
- Recompress.CollectImages: the skip report records the entry's name, not the printed line `<name>: File extension unsupported. Skipping`, because console text is output, not state.
- Recompress.CompressArchive: the traceback print and `exit()` (CompressCBZ.py:44-46) are modelled only as the `Aborted` outcome, which writes no archive. The process exit status is not modelled. Python's bare `exit()` actually ends with status 0.
- Opening an unsupported entry (CompressCBZ.py:34) is assumed to succeed. An entry that cannot be opened at all, for example an encrypted one, is not modelled.
