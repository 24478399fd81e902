# KMZ photo extraction, modelled in Dafny

This project models the "Extract KMZ photos" processing algorithm
(`ExtractKmzPhotos.processAlgorithm` in `ExtractPhotosFromKMZ.py`). A KMZ
is a ZIP archive. The algorithm copies every member whose name ends in
`.jpg` or `.jpeg`, case-insensitively, into an output folder. It can
flatten nested member paths to their base name, and it can skip
destinations that already exist. It reports progress, polls for
cancellation once per candidate and counts what it extracted and skipped.

The model works on abstract state:

- the archive is the sequence of its member names, in listing order;
- the filesystem is the set of paths that exist, files and directories
  alike, because `os.path.exists` does not tell them apart;
- `os.path.isfile(kmz_path)` is a boolean input, `kmzIsFile`;
- `feedback.isCanceled()` is a function `canceled: nat -> bool`, where
  `canceled(idx)` is the answer polled just before the 1-based candidate
  `idx`;
- the progress values passed to `feedback.setProgress` are returned as a
  sequence, and the one `pushInfo` message is returned as an `Info` value;
- writing a candidate adds its destination to the path set, and the
  `os.makedirs` calls add the directories they create.

Files and modules:

- `paths.dfy`, module `KmzPaths`: ASCII lower-casing, `endswith`/`startswith`,
  `os.path.basename`, two-argument `os.path.join`, and the directories that
  `os.makedirs` creates.
- `candidates.dfy`, module `Candidates`: the photo test and the candidate
  filter (the list comprehension).
- `progress.dfy`, module `Progress`: the progress formula and the
  sequence of values reported.
- `extraction.dfy`, module `Extraction`: the destination rule, one loop
  step (`Step`), replaying steps over a list of destinations (`Replay`),
  how far the loop gets before cancellation (`Handled`), the whole job as a
  reference function (`Run`), the imperative loop (`CopyCandidates`) and
  the algorithm (`ProcessAlgorithm`). Both methods are proved equal to the
  reference functions, and the lemmas state what those functions promise.

The source returns only `{OUTPUT_FOLDER: out_dir}` (lines 94 and 122). The
counters appear only in the closing message (line 121). The model returns
them in `Job` so that properties can be stated about them. A failed job
(`Failure`) carries no path set, because both failures happen before
anything is created: the caller's path set stays as it was.

Two facts about the code that the model makes explicit:

- The counters are outputs of the model (`Job.extracted`, `Job.skipped`),
  although lines 94 and 122 return only the folder and the counters
  appear only in the closing message at line 121.
- With no candidates, nothing is written, but line 81 has already created
  `out_dir` and its parents before the archive is listed, so that case
  still adds them to the path set (`RunNoCandidates`).

## Model

| member | source | states |
|---|---|---|
| KmzPaths.EndsWith | ExtractPhotosFromKMZ.py:89 | Definition of `str.endswith`: the suffix is no longer than the string and equals its last characters. Used by `IsPhoto`; the filter lemmas below state its consequences. |
| KmzPaths.StartsWith | ExtractPhotosFromKMZ.py:106 | Definition of `str.startswith`, used for the absolute-name test inside `os.path.join`; `Join` states its consequences. |
| KmzPaths.LowerChar | ExtractPhotosFromKMZ.py:89 | An upper-case ASCII letter moves 32 code points down to its lower-case form. Every other character is kept. The result is never an upper-case ASCII letter. |
| KmzPaths.Lower | ExtractPhotosFromKMZ.py:89 | `m.lower()` keeps the length and lower-cases each character on its own. |
| KmzPaths.Basename | ExtractPhotosFromKMZ.py:105 | `os.path.basename` returns a suffix of the name that contains no `/`. That suffix is either the whole name or directly follows a `/`. |
| KmzPaths.BasenameUnique | ExtractPhotosFromKMZ.py:105 | Those properties fix the basename: if a name is a head that is empty or ends in `/`, followed by a tail without `/`, then its basename is that tail. |
| KmzPaths.BasenameOfPlainName | ExtractPhotosFromKMZ.py:105 | A name without `/` is its own basename. |
| KmzPaths.Join | ExtractPhotosFromKMZ.py:106 | `os.path.join(a, b)`: an absolute `b` replaces `a`. Otherwise the result starts with `a` and ends with `b`, and it has one extra character, a `/` right after `a`, exactly when `a` is non-empty and does not end in `/`. |
| KmzPaths.JoinBasename | ExtractPhotosFromKMZ.py:105-106 | Joining a folder with a name that has no `/` gives that name back as the basename. |
| KmzPaths.DirsAbove | ExtractPhotosFromKMZ.py:113 | `os.makedirs(os.path.dirname(dest))` makes exactly the directories on the way to `dest`, that is, the non-empty prefixes of `dest` that stop just before a `/`. |
| KmzPaths.MakeDirs | ExtractPhotosFromKMZ.py:81 | `os.makedirs(out_dir, exist_ok=True)` makes exactly `out_dir` and the directories above it. |
| KmzPaths.DirsAbovePlainTail | ExtractPhotosFromKMZ.py:105-113 | Appending a name without `/` leaves the directories above the path exactly as they were. |
| KmzPaths.DirsAboveFolder | ExtractPhotosFromKMZ.py:81-113 | The directories above `d/...` are exactly those that `os.makedirs(d)` makes. |
| KmzPaths.DirsAboveChild | ExtractPhotosFromKMZ.py:81-113 | The directories above `d/name`, for a `name` without `/`, are exactly those `os.makedirs(d)` makes. |
| Candidates.IsPhoto | ExtractPhotosFromKMZ.py:89 | Definition of the photo test: the lower-cased name ends in `.jpg` or `.jpeg`. Its behaviour is stated by `IsPhotoExamples` and the filter's contract is stated in terms of it. |
| Candidates.PhotoMembers | ExtractPhotosFromKMZ.py:88-90 | The candidate list is no longer than the member list. Every candidate is a photo name taken from the archive. |
| Candidates.PhotoMembersIsSubsequence | ExtractPhotosFromKMZ.py:88-90 | The candidates are a subsequence of the members, so listing order is kept. |
| Candidates.PhotoMembersCount | ExtractPhotosFromKMZ.py:88-90 | A photo name appears among the candidates as often as in the archive. Any other name does not appear. |
| Candidates.PhotoMembersAppend | ExtractPhotosFromKMZ.py:88-90 | Filtering two listings joined together gives the two filtered lists joined together. |
| Candidates.PhotoMembersSingle | ExtractPhotosFromKMZ.py:88-90 | A single member is kept exactly when it is a photo. |
| Candidates.PhotoMembersOfPhotos | ExtractPhotosFromKMZ.py:88-90 | Filtering a list that holds only photos returns it unchanged. |
| Candidates.PhotoMembersIdempotent | ExtractPhotosFromKMZ.py:88-90 | Filtering twice gives the same list as filtering once. |
| Candidates.PhotoMembersEmpty | ExtractPhotosFromKMZ.py:88-92 | There are no candidates exactly when no member is a photo. |
| Candidates.IsPhotoExamples | ExtractPhotosFromKMZ.py:89 | `A.JPEG` and `b.jpg` are photos; `c.png` is not. |
| Candidates.PhotoMembersExample | ExtractPhotosFromKMZ.py:87-90 | The listing `A.JPEG`, `b.jpg`, `c.png` gives the candidates `A.JPEG`, `b.jpg`. |
| Progress.Percent | ExtractPhotosFromKMZ.py:102 | `idx * 100 / total` rounded down: the result times `total` is at most `idx * 100`, and one more would exceed it. |
| Progress.PercentBounded | ExtractPhotosFromKMZ.py:102 | For `1 <= idx <= total`, `idx * 100 / total` lies in 0..100 and equals 100 at `idx == total`. |
| Progress.PercentMonotone | ExtractPhotosFromKMZ.py:102 | A later position never reports a smaller value. |
| Progress.Reports | ExtractPhotosFromKMZ.py:98-102 | The values reported for the first `n` candidates are, in order, `Percent(1, total)` through `Percent(n, total)`. |
| Progress.ReportsNext | ExtractPhotosFromKMZ.py:98-102 | Proof helper: reaching one more candidate appends exactly its own value to the reports. |
| Progress.ReportsShape | ExtractPhotosFromKMZ.py:98-102 | The reported values stay within 0..100 and never decrease. When every candidate is reached, the last value is 100. |
| Progress.ReportsOfThree | ExtractPhotosFromKMZ.py:102 | Three candidates report 33, 66 and 100. |
| Extraction.FileName | ExtractPhotosFromKMZ.py:105 | With flatten on, the name has no `/`, is a suffix of the member name, and equals the member name when that has no `/`. With flatten off, the name is the member name. |
| Extraction.Destination | ExtractPhotosFromKMZ.py:105-106 | Definition of the destination: the folder joined with `FileName`. `FlatDestination`, `NestedDestination` and the two examples state what it gives. |
| Extraction.FlatDestination | ExtractPhotosFromKMZ.py:105-113 | With flatten on, the destination's basename is the member's basename. The directories above the destination are all made already at line 81. |
| Extraction.NestedDestination | ExtractPhotosFromKMZ.py:105-106 | With flatten off, a relative member name keeps its whole path: the destination starts with the folder and ends with the member name. When the folder is non-empty and does not end in `/`, the destination is exactly the folder, `/`, and the member name. |
| Extraction.NestedDirsExample | ExtractPhotosFromKMZ.py:111-113 | The destination `out/a/b/p.JPG` needs exactly the directories `out`, `out/a` and `out/a/b`. |
| Extraction.FlatDestinationExample | ExtractPhotosFromKMZ.py:104-106 | With flatten on, `files/p.JPG` goes to `out/p.JPG`. |
| Extraction.NestedDestinationExample | ExtractPhotosFromKMZ.py:105-106 | With flatten off, `files/p.JPG` goes to `out/files/p.JPG`. |
| Extraction.Skips | ExtractPhotosFromKMZ.py:108 | Definition of the skip test: overwrite is off and the destination exists. `StepEffect` states what it decides. |
| Extraction.Step | ExtractPhotosFromKMZ.py:108-119 | Definition of one candidate's effect on paths and counters; `StepEffect` states its properties and `CopyOne` is proved equal to it. |
| Extraction.StepEffect | ExtractPhotosFromKMZ.py:108-119 | A skip (overwrite off and the destination exists) adds 1 to `skipped`, leaves `extracted` and the path set unchanged. A write adds 1 to `extracted`, leaves `skipped` unchanged, and adds exactly the destination and the directories above it, removing nothing. The destination exists afterwards either way. |
| Extraction.Replay | ExtractPhotosFromKMZ.py:98-119 | Definition of the loop state after a list of destinations, one `Step` each in order; the `Replay*` lemmas state its properties and `CopyCandidates` is proved equal to it. |
| Extraction.ReplayNext | ExtractPhotosFromKMZ.py:98-119 | Proof helper: handling one more candidate is one more step after the state reached so far. |
| Extraction.ReplayCounts | ExtractPhotosFromKMZ.py:98-119 | After handling `n` candidates, `extracted + skipped` has grown by exactly `n`. Neither counter shrinks and no path disappears. |
| Extraction.ReplayCovers | ExtractPhotosFromKMZ.py:108-119 | After the candidates are handled, each of their destinations exists. |
| Extraction.ReplayOnlyAdds | ExtractPhotosFromKMZ.py:113-117 | Every new path is a handled candidate's destination or a directory above one. |
| Extraction.ReplayAllExist | ExtractPhotosFromKMZ.py:108-110 | With overwrite off and every destination already existing, every candidate is skipped and the path set is unchanged. |
| Extraction.ReplayOverwrite | ExtractPhotosFromKMZ.py:108-119 | With overwrite on, every handled candidate is written and none is skipped. |
| Extraction.HandledFrom | ExtractPhotosFromKMZ.py:98-100 | The loop stops at the first poll that answers true: every earlier poll answered false, and the poll after the last handled candidate answers true unless all candidates were handled. |
| Extraction.Handled | ExtractPhotosFromKMZ.py:98-100 | The same facts, counted from the first candidate. |
| Extraction.HandledUnique | ExtractPhotosFromKMZ.py:98-100 | Those facts determine the number of handled candidates. |
| Extraction.HandledCancelAt | ExtractPhotosFromKMZ.py:98-100 | If cancellation is first seen at candidate `k`, exactly `k - 1` candidates are handled. |
| Extraction.HandledAll | ExtractPhotosFromKMZ.py:98-100 | Without cancellation, every candidate is handled. |
| Extraction.Run | ExtractPhotosFromKMZ.py:72-122 | Definition of the whole job as a function of its inputs; `ProcessAlgorithm` is proved equal to it and the `Run*` lemmas state its properties. |
| Extraction.RunCounts | ExtractPhotosFromKMZ.py:78-122 | The job fails only when the input is not a file (`KmzNotFound`) or the folder name is empty. Otherwise it returns the folder and keeps every path that existed. It also makes the folder, and `extracted + skipped` equals the number of progress reports, which is at most the number of candidates. |
| Extraction.RunNoCandidates | ExtractPhotosFromKMZ.py:81-94 | When no member is a photo, the job returns early: only the output folder is created, both counters are 0, nothing is reported and the only message is "no photos found". |
| Extraction.RunCancelAt | ExtractPhotosFromKMZ.py:98-100 | If cancellation is first seen at candidate `k`, the job still succeeds with `k - 1` candidates handled and counted, and it pushes the summary (lines 121-122). |
| Extraction.RunCancelAtIgnoresRest | ExtractPhotosFromKMZ.py:98-100 | Candidates from `k` on leave no trace: paths and counters equal those of an uncancelled job over only the first `k - 1` candidates. |
| Extraction.RunTally | ExtractPhotosFromKMZ.py:81-119 | Proof helper: with a usable folder, the job succeeds, and its paths and counters are those of replaying the handled candidates' destinations from the existing paths plus the output folder, with both counters starting at 0. |
| Extraction.CancelAtDestinations | ExtractPhotosFromKMZ.py:98-106 | Proof helper: when cancellation is first seen at candidate `k`, the handled destinations are the first `k - 1` destinations, the same list an uncancelled job over just those candidates handles. |
| Extraction.DestinationsPrefix | ExtractPhotosFromKMZ.py:104-106 | Proof helper: the destinations of the first `n` candidates are the first `n` destinations. |
| Extraction.RunIdempotent | ExtractPhotosFromKMZ.py:108-119 | After a run that handled every candidate, a second run with overwrite off, on the resulting paths, writes nothing, skips every candidate it handles and leaves the path set unchanged. Without cancellation it skips all of them. |
| Extraction.RunOverwrite | ExtractPhotosFromKMZ.py:108-119 | With overwrite on, nothing is skipped. |
| Extraction.RunProgress | ExtractPhotosFromKMZ.py:98-102 | The reported progress stays within 0..100 and never decreases. Without cancellation, there is one report per candidate and the last one is 100. |
| Extraction.RunOnlyAdds | ExtractPhotosFromKMZ.py:81-117 | Nothing else changes. A path that is new and is not the output folder or above it is the destination of a handled candidate, or a directory above that destination. |
| Extraction.CopyOne | ExtractPhotosFromKMZ.py:108-119 | Handling one candidate with a known destination (skip it, or create its directories, write it and count it) leaves exactly the state `Step` describes. |
| Extraction.CopyCandidates | ExtractPhotosFromKMZ.py:96-119 | The loop (poll, report, compute the destination, skip or write) ends after exactly `Handled` candidates, with the path set and counters of replaying their destinations in order. The progress reports are `Reports(Handled, total)`. |
| Extraction.ProcessAlgorithm | ExtractPhotosFromKMZ.py:72-122 | The algorithm equals the reference function `Run`. A missing input gives `KmzNotFound`. It succeeds exactly when the input is a file and the folder name is non-empty. On success, existing paths are kept and `extracted + skipped` equals the number of handled candidates, at most the number of candidates. |

## Left out

- QGIS integration (lines 1-70 and the `parameterAs*` calls at 73-76):
  registration, metadata, translations and parameter widgets. The four
  parameters are plain inputs instead.
- Reading the archive (`zipfile.ZipFile`, `namelist`, `open`,
  `shutil.copyfileobj`, lines 86-87 and 116-117): the archive is given as
  its member names. File contents are not modelled, and neither is the
  error a corrupt or non-ZIP file raises.
- Operating-system errors: a failed write, `os.makedirs` meeting an
  existing file, `open` on a path that is a directory, missing permissions.
  The path set does not tell files from directories, so it cannot raise
  them. The one error it does model is `os.makedirs("")` failing at line
  81, as `FolderNotCreated`.
- `os.path.isfile(kmz_path)` is the input `kmzIsFile`. It is not derived
  from the path set.
- `feedback` side channels: progress values and the message are returned
  as data, and `isCanceled()` is the `canceled` input. Message wording is
  not modelled.
- Progress: `int(idx * 100 / total)` is modelled as exact floor division
  on naturals, not IEEE floating point.
- Platform path rules: the separator is always `/`. Paths are compared as
  strings, so `a//b` and `a/b` count as different paths and nothing is
  case-folded. Windows `\` separators and drive letters are not modelled.
- Unicode: `str.lower()` is modelled for ASCII letters only.
- Symbolic links and concurrent writers into the same folder.
