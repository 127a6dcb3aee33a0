# uelis-words: episode synchroniser, modelled in Dafny

The program logs in to a lecture-video portal, reads the series metadata,
and downloads every episode that is not yet listed in `transcribed.txt`,
always taking the smallest "video/mp4" rendition. This project models the
decisions inside `main` as plain data and proves what they guarantee:

- `Rendition`: filtering the presentations to "video/mp4" and choosing the
  one of least `width * height`, the first of equal minima winning, as
  `Iterator::min_by_key` does; no video presentation aborts the run.
- `Completed`: reading `transcribed.txt` with `str::lines` and dropping
  empty lines, keeping file order.
- `WorkList`: the substring test `t.contains(created_at)`, the per-episode
  decision `all(!contains)`, and the resulting work list in metadata order.
- `Paths`: `videos/<createdAt>` with `set_extension("mp4")`, the temporary
  name with extension "tmp", and the rename back with `with_extension("mp4")`.
  `set_extension` replaces whatever follows the last '.' of the name, so a
  `createdAt` such as `...:00.123Z` ends up as `...:00.mp4`
  (`Paths.FinalPathDropsLastDotSuffix`); timestamps without a '.' get
  distinct files (`Paths.FinalPathInjective`).
- `Sync`: the run itself, from `assert!(metadata.authorized)` through the
  `for episode` loop, producing the list of actions (download, or "already
  exists") and how the run ends. A rendition is chosen for every episode
  before the completed list is consulted, so an already transcribed episode
  without a video presentation still aborts the run.

`str::lines` is modelled as the Rust standard library documents it today:
lines end at "\n" or "\r\n", the last ending is optional, and a lone '\r'
stays in the line. Older Rust releases also stripped a lone '\r' at the
very end of the text.

## Model

| member | source | states |
|---|---|---|
| Rendition.VideoLinks | src/main.rs:74-80 | the kept presentations are exactly those of the listing whose type is "video/mp4" |
| Rendition.VideoLinksConcat | src/main.rs:79 | the filter keeps listing order (distributes over concatenation) |
| Rendition.MinByKey | src/main.rs:86-89 | the fold returns the start value or an element, and its area is at most every area seen |
| Rendition.MinByKeyFirstMinimal | src/main.rs:86-89 | folding from the first minimum of a prefix ends on the first index of least area |
| Rendition.FirstMinimalUnique | src/main.rs:86-89 | the first-minimum index is unique, so the choice is determined |
| Rendition.AnyVideoIff | src/main.rs:81-85 | the recursive "some presentation is a video" holds iff some presentation has type "video/mp4" |
| Rendition.SelectRendition | src/main.rs:74-89 | fails iff no presentation is "video/mp4" (the failed assertion); otherwise returns a "video/mp4" element of the listing whose area is at most that of every "video/mp4" presentation |
| Rendition.SelectRenditionFirstMinimal | src/main.rs:86-89 | the chosen presentation is the first video presentation of least area (ties go to input order) |
| Rendition.SelectSmallestVideo | src/main.rs:74-89 | 320x240 is chosen over 1920x1080 video and a 640x480 "audio/mp4" variant |
| Rendition.TieGoesToFirst | src/main.rs:86-89 | of two video presentations of equal area the earlier is chosen |
| Rendition.Area | src/main.rs:88 | the key is zero iff width or height is zero, and otherwise at least each side |
| Completed.Lines | src/main.rs:60-61 | no line contains '\n'; there are at most as many lines as characters |
| Completed.NonEmpty | src/main.rs:63 | keeps exactly the non-empty lines |
| Completed.ParseCompleted | src/main.rs:60-64 | the entries are exactly the non-empty lines of the file; none is empty or contains '\n' |
| Completed.NonEmptyConcat | src/main.rs:63 | dropping empty lines keeps order (distributes over concatenation) |
| Completed.NonEmptyKeepsAll | src/main.rs:63 | a list without empty lines is unchanged |
| Completed.LinesAppend | src/main.rs:61 | the lines of text split at a line ending are the lines of each part, in order |
| Completed.ParseCompletedAppend | src/main.rs:60-64 | entries keep file order: parsing two chunks of whole lines concatenates their entries |
| Completed.LinesJoinLines | src/main.rs:61 | lines written with "\n" endings read back unchanged |
| Completed.LinesJoinCrlf | src/main.rs:61 | lines written with "\r\n" endings read back unchanged |
| Completed.ParseCompletedJoin | src/main.rs:60-64 | a file of non-empty lines parses back to exactly those lines |
| Completed.ParseCompletedSkipsBlank | src/main.rs:60-64 | a blank line between entries adds no entry |
| WorkList.Contains | src/main.rs:95 | the empty pattern is contained in every entry; a contained pattern is no longer than the entry |
| WorkList.NeedsDownload | src/main.rs:95 | with no entries every episode needs downloading; an empty `createdAt` needs downloading iff there are no entries; entries all shorter than `createdAt` never exclude it |
| WorkList.ContainsIffOccurs | src/main.rs:95 | `contains` holds iff the pattern occurs at some position (both directions) |
| WorkList.NeedsDownloadIff | src/main.rs:95 | an episode needs downloading iff its `createdAt` occurs in no completed entry |
| WorkList.ListedEpisodeExcluded | src/main.rs:95 | an entry equal to `createdAt` excludes the episode |
| WorkList.Pending | src/main.rs:66-95 | the work list holds exactly the listed episodes that need downloading |
| WorkList.PendingConcat | src/main.rs:66-95 | each episode is decided on its own and in listing order |
| WorkList.PendingNothingCompleted | src/main.rs:95 | with an empty completed list every episode is downloaded |
| WorkList.PendingMoreCompleted | src/main.rs:95 | more completed entries only remove episodes from the work list |
| WorkList.PendingIdempotent | src/main.rs:95 | filtering the work list again changes nothing |
| WorkList.MarkingExcludes | src/main.rs:95 | an added entry removes exactly the episodes whose `createdAt` occurs in it |
| Paths.Join | src/main.rs:91-92 | keeps the directory's components as a prefix; a proper name becomes the file name, under the directory |
| Paths.SetExtension | src/main.rs:92-96 | with a file name and a simple extension: same directory, same stem, the new extension; without a file name: unchanged |
| Paths.ReplaceExtension | src/main.rs:96-110 | setting a simple extension and then another equals setting only the second |
| Paths.FinalPath | src/main.rs:91-93 | unless `createdAt` is "..", the final path has a file name with extension "mp4"; a proper name sits directly under `videos` |
| Paths.TempPath | src/main.rs:96 | unless `createdAt` is "..", the download path has a file name with extension "tmp"; for ".." it equals the final path |
| Paths.RenameTargetIsFinalPath | src/main.rs:91-110 | the rename target `with_extension("mp4")` of the temporary path is exactly the final path |
| Paths.TempDiffersOnlyInExtension | src/main.rs:91-96 | temporary and final path share directory and stem, have extensions "tmp" and "mp4", and differ |
| Paths.FinalPathParts | src/main.rs:91-93 | the final path of a proper name is `videos/<stem>.mp4` |
| Paths.FinalPathInjective | src/main.rs:91-93 | distinct timestamps without a '.' have distinct final paths |
| Paths.FinalPathDropsLastDotSuffix | src/main.rs:92-93 | timestamps differing only after their last '.' share one final path |
| Sync.AllHaveVideoIff | src/main.rs:81-85 | the recursive "every episode has a video presentation" holds iff each episode has one |
| Sync.ExpectedAction | src/main.rs:74-114 | the action concerns the visited episode and is a download iff the episode needs downloading |
| Sync.DownloadActionFacts | src/main.rs:86-110 | a planned download fetches the chosen rendition, a least-area video presentation, into a non-final name and renames it to the final path |
| Sync.VisitEpisode | src/main.rs:74-114 | fails iff the episode has no video presentation; otherwise performs the expected action |
| Sync.ExpectedActions | src/main.rs:66-114 | one planned action per visited episode |
| Sync.ExpectedActionsSnoc | src/main.rs:66-114 | visiting one more episode with a video presentation appends exactly its own action |
| Sync.ExpectedActionsAt | src/main.rs:66-114 | the i-th action depends on the i-th episode alone, concerns it, and is a download iff it needs downloading |
| Sync.DownloadedArePending | src/main.rs:66-115 | the downloads of the planned actions are exactly the work list, in order |
| Sync.VisitEpisodes | src/main.rs:66-115 | finishes iff every episode has a video presentation, else stops at the first without; the actions are the expected ones for the visited episodes |
| Sync.Sync | src/main.rs:56-115 | the run ends as unauthorized iff the series is unauthorized, and then does nothing; otherwise the actions are the expected ones and the downloads are the work list of the visited episodes |

## Left out

- Login, the cookie store, the metadata and video requests (src/main.rs:27-54, 67-73, 105-108): network I/O; the decoded metadata and each episode's presentations are inputs.
- JSON decoding of the metadata structs (src/main.rs:9-21, 119-139): library derive code; the decoded values are taken as given.
- Environment variables, console output and `exit(-1)` after a failed login (src/main.rs:24-25, 39-45): process plumbing.
- Reading `transcribed.txt`, creating `videos/`, writing the download and the `rename` call (src/main.rs:60, 103-110): filesystem effects; only their text and path values are modelled, and a failing I/O call is not.
- Rendition.Area: `width * height` is a `usize` product in the source, which panics (debug) or wraps (release) on overflow; the model uses unbounded `nat`.
- Paths.Join: models joining a `createdAt` that is one relative path component; a value containing '/' or starting with '/' (which `PathBuf::join` splits or lets replace the directory) is not modelled.
- Completed.Lines: follows `str::lines` as documented today, where a lone '\r' at the very end of the text stays in the last line; older Rust releases stripped it, so a file whose last entry ends in a lone '\r' parses differently under them.
- Silence detection, split points, audio extraction and transcription are not part of this source file, so nothing of them is modelled.
