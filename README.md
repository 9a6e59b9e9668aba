# slidder, modelled in Dafny

slidder replaces images in a Google Slides presentation with local image files. Each
image element is checked for a `path=<file>.<ext>` annotation in its description (its
alt text). When the description holds exactly one such annotation and the annotated
file exists under the given directory, slidder does four things:

- it uploads the file to Google Drive, once per path;
- it makes the uploads readable by anyone holding the link;
- it sends one `batchUpdate` that replaces every such image, center-cropped, with the
  link of its upload;
- it deletes the uploads again.

The project models the core of `slidder/__init__.py` in five modules.

- `Annotation` (`annotation.dfy`): `slidderpath_regex.findall`. The fixed pattern
  `path=([^\s]*\.(?:png|jpg|jpeg|gif|PNG|JPG|JPEG|GIF))` is written as a scanner with
  the regular expression's own semantics:
  - it looks for `path=` from left to right;
  - `[^\s]*` takes the whole non-whitespace run and then gives characters back;
  - the alternatives are tried in the order they are listed;
  - scanning resumes after each match;
  - `\s` is the set of characters for which Python's `str.isspace` holds.
- `GoogleApi` (`google_api.dfy`): the `GAPI` class. It is a `class Gapi` whose methods
  append the Drive and Slides calls they send to a log, `log`. Drive ids are fresh
  numbers counted by `issued`, and a file's `webContentLink` is a function of its id.
- `Slidder` (`slidder.dfy`): `main`, as imperative methods:
  - `Run` is `main` itself;
  - `CollectRequests` and `HandleImages` are its two nested loops;
  - `HandleImage` and `ReplaceWith` are the loop body.

  Each method is proved equal to a function on values:
  - `Step` handles one image element;
  - `Build` folds `Step` over all image elements;
  - `Final` is the state after the whole presentation;
  - `RunLog` is every call the run sends.

  The `uploaded_files` dictionary is a sequence of entries in insertion order, which
  is the order of `dict.values()`.
- `Properties` (`properties.dfy`): what a run promises, proved about `Final` and `RunLog`.
- `Scenarios` (`scenarios.dfy`): two worked examples, proved as lemmas.
  - One image annotated `path=a.png`: one upload, one permission, one commit with one
    request, one deletion.
  - One image annotated twice: nothing is sent at all.

The model follows what the code does, including where a reader might expect more:

- The code sends only `replaceImage` requests, never a request that restores the
  image's title and description afterwards. Line 115 leaves this as a TODO.
- The presentation id is used as given. No name is resolved to an identifier.
- There is no `try`/`finally`. A `batchUpdate` that fails skips the cleanup. The
  model covers only runs in which every remote call succeeds (see "Left out").
- The run publishes only when `drive_file_ids and requests` (line 144). Every upload
  belongs to a request, so this is the same as "some file was uploaded"
  (`Properties.PublishWheneverUploaded`).

## Model

| member | source | states |
|---|---|---|
| Annotation.RunEnd | slidder/__init__.py:17 | `[^\s]*`: the result ends the maximal whitespace-free run starting at `j`; it is followed by whitespace or the end of the text |
| Annotation.AlternativeOccurs | slidder/__init__.py:16 | the extension the alternation picks does occur at the position, within the run |
| Annotation.AlternativeFound | slidder/__init__.py:16 | if any listed extension occurs at the position, the alternation succeeds |
| Annotation.AlternativesExclusive | slidder/__init__.py:16 | at most one of the eight extensions can match at a position, so the listed order never changes the result |
| Annotation.IsSpace | slidder/__init__.py:17 | `\s` of a str pattern: exactly the characters for which Python's `str.isspace` holds |
| Annotation.FirstAlternative | slidder/__init__.py:16-17 | the alternation tried left to right: the index it returns is an alternative from `n` on; `AlternativeOccurs` and `AlternativeFound` state that the chosen one occurs and that the alternation succeeds whenever one occurs |
| Annotation.DotExtAt | slidder/__init__.py:16-17 | `\.(?:…)` tried at a position; `DotExtSound` states that a match starts with `.` and ends an image extension within the run, `DotExtComplete` that every such extension is matched |
| Annotation.Backtrack | slidder/__init__.py:17 | `[^\s]*` giving characters back from the end of the run: a dot it returns lies inside the searched range; `BacktrackFound` and `BacktrackNone` state that it is the rightmost match of `\.(?:…)` |
| Annotation.BacktrackFound | slidder/__init__.py:17 | backtracking returns a dot followed by an extension, and no such dot lies to the right of it in the run |
| Annotation.BacktrackNone | slidder/__init__.py:17 | when backtracking fails, no position of the run holds a dot followed by an extension |
| Annotation.DotExtSound | slidder/__init__.py:17 | a match of `\.(?:…)` ends a text that ends in an image extension, with no dot inside the extension |
| Annotation.DotExtComplete | slidder/__init__.py:17 | every text that ends in an image extension is found by `\.(?:…)` tried at its dot |
| Annotation.FoundIsLongest | slidder/__init__.py:17 | the greedy capture ends in an image extension and no longer prefix of the run does |
| Annotation.NothingFound | slidder/__init__.py:17 | when the greedy capture fails, no prefix of the run ends in an image extension |
| Annotation.LongestCapture | slidder/__init__.py:17 | the capture after `path=` is the longest prefix of the whitespace-free run that ends in `.` plus an extension, or none when no prefix does |
| Annotation.FindAllFrom | slidder/__init__.py:17 | every capture from a position on is whitespace-free and ends in `.` plus one of the eight extensions, case-exact |
| Annotation.FindAll | slidder/__init__.py:117 | every path `findall` returns is whitespace-free and ends in `.` plus one of the eight extensions, case-exact |
| Annotation.SkipUnmarked | slidder/__init__.py:17 | positions without `path=` contribute no match |
| Annotation.NoAnnotation | slidder/__init__.py:117 | a description without `path=` yields no paths |
| Annotation.AnnotationAt | slidder/__init__.py:17 | a well-formed `path=X.ext` followed by whitespace or the end is captured as exactly `X.ext`, and scanning resumes after it |
| Annotation.SingleAnnotation | slidder/__init__.py:117 | a description with a single well-formed `path=X.ext` yields exactly `[X.ext]` |
| Annotation.TwoAnnotations | slidder/__init__.py:117 | a description with two well-formed annotations yields both paths, in order |
| GoogleApi.UploadCalls | slidder/__init__.py:48-69 | an upload sends a create of the file under its hash with the local path as media, then a lookup of its link |
| GoogleApi.DeleteCalls | slidder/__init__.py:74-75 | one delete per id, in the order of the ids |
| GoogleApi.PermissionCalls | slidder/__init__.py:79-82 | one "anyone / reader" permission per id, in the order of the ids |
| GoogleApi.CreatedIdsAppend | slidder/__init__.py:58-60 | the files created by two call sequences are those of the first, then those of the second |
| GoogleApi.DeletedIdsAppend | slidder/__init__.py:74-75 | the files deleted by two call sequences are those of the first, then those of the second |
| GoogleApi.DeleteCallsDelete | slidder/__init__.py:71-75 | `remove_files` deletes exactly the given ids, in order, and creates none |
| GoogleApi.PermissionCallsKeepFiles | slidder/__init__.py:77-82 | `make_public` neither creates nor deletes a file |
| GoogleApi.Gapi.constructor | slidder/__init__.py:41-43 | a new session has sent nothing and created no file |
| GoogleApi.Gapi.UploadImage | slidder/__init__.py:48-63 | returns a fresh id (the next one Drive hands out) and that file's link; the log grows by the create and the link lookup |
| GoogleApi.Gapi.GetUploadedImageUrl | slidder/__init__.py:65-69 | returns the `webContentLink` of the id after sending one lookup |
| GoogleApi.Gapi.RemoveFiles | slidder/__init__.py:71-75 | sends one delete per id, in order, and nothing for an empty list |
| GoogleApi.Gapi.MakePublic | slidder/__init__.py:77-82 | sends one "anyone may read" permission per id, in order |
| GoogleApi.Gapi.BatchUpdate | slidder/__init__.py:152-154 | sends the whole request list to the presentation in one call |
| Slidder.ImageElements | slidder/__init__.py:110 | keeps exactly the elements that have an `image` key, and no more |
| Slidder.ImageElementsCount | slidder/__init__.py:110 | each element with an `image` key is kept as often as it occurs; any other element is never kept |
| Slidder.ImageElementsAppend | slidder/__init__.py:110 | the filter keeps the order: the image elements of `a + b` are those of `a`, then those of `b` |
| Slidder.SlideImages | slidder/__init__.py:110 | `slide.get("pageElements", [])` filtered by `"image" in el`: exactly the elements of the slide with an `image` key; a slide without `pageElements` has none |
| Slidder.Images | slidder/__init__.py:109-110 | only elements with an `image` key are examined, and every such element of every slide is |
| Slidder.ImagesAppend | slidder/__init__.py:109-110 | slides are visited in order: the image elements of `a + b` are those of the slides of `a`, then those of `b` |
| Slidder.Join | slidder/__init__.py:121 | `os.path.join`: an absolute name replaces the directory; otherwise the directory comes first, then a separator unless it already ends in one, then the name |
| Slidder.SuffixKeepsExtension | slidder/__init__.py:121 | joining to a directory keeps the path's image extension |
| Slidder.Description | slidder/__init__.py:114 | `image.get("description", "")`: a missing description reads as the empty text |
| Slidder.Examine | slidder/__init__.py:113-117 | an element is read as its object id and the whitespace-free, image-extension paths of its description |
| Slidder.Candidates | slidder/__init__.py:112-117 | every image element is examined, in order: the i-th result is what `main` reads from the i-th element |
| Slidder.Target | slidder/__init__.py:117-129 | an element is replaced iff its description yields exactly one path and that path, joined to the directory, is an existing file; the target is that file |
| Slidder.Keys | slidder/__init__.py:130 | the keys of `uploaded_files` are the paths of its entries, in insertion order |
| Slidder.Lookup | slidder/__init__.py:130-131 | `uploaded_files[fname]` is absent iff `fname` is not a key; otherwise it is an entry for `fname` |
| Slidder.DriveFileIds | slidder/__init__.py:143 | the file ids of the entries, in insertion order |
| Slidder.UploadLog | slidder/__init__.py:133 | the uploads send only file creations and link lookups |
| Slidder.Replace | slidder/__init__.py:130-141 | appends one center-cropped request for the element; a known path reuses its entry; a new path adds one entry with the next fresh id |
| Slidder.ReplaceLink | slidder/__init__.py:130-141 | the appended request's `url` is the `remote_url` that `uploaded_files` holds for the path afterwards, for a known and a new path alike |
| Slidder.Step | slidder/__init__.py:112-141 | an element without a target changes nothing; an element with one adds exactly one center-cropped request for its id and at most one upload |
| Slidder.Initial | slidder/__init__.py:107-108 | the walk starts with no requests and an empty `uploaded_files`, Drive's counter at `start` |
| Slidder.Build | slidder/__init__.py:109-141 | walking the elements only appends to the requests and to `uploaded_files` |
| Slidder.ReplaceWith | slidder/__init__.py:130-141 | the lookup, the upload and the appended request are `Replace`; the log grows by exactly the calls of the new upload |
| Slidder.HandleImage | slidder/__init__.py:112-141 | the loop body is `Step` on the element, and the log holds exactly the uploads made so far |
| Slidder.HandleImages | slidder/__init__.py:112-141 | the inner loop is `Build` over the slide's image elements |
| Slidder.CandidatesAppend | slidder/__init__.py:109-112 | examining two lists of elements is examining one, then the other |
| Slidder.BuildAppend | slidder/__init__.py:109-112 | walking two lists of elements is walking the first, then the second from where it ended |
| Slidder.CollectRequests | slidder/__init__.py:107-141 | the walk over all slides ends in `Final`, having sent exactly the upload calls of `uploaded_files` |
| Slidder.Final | slidder/__init__.py:107-141 | the requests and `uploaded_files` after the walk over all slides; its properties are the `Properties` lemmas `RequestsMatchReplaced`, `UploadsAreFirstOccurrences` and `FinalValid` |
| Slidder.RunLog | slidder/__init__.py:133-157 | every call of a run in order: uploads, permissions, commit, cleanup; its properties are `CommitGating`, `PublishGating`, `CleanupDeletesUploads` and `RunPhasesInOrder` |
| Slidder.Run | slidder/__init__.py:107-157 | `main` sends exactly `RunLog` of `Final` and leaves Drive's counter after the last upload |
| Slidder.Hits | slidder/__init__.py:117-129 | the replaced elements are listed with their files, and every such file exists |
| Slidder.Fnames | slidder/__init__.py:130 | the paths of the replaced elements, position by position: `Keys` for hits instead of entries |
| Slidder.FirstOccurrences | slidder/__init__.py:130-134 | the paths not seen before, each once: no duplicates, an element is in it iff it is in the list and not seen, and it is no longer than the list |
| Slidder.KeysAppend | slidder/__init__.py:134 | adding an entry adds its path as the last key |
| Slidder.LookupPrefix | slidder/__init__.py:130-134 | a later upload never changes what a path already in `uploaded_files` maps to |
| Slidder.LookupAppendNew | slidder/__init__.py:133-134 | a newly added path maps to its own entry |
| Slidder.ValidAppend | slidder/__init__.py:133-134 | adding the next fresh upload under a new path keeps the ids consecutive and the keys distinct |
| Slidder.StepValid | slidder/__init__.py:130-134 | one element keeps `uploaded_files` well-formed: the i-th upload has id start+i and its link, and no path appears twice |
| Slidder.BuildValid | slidder/__init__.py:130-134 | the whole walk keeps `uploaded_files` well-formed |
| Slidder.StepKeys | slidder/__init__.py:130-134 | one element adds its path to the keys iff it has a target not uploaded before |
| Slidder.HitsCons | slidder/__init__.py:117-129 | a replaced first element contributes its path first; any other contributes none |
| Slidder.BuildUploads | slidder/__init__.py:130-134 | the paths uploaded during the walk are the replaced elements' paths, first occurrences only, in order |
| Slidder.RequestsForCons | slidder/__init__.py:135-141 | a correct request before correct requests gives correct requests |
| Slidder.RequestForExtends | slidder/__init__.py:130-134 | a request stays correct when `uploaded_files` grows |
| Slidder.StepRequest | slidder/__init__.py:130-141 | the request one element adds replaces that element, center-cropped, with the link of its file's upload |
| Slidder.BuildRequests | slidder/__init__.py:109-141 | the walk adds one request per replaced element, in order, each with the link of that element's file |
| Properties.AnnotatedImageIsTarget | slidder/__init__.py:117-124 | an element whose description has a single well-formed `path=X.ext` naming an existing file is replaced with `join(directory, X.ext)` |
| Properties.MissingFileIsSkipped | slidder/__init__.py:124-129 | an element whose single annotated file does not exist is left alone |
| Properties.TwoAnnotationsAreSkipped | slidder/__init__.py:117-119 | an element whose description has two annotations is left alone |
| Properties.UnannotatedImageIsSkipped | slidder/__init__.py:114-119 | an element without a description, or without `path=` in it, is left alone |
| Properties.HitsAreTargets | slidder/__init__.py:112-129 | the replaced elements are exactly the image elements that have a target, each with that target |
| Properties.RequestsMatchReplaced | slidder/__init__.py:135-141 | one request per replaced element, in order: it replaces that element, center-cropped, with the link of its file's upload |
| Properties.UploadsAreFirstOccurrences | slidder/__init__.py:130-134 | the uploaded paths are the replaced elements' paths, each once, in order of first appearance |
| Properties.UploadsAreDistinctTargets | slidder/__init__.py:130-134 | no path is uploaded twice, and a path is uploaded iff some replaced element names it |
| Properties.UploadsExist | slidder/__init__.py:124-134 | only existing local files are uploaded |
| Properties.UploadsAtMostRequests | slidder/__init__.py:130-141 | there are no more uploads than requests |
| Properties.FinalValid | slidder/__init__.py:133-134 | after the walk, the i-th upload has the i-th fresh id and its link, and no path appears twice |
| Properties.SameFileSameUrl | slidder/__init__.py:130-141 | two replaced elements get the same link iff they name the same file |
| Properties.UploadLogFiles | slidder/__init__.py:133-134 | the uploads create exactly the recorded files, in insertion order, and delete none |
| Properties.UploadLogMedia | slidder/__init__.py:48-60 | every created file is a recorded path, uploaded under its hash |
| Properties.CleanupDeletesUploads | slidder/__init__.py:143-157 | cleanup deletes exactly the files the run created, in the order they were created |
| Properties.UploadIdsConsecutive | slidder/__init__.py:143 | the files of a run have the ids `start`, `start + 1`, …: consecutive ids are the model's own choice of fresh ids, and `UploadIdsFresh` states what the source relies on |
| Properties.UploadIdsFresh | slidder/__init__.py:133-143 | the ids in `drive_file_ids` are pairwise distinct, none was handed out before the run, and none is handed out again after the uploads |
| Properties.CommitGating | slidder/__init__.py:148-154 | a `batchUpdate` is sent iff there are requests, and it carries all of them |
| Properties.PublishGating | slidder/__init__.py:143-146 | files are made public iff there are uploads and requests; then every uploaded file is, only uploaded files are, each as "anyone / reader" |
| Properties.PublishWheneverUploaded | slidder/__init__.py:143-146 | files are made public iff at least one file was uploaded |
| Properties.NothingToReplace | slidder/__init__.py:143-157 | a run that replaces no element sends no call at all |
| Properties.UploadedMedia | slidder/__init__.py:48-60 | every file created is a key of `uploaded_files`, named by its hash |
| Properties.UploadedFilesExist | slidder/__init__.py:124-134 | every uploaded file exists locally and is named by a replaced element; a missing file is never uploaded |
| Properties.InPhaseOrderAppend | slidder/__init__.py:143-157 | concatenating two phase-ordered call sequences, the first in earlier phases, keeps the phase order |
| Properties.RunPhasesInOrder | slidder/__init__.py:143-157 | a run uploads, then publishes, then commits, then cleans up; no call of a later phase precedes one of an earlier phase |
| Scenarios.OneImageTarget | slidder/__init__.py:117-124 | the description `path=a.png` in directory `./` targets `./a.png` |
| Scenarios.OneImageFinal | slidder/__init__.py:107-141 | a presentation with one image annotated `path=a.png` yields one request and one upload |
| Scenarios.OneImageRun | slidder/__init__.py:107-157 | that presentation's run sends, in order: a create, a link lookup, a permission, a commit with one request, a delete |
| Scenarios.AmbiguousImageSkipped | slidder/__init__.py:117-119 | the description `path=a.png path=b.gif` gives no target, whatever files exist |
| Scenarios.TwoPathRun | slidder/__init__.py:117-157 | a presentation whose only image is annotated twice sends nothing |

## Left out

- Authentication (lines 21-39) is not modelled: token files, OAuth flow, pickling. The
  service objects (42-43) are the `Gapi` session.
- `get_presentation` (45-46) is not modelled. The fetched slides are an input of `Run`.
  A presentation without a `"slides"` key raises a `TypeError`: at `len(slides)` on
  line 106 when `debug` is set (the default), otherwise at `for slide in slides` on
  line 109. The model takes the slides as a list.
- The fields of a page element are reduced to what `main` reads:
  - the object id, the description, and whether it has an `image` key;
  - `slide_id` and `contentUrl` (111, 116) feed only debug output and are left out.
- Printing and the `debug` flag (62, 105-106, 122-128, 150-151) are left out: output only.
- `mimetypes.guess_type` and the resumable `MediaFileUpload` settings (54-57) are left
  out. The upload records the local path as its media.
- Python exceptions are not modelled: a failing remote call, a missing response
  field, or a non-string description. Without `try`/`finally`, a failure before line 157 would leave the uploads on Drive.
  The model does not capture that.
- `os.path.isfile` is a set `existing` of the files present when the run starts. A file
  that appears or disappears during the run is not modelled.
- `os.path.join` is modelled for POSIX paths only. Windows drive letters and
  separators are left out.
- `get_file_hash` (90-91) returns the local path unchanged. `GoogleApi.FileHash` is that
  identity, and every upload is named by it (`GoogleApi.UploadCalls`,
  `Properties.UploadLogMedia`).
- Drive ids and links are left out as values. Ids are consecutive numbers from the
  session's counter, and a link is a function of its id. The real services pick both
  opaquely; the model needs only that ids are fresh and links are distinct per file.
- `_list_appdata_files` (84-87) is a debugging helper that `main` never calls.
- The response of `batchUpdate` (line 152) is ignored by the source and not modelled.
- `fire.Fire(main)` (160-161) is the command-line entry point and is not modelled.
- Annotation.FirstAlternative: its contract states only the range of the index it returns.
  That the alternatives are tried in list order shows only in its body. No two
  alternatives can match at one position (`Annotation.AlternativesExclusive`), so the
  order cannot change a result.
