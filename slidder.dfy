/**
 * The `main` command of slidder: for every image on every slide whose description
 * holds exactly one `path=<file>.<ext>` annotation naming an existing local file,
 * upload that file to Drive (once per path), ask Slides to replace the image with
 * it, and finally publish, commit and clean up.
 *
 * `main` is modelled by the method `Run` and specified by functions on values:
 * `Build` folds `Step` over the image elements of the presentation and yields the
 * requests and the `uploaded_files` dictionary; `RunLog` is the whole sequence of
 * calls the run sends. The lemmas below state what the run promises about them.
 */
module Slidder {
  import opened Wrappers
  import opened Annotation
  import opened GoogleApi

  /** The fields of a page element that slidder reads; `hasImage` says the element has an `image` key. */
  datatype PageElement = PageElement(objectId: Option<string>, description: Option<string>, hasImage: bool)

  datatype Slide = Slide(objectId: Option<string>, pageElements: Option<seq<PageElement>>)

  /** One entry of the `uploaded_files` dictionary: a local path, its Drive id and its link. */
  datatype Entry = Entry(fname: string, fileId: FileId, remoteUrl: Url)

  /**
   * The state `main` builds while it walks over the images: the requests so far, the
   * `uploaded_files` dictionary as its entries in insertion order, and the id Drive
   * will give the next upload.
   */
  datatype BuildState = BuildState(requests: seq<Request>, uploaded: seq<Entry>, nextId: FileId)

  /** An image element as `main` sees it: its object id and the paths its description annotates. */
  datatype Candidate = Candidate(elementId: Option<string>, files: seq<string>)

  /** An image element that gets replaced, and the local path it is replaced with. */
  datatype Hit = Hit(elementId: Option<string>, fname: string)

  predicate NoDup(xs: seq<string>) {
    forall i, j :: 0 <= i < j < |xs| ==> xs[i] != xs[j]
  }

  /** A description that is missing reads as the empty text. */
  function Description(el: PageElement): string {
    el.description.GetOr("")
  }

  /** The elements that have an `image` key, in order. */
  function ImageElements(els: seq<PageElement>): (r: seq<PageElement>)
    ensures |r| <= |els|
    ensures forall e :: e in r <==> e in els && e.hasImage
  {
    if els == [] then []
    else (if els[0].hasImage then [els[0]] else []) + ImageElements(els[1..])
  }

  /** Every element with an `image` key is kept as often as it occurs, and no other element is kept. */
  lemma {:induction false} ImageElementsCount(els: seq<PageElement>, e: PageElement)
    ensures multiset(ImageElements(els))[e] == if e.hasImage then multiset(els)[e] else 0
  {
    if els != [] {
      assert els == [els[0]] + els[1..];
      ImageElementsCount(els[1..], e);
    }
  }

  /** Filtering keeps the order: the image elements of `a + b` are those of `a`, then those of `b`. */
  lemma {:induction false} ImageElementsAppend(a: seq<PageElement>, b: seq<PageElement>)
    ensures ImageElements(a + b) == ImageElements(a) + ImageElements(b)
  {
    if a == [] {
      assert a + b == b;
    } else {
      var head := if a[0].hasImage then [a[0]] else [];
      assert (a + b)[0] == a[0] && (a + b)[1..] == a[1..] + b;
      assert ImageElements(a + b) == head + ImageElements(a[1..] + b);
      ImageElementsAppend(a[1..], b);
      assert ImageElements(a) == head + ImageElements(a[1..]);
    }
  }

  /** The image elements of one slide; a slide without `pageElements` has none. */
  function SlideImages(slide: Slide): (r: seq<PageElement>)
    ensures forall e :: e in r <==> e in slide.pageElements.GetOr([]) && e.hasImage
  {
    ImageElements(slide.pageElements.GetOr([]))
  }

  /** The image elements of all slides, slide by slide. */
  function Images(slides: seq<Slide>): (r: seq<PageElement>)
    ensures forall e :: e in r ==> e.hasImage
    ensures forall k, e :: 0 <= k < |slides| && e in slides[k].pageElements.GetOr([]) && e.hasImage ==> e in r
  {
    if slides == [] then []
    else SlideImages(slides[0]) + Images(slides[1..])
  }

  /** The image elements of `a + b` are those of the slides of `a`, then those of the slides of `b`. */
  lemma {:induction false} ImagesAppend(a: seq<Slide>, b: seq<Slide>)
    ensures Images(a + b) == Images(a) + Images(b)
  {
    if a == [] {
      assert a + b == b;
    } else {
      assert (a + b)[0] == a[0] && (a + b)[1..] == a[1..] + b;
      ImagesAppend(a[1..], b);
    }
  }

  const Sep: char := '/'

  predicate IsAbsolute(name: string) {
    |name| > 0 && name[0] == Sep
  }

  /** `os.path.join(directory, name)` on a POSIX system. */
  function Join(directory: string, name: string): (path: string)
    ensures HasSuffix(path, name)
    ensures IsAbsolute(name) ==> path == name
    ensures !IsAbsolute(name) ==> |directory| <= |path| <= |directory| + 1 + |name| && path[..|directory|] == directory
    ensures !IsAbsolute(name) && directory != [] ==> |name| < |path| && path[|path| - |name| - 1] == Sep
    ensures !IsAbsolute(name) && (directory == [] || directory[|directory| - 1] == Sep) ==> |path| == |directory| + |name|
    ensures !IsAbsolute(name) && directory != [] && directory[|directory| - 1] != Sep ==> |path| == |directory| + 1 + |name|
  {
    if IsAbsolute(name) then name
    else if directory == [] || directory[|directory| - 1] == Sep then directory + name
    else directory + [Sep] + name
  }

  /** A text that ends with a text ending in an image extension ends in one too. */
  lemma SuffixKeepsExtension(path: string, name: string)
    requires HasSuffix(path, name) && EndsWithImageExt(name)
    ensures EndsWithImageExt(path)
  {
    var x :| 0 <= x < |Extensions| && HasSuffix(name, "." + Extensions[x]);
    var w := "." + Extensions[x];
    assert path[|path| - |w|..] == path[|path| - |name|..][|name| - |w|..];
  }

  /** What `main` reads from an image element: its id and the annotations of its description. */
  function Examine(el: PageElement): (c: Candidate)
    ensures c.elementId == el.objectId
    ensures forall t :: 0 <= t < |c.files| ==> NoSpace(c.files[t]) && EndsWithImageExt(c.files[t])
  {
    Candidate(el.objectId, FindAll(Description(el)))
  }

  /** `Examine` on each element, in order. */
  function Candidates(els: seq<PageElement>): (r: seq<Candidate>)
    ensures |r| == |els|
    ensures forall i :: 0 <= i < |els| ==> r[i] == Examine(els[i])
  {
    if els == [] then [] else [Examine(els[0])] + Candidates(els[1..])
  }

  /**
   * The local file an image element is to be replaced with: its description holds
   * exactly one annotation and the annotated path, joined to the directory, is an
   * existing file. Anything else leaves the element alone.
   */
  function Target(c: Candidate, directory: string, existing: set<string>): (r: Option<string>)
    ensures r.Some? <==> |c.files| == 1 && Join(directory, c.files[0]) in existing
    ensures r.Some? ==> r.value == Join(directory, c.files[0]) && r.value in existing && HasSuffix(r.value, c.files[0])
  {
    if |c.files| != 1 then None
    else
      var fname := Join(directory, c.files[0]);
      if fname !in existing then None else Some(fname)
  }

  /** The keys of `uploaded_files`, in insertion order. */
  function Keys(entries: seq<Entry>): (r: seq<string>)
    ensures |r| == |entries|
    ensures forall i :: 0 <= i < |entries| ==> r[i] == entries[i].fname
  {
    if entries == [] then [] else [entries[0].fname] + Keys(entries[1..])
  }

  /** `uploaded_files[fname]`, when the key is present. */
  function Lookup(entries: seq<Entry>, fname: string): (r: Option<Entry>)
    ensures r.None? <==> fname !in Keys(entries)
    ensures r.Some? ==> exists i :: 0 <= i < |entries| && entries[i] == r.value && r.value.fname == fname
  {
    if entries == [] then None
    else if entries[0].fname == fname then Some(entries[0])
    else Lookup(entries[1..], fname)
  }

  /** `[f["file_id"] for f in uploaded_files.values()]`. */
  function DriveFileIds(entries: seq<Entry>): (ids: seq<FileId>)
    ensures |ids| == |entries|
    ensures forall i :: 0 <= i < |entries| ==> ids[i] == entries[i].fileId
  {
    if entries == [] then [] else DriveFileIds(entries[..|entries| - 1]) + [entries[|entries| - 1].fileId]
  }

  /** The calls of the uploads recorded in `uploaded_files`, in insertion order. */
  function UploadLog(entries: seq<Entry>): (calls: seq<Call>)
    ensures forall c :: c in calls ==> c.CreateFile? || c.GetFile?
  {
    if entries == [] then []
    else UploadLog(entries[..|entries| - 1]) + UploadCalls(entries[|entries| - 1].fname, entries[|entries| - 1].fileId)
  }

  /**
   * Replacing the image `elementId` with the local file `fname`: the file is uploaded
   * unless `uploaded_files` already holds it, and the request uses its link.
   */
  function Replace(st: BuildState, elementId: Option<string>, fname: string): (r: BuildState)
    ensures |r.requests| == |st.requests| + 1 && r.requests[..|st.requests|] == st.requests
    ensures r.requests[|st.requests|].imageObjectId == elementId
    ensures r.requests[|st.requests|].imageReplaceMethod == CenterCrop
    ensures fname in Keys(st.uploaded) ==> r.uploaded == st.uploaded && r.nextId == st.nextId
    ensures fname !in Keys(st.uploaded) ==>
      r.uploaded == st.uploaded + [Entry(fname, st.nextId, WebContentLink(st.nextId))] && r.nextId == st.nextId + 1
  {
    match Lookup(st.uploaded, fname)
    case Some(e) => st.(requests := st.requests + [ReplaceImage(elementId, CenterCrop, e.remoteUrl)])
    case None =>
      var id := st.nextId;
      var url := WebContentLink(id);
      BuildState(st.requests + [ReplaceImage(elementId, CenterCrop, url)],
                 st.uploaded + [Entry(fname, id, url)], id + 1)
  }

  /**
   * The request `Replace` appends carries the link (`remote_url`) that `uploaded_files`
   * holds for the path afterwards, whether the path was uploaded just now or before.
   */
  lemma ReplaceLink(st: BuildState, elementId: Option<string>, fname: string)
    ensures Lookup(Replace(st, elementId, fname).uploaded, fname).Some?
    ensures Replace(st, elementId, fname).requests[|st.requests|].url
      == Lookup(Replace(st, elementId, fname).uploaded, fname).value.remoteUrl
  {
    if fname !in Keys(st.uploaded) {
      LookupAppendNew(st.uploaded, Entry(fname, st.nextId, WebContentLink(st.nextId)));
    }
  }

  /** What `main` does with one image element. */
  function Step(c: Candidate, directory: string, existing: set<string>, st: BuildState): (r: BuildState)
    ensures Target(c, directory, existing).None? ==> r == st
    ensures Target(c, directory, existing).Some? ==>
      |r.requests| == |st.requests| + 1 && r.requests[..|st.requests|] == st.requests
      && r.requests[|st.requests|].imageObjectId == c.elementId
      && r.requests[|st.requests|].imageReplaceMethod == CenterCrop
    ensures |st.uploaded| <= |r.uploaded| <= |st.uploaded| + 1 && r.uploaded[..|st.uploaded|] == st.uploaded
  {
    match Target(c, directory, existing)
    case None => st
    case Some(fname) => Replace(st, c.elementId, fname)
  }

  /** `Step` over the elements, one after the other. */
  function Build(els: seq<Candidate>, directory: string, existing: set<string>, st: BuildState): (r: BuildState)
    ensures |st.uploaded| <= |r.uploaded| && r.uploaded[..|st.uploaded|] == st.uploaded
    ensures |st.requests| <= |r.requests| && r.requests[..|st.requests|] == st.requests
    decreases |els|
  {
    if els == [] then st
    else Build(els[1..], directory, existing, Step(els[0], directory, existing, st))
  }

  lemma SliceCons<T>(s: seq<T>, i: nat)
    requires i < |s|
    ensures s[i..] == [s[i]] + s[i + 1..]
  {
  }

  lemma AppendAssoc<T>(a: seq<T>, b: seq<T>, c: seq<T>)
    ensures a + (b + c) == a + b + c
  {
  }

  /** The state `main` starts from, when Drive's next id is `start`. */
  function Initial(start: FileId): BuildState {
    BuildState([], [], start)
  }

  /** The state `main` reaches after all image elements of the presentation. */
  function Final(slides: seq<Slide>, directory: string, existing: set<string>, start: FileId): BuildState {
    Build(Candidates(Images(slides)), directory, existing, Initial(start))
  }

  /**
   * Every call `main` sends, in order, when the walk ends in `st`: the uploads, the
   * permissions, the commit and the cleanup.
   */
  function RunLog(presentationId: string, st: BuildState): seq<Call> {
    var ids := DriveFileIds(st.uploaded);
    UploadLog(st.uploaded)
    + (if ids != [] && st.requests != [] then PermissionCalls(ids) else [])
    + (if st.requests != [] then [Call.BatchUpdate(presentationId, st.requests)] else [])
    + DeleteCalls(ids)
  }

  /**
   * The part of `main`'s loop body that replaces the image `elementId` with the local
   * file `fname`: upload the file unless `uploadedFiles` already holds it, and append
   * the request.
   */
  method ReplaceWith(gapi: Gapi, elementId: Option<string>, fname: string,
                     requests: seq<Request>, uploadedFiles: seq<Entry>, ghost log0: seq<Call>)
    returns (requests': seq<Request>, uploadedFiles': seq<Entry>)
    requires gapi.log == log0 + UploadLog(uploadedFiles)
    modifies gapi
    ensures BuildState(requests', uploadedFiles', gapi.issued)
      == Replace(BuildState(requests, uploadedFiles, old(gapi.issued)), elementId, fname)
    ensures gapi.log == log0 + UploadLog(uploadedFiles')
  {
    uploadedFiles' := uploadedFiles;
    var remoteUrl: Url;
    match Lookup(uploadedFiles, fname) {
      case Some(e) =>
        remoteUrl := e.remoteUrl;
      case None =>
        var fileId: FileId;
        fileId, remoteUrl := gapi.UploadImage(fname);
        uploadedFiles' := uploadedFiles + [Entry(fname, fileId, remoteUrl)];
        assert uploadedFiles'[..|uploadedFiles'| - 1] == uploadedFiles;
    }
    requests' := requests + [ReplaceImage(elementId, CenterCrop, remoteUrl)];
  }

  /**
   * The body of `main`'s loop over the images of a slide: the element is skipped
   * unless `Target` names a file for it, and replaced with that file otherwise.
   */
  method HandleImage(gapi: Gapi, image: PageElement, directory: string, existing: set<string>,
                     requests: seq<Request>, uploadedFiles: seq<Entry>, ghost log0: seq<Call>)
    returns (requests': seq<Request>, uploadedFiles': seq<Entry>)
    requires gapi.log == log0 + UploadLog(uploadedFiles)
    modifies gapi
    ensures BuildState(requests', uploadedFiles', gapi.issued)
      == Step(Examine(image), directory, existing, BuildState(requests, uploadedFiles, old(gapi.issued)))
    ensures gapi.log == log0 + UploadLog(uploadedFiles')
  {
    var files := FindAll(Description(image));
    assert Examine(image).files == files;
    if |files| != 1 {
      return requests, uploadedFiles;
    }
    var fname := Join(directory, files[0]);
    if fname !in existing {
      return requests, uploadedFiles;
    }
    assert Target(Examine(image), directory, existing) == Some(fname);
    requests', uploadedFiles' := ReplaceWith(gapi, image.objectId, fname, requests, uploadedFiles, log0);
  }

  /** `Candidates` of two lists of elements, one after the other. */
  lemma {:induction false} CandidatesAppend(a: seq<PageElement>, b: seq<PageElement>)
    ensures Candidates(a + b) == Candidates(a) + Candidates(b)
  {
    if a == [] {
      assert a + b == b;
    } else {
      assert (a + b)[0] == a[0] && (a + b)[1..] == a[1..] + b;
      CandidatesAppend(a[1..], b);
    }
  }

  /** Walking two lists of elements is walking the first, then the second. */
  lemma {:induction false} BuildAppend(a: seq<Candidate>, b: seq<Candidate>, directory: string, existing: set<string>, st: BuildState)
    ensures Build(a + b, directory, existing, st)
      == Build(b, directory, existing, Build(a, directory, existing, st))
    decreases |a|
  {
    if a == [] {
      assert a + b == b;
    } else {
      assert (a + b)[0] == a[0] && (a + b)[1..] == a[1..] + b;
      BuildAppend(a[1..], b, directory, existing, Step(a[0], directory, existing, st));
    }
  }

  /** `main`'s inner loop: the image elements of one slide, one after the other. */
  method HandleImages(gapi: Gapi, images: seq<PageElement>, directory: string, existing: set<string>,
                      requests: seq<Request>, uploadedFiles: seq<Entry>, ghost log0: seq<Call>)
    returns (requests': seq<Request>, uploadedFiles': seq<Entry>)
    requires gapi.log == log0 + UploadLog(uploadedFiles)
    modifies gapi
    ensures BuildState(requests', uploadedFiles', gapi.issued)
      == Build(Candidates(images), directory, existing, BuildState(requests, uploadedFiles, old(gapi.issued)))
    ensures gapi.log == log0 + UploadLog(uploadedFiles')
  {
    requests', uploadedFiles' := requests, uploadedFiles;
    ghost var final := Build(Candidates(images), directory, existing, BuildState(requests, uploadedFiles, gapi.issued));
    for ii := 0 to |images|
      invariant Build(Candidates(images[ii..]), directory, existing, BuildState(requests', uploadedFiles', gapi.issued)) == final
      invariant gapi.log == log0 + UploadLog(uploadedFiles')
    {
      assert images[ii..][0] == images[ii] && images[ii..][1..] == images[ii + 1..];
      requests', uploadedFiles' := HandleImage(gapi, images[ii], directory, existing, requests', uploadedFiles', log0);
    }
    assert images[|images|..] == [];
  }

  /** The image elements of the slides from `si` on are those of slide `si`, then the rest. */
  lemma ImagesFrom(slides: seq<Slide>, si: nat, directory: string, existing: set<string>, st: BuildState)
    requires si < |slides|
    ensures Build(Candidates(Images(slides[si..])), directory, existing, st)
      == Build(Candidates(Images(slides[si + 1..])), directory, existing,
               Build(Candidates(SlideImages(slides[si])), directory, existing, st))
  {
    assert slides[si..][0] == slides[si] && slides[si..][1..] == slides[si + 1..];
    CandidatesAppend(SlideImages(slides[si]), Images(slides[si + 1..]));
    BuildAppend(Candidates(SlideImages(slides[si])), Candidates(Images(slides[si + 1..])), directory, existing, st);
  }

  /**
   * The first half of `main`: the walk over the slides and their image elements that
   * uploads the files and collects the replacement requests.
   */
  method CollectRequests(gapi: Gapi, slides: seq<Slide>, directory: string, existing: set<string>)
    returns (requests: seq<Request>, uploadedFiles: seq<Entry>)
    modifies gapi
    ensures BuildState(requests, uploadedFiles, gapi.issued) == Final(slides, directory, existing, old(gapi.issued))
    ensures gapi.log == old(gapi.log) + UploadLog(uploadedFiles)
  {
    requests := [];
    uploadedFiles := [];
    ghost var final := Final(slides, directory, existing, gapi.issued);
    ghost var log0 := gapi.log;
    for si := 0 to |slides|
      invariant Build(Candidates(Images(slides[si..])), directory, existing, BuildState(requests, uploadedFiles, gapi.issued)) == final
      invariant gapi.log == log0 + UploadLog(uploadedFiles)
    {
      ImagesFrom(slides, si, directory, existing, BuildState(requests, uploadedFiles, gapi.issued));
      requests, uploadedFiles := HandleImages(gapi, SlideImages(slides[si]), directory, existing, requests, uploadedFiles, log0);
    }
    assert slides[|slides|..] == [];
  }

  /**
   * `main(presentation_id, directory)` on the slides of the presentation, with
   * `existing` the local files `os.path.isfile` reports: collect the requests, make
   * the uploads public when there is something to commit, commit, and delete the uploads.
   */
  method Run(gapi: Gapi, presentationId: string, slides: seq<Slide>, directory: string, existing: set<string>)
    modifies gapi
    ensures gapi.log == old(gapi.log) + RunLog(presentationId, Final(slides, directory, existing, old(gapi.issued)))
    ensures gapi.issued == Final(slides, directory, existing, old(gapi.issued)).nextId
  {
    ghost var log0 := gapi.log;
    var requests, uploadedFiles := CollectRequests(gapi, slides, directory, existing);
    var driveFileIds := DriveFileIds(uploadedFiles);
    ghost var publish := if driveFileIds != [] && requests != [] then PermissionCalls(driveFileIds) else [];
    ghost var commit := if requests != [] then [Call.BatchUpdate(presentationId, requests)] else [];
    if driveFileIds != [] && requests != [] {
      gapi.MakePublic(driveFileIds);
    }
    AppendAssoc(log0, UploadLog(uploadedFiles), publish);
    if requests != [] {
      gapi.BatchUpdate(presentationId, requests);
    }
    AppendAssoc(log0, UploadLog(uploadedFiles) + publish, commit);
    gapi.RemoveFiles(driveFileIds);
    AppendAssoc(log0, UploadLog(uploadedFiles) + publish + commit, DeleteCalls(driveFileIds));
  }

  /*
   * What the walk over the images promises, stated against independent definitions:
   * `Hits` lists the image elements that get replaced and their files, and
   * `FirstOccurrences` the distinct files among them in order of first appearance.
   */

  /** The image elements that are replaced, each with its file, in order. */
  function Hits(els: seq<Candidate>, directory: string, existing: set<string>): (r: seq<Hit>)
    ensures |r| <= |els|
    ensures forall h :: h in r ==> h.fname in existing
  {
    if els == [] then []
    else
      (match Target(els[0], directory, existing)
       case Some(fname) => [Hit(els[0].elementId, fname)]
       case None => [])
      + Hits(els[1..], directory, existing)
  }

  function Fnames(hits: seq<Hit>): (r: seq<string>)
    ensures |r| == |hits|
    ensures forall i :: 0 <= i < |hits| ==> r[i] == hits[i].fname
  {
    if hits == [] then [] else [hits[0].fname] + Fnames(hits[1..])
  }

  /** The elements of `xs` not in `seen`, each once, in order of first appearance. */
  function FirstOccurrences(xs: seq<string>, seen: seq<string>): (r: seq<string>)
    ensures NoDup(r)
    ensures forall x :: x in r <==> x in xs && x !in seen
    ensures |r| <= |xs|
  {
    if xs == [] then []
    else if xs[0] in seen then FirstOccurrences(xs[1..], seen)
    else
      var rest := FirstOccurrences(xs[1..], seen + [xs[0]]);
      assert xs[0] !in rest;
      [xs[0]] + rest
  }

  /**
   * The shape of `uploaded_files`: the i-th upload of the run got the i-th fresh id
   * and that file's link, and no path was uploaded twice.
   */
  predicate Valid(st: BuildState, start: FileId) {
    st.nextId == start + |st.uploaded|
    && (forall i :: 0 <= i < |st.uploaded| ==>
          st.uploaded[i].fileId == start + i && st.uploaded[i].remoteUrl == WebContentLink(start + i))
    && NoDup(Keys(st.uploaded))
  }

  /** The request for a hit replaces its element, center-cropped, with the link of its upload. */
  predicate RequestFor(req: Request, hit: Hit, uploaded: seq<Entry>) {
    Lookup(uploaded, hit.fname).Some?
    && req == ReplaceImage(hit.elementId, CenterCrop, Lookup(uploaded, hit.fname).value.remoteUrl)
  }

  lemma KeysAppend(entries: seq<Entry>, e: Entry)
    ensures Keys(entries + [e]) == Keys(entries) + [e.fname]
  {
    assert forall i :: 0 <= i < |entries| ==> (entries + [e])[i] == entries[i];
  }

  /** Entries appended to `uploaded_files` do not change what an existing key maps to. */
  lemma {:induction false} LookupPrefix(a: seq<Entry>, b: seq<Entry>, fname: string)
    requires fname in Keys(a)
    ensures Lookup(a + b, fname) == Lookup(a, fname)
  {
    assert (a + b)[0] == a[0];
    if a[0].fname != fname {
      assert (a + b)[1..] == a[1..] + b;
      LookupPrefix(a[1..], b, fname);
    }
  }

  /** A key appended to `uploaded_files` maps to its own entry. */
  lemma {:induction false} LookupAppendNew(a: seq<Entry>, e: Entry)
    requires e.fname !in Keys(a)
    ensures Lookup(a + [e], e.fname) == Some(e)
  {
    if a == [] {
      assert a + [e] == [e];
    } else {
      assert (a + [e])[0] == a[0] && (a + [e])[1..] == a[1..] + [e];
      LookupAppendNew(a[1..], e);
    }
  }

  /** Appending the next fresh upload keeps `uploaded_files` in shape. */
  lemma ValidAppend(st: BuildState, start: FileId, fname: string)
    requires Valid(st, start) && fname !in Keys(st.uploaded)
    ensures Valid(BuildState(st.requests, st.uploaded + [Entry(fname, st.nextId, WebContentLink(st.nextId))],
                             st.nextId + 1), start)
  {
    var e := Entry(fname, st.nextId, WebContentLink(st.nextId));
    var u := st.uploaded + [e];
    KeysAppend(st.uploaded, e);
    assert forall i :: 0 <= i < |st.uploaded| ==> u[i] == st.uploaded[i];
    assert u[|st.uploaded|] == e;
  }

  /** One step keeps `uploaded_files` in shape. */
  lemma StepValid(el: Candidate, directory: string, existing: set<string>, st: BuildState, start: FileId)
    requires Valid(st, start)
    ensures Valid(Step(el, directory, existing, st), start)
  {
    match Target(el, directory, existing)
    case None =>
    case Some(fname) =>
      var r := Replace(st, el.elementId, fname);
      if fname !in Keys(st.uploaded) {
        ValidAppend(st, start, fname);
        assert r.uploaded == st.uploaded + [Entry(fname, st.nextId, WebContentLink(st.nextId))];
      } else {
        assert r.uploaded == st.uploaded && r.nextId == st.nextId;
      }
  }

  /** The whole walk keeps `uploaded_files` in shape. */
  lemma {:induction false} BuildValid(els: seq<Candidate>, directory: string, existing: set<string>, st: BuildState, start: FileId)
    requires Valid(st, start)
    ensures Valid(Build(els, directory, existing, st), start)
    decreases |els|
  {
    if els != [] {
      StepValid(els[0], directory, existing, st, start);
      BuildValid(els[1..], directory, existing, Step(els[0], directory, existing, st), start);
    }
  }

  lemma FirstOccurrencesCons(x: string, xs: seq<string>, seen: seq<string>)
    ensures FirstOccurrences([x] + xs, seen)
      == if x in seen then FirstOccurrences(xs, seen) else [x] + FirstOccurrences(xs, seen + [x])
  {
    assert ([x] + xs)[0] == x && ([x] + xs)[1..] == xs;
  }

  /** One step adds the element's file to the keys of `uploaded_files` unless it is there already. */
  lemma StepKeys(c: Candidate, directory: string, existing: set<string>, st: BuildState)
    ensures Target(c, directory, existing).Some? && Target(c, directory, existing).value !in Keys(st.uploaded) ==>
      Keys(Step(c, directory, existing, st).uploaded) == Keys(st.uploaded) + [Target(c, directory, existing).value]
    ensures (Target(c, directory, existing).None? || Target(c, directory, existing).value in Keys(st.uploaded)) ==>
      Step(c, directory, existing, st).uploaded == st.uploaded
  {
    if Target(c, directory, existing).Some? {
      var fname := Target(c, directory, existing).value;
      KeysAppend(st.uploaded, Entry(fname, st.nextId, WebContentLink(st.nextId)));
    }
  }

  lemma HitsCons(els: seq<Candidate>, directory: string, existing: set<string>)
    requires els != []
    ensures Target(els[0], directory, existing).None? ==>
      Fnames(Hits(els, directory, existing)) == Fnames(Hits(els[1..], directory, existing))
    ensures Target(els[0], directory, existing).Some? ==>
      Fnames(Hits(els, directory, existing))
      == [Target(els[0], directory, existing).value] + Fnames(Hits(els[1..], directory, existing))
  {
    var h := Hits(els, directory, existing);
    if Target(els[0], directory, existing).Some? {
      assert h[1..] == Hits(els[1..], directory, existing);
    }
  }

  /**
   * The keys `uploaded_files` gains over the walk are the files of the replaced
   * elements, each once, in order of first appearance: a file is uploaded the first
   * time an element names it and reused after that.
   */
  lemma {:induction false} BuildUploads(els: seq<Candidate>, directory: string, existing: set<string>, st: BuildState)
    ensures Keys(Build(els, directory, existing, st).uploaded)
      == Keys(st.uploaded) + FirstOccurrences(Fnames(Hits(els, directory, existing)), Keys(st.uploaded))
    decreases |els|
  {
    var keys := Keys(st.uploaded);
    if els == [] {
      assert keys + [] == keys;
    } else {
      var st' := Step(els[0], directory, existing, st);
      var rest := Fnames(Hits(els[1..], directory, existing));
      BuildUploads(els[1..], directory, existing, st');
      HitsCons(els, directory, existing);
      StepKeys(els[0], directory, existing, st);
      if Target(els[0], directory, existing).Some? {
        var fname := Target(els[0], directory, existing).value;
        FirstOccurrencesCons(fname, rest, keys);
        if fname !in keys {
          AppendAssoc(keys, [fname], FirstOccurrences(rest, keys + [fname]));
        }
      }
    }
  }

  /** Each request replaces the element of the hit at the same position. */
  predicate RequestsFor(reqs: seq<Request>, hits: seq<Hit>, uploaded: seq<Entry>) {
    |reqs| == |hits| && forall i :: 0 <= i < |hits| ==> RequestFor(reqs[i], hits[i], uploaded)
  }

  lemma RequestsForCons(q: Request, qs: seq<Request>, h: Hit, hs: seq<Hit>, uploaded: seq<Entry>)
    requires RequestFor(q, h, uploaded) && RequestsFor(qs, hs, uploaded)
    ensures RequestsFor([q] + qs, [h] + hs, uploaded)
  {
    forall i | 0 <= i < |hs| + 1
      ensures RequestFor(([q] + qs)[i], ([h] + hs)[i], uploaded)
    {
      if i > 0 {
        assert ([q] + qs)[i] == qs[i - 1] && ([h] + hs)[i] == hs[i - 1];
      }
    }
  }

  /** A request stays correct when `uploaded_files` grows. */
  lemma RequestForExtends(q: Request, h: Hit, a: seq<Entry>, b: seq<Entry>)
    requires RequestFor(q, h, a)
    requires |a| <= |b| && b[..|a|] == a
    ensures RequestFor(q, h, b)
  {
    assert b == a + b[|a|..];
    LookupPrefix(a, b[|a|..], h.fname);
  }

  /** The request one step adds is the one for its hit. */
  lemma StepRequest(c: Candidate, directory: string, existing: set<string>, st: BuildState)
    requires Target(c, directory, existing).Some?
    ensures RequestFor(Step(c, directory, existing, st).requests[|st.requests|],
                       Hit(c.elementId, Target(c, directory, existing).value),
                       Step(c, directory, existing, st).uploaded)
  {
    var fname := Target(c, directory, existing).value;
    var e := Entry(fname, st.nextId, WebContentLink(st.nextId));
    if fname !in Keys(st.uploaded) {
      KeysAppend(st.uploaded, e);
      LookupAppendNew(st.uploaded, e);
    }
  }

  /** A correct request in front of correct requests, with `uploaded_files` grown since. */
  lemma RequestsForPrepend(reqs: seq<Request>, k: nat, h: Hit, hs: seq<Hit>, mid: seq<Entry>, uploaded: seq<Entry>)
    requires k < |reqs| && RequestFor(reqs[k], h, mid)
    requires |mid| <= |uploaded| && uploaded[..|mid|] == mid
    requires RequestsFor(reqs[k + 1..], hs, uploaded)
    ensures RequestsFor(reqs[k..], [h] + hs, uploaded)
  {
    RequestForExtends(reqs[k], h, mid, uploaded);
    SliceCons(reqs, k);
    RequestsForCons(reqs[k], reqs[k + 1..], h, hs, uploaded);
  }

  /** Walking a list of elements is one step, then the walk over the rest. */
  lemma BuildCons(els: seq<Candidate>, directory: string, existing: set<string>, st: BuildState)
    requires els != []
    ensures Build(els, directory, existing, st)
      == Build(els[1..], directory, existing, Step(els[0], directory, existing, st))
  {
  }

  /** A replaced first element is the first hit. */
  lemma HitsReplaced(els: seq<Candidate>, directory: string, existing: set<string>)
    requires els != [] && Target(els[0], directory, existing).Some?
    ensures Hits(els, directory, existing)
      == [Hit(els[0].elementId, Target(els[0], directory, existing).value)] + Hits(els[1..], directory, existing)
  {
  }

  /** The step case of `BuildRequests` for an element that is replaced. */
  lemma BuildRequestsReplaced(els: seq<Candidate>, directory: string, existing: set<string>, st: BuildState)
    requires els != [] && Target(els[0], directory, existing).Some?
    requires RequestsFor(
      Build(els[1..], directory, existing, Step(els[0], directory, existing, st)).requests[|st.requests| + 1..],
      Hits(els[1..], directory, existing),
      Build(els[1..], directory, existing, Step(els[0], directory, existing, st)).uploaded)
    ensures RequestsFor(Build(els, directory, existing, st).requests[|st.requests|..],
                        Hits(els, directory, existing), Build(els, directory, existing, st).uploaded)
  {
    var st' := Step(els[0], directory, existing, st);
    var r := Build(els[1..], directory, existing, st');
    BuildCons(els, directory, existing, st);
    HitsReplaced(els, directory, existing);
    var h := Hit(els[0].elementId, Target(els[0], directory, existing).value);
    StepRequest(els[0], directory, existing, st);
    assert r.requests[|st.requests|] == st'.requests[|st.requests|];
    RequestsForPrepend(r.requests, |st.requests|, h, Hits(els[1..], directory, existing), st'.uploaded, r.uploaded);
  }

  /**
   * The walk adds one request per replaced element, in order, and each replaces the
   * element, center-cropped, with the link of the upload of its file.
   */
  lemma {:induction false} BuildRequests(els: seq<Candidate>, directory: string, existing: set<string>, st: BuildState)
    ensures RequestsFor(Build(els, directory, existing, st).requests[|st.requests|..],
                        Hits(els, directory, existing), Build(els, directory, existing, st).uploaded)
    decreases |els|
  {
    if els == [] {
      assert st.requests[|st.requests|..] == [];
    } else {
      var st' := Step(els[0], directory, existing, st);
      BuildRequests(els[1..], directory, existing, st');
      if Target(els[0], directory, existing).Some? {
        BuildRequestsReplaced(els, directory, existing, st);
      }
    }
  }
}
