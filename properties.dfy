/**
 * What a run of slidder's `main` promises, stated over the whole presentation:
 * which image elements are replaced and with what, which files are uploaded,
 * and which calls reach Drive and Slides.
 */
module Properties {
  import opened Wrappers
  import opened Annotation
  import opened GoogleApi
  import opened Slidder

  /** The image elements a run replaces, each with its local file, in document order. */
  function Replaced(slides: seq<Slide>, directory: string, existing: set<string>): seq<Hit> {
    Hits(Candidates(Images(slides)), directory, existing)
  }

  /** An element whose description holds exactly one annotation of an existing file is replaced with it. */
  lemma AnnotatedImageIsTarget(el: PageElement, pre: string, name: string, x: nat, post: string,
                               directory: string, existing: set<string>)
    requires x < |Extensions| && NoSpace(name)
    requires post == [] || IsSpace(post[0])
    requires el.description == Some(pre + Annotated(name, x) + post)
    requires forall q :: MarkerAt(pre + Annotated(name, x) + post, q) ==> q == |pre|
    requires Join(directory, name + "." + Extensions[x]) in existing
    ensures Target(Examine(el), directory, existing) == Some(Join(directory, name + "." + Extensions[x]))
  {
    SingleAnnotation(pre, name, x, post);
  }

  /** An element whose annotated file does not exist is left alone. */
  lemma MissingFileIsSkipped(el: PageElement, pre: string, name: string, x: nat, post: string,
                             directory: string, existing: set<string>)
    requires x < |Extensions| && NoSpace(name)
    requires post == [] || IsSpace(post[0])
    requires el.description == Some(pre + Annotated(name, x) + post)
    requires forall q :: MarkerAt(pre + Annotated(name, x) + post, q) ==> q == |pre|
    requires Join(directory, name + "." + Extensions[x]) !in existing
    ensures Target(Examine(el), directory, existing).None?
  {
    SingleAnnotation(pre, name, x, post);
  }

  /** An element whose description holds two annotations is left alone. */
  lemma TwoAnnotationsAreSkipped(el: PageElement, i1: nat, name1: string, x1: nat, i2: nat, name2: string, x2: nat,
                                 directory: string, existing: set<string>)
    requires el.description.Some?
    requires x1 < |Extensions| && x2 < |Extensions|
    requires NoSpace(name1) && NoSpace(name2)
    requires i1 + |Annotated(name1, x1)| < i2 && i2 + |Annotated(name2, x2)| <= |el.description.value|
    requires el.description.value[i1..i1 + |Annotated(name1, x1)|] == Annotated(name1, x1)
    requires IsSpace(el.description.value[i1 + |Annotated(name1, x1)|])
    requires el.description.value[i2..i2 + |Annotated(name2, x2)|] == Annotated(name2, x2)
    requires i2 + |Annotated(name2, x2)| == |el.description.value| || IsSpace(el.description.value[i2 + |Annotated(name2, x2)|])
    requires forall q :: MarkerAt(el.description.value, q) ==> q == i1 || q == i2
    ensures Target(Examine(el), directory, existing).None?
  {
    TwoAnnotations(el.description.value, i1, name1, x1, i2, name2, x2);
  }

  /** An element without a description, or whose description has no marker, is left alone. */
  lemma UnannotatedImageIsSkipped(el: PageElement, directory: string, existing: set<string>)
    requires forall q :: !MarkerAt(Description(el), q)
    ensures Target(Examine(el), directory, existing).None?
  {
    NoAnnotation(Description(el));
  }

  /**
   * The replaced elements are exactly the examined elements that have a target,
   * each with that target.
   */
  lemma {:induction false} HitsAreTargets(els: seq<PageElement>, directory: string, existing: set<string>)
    ensures forall h :: h in Hits(Candidates(els), directory, existing) <==>
      exists k :: 0 <= k < |els| && els[k].objectId == h.elementId
                  && Target(Examine(els[k]), directory, existing) == Some(h.fname)
  {
    if els != [] {
      HitsAreTargets(els[1..], directory, existing);
      var cs := Candidates(els);
      assert cs[0] == Examine(els[0]) && cs[1..] == Candidates(els[1..]);
      forall h
        ensures h in Hits(cs, directory, existing) <==>
          exists k :: 0 <= k < |els| && els[k].objectId == h.elementId
                      && Target(Examine(els[k]), directory, existing) == Some(h.fname)
      {
        if h in Hits(cs[1..], directory, existing) {
          var k :| 0 <= k < |els[1..]| && els[1..][k].objectId == h.elementId
                   && Target(Examine(els[1..][k]), directory, existing) == Some(h.fname);
          assert els[k + 1] == els[1..][k];
        }
        if exists k :: 0 <= k < |els| && els[k].objectId == h.elementId
                       && Target(Examine(els[k]), directory, existing) == Some(h.fname) {
          var k :| 0 <= k < |els| && els[k].objectId == h.elementId
                   && Target(Examine(els[k]), directory, existing) == Some(h.fname);
          if k > 0 {
            assert els[1..][k - 1] == els[k];
          }
        }
      }
    }
  }

  /**
   * One request per replaced element, in document order: it replaces that element,
   * center-cropped, with the link of the upload of its file.
   */
  lemma RequestsMatchReplaced(slides: seq<Slide>, directory: string, existing: set<string>, start: FileId)
    ensures RequestsFor(Final(slides, directory, existing, start).requests, Replaced(slides, directory, existing),
                        Final(slides, directory, existing, start).uploaded)
  {
    var fin := Final(slides, directory, existing, start);
    BuildRequests(Candidates(Images(slides)), directory, existing, Initial(start));
    assert fin.requests[0..] == fin.requests;
  }

  /**
   * The files uploaded are the files of the replaced elements, each once, in order of
   * first appearance.
   */
  lemma UploadsAreFirstOccurrences(slides: seq<Slide>, directory: string, existing: set<string>, start: FileId)
    ensures Keys(Final(slides, directory, existing, start).uploaded)
      == FirstOccurrences(Fnames(Replaced(slides, directory, existing)), [])
  {
    var fnames := Fnames(Replaced(slides, directory, existing));
    BuildUploads(Candidates(Images(slides)), directory, existing, Initial(start));
    assert [] + FirstOccurrences(fnames, []) == FirstOccurrences(fnames, []);
  }

  /** A file is uploaded exactly when some replaced element names it, and no file twice. */
  lemma UploadsAreDistinctTargets(slides: seq<Slide>, directory: string, existing: set<string>, start: FileId)
    ensures NoDup(Keys(Final(slides, directory, existing, start).uploaded))
    ensures forall f :: (f in Keys(Final(slides, directory, existing, start).uploaded)
      <==> exists h :: h in Replaced(slides, directory, existing) && h.fname == f)
  {
    var hits := Replaced(slides, directory, existing);
    var fnames := Fnames(hits);
    UploadsAreFirstOccurrences(slides, directory, existing, start);
    forall f | f in fnames
      ensures exists h :: h in hits && h.fname == f
    {
      var i :| 0 <= i < |fnames| && fnames[i] == f;
      assert hits[i] in hits;
    }
    forall h | h in hits
      ensures h.fname in fnames
    {
      var i :| 0 <= i < |hits| && hits[i] == h;
      assert fnames[i] == h.fname;
    }
  }

  lemma EntriesNamedByHits(uploaded: seq<Entry>, hits: seq<Hit>, existing: set<string>)
    requires forall f :: f in Keys(uploaded) ==> exists h :: h in hits && h.fname == f
    requires forall h :: h in hits ==> h.fname in existing
    ensures forall e :: e in uploaded ==> e.fname in existing
  {
    forall e | e in uploaded
      ensures e.fname in existing
    {
      var i :| 0 <= i < |uploaded| && uploaded[i] == e;
      assert Keys(uploaded)[i] == e.fname && Keys(uploaded)[i] in Keys(uploaded);
      var h :| h in hits && h.fname == e.fname;
    }
  }

  /** Only existing local files are uploaded. */
  lemma UploadsExist(slides: seq<Slide>, directory: string, existing: set<string>, start: FileId)
    ensures forall e :: e in Final(slides, directory, existing, start).uploaded ==> e.fname in existing
  {
    UploadsAreDistinctTargets(slides, directory, existing, start);
    EntriesNamedByHits(Final(slides, directory, existing, start).uploaded, Replaced(slides, directory, existing), existing);
  }

  /** There are no more uploads than requests. */
  lemma UploadsAtMostRequests(slides: seq<Slide>, directory: string, existing: set<string>, start: FileId)
    ensures |Final(slides, directory, existing, start).uploaded| <= |Final(slides, directory, existing, start).requests|
  {
    UploadsAreFirstOccurrences(slides, directory, existing, start);
    RequestsMatchReplaced(slides, directory, existing, start);
  }

  /** The state after the walk: the i-th upload got the i-th fresh id and that file's link. */
  lemma FinalValid(slides: seq<Slide>, directory: string, existing: set<string>, start: FileId)
    ensures Valid(Final(slides, directory, existing, start), start)
  {
    BuildValid(Candidates(Images(slides)), directory, existing, Initial(start), start);
  }

  /** Two replaced elements get the same link exactly when they name the same file. */
  lemma SameFileSameUrl(slides: seq<Slide>, directory: string, existing: set<string>, start: FileId, i: nat, j: nat)
    requires i < |Replaced(slides, directory, existing)| && j < |Replaced(slides, directory, existing)|
    ensures |Final(slides, directory, existing, start).requests| == |Replaced(slides, directory, existing)|
    ensures Replaced(slides, directory, existing)[i].fname == Replaced(slides, directory, existing)[j].fname
      <==> Final(slides, directory, existing, start).requests[i].url == Final(slides, directory, existing, start).requests[j].url
  {
    var fin := Final(slides, directory, existing, start);
    var hits := Replaced(slides, directory, existing);
    RequestsMatchReplaced(slides, directory, existing, start);
    FinalValid(slides, directory, existing, start);
    assert RequestFor(fin.requests[i], hits[i], fin.uploaded) && RequestFor(fin.requests[j], hits[j], fin.uploaded);
    var ei := Lookup(fin.uploaded, hits[i].fname).value;
    var ej := Lookup(fin.uploaded, hits[j].fname).value;
    var ki :| 0 <= ki < |fin.uploaded| && fin.uploaded[ki] == ei && ei.fname == hits[i].fname;
    var kj :| 0 <= kj < |fin.uploaded| && fin.uploaded[kj] == ej && ej.fname == hits[j].fname;
    assert ei.remoteUrl == WebContentLink(start + ki) && ej.remoteUrl == WebContentLink(start + kj);
  }

  /** The uploads create the recorded files, in insertion order, and delete none. */
  lemma {:induction false} UploadLogFiles(entries: seq<Entry>)
    ensures CreatedIds(UploadLog(entries)) == DriveFileIds(entries)
    ensures DeletedIds(UploadLog(entries)) == []
  {
    if entries != [] {
      var init, last := entries[..|entries| - 1], entries[|entries| - 1];
      var calls := UploadCalls(last.fname, last.fileId);
      UploadLogFiles(init);
      CreatedIdsAppend(UploadLog(init), calls);
      DeletedIdsAppend(UploadLog(init), calls);
      assert calls[1..][1..] == [];
      assert CreatedIds(calls) == [last.fileId] && DeletedIds(calls) == [];
    }
  }

  /** Every file the uploads create is a recorded local path, uploaded under its hash. */
  lemma {:induction false} UploadLogMedia(entries: seq<Entry>)
    ensures forall c :: c in UploadLog(entries) && c.CreateFile? ==>
      c.name == FileHash(c.media) && exists e :: e in entries && c.media == e.fname && c.id == e.fileId
  {
    if entries != [] {
      var init, last := entries[..|entries| - 1], entries[|entries| - 1];
      UploadLogMedia(init);
      forall c | c in UploadLog(entries) && c.CreateFile?
        ensures c.name == FileHash(c.media) && exists e :: e in entries && c.media == e.fname && c.id == e.fileId
      {
        if c in UploadLog(init) {
          var e :| e in init && c.media == e.fname && c.id == e.fileId;
          assert e in entries;
        } else {
          assert last in entries;
        }
      }
    }
  }

  lemma FourPhasesFiles(ups: seq<Call>, publish: seq<Call>, commit: seq<Call>, cleanup: seq<Call>, ids: seq<FileId>)
    requires CreatedIds(ups) == ids && DeletedIds(ups) == []
    requires CreatedIds(publish) == [] && DeletedIds(publish) == []
    requires CreatedIds(commit) == [] && DeletedIds(commit) == []
    requires CreatedIds(cleanup) == [] && DeletedIds(cleanup) == ids
    ensures CreatedIds(ups + publish + commit + cleanup) == ids
    ensures DeletedIds(ups + publish + commit + cleanup) == ids
  {
    CreatedIdsAppend(ups, publish);
    CreatedIdsAppend(ups + publish, commit);
    CreatedIdsAppend(ups + publish + commit, cleanup);
    DeletedIdsAppend(ups, publish);
    DeletedIdsAppend(ups + publish, commit);
    DeletedIdsAppend(ups + publish + commit, cleanup);
  }

  /**
   * Cleanup deletes exactly the files the run created, in the order they were
   * created.
   */
  lemma CleanupDeletesUploads(presentationId: string, st: BuildState)
    ensures CreatedIds(RunLog(presentationId, st)) == DriveFileIds(st.uploaded)
    ensures DeletedIds(RunLog(presentationId, st)) == DriveFileIds(st.uploaded)
  {
    var ids := DriveFileIds(st.uploaded);
    var publish := if ids != [] && st.requests != [] then PermissionCalls(ids) else [];
    var commit := if st.requests != [] then [Call.BatchUpdate(presentationId, st.requests)] else [];
    UploadLogFiles(st.uploaded);
    PermissionCallsKeepFiles(ids);
    DeleteCallsDelete(ids);
    assert CreatedIds(commit) == [] && DeletedIds(commit) == [];
    FourPhasesFiles(UploadLog(st.uploaded), publish, commit, DeleteCalls(ids), ids);
  }

  /** The files of a run got the ids Drive handed out one after the other from `start`. */
  lemma UploadIdsConsecutive(slides: seq<Slide>, directory: string, existing: set<string>, start: FileId)
    ensures forall i :: 0 <= i < |Final(slides, directory, existing, start).uploaded| ==>
      DriveFileIds(Final(slides, directory, existing, start).uploaded)[i] == start + i
    ensures Final(slides, directory, existing, start).nextId == start + |Final(slides, directory, existing, start).uploaded|
  {
    FinalValid(slides, directory, existing, start);
  }

  /**
   * The files a run uploads are fresh: none was handed out before the run began at
   * `start`, none is handed out again later, and no two of them share an id.
   */
  lemma UploadIdsFresh(slides: seq<Slide>, directory: string, existing: set<string>, start: FileId)
    ensures forall i, j :: 0 <= i < j < |DriveFileIds(Final(slides, directory, existing, start).uploaded)| ==>
      DriveFileIds(Final(slides, directory, existing, start).uploaded)[i]
        != DriveFileIds(Final(slides, directory, existing, start).uploaded)[j]
    ensures forall i :: 0 <= i < |DriveFileIds(Final(slides, directory, existing, start).uploaded)| ==>
      start <= DriveFileIds(Final(slides, directory, existing, start).uploaded)[i] < Final(slides, directory, existing, start).nextId
  {
    UploadIdsConsecutive(slides, directory, existing, start);
  }

  /** The kinds of calls each phase of a run sends, and where a call of each kind can come from. */
  lemma PhaseKinds(ups: seq<Call>, publish: seq<Call>, commit: seq<Call>, cleanup: seq<Call>)
    requires forall c :: c in ups ==> c.CreateFile? || c.GetFile?
    requires forall c :: c in publish ==> c.CreatePermission?
    requires forall c :: c in commit ==> c.BatchUpdate?
    requires forall c :: c in cleanup ==> c.DeleteFile?
    ensures forall c :: c in ups + publish + commit + cleanup && c.CreateFile? ==> c in ups
    ensures forall c :: c in ups + publish + commit + cleanup && c.CreatePermission? ==> c in publish
    ensures forall c :: c in ups + publish + commit + cleanup && c.BatchUpdate? ==> c in commit
  {
  }

  lemma PermissionCallsMembers(ids: seq<FileId>)
    ensures forall c :: c in PermissionCalls(ids) ==> c.CreatePermission? && c.id in ids && c.permission == AnyoneReader
    ensures ids != [] ==> PermissionCalls(ids)[0] in PermissionCalls(ids)
  {
    forall c | c in PermissionCalls(ids)
      ensures c.CreatePermission? && c.id in ids && c.permission == AnyoneReader
    {
      var i :| 0 <= i < |PermissionCalls(ids)| && PermissionCalls(ids)[i] == c;
    }
  }

  lemma DeleteCallsMembers(ids: seq<FileId>)
    ensures forall c :: c in DeleteCalls(ids) ==> c.DeleteFile?
  {
    forall c | c in DeleteCalls(ids)
      ensures c.DeleteFile?
    {
      var i :| 0 <= i < |DeleteCalls(ids)| && DeleteCalls(ids)[i] == c;
    }
  }

  /** The run commits once, with all its requests, exactly when there is at least one request. */
  lemma CommitGating(presentationId: string, st: BuildState)
    ensures (exists c :: c in RunLog(presentationId, st) && c.BatchUpdate?) <==> st.requests != []
    ensures forall c :: (c in RunLog(presentationId, st) && c.BatchUpdate?
      ==> c == Call.BatchUpdate(presentationId, st.requests))
  {
    var ids := DriveFileIds(st.uploaded);
    var publish := if ids != [] && st.requests != [] then PermissionCalls(ids) else [];
    var commit := if st.requests != [] then [Call.BatchUpdate(presentationId, st.requests)] else [];
    PermissionCallsMembers(ids);
    DeleteCallsMembers(ids);
    PhaseKinds(UploadLog(st.uploaded), publish, commit, DeleteCalls(ids));
    if st.requests != [] {
      assert commit[0] in RunLog(presentationId, st);
    }
  }

  /**
   * The run makes files public exactly when it has uploaded files and requests to
   * commit, and then only uploaded files, each readable by anyone.
   */
  lemma PublishGating(presentationId: string, st: BuildState)
    ensures (exists c :: c in RunLog(presentationId, st) && c.CreatePermission?)
      <==> DriveFileIds(st.uploaded) != [] && st.requests != []
    ensures forall c :: (c in RunLog(presentationId, st) && c.CreatePermission?
      ==> c.permission == AnyoneReader && c.id in DriveFileIds(st.uploaded))
    ensures DriveFileIds(st.uploaded) != [] && st.requests != [] ==>
      forall id :: id in DriveFileIds(st.uploaded) ==> CreatePermission(id, AnyoneReader) in RunLog(presentationId, st)
  {
    var ids := DriveFileIds(st.uploaded);
    var publish := if ids != [] && st.requests != [] then PermissionCalls(ids) else [];
    var commit := if st.requests != [] then [Call.BatchUpdate(presentationId, st.requests)] else [];
    PermissionCallsMembers(ids);
    DeleteCallsMembers(ids);
    PhaseKinds(UploadLog(st.uploaded), publish, commit, DeleteCalls(ids));
    if ids != [] && st.requests != [] {
      assert publish[0] in RunLog(presentationId, st);
    }
  }

  /**
   * Whenever a run uploaded a file it also has a request to commit, so whether it
   * publishes depends on the uploads alone.
   */
  lemma PublishWheneverUploaded(presentationId: string, slides: seq<Slide>, directory: string, existing: set<string>, start: FileId)
    ensures (exists c :: c in RunLog(presentationId, Final(slides, directory, existing, start)) && c.CreatePermission?)
      <==> Final(slides, directory, existing, start).uploaded != []
  {
    PublishGating(presentationId, Final(slides, directory, existing, start));
    UploadsAtMostRequests(slides, directory, existing, start);
  }

  /** A run that replaces nothing sends nothing at all. */
  lemma NothingToReplace(presentationId: string, slides: seq<Slide>, directory: string, existing: set<string>, start: FileId)
    requires Replaced(slides, directory, existing) == []
    ensures RunLog(presentationId, Final(slides, directory, existing, start)) == []
  {
    var fin := Final(slides, directory, existing, start);
    RequestsMatchReplaced(slides, directory, existing, start);
    UploadsAtMostRequests(slides, directory, existing, start);
    assert fin.uploaded == [] && DriveFileIds(fin.uploaded) == [];
  }

  lemma EntryKey(entries: seq<Entry>, e: Entry)
    requires e in entries
    ensures e.fname in Keys(entries)
  {
    var i :| 0 <= i < |entries| && entries[i] == e;
    assert Keys(entries)[i] == e.fname;
  }

  lemma UploadedMedia(presentationId: string, st: BuildState)
    ensures forall c :: c in RunLog(presentationId, st) && c.CreateFile? ==>
      c.name == FileHash(c.media) && c.media in Keys(st.uploaded)
  {
    var ids := DriveFileIds(st.uploaded);
    var publish := if ids != [] && st.requests != [] then PermissionCalls(ids) else [];
    var commit := if st.requests != [] then [Call.BatchUpdate(presentationId, st.requests)] else [];
    PermissionCallsMembers(ids);
    DeleteCallsMembers(ids);
    PhaseKinds(UploadLog(st.uploaded), publish, commit, DeleteCalls(ids));
    UploadLogMedia(st.uploaded);
    forall c | c in UploadLog(st.uploaded) && c.CreateFile?
      ensures c.media in Keys(st.uploaded)
    {
      var e :| e in st.uploaded && c.media == e.fname && c.id == e.fileId;
      EntryKey(st.uploaded, e);
    }
  }

  /**
   * Every file a run uploads is an existing local file named by a replaced element,
   * uploaded under its hash: a missing file is never uploaded.
   */
  lemma UploadedFilesExist(presentationId: string, slides: seq<Slide>, directory: string, existing: set<string>, start: FileId)
    ensures forall c :: c in RunLog(presentationId, Final(slides, directory, existing, start)) && c.CreateFile? ==>
      c.name == FileHash(c.media) && c.media in existing
      && exists h :: h in Replaced(slides, directory, existing) && h.fname == c.media
  {
    UploadedMedia(presentationId, Final(slides, directory, existing, start));
    UploadsAreDistinctTargets(slides, directory, existing, start);
  }

  /** The phase of a run a call belongs to: uploads, publishing, the commit, cleanup. */
  function Phase(c: Call): nat {
    match c
    case CreateFile(_, _, _) => 0
    case GetFile(_) => 0
    case CreatePermission(_, _) => 1
    case BatchUpdate(_, _) => 2
    case DeleteFile(_) => 3
  }

  predicate InPhaseOrder(calls: seq<Call>) {
    forall i, j :: 0 <= i <= j < |calls| ==> Phase(calls[i]) <= Phase(calls[j])
  }

  lemma InPhaseOrderAppend(a: seq<Call>, b: seq<Call>, k: nat)
    requires InPhaseOrder(a) && InPhaseOrder(b)
    requires forall c :: c in a ==> Phase(c) <= k
    requires forall c :: c in b ==> k <= Phase(c)
    ensures InPhaseOrder(a + b)
  {
    forall i, j | 0 <= i <= j < |a + b|
      ensures Phase((a + b)[i]) <= Phase((a + b)[j])
    {
      if j < |a| {
        assert (a + b)[i] == a[i] && (a + b)[j] == a[j];
      } else if i < |a| {
        assert (a + b)[i] == a[i] && a[i] in a && (a + b)[j] == b[j - |a|] && b[j - |a|] in b;
      } else {
        assert (a + b)[i] == b[i - |a|] && (a + b)[j] == b[j - |a|];
      }
    }
  }

  lemma OnePhase(calls: seq<Call>, k: nat)
    requires forall c :: c in calls ==> Phase(c) == k
    ensures InPhaseOrder(calls)
  {
    assert forall i :: 0 <= i < |calls| ==> calls[i] in calls;
  }

  lemma FourPhasesInOrder(ups: seq<Call>, publish: seq<Call>, commit: seq<Call>, cleanup: seq<Call>)
    requires forall c :: c in ups ==> Phase(c) == 0
    requires forall c :: c in publish ==> Phase(c) == 1
    requires forall c :: c in commit ==> Phase(c) == 2
    requires forall c :: c in cleanup ==> Phase(c) == 3
    ensures InPhaseOrder(ups + publish + commit + cleanup)
  {
    OnePhase(ups, 0);
    OnePhase(publish, 1);
    OnePhase(commit, 2);
    OnePhase(cleanup, 3);
    InPhaseOrderAppend(ups, publish, 0);
    InPhaseOrderAppend(ups + publish, commit, 1);
    InPhaseOrderAppend(ups + publish + commit, cleanup, 2);
  }

  /**
   * A run uploads, then publishes, then commits, then cleans up: no call of a later
   * phase comes before a call of an earlier one.
   */
  lemma RunPhasesInOrder(presentationId: string, st: BuildState)
    ensures InPhaseOrder(RunLog(presentationId, st))
  {
    var ids := DriveFileIds(st.uploaded);
    var publish := if ids != [] && st.requests != [] then PermissionCalls(ids) else [];
    var commit := if st.requests != [] then [Call.BatchUpdate(presentationId, st.requests)] else [];
    PermissionCallsMembers(ids);
    DeleteCallsMembers(ids);
    FourPhasesInOrder(UploadLog(st.uploaded), publish, commit, DeleteCalls(ids));
  }
}
