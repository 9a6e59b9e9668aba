/**
 * The `GAPI` wrapper of slidder around the Google Slides and Drive services.
 *
 * The remote services are outside the model: every request the wrapper sends is
 * appended to a call log, and the two answers the wrapper reads back are modelled
 * as functions of the request. Drive hands out a fresh id for every created file
 * (here: consecutive numbers counted by `issued`), and the `webContentLink` of a
 * file is determined by its id.
 */
module GoogleApi {
  import opened Wrappers

  type FileId = nat

  /** The `webContentLink` Drive reports for a file. */
  datatype Url = WebContentLink(file: FileId)

  /** The body of a Drive permission. */
  datatype Permission = Permission(kind: string, role: string)

  /** Anyone holding the link may read the file. */
  const AnyoneReader: Permission := Permission("anyone", "reader")

  /** The only `imageReplaceMethod` slidder asks for. */
  const CenterCrop: string := "CENTER_CROP"

  /** A Slides `batchUpdate` request: slidder only ever sends `replaceImage`. */
  datatype Request = ReplaceImage(imageObjectId: Option<string>, imageReplaceMethod: string, url: Url)

  /** One request sent to Drive or Slides. */
  datatype Call =
    | CreateFile(name: string, media: string, id: FileId)
    | GetFile(id: FileId)
    | CreatePermission(id: FileId, permission: Permission)
    | BatchUpdate(presentationId: string, requests: seq<Request>)
    | DeleteFile(id: FileId)

  /** The name an upload gets on Drive: for now the local path itself. */
  function FileHash(localpath: string): string {
    localpath
  }

  /** The two calls `upload_image` makes: the upload, then the lookup of its link. */
  function UploadCalls(localpath: string, id: FileId): (calls: seq<Call>)
    ensures |calls| == 2 && calls[0].CreateFile? && calls[0].id == id && calls[0].media == localpath
    ensures calls[0].name == FileHash(localpath)
    ensures calls[1] == GetFile(id)
  {
    [CreateFile(FileHash(localpath), localpath, id), GetFile(id)]
  }

  /** One `delete` per id, in order. */
  function DeleteCalls(ids: seq<FileId>): (calls: seq<Call>)
    ensures |calls| == |ids|
    ensures forall i :: 0 <= i < |ids| ==> calls[i] == DeleteFile(ids[i])
  {
    if ids == [] then [] else DeleteCalls(ids[..|ids| - 1]) + [DeleteFile(ids[|ids| - 1])]
  }

  /** One "anyone may read" permission per id, in order. */
  function PermissionCalls(ids: seq<FileId>): (calls: seq<Call>)
    ensures |calls| == |ids|
    ensures forall i :: 0 <= i < |ids| ==> calls[i] == CreatePermission(ids[i], AnyoneReader)
  {
    if ids == [] then [] else PermissionCalls(ids[..|ids| - 1]) + [CreatePermission(ids[|ids| - 1], AnyoneReader)]
  }

  /** The ids of the files the calls create, in order. */
  function CreatedIds(calls: seq<Call>): (ids: seq<FileId>)
    ensures |ids| <= |calls|
  {
    if calls == [] then []
    else (if calls[0].CreateFile? then [calls[0].id] else []) + CreatedIds(calls[1..])
  }

  /** The ids of the files the calls delete, in order. */
  function DeletedIds(calls: seq<Call>): (ids: seq<FileId>)
    ensures |ids| <= |calls|
  {
    if calls == [] then []
    else (if calls[0].DeleteFile? then [calls[0].id] else []) + DeletedIds(calls[1..])
  }

  lemma {:induction false} CreatedIdsAppend(a: seq<Call>, b: seq<Call>)
    ensures CreatedIds(a + b) == CreatedIds(a) + CreatedIds(b)
  {
    if a == [] {
      assert a + b == b;
    } else {
      assert (a + b)[0] == a[0] && (a + b)[1..] == a[1..] + b;
      CreatedIdsAppend(a[1..], b);
    }
  }

  lemma {:induction false} DeletedIdsAppend(a: seq<Call>, b: seq<Call>)
    ensures DeletedIds(a + b) == DeletedIds(a) + DeletedIds(b)
  {
    if a == [] {
      assert a + b == b;
    } else {
      assert (a + b)[0] == a[0] && (a + b)[1..] == a[1..] + b;
      DeletedIdsAppend(a[1..], b);
    }
  }

  /** Deleting a list of files deletes exactly those files, in order, and creates none. */
  lemma {:induction false} DeleteCallsDelete(ids: seq<FileId>)
    ensures DeletedIds(DeleteCalls(ids)) == ids
    ensures CreatedIds(DeleteCalls(ids)) == []
  {
    if ids != [] {
      var init := ids[..|ids| - 1];
      DeleteCallsDelete(init);
      DeletedIdsAppend(DeleteCalls(init), [DeleteFile(ids[|ids| - 1])]);
      CreatedIdsAppend(DeleteCalls(init), [DeleteFile(ids[|ids| - 1])]);
      assert ids == init + [ids[|ids| - 1]];
    }
  }

  /** Publishing files neither creates nor deletes any. */
  lemma {:induction false} PermissionCallsKeepFiles(ids: seq<FileId>)
    ensures DeletedIds(PermissionCalls(ids)) == [] && CreatedIds(PermissionCalls(ids)) == []
  {
    if ids != [] {
      var init := ids[..|ids| - 1];
      PermissionCallsKeepFiles(init);
      DeletedIdsAppend(PermissionCalls(init), [CreatePermission(ids[|ids| - 1], AnyoneReader)]);
      CreatedIdsAppend(PermissionCalls(init), [CreatePermission(ids[|ids| - 1], AnyoneReader)]);
    }
  }

  /**
   * A session with the Slides and Drive services. `log` holds every call sent so
   * far and `issued` the number of files Drive has created in the session.
   */
  class Gapi {
    var log: seq<Call>
    var issued: nat

    /** A fresh session; obtaining the credentials is not modelled. */
    constructor()
      ensures log == [] && issued == 0
    {
      log := [];
      issued := 0;
    }

    /** Uploads a local file under its hash and returns its new Drive id and its link. */
    method UploadImage(localpath: string) returns (id: FileId, url: Url)
      modifies this
      ensures id == old(issued) && issued == old(issued) + 1
      ensures url == WebContentLink(id)
      ensures log == old(log) + UploadCalls(localpath, id)
    {
      var fileHash := FileHash(localpath);
      id := issued;
      issued := issued + 1;
      log := log + [CreateFile(fileHash, localpath, id)];
      url := GetUploadedImageUrl(id);
    }

    /** Asks Drive for the `webContentLink` of a file. */
    method GetUploadedImageUrl(driveId: FileId) returns (url: Url)
      modifies this
      ensures url == WebContentLink(driveId)
      ensures log == old(log) + [GetFile(driveId)] && issued == old(issued)
    {
      log := log + [GetFile(driveId)];
      url := WebContentLink(driveId);
    }

    /** Deletes the given Drive files one by one; nothing is sent for an empty list. */
    method RemoveFiles(fileIds: seq<FileId>)
      modifies this
      ensures log == old(log) + DeleteCalls(fileIds) && issued == old(issued)
      ensures fileIds == [] ==> log == old(log)
    {
      if fileIds == [] {
        return;
      }
      for t := 0 to |fileIds|
        invariant log == old(log) + DeleteCalls(fileIds[..t]) && issued == old(issued)
      {
        assert fileIds[..t + 1][..t] == fileIds[..t];
        log := log + [DeleteFile(fileIds[t])];
      }
      assert fileIds[..|fileIds|] == fileIds;
    }

    /** Lets anyone with the link read each of the given Drive files. */
    method MakePublic(fileIds: seq<FileId>)
      modifies this
      ensures log == old(log) + PermissionCalls(fileIds) && issued == old(issued)
    {
      for t := 0 to |fileIds|
        invariant log == old(log) + PermissionCalls(fileIds[..t]) && issued == old(issued)
      {
        assert fileIds[..t + 1][..t] == fileIds[..t];
        log := log + [CreatePermission(fileIds[t], AnyoneReader)];
      }
      assert fileIds[..|fileIds|] == fileIds;
    }

    /** Sends the requests to the presentation in one `batchUpdate`. */
    method BatchUpdate(presentationId: string, requests: seq<Request>)
      modifies this
      ensures log == old(log) + [Call.BatchUpdate(presentationId, requests)] && issued == old(issued)
    {
      log := log + [Call.BatchUpdate(presentationId, requests)];
    }
  }
}
