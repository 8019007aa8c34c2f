/**
  The note routes: `POST /upload` (audio first, then the images in submission
  order, then the note is saved) and `GET /get` (the caller's notes). The object
  store is an oracle: `accepts(path)` says whether an upload to `path` succeeds.
 */
module NoteRoutes {
  import opened Wrappers
  import opened Text
  import opened Seqs
  import opened UserStore
  import opened NoteModel
  import opened AuthMiddleware

  /** The multer limits of the upload route. */
  const MaxAudioFiles: nat := 1
  const MaxImageFiles: nat := 5
  const MaxFileSize: nat := 10 * 1024 * 1024

  /** A file part of the multipart request. */
  datatype UploadFile = UploadFile(originalName: string, mimeType: string, size: nat)

  /** The multipart request: text fields and the `audioBlob` and `images` file parts. */
  datatype UploadRequest = UploadRequest(title: Option<string>, content: Option<string>,
                                         audio: seq<UploadFile>, images: seq<UploadFile>)

  /** The object store and the id generator: `accepts(path)` is whether the upload to `path`
      succeeds, `uuid(k)` is the k-th uuid the request generates, and `publicUrl(path)` is
      what `getPublicUrl(path)` answers. */
  datatype Storage = Storage(accepts: string -> bool, uuid: nat -> string, publicUrl: string -> string)

  function AudioPath(s: Storage, k: nat): string {
    "audio/" + s.uuid(k) + ".webm"
  }

  function ImagePath(s: Storage, k: nat, f: UploadFile): string {
    "images/" + s.uuid(k) + "-" + f.originalName
  }

  /** The multipart parts respect the multer limits. */
  predicate WithinLimits(req: UploadRequest) {
    && |req.audio| <= MaxAudioFiles && |req.images| <= MaxImageFiles
    && (forall k :: 0 <= k < |req.audio| ==> req.audio[k].size <= MaxFileSize)
    && (forall k :: 0 <= k < |req.images| ==> req.images[k].size <= MaxFileSize)
  }

  /** The storage paths of the image parts, in submission order, numbering uuids from `first`. */
  function ImagePaths(s: Storage, files: seq<UploadFile>, first: nat): (paths: seq<string>)
    ensures |paths| == |files|
    ensures forall k :: 0 <= k < |files| ==> paths[k] == ImagePath(s, first + k, files[k])
  {
    seq(|files|, k requires 0 <= k < |files| => ImagePath(s, first + k, files[k]))
  }

  /** What the image loop did: the URLs collected, the upload calls made, and whether one failed. */
  datatype ImagesOutcome = ImagesOutcome(urls: seq<string>, calls: seq<string>, failed: bool)

  /** The image loop over the planned paths: one upload per file, in submission order,
      stopping at the first failure. */
  function UploadImages(s: Storage, paths: seq<string>): (r: ImagesOutcome)
    decreases |paths|
    ensures |r.calls| <= |paths| && r.calls == paths[..|r.calls|]
    ensures !r.failed <==> forall k :: 0 <= k < |paths| ==> s.accepts(paths[k])
    ensures !r.failed ==>
      && r.calls == paths && |r.urls| == |paths|
      && forall k :: 0 <= k < |paths| ==> r.urls[k] == s.publicUrl(paths[k])
    // a failure stops the loop at the first rejected upload
    ensures r.failed ==>
      && |r.calls| >= 1 && !s.accepts(r.calls[|r.calls| - 1])
      && forall k :: 0 <= k < |r.calls| - 1 ==> s.accepts(r.calls[k])
  {
    if paths == [] then ImagesOutcome([], [], false)
    else if !s.accepts(paths[0]) then ImagesOutcome([], [paths[0]], true)
    else
      var rest := UploadImages(s, paths[1..]);
      assert paths == [paths[0]] + paths[1..];
      ImagesOutcome([s.publicUrl(paths[0])] + rest.urls, [paths[0]] + rest.calls, rest.failed)
  }

  datatype UploadReply = Created(note: NoteDoc) | Failed(status: nat, error: string)

  /** The notes collection after the request, the upload calls made in order, and the reply. */
  datatype UploadStep = UploadStep(notes: seq<NoteDoc>, calls: seq<string>, reply: UploadReply)

  /** The uuid index of the first image: the audio part, if any, takes uuid 0. */
  function FirstImageUuid(req: UploadRequest): nat {
    if |req.audio| > 0 then 1 else 0
  }

  /** The upload calls the request plans, in order: the audio part, then each image. */
  function PlannedCalls(req: UploadRequest, s: Storage): seq<string> {
    (if |req.audio| > 0 then [AudioPath(s, 0)] else []) + ImagePaths(s, req.images, FirstImageUuid(req))
  }

  /** All uploads the request plans succeed. */
  predicate AllUploadsSucceed(req: UploadRequest, s: Storage) {
    forall k :: 0 <= k < |PlannedCalls(req, s)| ==> s.accepts(PlannedCalls(req, s)[k])
  }

  /** The planned uploads succeed exactly when the audio upload (if any) and every image upload do. */
  lemma UploadsSucceedSplit(req: UploadRequest, s: Storage)
    ensures AllUploadsSucceed(req, s) <==>
      && (|req.audio| > 0 ==> s.accepts(AudioPath(s, 0)))
      && forall k :: 0 <= k < |req.images| ==> s.accepts(ImagePaths(s, req.images, FirstImageUuid(req))[k])
  {
    var a := if |req.audio| > 0 then [AudioPath(s, 0)] else [];
    var p := ImagePaths(s, req.images, FirstImageUuid(req));
    var c := PlannedCalls(req, s);
    assert c == a + p;
    if AllUploadsSucceed(req, s) {
      if |req.audio| > 0 {
        assert c[0] == AudioPath(s, 0);
      }
      forall k | 0 <= k < |p|
        ensures s.accepts(p[k])
      {
        assert c[|a| + k] == p[k];
      }
    }
    if (|req.audio| > 0 ==> s.accepts(AudioPath(s, 0))) && forall k :: 0 <= k < |p| ==> s.accepts(p[k]) {
      forall k | 0 <= k < |c|
        ensures s.accepts(c[k])
      {
        if k >= |a| {
          assert c[k] == p[k - |a|];
        }
      }
    }
  }

  /** The note fields the handler builds, with whatever the uploads returned. */
  function UploadedFields(req: UploadRequest, caller: UserId, urls: seq<string>, audio: Option<string>): NoteFields {
    NoteFields(req.title, req.content, Some(urls), audio, Some(caller))
  }

  function AudioCalls(req: UploadRequest, s: Storage): seq<string> {
    if |req.audio| > 0 then [AudioPath(s, 0)] else []
  }

  function AudioUrl(req: UploadRequest, s: Storage): Option<string> {
    if |req.audio| > 0 then Some(s.publicUrl(AudioPath(s, 0))) else None
  }

  /** The image loop and the save, once the audio part (if any) is stored. */
  function UploadImagesAndSave(notes: seq<NoteDoc>, caller: UserId, req: UploadRequest, s: Storage): (r: UploadStep)
    requires |req.audio| > 0 ==> s.accepts(AudioPath(s, 0))
    ensures |r.calls| <= |PlannedCalls(req, s)| && r.calls == PlannedCalls(req, s)[..|r.calls|]
    ensures |r.calls| >= |AudioCalls(req, s)|
    ensures !AllUploadsSucceed(req, s) ==> r.notes == notes && r.reply == Failed(500, "Failed to upload image")
    ensures AllUploadsSucceed(req, s) ==> r.calls == PlannedCalls(req, s)
    ensures r.reply.Created? <==> AllUploadsSucceed(req, s) && ValidNote(UploadedFields(req, caller, [], None))
    ensures !r.reply.Created? ==> r.notes == notes
    ensures r.reply.Created? ==>
      var n := r.reply.note;
      && r.notes == notes + [n]
      && n.owner == caller
      && n.audio == AudioUrl(req, s)
      && |n.images| == |req.images|
      && forall k :: 0 <= k < |req.images| ==> n.images[k] == s.publicUrl(ImagePaths(s, req.images, FirstImageUuid(req))[k])
  {
    var audioCalls := AudioCalls(req, s);
    var paths := ImagePaths(s, req.images, FirstImageUuid(req));
    var images := UploadImages(s, paths);
    ImagesDecideSuccess(req, s);
    CallsPrefix(audioCalls, paths, images.calls);
    assert PlannedCalls(req, s) == audioCalls + paths;
    if images.failed then
      UploadStep(notes, audioCalls + images.calls, Failed(500, "Failed to upload image"))
    else
      var saved := SaveNote(notes, UploadedFields(req, caller, images.urls, AudioUrl(req, s)));
      UploadStep(saved.notes, audioCalls + images.calls, saved.reply)
  }

  /** Once the audio part is stored, the request's uploads all succeed exactly when the image
      loop does not fail. */
  lemma ImagesDecideSuccess(req: UploadRequest, s: Storage)
    requires |req.audio| > 0 ==> s.accepts(AudioPath(s, 0))
    ensures AllUploadsSucceed(req, s) <==> !UploadImages(s, ImagePaths(s, req.images, FirstImageUuid(req))).failed
  {
    UploadsSucceedSplit(req, s);
  }

  /** Calls made before a prefix of the planned image paths form a prefix of all planned calls. */
  lemma CallsPrefix(first: seq<string>, paths: seq<string>, calls: seq<string>)
    requires |calls| <= |paths| && calls == paths[..|calls|]
    ensures |first + calls| <= |first + paths| && first + calls == (first + paths)[..|first + calls|]
  {
  }

  /** The collection and the reply after `note.save()`. */
  datatype SaveStep = SaveStep(notes: seq<NoteDoc>, reply: UploadReply)

  /** `note.save()` on the fields the handler built: the document is appended when the schema
      accepts it, and a rejection is answered by the handler's catch with a 500. */
  function SaveNote(notes: seq<NoteDoc>, f: NoteFields): (r: SaveStep)
    ensures r.reply.Created? <==> ValidNote(f)
    ensures !r.reply.Created? ==> r == SaveStep(notes, Failed(500, "Note validation failed"))
    ensures r.reply.Created? ==>
      && r.notes == notes + [r.reply.note]
      && Some(r.reply.note.owner) == f.owner
      && r.reply.note.audio == f.audio
      && r.reply.note.images == f.images.GetOr([])
  {
    match CastNote(f)
    case Rejected(_) => SaveStep(notes, Failed(500, "Note validation failed"))
    case Saved(doc) => SaveStep(notes + [doc], Created(doc))
  }

  /** The handler body once multer has accepted the parts: the audio upload comes first and
      its failure ends the request before any image is tried. */
  function HandleUpload(notes: seq<NoteDoc>, caller: UserId, req: UploadRequest, s: Storage): (r: UploadStep)
    requires WithinLimits(req)
    ensures |req.audio| == 1 ==> |r.calls| >= 1 && r.calls[0] == AudioPath(s, 0)
    ensures |req.audio| == 1 && !s.accepts(AudioPath(s, 0)) ==>
      r == UploadStep(notes, [AudioPath(s, 0)], Failed(500, "Failed to upload audio"))
    ensures (|req.audio| == 1 ==> s.accepts(AudioPath(s, 0))) && !AllUploadsSucceed(req, s) ==>
      r.notes == notes && r.reply == Failed(500, "Failed to upload image")
    ensures AllUploadsSucceed(req, s) ==> r.calls == PlannedCalls(req, s)
    ensures r.reply.Created? <==> AllUploadsSucceed(req, s) && ValidNote(UploadedFields(req, caller, [], None))
    ensures !r.reply.Created? ==> r.notes == notes
    ensures r.reply.Created? ==>
      var n := r.reply.note;
      && r.notes == notes + [n]
      && n.owner == caller
      && (|req.audio| == 0 ==> n.audio.None?)
      && (|req.audio| > 0 ==> n.audio == Some(s.publicUrl(AudioPath(s, 0))))
      && |n.images| == |req.images|
      && forall k :: 0 <= k < |req.images| ==> n.images[k] == s.publicUrl(ImagePaths(s, req.images, FirstImageUuid(req))[k])
  {
    if |req.audio| > 0 && !s.accepts(AudioPath(s, 0)) then
      UploadsSucceedSplit(req, s);
      UploadStep(notes, AudioCalls(req, s), Failed(500, "Failed to upload audio"))
    else
      var r := UploadImagesAndSave(notes, caller, req, s);
      assert |req.audio| == 1 ==> PlannedCalls(req, s)[0] == AudioPath(s, 0);
      r
  }

  /** `POST /upload` for the authenticated `caller`: multer's limits, then the handler. */
  function CreateNote(notes: seq<NoteDoc>, caller: UserId, req: UploadRequest, s: Storage): (r: UploadStep)
    // multer refuses the request before the handler runs: no upload, nothing saved
    ensures !WithinLimits(req) ==> r.notes == notes && r.calls == [] && r.reply.Failed?
    ensures r.reply.Created? <==>
      WithinLimits(req) && AllUploadsSucceed(req, s) && ValidNote(UploadedFields(req, caller, [], None))
    ensures !r.reply.Created? ==> r.notes == notes
    // at most one audio part and five images, so a saved note holds at most five images
    ensures r.reply.Created? ==>
      && |req.audio| <= MaxAudioFiles
      && |r.reply.note.images| == |req.images| <= MaxImageFiles
      && r.reply.note.owner == caller
  {
    if !WithinLimits(req) then
      var message := if |req.audio| > MaxAudioFiles || |req.images| > MaxImageFiles then "Unexpected field" else "File too large";
      UploadStep(notes, [], Failed(500, message))
    else
      HandleUpload(notes, caller, req, s)
  }

  /** Uploads are not rolled back: when the note fails validation after its uploads, every
      upload call was made and succeeded, so the objects stay in the store without a note. */
  lemma {:induction false} RejectedNoteLeavesUploads(notes: seq<NoteDoc>, caller: UserId, req: UploadRequest, s: Storage)
    requires WithinLimits(req) && AllUploadsSucceed(req, s)
    requires !ValidNote(NoteFields(req.title, req.content, Some([]), None, Some(caller)))
    ensures var r := CreateNote(notes, caller, req, s);
      && r.notes == notes && r.reply.Failed?
      && r.calls == PlannedCalls(req, s)
      && forall k :: 0 <= k < |r.calls| ==> s.accepts(r.calls[k])
  {
    var r := HandleUpload(notes, caller, req, s);
    assert r.calls == PlannedCalls(req, s);
  }

  /** `GET /get` for the authenticated `caller`: `Note.find({ user: caller })`. */
  function ListNotes(notes: seq<NoteDoc>, caller: UserId): (r: seq<NoteDoc>)
    ensures IsSubsequence(r, notes)
    ensures forall n :: n in r <==> n in notes && n.owner == caller
    ensures forall n: NoteDoc :: n.owner == caller ==> multiset(r)[n] == multiset(notes)[n]
  {
    Filter(notes, (n: NoteDoc) => n.owner == caller)
  }

  datatype ListReply = Denied(status: nat, message: string) | NoteList(notes: seq<NoteDoc>)

  /** `GET /get` behind `authMiddleware`: a request the middleware refuses never queries the notes. */
  function ServeListNotes(store: Store, notes: seq<NoteDoc>, header: Option<string>, verify: string -> Option<UserId>): (r: ListReply)
    ensures !Admits(store, header, verify) ==> r.Denied? && r.status == 401
    ensures Admits(store, header, verify) ==>
      var id := verify(ExtractToken(header.value)).value;
      && r.NoteList? && r.notes == ListNotes(notes, id)
      && IsSubsequence(r.notes, notes)
      && (forall n :: n in r.notes <==> n in notes && n.owner == id)
      && (forall n: NoteDoc :: n.owner == id ==> multiset(r.notes)[n] == multiset(notes)[n])
  {
    match Authenticate(store, header, verify)
    case Deny(status, message) => Denied(status, message)
    case Next(u) => NoteList(ListNotes(notes, u.id))
  }

  /** Appending a note extends its owner's list by that note and leaves every other list alone. */
  lemma ListAppendOne(notes: seq<NoteDoc>, n: NoteDoc, who: UserId)
    ensures ListNotes(notes + [n], who) == ListNotes(notes, who) + (if n.owner == who then [n] else [])
  {
    FilterAppend(notes, [n], (d: NoteDoc) => d.owner == who);
    FilterSingleton(n, (d: NoteDoc) => d.owner == who);
  }

  /** A created note shows up in its owner's list, after the owner's earlier notes, and no
      other user's list changes. */
  lemma {:induction false} CreatedNoteIsListed(notes: seq<NoteDoc>, caller: UserId, req: UploadRequest,
                                              s: Storage, other: UserId)
    requires CreateNote(notes, caller, req, s).reply.Created?
    ensures var r := CreateNote(notes, caller, req, s);
      && ListNotes(r.notes, caller) == ListNotes(notes, caller) + [r.reply.note]
      && (other != caller ==> ListNotes(r.notes, other) == ListNotes(notes, other))
  {
    var r := CreateNote(notes, caller, req, s);
    var n := r.reply.note;
    assert r.notes == notes + [n] && n.owner == caller;
    ListAppendOne(notes, n, caller);
    ListAppendOne(notes, n, other);
  }
}
