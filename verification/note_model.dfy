/**
  `noteSchema`: the constraints a note document must meet before it is saved,
  and the casting the schema applies to the fields it is given (trimming the
  strings, defaulting the image list).
 */
module NoteModel {
  import opened Wrappers
  import opened Text
  import opened UserStore

  const MaxTitleLength: nat := 100

  /** The fields handed to `new Note({...})`; `None` is undefined or null. */
  datatype NoteFields = NoteFields(
    title: Option<string>,
    content: Option<string>,
    images: Option<seq<string>>,
    audio: Option<string>,
    owner: Option<UserId>)

  /** A saved note document. */
  datatype NoteDoc = NoteDoc(title: string, content: string, images: seq<string>, audio: Option<string>, owner: UserId)

  datatype NoteIssue = TitleRequired | TitleTooLong | ContentRequired | OwnerRequired

  /** The schema's validity: after trimming, a non-empty title of at most 100 characters and
      non-empty content, and an owning user. */
  predicate ValidNote(f: NoteFields) {
    && f.title.Some? && Trim(f.title.value) != "" && |Trim(f.title.value)| <= MaxTitleLength
    && f.content.Some? && Trim(f.content.value) != ""
    && f.owner.Some?
  }

  /** The `title` path's errors: `required`, or `maxlength` on the trimmed title. */
  function TitleIssues(title: Option<string>): (r: seq<NoteIssue>)
    ensures TitleRequired in r <==> title.None? || Trim(title.value) == ""
    ensures TitleTooLong in r <==> title.Some? && |Trim(title.value)| > MaxTitleLength
    ensures r == [] <==> title.Some? && Trim(title.value) != "" && |Trim(title.value)| <= MaxTitleLength
    ensures ContentRequired !in r && OwnerRequired !in r
  {
    if title.None? then [TitleRequired]
    else
      var t := Trim(title.value);
      if t == "" then [TitleRequired] else if |t| > MaxTitleLength then [TitleTooLong] else []
  }

  /** The `content` path's error: `required` on the trimmed content. */
  function ContentIssues(content: Option<string>): (r: seq<NoteIssue>)
    ensures r == [] <==> content.Some? && Trim(content.value) != ""
    ensures r == [] || r == [ContentRequired]
  {
    if content.None? || Trim(content.value) == "" then [ContentRequired] else []
  }

  /** The validation errors of the schema, in field order. */
  function NoteIssues(f: NoteFields): (issues: seq<NoteIssue>)
    ensures issues == [] <==> ValidNote(f)
    ensures OwnerRequired in issues <==> f.owner.None?
    ensures TitleRequired in issues <==> f.title.None? || Trim(f.title.value) == ""
    ensures TitleTooLong in issues <==> f.title.Some? && |Trim(f.title.value)| > MaxTitleLength
  {
    TitleIssues(f.title) + ContentIssues(f.content) + (if f.owner.None? then [OwnerRequired] else [])
  }

  datatype SaveResult = Saved(doc: NoteDoc) | Rejected(issues: seq<NoteIssue>)

  /** `new Note(fields)` followed by the validation `save` runs. */
  function CastNote(f: NoteFields): (r: SaveResult)
    ensures r.Saved? <==> ValidNote(f)
    ensures r.Rejected? ==> r.issues != []
    ensures f.owner.None? ==> r.Rejected? && OwnerRequired in r.issues
    ensures r.Saved? ==>
      && Some(r.doc.owner) == f.owner
      && r.doc.audio == f.audio
      && r.doc.images == f.images.GetOr([])
    // the stored strings are the trimmed inputs, so they carry no surrounding spaces
    ensures r.Saved? ==>
      && r.doc.title == Trim(f.title.value) && r.doc.content == Trim(f.content.value)
      && 1 <= |r.doc.title| <= MaxTitleLength
      && !IsSpace(r.doc.title[0]) && !IsSpace(r.doc.title[|r.doc.title| - 1])
      && r.doc.content != []
  {
    var issues := NoteIssues(f);
    if issues != [] then Rejected(issues)
    else
      assert ValidNote(f);
      var title := Trim(f.title.value);
      assert 1 <= |title| <= MaxTitleLength;
      assert !IsSpace(title[0]) && !IsSpace(title[|title| - 1]);
      Saved(NoteDoc(title, Trim(f.content.value), f.images.GetOr([]), f.audio, f.owner.value))
  }

  /** The fields a stored document presents when it is read back and saved again. */
  function FieldsOf(d: NoteDoc): NoteFields {
    NoteFields(Some(d.title), Some(d.content), Some(d.images), d.audio, Some(d.owner))
  }

  /** A document the schema produced passes the schema again unchanged. */
  lemma {:induction false} CastIsStable(f: NoteFields)
    requires CastNote(f).Saved?
    ensures CastNote(FieldsOf(CastNote(f).doc)) == CastNote(f)
  {
    TrimIdempotent(f.title.value);
    TrimIdempotent(f.content.value);
  }
}
