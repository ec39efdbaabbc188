/**
  The upload handler: a POST either carries no usable file, carries a file of a
  type that is not allowed, or is saved under the sanitised name in the upload
  folder. Each request ends in exactly one flash message, and at most one write.

  The sanitiser and the path join are not modelled: the application object is
  built with them as arbitrary functions, and nothing is assumed about them.
 */
module Upload {
  import opened Filenames

  type Bytes = seq<bv8>
  type Path = string

  /** The folder every upload is written into. */
  const UploadFolder: Path := "/Volumes/users/jason_taylor/agent_app_uploads"

  const NoFileSelected: string := "No file selected"
  const InvalidFileType: string := "Invalid file type. Please upload an allowed file type."

  /**
    The success flash: the saved name in double quotes after "File ", so the
    name can be read back from the message, and it never reads as either error.
   */
  function SuccessMessage(name: string): (m: string)
    ensures |m| == |name| + 47
    ensures m[..6] == "File \"" && m[6..6 + |name|] == name
    ensures m != NoFileSelected && m != InvalidFileType
  {
    "File \"" + name + "\" uploaded successfully to Unity Catalog!"
  }

  datatype Category = Error | Success

  /** One flashed message with its category, as shown on the next page load. */
  datatype Flash = Flash(message: string, category: Category)

  /** The part of a POST to the upload route that the handler reads. */
  datatype Request =
    | NoFileField
    | FileField(filename: string, content: Bytes)

  /** What one request does: an error flash alone, or one write and a success flash. */
  datatype Outcome =
    | Rejected(flash: Flash)
    | Saved(target: Path, content: Bytes, flash: Flash)

  /**
    The handler's decision for one request. It is saved exactly when a file
    field is present, its raw name is non-empty and that raw name passes the
    allow-list; the sanitiser is applied only afterwards, to choose the target.
   */
  function Decide(req: Request, sanitise: string -> string, join: (Path, string) -> Path): (o: Outcome)
    ensures o.Saved? <==> req.FileField? && req.filename != "" && AllowedFile(req.filename)
    ensures o.Saved? ==>
      && o.target == join(UploadFolder, sanitise(req.filename))
      && o.content == req.content
      && o.flash == Flash(SuccessMessage(sanitise(req.filename)), Success)
    ensures o.Rejected? ==> o.flash.category == Error
    ensures o.Rejected? ==> (o.flash.message == NoFileSelected <==> req.NoFileField? || req.filename == "")
    ensures o.Rejected? ==> (o.flash.message == InvalidFileType <==> req.FileField? && req.filename != "")
  {
    match req
    case NoFileField => Rejected(Flash(NoFileSelected, Error))
    case FileField(filename, content) =>
      if filename == "" then Rejected(Flash(NoFileSelected, Error))
      else if AllowedFile(filename) then
        var name := sanitise(filename);
        Saved(join(UploadFolder, name), content, Flash(SuccessMessage(name), Success))
      else Rejected(Flash(InvalidFileType, Error))
  }

  /** The store after an outcome: unchanged when rejected, one entry overwritten when saved. */
  function Apply(store: map<Path, Bytes>, o: Outcome): (after: map<Path, Bytes>)
    ensures o.Rejected? ==> after == store
    ensures o.Saved? ==> after.Keys == store.Keys + {o.target} && after[o.target] == o.content
    ensures o.Saved? ==> forall p :: p in store && p != o.target ==> after[p] == store[p]
  {
    match o
    case Rejected(_) => store
    case Saved(target, content, _) => store[target := content]
  }

  /** A missing file field or an empty filename: "No file selected", nothing written. */
  lemma MissingFileRejected(store: map<Path, Bytes>, req: Request, sanitise: string -> string, join: (Path, string) -> Path)
    requires req.NoFileField? || req.filename == ""
    ensures Decide(req, sanitise, join) == Rejected(Flash(NoFileSelected, Error))
    ensures Apply(store, Decide(req, sanitise, join)) == store
  {
  }

  /** A non-empty raw name that fails the allow-list: "Invalid file type", nothing written. */
  lemma DisallowedTypeRejected(store: map<Path, Bytes>, req: Request, sanitise: string -> string, join: (Path, string) -> Path)
    requires req.FileField? && req.filename != "" && !AllowedFile(req.filename)
    ensures Decide(req, sanitise, join) == Rejected(Flash(InvalidFileType, Error))
    ensures Apply(store, Decide(req, sanitise, join)) == store
  {
  }

  /**
    An allowed raw name: exactly one entry, at the joined sanitised name, now
    holds the uploaded bytes (replacing any earlier content); every other entry
    is untouched.
   */
  lemma AcceptedWritesOnce(store: map<Path, Bytes>, req: Request, sanitise: string -> string, join: (Path, string) -> Path)
    requires req.FileField? && req.filename != "" && AllowedFile(req.filename)
    ensures var target := join(UploadFolder, sanitise(req.filename));
      var after := Apply(store, Decide(req, sanitise, join));
      && after.Keys == store.Keys + {target}
      && after[target] == req.content
      && (forall p :: p in store && p != target ==> after[p] == store[p])
  {
  }

  /**
    Two saved uploads whose targets collide leave the store as if only the
    second had happened: last write wins. The raw names may differ, as when
    the sanitiser maps "a b.pdf" and "a_b.pdf" to the same name.
   */
  lemma LastWriteWins(store: map<Path, Bytes>, first: Request, second: Request, sanitise: string -> string, join: (Path, string) -> Path)
    requires Decide(first, sanitise, join).Saved? && Decide(second, sanitise, join).Saved?
    requires Decide(first, sanitise, join).target == Decide(second, sanitise, join).target
    ensures var o1 := Decide(first, sanitise, join);
      var o2 := Decide(second, sanitise, join);
      Apply(Apply(store, o1), o2) == Apply(store, o2)
  {
  }

  /** Colliding sanitised names are enough for two allowed uploads to share a target. */
  lemma SameSanitisedNameCollides(first: Request, second: Request, sanitise: string -> string, join: (Path, string) -> Path)
    requires first.FileField? && first.filename != "" && AllowedFile(first.filename)
    requires second.FileField? && second.filename != "" && AllowedFile(second.filename)
    requires sanitise(first.filename) == sanitise(second.filename)
    ensures Decide(first, sanitise, join).Saved? && Decide(second, sanitise, join).Saved?
    ensures Decide(first, sanitise, join).target == Decide(second, sanitise, join).target
  {
  }

  /** Whether a request is saved depends on the raw name only, never on the sanitiser or the join. */
  lemma DecisionIgnoresSanitiser(req: Request, sanitise1: string -> string, join1: (Path, string) -> Path, sanitise2: string -> string, join2: (Path, string) -> Path)
    ensures Decide(req, sanitise1, join1).Saved? == Decide(req, sanitise2, join2).Saved?
    ensures Decide(req, sanitise1, join1).Rejected? ==> Decide(req, sanitise1, join1) == Decide(req, sanitise2, join2)
  {
  }

  /** The raw name "report.pdf" passes the allow-list. */
  lemma ReportNameAllowed()
    ensures AllowedFile("report.pdf")
  {
    assert "report.pdf" == "report" + "." + "pdf";
    ListedExtensionAccepted("report", "pdf");
  }

  /** Its dot-less form "report_pdf" does not. */
  lemma DotlessReportRejected()
    ensures !AllowedFile("report_pdf")
  {
    assert '.' !in "report_pdf";
  }

  /**
    Validation is applied to the raw name before sanitising: a sanitiser that
    turns "report.pdf" into the dot-less "report_pdf" still gets the file
    saved, under a name the allow-list itself would reject.
   */
  lemma ValidatedBeforeSanitising(content: Bytes, join: (Path, string) -> Path)
    ensures var o := Decide(FileField("report.pdf", content), _ => "report_pdf", join);
      o.Saved? && o.target == join(UploadFolder, "report_pdf") && !AllowedFile("report_pdf")
  {
    ReportNameAllowed();
    DotlessReportRejected();
  }

  /** The name "notes.txt" passes the allow-list. */
  lemma NotesNameAllowed()
    ensures AllowedFile("notes.txt")
  {
    assert "notes.txt" == "notes" + "." + "txt";
    ListedExtensionAccepted("notes", "txt");
  }

  /** The handler never looks at the bytes: an empty upload with an allowed name is saved. */
  lemma EmptyContentSaved(store: map<Path, Bytes>, sanitise: string -> string, join: (Path, string) -> Path)
    ensures var o := Decide(FileField("notes.txt", []), sanitise, join);
      o.Saved? && Apply(store, o)[o.target] == []
  {
    NotesNameAllowed();
  }

  /**
    The running application: the files in the upload folder and the flashed
    messages of the session, with the sanitiser and the path join it was
    started with.
   */
  class UploadApp {
    var store: map<Path, Bytes>
    var flashes: seq<Flash>
    const sanitise: string -> string
    const join: (Path, string) -> Path

    constructor (store: map<Path, Bytes>, sanitise: string -> string, join: (Path, string) -> Path)
      ensures this.store == store && flashes == []
      ensures this.sanitise == sanitise && this.join == join
    {
      this.store := store;
      flashes := [];
      this.sanitise := sanitise;
      this.join := join;
    }

    /**
      Handles one POST: checks in order that the file field is present, that
      its name is non-empty and that the name is allowed; flashes exactly one
      message and writes at most once.
     */
    method UploadFile(req: Request)
      modifies this
      ensures var o := Decide(req, sanitise, join);
        && store == Apply(old(store), o)
        && flashes == old(flashes) + [o.flash]
    {
      if req.NoFileField? {
        flashes := flashes + [Flash(NoFileSelected, Error)];
        return;
      }
      if req.filename == "" {
        flashes := flashes + [Flash(NoFileSelected, Error)];
        return;
      }
      if AllowedFile(req.filename) {
        var filename := sanitise(req.filename);
        var filepath := join(UploadFolder, filename);
        store := store[filepath := req.content];
        flashes := flashes + [Flash(SuccessMessage(filename), Success)];
      } else {
        flashes := flashes + [Flash(InvalidFileType, Error)];
      }
    }
  }
}
