/**
 * zotero/downloader.py: copy the PDF attachment of the Zotero item with a
 * given DOI to `docs/{sanitised DOI}.pdf`.
 *
 * The database and the disk are parameters: `itemByDoi` is the DOI query
 * (the first matching itemID, if any), `attachmentOf` the attachment query
 * (the first `(key, path)` row of a stored PDF of an item, if any), and
 * `files` the set of paths `os.path.isfile` accepts. The home-expanded
 * locations of the database and the storage directory are given in `Config`.
 */
module Downloader {
  import opened Wrappers
  import opened Text
  import opened Paths

  /** One row of the attachment query: the attachment's own item key and its stored path. */
  datatype AttachmentRow = AttachmentRow(childKey: string, rawPath: string)

  /** `~/Zotero/zotero.sqlite` and `~/Zotero/storage`, after `os.path.expanduser`. */
  datatype Config = Config(dbPath: string, storageDir: string)

  const StoragePrefix: string := "storage:"

  /** The `storage:` prefix removed once, when the stored path starts with it. */
  function StripStoragePrefix(rawPath: string): (filename: string)
    ensures StartsWith(rawPath, StoragePrefix) ==> rawPath == StoragePrefix + filename
    ensures !StartsWith(rawPath, StoragePrefix) ==> filename == rawPath
  {
    if StartsWith(rawPath, StoragePrefix) then rawPath[|StoragePrefix|..] else rawPath
  }

  /** The prefix goes exactly once: a stored `storage:` + `f` gives `f`, whatever `f` starts with. */
  lemma StripStoragePrefixOnce(f: string)
    ensures StripStoragePrefix(StoragePrefix + f) == f
  {
    assert (StoragePrefix + f)[..|StoragePrefix|] == StoragePrefix;
  }

  /**
   * `get_pdf_attachment_path`: None without an attachment row, otherwise
   * the storage directory joined with the attachment's key and its file name.
   */
  function GetPdfAttachmentPath(config: Config, row: Option<AttachmentRow>): (path: Option<string>)
    ensures path.None? <==> row.None?
  {
    match row
    case None => None
    case Some(AttachmentRow(childKey, rawPath)) =>
      Some(PathJoin(PathJoin(config.storageDir, childKey), StripStoragePrefix(rawPath)))
  }

  /**
   * For the usual layout (a storage directory without a trailing '/', a
   * key without '/' and a relative file name) the attachment lies at
   * `{storage}/{key}/{filename}`.
   */
  lemma AttachmentPathLayout(config: Config, childKey: string, rawPath: string)
    requires config.storageDir != "" && config.storageDir[|config.storageDir| - 1] != '/'
    requires childKey != "" && forall c <- childKey :: c != '/'
    requires !StartsWith(StripStoragePrefix(rawPath), "/")
    ensures GetPdfAttachmentPath(config, Some(AttachmentRow(childKey, rawPath))) ==
      Some(config.storageDir + "/" + childKey + "/" + StripStoragePrefix(rawPath))
  {
    assert childKey[0] in childKey && childKey[|childKey| - 1] in childKey;
    assert childKey[..1] == [childKey[0]];
    var dir := PathJoin(config.storageDir, childKey);
    assert dir == config.storageDir + "/" + childKey;
    assert dir[|dir| - 1] == childKey[|childKey| - 1];
  }

  /** How a run of the script ends. */
  datatype Outcome =
    /** `sys.exit(code)` before anything was copied */
    | Exited(code: int)
    /** `shutil.copyfile(source, target)` */
    | Copied(source: string, target: string)

  /** `docs/{sanitize_filename(doi)}.pdf` */
  function OutputFile(doi: string): (target: string)
    ensures target == DocsDir + "/" + SanitizeFilename(doi) + ".pdf"
  {
    SanitizeSafe(doi);
    assert ".pdf"[..1] == ['.'];
    DocsPath(SanitizeFilename(doi), ".pdf")
  }

  /**
   * `main`: the usage and empty-DOI checks and the missing database end
   * with status 1; a DOI without an item (a missing or zero itemID), an
   * item without a PDF attachment and an attachment missing on disk end
   * with status 0; otherwise the attachment is copied from its place on
   * disk to the docs path of the sanitised, stripped DOI.
   */
  function Download(argv: seq<string>, config: Config, files: set<string>,
                    itemByDoi: string -> Option<int>, attachmentOf: int -> Option<AttachmentRow>): (outcome: Outcome)
    ensures outcome.Exited? ==> outcome.code == 0 || outcome.code == 1
    ensures outcome == Exited(1) <==> |argv| < 2 || AllSpace(Python, argv[1]) || config.dbPath !in files
    ensures outcome.Copied? <==>
      && |argv| >= 2 && !AllSpace(Python, argv[1]) && config.dbPath in files
      && var doi := Strip(Python, argv[1]);
         itemByDoi(doi).Some? && itemByDoi(doi).value != 0
         && var path := GetPdfAttachmentPath(config, attachmentOf(itemByDoi(doi).value));
            path.Some? && path.value != "" && path.value in files
    ensures outcome.Copied? ==>
      && outcome.source in files
      && outcome.source == GetPdfAttachmentPath(config, attachmentOf(itemByDoi(Strip(Python, argv[1])).value)).value
      && outcome.target == DocsDir + "/" + SanitizeFilename(Strip(Python, argv[1])) + ".pdf"
  {
    if |argv| < 2 then Exited(1)
    else
      StripEmpty(Python, argv[1]);
      var doi := Strip(Python, argv[1]);
      if doi == "" then Exited(1)
      else if config.dbPath !in files then Exited(1)
      else
        var itemId := itemByDoi(doi);
        if itemId.None? || itemId.value == 0 then Exited(0)
        else
          var pdfPath := GetPdfAttachmentPath(config, attachmentOf(itemId.value));
          if pdfPath.None? || pdfPath.value == "" then Exited(0)
          else if pdfPath.value !in files then Exited(0)
          else Copied(pdfPath.value, OutputFile(doi))
  }
}
