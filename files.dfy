/**
 * The upload rules of the chat's file manager: a size cap, a MIME
 * allow-list, the stored file's name and extension, and which directory
 * entries the orphan cleanup deletes. The file system itself is outside the
 * model: a write's success, a thumbnail's creation and a directory listing
 * arrive as parameters.
 */
module Files {
  import opened Wrappers
  import opened Seqs
  import opened Text
  import opened Paths
  import opened Models
  import Assets

  /** 50 MiB. */
  const MaxFileSize: int := 50 * 1024 * 1024

  const AllowedImageTypes: seq<string> := ["image/jpeg", "image/png", "image/gif", "image/webp"]

  /** The non-image part of the allow-list. */
  const DocumentTypes: seq<string> := [
    "application/pdf",
    "application/msword",
    "application/vnd.openxmlformats-officedocument.wordprocessingml.document",
    "application/vnd.ms-excel",
    "application/vnd.openxmlformats-officedocument.spreadsheetml.sheet",
    "application/vnd.ms-powerpoint",
    "application/vnd.openxmlformats-officedocument.presentationml.presentation",
    "text/plain",
    "application/zip",
    "application/x-zip-compressed"
  ]

  const AllowedFileTypes: seq<string> := DocumentTypes + AllowedImageTypes

  datatype FileError = FileTooLarge | UnsupportedFileType | FileNotFound | UploadFailed | InvalidData

  /** `errorDescription`; the size limit is printed in whole megabytes. */
  function ErrorDescription(e: FileError): (r: string)
    ensures e == FileTooLarge ==> r == "File is too large. Maximum size is 50MB."
  {
    match e
    case FileTooLarge => "File is too large. Maximum size is " + Decimal(MaxFileSize / (1024 * 1024)) + "MB."
    case UnsupportedFileType => "File type is not supported."
    case FileNotFound => "File not found."
    case UploadFailed => "File upload failed."
    case InvalidData => "Invalid file data."
  }

  /**
   * The cases of the MIME switch of `getFileExtension`, in the switch's
   * order, and the extension each returns; the two zip types share a case.
   */
  const SwitchTypes: seq<string> := AllowedImageTypes + DocumentTypes
  const SwitchExtensions: seq<string> := ["jpg", "png", "gif", "webp", "pdf", "doc", "docx", "xls", "xlsx", "ppt", "pptx", "txt", "zip", "zip"]

  /** The MIME switch, with `bin` for anything else. */
  function MimeExtension(mimeType: string): string {
    Lookup(SwitchTypes, SwitchExtensions, mimeType, "bin")
  }

  /** A non-empty run of lower-case letters. */
  predicate Word(e: string) {
    |e| > 0 && forall k :: 0 <= k < |e| ==> 'a' <= e[k] <= 'z'
  }

  lemma SwitchExtensionWords(lo: nat, hi: nat)
    requires lo <= hi <= |SwitchExtensions| && hi - lo <= 4
    ensures forall i :: lo <= i < hi ==> Word(SwitchExtensions[i])
  {
  }

  /** The switch and the allow-list name the same fourteen types: exactly the allowed ones get a specific extension. */
  lemma MimeExtensionCoversAllowed(mimeType: string)
    ensures MimeExtension(mimeType) != "bin" <==> mimeType in AllowedFileTypes
  {
    forall i | 0 <= i < |SwitchExtensions|
      ensures SwitchExtensions[i] != "bin"
    {
    }
    assert mimeType in AllowedFileTypes <==> mimeType in SwitchTypes;
  }

  /**
   * `getFileExtension(for:originalFileName:)`: the original name's extension,
   * lower-cased, when it has one; otherwise the extension for the MIME type.
   */
  function FileExtension(mimeType: string, originalFileName: string): (r: string)
    ensures PathExtension(originalFileName) != [] ==> r == Lower(PathExtension(originalFileName))
    ensures PathExtension(originalFileName) == [] ==> r == MimeExtension(mimeType)
  {
    var original := Lower(PathExtension(originalFileName));
    if original != [] then original else MimeExtension(mimeType)
  }

  /** Every extension the MIME switch yields is a non-empty plain word. */
  lemma MimeExtensionPlain(mimeType: string)
    ensures var e := MimeExtension(mimeType); e != [] && '.' !in e && '/' !in e
  {
    SwitchExtensionWords(0, 4);
    SwitchExtensionWords(4, 8);
    SwitchExtensionWords(8, 12);
    SwitchExtensionWords(12, 14);
    assert Word(MimeExtension(mimeType));
  }

  /** The chosen extension is never empty and holds no `.` or `/`. */
  lemma FileExtensionPlain(mimeType: string, originalFileName: string)
    ensures var e := FileExtension(mimeType, originalFileName); e != [] && '.' !in e && '/' !in e
  {
    var ext := PathExtension(originalFileName);
    if ext != [] {
      PathExtensionShape(originalFileName);
      Assets.LowerKeepsAbsent(ext, '.');
      Assets.LowerKeepsAbsent(ext, '/');
    } else {
      MimeExtensionPlain(mimeType);
    }
  }

  /**
   * The stored name is the fresh id, a dot and the chosen extension, so
   * reading the stored name's extension gives the chosen extension back.
   */
  lemma StoredNameExtension(nameId: Uuid, mimeType: string, originalFileName: string)
    requires |nameId| > 0 && nameId[|nameId| - 1] != '/'
    ensures PathExtension(nameId + "." + FileExtension(mimeType, originalFileName)) == FileExtension(mimeType, originalFileName)
  {
    FileExtensionPlain(mimeType, originalFileName);
    PathExtensionOf(nameId, FileExtension(mimeType, originalFileName));
  }

  /** Why `saveUploadedFile` did not return an attachment: a validation error, or the write threw. */
  datatype SaveOutcome = Saved(attachment: FileAttachment) | Rejected(reason: FileError) | WriteFailed

  /**
   * `saveUploadedFile(data:originalFileName:mimeType:)` on `size` bytes,
   * with the fresh UUID string of the stored name, whether the write
   * succeeded, what `createThumbnail` would return, and the attachment's own
   * fresh id and time.
   */
  function SaveUploadedFile(size: nat, originalFileName: string, mimeType: string, nameId: Uuid, written: bool,
                            thumbnail: Option<string>, attachmentId: Uuid, now: Date): SaveOutcome {
    if size > MaxFileSize then Rejected(FileTooLarge)
    else if mimeType !in AllowedFileTypes then Rejected(UnsupportedFileType)
    else
      var uniqueFileName := nameId + "." + FileExtension(mimeType, originalFileName);
      if !written then WriteFailed
      else
        var thumbnailPath := if HasPrefix(mimeType, ImagePrefix) then thumbnail else None;
        Saved(NewFileAttachment(uniqueFileName, originalFileName, mimeType, size, "uploads/" + uniqueFileName,
                                thumbnailPath, attachmentId, now))
  }

  /** The size is checked first: data over the cap is refused as too large whatever its type. */
  lemma SaveRejectsLarge(size: nat, originalFileName: string, mimeType: string, nameId: Uuid, written: bool,
                         thumbnail: Option<string>, attachmentId: Uuid, now: Date)
    ensures SaveUploadedFile(size, originalFileName, mimeType, nameId, written, thumbnail, attachmentId, now) == Rejected(FileTooLarge)
            <==> size > MaxFileSize
  {
  }

  /** Data within the cap is refused as unsupported exactly when its type is not allowed. */
  lemma SaveRejectsType(size: nat, originalFileName: string, mimeType: string, nameId: Uuid, written: bool,
                        thumbnail: Option<string>, attachmentId: Uuid, now: Date)
    requires size <= MaxFileSize
    ensures SaveUploadedFile(size, originalFileName, mimeType, nameId, written, thumbnail, attachmentId, now) == Rejected(UnsupportedFileType)
            <==> mimeType !in AllowedFileTypes
  {
  }

  /**
   * An upload is saved exactly when it is within the cap, of an allowed type
   * and written. The attachment records the byte count, a stored name of the
   * fresh id, a dot and the chosen extension, the path under `uploads/`, and
   * a thumbnail only for an image type.
   */
  lemma SavedAttachment(size: nat, originalFileName: string, mimeType: string, nameId: Uuid, written: bool,
                        thumbnail: Option<string>, attachmentId: Uuid, now: Date)
    ensures var r := SaveUploadedFile(size, originalFileName, mimeType, nameId, written, thumbnail, attachmentId, now);
            && (r.Saved? <==> size <= MaxFileSize && mimeType in AllowedFileTypes && written)
            && (r.Saved? ==>
                  && r.attachment.fileSize == size
                  && r.attachment.fileName == nameId + "." + FileExtension(mimeType, originalFileName)
                  && r.attachment.filePath == "uploads/" + r.attachment.fileName
                  && r.attachment.mimeType == mimeType && r.attachment.originalFileName == originalFileName
                  && (r.attachment.isImage <==> HasPrefix(mimeType, ImagePrefix))
                  && r.attachment.thumbnailPath == (if r.attachment.isImage then thumbnail else None))
  {
  }

  /** Every allowed image type has the `image/` prefix, so those uploads may get a thumbnail. */
  lemma AllowedImagesAreImages(mimeType: string)
    requires mimeType in AllowedImageTypes
    ensures mimeType in AllowedFileTypes && HasPrefix(mimeType, ImagePrefix)
  {
    var i :| 0 <= i < 4 && AllowedImageTypes[i] == mimeType;
  }

  // ----------------------------------------------------------------- cleanup

  /** The stored names of the valid attachments. */
  function ValidFileNames(valid: seq<FileAttachment>): set<string> {
    set a | a in valid :: a.fileName
  }

  /** The last `/`-separated piece of each valid thumbnail path. */
  function ValidThumbnailNames(valid: seq<FileAttachment>): set<string> {
    set a | a in valid && a.thumbnailPath.Some? :: LastComponent(a.thumbnailPath.value)
  }

  /** A directory entry the cleanup removes. */
  predicate IsOrphan(name: string, fileNames: set<string>, thumbnailNames: set<string>) {
    name != "thumbnails" && name !in fileNames && name !in thumbnailNames
  }

  /** The entries of `files` that are orphans, in listing order. */
  function Orphans(files: seq<string>, fileNames: set<string>, thumbnailNames: set<string>): seq<string> {
    if |files| == 0 then []
    else
      var init := Orphans(files[..|files| - 1], fileNames, thumbnailNames);
      if IsOrphan(files[|files| - 1], fileNames, thumbnailNames) then init + [files[|files| - 1]] else init
  }

  /** An entry is removed exactly when it is listed and an orphan. */
  lemma {:induction false} OrphansExact(files: seq<string>, fileNames: set<string>, thumbnailNames: set<string>, name: string)
    ensures name in Orphans(files, fileNames, thumbnailNames) <==> name in files && IsOrphan(name, fileNames, thumbnailNames)
    decreases |files|
  {
    if |files| > 0 {
      var init := files[..|files| - 1];
      OrphansExact(init, fileNames, thumbnailNames, name);
      assert files == init + [files[|files| - 1]];
    }
  }

  /**
   * The cleanup never removes the thumbnails directory, a valid attachment's
   * file, or the file a valid thumbnail path ends in.
   */
  lemma CleanupKeepsValid(files: seq<string>, valid: seq<FileAttachment>, a: FileAttachment)
    requires a in valid
    ensures var removed := Orphans(files, ValidFileNames(valid), ValidThumbnailNames(valid));
            && "thumbnails" !in removed
            && a.fileName !in removed
            && (a.thumbnailPath.Some? ==> LastComponent(a.thumbnailPath.value) !in removed)
  {
    var fileNames, thumbnailNames := ValidFileNames(valid), ValidThumbnailNames(valid);
    OrphansExact(files, fileNames, thumbnailNames, "thumbnails");
    OrphansExact(files, fileNames, thumbnailNames, a.fileName);
    assert a.fileName in fileNames;
    if a.thumbnailPath.Some? {
      OrphansExact(files, fileNames, thumbnailNames, LastComponent(a.thumbnailPath.value));
      assert LastComponent(a.thumbnailPath.value) in thumbnailNames;
    }
  }

  /**
   * `cleanupOrphanedFiles(validAttachments:)` over a directory listing (None
   * when it could not be read): the `removeItem` calls it issues, in order.
   */
  method CleanupOrphanedFiles(listing: Option<seq<string>>, valid: seq<FileAttachment>) returns (removed: seq<string>)
    ensures listing.None? ==> removed == []
    ensures listing.Some? ==> removed == Orphans(listing.value, ValidFileNames(valid), ValidThumbnailNames(valid))
  {
    removed := [];
    if listing.None? {
      return;
    }
    var files := listing.value;
    var fileNames := set a | a in valid :: a.fileName;
    var thumbnailNames := set a | a in valid && a.thumbnailPath.Some? :: LastComponent(a.thumbnailPath.value);
    var i := 0;
    while i < |files|
      invariant 0 <= i <= |files|
      invariant removed == Orphans(files[..i], fileNames, thumbnailNames)
    {
      assert files[..i + 1][..i] == files[..i];
      var name := files[i];
      if name != "thumbnails" && name !in fileNames && name !in thumbnailNames {
        removed := removed + [name];
      }
      i := i + 1;
    }
    assert files[..i] == files;
  }
}
