/**
  `DocumentUploadSerializer.validate_file`: the checks an uploaded file must
  pass before it is stored and handed to the pipeline.
 */
module Upload {
  import opened Common
  import opened Text

  /** The whitelist, already in lower case; `.doc` is on it although no loader reads it. */
  const ALLOWED_EXTENSIONS: seq<string> := [".pdf", ".doc", ".docx", ".txt"]

  /** 10 MB. */
  const MAX_UPLOAD_SIZE: int := 10 * 1024 * 1024

  /** The two attributes of the uploaded file that the validator reads. */
  datatype UploadedFile = UploadedFile(name: string, size: int)

  datatype ValidationError = UnsupportedExtension | FileTooLarge {
    /** The message carried by the `ValidationError` the serializer raises. */
    function Message(): string {
      match this
      case UnsupportedExtension => "Only PDF, DOC, DOCX, and TXT files are allowed."
      case FileTooLarge => "File size cannot exceed 10 MB."
    }
  }

  /** The lower-cased extension the whitelist is checked against. */
  function UploadExtension(file: UploadedFile): string {
    Lower(Extension(file.name))
  }

  /**
    Accepts the file, unchanged, exactly when its lower-cased extension is
    whitelisted and its size is at most 10 MB; the extension is checked first,
    so a file failing both checks is refused for its extension.
   */
  function ValidateFile(file: UploadedFile): (r: Result<UploadedFile, ValidationError>)
    ensures r.Ok? <==> UploadExtension(file) in ALLOWED_EXTENSIONS && file.size <= MAX_UPLOAD_SIZE
    ensures r.Ok? ==> r.value == file
    ensures UploadExtension(file) !in ALLOWED_EXTENSIONS ==> r == Err(UnsupportedExtension)
    ensures UploadExtension(file) in ALLOWED_EXTENSIONS && file.size > MAX_UPLOAD_SIZE ==> r == Err(FileTooLarge)
  {
    if UploadExtension(file) !in ALLOWED_EXTENSIONS then Err(UnsupportedExtension)
    else if file.size > MAX_UPLOAD_SIZE then Err(FileTooLarge)
    else Ok(file)
  }

  /** The size limit is inclusive: 10 MB exactly passes, one byte more does not. */
  lemma SizeLimitBoundary(name: string)
    requires Lower(Extension(name)) in ALLOWED_EXTENSIONS
    ensures ValidateFile(UploadedFile(name, MAX_UPLOAD_SIZE)) == Ok(UploadedFile(name, MAX_UPLOAD_SIZE))
    ensures ValidateFile(UploadedFile(name, MAX_UPLOAD_SIZE + 1)) == Err(FileTooLarge)
  {
  }

  /** The verdict does not depend on the letter case of the file name. */
  lemma ValidateIgnoresCase(file: UploadedFile)
    ensures ValidateFile(file.(name := Lower(file.name))) == (if ValidateFile(file).Ok? then Ok(file.(name := Lower(file.name))) else ValidateFile(file))
  {
    ExtensionLower(file.name);
    LowerIdempotent(Extension(file.name));
  }

  /** A file named only by its extension, such as `.pdf`, has no extension and is refused. */
  lemma BareExtensionRefused(e: string, size: int)
    requires Dotted(e)
    ensures ValidateFile(UploadedFile(e, size)) == Err(UnsupportedExtension)
  {
    DottedHasNoExtension(e);
  }

  /** Every whitelisted extension has the shape `splitext` can return. */
  lemma WhitelistDotted(e: string)
    requires e in ALLOWED_EXTENSIONS
    ensures Dotted(e)
  {
  }

  /** A whitelisted extension appended to a name is accepted in any letter case, up to the size limit. */
  lemma AcceptsNamedFile(stem: string, ext: string, size: int)
    requires Lower(ext) in ALLOWED_EXTENSIONS
    requires HasNonDot(stem, LastIndex(stem, '/') + 1, |stem|)
    requires size <= MAX_UPLOAD_SIZE
    ensures ValidateFile(UploadedFile(stem + ext, size)).Ok?
  {
    assert Extension(stem + ext) == ext by {
      WhitelistDotted(Lower(ext));
      DottedLower(ext);
      ExtensionOfName(stem, ext);
    }
  }
}
