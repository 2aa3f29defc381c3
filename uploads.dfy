/**
 * Image uploads of the blog platform: the `$_FILES` entry a form submits, the
 * type-then-size checks, the stored file name, and the upload directory as a
 * set of file names. Writing a file adds its name to the set, `unlink` removes it.
 */
module Uploads {
  import opened Base
  import opened Php

  /**
   * One `$_FILES[...]` entry. `declaredType` is the browser-supplied `type`;
   * `sniffedType` is what `finfo_file` reports for the temporary file.
   */
  datatype UploadedFile = UploadedFile(name: string, declaredType: string, sniffedType: string, size: nat, error: int)

  /** `UPLOAD_ERR_OK`. */
  const UploadErrOk := 0

  /** `5 * 1024 * 1024`: the largest accepted size, in bytes, inclusive. */
  const MaxImageBytes := 5 * 1024 * 1024

  const PostImageTypes: seq<string> := ["image/jpeg", "image/png", "image/gif"]
  const RegisterImageTypes: seq<string> := ["image/jpeg", "image/png", "image/gif", "image/webp"]

  const TypeRejected := "Please upload a valid image file (JPEG, PNG, or GIF)."
  const RegisterTypeRejected := "Please upload a valid image file (JPEG, PNG, GIF, or WebP)."
  const TooLarge := "Image file is too large. Maximum size is 5MB."
  const MoveFailed := "Failed to upload image."
  const RegisterMoveFailed := "Failed to upload image. Please try again."

  /** `isset($file) && $file['error'] === UPLOAD_ERR_OK`: a file actually arrived. */
  predicate Received(file: Option<UploadedFile>): (r: bool)
    ensures r ==> file.Some?
    ensures file.Some? ==> (r <==> file.value.error == UploadErrOk)
  {
    file.Some? && file.value.error == UploadErrOk
  }

  /** PHP truthiness of a nullable file-name column: null, "" and "0" are false. */
  predicate Truthy(name: Option<string>) {
    name.Some? && !Empty(name.value)
  }

  /**
   * `if ($name && file_exists(dir . $name)) unlink(dir . $name)`: removing a
   * name that is not in the directory changes nothing, so the existence test
   * needs no separate case.
   */
  function Unlink(files: set<string>, name: Option<string>): (r: set<string>)
    ensures Truthy(name) ==> r == files - {name.value}
    ensures !Truthy(name) ==> r == files
  {
    if Truthy(name) then files - {name.value} else files
  }

  /**
   * The two checks every upload function runs before touching the disk, type
   * first: `None` when the file passes both.
   */
  function CheckImage(mime: string, size: nat, allowed: seq<string>, typeMessage: string): (r: Option<Error>)
    ensures r.None? <==> mime in allowed && size <= MaxImageBytes
    ensures mime !in allowed ==> r == Some(Msg(typeMessage))
    ensures mime in allowed && size > MaxImageBytes ==> r == Some(Msg(TooLarge))
  {
    if mime !in allowed then Some(Msg(typeMessage))
    else if size > MaxImageBytes then Some(Msg(TooLarge))
    else None
  }

  /** `prefix . uniqid() . '.' . pathinfo($name, PATHINFO_EXTENSION)`. */
  function StoredName(prefix: string, token: string, original: string): (r: string)
    ensures |r| == |prefix| + |token| + 1 + |Extension(original)|
    ensures r[..|prefix|] == prefix && r[|prefix|..|prefix| + |token|] == token
    ensures r[|prefix| + |token|] == '.' && r[|prefix| + |token| + 1..] == Extension(original)
  {
    prefix + token + "." + Extension(original)
  }

  /** What an upload step leaves behind: the image column's new value or the exception raised, and the directory. */
  datatype Upload = Upload(image: Result<Option<string>>, files: set<string>)

  /**
   * `uploadImage($file, $oldImage)` of edit_post.php and `uploadProfileImage`
   * of profile.php, and with `current == None` also `uploadImage($file)` of
   * add_post.php: no file keeps `current` (the old image); a wrong declared type or an oversized
   * file throws before anything is written; otherwise the current file is unlinked
   * first, then the new one is moved in (`moveOk` is what `move_uploaded_file`
   * returned, `token` what `uniqid()` returned).
   */
  function ReplaceImage(files: set<string>, file: Option<UploadedFile>, current: Option<string>,
                        prefix: string, token: string, moveOk: bool): (r: Upload)
    ensures !Received(file) ==> r == Upload(Ok(current), files)
    ensures r.image.Ok? && r.image.value != current ==>
      Received(file) && r.image == Ok(Some(StoredName(prefix, token, file.value.name)))
      && r.files == Unlink(files, current) + {StoredName(prefix, token, file.value.name)}
    ensures r.image.Err? ==> Received(file) && r.files <= files
    ensures Received(file) && CheckImage(file.value.declaredType, file.value.size, PostImageTypes, TypeRejected).Some? ==>
      r == Upload(Err(CheckImage(file.value.declaredType, file.value.size, PostImageTypes, TypeRejected).value), files)
    ensures Received(file) && CheckImage(file.value.declaredType, file.value.size, PostImageTypes, TypeRejected).None? ==>
      (r.image.Ok? <==> moveOk)
      && (moveOk ==> r == Upload(Ok(Some(StoredName(prefix, token, file.value.name))),
                                 Unlink(files, current) + {StoredName(prefix, token, file.value.name)}))
      && (!moveOk ==> r == Upload(Err(Msg(MoveFailed)), Unlink(files, current)))
  {
    if !Received(file) then Upload(Ok(current), files)
    else
      var f := file.value;
      match CheckImage(f.declaredType, f.size, PostImageTypes, TypeRejected)
      case Some(e) => Upload(Err(e), files)
      case None =>
        var cleared := Unlink(files, current);
        var name := StoredName(prefix, token, f.name);
        if moveOk then Upload(Ok(Some(name)), cleared + {name})
        else Upload(Err(Msg(MoveFailed)), cleared)
  }

  /**
   * `uploadImage($file)` of add_post.php, called when a file entry was
   * submitted: no received file gives null and writes nothing; a rejection or a
   * failed move writes nothing; a stored file is `post_` + token + "." + the
   * original extension, added to the directory.
   */
  function AddImage(files: set<string>, file: Option<UploadedFile>, token: string, moveOk: bool): (r: Upload)
    ensures !Received(file) ==> r == Upload(Ok(None), files)
    ensures r.image.Ok? && r.image.value.Some? ==>
      Received(file) && r.image.value.value == StoredName("post_", token, file.value.name)
      && r.files == files + {r.image.value.value}
    ensures r.image.Err? || r.image == Ok(None) ==> r.files == files
    ensures Received(file) && CheckImage(file.value.declaredType, file.value.size, PostImageTypes, TypeRejected).Some? ==>
      r == Upload(Err(CheckImage(file.value.declaredType, file.value.size, PostImageTypes, TypeRejected).value), files)
    ensures Received(file) && CheckImage(file.value.declaredType, file.value.size, PostImageTypes, TypeRejected).None? ==>
      (r.image.Ok? <==> moveOk)
  {
    if file.Some? then ReplaceImage(files, file, None, "post_", token, moveOk) else Upload(Ok(None), files)
  }

  /**
   * The image step of the edit and profile handlers: `remove_image == '1'`
   * wins and unlinks the current file; otherwise a submitted file goes through
   * `ReplaceImage`; otherwise the current image stays.
   */
  function ChooseImage(files: set<string>, remove: bool, file: Option<UploadedFile>, current: Option<string>,
                       prefix: string, token: string, moveOk: bool): (r: Upload)
    ensures remove ==> r == Upload(Ok(None), Unlink(files, current))
    ensures !remove && !Received(file) ==> r == Upload(Ok(current), files)
    ensures !remove ==> r == ReplaceImage(files, file, current, prefix, token, moveOk)
  {
    if remove then Upload(Ok(None), Unlink(files, current))
    else if file.Some? then ReplaceImage(files, file, current, prefix, token, moveOk)
    else Upload(Ok(current), files)
  }

  /**
   * A replace whose move fails has already unlinked the current file, while the
   * record, which is not updated, still names it.
   */
  lemma ReplaceLosesOldFile(files: set<string>, file: Option<UploadedFile>, current: Option<string>, prefix: string, token: string)
    requires Received(file)
    requires CheckImage(file.value.declaredType, file.value.size, PostImageTypes, TypeRejected).None?
    requires Truthy(current)
    ensures ReplaceImage(files, file, current, prefix, token, false).image == Err(Msg(MoveFailed))
    ensures current.value !in ReplaceImage(files, file, current, prefix, token, false).files
  {
  }

  /** The declared type is looked at before the size: a wrong type is reported even for an oversized file. */
  lemma TypeCheckedFirst(mime: string, size: nat, allowed: seq<string>, typeMessage: string)
    requires mime !in allowed
    ensures CheckImage(mime, size, allowed, typeMessage) == Some(Msg(typeMessage))
  {
  }

  /** A file of exactly 5 MiB is accepted; one byte more is refused. */
  lemma SizeBoundInclusive(mime: string, allowed: seq<string>, typeMessage: string)
    requires mime in allowed
    ensures CheckImage(mime, MaxImageBytes, allowed, typeMessage) == None
    ensures CheckImage(mime, MaxImageBytes + 1, allowed, typeMessage) == Some(Msg(TooLarge))
  {
  }

  /**
   * `RegisterController::handleImageUpload`: the type is the sniffed MIME type,
   * WebP is allowed, the name is `profile_` + token + the lower-cased extension,
   * and there is no current file to remove.
   */
  function RegisterUpload(files: set<string>, file: Option<UploadedFile>, token: string, moveOk: bool): (r: Upload)
    ensures !Received(file) ==> r == Upload(Ok(None), files)
    ensures r.image.Ok? && r.image.value.Some? ==>
      Received(file) && r.image.value.value == "profile_" + token + "." + Lower(Extension(file.value.name))
      && r.files == files + {r.image.value.value} && Truthy(r.image.value)
    ensures r.image.Err? || r.image == Ok(None) ==> r.files == files
    ensures Received(file) && CheckImage(file.value.sniffedType, file.value.size, RegisterImageTypes, RegisterTypeRejected).Some? ==>
      r == Upload(Err(CheckImage(file.value.sniffedType, file.value.size, RegisterImageTypes, RegisterTypeRejected).value), files)
    ensures Received(file) && CheckImage(file.value.sniffedType, file.value.size, RegisterImageTypes, RegisterTypeRejected).None? ==>
      (r.image.Ok? <==> moveOk) && (r.image.Err? ==> r.image.error == Msg(RegisterMoveFailed))
  {
    if !Received(file) then Upload(Ok(None), files)
    else
      var f := file.value;
      match CheckImage(f.sniffedType, f.size, RegisterImageTypes, RegisterTypeRejected)
      case Some(e) => Upload(Err(e), files)
      case None =>
        var name := "profile_" + token + "." + Lower(Extension(f.name));
        if moveOk then Upload(Ok(Some(name)), files + {name})
        else Upload(Err(Msg(RegisterMoveFailed)), files)
  }

  /** Registration trusts the sniffed content type, not the one the browser declared. */
  lemma RegisterIgnoresDeclaredType(files: set<string>, f: UploadedFile, g: UploadedFile, token: string, moveOk: bool)
    requires f.(declaredType := g.declaredType) == g
    ensures RegisterUpload(files, Some(f), token, moveOk) == RegisterUpload(files, Some(g), token, moveOk)
  {
  }
}
