/**
 * File-type validation and the stored path of an uploaded image
 * (`allowed_file` and the name construction of `save_image` in main.py).
 */
module Upload {
  import opened Wrappers
  import opened Text

  const AllowedExtensions: set<string> := {"jpg", "jpeg", "png"}

  /** `app.config['UPLOAD_FOLDER']` as it appears in a stored path. */
  const UploadDir: string := "static/uploads/"

  /** `filename.rsplit('.', 1)[1]`: what follows the last dot, if there is a dot. */
  function Extension(filename: string): (r: Option<string>)
    ensures r.None? <==> '.' !in filename
    ensures r.Some? ==> '.' !in r.value && EndsWith(filename, "." + r.value)
  {
    match LastIndexOf(filename, '.')
    case None => None
    case Some(i) =>
      assert filename[i..] == "." + filename[i + 1..];
      Some(filename[i + 1..])
  }

  /** `allowed_file(filename)`. */
  predicate AllowedFile(filename: string)
    ensures AllowedFile(filename) ==> Extension(filename).Some? && |filename| >= 4
  {
    match Extension(filename)
    case None => false
    case Some(e) => Lower(e) in AllowedExtensions
  }

  /** `s` ends with `suffix` once lowered; `suffix` is already lower case. */
  predicate EndsWithFolded(s: string, suffix: string)
  {
    |suffix| <= |s| && Lower(s[|s| - |suffix|..]) == suffix
  }

  /** A name ends, ignoring case, in a dot and one of the allowed extensions. */
  predicate HasImageName(filename: string)
  {
    EndsWithFolded(filename, ".jpg") || EndsWithFolded(filename, ".jpeg") || EndsWithFolded(filename, ".png")
  }

  /** A name is accepted exactly when it ends, ignoring case, in `.jpg`, `.jpeg` or `.png`. */
  lemma AllowedFileBySuffix(filename: string)
    ensures AllowedFile(filename) <==> HasImageName(filename)
  {
    if AllowedFile(filename) {
      SuffixFromAllowedFile(filename);
    }
    if HasImageName(filename) {
      AllowedFileFromSuffix(filename);
    }
  }

  lemma SuffixFromAllowedFile(filename: string)
    requires AllowedFile(filename)
    ensures HasImageName(filename)
  {
    var x := Lower(Extension(filename).value);
    FoldedSuffixOfExtension(filename);
    if x == "jpg" {
      assert "." + x == ".jpg";
    } else if x == "jpeg" {
      assert "." + x == ".jpeg";
    } else {
      assert "." + x == ".png";
    }
  }

  lemma AllowedFileFromSuffix(filename: string)
    requires HasImageName(filename)
    ensures AllowedFile(filename)
  {
    if EndsWithFolded(filename, ".jpg") {
      assert "." + "jpg" == ".jpg";
      ExtensionOfFoldedSuffix(filename, "jpg");
    } else if EndsWithFolded(filename, ".jpeg") {
      assert "." + "jpeg" == ".jpeg";
      ExtensionOfFoldedSuffix(filename, "jpeg");
    } else {
      assert "." + "png" == ".png";
      ExtensionOfFoldedSuffix(filename, "png");
    }
  }

  /** A name with an extension ends in a dot followed by that extension, and lowering commutes with it. */
  lemma FoldedSuffixOfExtension(filename: string)
    requires Extension(filename).Some?
    ensures EndsWithFolded(filename, "." + Lower(Extension(filename).value))
  {
    var e := Extension(filename).value;
    var t := filename[|filename| - |e| - 1..];
    assert t == "." + e;
    assert Lower(t) == "." + Lower(e);
  }

  /** If `filename` ends in a dot followed by something that lowers to the dot-free `x`, `x` is its lowered extension. */
  lemma ExtensionOfFoldedSuffix(filename: string, x: string)
    requires '.' !in x && EndsWithFolded(filename, "." + x)
    ensures Extension(filename).Some? && Lower(Extension(filename).value) == x
  {
    var p := |filename| - |x| - 1;
    var t := filename[p..];
    assert Lower(t)[0] == '.';
    assert filename[p] == '.';
    forall j | p < j < |filename| ensures filename[j] != '.' {
      assert Lower(t)[j - p] == x[j - p - 1];
    }
    assert LastIndexOf(filename, '.').value == p;
    assert Extension(filename).value == t[1..];
    assert Lower(t[1..]) == Lower(t)[1..];
  }

  /** An upper-case extension and a name that is only an extension are accepted. */
  lemma AcceptedExamples()
    ensures AllowedFile("photo.JPG") && AllowedFile(".png")
  {
    UpperCaseAccepted();
    DotOnlyAccepted();
  }

  lemma UpperCaseAccepted()
    ensures AllowedFile("photo.JPG")
  {
    assert Lower("photo.JPG"[5..]) == ".jpg";
    ExtensionOfFoldedSuffix("photo.JPG", "jpg");
  }

  lemma DotOnlyAccepted()
    ensures AllowedFile(".png")
  {
    assert Lower(".png"[0..]) == ".png";
    ExtensionOfFoldedSuffix(".png", "png");
  }

  /** Another extension, and a name without a dot, are refused. */
  lemma RejectedExamples()
    ensures !AllowedFile("photo.gif") && !AllowedFile("png")
  {
    assert Lower("photo.gif"[6..]) == "gif";
    ExtensionOfFoldedSuffix("photo.gif", "gif");
    assert '.' !in "png";
  }

  /** `if image and image.filename`: a file part with an empty name counts as no image. */
  predicate HasFile(image: Option<string>)
    ensures HasFile(image) <==> image != None && image != Some("")
  {
    image.Some? && image.value != ""
  }

  /**
   * `email.split('@')[0].replace('.', '_').replace('-', '_')`: the caller's
   * local part with dots and dashes turned into underscores.
   */
  function Sanitize(email: string): (r: string)
    ensures '@' !in r && '.' !in r && '-' !in r
    ensures |r| <= |email| && '@' !in email[..|r|]
    ensures |r| < |email| ==> email[|r|] == '@'
    ensures forall i :: 0 <= i < |r| ==> r[i] == (if email[i] == '.' || email[i] == '-' then '_' else email[i])
  {
    Replace(Replace(Before(email, '@'), '.', '_'), '-', '_')
  }

  /** An image path as `save_image` stores it for `owner`. */
  predicate IsUploadPathFor(owner: string, path: string)
  {
    && StartsWith(path, UploadDir + Sanitize(owner) + "_")
    && HasImageSuffix(path)
  }

  predicate HasImageSuffix(path: string)
  {
    EndsWith(path, ".jpg") || EndsWith(path, ".jpeg") || EndsWith(path, ".png")
  }

  /** `f'static/uploads/{sanitized_email_prefix}_{timestamp}.{extension}'`. */
  function UploadPath(email: string, stamp: string, ext: string): (r: string)
    ensures |r| == |UploadDir| + |Sanitize(email)| + |stamp| + |ext| + 2
    ensures StartsWith(r, UploadDir)
  {
    Affixes(UploadDir, Sanitize(email) + "_" + stamp + "." + ext);
    assert UploadDir + Sanitize(email) + "_" + stamp + "." + ext == UploadDir + (Sanitize(email) + "_" + stamp + "." + ext);
    UploadDir + Sanitize(email) + "_" + stamp + "." + ext
  }

  /** A stored path starts with the upload folder, the caller's prefix and `_`, and ends with an allowed extension. */
  lemma UploadPathShape(email: string, stamp: string, ext: string)
    requires ext in AllowedExtensions
    ensures IsUploadPathFor(email, UploadPath(email, stamp, ext))
  {
    var head := UploadDir + Sanitize(email) + "_";
    var tail := stamp + "." + ext;
    assert UploadPath(email, stamp, ext) == head + tail;
    Affixes(head, tail);
    assert UploadPath(email, stamp, ext) == (head + stamp) + ("." + ext);
    Affixes(head + stamp, "." + ext);
    DotExtension(UploadPath(email, stamp, ext), ext);
  }

  /** A path ending in a dot and an allowed extension ends in `.jpg`, `.jpeg` or `.png`. */
  lemma DotExtension(path: string, ext: string)
    requires ext in AllowedExtensions && EndsWith(path, "." + ext)
    ensures HasImageSuffix(path)
  {
    if ext == "jpg" {
      assert "." + ext == ".jpg";
    } else if ext == "jpeg" {
      assert "." + ext == ".jpeg";
    } else {
      assert "." + ext == ".png";
    }
  }

  /**
   * `save_image(image, email)` with the `strftime` timestamp passed in as
   * `stamp`: the stored path, or `None` when there is no acceptable image.
   */
  function SaveImage(image: Option<string>, email: string, stamp: string): (r: Option<string>)
    ensures r.Some? <==> HasFile(image) && AllowedFile(image.value)
    ensures r.Some? ==> IsUploadPathFor(email, r.value)
    ensures r.Some? ==> r.value == UploadPath(email, stamp, Lower(Extension(image.value).value))
  {
    if HasFile(image) && AllowedFile(image.value) then
      var ext := Lower(Extension(image.value).value);
      UploadPathShape(email, stamp, ext);
      Some(UploadPath(email, stamp, ext))
    else
      None
  }
}
