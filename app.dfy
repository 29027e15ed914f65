/** The upload route of the web front end: the guards it checks in order, the
    fixed place it stores the upload, and how it hands the stored image to the
    preprocessing and OCR pipeline. Routing, templates, flashing and the secret
    key are not modelled; the page shown is reduced to what decides it. */
module App {
  import opened Outcomes
  import opened PythonStrings
  import opened PrescriptionDetection

  /** Which of the route's early returns applies, if any. */
  datatype Validation = NoFileUploaded | NoFileSelected | InvalidFileType | Accepted

  /** `allowed_extensions`. The source builds it as a set, so the order in which
      the tuple test tries them is unspecified; the order here is arbitrary and
      the answer does not depend on it. */
  const AllowedExtensions: seq<string> := ["png", "jpg", "jpeg"]

  const SaveDirectory: string := "static"
  const SaveName: string := "uploaded_prescription.jpg"

  /** The extension rule read directly off the lower-cased name: its last three
      characters are "png" or "jpg", or its last four are "jpeg". No dot is
      looked for. */
  predicate HasImageSuffix(filename: string) {
    ImageSuffix(Lower(filename))
  }

  predicate ImageSuffix(l: string) {
    || (|l| >= 3 && (l[|l| - 3..] == "png" || l[|l| - 3..] == "jpg"))
    || (|l| >= 4 && l[|l| - 4..] == "jpeg")
  }

  /** The guards of `upload_image`, in the order the route checks them: the
      `image` field, then an empty file name, then the extension. */
  function ValidateUpload(hasImageField: bool, filename: string): (v: Validation)
    ensures !hasImageField ==> v == NoFileUploaded
    ensures hasImageField && filename == [] ==> v == NoFileSelected
    ensures hasImageField && filename != [] && HasImageSuffix(filename) ==> v == Accepted
    ensures hasImageField && filename != [] && !HasImageSuffix(filename) ==> v == InvalidFileType
  {
    AllowedExtensionsAreImageSuffixes(Lower(filename));
    if !hasImageField then NoFileUploaded
    else if filename == [] then NoFileSelected
    else if !EndsWithAny(Lower(filename), AllowedExtensions) then InvalidFileType
    else Accepted
  }

  /** Testing the lower-cased name against each allowed extension with
      `endswith` is the direct suffix rule. */
  lemma AllowedExtensionsAreImageSuffixes(l: string)
    ensures EndsWithAny(l, AllowedExtensions) <==> ImageSuffix(l)
  {
    if ImageSuffix(l) {
      ImageSuffixIsAllowed(l);
    }
    if EndsWithAny(l, AllowedExtensions) {
      AllowedIsImageSuffix(l);
    }
  }

  lemma ImageSuffixIsAllowed(l: string)
    requires ImageSuffix(l)
    ensures EndsWithAny(l, AllowedExtensions)
  {
    var png, jpg, jpeg := AllowedExtensions[0], AllowedExtensions[1], AllowedExtensions[2];
    assert png == "png" && jpg == "jpg" && jpeg == "jpeg";
    if |l| >= 3 && l[|l| - 3..] == png {
      assert EndsWith(l, png);
    } else if |l| >= 3 && l[|l| - 3..] == jpg {
      assert EndsWith(l, jpg);
    } else {
      assert EndsWith(l, jpeg);
    }
  }

  lemma AllowedIsImageSuffix(l: string)
    requires EndsWithAny(l, AllowedExtensions)
    ensures ImageSuffix(l)
  {
    var k :| 0 <= k < |AllowedExtensions| && EndsWith(l, AllowedExtensions[k]);
    assert k == 0 || k == 1 || k == 2;
  }

  /** The message flashed for each rejected upload. */
  function FlashMessage(v: Validation): (m: string)
    requires v != Accepted
    ensures m != []
  {
    match v
    case NoFileUploaded => "No file uploaded"
    case NoFileSelected => "No file selected"
    case InvalidFileType => "Invalid file type. Please upload an image file (PNG, JPG, JPEG)"
  }

  /** Each rejection has its own message. */
  lemma FlashMessagesDistinct(v: Validation, w: Validation)
    requires v != Accepted && w != Accepted && v != w
    ensures FlashMessage(v) != FlashMessage(w)
  {
  }

  /** `os.path.join(a, b)` with the POSIX separator. */
  function PathJoin(a: string, b: string): (p: string)
    ensures b != [] && b[0] == '/' ==> p == b
    ensures (b == [] || b[0] != '/') && (a == [] || a[|a| - 1] == '/') ==> p == a + b
    ensures (b == [] || b[0] != '/') && a != [] && a[|a| - 1] != '/' ==> p == a + "/" + b
  {
    if b != [] && b[0] == '/' then b
    else if a == [] || a[|a| - 1] == '/' then a + b
    else a + "/" + b
  }

  /** Where every accepted upload is written and read back from. */
  const UploadPath: string := PathJoin(SaveDirectory, SaveName)

  lemma UploadPathIsFixed()
    ensures UploadPath == "static/uploaded_prescription.jpg"
  {
    assert SaveName[0] != '/' && SaveDirectory[|SaveDirectory| - 1] != '/';
  }

  /** What the route answers with. */
  datatype Response =
    | Rejected(reason: Validation)               // the index page, with the guard's message
    | Errored(fault: Fault)                      // the index page, with "An error occurred: ..."
    | Rendered(text: string, imagePath: string)  // the result page

  /** `upload_image`: check the request, store the upload at the fixed path
      (`save` says whether `file.save` succeeded there), preprocess the stored
      image and extract its text; any exception on the way becomes `Errored`. */
  function UploadImage<Raw, Img>(hasImageField: bool, filename: string, save: string -> bool, b: Backend<Raw, Img>): (r: Response)
    ensures r.Rejected? <==> ValidateUpload(hasImageField, filename) != Accepted
    ensures r.Rejected? ==> r.reason == ValidateUpload(hasImageField, filename)
    ensures r.Errored? ==> r.fault != FileNotFound
    ensures r.Errored? && !save(UploadPath) ==> r.fault == SaveFailed
    ensures r.Rendered? <==>
              && ValidateUpload(hasImageField, filename) == Accepted
              && save(UploadPath)
              && PreprocessAndExtract(UploadPath, b).Success?
    ensures r.Rendered? ==> r.imagePath == UploadPath && r.text != [] && IsExtractedText(r.text)
    ensures r.Rendered? ==> r.text == PreprocessAndExtract(UploadPath, b).value
    ensures r.Errored? && save(UploadPath) ==> PreprocessAndExtract(UploadPath, b).Failure? && r.fault == PreprocessAndExtract(UploadPath, b).error
  {
    var v := ValidateUpload(hasImageField, filename);
    if v != Accepted then Rejected(v)
    else if !save(UploadPath) then Errored(SaveFailed)
    else
      match PreprocessAndExtract(UploadPath, b)
      case Failure(e) => Errored(e)
      case Success(text) => Rendered(text, UploadPath)
  }

  /** Once accepted, the file name plays no further part: the upload is stored
      under the same name whatever its own extension was. */
  lemma UploadIgnoresFileName<Raw, Img>(f1: string, f2: string, save: string -> bool, b: Backend<Raw, Img>)
    requires ValidateUpload(true, f1) == Accepted && ValidateUpload(true, f2) == Accepted
    ensures UploadImage(true, f1, save, b) == UploadImage(true, f2, save, b)
  {
  }

  /** When the stored file is there, the route shows exactly what
      `process_prescription` would return for it, and fails exactly when that
      returns `None`. */
  lemma UploadAgreesWithProcessPrescription<Raw, Img>(filename: string, save: string -> bool, b: Backend<Raw, Img>)
    requires ValidateUpload(true, filename) == Accepted && save(UploadPath) && b.fileExists(UploadPath)
    ensures UploadImage(true, filename, save, b).Rendered? <==> ProcessPrescription(UploadPath, b).Some?
    ensures UploadImage(true, filename, save, b).Rendered? ==>
              UploadImage(true, filename, save, b).text == ProcessPrescription(UploadPath, b).value
  {
  }

  /** Upper and lower case are not told apart: a name and its lower-cased
      form get the same answer. */
  lemma ValidateCaseInsensitive(hasImageField: bool, filename: string)
    ensures ValidateUpload(hasImageField, filename) == ValidateUpload(hasImageField, Lower(filename))
  {
    LowerIdempotent(filename);
  }

  /** Any name ending in "png", in any case and with or without a dot before
      it, is accepted. */
  lemma EndingInPngAccepted(stem: string)
    ensures ValidateUpload(true, stem + "png") == Accepted
    ensures ValidateUpload(true, stem + "PNG") == Accepted
  {
    var l, u := Lower(stem + "png"), Lower(stem + "PNG");
    assert l[|l| - 3..] == "png";
    assert u[|u| - 3..] == "png";
  }

  lemma MissingFieldExample()
    ensures ValidateUpload(false, "scan.png") == NoFileUploaded
  {
  }

  lemma EmptyNameExample()
    ensures ValidateUpload(true, "") == NoFileSelected
  {
  }

  /** The suffix test needs no dot before the extension. */
  lemma NoDotExample()
    ensures ValidateUpload(true, "notapng") == Accepted
  {
    var l := Lower("notapng");
    assert l[|l| - 3..] == "png";
  }

  lemma BareSuffixExample()
    ensures ValidateUpload(true, "xpng") == Accepted
  {
    var l := Lower("xpng");
    assert l[|l| - 3..] == "png";
  }

  lemma UpperCaseExample()
    ensures ValidateUpload(true, "Photo.JPEG") == Accepted
  {
    var j := Lower("Photo.JPEG");
    assert j[|j| - 4..] == "jpeg";
  }

  lemma RejectedTypeExamples()
    ensures ValidateUpload(true, "photo.gif") == InvalidFileType
    ensures ValidateUpload(true, "scan.png.exe") == InvalidFileType
  {
    LowerWithoutCapitals("photo.gif");
    LowerWithoutCapitals("scan.png.exe");
  }
}
