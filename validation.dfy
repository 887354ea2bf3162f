/** The checks an enrollment goes through, in the order the code makes them:
    the form checks of the `add_employee` route, then the image checks of
    `FaceRecognitionSystem.add_new_employee`. The duplicate-id check is the
    table's UNIQUE constraint and lives with the database. */
module Validation {
  import opened Common

  const AllowedExtensions: set<string> := {"png", "jpg", "jpeg"}

  /** Python's `str.isspace`, which `str.strip()` removes from both ends. */
  predicate IsSpace(c: char) {
    var n := c as int;
    || 0x09 <= n <= 0x0D || 0x1C <= n <= 0x20 || n == 0x85 || n == 0xA0 || n == 0x1680
    || 0x2000 <= n <= 0x200A || n == 0x2028 || n == 0x2029 || n == 0x202F || n == 0x205F || n == 0x3000
  }

  function StripLeft(s: string): (r: string)
    ensures |r| <= |s| && r == s[|s| - |r|..]
    ensures forall k :: 0 <= k < |s| - |r| ==> IsSpace(s[k])
    ensures r == [] || !IsSpace(r[0])
  {
    if s != [] && IsSpace(s[0]) then StripLeft(s[1..]) else s
  }

  function StripRight(s: string): (r: string)
    ensures |r| <= |s| && r == s[..|r|]
    ensures forall k :: |r| <= k < |s| ==> IsSpace(s[k])
    ensures r == [] || !IsSpace(r[|r| - 1])
  {
    if s != [] && IsSpace(s[|s| - 1]) then StripRight(s[..|s| - 1]) else s
  }

  /** `str.strip()`: the text between the leading and the trailing white space. */
  function Strip(s: string): (r: string)
    ensures r == [] || (!IsSpace(r[0]) && !IsSpace(r[|r| - 1]))
    ensures var i := |s| - |StripLeft(s)|;
            && i + |r| <= |s| && r == s[i..i + |r|]
            && (forall k :: 0 <= k < i ==> IsSpace(s[k]))
            && (forall k :: i + |r| <= k < |s| ==> IsSpace(s[k]))
  {
    StripRight(StripLeft(s))
  }

  predicate IsAsciiAlnum(c: char) {
    ('a' <= c <= 'z') || ('A' <= c <= 'Z') || ('0' <= c <= '9')
  }

  /** `str.isalnum()` on ASCII text: not empty, letters and digits only.
      Such a text holds no white space, so stripping leaves it as it is. */
  function IsAlnum(s: string): (ok: bool)
    ensures ok <==> |s| > 0 && forall i :: 0 <= i < |s| ==> IsAsciiAlnum(s[i])
    ensures ok ==> forall i :: 0 <= i < |s| ==> !IsSpace(s[i]) && s[i] != '@' && s[i] != '.'
    ensures ok ==> Strip(s) == s
  {
    |s| > 0 && forall i :: 0 <= i < |s| ==> IsAsciiAlnum(s[i])
  }

  /** An upper-case ASCII letter becomes its lower-case partner; every
      other character stays. */
  function LowerChar(c: char): (d: char)
    ensures !('A' <= d <= 'Z')
    ensures 'A' <= c <= 'Z' ==> 'a' <= d <= 'z' && d as int == c as int + 32
    ensures !('A' <= c <= 'Z') ==> d == c
  {
    if 'A' <= c <= 'Z' then (c as int + 32) as char else c
  }

  /** `str.lower()` on ASCII letters: character by character, so the result
      has the same length and no upper-case letter. */
  function Lower(s: string): (r: string)
    ensures |r| == |s|
    ensures forall i :: 0 <= i < |s| ==> r[i] == LowerChar(s[i])
    ensures forall i :: 0 <= i < |r| ==> !('A' <= r[i] <= 'Z')
  {
    seq(|s|, i requires 0 <= i < |s| => LowerChar(s[i]))
  }

  /** The position of the last '.', where `rsplit('.', 1)` cuts. */
  function LastDot(s: string): (r: Option<nat>)
    ensures r.Some? ==> r.value < |s| && s[r.value] == '.'
    ensures r.Some? ==> forall j :: r.value < j < |s| ==> s[j] != '.'
    ensures r.None? <==> forall j :: 0 <= j < |s| ==> s[j] != '.'
  {
    if s == [] then None
    else if s[|s| - 1] == '.' then Some(|s| - 1)
    else
      assert forall j :: 0 <= j < |s| - 1 ==> s[..|s| - 1][j] == s[j];
      LastDot(s[..|s| - 1])
  }

  /** `allowed_file`: there is a '.' and the lower-cased text after the last
      one is an allowed extension. An allowed name therefore ends in '.' and
      png or jpg, or in '.' and jpeg, in any mix of case. */
  function AllowedFile(filename: string): (ok: bool)
    ensures ok ==>
              || (|filename| >= 4 && filename[|filename| - 4] == '.' && Lower(filename[|filename| - 3..]) in {"png", "jpg"})
              || (|filename| >= 5 && filename[|filename| - 5] == '.' && Lower(filename[|filename| - 4..]) == "jpeg")
  {
    match LastDot(filename)
    case None => false
    case Some(i) =>
      var ext := filename[i + 1..];
      assert |ext| == |Lower(ext)|;
      assert Lower(ext) in AllowedExtensions ==> |ext| == 3 || |ext| == 4;
      assert ext == filename[|filename| - |ext|..];
      Lower(ext) in AllowedExtensions
  }

  /** `allowed_file(f)` holds exactly when `f` is some stem, a '.', and an
      extension without a '.' whose lower case is png, jpg or jpeg. */
  lemma AllowedFileMeans(filename: string)
    ensures AllowedFile(filename) <==>
            exists stem: string, ext: string ::
              && filename == stem + "." + ext
              && NoDot(ext)
              && Lower(ext) in AllowedExtensions
  {
    if AllowedFile(filename) {
      AllowedFileSplits(filename);
    }
    if exists stem: string, ext: string ::
         && filename == stem + "." + ext
         && NoDot(ext)
         && Lower(ext) in AllowedExtensions
    {
      var stem: string, ext: string :|
        && filename == stem + "." + ext
        && NoDot(ext)
        && Lower(ext) in AllowedExtensions;
      SplitIsAllowed(stem, ext);
    }
  }

  /** An allowed file name splits as stem, '.', extension without a '.',
      and the lower case of that extension is png, jpg or jpeg. */
  lemma AllowedFileSplits(filename: string)
    requires AllowedFile(filename)
    ensures exists stem: string, ext: string ::
              && filename == stem + "." + ext
              && NoDot(ext)
              && Lower(ext) in AllowedExtensions
  {
    var i := LastDot(filename).value;
    SplitAtLastDot(filename, i);
    var stem, ext := filename[..i], filename[i + 1..];
    assert filename == stem + "." + ext && NoDot(ext) && Lower(ext) in AllowedExtensions;
  }

  /** Cutting at the last '.' gives the stem, the '.' and a dot-free rest. */
  lemma SplitAtLastDot(filename: string, i: nat)
    requires LastDot(filename) == Some(i)
    ensures filename == filename[..i] + "." + filename[i + 1..]
    ensures NoDot(filename[i + 1..])
  {
    assert [filename[i]] == ".";
    assert filename == filename[..i] + [filename[i]] + filename[i + 1..];
    var ext := filename[i + 1..];
    assert forall j :: 0 <= j < |ext| ==> ext[j] == filename[i + 1 + j];
  }

  /** Conversely, any such split makes the file name allowed. */
  lemma SplitIsAllowed(stem: string, ext: string)
    requires NoDot(ext) && Lower(ext) in AllowedExtensions
    ensures AllowedFile(stem + "." + ext)
  {
    var filename := stem + "." + ext;
    assert filename[|stem|] == '.';
    assert forall j :: |stem| < j < |filename| ==> filename[j] == ext[j - |stem| - 1];
    assert LastDot(filename) == Some(|stem|);
    assert filename[|stem| + 1..] == ext;
  }

  predicate NoDot(s: string) {
    forall j :: 0 <= j < |s| ==> s[j] != '.'
  }

  /** The form fields of the enrollment request; `photo` is the file name of
      the uploaded part, `None` when there is no `photo` part. */
  datatype Form = Form(employeeId: string, name: string, email: string, department: string, photo: Option<string>)

  /** The form checks, in the order they are made. */
  datatype FormError = MissingFields | InvalidEmployeeId | InvalidEmail | NoPhoto | InvalidFileType

  function Rank(e: FormError): nat {
    match e
    case MissingFields => 0
    case InvalidEmployeeId => 1
    case InvalidEmail => 2
    case NoPhoto => 3
    case InvalidFileType => 4
  }

  /** The flash message of each form check. */
  function FormMessage(e: FormError): string {
    match e
    case MissingFields => "All fields are required."
    case InvalidEmployeeId => "Employee ID must contain only letters and numbers"
    case InvalidEmail => "Please enter a valid email address"
    case NoPhoto => "No photo selected"
    case InvalidFileType => "Invalid file type. Please upload a PNG, JPG, or JPEG image"
  }

  /** The fields as `request.form.get(..., '').strip()` reads them. */
  function Stripped(f: Form): Form {
    Form(Strip(f.employeeId), Strip(f.name), Strip(f.email), Strip(f.department), f.photo)
  }

  /** Whether a (stripped) form passes check `e`. */
  predicate Passes(f: Form, e: FormError) {
    match e
    case MissingFields => f.employeeId != "" && f.name != "" && f.email != "" && f.department != ""
    case InvalidEmployeeId => IsAlnum(f.employeeId)
    case InvalidEmail => '@' in f.email
    case NoPhoto => f.photo.Some? && f.photo.value != ""
    case InvalidFileType => f.photo.Some? && AllowedFile(f.photo.value)
  }

  /** The form checks of the route on the stripped fields, stopping at the
      first that fails. */
  function ValidateForm(raw: Form): (r: Result<Form, FormError>)
    ensures r.Success? ==> r.value == Stripped(raw)
    ensures r.Failure? ==> !Passes(Stripped(raw), r.error)
  {
    CheckFields(Stripped(raw))
  }

  function CheckFields(f: Form): (r: Result<Form, FormError>)
    ensures r.Success? ==> r.value == f
    ensures r.Failure? ==> !Passes(f, r.error)
  {
    if !(f.employeeId != "" && f.name != "" && f.email != "" && f.department != "") then Failure(MissingFields)
    else if !IsAlnum(f.employeeId) then Failure(InvalidEmployeeId)
    else if '@' !in f.email then Failure(InvalidEmail)
    else if f.photo.None? || f.photo.value == "" then Failure(NoPhoto)
    else if !AllowedFile(f.photo.value) then Failure(InvalidFileType)
    else Success(f)
  }

  /** A form is accepted exactly when it passes every check; a refused form
      is refused by the first check, in the route's order, that it fails. */
  lemma ValidateFormReportsFirstFailure(raw: Form)
    ensures ValidateForm(raw).Success? <==> forall e :: Passes(Stripped(raw), e)
    ensures var r := ValidateForm(raw);
            r.Failure? ==> !Passes(Stripped(raw), r.error) &&
                           forall e :: Rank(e) < Rank(r.error) ==> Passes(Stripped(raw), e)
  {
    CheckFieldsInOrder(Stripped(raw));
  }

  lemma CheckFieldsInOrder(f: Form)
    ensures CheckFields(f).Success? <==> forall e :: Passes(f, e)
    ensures var r := CheckFields(f);
            r.Failure? ==> !Passes(f, r.error) && forall e :: Rank(e) < Rank(r.error) ==> Passes(f, e)
  {
    var r := CheckFields(f);
    if r.Success? {
      forall e
        ensures Passes(f, e)
      {
        match e
        case MissingFields =>
        case InvalidEmployeeId =>
        case InvalidEmail =>
        case NoPhoto =>
        case InvalidFileType =>
      }
    } else {
      assert !Passes(f, r.error);
      forall e | Rank(e) < Rank(r.error)
        ensures Passes(f, e)
      {
        match e
        case MissingFields =>
        case InvalidEmployeeId =>
        case InvalidEmail =>
        case NoPhoto =>
        case InvalidFileType =>
      }
    }
  }

  /** The saved upload as `add_new_employee` finds it: absent, failing to load
      (with the exception text), or loaded with its size and one encoding per
      detected face. */
  datatype ImageFile = Missing | Unreadable(reason: string) | Loaded(size: nat, faces: seq<seq<real>>)

  datatype ImageError = ImageNotFound | ProcessingError(reason: string) | CorruptImage | NoFace | MultipleFaces

  function ImageMessage(e: ImageError): string {
    match e
    case ImageNotFound => "Image file not found"
    case ProcessingError(reason) => "Error processing image: " + reason
    case CorruptImage => "Invalid or corrupt image file"
    case NoFace => "No face detected in the image. Please use a clear front-facing photo"
    case MultipleFaces => "Multiple faces detected. Please use an image with only one face"
  }

  /** The image checks of `add_new_employee`, in order; on success the
      encoding of the one face found. */
  function CheckImage(img: ImageFile): (r: Result<seq<real>, ImageError>)
    ensures r.Success? <==> img.Loaded? && img.size > 0 && |img.faces| == 1
    ensures r == Failure(ImageNotFound) <==> img.Missing?
    ensures (r.Failure? && r.error.ProcessingError?) <==> img.Unreadable?
    ensures img.Unreadable? ==> r == Failure(ProcessingError(img.reason))
    ensures r.Success? ==> r.value == img.faces[0]
    ensures r == Failure(NoFace) <==> img.Loaded? && img.size > 0 && |img.faces| == 0
    ensures r == Failure(MultipleFaces) <==> img.Loaded? && img.size > 0 && |img.faces| > 1
    ensures r == Failure(CorruptImage) <==> img.Loaded? && img.size == 0
  {
    match img
    case Missing => Failure(ImageNotFound)
    case Unreadable(reason) => Failure(ProcessingError(reason))
    case Loaded(size, faces) =>
      if size == 0 then Failure(CorruptImage)
      else if |faces| == 0 then Failure(NoFace)
      else if |faces| > 1 then Failure(MultipleFaces)
      else Success(faces[0])
  }
}
