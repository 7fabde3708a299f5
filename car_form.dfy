/** src/components/CarForm.jsx: the create/edit form. Its validation rules, the image checks, the
    storage path and the submitted record are functions; the form's `imageUrl`, `uploading` and
    `loading` state and its field values live in a class. */
module CarForm {
  import opened Wrappers
  import opened Text
  import opened Schema

  // ----- validation rules of register(...) ---------------------------------------------------

  /** The values of the four registered inputs. An empty number input is `None`. */
  datatype FormValues = FormValues(carId: string, make: string, model: string, year: Option<int>)

  const EmptyValues := FormValues("", "", "", None)

  datatype Field = CarIdField | MakeField | ModelField | YearField

  /** The rule that failed; react-hook-form reports only the first failing rule of a field, trying
      `required` first, then `min`/`max`, then `minLength`, then `pattern`. */
  datatype Rule = Required | Min | Max | MinLength | Pattern

  datatype FieldError = FieldError(field: Field, rule: Rule)

  const MakeMinLength := 2
  const ModelMinLength := 1
  const MinYear := 1900

  /** A character of the class `[A-Za-z0-9-_]`; the `-` after `0-9` is a literal hyphen. */
  predicate IsCarIdChar(c: char) {
    'A' <= c <= 'Z' || 'a' <= c <= 'z' || '0' <= c <= '9' || c == '-' || c == '_'
  }

  /** The regular expression `/^[A-Za-z0-9-_]+$/`: one character of the class, then either the end
      of the input or another match of the `+`. */
  predicate MatchesCarIdPattern(s: string)
    decreases |s|
  {
    |s| > 0 && IsCarIdChar(s[0]) && (|s| == 1 || MatchesCarIdPattern(s[1..]))
  }

  /** The `car_id` pattern accepts exactly the non-empty strings of letters, digits, `-` and `_`. */
  lemma {:induction false} CarIdPatternIff(s: string)
    ensures MatchesCarIdPattern(s) <==> |s| > 0 && forall i :: 0 <= i < |s| ==> IsCarIdChar(s[i])
    decreases |s|
  {
    if |s| > 1 {
      CarIdPatternIff(s[1..]);
      assert forall i :: 1 <= i < |s| ==> s[i] == s[1..][i - 1];
    }
  }

  /** `required` and `pattern` of the `car_id` input. */
  function CarIdError(s: string): (e: Option<Rule>)
    ensures e.None? <==> |s| > 0 && forall i :: 0 <= i < |s| ==> IsCarIdChar(s[i])
    ensures e == Some(Required) <==> s == ""
  {
    CarIdPatternIff(s);
    if s == "" then Some(Required)
    else if !MatchesCarIdPattern(s) then Some(Pattern)
    else None
  }

  /** `required` and `minLength` of a text input; `minLength` compares JavaScript's `.length`,
      which counts UTF-16 code units. */
  function TextError(s: string, minLength: nat): (e: Option<Rule>)
    ensures e.None? <==> s != "" && Utf16Length(s) >= minLength
    ensures e == Some(Required) <==> s == ""
  {
    if s == "" then Some(Required)
    else if Utf16Length(s) < minLength then Some(MinLength)
    else None
  }

  /** The greatest accepted year, `new Date().getFullYear() + 1`. */
  function MaxYear(currentYear: int): int {
    currentYear + 1
  }

  /** `required`, `min` and `max` of the `year` input. react-hook-form tests both bounds together
      and reports `max` when both fail, which happens only when the current year is before 1899. */
  function YearError(year: Option<int>, currentYear: int): (e: Option<Rule>)
    ensures e.None? <==> year.Some? && MinYear <= year.value <= MaxYear(currentYear)
    ensures e == Some(Max) <==> year.Some? && year.value > MaxYear(currentYear)
    ensures e == Some(Min) <==> year.Some? && year.value < MinYear && year.value <= MaxYear(currentYear)
  {
    match year
    case None => Some(Required)
    case Some(y) =>
      if y > MaxYear(currentYear) then Some(Max)
      else if y < MinYear then Some(Min)
      else None
  }

  function ErrorsOf(field: Field, e: Option<Rule>): seq<FieldError> {
    match e
    case None => []
    case Some(rule) => [FieldError(field, rule)]
  }

  /** The errors of the form, one per failing field: the first rule it fails. `handleSubmit` calls
      `onSubmit` only when there is none. */
  function Validate(v: FormValues, currentYear: int): (errs: seq<FieldError>)
    ensures errs == [] <==>
      && (|v.carId| > 0 && forall i :: 0 <= i < |v.carId| ==> IsCarIdChar(v.carId[i]))
      && Utf16Length(v.make) >= MakeMinLength
      && Utf16Length(v.model) >= ModelMinLength
      && v.year.Some? && MinYear <= v.year.value <= MaxYear(currentYear)
    ensures forall e :: e in errs <==>
      || (e.field == CarIdField && CarIdError(v.carId) == Some(e.rule))
      || (e.field == MakeField && TextError(v.make, MakeMinLength) == Some(e.rule))
      || (e.field == ModelField && TextError(v.model, ModelMinLength) == Some(e.rule))
      || (e.field == YearField && YearError(v.year, currentYear) == Some(e.rule))
  {
    ErrorsOf(CarIdField, CarIdError(v.carId))
      + ErrorsOf(MakeField, TextError(v.make, MakeMinLength))
      + ErrorsOf(ModelField, TextError(v.model, ModelMinLength))
      + ErrorsOf(YearField, YearError(v.year, currentYear))
  }

  // ----- handleImageChange -------------------------------------------------------------------

  /** The part of a browser `File` the form reads. */
  datatype ImageFile = ImageFile(name: string, size: nat, mimeType: string)

  const MaxImageBytes := 5 * 1024 * 1024
  const AllowedTypes: seq<string> := ["image/jpeg", "image/jpg", "image/png"]

  datatype ImageCheck = NoFile | TooLarge | WrongType | Accepted(file: ImageFile)

  /** The checks of `handleImageChange`: the size first, then the MIME type. */
  function CheckImage(file: Option<ImageFile>): (c: ImageCheck)
    ensures c == NoFile <==> file.None?
    ensures c == TooLarge <==> file.Some? && file.value.size > MaxImageBytes
    ensures c.Accepted? <==> file.Some? && file.value.size <= MaxImageBytes && file.value.mimeType in AllowedTypes
    ensures c.Accepted? ==> c.file == file.value
  {
    match file
    case None => NoFile
    case Some(f) =>
      if f.size > MaxImageBytes then TooLarge
      else if f.mimeType !in AllowedTypes then WrongType
      else Accepted(f)
  }

  // ----- uploadImage -------------------------------------------------------------------------

  /** `lastIndexOf('.')`: the position of the last `.` in `s`, if any. */
  function LastDot(s: string): (k: Option<nat>)
    ensures k.Some? ==> k.value < |s| && s[k.value] == '.' && forall j :: k.value < j < |s| ==> s[j] != '.'
    ensures k.None? ==> forall j :: 0 <= j < |s| ==> s[j] != '.'
    decreases |s|
  {
    if s == [] then None
    else if s[|s| - 1] == '.' then Some(|s| - 1)
    else LastDot(s[..|s| - 1])
  }

  /** A `.` with no `.` after it is the last one. */
  lemma LastDotAt(s: string, i: nat)
    requires i < |s| && s[i] == '.'
    requires forall j :: i < j < |s| ==> s[j] != '.'
    ensures LastDot(s) == Some(i)
  {
  }

  /** `name.split('.').pop()`: the longest suffix of `name` without a `.`; it is the whole name or
      follows a `.`. */
  function FileExt(name: string): (ext: string)
    ensures forall j :: 0 <= j < |ext| ==> ext[j] != '.'
    ensures |ext| <= |name| && ext == name[|name| - |ext|..]
    ensures |ext| < |name| ==> name[|name| - |ext| - 1] == '.'
  {
    match LastDot(name)
    case None => name
    case Some(i) => name[i + 1..]
  }

  /** The extension of `prefix + "." + ext` is `ext` whenever `ext` has no dot. */
  lemma FileExtAfterDot(prefix: string, ext: string)
    requires forall j :: 0 <= j < |ext| ==> ext[j] != '.'
    ensures FileExt(prefix + "." + ext) == ext
  {
    var name := prefix + "." + ext;
    assert name[|prefix|] == '.';
    assert forall j :: |prefix| < j < |name| ==> name[j] == ext[j - |prefix| - 1];
    LastDotAt(name, |prefix|);
    assert name[|prefix| + 1..] == ext;
  }

  /** `${user.id}/${Math.random()}.${fileExt}`; the random name is passed in. */
  function StoragePath(userId: Uid, randomName: string, fileName: string): string {
    userId + "/" + randomName + "." + FileExt(fileName)
  }

  /** The stored object sits under the user's own folder: the path starts with the user's id and
      a `/`. */
  lemma StoragePathOwner(userId: Uid, randomName: string, fileName: string)
    ensures |StoragePath(userId, randomName, fileName)| > |userId|
    ensures forall i :: 0 <= i < |userId| ==> StoragePath(userId, randomName, fileName)[i] == userId[i]
    ensures StoragePath(userId, randomName, fileName)[|userId|] == '/'
  {
    var folder := userId + "/";
    assert forall i :: 0 <= i < |userId| ==> folder[i] == userId[i];
  }

  /** The stored object keeps the extension of the chosen file. */
  lemma StoragePathExt(userId: Uid, randomName: string, fileName: string)
    ensures FileExt(StoragePath(userId, randomName, fileName)) == FileExt(fileName)
  {
    FileExtAfterDot(userId + "/" + randomName, FileExt(fileName));
  }

  /** The prefix the storage SDK puts before a path of the `car-images` bucket. */
  const PublicPrefix := "/storage/v1/object/public/car-images/"

  /** `getPublicUrl(path)` for the project at `projectUrl`. */
  function PublicUrl(projectUrl: string, path: string): string {
    projectUrl + PublicPrefix + path
  }

  /** Different storage paths give different public URLs. */
  lemma PublicUrlInjective(projectUrl: string, p: string, q: string)
    requires PublicUrl(projectUrl, p) == PublicUrl(projectUrl, q)
    ensures p == q
  {
    var n := |projectUrl + PublicPrefix|;
    assert PublicUrl(projectUrl, p)[n..] == p;
    assert PublicUrl(projectUrl, q)[n..] == q;
  }

  // ----- onSubmit and fetchCar ---------------------------------------------------------------

  /** The `carData` object: `year` parsed to an integer, the current `imageUrl`, the user's id. */
  function CarRecord(v: FormValues, imageUrl: string, user: Uid): (d: CarData)
    requires v.year.Some?
    ensures d.carId == v.carId && d.make == v.make && d.model == v.model && d.year == v.year.value
    ensures d.imageUrl == Some(imageUrl) && d.userId == Some(user)
  {
    CarData(v.carId, v.make, v.model, v.year.value, Some(imageUrl), Some(user))
  }

  /** The field values `fetchCar` writes with `setValue`. */
  function Prefill(car: Row): FormValues {
    FormValues(car.carId, car.make, car.model, Some(car.year))
  }

  /** Submitting a prefilled form unchanged writes back the row's own columns, except that a NULL
      `image_url` comes back as `''`. */
  lemma EditRoundTrip(car: Row, user: Uid)
    requires car.userId == Some(user)
    ensures CarRecord(Prefill(car), car.imageUrl.GetOr(""), user) ==
      DataOf(car).(imageUrl := Some(car.imageUrl.GetOr("")))
    ensures car.imageUrl.Some? ==> CarRecord(Prefill(car), car.imageUrl.GetOr(""), user) == DataOf(car)
  {
  }

  /** A record assembled by the form always names its own user as owner, so the form's own writes
      never fail the owner policy's check. */
  lemma RecordPassesOwnerPolicy(v: FormValues, imageUrl: string, user: Uid)
    requires v.year.Some?
    ensures OwnerPolicy(Some(user), CarRecord(v, imageUrl, user).userId)
  {
  }

  datatype SubmitOutcome = Invalid(errors: seq<FieldError>) | Submitted(result: Result<nat, DbError>)

  /** The state of one form; `editId` is the route's `id`, present when editing. */
  class Form {
    const editId: Option<RowId>
    var values: FormValues
    var imageUrl: string
    var uploading: bool
    var loading: bool

    constructor (editId: Option<RowId>)
      ensures this.editId == editId
      ensures values == EmptyValues && imageUrl == "" && !uploading && !loading
    {
      this.editId := editId;
      values, imageUrl, uploading, loading := EmptyValues, "", false, false;
    }

    /** `fetchCar`, run when editing: a found row fills the four fields and `imageUrl`; when
        `.single()` finds no row it is an error and nothing changes. */
    method FetchCar(table: CarsTable, caller: Option<Uid>)
      requires editId.Some? && table.Valid()
      modifies this
      ensures match SelectById(table.rows, caller, editId.value)
        case None => values == old(values) && imageUrl == old(imageUrl)
        case Some(car) => values == Prefill(car) && imageUrl == car.imageUrl.GetOr("")
      ensures uploading == old(uploading) && loading == old(loading)
    {
      var found := SelectById(table.rows, caller, editId.value);
      if found.Some? {
        var car := found.value;
        values := Prefill(car);
        imageUrl := car.imageUrl.GetOr("");
      }
    }

    /** `uploadImage`; `stored` is whether the storage upload succeeded. */
    method UploadImage(user: Uid, randomName: string, file: ImageFile, stored: bool, projectUrl: string)
      modifies this
      ensures stored ==> imageUrl == PublicUrl(projectUrl, StoragePath(user, randomName, file.name))
      ensures !stored ==> imageUrl == old(imageUrl)
      ensures !uploading
      ensures values == old(values) && loading == old(loading)
    {
      uploading := true;
      if stored {
        imageUrl := PublicUrl(projectUrl, StoragePath(user, randomName, file.name));
      }
      uploading := false;
    }

    /** `handleImageChange`: a missing, too large or wrongly typed file is refused before any
        upload and changes nothing. */
    method HandleImageChange(file: Option<ImageFile>, user: Uid, randomName: string, stored: bool, projectUrl: string)
      returns (check: ImageCheck)
      modifies this
      ensures check == CheckImage(file)
      ensures !check.Accepted? ==> unchanged(this)
      ensures check.Accepted? && stored ==>
        imageUrl == PublicUrl(projectUrl, StoragePath(user, randomName, check.file.name))
      ensures check.Accepted? && !stored ==> imageUrl == old(imageUrl)
      ensures check.Accepted? ==> !uploading
      ensures values == old(values) && loading == old(loading)
    {
      check := CheckImage(file);
      if check.Accepted? {
        UploadImage(user, randomName, check.file, stored, projectUrl);
      }
    }

    /** `handleSubmit(onSubmit)`: validation first; then the record goes to update-by-`id` when
        editing and to insert otherwise, and `loading` is false afterwards. */
    method HandleSubmit(table: CarsTable, user: Uid, currentYear: int, newId: RowId, now: Timestamp)
      returns (outcome: SubmitOutcome)
      requires table.Valid()
      modifies this, table
      ensures table.Valid()
      ensures Validate(values, currentYear) != [] ==>
        outcome == Invalid(Validate(values, currentYear)) && table.rows == old(table.rows) && unchanged(this)
      ensures Validate(values, currentYear) == [] ==> outcome.Submitted? && !loading
      ensures Validate(values, currentYear) == [] && editId.Some? ==>
        Write(outcome.result, table.rows) ==
          UpdateRows(old(table.rows), Some(user), editId.value, CarRecord(values, imageUrl, user))
      ensures Validate(values, currentYear) == [] && editId.None? ==>
        Write(outcome.result, table.rows) ==
          InsertRow(old(table.rows), Some(user), newId, now, CarRecord(values, imageUrl, user))
      ensures outcome != Submitted(Failure(PolicyViolation))
      ensures values == old(values) && imageUrl == old(imageUrl) && uploading == old(uploading)
    {
      var errs := Validate(values, currentYear);
      if errs != [] {
        return Invalid(errs);
      }
      loading := true;
      var data := CarRecord(values, imageUrl, user);
      RecordPassesOwnerPolicy(values, imageUrl, user);
      var result;
      if editId.Some? {
        result := table.Update(Some(user), editId.value, data);
      } else {
        result := table.Insert(Some(user), newId, now, data);
      }
      loading := false;
      outcome := Submitted(result);
    }
  }
}
