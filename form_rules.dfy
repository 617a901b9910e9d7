/** The validation rules of the book form, the messages shown for a control's errors, and the
    normalisation of the form's value into the submitted book. Controls follow the reactive
    forms model: a value, the errors its validators report (none means valid), and the
    `dirty`/`touched` interaction flags. */
module FormRules {
  import opened Common
  import opened Text
  import BookModel

  /** A control's value: what a text, date, URL or select input holds, what a number input
      holds, or nothing (`null`). */
  datatype Value = Str(s: string) | Num(x: real) | Empty

  /** The payload a validator attaches to its error key: none, or the bound it enforces. */
  datatype ErrorDetail = Flag | Limit(bound: int)

  /** `control.errors`: keyed by validator; an empty map is `null`. */
  type Errors = map<string, ErrorDetail>

  datatype Control = Control(value: Value, errors: Errors, dirty: bool, touched: bool)

  /** The ten controls `initForm` creates. */
  datatype Field =
    | Title | Author | Isbn | PublicationDate | Description
    | CoverImage | Genre | PageCount | Publisher | Rating

  /** The name the form group knows each control by. */
  function Name(f: Field): string {
    match f
    case Title => "title"
    case Author => "author"
    case Isbn => "isbn"
    case PublicationDate => "publicationDate"
    case Description => "description"
    case CoverImage => "coverImage"
    case Genre => "genre"
    case PageCount => "pageCount"
    case Publisher => "publisher"
    case Rating => "rating"
  }

  /** `bookForm.get(name)` by name: the control with that name, if there is one. */
  function FieldNamed(name: string): (r: Option<Field>)
    ensures r.Some? ==> Name(r.value) == name
    ensures r.None? ==> forall f: Field :: Name(f) != name
  {
    if name == "title" then Some(Title)
    else if name == "author" then Some(Author)
    else if name == "isbn" then Some(Isbn)
    else if name == "publicationDate" then Some(PublicationDate)
    else if name == "description" then Some(Description)
    else if name == "coverImage" then Some(CoverImage)
    else if name == "genre" then Some(Genre)
    else if name == "pageCount" then Some(PageCount)
    else if name == "publisher" then Some(Publisher)
    else if name == "rating" then Some(Rating)
    else None
  }

  /** Every control is found under its own name. */
  lemma FieldNamedOfName(f: Field)
    ensures FieldNamed(Name(f)) == Some(f)
  {
  }

  /** The form group, by control. */
  type Form = map<Field, Control>

  // ---------------------------------------------------------------- validators

  /** A value the built-in validators treat as not filled in: `null` or the empty string. */
  predicate IsEmptyInput(v: Value) {
    v.Empty? || v == Str("")
  }

  function Required(v: Value): Errors {
    if IsEmptyInput(v) then map["required" := Flag] else map[]
  }

  /** `Validators.maxLength(n)`: reported under the key `maxlength`. */
  function MaxLength(v: Value, n: int): Errors {
    if v.Str? && |v.s| > n then map["maxlength" := Limit(n)] else map[]
  }

  /** `Validators.pattern(re)`: an empty value always passes. */
  function Pattern(v: Value, matches: bool): Errors {
    if v.Str? && v.s != "" && !matches then map["pattern" := Flag] else map[]
  }

  function Min(v: Value, m: int): Errors {
    if v.Num? && v.x < m as real then map["min" := Limit(m)] else map[]
  }

  function Max(v: Value, m: int): Errors {
    if v.Num? && v.x > m as real then map["max" := Limit(m)] else map[]
  }

  /** `/^\d{13}$/`. */
  predicate IsIsbnPattern(s: string) {
    |s| == 13 && AllDigits(s)
  }

  /** The characters `.` does not match in a JavaScript regular expression. */
  predicate IsLineTerminator(c: char) {
    c == '\n' || c == '\r' || c == '\U{2028}' || c == '\U{2029}'
  }

  /** `/^(https?:\/\/).*$/`: the scheme prefix, then anything on one line. */
  predicate IsUrlPattern(s: string) {
    (IsPrefix("http://", s) || IsPrefix("https://", s))
    && forall i :: 0 <= i < |s| ==> !IsLineTerminator(s[i])
  }

  /** The controls `initForm` gives `Validators.required`. */
  predicate IsRequiredField(f: Field) {
    f == Title || f == Author || f == Isbn || f == PublicationDate
  }

  /** The validators `initForm` attaches to each control. Only the required controls reject an
      empty value, and errors are reported under the keys Angular's validators use. */
  function Validate(f: Field, v: Value): (r: Errors)
    ensures IsEmptyInput(v) ==> ("required" in r <==> IsRequiredField(f))
    ensures IsEmptyInput(v) && !IsRequiredField(f) ==> r == map[]
    ensures forall k :: k in r ==> k == "required" || k == "maxlength" || k == "pattern" || k == "min" || k == "max"
  {
    match f
    case Title => Required(v) + MaxLength(v, 100)
    case Author => Required(v) + MaxLength(v, 100)
    case Isbn => Required(v) + Pattern(v, v.Str? && IsIsbnPattern(v.s))
    case PublicationDate => Required(v)
    case CoverImage => Pattern(v, v.Str? && IsUrlPattern(v.s))
    case PageCount => Min(v, 1) + Max(v, 10000)
    case Rating => Min(v, 0) + Max(v, 5)
    case Description => map[]
    case Genre => map[]
    case Publisher => map[]
  }

  /** Title and author: filled in, at most 100 characters. */
  lemma TitleAuthorRule(name: Field, s: string)
    requires name == Title || name == Author
    ensures Validate(name, Str(s)) == map[] <==> 1 <= |s| <= 100
    ensures Validate(name, Empty) != map[]
  {
    if s == "" {
      assert "required" in Validate(name, Str(s));
    } else if |s| > 100 {
      assert "maxlength" in Validate(name, Str(s));
    }
    assert "required" in Validate(name, Empty);
  }

  /** ISBN: exactly thirteen digits. */
  lemma IsbnRule(s: string)
    ensures Validate(Isbn, Str(s)) == map[] <==> |s| == 13 && AllDigits(s)
  {
    if s == "" {
      assert "required" in Validate(Isbn, Str(s));
    } else if !IsIsbnPattern(s) {
      assert "pattern" in Validate(Isbn, Str(s));
    }
  }

  /** Publication date: anything filled in. */
  lemma PublicationDateRule(s: string)
    ensures Validate(PublicationDate, Str(s)) == map[] <==> s != ""
  {
    if s == "" {
      assert "required" in Validate(PublicationDate, Str(s));
    }
  }

  /** Cover image: optional, otherwise an http:// or https:// address on one line. */
  lemma CoverImageRule(s: string)
    ensures Validate(CoverImage, Str(s)) == map[] <==> s == "" || IsUrlPattern(s)
  {
    if s != "" && !IsUrlPattern(s) {
      assert "pattern" in Validate(CoverImage, Str(s));
    }
  }

  /** Page count: optional, otherwise between 1 and 10000. */
  lemma PageCountRule(x: real)
    ensures Validate(PageCount, Num(x)) == map[] <==> 1.0 <= x <= 10000.0
    ensures Validate(PageCount, Empty) == map[] && Validate(PageCount, Str("")) == map[]
  {
    if x < 1.0 {
      assert "min" in Validate(PageCount, Num(x));
    } else if x > 10000.0 {
      assert "max" in Validate(PageCount, Num(x));
    }
  }

  /** Rating: optional, otherwise between 0 and 5. */
  lemma RatingRule(x: real)
    ensures Validate(Rating, Num(x)) == map[] <==> 0.0 <= x <= 5.0
    ensures Validate(Rating, Empty) == map[] && Validate(Rating, Str("")) == map[]
  {
    if x < 0.0 {
      assert "min" in Validate(Rating, Num(x));
    } else if x > 5.0 {
      assert "max" in Validate(Rating, Num(x));
    }
  }

  /** A control whose errors are the ones its validators report for its value. */
  predicate Consistent(form: Form) {
    forall n :: n in form ==> form[n].errors == Validate(n, form[n].value)
  }

  /** `bookForm.invalid`: some control reports an error. */
  predicate FormInvalid(form: Form) {
    exists n :: n in form && form[n].errors != map[]
  }

  // ---------------------------------------------------------------- display of errors

  /** `isFieldInvalid(name)`: the control exists, is invalid, and was edited or visited. */
  predicate IsFieldInvalid(form: Form, name: string): (b: bool)
    ensures b <==> exists f :: Name(f) == name && f in form && form[f].errors != map[]
                                && (form[f].dirty || form[f].touched)
  {
    var f := FieldNamed(name);
    f.Some? && f.value in form && form[f.value].errors != map[]
    && (form[f.value].dirty || form[f.value].touched)
  }

  const RequiredMessage := "This field is required"
  const MaxLengthMessage := "Maximum length exceeded"
  const IsbnPatternMessage := "ISBN must be a 13-digit number"
  const UrlPatternMessage := "Must be a valid URL starting with http:// or https://"
  const PatternMessage := "Invalid format"
  const FallbackMessage := "Invalid value"

  /** The error keys are six different strings; the two spellings of the length key differ
      in one letter. */
  lemma ErrorKeysDistinct()
    ensures "maxLength" != "maxlength" && "min" != "max"
    ensures "required" != "maxlength" && "required" != "maxLength" && "required" != "pattern"
    ensures "required" != "min" && "required" != "max" && "pattern" != "min" && "pattern" != "max"
    ensures "maxlength" != "pattern" && "maxLength" != "pattern" && "maxlength" != "min"
    ensures "maxlength" != "max" && "maxLength" != "min" && "maxLength" != "max"
  {
    assert "maxLength"[3] != "maxlength"[3];
    assert "min"[1] != "max"[1];
  }

  /** `${value}` of an error's bound. */
  function BoundText(d: ErrorDetail): string {
    match d
    case Limit(b) => IntToString(b)
    case Flag => "undefined"
  }

  /** The message for a pattern error: the ISBN and cover image controls have their own. */
  function PatternMessageFor(name: Field): string {
    if name == Isbn then IsbnPatternMessage
    else if name == CoverImage then UrlPatternMessage
    else PatternMessage
  }

  /** The priority chain of `getErrorMessage`, with the length error looked up under
      `lengthKey`: the first of required, length, pattern, min and max that is reported
      decides the message, and any other error gives the fallback. */
  function MessageChain(name: Field, errors: Errors, lengthKey: string): (m: string)
    ensures m == "" <==> errors == map[]
    ensures "required" in errors ==> m == RequiredMessage
    ensures "required" !in errors && lengthKey in errors ==> m == MaxLengthMessage
    ensures "required" !in errors && lengthKey !in errors && "pattern" in errors
      ==> m == PatternMessageFor(name)
    ensures "required" !in errors && lengthKey !in errors && "pattern" !in errors && "min" in errors
      ==> m == "Minimum value is " + BoundText(errors["min"])
    ensures "required" !in errors && lengthKey !in errors && "pattern" !in errors && "min" !in errors
            && "max" in errors
      ==> m == "Maximum value is " + BoundText(errors["max"])
    ensures errors != map[] && "required" !in errors && lengthKey !in errors && "pattern" !in errors
            && "min" !in errors && "max" !in errors
      ==> m == FallbackMessage
  {
    if errors == map[] then ""
    else if "required" in errors then RequiredMessage
    else if lengthKey in errors then MaxLengthMessage
    else if "pattern" in errors then PatternMessageFor(name)
    else if "min" in errors then "Minimum value is " + BoundText(errors["min"])
    else if "max" in errors then "Maximum value is " + BoundText(errors["max"])
    else FallbackMessage
  }

  /** `getErrorMessage(name)` as written: it looks the length error up under `maxLength`,
      a key the length validator never reports. It differs from the corrected chain only on a
      control that has a length error. */
  function GetErrorMessageAsWritten(form: Form, name: string): (m: string)
    ensures FieldNamed(name).Some? && FieldNamed(name).value in form
      && "maxlength" !in form[FieldNamed(name).value].errors
      && "maxLength" !in form[FieldNamed(name).value].errors
      ==> m == GetErrorMessage(form, name)
  {
    match FieldNamed(name)
    case None => ""
    case Some(f) => if f !in form then "" else MessageChain(f, form[f].errors, "maxLength")
  }

  /** A title one character too long is described as an unspecified invalid value. */
  lemma AsWrittenMissesLengthError(s: string)
    requires |s| == 101
    ensures GetErrorMessageAsWritten(map[Title := Control(Str(s), Validate(Title, Str(s)), true, true)], "title")
      == FallbackMessage
  {
    ErrorKeysDistinct();
    var e := Validate(Title, Str(s));
    assert e == map["maxlength" := Limit(100)];
    assert "maxlength" in e;
    assert MessageChain(Title, e, "maxLength") == FallbackMessage;
  }

  /** No validator reports an error under `maxLength`. */
  lemma NoValidatorReportsCamelKey(f: Field, v: Value)
    ensures "maxLength" !in Validate(f, v)
  {
    ErrorKeysDistinct();
  }

  /** Without its length key the chain never reaches the length message. */
  lemma ChainWithoutLengthKey(name: Field, e: Errors, lengthKey: string)
    requires lengthKey !in e
    ensures MessageChain(name, e, lengthKey) != MaxLengthMessage
  {
    if "min" in e {
      assert ("Minimum value is " + BoundText(e["min"]))[1] != MaxLengthMessage[1];
    }
    if "max" in e {
      assert ("Maximum value is " + BoundText(e["max"]))[8] != MaxLengthMessage[8];
    }
  }

  /** As written, no form whose errors come from its validators ever shows the length
      message. */
  lemma AsWrittenNeverShowsLengthMessage(form: Form, name: string)
    requires Consistent(form)
    ensures GetErrorMessageAsWritten(form, name) != MaxLengthMessage
  {
    var f := FieldNamed(name);
    if f.Some? && f.value in form {
      NoValidatorReportsCamelKey(f.value, form[f.value].value);
      ChainWithoutLengthKey(f.value, form[f.value].errors, "maxLength");
    }
  }

  /** `getErrorMessage(name)` reading the key the length validator reports. */
  function GetErrorMessage(form: Form, name: string): (m: string)
    ensures m == "" <==> FieldNamed(name).None? || FieldNamed(name).value !in form
                         || form[FieldNamed(name).value].errors == map[]
  {
    match FieldNamed(name)
    case None => ""
    case Some(f) => if f !in form then "" else MessageChain(f, form[f].errors, "maxlength")
  }

  /** A control shown as invalid makes the whole form invalid and always has a message to
      show. */
  lemma FieldInvalidHasMessage(form: Form, name: string)
    requires IsFieldInvalid(form, name)
    ensures FormInvalid(form)
    ensures GetErrorMessage(form, name) != ""
  {
    var f := FieldNamed(name).value;
    assert f in form && form[f].errors != map[];
  }

  /** The messages a title or author control shows: required when empty, the length message
      when too long, none otherwise. */
  lemma TitleMessages(form: Form, name: Field)
    requires name == Title || name == Author
    requires name in form && form[name].value.Str? && form[name].errors == Validate(name, form[name].value)
    ensures var s := form[name].value.s;
      GetErrorMessage(form, Name(name)) == if s == "" then RequiredMessage else if |s| > 100 then MaxLengthMessage else ""
  {
    ErrorKeysDistinct();
    assert FieldNamed(Name(name)) == Some(name);
    var s := form[name].value.s;
    var e := form[name].errors;
    if s == "" {
      assert e == map["required" := Flag];
      assert "required" in e;
    } else if |s| > 100 {
      assert e == map["maxlength" := Limit(100)];
      assert "maxlength" in e;
    }
  }

  /** The messages an ISBN control shows. */
  lemma IsbnMessages(form: Form)
    requires Isbn in form && form[Isbn].value.Str? && form[Isbn].errors == Validate(Isbn, form[Isbn].value)
    ensures var s := form[Isbn].value.s;
      GetErrorMessage(form, "isbn") ==
        if s == "" then RequiredMessage else if !IsIsbnPattern(s) then IsbnPatternMessage else ""
  {
    ErrorKeysDistinct();
    var s := form[Isbn].value.s;
    var e := form[Isbn].errors;
    if s == "" {
      assert e == map["required" := Flag];
      assert "required" in e;
    } else if !IsIsbnPattern(s) {
      assert e == map["pattern" := Flag];
      assert "pattern" in e;
    }
  }

  /** The messages a rating control shows: the violated bound, spelled out. */
  lemma RatingMessages(form: Form)
    requires Rating in form && form[Rating].value.Num? && form[Rating].errors == Validate(Rating, form[Rating].value)
    ensures var x := form[Rating].value.x;
      GetErrorMessage(form, "rating") ==
        if x < 0.0 then "Minimum value is 0" else if x > 5.0 then "Maximum value is 5" else ""
  {
    ErrorKeysDistinct();
    var x := form[Rating].value.x;
    var e := form[Rating].errors;
    assert IntToString(0) == "0" && IntToString(5) == "5";
    if x < 0.0 {
      assert e == map["min" := Limit(0)];
      assert "min" in e;
    } else if x > 5.0 {
      assert e == map["max" := Limit(5)];
      assert "max" in e;
    }
  }

  /** The messages a publication date control shows: required when empty, none otherwise. */
  lemma PublicationDateMessages(form: Form)
    requires PublicationDate in form && form[PublicationDate].value.Str?
    requires form[PublicationDate].errors == Validate(PublicationDate, form[PublicationDate].value)
    ensures GetErrorMessage(form, "publicationDate") ==
      if form[PublicationDate].value.s == "" then RequiredMessage else ""
  {
    var e := form[PublicationDate].errors;
    if form[PublicationDate].value.s == "" {
      assert "required" in e;
    }
  }

  /** The messages a cover image control shows: the URL message for a filled-in value that
      is not an http:// or https:// address, none otherwise. */
  lemma CoverImageMessages(form: Form)
    requires CoverImage in form && form[CoverImage].value.Str?
    requires form[CoverImage].errors == Validate(CoverImage, form[CoverImage].value)
    ensures var s := form[CoverImage].value.s;
      GetErrorMessage(form, "coverImage") ==
        if s != "" && !IsUrlPattern(s) then UrlPatternMessage else ""
  {
    ErrorKeysDistinct();
    var s := form[CoverImage].value.s;
    var e := form[CoverImage].errors;
    if s != "" && !IsUrlPattern(s) {
      assert e == map["pattern" := Flag];
      assert "pattern" in e;
    }
  }

  /** The messages a page count control shows: the violated bound, spelled out. */
  lemma PageCountMessages(form: Form)
    requires PageCount in form && form[PageCount].value.Num?
    requires form[PageCount].errors == Validate(PageCount, form[PageCount].value)
    ensures var x := form[PageCount].value.x;
      GetErrorMessage(form, "pageCount") ==
        if x < 1.0 then "Minimum value is 1" else if x > 10000.0 then "Maximum value is 10000" else ""
  {
    ErrorKeysDistinct();
    var x := form[PageCount].value.x;
    var e := form[PageCount].errors;
    assert IntToString(1) == "1" && IntToString(10000) == "10000";
    if x < 1.0 {
      assert e == map["min" := Limit(1)];
      assert "min" in e;
    } else if x > 10000.0 {
      assert e == map["max" := Limit(10000)];
      assert "max" in e;
    }
  }

  // ---------------------------------------------------------------- submitted data

  /** The text a control holds (the form keeps text fields as strings). */
  function TextOf(v: Value): string {
    if v.Str? then v.s else ""
  }

  /** `value || undefined` for a text control. */
  function OptionalText(v: Value): (r: Option<string>)
    ensures r.Some? <==> v.Str? && v.s != ""
    ensures r.Some? ==> r.value == v.s
  {
    if v.Str? && v.s != "" then Some(v.s) else None
  }

  /** `value || undefined` for a number control: 0 is falsy and is dropped too. */
  function OptionalNumber(v: Value): (r: Option<real>)
    ensures r.Some? <==> v.Num? && v.x != 0.0
    ensures r.Some? ==> r.value == v.x
  {
    if v.Num? && v.x != 0.0 then Some(v.x) else None
  }

  /** Every control `initForm` creates exists. */
  predicate HasAllFields(form: Form) {
    forall f: Field :: f in form
  }

  /** The `bookData` `onSubmit` sends: the form value with every falsy optional field made
      `undefined`. The form has no price or featured control, so the book carries no price
      and (`undefined` being falsy) is not featured. */
  function Submitted(form: Form): (b: BookModel.BookInput)
    requires HasAllFields(form)
    ensures b.title == TextOf(form[Title].value) && b.author == TextOf(form[Author].value)
    ensures b.isbn == TextOf(form[Isbn].value) && b.publicationDate == TextOf(form[PublicationDate].value)
    ensures b.genre.Some? <==> form[Genre].value.Str? && form[Genre].value.s != ""
    ensures b.coverImage.Some? <==> form[CoverImage].value.Str? && form[CoverImage].value.s != ""
    ensures b.description.Some? <==> form[Description].value.Str? && form[Description].value.s != ""
    ensures b.publisher.Some? <==> form[Publisher].value.Str? && form[Publisher].value.s != ""
    ensures b.rating.Some? <==> form[Rating].value.Num? && form[Rating].value.x != 0.0
    ensures b.pageCount.Some? <==> form[PageCount].value.Num? && form[PageCount].value.x != 0.0
    ensures b.price.None? && !b.isFeatured
  {
    BookModel.BookInput(
      TextOf(form[Title].value), TextOf(form[Author].value), TextOf(form[Isbn].value),
      TextOf(form[PublicationDate].value),
      OptionalText(form[CoverImage].value), OptionalText(form[Description].value),
      OptionalText(form[Genre].value), OptionalNumber(form[PageCount].value),
      OptionalText(form[Publisher].value), OptionalNumber(form[Rating].value),
      None, false)
  }

  /** A rating of 0 passes validation but is not submitted. */
  lemma ZeroRatingDropped(form: Form)
    requires HasAllFields(form) && form[Rating].value == Num(0.0)
    ensures Validate(Rating, form[Rating].value) == map[]
    ensures Submitted(form).rating.None?
  {
    RatingRule(0.0);
  }

  /** What a valid form submits meets the rules: the required texts are the ones entered, the
      ISBN has thirteen digits, a present rating lies in (0, 5] and a present page count in
      [1, 10000]. */
  lemma SubmittedMeetsRules(form: Form)
    requires HasAllFields(form) && Consistent(form) && !FormInvalid(form)
    requires form[Title].value.Str? && form[Author].value.Str? && form[Isbn].value.Str?
    requires form[PublicationDate].value.Str?
    ensures var b := Submitted(form);
      1 <= |b.title| <= 100 && 1 <= |b.author| <= 100 && IsIsbnPattern(b.isbn) && b.publicationDate != ""
      && (b.rating.Some? ==> 0.0 < b.rating.value <= 5.0)
      && (b.pageCount.Some? ==> 1.0 <= b.pageCount.value <= 10000.0)
      && (b.coverImage.Some? ==> IsUrlPattern(b.coverImage.value))
  {
    TitleAuthorRule(Title, form[Title].value.s);
    TitleAuthorRule(Author, form[Author].value.s);
    IsbnRule(form[Isbn].value.s);
    PublicationDateRule(form[PublicationDate].value.s);
    var c := form[CoverImage].value;
    if c.Str? {
      CoverImageRule(c.s);
    }
    var p := form[PageCount].value;
    if p.Num? {
      PageCountRule(p.x);
    }
    var r := form[Rating].value;
    if r.Num? {
      RatingRule(r.x);
    }
  }
}
