/** The field validators of the book upload form: title, page count, published
    date, cover image size and format, and genre; and the title and genre fields
    that run their validators after the string-field checks. The catalog and the
    clock are parameters: the titles already stored, and today's date. */
module BookUpload {
  import opened Results
  import opened Text
  import opened FormFields

  /** A calendar date; dates compare as (year, month, day). */
  datatype Date = Date(year: int, month: int, day: int)

  predicate Before(a: Date, b: Date) {
    a.year < b.year
    || (a.year == b.year && a.month < b.month)
    || (a.year == b.year && a.month == b.month && a.day < b.day)
  }

  const TitleEmptyMessage := "Title cannot be empty"
  const TitleTakenMessage := "A book with this title already exists"

  /** Strips the title and refuses it when empty or equal to a stored title.
      The lookup is an exact match against every stored title. */
  function ValidateTitle(value: string, titles: set<string>): (r: Result<string, string>)
    ensures AllSpace(value) ==> r == Err(TitleEmptyMessage)
    ensures !AllSpace(value) && Strip(value) in titles ==> r == Err(TitleTakenMessage)
    ensures !AllSpace(value) && Strip(value) !in titles ==> r == Ok(Strip(value))
  {
    var v := Strip(value);
    StripEmptyIff(value);
    if v == [] then Err(TitleEmptyMessage)
    else if v in titles then Err(TitleTakenMessage)
    else Ok(v)
  }

  /** Once a title is stored, the same input is refused. */
  lemma TitleTakenAfterStore(value: string, titles: set<string>)
    requires ValidateTitle(value, titles).Ok?
    ensures ValidateTitle(value, titles + {ValidateTitle(value, titles).value}) == Err(TitleTakenMessage)
  {
    StripEmptyIff(value);
  }

  /** An accepted title is its own stripped form, so revalidating it against the
      same catalog accepts it unchanged. */
  lemma AcceptedTitleIsStable(value: string, titles: set<string>)
    requires ValidateTitle(value, titles).Ok?
    ensures var t := ValidateTitle(value, titles).value;
      t != [] && !IsSpace(t[0]) && !IsSpace(t[|t| - 1]) && ValidateTitle(t, titles) == Ok(t)
  {
    StripEmptyIff(value);
    StripEnds(value);
    StripIdempotent(value);
    var t := Strip(value);
    StripEmptyIff(t);
  }

  /** The title field of the form: a string of at most 255 characters, unique
      among the stored titles, then `validate_title`. The field's own checks
      already refuse a blank or stored title, so the method's two refusals never
      surface: a refused title is refused by the field. */
  function UploadTitle(raw: string, titles: set<string>): (r: Result<string, seq<FieldError>>)
    ensures r.Ok? <==> !AllSpace(raw) && Strip(raw) !in titles && |Strip(raw)| <= TitleMaxLength && '\0' !in Strip(raw)
    ensures r.Ok? ==> r.value == Strip(raw)
    ensures !AllSpace(raw) && Strip(raw) in titles ==> r.Err? && NotUnique in r.error
    ensures r.Err? ==> forall e :: e in r.error ==> !e.Rejected?
  {
    StripIdempotent(raw);
    StripEmptyIff(raw);
    StripEmptyIff(Strip(raw));
    CharField(raw, 0, Some(TitleMaxLength), Some(titles), v => ValidateTitle(v, titles))
  }

  const TitleMaxLength: nat := 255

  const PagesMessage := "Pages cannot be less than 1"

  function ValidatePages(value: int): (r: Result<int, string>)
    ensures r.Ok? <==> value >= 1
    ensures r.Ok? ==> r.value == value
    ensures r.Err? ==> r.error == PagesMessage
  {
    if value <= 0 then Err(PagesMessage) else Ok(value)
  }

  const FutureDateMessage := "Published date cannot be in the future"

  /** Refuses a date strictly after `today`; today and earlier pass unchanged. */
  function ValidatePublishedDate(value: Date, today: Date): (r: Result<Date, string>)
    ensures r.Ok? <==> !Before(today, value)
    ensures r.Ok? ==> r.value == value
    ensures r.Err? ==> r.error == FutureDateMessage
  {
    if Before(today, value) then Err(FutureDateMessage) else Ok(value)
  }

  /** A date accepted today is accepted on every later day. */
  lemma PublishedDateStaysValid(value: Date, today: Date, later: Date)
    requires ValidatePublishedDate(value, today).Ok?
    requires !Before(later, today)
    ensures ValidatePublishedDate(value, later).Ok?
  {
  }

  /** 5 MiB. */
  const MaxCoverBytes: int := 5 * 1024 * 1024

  /** The formats the image library may report that are accepted. */
  const AllowedFormats: set<string> := {"JPEG", "PNG", "GIF", "WEBP", "BMP", "TIFF"}

  /** What opening the upload with the image library gives: the format it
      detects (possibly none), or the reason it could not read the file. */
  datatype Decoded = Decoded(format: Option<string>) | Undecodable(reason: string)

  const CoverSizeMessage := "Image file size must be less than 5MB"

  function FormatName(f: Option<string>): string {
    match f
    case Some(name) => name
    case None => "None"
  }

  /** The size cap, then decoding, then the format allow-list. A missing size
      reads as 0. */
  function ValidateCoverImage(size: Option<int>, decoded: Decoded): (r: Result<(), string>)
    ensures size.Some? && size.value > MaxCoverBytes ==> r == Err(CoverSizeMessage)
    ensures (size.None? || size.value <= MaxCoverBytes) ==>
      (r.Ok? <==> decoded.Decoded? && decoded.format.Some? && decoded.format.value in AllowedFormats)
    ensures (size.None? || size.value <= MaxCoverBytes) && decoded.Undecodable? ==>
      r == Err("Invalid image file: " + decoded.reason)
    ensures (size.None? || size.value <= MaxCoverBytes) && decoded.Decoded? && r.Err? ==>
      r.error == "Invalid image format: " + FormatName(decoded.format) + "."
  {
    var bytes := if size.Some? then size.value else 0;
    if bytes > MaxCoverBytes then Err(CoverSizeMessage)
    else
      match decoded
      case Undecodable(reason) => Err("Invalid image file: " + reason)
      case Decoded(format) =>
        if format.None? || format.value !in AllowedFormats then
          Err("Invalid image format: " + FormatName(format) + ".")
        else Ok(())
  }

  /** Exactly 5 MiB passes the size check; one byte more does not. */
  lemma CoverSizeBoundary(format: string)
    requires format in AllowedFormats
    ensures ValidateCoverImage(Some(5242880), Decoded(Some(format))).Ok?
    ensures ValidateCoverImage(Some(5242881), Decoded(Some(format))) == Err(CoverSizeMessage)
  {
  }

  const GenreMaxLength: nat := 100
  const GenreEmptyMessage := "Genre cannot be empty"
  const GenreLongMessage := "Genre name must be 100 characters or less"

  /** Strips the genre; refuses it when empty or longer than 100 characters. */
  function ValidateGenre(value: string): (r: Result<string, string>)
    ensures AllSpace(value) ==> r == Err(GenreEmptyMessage)
    ensures !AllSpace(value) && |Strip(value)| > GenreMaxLength ==> r == Err(GenreLongMessage)
    ensures r.Ok? <==> !AllSpace(value) && |Strip(value)| <= GenreMaxLength
    ensures r.Ok? ==> r.value == Strip(value)
  {
    var v := Strip(value);
    StripEmptyIff(value);
    if v == [] then Err(GenreEmptyMessage)
    else if |v| > GenreMaxLength then Err(GenreLongMessage)
    else Ok(v)
  }

  /** The genre field of the form: a string of at most 100 characters, then
      `validate_genre`. The field's checks come first and already refuse a blank
      or over-long genre, so the method's refusals never surface. */
  function UploadGenre(raw: string): (r: Result<string, seq<FieldError>>)
    ensures r.Ok? <==> !AllSpace(raw) && |Strip(raw)| <= GenreMaxLength && '\0' !in Strip(raw)
    ensures r.Ok? ==> r.value == Strip(raw)
    ensures !AllSpace(raw) && |Strip(raw)| > GenreMaxLength ==> r.Err? && TooLong(GenreMaxLength) in r.error
    ensures r.Err? ==> forall e :: e in r.error ==> !e.Rejected?
  {
    StripIdempotent(raw);
    StripEmptyIff(raw);
    StripEmptyIff(Strip(raw));
    CharField(raw, 0, Some(GenreMaxLength), None, ValidateGenre)
  }

  /** Validating an accepted genre again accepts it unchanged. */
  lemma GenreIdempotent(value: string)
    requires ValidateGenre(value).Ok?
    ensures ValidateGenre(ValidateGenre(value).value) == ValidateGenre(value)
  {
    StripIdempotent(value);
    StripEmptyIff(value);
    StripEmptyIff(Strip(value));
  }
}
