/** The book record that listings show and trades move between users: its
    choice sets, its field limits, its defaults, and the validation the
    create and update serializers derive from the model's field declarations. */
module Books {
  import opened Base
  import opened Users

  datatype Condition = Excellent | VeryGood | Good | Fair | Poor

  datatype Genre =
    | Fiction | NonFiction | Mystery | Romance | SciFi | Fantasy | Biography | History
    | Science | Technology | SelfHelp | Cookbook | Travel | Poetry | Drama | Other

  /** The stored code of each condition. */
  function ConditionCode(c: Condition): string {
    match c
    case Excellent => "excellent"
    case VeryGood => "very_good"
    case Good => "good"
    case Fair => "fair"
    case Poor => "poor"
  }

  /** The stored code of each genre. */
  function GenreCode(g: Genre): string {
    match g
    case Fiction => "fiction"
    case NonFiction => "non_fiction"
    case Mystery => "mystery"
    case Romance => "romance"
    case SciFi => "sci_fi"
    case Fantasy => "fantasy"
    case Biography => "biography"
    case History => "history"
    case Science => "science"
    case Technology => "technology"
    case SelfHelp => "self_help"
    case Cookbook => "cookbook"
    case Travel => "travel"
    case Poetry => "poetry"
    case Drama => "drama"
    case Other => "other"
  }

  /** The choice field's check: a code is accepted exactly when it is one of the listed codes. */
  function ParseCondition(s: string): (r: Option<Condition>)
    ensures r.Some? ==> ConditionCode(r.value) == s
    ensures r.None? ==> forall c :: ConditionCode(c) != s
  {
    if s == "excellent" then Some(Excellent)
    else if s == "very_good" then Some(VeryGood)
    else if s == "good" then Some(Good)
    else if s == "fair" then Some(Fair)
    else if s == "poor" then Some(Poor)
    else None
  }

  function ParseGenre(s: string): (r: Option<Genre>)
    ensures r.Some? ==> GenreCode(r.value) == s
    ensures r.None? ==> forall g :: GenreCode(g) != s
  {
    if s == "fiction" then Some(Fiction)
    else if s == "non_fiction" then Some(NonFiction)
    else if s == "mystery" then Some(Mystery)
    else if s == "romance" then Some(Romance)
    else if s == "sci_fi" then Some(SciFi)
    else if s == "fantasy" then Some(Fantasy)
    else if s == "biography" then Some(Biography)
    else if s == "history" then Some(History)
    else if s == "science" then Some(Science)
    else if s == "technology" then Some(Technology)
    else if s == "self_help" then Some(SelfHelp)
    else if s == "cookbook" then Some(Cookbook)
    else if s == "travel" then Some(Travel)
    else if s == "poetry" then Some(Poetry)
    else if s == "drama" then Some(Drama)
    else if s == "other" then Some(Other)
    else None
  }

  /** Every condition's code is read back as that condition, and no two share a code. */
  lemma ConditionCodeRoundTrip(c: Condition)
    ensures ParseCondition(ConditionCode(c)) == Some(c)
    ensures forall d :: ConditionCode(d) == ConditionCode(c) ==> d == c
  {
  }

  /** Every genre's code is read back as that genre, and no two share a code. */
  lemma GenreCodeRoundTrip(g: Genre)
    ensures ParseGenre(GenreCode(g)) == Some(g)
    ensures forall h :: GenreCode(h) == GenreCode(g) ==> h == g
  {
  }

  const DefaultGenre: Genre := Other
  const DefaultCondition: Condition := Good

  const MaxTitleLength: nat := 200
  const MaxAuthorLength: nat := 200
  const MaxIsbnLength: nat := 13
  const MaxPublicationLength: nat := 200

  datatype Book = Book(
    owner: UserId,
    title: string,
    author: string,
    isbn: string,
    publication: string,
    genre: Genre,
    condition: Condition,
    description: string,
    /** The stored image's name; `None` when the book has no cover. */
    coverImage: Option<string>,
    isAvailable: bool)

  /** The maximum lengths of the character fields. */
  predicate WithinLimits(b: Book) {
    && |b.title| <= MaxTitleLength
    && |b.author| <= MaxAuthorLength
    && |b.isbn| <= MaxIsbnLength
    && |b.publication| <= MaxPublicationLength
  }

  /** A new book with every optional field at its default. */
  function NewBook(owner: UserId, title: string, author: string): (b: Book)
    ensures b.owner == owner && b.title == title && b.author == author
    ensures b.isbn == "" && b.publication == "" && b.description == ""
    ensures b.genre == DefaultGenre && b.condition == DefaultCondition
    ensures b.coverImage == None
    ensures b.isAvailable
  {
    Book(owner, title, author, "", "", DefaultGenre, DefaultCondition, "", None, true)
  }

  /** The editable fields a create or update request may carry; `None` means the field
      is absent from the request. The owner is not among them. */
  datatype BookInput = BookInput(
    title: Option<string>,
    author: Option<string>,
    isbn: Option<string>,
    publication: Option<string>,
    genre: Option<string>,
    condition: Option<string>,
    description: Option<string>,
    coverImage: Option<Option<string>>,
    isAvailable: Option<bool>)

  datatype BookError =
    | Required(field: string)
    | Blank(field: string)
    | TooLong(field: string)
    | InvalidChoice(field: string)
    | NoSuchBook
    | NotOwner
    | NoImage

  /** What the serializer demands of the fields a request does carry. */
  predicate AcceptableInput(input: BookInput) {
    && (input.title.Some? ==> 0 < |input.title.value| <= MaxTitleLength)
    && (input.author.Some? ==> 0 < |input.author.value| <= MaxAuthorLength)
    && (input.isbn.Some? ==> |input.isbn.value| <= MaxIsbnLength)
    && (input.publication.Some? ==> |input.publication.value| <= MaxPublicationLength)
    && (input.genre.Some? ==> ParseGenre(input.genre.value).Some?)
    && (input.condition.Some? ==> ParseCondition(input.condition.value).Some?)
  }

  /** Field validation, reporting the first failing field in declaration order. */
  function CheckInput(input: BookInput): (r: Option<BookError>)
    ensures r.None? <==> AcceptableInput(input)
    ensures r.Some? ==> r.value.Blank? || r.value.TooLong? || r.value.InvalidChoice?
  {
    if input.title.Some? && |input.title.value| == 0 then Some(Blank("title"))
    else if input.title.Some? && |input.title.value| > MaxTitleLength then Some(TooLong("title"))
    else if input.author.Some? && |input.author.value| == 0 then Some(Blank("author"))
    else if input.author.Some? && |input.author.value| > MaxAuthorLength then Some(TooLong("author"))
    else if input.isbn.Some? && |input.isbn.value| > MaxIsbnLength then Some(TooLong("isbn"))
    else if input.publication.Some? && |input.publication.value| > MaxPublicationLength then Some(TooLong("publication"))
    else if input.genre.Some? && ParseGenre(input.genre.value).None? then Some(InvalidChoice("genre"))
    else if input.condition.Some? && ParseCondition(input.condition.value).None? then Some(InvalidChoice("condition"))
    else None
  }

  function GetOr<T>(o: Option<T>, default: T): T {
    match o
    case Some(v) => v
    case None => default
  }

  /** The book with every field the input carries overwritten, the owner kept. */
  function Overwrite(b: Book, input: BookInput): Book
    requires AcceptableInput(input)
  {
    b.(title := GetOr(input.title, b.title),
       author := GetOr(input.author, b.author),
       isbn := GetOr(input.isbn, b.isbn),
       publication := GetOr(input.publication, b.publication),
       genre := if input.genre.Some? then ParseGenre(input.genre.value).value else b.genre,
       condition := if input.condition.Some? then ParseCondition(input.condition.value).value else b.condition,
       description := GetOr(input.description, b.description),
       coverImage := GetOr(input.coverImage, b.coverImage),
       isAvailable := GetOr(input.isAvailable, b.isAvailable))
  }

  /** A (partial) update: only the fields the input carries change, the owner never does,
      and the limits keep holding. */
  function EditBook(b: Book, input: BookInput): (r: Result<Book, BookError>)
    ensures r.Ok? <==> AcceptableInput(input)
    ensures r.Err? ==> r.error == CheckInput(input).value
    ensures r.Ok? ==> r.value.owner == b.owner
    ensures r.Ok? ==> r.value.title == (if input.title.Some? then input.title.value else b.title)
    ensures r.Ok? ==> r.value.author == (if input.author.Some? then input.author.value else b.author)
    ensures r.Ok? ==> r.value.isbn == (if input.isbn.Some? then input.isbn.value else b.isbn)
    ensures r.Ok? ==> r.value.publication == (if input.publication.Some? then input.publication.value else b.publication)
    ensures r.Ok? && input.genre.Some? ==> GenreCode(r.value.genre) == input.genre.value
    ensures r.Ok? && input.genre.None? ==> r.value.genre == b.genre
    ensures r.Ok? && input.condition.Some? ==> ConditionCode(r.value.condition) == input.condition.value
    ensures r.Ok? && input.condition.None? ==> r.value.condition == b.condition
    ensures r.Ok? ==> r.value.description == (if input.description.Some? then input.description.value else b.description)
    ensures r.Ok? ==> r.value.coverImage == (if input.coverImage.Some? then input.coverImage.value else b.coverImage)
    ensures r.Ok? ==> r.value.isAvailable == (if input.isAvailable.Some? then input.isAvailable.value else b.isAvailable)
    ensures r.Ok? && WithinLimits(b) ==> WithinLimits(r.value)
  {
    match CheckInput(input)
    case Some(e) => Err(e)
    case None => Ok(Overwrite(b, input))
  }

  /** A create request: title and author are required, the optional fields the request
      carries are stored as given, absent ones take their defaults (blank text, genre
      'other', condition 'good', no cover, available), and the requesting user becomes
      the owner. */
  function ValidatedBook(owner: UserId, input: BookInput): (r: Result<Book, BookError>)
    ensures r.Ok? <==> input.title.Some? && input.author.Some? && AcceptableInput(input)
    ensures input.title.None? ==> r == Err(Required("title"))
    ensures r.Ok? ==> r.value.owner == owner && WithinLimits(r.value)
    ensures r.Ok? ==> r.value.title == input.title.value && r.value.author == input.author.value
    ensures r.Ok? ==> r.value.isbn == GetOr(input.isbn, "")
    ensures r.Ok? ==> r.value.publication == GetOr(input.publication, "")
    ensures r.Ok? ==> r.value.description == GetOr(input.description, "")
    ensures r.Ok? && input.genre.Some? ==> GenreCode(r.value.genre) == input.genre.value
    ensures r.Ok? && input.genre.None? ==> r.value.genre == DefaultGenre
    ensures r.Ok? && input.condition.Some? ==> ConditionCode(r.value.condition) == input.condition.value
    ensures r.Ok? && input.condition.None? ==> r.value.condition == DefaultCondition
    ensures r.Ok? ==> r.value.coverImage == GetOr(input.coverImage, None)
    ensures r.Ok? ==> r.value.isAvailable == GetOr(input.isAvailable, true)
  {
    if input.title.None? then Err(Required("title"))
    else if input.author.None? then Err(Required("author"))
    else EditBook(NewBook(owner, input.title.value, input.author.value), input)
  }

  /** The owner's full name: first name, one space, last name. */
  function OwnerName(owner: User): (name: string)
    ensures |name| == |owner.firstName| + 1 + |owner.lastName|
    ensures name[..|owner.firstName|] == owner.firstName
    ensures name[|owner.firstName|] == ' '
    ensures name[|owner.firstName| + 1..] == owner.lastName
  {
    owner.firstName + " " + owner.lastName
  }
}
