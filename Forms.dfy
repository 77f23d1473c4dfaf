/** The book form (catalog/forms.py): the five fields it binds, its two
    field validators, and what saving it does to a book record. */
module Forms {
  import opened Wrappers
  import opened Records

  /** The fields the form binds, in `Meta.fields` order. */
  datatype FieldName = TitleField | DescriptionField | AuthorField | GenreField | QuantityField

  /** A field-level validation error, keyed by the field it belongs to. */
  datatype FieldError = FieldError(field: FieldName)

  /** Submitted form data: `author` and `genre` are the chosen record ids,
      `quantity` is the already-parsed page count. */
  datatype BookForm = BookForm(title: string, description: string, author: int, genre: int, quantity: int)

  /** `clean_title`: an empty title is rejected, any other is returned as given. */
  function CleanTitle(title: string): (r: Result<string, FieldError>)
    ensures r.Success? <==> |title| > 0
    ensures r.Success? ==> r.value == title
    ensures r.Failure? ==> r.error.field == TitleField
  {
    if |title| == 0 then Failure(FieldError(TitleField)) else Success(title)
  }

  /** `clean_quantity`: zero and negative counts are rejected, a positive one
      is returned as given. */
  function CleanQuantity(quantity: int): (r: Result<int, FieldError>)
    ensures r.Success? <==> quantity > 0
    ensures r.Success? ==> r.value == quantity
    ensures r.Failure? ==> r.error.field == QuantityField
  {
    if quantity <= 0 then Failure(FieldError(QuantityField)) else Success(quantity)
  }

  /** The fields of `data` that fail validation. The description is a required
      field (its model field does not allow blanks), and author and genre must
      name records that exist. */
  function Errors(data: BookForm, authorIds: set<int>, genreIds: set<int>): set<FieldName> {
    (if CleanTitle(data.title).Failure? then {TitleField} else {})
    + (if data.description == "" then {DescriptionField} else {})
    + (if data.author !in authorIds then {AuthorField} else {})
    + (if data.genre !in genreIds then {GenreField} else {})
    + (if CleanQuantity(data.quantity).Failure? then {QuantityField} else {})
  }

  /** `is_valid`: the form is accepted exactly when no field has an error, and
      then its cleaned data is the submitted data unchanged. */
  function Validate(data: BookForm, authorIds: set<int>, genreIds: set<int>): (r: Result<BookForm, set<FieldName>>)
    ensures r.Success? <==>
      |data.title| > 0 && |data.description| > 0 && data.author in authorIds
      && data.genre in genreIds && data.quantity > 0
    ensures r.Success? ==> r.value == data
    ensures r.Failure? ==> r.error != {}
    ensures r.Failure? ==> (TitleField in r.error <==> data.title == "")
    ensures r.Failure? ==> (QuantityField in r.error <==> data.quantity <= 0)
    ensures r.Failure? ==> (DescriptionField in r.error <==> data.description == "")
    ensures r.Failure? ==> (AuthorField in r.error <==> data.author !in authorIds)
    ensures r.Failure? ==> (GenreField in r.error <==> data.genre !in genreIds)
  {
    var errs := Errors(data, authorIds, genreIds);
    if errs == {} then Success(data) else Failure(errs)
  }

  /** The title error depends on the title alone and the quantity error on
      the quantity alone: two submissions that agree on that field get the
      same verdict on it, whatever their other fields hold. */
  lemma FieldVerdictsAreLocal(a: BookForm, b: BookForm, authorIds: set<int>, genreIds: set<int>,
                              authorIds': set<int>, genreIds': set<int>)
    ensures a.title == b.title ==>
      (TitleField in Errors(a, authorIds, genreIds) <==> TitleField in Errors(b, authorIds', genreIds'))
    ensures a.quantity == b.quantity ==>
      (QuantityField in Errors(a, authorIds, genreIds) <==> QuantityField in Errors(b, authorIds', genreIds'))
  {
  }

  /** Saving the form into a record writes only the five bound fields; the
      id, slug, creation time and read flag stay as they were. */
  function Apply(b: Book, data: BookForm): (r: Book)
    requires data.author >= 0 && data.genre >= 0
    ensures r.id == b.id && r.slug == b.slug && r.createdAt == b.createdAt && r.isRead == b.isRead
    ensures r.title == data.title && r.description == data.description
    ensures r.author == data.author && r.genre == data.genre && r.quantity == data.quantity
  {
    b.(title := data.title, description := data.description, author := data.author,
       genre := data.genre, quantity := data.quantity)
  }
}
