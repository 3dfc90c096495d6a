/** The records of the contact book (src/types/index.ts). An optional TypeScript
    property (`isFavorite?`, `notes?`, `tags?`, `avatar?`) is an `Option`: `None`
    is the property being absent. */
module Types {

  datatype Option<+T> = None | Some(value: T)
  {
    /** `x ?? d` for an optional property. Where the source writes `x || d`
        (`notes || ''`, `tags || []`) it agrees: an empty string replaced by
        `''` is unchanged, and an array, even an empty one, is truthy. */
    function GetOr(default: T): T
    {
      match this
      case Some(v) => v
      case None => default
    }
  }

  /** One address-book entry; `id` and `createdAt` are always present. */
  datatype Contact = Contact(
    id: string,
    name: string,
    email: string,
    phoneNumber: string,
    createdAt: string,
    isFavorite: Option<bool>,
    notes: Option<string>,
    tags: Option<seq<string>>,
    avatar: Option<string>)

  /** Which branch a form submission takes. */
  datatype FormMode = Add | Edit

  /** What the form hands over: no `id`, `createdAt` or `isFavorite`, which the
      page assigns itself. */
  datatype ContactFormData = ContactFormData(
    name: string,
    email: string,
    phoneNumber: string,
    notes: Option<string>,
    tags: Option<seq<string>>)

  /** JavaScript truthiness of `contact.isFavorite`: an absent flag is falsy. */
  function IsFavorite(c: Contact): (r: bool)
    ensures c.isFavorite == None ==> !r
    ensures c.isFavorite == Some(false) ==> !r
    ensures c.isFavorite == Some(true) ==> r
  {
    c.isFavorite == Some(true)
  }
}
