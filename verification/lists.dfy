/** The data model shared by the list editor and the collection manager:
    a checklist entry, a named list of entries with its creation instant,
    and the optional value that stands for JavaScript's `null`. */
module Lists {

  /** Ids are the strings `Date.now().toString()` produces; nothing makes
      them unique, so every operation below is stated for repeated ids. */
  type Id = string

  datatype Item = Item(id: Id, text: string, completed: bool)

  /** `createdAt` is the creation instant in milliseconds (`Date.getTime()`). */
  datatype GList = GList(id: Id, title: string, items: seq<Item>, createdAt: int)

  datatype Option<T> = None | Some(value: T)

  /** JavaScript's `a || b` on two strings: the empty string is falsy. */
  function Or(a: string, b: string): string {
    if a != "" then a else b
  }
}
