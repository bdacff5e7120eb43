/** The records shared by the parser and its callers (src/types.ts). */
module Types {

  /** One table-of-contents line: identifier, title and act/decree number. */
  datatype Entry = Entry(id: string, name: string, num: string)

  /** The two gazette series a document can belong to. */
  datatype DocType = MagyarKozlony | HivatalosErtesito

  /** The entry every field of which is empty. */
  const EmptyEntry: Entry := Entry("", "", "")
}
