/** The records of the drive's catalog: folders and files linked to their
    containing folder by a parent identifier, with the sentinel "root" for
    the top level. */
module Catalog {

  /** The outcome of a lookup that may find nothing (`Array.prototype.find`
      yields `undefined` then). */
  datatype Option<+T> = None | Some(value: T)

  /** The sentinel identifier of the top-level container. It is the initial
      navigation state and the end marker of the breadcrumb walk. */
  const Root: string := "root"

  /** A folder record: its parent is another folder's id, or Root. */
  datatype Folder = Folder(id: string, name: string, parent: string)

  /** A file record. The source's `type` field is called `kind` here, since
      `type` is a keyword; `size` is a display-only number of kilobytes. */
  datatype File = File(id: string, name: string, parent: string, kind: string, size: real)
}
