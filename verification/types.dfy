/** The records the link checker reads and produces. */
module Types {

  /** The `status` of a pull-request file entry; only `Added` is ever inspected. */
  datatype FileStatus = Added | Removed | Modified | Renamed | Copied | Changed | Unchanged

  /** A pull-request file entry, reduced to the two fields the checker reads. */
  datatype PullFile = PullFile(filename: string, status: FileStatus)

  /** A link that failed validation, with the 1-based number of its line. */
  datatype BrokenLink = BrokenLink(lineNumber: nat, link: string)

  /** All broken links of one file, in line order. */
  datatype FileBrokenLinks = FileBrokenLinks(fileName: string, brokenLinks: seq<BrokenLink>)
}
