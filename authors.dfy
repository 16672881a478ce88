/**
 * The two collaborators of the scanner that stand for `reposense.model`:
 * authors, and the author configuration that resolves names to authors.
 */
module Authors {
  /**
   * An author: the sentinel `Author.UNKNOWN_AUTHOR`, or the author created
   * for (or configured under) a git id.
   */
  datatype Author = UnknownAuthor | Author(gitId: string)

  /**
   * The part of `AuthorConfiguration` the scanner uses: the map from author
   * details (names and aliases) to authors, and whether an author
   * configuration file was given (`hasAuthorConfigFile()`).
   */
  class AuthorConfiguration {
    var authorDetailsToAuthorMap: map<string, Author>
    const hasAuthorConfigFile: bool

    constructor (aliases: map<string, Author>, hasConfigFile: bool)
      ensures authorDetailsToAuthorMap == aliases
      ensures hasAuthorConfigFile == hasConfigFile
    {
      authorDetailsToAuthorMap := aliases;
      hasAuthorConfigFile := hasConfigFile;
    }

    /** `addAuthor(new Author(name))`: `name` now resolves to the new author. */
    method AddAuthor(name: string)
      modifies this
      ensures authorDetailsToAuthorMap == old(authorDetailsToAuthorMap)[name := Author(name)]
    {
      authorDetailsToAuthorMap := authorDetailsToAuthorMap[name := Author(name)];
    }
  }
}
