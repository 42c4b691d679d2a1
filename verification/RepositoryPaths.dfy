/** Paths inside a repository. */
module RepositoryPaths {
  import opened SplitText

  /** The length of a string in UTF-16 code units. */
  function Utf16Length(s: string): nat {
    if s == [] then 0 else (if s[0] as int >= 0x1_0000 then 2 else 1) + Utf16Length(s[1..])
  }

  const MAXIMUM_PATH_LENGTH := 4_096

  /** `requireRepositoryPath` does not throw. Empty segments pass. */
  predicate IsRepositoryPath(path: string) {
    && 1 <= Utf16Length(path) <= MAXIMUM_PATH_LENGTH
    && (path == [] || path[0] != '/')
    && '\\' !in path
    && '\0' !in path
    && ".." !in Split(path, '/')
    && "." !in Split(path, '/')
  }
}
