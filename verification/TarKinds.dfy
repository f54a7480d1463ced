/** The kinds of archive files, and the letter and suffix each kind has in its file name. */
module TarKinds {
  datatype TarContents =
    | INDEX_FILE
    | DIR_TAR
    | SMALL_FILES_TAR
    | MEDIUM_FILES_TAR
    | SINGLE_LARGE_FILE_TAR
    | SPLIT_LARGE_FILE_TAR
    | CONTENT_SPLIT_LARGE_FILE_TAR

  datatype Kind = Kind(contents: TarContents) | NoKind

  function CharType(t: TarContents): char {
    match t
    case INDEX_FILE => 'z'
    case DIR_TAR => 'y'
    case SMALL_FILES_TAR => 's'
    case MEDIUM_FILES_TAR => 'm'
    case SINGLE_LARGE_FILE_TAR => 'l'
    case SPLIT_LARGE_FILE_TAR => 'i'
    case CONTENT_SPLIT_LARGE_FILE_TAR => 'c'
  }

  function TypeFromChar(c: char): Kind {
    match c
    case 'z' => Kind(INDEX_FILE)
    case 'y' => Kind(DIR_TAR)
    case 's' => Kind(SMALL_FILES_TAR)
    case 'm' => Kind(MEDIUM_FILES_TAR)
    case 'l' => Kind(SINGLE_LARGE_FILE_TAR)
    case 'i' => Kind(SPLIT_LARGE_FILE_TAR)
    case 'c' => Kind(CONTENT_SPLIT_LARGE_FILE_TAR)
    case _ => NoKind
  }

  function SuffixType(t: TarContents): string {
    match t
    case INDEX_FILE => "gz"
    case CONTENT_SPLIT_LARGE_FILE_TAR => "bin"
    case _ => "tar"
  }

  /** A letter stands for a kind exactly when it is that kind's letter. */
  lemma LetterOfKind(t: TarContents, c: char)
    ensures TypeFromChar(c) == Kind(t) <==> c == CharType(t)
  {
  }

  lemma Letters()
    ensures [CharType(INDEX_FILE), CharType(DIR_TAR), CharType(SMALL_FILES_TAR), CharType(MEDIUM_FILES_TAR),
             CharType(SINGLE_LARGE_FILE_TAR), CharType(SPLIT_LARGE_FILE_TAR), CharType(CONTENT_SPLIT_LARGE_FILE_TAR)]
         == "zysmlic"
    ensures forall t :: SuffixType(t) == "gz" <==> t == INDEX_FILE
    ensures forall t :: SuffixType(t) == "bin" <==> t == CONTENT_SPLIT_LARGE_FILE_TAR
  {
  }
}
