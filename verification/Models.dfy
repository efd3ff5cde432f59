/** The four kinds of file the application manages and the record it keeps for
    each stored file (`FileType` and `Model`). */
module Models {

  /** The kinds of file, in declaration order: EC, TEST, TRAIN, CONFIGURATION. */
  datatype FileType = Ec | Test | Train | Configuration

  /** `FileType.values()`: every kind, in declaration order. */
  const FileTypes: seq<FileType> := [Ec, Test, Train, Configuration]

  /** The position of a kind in `FileTypes`. */
  function Ordinal(t: FileType): (n: nat)
    ensures n < |FileTypes| && FileTypes[n] == t
  {
    match t
    case Ec => 0
    case Test => 1
    case Train => 2
    case Configuration => 3
  }

  /** One stored file: its row id, name, path (empty for a configuration), whether
      it is selected, and its kind. */
  datatype Model = Model(id: int, name: string, path: string, clicked: bool, fileType: FileType)
}
