/** The fingerprint of a file that both mapping paths compare before and after mapping. */
module FileIdentities {
  import opened Wrappers

  /** What a `stat` of an open file reports at one moment, as far as it is looked at. */
  datatype FileIdentity = FileIdentity(len: nat, dev: nat, ino: nat)

  datatype OpenError =
    | OpenRefused | StatRefused | SizeMismatch | MapRefused | RestatRefused | Changed | AdviseRefused

  predicate SameInode(expected: FileIdentity, current: FileIdentity) {
    expected.dev == current.dev && expected.ino == current.ino
  }

  /** Re-stat (`None` when that fails) and compare length and inode. */
  function ValidateFileIdentity(restat: Option<FileIdentity>, expected: FileIdentity, expectedLen: nat): Option<OpenError> {
    if restat.None? then Some(RestatRefused)
    else
      var current := restat.value;
      if current.len != expectedLen || current.len != expected.len || !SameInode(expected, current)
      then Some(Changed) else None
  }
}
