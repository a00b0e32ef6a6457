/**
 * gdtree's utilities: the traversal depth bound, the settings flags and the
 * entry classifier. The three operating-system probes become inputs: a probe
 * that may raise OSError is an `Option<bool>` whose `None` is the error.
 */
module GdUtils {
  import opened Wrappers
  import opened EntryTypes

  /** Maximum depth of traversal. */
  const MAX_DEPTH: nat := 32

  /** The independent command-line flags. */
  datatype Settings = Settings(colorize: bool, fancy: bool, reverse: bool)

  /**
   * `get_type`: symlink test first, then the directory test, then `X_OK` access.
   * A probe that raised counts as false.
   */
  function GetType(isSymlink: Option<bool>, isDir: Option<bool>, executable: bool): (t: EntryType)
    ensures isSymlink == Some(true) <==> t == Symlink
    ensures t == Directory <==> isSymlink != Some(true) && isDir == Some(true)
    ensures t == Executable <==> isSymlink != Some(true) && isDir != Some(true) && executable
    ensures t == File <==> isSymlink != Some(true) && isDir != Some(true) && !executable
  {
    var symlink := match isSymlink case Some(b) => b case None => false;
    if symlink then Symlink
    else
      var dir := match isDir case Some(b) => b case None => false;
      if dir then Directory
      else if executable then Executable
      else File
  }

  /** A symlink is classified without the directory probe being consulted. */
  lemma SymlinkIgnoresDirProbe(d1: Option<bool>, d2: Option<bool>, x1: bool, x2: bool)
    ensures GetType(Some(true), d1, x1) == GetType(Some(true), d2, x2) == Symlink
  {
  }

  /** A raised probe behaves exactly like a probe that answered false. */
  lemma ProbeErrorIsFalse(s: Option<bool>, d: Option<bool>, x: bool)
    ensures GetType(None, d, x) == GetType(Some(false), d, x)
    ensures GetType(s, None, x) == GetType(s, Some(false), x)
  {
  }
}
