/** How the two generations' classifiers relate. */
module Classify {
  import opened Wrappers
  import opened EntryTypes
  import GdUtils
  import PyUtils

  /**
   * The generations disagree on exactly one kind of entry: one whose symlink and
   * directory probes both answer true (a symlink to a directory). gdtree calls it
   * a symlink, pytree a directory; on every other entry they agree.
   */
  lemma GenerationsDifferOnlyOnSymlinkToDir(isSymlink: Option<bool>, isDir: Option<bool>, x: bool)
    ensures GdUtils.GetType(isSymlink, isDir, x) != PyUtils.GetType(isDir, isSymlink, x)
        <==> isSymlink == Some(true) && isDir == Some(true)
    ensures isSymlink == Some(true) && isDir == Some(true) ==>
        GdUtils.GetType(isSymlink, isDir, x) == Symlink && PyUtils.GetType(isDir, isSymlink, x) == Directory
  {
  }
}
