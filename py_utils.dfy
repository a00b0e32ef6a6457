/** pytree's entry classifier: directory test first, then symlink, then access. */
module PyUtils {
  import opened Wrappers
  import opened EntryTypes

  /** `_test_entry_type`: a probe's answer, with a raised OSError read as false. */
  function TestEntryType(probe: Option<bool>): (b: bool)
    ensures b <==> probe == Some(true)
  {
    match probe
    case Some(v) => v
    case None => false
  }

  /** `get_type` of pytree. */
  function GetType(isDir: Option<bool>, isSymlink: Option<bool>, executable: bool): (t: EntryType)
    ensures t == Directory <==> TestEntryType(isDir)
    ensures t == Symlink <==> !TestEntryType(isDir) && TestEntryType(isSymlink)
    ensures t == Executable <==> !TestEntryType(isDir) && !TestEntryType(isSymlink) && executable
    ensures t == File <==> !TestEntryType(isDir) && !TestEntryType(isSymlink) && !executable
  {
    if TestEntryType(isDir) then Directory
    else if TestEntryType(isSymlink) then Symlink
    else if executable then Executable
    else File
  }
}
