/** The closed enumeration of directory-entry kinds shared by both generations. */
module EntryTypes {
  import opened Wrappers

  datatype EntryType = Directory | File | Executable | Symlink

  /** The enum's integer value (`DIRECTORY = 1` ... `SYMLINK = 4`). */
  function Code(t: EntryType): (c: int)
    ensures 1 <= c <= 4
  {
    match t
    case Directory => 1
    case File => 2
    case Executable => 3
    case Symlink => 4
  }

  /** The member with integer value `c`, if there is one. */
  function FromCode(c: int): (r: Option<EntryType>)
    ensures r.Some? <==> 1 <= c <= 4
    ensures r.Some? ==> Code(r.value) == c
  {
    if c == 1 then Some(Directory)
    else if c == 2 then Some(File)
    else if c == 3 then Some(Executable)
    else if c == 4 then Some(Symlink)
    else None
  }
}
