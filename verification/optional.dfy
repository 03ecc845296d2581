/** A value that may be absent: the position a search finds (absent when the
    search text does not occur), a parsed line (absent when it is malformed), and
    the path of the file that stopped a run (absent when every file was read). */
module Optional {

  datatype Option<T> = None | Some(value: T)

}
