/** Values shared by the submission endpoint and the application form. */
module Common {

  datatype Option<+T> = None | Some(value: T)

  /** A browser `File` as both sides see it: its name, its declared media
      type (`file.type`) and its size in bytes. The bytes themselves are
      opaque to every rule modelled here. */
  datatype FileRecord = FileRecord(name: string, mediaType: string, size: nat)

  /** `Array.prototype.join(sep)` on an array of strings. */
  function Join(xs: seq<string>, sep: string): string
  {
    if xs == [] then ""
    else if |xs| == 1 then xs[0]
    else xs[0] + sep + Join(xs[1..], sep)
  }
}
