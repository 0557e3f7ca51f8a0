/** The part of the file system the ciphers touch: a map from path to
    contents, files opened for reading with a position, and files opened for
    writing that are filled from empty and may be truncated. */
module Files {
  import opened Bytes
  import opened Paths

  /** The files that exist and their contents; `os.path.exists(p)` is `p in fs` */
  type FileMap = map<Path, Bytes>

  /** `f.truncate(size)`: the contents cut to `size` bytes, or extended to
      `size` bytes with zero bytes (as POSIX `ftruncate` does) */
  function Resize(s: Bytes, size: nat): (r: Bytes)
    ensures |r| == size
    ensures forall i :: 0 <= i < Min(|s|, size) ==> r[i] == s[i]
    ensures forall i :: |s| <= i < size ==> r[i] == 0
  {
    if size <= |s| then s[..size] else s + seq(size - |s|, _ => 0)
  }

  /** The sizes `read` of a buffered binary file accepts: -1 for "to the
      end" and the non-negative counts; any other negative size raises
      ValueError */
  type ReadSize = n: int | n >= -1

  /** How many bytes `f.read(n)` returns with `remaining` left: up to `n`,
      or all of them for -1 */
  function ReadLength(remaining: nat, n: ReadSize): (r: nat)
    ensures r <= remaining
    ensures n != 0 && remaining > 0 ==> r > 0
  {
    if n == -1 then remaining else Min(n, remaining)
  }

  /** A file opened with mode 'rb' */
  class InputFile {
    const data: Bytes
    var pos: nat

    ghost predicate Valid()
      reads this
    {
      pos <= |data|
    }

    constructor Open(contents: Bytes)
      ensures Valid() && data == contents && pos == 0
    {
      data := contents;
      pos := 0;
    }

    /** `f.read(n)`: at most n bytes from the position on, or all the rest
        for -1; an empty result means the end was reached */
    method Read(n: ReadSize) returns (chunk: Bytes)
      requires Valid()
      modifies this
      ensures Valid()
      ensures pos == old(pos) + ReadLength(|data| - old(pos), n)
      ensures chunk == data[old(pos)..pos]
    {
      var end := pos + ReadLength(|data| - pos, n);
      chunk := data[pos..end];
      pos := end;
    }
  }

  /** A file opened with mode 'wb': created empty, then written in sequence */
  class OutputFile {
    var contents: Bytes

    constructor Create()
      ensures contents == []
    {
      contents := [];
    }

    method Write(b: Bytes)
      modifies this
      ensures contents == old(contents) + b
    {
      contents := contents + b;
    }

    method Truncate(size: nat)
      modifies this
      ensures contents == Resize(old(contents), size)
    {
      contents := Resize(contents, size);
    }
  }
}
