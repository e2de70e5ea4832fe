/** What the readers use of stdio. */
module Files {
  import opened Bytes

  /** A file is its bytes and a cursor. */
  class File {
    const data: seq<byte>
    var pos: nat

    constructor (data: seq<byte>)
      ensures this.data == data && pos == 0
    {
      this.data, pos := data, 0;
    }

    method Fread(n: nat) returns (b: seq<byte>)
      requires pos + n <= |data|
      modifies this
      ensures pos == old(pos) + n && b == data[old(pos)..pos]
    {
      b := data[pos..pos + n];
      pos := pos + n;
    }

    /** `fseek(fp, off, SEEK_CUR)`; it may pass the end, and fails before the start. */
    method Fseek(off: int)
      modifies this
      ensures pos == if old(pos) + off >= 0 then old(pos) + off else old(pos)
    {
      if pos + off >= 0 {
        pos := pos + off;
      }
    }
  }
}
