/** A kernel file: fixed contents and a cursor.  Every read is full, that is, it
    delivers as many characters as were asked for unless the file ends first. */
module FileModel {

  class File {
    const data: string
    var pos: nat

    constructor (data: string)
      ensures this.data == data && pos == 0
    {
      this.data := data;
      pos := 0;
    }

    /** `vfs_read` of up to `size` characters into `buf` starting at index `at`. */
    method Read(buf: array<char>, at: nat, size: nat) returns (n: nat)
      requires pos <= |data|
      requires at + size <= buf.Length
      modifies `pos, buf
      ensures n == if size <= |data| - old(pos) then size else |data| - old(pos)
      ensures pos == old(pos) + n
      ensures buf[at..at + n] == data[old(pos)..pos]
      ensures forall i :: 0 <= i < at || at + n <= i < buf.Length ==> buf[i] == old(buf[i])
    {
      n := if size <= |data| - pos then size else |data| - pos;
      for k := 0 to n
        invariant pos == old(pos)
        invariant forall i :: at <= i < at + k ==> buf[i] == data[pos + (i - at)]
        invariant forall i :: 0 <= i < at || at + k <= i < buf.Length ==> buf[i] == old(buf[i])
      {
        buf[at + k] := data[pos + k];
      }
      pos := pos + n;
    }
  }
}
