/**
 A file opened "r+b" or "wb", as the image tools use one: a write beyond the end
 leaves zeros in the gap, a seek alone changes nothing, a truncate beyond the end
 extends with zeros.
 */
module DiskFile {
  import opened Bytes

  /** The byte at i, zero beyond the end. */
  function ByteAt(c: Bytes, i: nat): byte {
    if i < |c| then c[i] else 0
  }

  function Max(a: nat, b: nat): nat {
    if a < b then b else a
  }

  function WriteAt(c: Bytes, pos: nat, b: Bytes): (r: Bytes)
    ensures |r| == if b == [] then |c| else Max(|c|, pos + |b|)
    ensures forall i: nat :: ByteAt(r, i) == if pos <= i < pos + |b| then b[i - pos] else ByteAt(c, i)
  {
    if b == [] then c
    else seq(Max(|c|, pos + |b|), i requires 0 <= i => if pos <= i < pos + |b| then b[i - pos] else ByteAt(c, i))
  }

  function Resize(c: Bytes, n: nat): (r: Bytes)
    ensures |r| == n && forall i | 0 <= i < n :: r[i] == ByteAt(c, i)
  {
    seq(n, i requires 0 <= i => ByteAt(c, i))
  }

  class File {
    var content: Bytes
    var pos: nat

    constructor (content: Bytes)
      ensures this.content == content && pos == 0
    {
      this.content := content;
      this.pos := 0;
    }

    method Seek(p: nat)
      modifies `pos
      ensures pos == p
    {
      pos := p;
    }

    method Write(b: Bytes)
      modifies this
      ensures content == WriteAt(old(content), old(pos), b) && pos == old(pos) + |b|
    {
      content := WriteAt(content, pos, b);
      pos := pos + |b|;
    }

    method Truncate(n: nat)
      modifies `content
      ensures content == Resize(old(content), n)
    {
      content := Resize(content, n);
    }
  }
}
