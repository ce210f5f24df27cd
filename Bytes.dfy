/**
  Bytes of a container file, little-endian field reads as Node's
  `Buffer.readUIntLE` performs them, their encoders, and positioned reads.
*/
module Bytes {

  type byte = b: int | 0 <= b < 256

  function Min(a: nat, b: nat): nat { if a <= b then a else b }

  /** `buf.readUIntLE(p, 2)`: two bytes at `p`, least significant first. */
  function U16(s: seq<byte>, p: nat): (v: nat)
    requires p + 2 <= |s|
    ensures v < 0x1_0000
  {
    s[p] as int + 0x100 * (s[p + 1] as int)
  }

  /** `buf.readUIntLE(p, 4)`: four bytes at `p`, least significant first. */
  function U32(s: seq<byte>, p: nat): (v: nat)
    requires p + 4 <= |s|
    ensures v < 0x1_0000_0000
  {
    U16(s, p) + 0x1_0000 * U16(s, p + 2)
  }

  /** The two-byte little-endian encoding of `v`; U16 reads it back. */
  function LE16(v: nat): (r: seq<byte>)
    requires v < 0x1_0000
    ensures |r| == 2 && U16(r, 0) == v
  {
    [v % 0x100, v / 0x100]
  }

  /** The four-byte little-endian encoding of `v`; U32 reads it back. */
  function LE32(v: nat): (r: seq<byte>)
    requires v < 0x1_0000_0000
    ensures |r| == 4 && U32(r, 0) == v
  {
    LE16(v % 0x1_0000) + LE16(v / 0x1_0000)
  }

  /** Encoding what U32 decoded gives back the very bytes: the decoding is injective. */
  lemma LE32OfU32(s: seq<byte>, p: nat)
    requires p + 4 <= |s|
    ensures LE32(U32(s, p)) == s[p..p + 4]
  {
    var v := U32(s, p);
    assert v % 0x1_0000 == U16(s, p);
    assert v / 0x1_0000 == U16(s, p + 2);
  }

  /** A four-byte field matches a constant exactly when its bytes are that constant's encoding. */
  lemma U32Matches(s: seq<byte>, p: nat, c: nat)
    requires p + 4 <= |s| && c < 0x1_0000_0000
    ensures U32(s, p) == c <==> s[p..p + 4] == LE32(c)
  {
    LE32OfU32(s, p);
  }

  /** Field reads see only the bytes of the field: a record may sit anywhere in a buffer. */
  lemma U16Window(s: seq<byte>, off: nat, w: seq<byte>, k: nat)
    requires off + |w| <= |s| && s[off..off + |w|] == w && k + 2 <= |w|
    ensures U16(s, off + k) == U16(w, k)
  {
    assert s[off + k] == w[k] && s[off + k + 1] == w[k + 1];
  }

  lemma U32Window(s: seq<byte>, off: nat, w: seq<byte>, k: nat)
    requires off + |w| <= |s| && s[off..off + |w|] == w && k + 4 <= |w|
    ensures U32(s, off + k) == U32(w, k)
  {
    U16Window(s, off, w, k);
    U16Window(s, off, w, k + 2);
  }

  function Zeros(n: nat): (r: seq<byte>)
    ensures |r| == n && forall i :: 0 <= i < n ==> r[i] == 0
  {
    seq(n, _ => 0)
  }

  /**
    Where `fs.readSync(fd, buf, 0, n, position)` reads: at `position`, or, for
    a negative position, where the descriptor stands. The reader moves the
    descriptor only by such a read, and the only read that can have a
    negative position is the first one `_getCD` makes, so it stands at the
    start of the file.
  */
  function ReadStart(position: int): (r: nat)
    ensures position >= 0 ==> r == position
    ensures position < 0 ==> r == 0
  {
    if position < 0 then 0 else position
  }

  /**
    What a positioned read (`fs.readSync(fd, buf, 0, n, pos)`) of `n` bytes at
    `pos` returns from a file holding `data`: the bytes that exist there, fewer
    only when the end of the file comes first.
  */
  function ReadAt(data: seq<byte>, pos: nat, n: nat): (r: seq<byte>)
    ensures |r| <= n
    ensures pos <= |data| ==> pos + |r| <= |data| && r == data[pos..pos + |r|]
    ensures pos > |data| ==> r == []
    ensures |r| < n <==> n > 0 && pos + n > |data|
    ensures pos <= |data| ==> |r| == Min(n, |data| - pos)
  {
    if pos >= |data| then [] else data[pos..Min(pos + n, |data|)]
  }

  /**
    A zero-filled buffer of `n` bytes after a positioned read into it whose
    byte count nobody checks: the read bytes first, zeros after them.
  */
  function Filled(data: seq<byte>, pos: nat, n: nat): (r: seq<byte>)
    ensures |r| == n
    ensures pos + n <= |data| ==> r == data[pos..pos + n]
    ensures forall i :: 0 <= i < n && pos + i < |data| ==> r[i] == data[pos + i]
    ensures forall i :: 0 <= i < n && pos + i >= |data| ==> r[i] == 0
  {
    var got := ReadAt(data, pos, n);
    got + Zeros(n - |got|)
  }

  /**
    Entry names are decoded one byte to one character (the character with
    that code), which agrees with UTF-8 on ASCII names.
  */
  function DecodeName(bs: seq<byte>): (r: string)
    ensures |r| == |bs|
    ensures forall i :: 0 <= i < |bs| ==> r[i] as int == bs[i]
  {
    if bs == [] then [] else DecodeName(bs[..|bs| - 1]) + [bs[|bs| - 1] as char]
  }
}
