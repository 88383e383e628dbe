/** Clusters as byte sequences, and the little-endian 32-bit words in them. */
module FsWords {
  import opened BinIndex

  type Byte = x: nat | x < 256

  function WordOf(b0: Byte, b1: Byte, b2: Byte, b3: Byte): nat {
    b0 + 0x100 * b1 + 0x1_0000 * b2 + 0x100_0000 * b3
  }

  /** Word number k of a cluster. */
  function ReadWord(data: seq<Byte>, k: nat): (w: nat)
    requires 4 * k + 4 <= |data|
    ensures w < WORD
  {
    WordOf(data[4 * k], data[4 * k + 1], data[4 * k + 2], data[4 * k + 3])
  }

  function WriteWord(data: seq<Byte>, k: nat, w: nat): (r: seq<Byte>)
    requires 4 * k + 4 <= |data| && w < WORD
    ensures |r| == |data|
  {
    data[4 * k := w % 0x100][4 * k + 1 := w / 0x100 % 0x100][4 * k + 2 := w / 0x1_0000 % 0x100][4 * k + 3 := w / 0x100_0000]
  }

  lemma SplitBytes(w: nat)
    requires w < WORD
    ensures WordOf(w % 0x100, w / 0x100 % 0x100, w / 0x1_0000 % 0x100, w / 0x100_0000) == w
  {
    assert w / 0x1_0000 == w / 0x100 / 0x100 && w / 0x100_0000 == w / 0x1_0000 / 0x100;
  }

  /** A word written is read back, and no other word changes. */
  lemma ReadWritten(data: seq<Byte>, k: nat, w: nat, j: nat)
    requires 4 * k + 4 <= |data| && w < WORD && 4 * j + 4 <= |data|
    ensures ReadWord(WriteWord(data, k, w), j) == if j == k then w else ReadWord(data, j)
  {
    if j == k {
      SplitBytes(w);
    }
  }

  /** The least significant byte of a word comes first, and no other byte changes. */
  lemma WrittenBytes(data: seq<Byte>, k: nat, w: nat)
    requires 4 * k + 4 <= |data| && w < WORD
    ensures var r: seq<nat> := WriteWord(data, k, w);
      && w == r[4 * k] + 0x100 * r[4 * k + 1] + 0x1_0000 * r[4 * k + 2] + 0x100_0000 * r[4 * k + 3]
      && forall i :: 0 <= i < |data| && !(4 * k <= i < 4 * k + 4) ==> r[i] == data[i]
  {
    SplitBytes(w);
  }

  /** The bytes from position k on replaced. */
  function Splice(data: seq<Byte>, k: nat, bytes: seq<Byte>): (r: seq<Byte>)
    requires k + |bytes| <= |data|
    ensures |r| == |data|
  {
    data[..k] + bytes + data[k + |bytes|..]
  }
}
