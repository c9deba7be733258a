/** What all JFFS2 images have in common: node types, alignment, fill, checksums, and fields of fixed width. */
module FlashFormat {
  import opened Bytes
  import opened Pieces

  const NODETYPE_DIRENT: nat := 0xe001
  const NODETYPE_INODE: nat := 0xe002
  const NODETYPE_XATTR: nat := 0xe008
  const NODETYPE_XREF: nat := 0xe009
  const NODETYPE_SUMMARY: nat := 0x2006
  const MAGIC_BITMASK: nat := 0x1985
  const SUM_MAGIC: nat := 0x02851885

  const RAW_INODE_SIZE: nat := 68
  const RAW_DIRENT_SIZE: nat := 40
  const CLEANMARKER_NODE_SIZE: nat := 12

  const MIN_DATA_LEN: nat := 128

  /** The size of the buffer of 0xff bytes that padding is written from. */
  const CHUNK: nat := 16

  predicate Word(n: nat) {
    n < 0x1_0000_0000
  }

  type word = x: int | 0 <= x < 0x1_0000_0000

  /** crc32 of some bytes. */
  type Crc = seq<byte> -> word

  function Filled(n: nat): (s: seq<byte>)
    ensures |s| == n
  {
    seq(n, _ => 255)
  }

  /** Padding up to a multiple of four. */
  function Gap(n: nat): (g: nat)
    ensures g < 4 && (n + g) % 4 == 0
  {
    (4 - n % 4) % 4
  }

  lemma GapShift(a: nat, n: nat)
    requires a % 4 == 0
    ensures Gap(a + n) == Gap(n)
  {
  }

  /** PAD. */
  function Padded(n: nat): nat {
    n + Gap(n)
  }

  /** A four-byte field of a copy of s, where s has the field n behind its first part a. */
  lemma Field32(data: seq<byte>, pos: nat, s: seq<byte>, a: seq<byte>, n: nat, c: seq<byte>)
    requires Word(n) && s == a + Put32(n) + c && Holds(data, pos, s)
    ensures pos + |a| + 4 <= |data| && Get32(data, pos + |a|) == n
  {
    hide Get32, Put32;
    GetPut32(a, n, c);
    Shifted32(data, pos, s, |a|);
  }

  lemma Field16(data: seq<byte>, pos: nat, s: seq<byte>, n: nat, c: seq<byte>)
    requires n < 0x1_0000 && s == Put16(n) + c && Holds(data, pos, s)
    ensures pos + 2 <= |data| && Get16(data, pos) == n
  {
    hide Get16, Put16;
    assert s == [] + Put16(n) + c;
    GetPut16([], n, c);
    Shifted16(data, pos, s, 0);
  }
}
