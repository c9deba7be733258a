/** What the summary of an eraseblock says of the nodes that mkfs.jffs2 writes. */
module NodeRecords {
  import opened Bytes
  import opened FlashFormat
  import JffsNodes
  import opened SummaryFormat

  /** A directory entry is summarized with its own parent, version, inode number, type and name. */
  lemma DirentRecord(h: JffsNodes.DirentHeader, crc: Crc, offset: nat)
    requires JffsNodes.IsDirentHeader(h) && Word(offset)
    ensures
      var n := JffsNodes.DirentNode(h, crc);
      && IsNode(n)
      && Summarize(n, offset) ==
           Dirent(RAW_DIRENT_SIZE + |h.name|, offset, h.pino, h.version, h.ino, h.kind, h.name)
  {
    hide Get16, Get32, JffsNodes.DirentNode;
    JffsNodes.DirentFields(h, crc);
  }

  /** A data node is summarized with its inode number and version. */
  lemma DataRecord(h: JffsNodes.DataHeader, crc: Crc, data: seq<byte>, offset: nat)
    requires JffsNodes.IsDataHeader(h) && |data| == h.csize && Word(offset)
    ensures
      var n := JffsNodes.InodeNode(h, crc, data);
      IsNode(n) && Summarize(n, offset) == Inode(h.ino, h.version, offset, RAW_INODE_SIZE + h.csize)
  {
    hide Get16, Get32, JffsNodes.InodeNode;
    JffsNodes.InodeFields(h, crc, data);
  }
}
