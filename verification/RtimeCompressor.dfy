/** rtime as one of the compressors that mkfs.jffs2 chooses from. */
module RtimeCompressor {
  import opened Bytes
  import opened Compressors
  import opened FlashFormat
  import opened JffsFiles
  import Rtime

  const COMPR_RTIME: nat := 2

  /** The most that rtime is given: positions are kept as signed 16-bit numbers. */
  const LIMIT: nat := 32767

  /** What jffs2_rtime_compress makes of some data. */
  function Attempted(data: seq<byte>, room: nat): Attempt {
    var c := Rtime.Coded(data, room);
    if |c.code| >= c.pos then Failed else Done(c.pos, c.code)
  }

  /** The first n bytes that some code stands for. */
  function Restored(code: seq<byte>, n: nat): seq<byte> {
    if |code| % 2 != 0 then [] else
      var out := Rtime.Run(code, Rtime.Start()).out;
      if n <= |out| then out[..n] else out
  }

  function RtimeWith(enabled: bool): Compressor {
    Compressor(COMPR_RTIME, enabled, Attempted, Restored)
  }

  /** jffs2_rtime_compress with its error. */
  method Attempt(data: array<byte>, room: nat) returns (a: Attempt)
    requires Offered(data[..], room, LIMIT)
    ensures a == Attempted(data[..], room)
  {
    var out := new byte[if room < 2 then 2 else room];
    var r, pos, outpos := Rtime.Compress(data, out, data.Length, room);
    assert data[..data.Length] == data[..];
    a := if r == 0 then Done(pos, out[..outpos]) else Failed;
  }

  /** jffs2_rtime_decompress gives what the compressor promises. */
  method Restore(code: seq<byte>, n: nat) returns (out: array<byte>)
    requires |code| % 2 == 0 && |Rtime.Run(code, Rtime.Start()).out| == n
    ensures fresh(out) && out[..] == Restored(code, n)
  {
    var c := new byte[|code|](i requires 0 <= i < |code| => code[i]);
    assert c[..] == code;
    out := new byte[n];
    Rtime.Decompress(c, out, n);
    assert out[..n] == out[..];
  }

  /** On whatever it may be given, what rtime makes fits the room and decodes to the data used up. */
  lemma RtimeSoundOn(data: seq<byte>, room: nat, enabled: bool)
    requires Offered(data, room, LIMIT)
    ensures SoundOn(RtimeWith(enabled), data, room)
  {
    Rtime.CodedRight(data, room);
    var c := Rtime.Coded(data, room);
    if |c.code| < c.pos {
      assert c.pos > 0 && c.code != [] by { if c.code == [] { NoCode(); } }
      assert data[..c.pos][..c.pos] == data[..c.pos];
    }
  }

  lemma NoCode()
    ensures Rtime.Run([], Rtime.Start()).out == []
  {
  }

  /** rtime is a sound compressor for every page that mkfs.jffs2 may give it, so files written with it read back. */
  lemma RtimeSound(enabled: bool, crc: Crc, mode: Mode, pageSize: nat)
    requires 1 <= pageSize <= LIMIT
    ensures Sound(RtimeWith(enabled), pageSize) && IsOptions(Options(crc, mode, [RtimeWith(enabled)], pageSize))
  {
    hide SoundOn, RtimeWith;
    assert RtimeWith(enabled).id == COMPR_RTIME by { RtimeId(enabled); }
    forall data: seq<byte>, room: nat | Offered(data, room, pageSize) ensures SoundOn(RtimeWith(enabled), data, room) {
      RtimeSoundOn(data, room, enabled);
    }
  }

  lemma RtimeId(enabled: bool)
    ensures RtimeWith(enabled).id == COMPR_RTIME
  {
  }
}
