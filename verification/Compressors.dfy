/** The choice of a compressor for a piece of data: jffs2_compress and its three modes. */
module Compressors {
  import opened Bytes

  const COMPR_NONE: nat := 0
  const COMPR_LZO: nat := 7
  const FAVOUR_LZO_PERCENT: nat := 80

  datatype Mode = NoCompression | Priority | Size | FavourLzo

  /** What a compressor makes of data: nothing, or the first `consumed` bytes of it as `bytes`. */
  datatype Attempt = Failed | Done(consumed: nat, bytes: seq<byte>)

  datatype Compressor = Compressor(
    id: nat, enabled: bool, compress: (seq<byte>, nat) -> Attempt, decompress: (seq<byte>, nat) -> seq<byte>)

  /** What a compressor may be given: some data, up to a limit, and no more room than data. A single byte of room is
      for a single byte of data only. */
  predicate Offered(data: seq<byte>, room: nat, limit: nat) {
    1 <= room <= |data| <= limit && (room == 1 ==> |data| == 1)
  }

  /** Compressing uses up some data, fits the room, and can be undone. */
  ghost predicate Sound(c: Compressor, limit: nat) {
    && c.id != COMPR_NONE && c.id < 256
    && forall data: seq<byte>, room: nat :: Offered(data, room, limit) ==> SoundOn(c, data, room)
  }

  ghost predicate SoundOn(c: Compressor, data: seq<byte>, room: nat) {
    var a := c.compress(data, room);
    a.Done? ==>
      1 <= a.consumed <= |data| && 1 <= |a.bytes| <= room && c.decompress(a.bytes, a.consumed) == data[..a.consumed]
  }

  ghost predicate AllSound(cs: seq<Compressor>, limit: nat) {
    && (forall i :: 0 <= i < |cs| ==> Sound(cs[i], limit))
    && (forall i, j :: 0 <= i < j < |cs| ==> cs[i].id != cs[j].id)
  }

  /** The compressor takes part and succeeds. */
  predicate Succeeds(c: Compressor, data: seq<byte>, room: nat) {
    c.enabled && c.compress(data, room).Done?
  }

  /** It also makes the data smaller. */
  predicate Gains(c: Compressor, data: seq<byte>, room: nat) {
    Succeeds(c, data, room) && var a := c.compress(data, room); |a.bytes| < a.consumed
  }

  function SizeWith(c: Compressor, data: seq<byte>, room: nat): nat
    requires Succeeds(c, data, room)
  {
    |c.compress(data, room).bytes|
  }

  /** jffs2_is_best_compression. */
  predicate IsBest(mode: Mode, current: nat, best: nat, size: nat, bestSize: nat) {
    match mode
    case Size => bestSize > size
    case FavourLzo =>
      || (current == COMPR_LZO && bestSize > size)
      || (best != COMPR_LZO && bestSize > size)
      || (current == COMPR_LZO && bestSize > size * FAVOUR_LZO_PERCENT / 100)
      || bestSize * FAVOUR_LZO_PERCENT / 100 > size
    case _ => false
  }

  /** The first that succeeds. */
  ghost predicate IsFirst(cs: seq<Compressor>, data: seq<byte>, room: nat, i: nat) {
    i < |cs| && Succeeds(cs[i], data, room) && forall j :: 0 <= j < i ==> !Succeeds(cs[j], data, room)
  }

  /** The first of those that give the smallest result. */
  ghost predicate IsSmallest(cs: seq<Compressor>, n: nat, data: seq<byte>, room: nat, i: nat) {
    && i < n <= |cs| && Gains(cs[i], data, room)
    && forall j :: 0 <= j < n && Gains(cs[j], data, room) ==>
      && SizeWith(cs[i], data, room) <= SizeWith(cs[j], data, room)
      && (j < i ==> SizeWith(cs[i], data, room) < SizeWith(cs[j], data, room))
  }

  function Percent(n: nat): nat {
    n * FAVOUR_LZO_PERCENT / 100
  }

  /** LZO unless another result is smaller than that percentage of its result; and else the smallest. Of two that are
      equal in this the first. */
  ghost predicate IsFavoured(cs: seq<Compressor>, n: nat, data: seq<byte>, room: nat, i: nat) {
    && i < n <= |cs| && Gains(cs[i], data, room)
    && forall j :: 0 <= j < n && Gains(cs[j], data, room) ==>
      var mine, other := SizeWith(cs[i], data, room), SizeWith(cs[j], data, room);
      if cs[i].id == COMPR_LZO then Percent(mine) <= other && (j < i ==> Percent(mine) < other)
      else
        && mine <= other && (j < i ==> mine < other)
        && (cs[j].id == COMPR_LZO ==> mine <= Percent(other) && (j < i ==> mine < Percent(other)))
  }

  ghost predicate IsChoice(mode: Mode, cs: seq<Compressor>, n: nat, data: seq<byte>, room: nat, i: nat) {
    if mode.Size? then IsSmallest(cs, n, data, room, i) else IsFavoured(cs, n, data, room, i)
  }

  ghost predicate NoneGains(cs: seq<Compressor>, n: nat, data: seq<byte>, room: nat)
    requires n <= |cs|
  {
    forall j :: 0 <= j < n ==> !Gains(cs[j], data, room)
  }

  /** One compressor more: the choice moves to it exactly when it is the better one. */
  lemma NextChoice(mode: Mode, cs: seq<Compressor>, n: nat, data: seq<byte>, room: nat, i: nat, limit: nat)
    requires AllSound(cs, limit) && n < |cs| && (mode.Size? || mode.FavourLzo?) && IsChoice(mode, cs, n, data, room, i)
    ensures
      var moves := Gains(cs[n], data, room)
        && IsBest(mode, cs[n].id, cs[i].id, SizeWith(cs[n], data, room), SizeWith(cs[i], data, room));
      IsChoice(mode, cs, n + 1, data, room, if moves then n else i)
  {
    hide Sound;
  }

  lemma FirstChoice(mode: Mode, cs: seq<Compressor>, n: nat, data: seq<byte>, room: nat, limit: nat)
    requires AllSound(cs, limit) && n < |cs| && (mode.Size? || mode.FavourLzo?) && NoneGains(cs, n, data, room)
    requires Gains(cs[n], data, room)
    ensures IsChoice(mode, cs, n + 1, data, room, n)
  {
    hide Sound;
  }

  /** There is never more than one such choice. */
  lemma ChoiceUnique(mode: Mode, cs: seq<Compressor>, data: seq<byte>, room: nat, i: nat, k: nat, limit: nat)
    requires AllSound(cs, limit)
    requires IsChoice(mode, cs, |cs|, data, room, i) && IsChoice(mode, cs, |cs|, data, room, k)
    ensures i == k
  {
    hide Sound, Percent;
    if i < k {
      NoLaterChoice(mode, cs, data, room, i, k, limit);
    } else if k < i {
      NoLaterChoice(mode, cs, data, room, k, i, limit);
    }
  }

  lemma NoLaterChoice(mode: Mode, cs: seq<Compressor>, data: seq<byte>, room: nat, i: nat, k: nat, limit: nat)
    requires AllSound(cs, limit) && i < k && IsChoice(mode, cs, |cs|, data, room, i)
    ensures !IsChoice(mode, cs, |cs|, data, room, k)
  {
    hide Sound, Percent;
    assert Gains(cs[i], data, room);
  }

  /** What a compression code and its bytes stand for, given the number of bytes they stand for. */
  ghost predicate Decodes(cs: seq<Compressor>, id: nat, bytes: seq<byte>, data: seq<byte>) {
    if id == COMPR_NONE then bytes == data
    else exists i :: 0 <= i < |cs| && cs[i].id == id && cs[i].decompress(bytes, |data|) == data
  }

  datatype Compressed = Compressed(id: nat, consumed: nat, bytes: seq<byte>)

  /** The loop over the list in priority mode. */
  method ByPriority(cs: seq<Compressor>, data: seq<byte>, room: nat) returns (i: nat)
    ensures i <= |cs| && (i < |cs| ==> IsFirst(cs, data, room, i))
    ensures i == |cs| ==> forall j :: 0 <= j < |cs| ==> !Succeeds(cs[j], data, room)
  {
    i := 0;
    while i < |cs| && !Succeeds(cs[i], data, room)
      invariant 0 <= i <= |cs| && forall j :: 0 <= j < i ==> !Succeeds(cs[j], data, room)
    {
      i := i + 1;
    }
  }

  /** What the first n compressors leave as the output length: each attempt starts from the whole room. */
  function LastLength(cs: seq<Compressor>, n: nat, data: seq<byte>, room: nat): nat
    requires n <= |cs|
  {
    if n == 0 then room
    else if !cs[n - 1].enabled then LastLength(cs, n - 1, data, room)
    else if Succeeds(cs[n - 1], data, room) then SizeWith(cs[n - 1], data, room)
    else room
  }

  /** That is the length of the last enabled compressor's result, or the room if it failed or there is none. */
  lemma {:induction false} LastLengthIs(cs: seq<Compressor>, n: nat, data: seq<byte>, room: nat, j: nat)
    requires n <= |cs| && j <= n && forall m :: j <= m < n ==> !cs[m].enabled
    ensures j == 0 ==> LastLength(cs, n, data, room) == room
    ensures j > 0 && cs[j - 1].enabled ==>
      LastLength(cs, n, data, room) ==
        var a := cs[j - 1].compress(data, room);
        if a.Done? then |a.bytes| else room
  {
    if j < n { LastLengthIs(cs, n - 1, data, room, j); }
  }

  /** The loop over the list in the other two modes; `left` is what the last attempt leaves as the output length. */
  method BySize(mode: Mode, cs: seq<Compressor>, data: seq<byte>, room: nat, ghost limit: nat)
    returns (best: nat, left: nat)
    requires AllSound(cs, limit) && (mode.Size? || mode.FavourLzo?) && Offered(data, room, limit)
    ensures best <= |cs| && 1 <= left <= room && left == LastLength(cs, |cs|, data, room)
    ensures best < |cs| ==> IsChoice(mode, cs, |cs|, data, room, best)
    ensures best == |cs| ==> NoneGains(cs, |cs|, data, room)
  {
    hide Sound, IsChoice, IsBest;
    best, left := |cs|, room;
    var n := 0;
    while n < |cs|
      invariant 0 <= n <= |cs| && (best < |cs| ==> IsChoice(mode, cs, n, data, room, best)) && 1 <= left <= room
      invariant left == LastLength(cs, n, data, room)
      invariant best <= |cs| && (best == |cs| ==> NoneGains(cs, n, data, room))
      invariant (best < |cs| ==> Gains(cs[best], data, room))
    {
      var c := cs[n];
      if c.enabled { left := room; }
      if Succeeds(c, data, room) {
        assert SoundOn(c, data, room) by { SoundHere(cs, n, data, room, limit); }
        var a := c.compress(data, room);
        left := |a.bytes|;
        if best == |cs| {
          if |a.bytes| < a.consumed {
            FirstChoice(mode, cs, n, data, room, limit);
            best := n;
          }
        } else {
          NextChoice(mode, cs, n, data, room, best, limit);
          if IsBest(mode, c.id, cs[best].id, |a.bytes|, SizeWith(cs[best], data, room)) && |a.bytes| < a.consumed {
            best := n;
          }
        }
      } else if best < |cs| {
        NextChoice(mode, cs, n, data, room, best, limit);
      }
      n := n + 1;
    }
  }

  lemma SoundHere(cs: seq<Compressor>, n: nat, data: seq<byte>, room: nat, limit: nat)
    requires AllSound(cs, limit) && n < |cs| && Offered(data, room, limit)
    ensures SoundOn(cs[n], data, room) && cs[n].id != COMPR_NONE && cs[n].id < 256
  {
    assert Sound(cs[n], limit);
  }

  /** The compressor the mode asks for. */
  ghost predicate IsChosen(mode: Mode, cs: seq<Compressor>, data: seq<byte>, room: nat, i: nat) {
    if mode.Priority? then IsFirst(cs, data, room, i) else IsChoice(mode, cs, |cs|, data, room, i)
  }

  /** There is no such compressor. */
  ghost predicate Hopeless(mode: Mode, cs: seq<Compressor>, data: seq<byte>, room: nat) {
    match mode
    case NoCompression => true
    case Priority => forall j :: 0 <= j < |cs| ==> !Succeeds(cs[j], data, room)
    case _ => NoneGains(cs, |cs|, data, room)
  }

  /** What jffs2_compress returns: what the chosen compressor made, or some of the data as they are. */
  ghost predicate IsResult(mode: Mode, cs: seq<Compressor>, data: seq<byte>, room: nat, r: Compressed) {
    if Hopeless(mode, cs, data, room) then
      && r.consumed == (if mode.Size? || mode.FavourLzo? then LastLength(cs, |cs|, data, room) else room)
      && r.consumed <= |data| && r.id == COMPR_NONE && r.bytes == data[..r.consumed]
    else
      exists i :: 0 <= i < |cs| && IsChosen(mode, cs, data, room, i) && MadeBy(cs[i], data, room, r)
  }

  predicate MadeBy(c: Compressor, data: seq<byte>, room: nat, r: Compressed) {
    r.id == c.id && c.compress(data, room) == Done(r.consumed, r.bytes)
  }

  /** jffs2_compress: some of the data, in no more than the room, as bytes that decode to it. */
  method Jffs2Compress(mode: Mode, cs: seq<Compressor>, data: seq<byte>, room: nat, ghost limit: nat)
    returns (r: Compressed)
    requires AllSound(cs, limit) && Offered(data, room, limit)
    ensures 1 <= r.consumed <= |data| && 1 <= |r.bytes| <= room && r.id < 256
    ensures Decodes(cs, r.id, r.bytes, data[..r.consumed])
    ensures r.id == COMPR_NONE <==> Hopeless(mode, cs, data, room)
    ensures IsResult(mode, cs, data, room, r)
    ensures r.id != COMPR_NONE && !mode.Priority? ==> |r.bytes| < r.consumed
    ensures r.id == COMPR_NONE && (mode.Size? || mode.FavourLzo?) ==>
      forall i :: 0 <= i < |cs| && cs[i].enabled && cs[i].compress(data, room).Done? ==>
        cs[i].compress(data, room).consumed <= |cs[i].compress(data, room).bytes|
  {
    hide IsChoice, IsBest, Sound;
    var i, left := |cs|, room;
    if mode.Priority? {
      i := ByPriority(cs, data, room);
    } else if mode.Size? || mode.FavourLzo? {
      i, left := BySize(mode, cs, data, room, limit);
      assert i < |cs| ==> Gains(cs[i], data, room) by { if i < |cs| { ChoiceGains(mode, cs, data, room, i); } }
    }
    if i < |cs| {
      SoundHere(cs, i, data, room, limit);
      var a := cs[i].compress(data, room);
      r := Compressed(cs[i].id, a.consumed, a.bytes);
      assert IsChosen(mode, cs, data, room, i) && MadeBy(cs[i], data, room, r);
    } else {
      r := Compressed(COMPR_NONE, left, data[..left]);
    }
  }

  lemma ChoiceGains(mode: Mode, cs: seq<Compressor>, data: seq<byte>, room: nat, i: nat)
    requires IsChoice(mode, cs, |cs|, data, room, i)
    ensures i < |cs| && Gains(cs[i], data, room)
  {
  }
}
