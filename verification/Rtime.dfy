/** The rtime codec of compr_rtime.c: a byte, then how many of the bytes that
    followed its previous occurrence follow again. */
module Rtime {

  import opened Bytes

  // ----- What a compressed stream means

  /** The bytes so far, and for every byte value the position after its last literal occurrence. */
  datatype State = State(out: seq<byte>, positions: seq<int>)

  predicate Ok(s: State) {
    |s.positions| == 256 && forall v :: 0 <= v < 256 ==> 0 <= s.positions[v] <= |s.out|
  }

  function Start(): (s: State)
    ensures Ok(s)
  {
    State([], seq(256, i => 0))
  }

  /** out, followed by n bytes copied one by one from position `from` on; the copy may read what it wrote. */
  function Copied(out: seq<byte>, from: nat, n: nat): (r: seq<byte>)
    requires from < |out|
    ensures |r| == |out| + n && r[..|out|] == out
    decreases n
  {
    if n == 0 then out else Copied(out + [out[from]], from + 1, n - 1)
  }

  /** One pair of bytes: the literal byte, then the run. */
  function Expanded(s: State, value: byte, repeat: nat): (r: State)
    requires Ok(s)
    ensures Ok(r) && |r.out| == |s.out| + 1 + repeat
  {
    State(Copied(s.out + [value], s.positions[value], repeat), s.positions[value := |s.out| + 1])
  }

  function Run(code: seq<byte>, s: State): (r: State)
    requires |code| % 2 == 0 && Ok(s)
    ensures Ok(r) && |r.out| >= |s.out|
    ensures code != [] ==> |r.out| > |s.out|
    decreases |code|
  {
    if code == [] then s else Run(code[2..], Expanded(s, code[0], code[1]))
  }

  lemma {:induction false} RunAppend(a: seq<byte>, b: seq<byte>, s: State)
    requires |a| % 2 == 0 && |b| % 2 == 0 && Ok(s)
    ensures Run(a + b, s) == Run(b, Run(a, s))
    decreases |a|
  {
    if a == [] {
      assert a + b == b;
    } else {
      assert (a + b)[2..] == a[2..] + b && (a + b)[0] == a[0] && (a + b)[1] == a[1];
      RunAppend(a[2..], b, Expanded(s, a[0], a[1]));
    }
  }

  lemma RunPair(a: seq<byte>, value: byte, repeat: byte, s: State)
    requires |a| % 2 == 0 && Ok(s)
    ensures Run(a + [value, repeat], s) == Expanded(Run(a, s), value, repeat)
  {
    var b := [value, repeat];
    RunAppend(a, b, s);
    assert b[2..] == [];
  }

  /** A run that repeats earlier bytes of data is restored by copying. */
  lemma {:induction false} CopyRestores(data: seq<byte>, pos: nat, from: nat, n: nat)
    requires from < pos && pos + n <= |data|
    requires data[pos..pos + n] == data[from..from + n]
    ensures Copied(data[..pos], from, n) == data[..pos + n]
    decreases n
  {
    if n > 0 {
      assert data[pos..pos + n][0] == data[from..from + n][0];
      assert data[..pos] + [data[..pos][from]] == data[..pos + 1];
      assert data[pos + 1..pos + n] == data[pos..pos + n][1..] == data[from..from + n][1..] == data[from + 1..from + n];
      CopyRestores(data, pos + 1, from + 1, n - 1);
    }
  }

  /** A copied byte is the one as far behind `from` as it is behind the end of what was there. */
  lemma {:induction false} CopiedRepeats(out: seq<byte>, from: nat, n: nat, k: nat)
    requires from < |out| && k < n
    ensures Copied(out, from, n)[|out| + k] == Copied(out, from, n)[from + k]
    decreases n
  {
    var next := out + [out[from]];
    if k > 0 {
      CopiedRepeats(next, from + 1, n - 1, k - 1);
    } else {
      var r := Copied(next, from + 1, n - 1);
      assert r[..|next|] == next;
      assert r[|out|] == r[..|next|][|out|] && r[from] == r[..|next|][from];
    }
  }

  /** The table holds the position after the last pair that began with a value, here pair i, or 0 if none did. */
  lemma {:induction false} PositionsAre(code: seq<byte>, v: byte, i: int)
    requires |code| % 2 == 0 && -1 <= i && 2 * i < |code| && forall m :: i < m && 2 * m < |code| ==> code[2 * m] != v
    requires 0 <= i ==> code[2 * i] == v
    ensures
      Run(code, Start()).positions[v] == if i == -1 then 0 else |Run(code[..2 * i], Start()).out| + 1
    decreases |code|
  {
    hide Copied, Start;
    if code == [] {
      assert Start().positions[v] == 0 by { NothingSeen(v); }
    } else {
      var n := |code| - 2;
      var front := code[..n];
      assert code == front + [code[n], code[n + 1]];
      RunPair(front, code[n], code[n + 1], Start());
      assert n == 2 * (n / 2);
      if 2 * i != n {
        assert code[2 * (n / 2)] != v;
        PositionsAre(front, v, i);
        assert 0 <= i ==> front[..2 * i] == code[..2 * i];
      }
    }
  }

  lemma NothingSeen(v: byte)
    ensures Start().positions[v] == 0
  {
  }

  // ----- The code of some data

  /** How far the bytes at pos repeat those at back, up to a limit. */
  function RunLen(data: seq<byte>, pos: nat, back: nat, limit: nat): (n: nat)
    requires back < pos
    ensures n <= limit && (pos <= |data| ==> pos + n <= |data|)
    decreases limit
  {
    if limit > 0 && pos < |data| && data[pos] == data[back] then 1 + RunLen(data, pos + 1, back + 1, limit - 1) else 0
  }

  lemma {:induction false} RunRepeats(data: seq<byte>, pos: nat, back: nat, limit: nat)
    requires back < pos <= |data|
    ensures var n := RunLen(data, pos, back, limit); data[pos..pos + n] == data[back..back + n]
    decreases limit
  {
    if limit > 0 && pos < |data| && data[pos] == data[back] {
      RunRepeats(data, pos + 1, back + 1, limit - 1);
      var n := RunLen(data, pos, back, limit);
      assert data[pos..pos + n] == [data[pos]] + data[pos + 1..pos + n];
      assert data[back..back + n] == [data[back]] + data[back + 1..back + n];
    }
  }

  /** And no further: it stops at the limit, at the end of the data, or at a byte that differs. */
  lemma {:induction false} RunIsLongest(data: seq<byte>, pos: nat, back: nat, limit: nat)
    requires back < pos <= |data|
    ensures
      var n := RunLen(data, pos, back, limit);
      n == limit || pos + n == |data| || data[pos + n] != data[back + n]
    decreases limit
  {
    if limit > 0 && pos < |data| && data[pos] == data[back] { RunIsLongest(data, pos + 1, back + 1, limit - 1); }
  }

  /** The compressor on its way: how far it is in the data, its table of positions, and the code so far. */
  datatype Coder = Coder(pos: nat, positions: seq<int>, code: seq<byte>)

  predicate CoderOk(c: Coder, data: seq<byte>) {
    c.pos <= |data| && |c.positions| == 256 && forall v :: 0 <= v < 256 ==> 0 <= c.positions[v] <= c.pos
  }

  /** One more pair: a literal byte and the run after it. */
  function CodePair(data: seq<byte>, c: Coder): (d: Coder)
    requires CoderOk(c, data) && c.pos < |data|
    ensures CoderOk(d, data) && d.pos > c.pos && |d.code| == |c.code| + 2
  {
    var value := data[c.pos];
    var n: byte := RunLen(data, c.pos + 1, c.positions[value], 255);
    Coder(c.pos + 1 + n, c.positions[value := c.pos + 1], c.code + [value, n])
  }

  /** There is room for a pair, in the unsigned arithmetic of the source: less than two bytes of room are no limit. */
  predicate MorePairs(room: nat, outpos: nat) {
    room < 2 || outpos <= room - 2
  }

  function Code(data: seq<byte>, room: nat, c: Coder): (d: Coder)
    requires CoderOk(c, data)
    ensures CoderOk(d, data)
    decreases |data| - c.pos
  {
    if c.pos < |data| && MorePairs(room, |c.code|) then Code(data, room, CodePair(data, c)) else c
  }

  function FirstCoder(): (c: Coder)
    ensures c.pos == 0 && c.code == [] && c.positions == Start().positions && forall data :: CoderOk(c, data)
  {
    Coder(0, Start().positions, [])
  }

  /** The code of as much of the data as there is room for. */
  function Coded(data: seq<byte>, room: nat): (c: Coder)
    ensures CoderOk(c, data)
  {
    Code(data, room, FirstCoder())
  }

  /** The code so far decodes to the bytes so far, with the same table of positions. */
  ghost predicate InStep(code: seq<byte>, data: seq<byte>, positions: seq<int>) {
    |code| % 2 == 0 && Run(code, Start()) == State(data, positions)
  }

  lemma PairRestores(data: seq<byte>, code: seq<byte>, s: State, value: byte, runlen: byte, from: nat, pos: nat)
    requires Ok(s) && pos < |data| && s.out == data[..pos] && InStep(code, s.out, s.positions)
    requires value == data[pos] && from == s.positions[value] && pos + 1 + runlen <= |data|
    requires data[pos + 1..pos + 1 + runlen] == data[from..from + runlen]
    ensures InStep(code + [value, runlen], data[..pos + 1 + runlen], s.positions[value := pos + 1])
  {
    hide Run, Copied, Start;
    RunPair(code, value, runlen, Start());
    assert data[..pos] + [value] == data[..pos + 1];
    CopyRestores(data, pos + 1, from, runlen);
  }

  lemma CodePairInStep(data: seq<byte>, c: Coder)
    requires CoderOk(c, data) && c.pos < |data| && InStep(c.code, data[..c.pos], c.positions)
    ensures var d := CodePair(data, c); InStep(d.code, data[..d.pos], d.positions)
  {
    hide InStep, RunLen;
    var value := data[c.pos];
    var from, s := c.positions[value], State(data[..c.pos], c.positions);
    RunRepeats(data, c.pos + 1, from, 255);
    PairRestores(data, c.code, s, value, RunLen(data, c.pos + 1, from, 255), from, c.pos);
  }

  /** Pair j of the code stands for as many bytes as it can: its run ends because a count has no more than eight bits,
      because the data end, or because the next byte is not the one that would be copied. */
  ghost predicate Longest(code: seq<byte>, j: nat, data: seq<byte>)
    requires 2 * j + 2 <= |code|
  {
    var s := Run(code[..2 * j], Start());
    var next, from := |s.out| + 1 + code[2 * j + 1], s.positions[code[2 * j]] + code[2 * j + 1];
    next <= |data| && (code[2 * j + 1] == 255 || next == |data| || data[next] != data[from])
  }

  ghost predicate AllLongest(code: seq<byte>, data: seq<byte>) {
    forall j: nat :: 2 * j + 2 <= |code| ==> Longest(code, j, data)
  }

  lemma CodePairLongest(data: seq<byte>, c: Coder)
    requires CoderOk(c, data) && c.pos < |data| && InStep(c.code, data[..c.pos], c.positions)
    requires AllLongest(c.code, data)
    ensures AllLongest(CodePair(data, c).code, data)
  {
    hide Run, Start, RunLen;
    var d := CodePair(data, c).code;
    forall j: nat | 2 * j + 2 <= |d|
      ensures Longest(d, j, data)
    {
      if 2 * j + 2 <= |c.code| {
        assert Longest(c.code, j, data) && d[..2 * j] == c.code[..2 * j];
      } else {
        assert d[..2 * j] == c.code;
        RunIsLongest(data, c.pos + 1, c.positions[data[c.pos]], 255);
      }
    }
  }

  /** The code keeps to the room, stops early only for lack of it, and decodes to what it stands for. */
  lemma {:induction false} CodeRight(data: seq<byte>, room: nat, c: Coder)
    requires CoderOk(c, data) && InStep(c.code, data[..c.pos], c.positions) && (room >= 2 ==> |c.code| <= room)
    requires AllLongest(c.code, data)
    ensures
      var d := Code(data, room, c);
      && InStep(d.code, data[..d.pos], d.positions) && (room >= 2 ==> |d.code| <= room)
      && (d.pos < |data| ==> room >= 2 && |d.code| > room - 2) && AllLongest(d.code, data)
    decreases |data| - c.pos
  {
    hide InStep, CoderOk, AllLongest;
    if c.pos < |data| && MorePairs(room, |c.code|) {
      CodePairInStep(data, c);
      CodePairLongest(data, c);
      CodeRight(data, room, CodePair(data, c));
    }
  }

  lemma CodedRight(data: seq<byte>, room: nat)
    ensures
      var c := Coded(data, room);
      && |c.code| % 2 == 0 && Run(c.code, Start()).out == data[..c.pos] && (room >= 2 ==> |c.code| <= room)
      && (c.pos < |data| ==> room >= 2 && |c.code| > room - 2) && AllLongest(c.code, data)
  {
    assert InStep([], data[..0], Start().positions);
    CodeRight(data, room, FirstCoder());
  }

  // ----- jffs2_rtime_compress

  method RunLength(data: array<byte>, pos0: nat, backpos0: nat, sourcelen: nat) returns (pos: nat, runlen: byte)
    requires backpos0 < pos0 <= sourcelen <= data.Length
    ensures runlen == RunLen(data[..sourcelen], pos0, backpos0, 255) && pos == pos0 + runlen
  {
    hide RunLen;
    ghost var s := data[..sourcelen];
    var backpos := backpos0;
    pos, runlen := pos0, 0;
    while backpos < pos && pos < sourcelen
      invariant pos == pos0 + runlen <= sourcelen && backpos == backpos0 + runlen
      invariant RunLen(s, pos0, backpos0, 255) == runlen + RunLen(s, pos, backpos, 255 - runlen)
      decreases sourcelen - pos
    {
      RunLenIs(s, pos, backpos, 255 - runlen);
      assert s[pos] == data[pos] && s[backpos] == data[backpos];
      backpos := backpos + 1;
      if !(data[pos] == data[backpos - 1] && runlen < 255) {
        return;
      }
      pos, runlen := pos + 1, runlen + 1;
    }
    RunLenIs(s, pos, backpos, 255 - runlen);
  }

  lemma RunLenIs(data: seq<byte>, pos: nat, back: nat, limit: nat)
    requires back < pos
    ensures RunLen(data, pos, back, limit) ==
      if limit > 0 && pos < |data| && data[pos] == data[back] then 1 + RunLen(data, pos + 1, back + 1, limit - 1) else 0
  {
  }

  /** One round of the loop: a literal byte and the run after it. */
  method CompressPair(data: array<byte>, out: array<byte>, positions: array<int>, pos0: nat, outpos: nat,
                      sourcelen: nat)
    returns (pos: nat)
    requires pos0 < sourcelen <= data.Length && outpos + 2 <= out.Length && data != out && positions.Length == 256
    requires CoderOk(Coder(pos0, positions[..], out[..outpos]), data[..sourcelen])
    modifies out, positions
    ensures Coder(pos, positions[..], out[..outpos + 2]) ==
      CodePair(data[..sourcelen], Coder(pos0, old(positions[..]), old(out[..outpos])))
  {
    ghost var code, table := out[..outpos], positions[..];
    var value := data[pos0];
    out[outpos] := data[pos0];
    pos := pos0 + 1;
    var backpos := positions[value];
    positions[value] := pos;
    var runlen;
    pos, runlen := RunLength(data, pos, backpos, sourcelen);
    out[outpos + 1] := runlen;
    assert out[..outpos + 2] == code + [value, runlen];
    assert positions[..] == table[value := pos0 + 1];
  }

  lemma CodeNext(data: seq<byte>, room: nat, c: Coder)
    requires CoderOk(c, data) && c.pos < |data| && MorePairs(room, |c.code|)
    ensures Code(data, room, c) == Code(data, room, CodePair(data, c))
  {
    hide CodePair;
  }

  lemma CodeEnds(data: seq<byte>, room: nat, c: Coder)
    requires CoderOk(c, data) && (c.pos < |data| ==> !MorePairs(room, |c.code|))
    ensures Code(data, room, c) == c
  {
  }

  /** Compress a prefix of data into out; -1 unless the result is shorter than that prefix. */
  method Compress(data: array<byte>, out: array<byte>, sourcelen: nat, dstlen: nat)
    returns (r: int, newSource: nat, newDst: nat)
    requires sourcelen <= data.Length && sourcelen <= 32767 && dstlen <= out.Length && data != out
    requires dstlen < 2 ==> 2 * sourcelen <= out.Length
    modifies out
    ensures r == 0 || r == -1
    ensures newSource <= sourcelen && newDst <= out.Length && newDst % 2 == 0 && (dstlen >= 2 ==> newDst <= dstlen)
    ensures r == 0 <==> newDst < newSource
    ensures Run(out[..newDst], Start()).out == data[..newSource]
    ensures newSource < sourcelen ==> dstlen >= 2 && newDst > dstlen - 2
    ensures AllLongest(out[..newDst], data[..sourcelen])
    ensures var c := Coded(data[..sourcelen], dstlen); newSource == c.pos && out[..newDst] == c.code
  {
    hide CodePair, Code, Run, AllLongest;
    var positions := new int[256](i => 0);
    var outpos, pos := 0, 0;
    assert positions[..] == Start().positions;
    ghost var s := data[..sourcelen];
    while pos < sourcelen && MorePairs(dstlen, outpos)
      invariant 0 <= pos <= sourcelen && 0 <= outpos <= out.Length && outpos <= 2 * pos
      invariant (dstlen >= 2 ==> outpos <= dstlen)
      invariant CoderOk(Coder(pos, positions[..], out[..outpos]), s) && data[..sourcelen] == s
      invariant Code(s, dstlen, Coder(pos, positions[..], out[..outpos])) == Coded(s, dstlen)
      decreases sourcelen - pos
    {
      CodeNext(s, dstlen, Coder(pos, positions[..], out[..outpos]));
      pos := CompressPair(data, out, positions, pos, outpos, sourcelen);
      outpos := outpos + 2;
    }
    CodeEnds(s, dstlen, Coder(pos, positions[..], out[..outpos]));
    CodedRight(s, dstlen);
    assert s[..pos] == data[..pos];
    newSource, newDst := pos, outpos;
    r := if outpos >= pos then -1 else 0;
  }

  // ----- jffs2_rtime_decompress

  /** A copy from bytes that are all there already is a block copy. */
  lemma {:induction false} CopiedBlock(out: seq<byte>, from: nat, n: nat)
    requires from < |out| && from + n <= |out|
    ensures Copied(out, from, n) == out + out[from..from + n]
    decreases n
  {
    if n > 0 {
      var next := out + [out[from]];
      CopiedBlock(next, from + 1, n - 1);
      assert next[from + 1..from + n] == out[from + 1..from + n];
      assert out + out[from..from + n] == next + out[from + 1..from + n];
    }
  }

  lemma {:induction false} CopiedLast(out: seq<byte>, from: nat, n: nat)
    requires from < |out|
    ensures from + n < |Copied(out, from, n)|
    ensures Copied(out, from, n + 1) == Copied(out, from, n) + [Copied(out, from, n)[from + n]]
    decreases n
  {
    if n > 0 { CopiedLast(out + [out[from]], from + 1, n - 1); }
  }

  /** The copy that may overlap: byte by byte. */
  method CopyBytewise(out: array<byte>, outpos0: nat, backoffs0: nat, repeat0: nat)
    requires backoffs0 < outpos0 && outpos0 + repeat0 <= out.Length
    modifies out
    ensures out[..outpos0 + repeat0] == Copied(old(out[..outpos0]), backoffs0, repeat0)
  {
    ghost var s := out[..outpos0];
    var outpos, backoffs, repeat := outpos0, backoffs0, repeat0;
    while repeat != 0
      invariant 0 <= repeat <= repeat0
      invariant outpos == outpos0 + repeat0 - repeat && backoffs == backoffs0 + repeat0 - repeat
      invariant out[..outpos] == Copied(s, backoffs0, repeat0 - repeat)
    {
      CopiedLast(s, backoffs0, repeat0 - repeat);
      ghost var before := out[..outpos];
      out[outpos] := out[backoffs];
      assert out[..outpos + 1] == before + [before[backoffs]];
      outpos, backoffs, repeat := outpos + 1, backoffs + 1, repeat - 1;
    }
  }

  /** The copy that does not overlap: memcpy. */
  method CopyBlock(out: array<byte>, outpos: nat, backoffs: nat, repeat: nat)
    requires backoffs + repeat < outpos && outpos + repeat <= out.Length
    modifies out
    ensures out[..outpos + repeat] == Copied(old(out[..outpos]), backoffs, repeat)
  {
    ghost var s := out[..outpos];
    for i := 0 to repeat
      invariant out[..outpos + i] == s + s[backoffs..backoffs + i]
    {
      assert s[backoffs..backoffs + i + 1] == s[backoffs..backoffs + i] + [s[backoffs + i]];
      assert out[backoffs + i] == out[..outpos + i][backoffs + i] == s[backoffs + i];
      ghost var before := out[..outpos + i];
      out[outpos + i] := out[backoffs + i];
      assert out[..outpos + i + 1] == before + [s[backoffs + i]];
    }
    CopiedBlock(s, backoffs, repeat);
  }

  /** What one more pair of the code stands for. */
  lemma NextPair(code: seq<byte>, pos: nat, out: seq<byte>, positions: seq<int>)
    requires pos + 2 <= |code| && |positions| == 256 && InStep(code[..pos], out, positions)
    ensures
      var value := code[pos];
      && 0 <= positions[value] <= |out|
      && InStep(code[..pos + 2], Copied(out + [value], positions[value], code[pos + 1]),
                positions[value := |out| + 1])
  {
    hide Copied, Start, Run;
    RunPair(code[..pos], code[pos], code[pos + 1], Start());
    assert code[..pos + 2] == code[..pos] + [code[pos], code[pos + 1]];
  }

  /** One round: the literal byte and the run. */
  method DecompressPair(code: array<byte>, out: array<byte>, positions: array<int>, pos: nat, outpos0: nat)
    returns (outpos: nat)
    requires code != out && pos + 2 <= code.Length && positions.Length == 256
    requires outpos0 + 1 + code[pos + 1] <= out.Length
    requires InStep(code[..pos], out[..outpos0], positions[..])
    modifies out, positions
    ensures outpos == outpos0 + 1 + code[pos + 1]
    ensures InStep(code[..pos + 2], out[..outpos], positions[..])
  {
    hide Copied, InStep;
    ghost var before, table := out[..outpos0], positions[..];
    var value, repeat := code[pos], code[pos + 1];
    NextPair(code[..], pos, before, table);
    out[outpos0] := value;
    outpos := outpos0 + 1;
    var backoffs := positions[value];
    positions[value] := outpos;
    assert out[..outpos] == before + [value] && positions[..] == table[value := outpos];
    if repeat != 0 {
      if backoffs + repeat >= outpos {
        CopyBytewise(out, outpos, backoffs, repeat);
      } else {
        CopyBlock(out, outpos, backoffs, repeat);
      }
      outpos := outpos + repeat;
    } else {
      CopiedNothing(before + [value], backoffs);
    }
  }

  lemma CopiedNothing(out: seq<byte>, from: nat)
    requires from < |out|
    ensures Copied(out, from, 0) == out
  {
  }

  /** Decompress a whole stream of pairs into the destlen bytes that it stands for. */
  method Decompress(code: array<byte>, out: array<byte>, destlen: nat)
    requires code != out && destlen <= out.Length && code.Length % 2 == 0
    requires |Run(code[..], Start()).out| == destlen
    modifies out
    ensures out[..destlen] == Run(code[..], Start()).out
  {
    var positions := new int[256](i => 0);
    var outpos, pos := 0, 0;
    assert positions[..] == Start().positions;
    while outpos < destlen
      invariant 0 <= pos <= code.Length && pos % 2 == 0 && 0 <= outpos <= destlen
      invariant InStep(code[..pos], out[..outpos], positions[..])
      decreases code.Length - pos
    {
      MoreToCome(code[..], pos, destlen);
      hide InStep, Run;
      outpos := DecompressPair(code, out, positions, pos, outpos);
      pos := pos + 2;
    }
    AllDecoded(code[..], pos, destlen);
  }

  lemma MoreToCome(code: seq<byte>, pos: nat, destlen: nat)
    requires |code| % 2 == 0 && pos <= |code| && pos % 2 == 0 && |Run(code, Start()).out| == destlen
    requires |Run(code[..pos], Start()).out| < destlen
    ensures pos + 2 <= |code|
    ensures |Run(code[..pos], Start()).out| + 1 + code[pos + 1] <= destlen
  {
    hide Run, Start, Expanded;
    assert code[..|code|] == code;
    RunPair(code[..pos], code[pos], code[pos + 1], Start());
    assert code[..pos + 2] == code[..pos] + [code[pos], code[pos + 1]];
    assert code == code[..pos + 2] + code[pos + 2..];
    RunAppend(code[..pos + 2], code[pos + 2..], Start());
  }

  lemma AllDecoded(code: seq<byte>, pos: nat, destlen: nat)
    requires |code| % 2 == 0 && pos <= |code| && pos % 2 == 0 && |Run(code, Start()).out| == destlen
    requires |Run(code[..pos], Start()).out| == destlen
    ensures Run(code[..pos], Start()).out == Run(code, Start()).out
  {
    hide Start, Expanded;
    assert code == code[..pos] + code[pos..];
    RunAppend(code[..pos], code[pos..], Start());
  }

  /** What was compressed is restored, up to the length that the compressor reports: it stops early only when there
      is no room for another pair, and it succeeds if and only if it made the data smaller. */
  method RoundTrip(data: array<byte>, dstlen: nat) returns (r: int, n: nat, m: nat, out: array<byte>)
    requires data.Length <= 32767
    ensures r == 0 || r == -1
    ensures (dstlen >= 2 ==> m <= dstlen) && (r == 0 <==> m < n) && (n < data.Length ==> dstlen >= 2 && m > dstlen - 2)
    ensures n <= data.Length && out.Length == n && out[..] == data[..n]
    ensures fresh(out)
  {
    var page := new byte[if dstlen < 2 then 2 * data.Length + 2 else dstlen];
    r, n, m := Compress(data, page, data.Length, dstlen);
    var code := new byte[m](i requires 0 <= i < m reads page => page[i]);
    assert code[..] == page[..m];
    out := new byte[n];
    Decompress(code, out, n);
    assert out[..n] == out[..];
  }
}
