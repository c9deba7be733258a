/** The request handlers of the fakeroot daemon, on its hash table. */
module FakedRequests {
  import opened FakeStats
  import opened FakedTable
  import opened HashBuckets

  datatype Reply = NoReply | Reply(st: FakeStat)

  /** insert_or_overwrite. */
  method InsertOrOverwrite(t: DataTable, st: FakeStat, remote: nat)
    requires t.Valid()
    modifies t, t.heads, t.repr
    ensures t.Valid() && t.db == old(t.db)[KeyOf(st, remote) := st] && fresh(t.repr - old(t.repr))
    ensures t.heads == old(t.heads)
  {
    hide Chained, Refines, Bucket;
    var n, j := t.DataFind(st, remote);
    if n == null {
      t.DataInsert(st, remote);
    } else {
      t.Overwrite(n, st, j);
    }
  }

  method ProcessChown(t: DataTable, st: FakeStat, remote: nat)
    requires t.Valid()
    modifies t, t.heads, t.repr
    ensures t.Valid() && t.db == AfterChown(old(t.db), st, remote) && fresh(t.repr - old(t.repr))
    ensures t.heads == old(t.heads)
  {
    hide Chained, Refines, Bucket, KeepId;
    var n, j := t.DataFind(st, remote);
    if n != null {
      var uid := if KeepId(st.uid) then n.buf.uid else st.uid;
      var gid := if KeepId(st.gid) then n.buf.gid else st.gid;
      t.Overwrite(n, n.buf.(uid := uid, gid := gid), j);
    } else {
      var uid := if KeepId(st.uid) then 0 else st.uid;
      var gid := if KeepId(st.gid) then 0 else st.gid;
      InsertOrOverwrite(t, st.(uid := uid, gid := gid), remote);
    }
  }

  /** The status left in the message buffer is returned. */
  method ProcessChmod(t: DataTable, st: FakeStat, remote: nat) returns (left: FakeStat)
    requires t.Valid()
    modifies t, t.heads, t.repr
    ensures t.Valid() && t.db == AfterChmod(old(t.db), st, remote) && fresh(t.repr - old(t.repr))
    ensures t.heads == old(t.heads)
    ensures left == if KeyOf(st, remote) in old(t.db) then st else AsRoot(st)
  {
    hide Chained, Refines, Bucket, WithType;
    var n, j := t.DataFind(st, remote);
    var status := AsRoot(st);
    left := status;
    if n != null {
      left := st;
      status := n.buf.(mode := WithType(st.mode, n.buf.mode));
      t.Overwrite(n, status, j);
    }
    InsertOrOverwrite(t, status, remote);
  }

  /** The status left in the message buffer is returned. */
  method ProcessMknod(t: DataTable, st: FakeStat, remote: nat) returns (left: FakeStat)
    requires t.Valid()
    modifies t, t.heads, t.repr
    ensures t.Valid() && t.db == AfterMknod(old(t.db), st, remote) && fresh(t.repr - old(t.repr))
    ensures t.heads == old(t.heads)
    ensures left == if KeyOf(st, remote) in old(t.db) then st else AsRoot(st)
  {
    hide Chained, Refines, Bucket;
    var n, j := t.DataFind(st, remote);
    var status := AsRoot(st);
    left := status;
    if n != null {
      left := st;
      status := n.buf.(mode := st.mode, rdev := st.rdev);
      t.Overwrite(n, status, j);
    }
    InsertOrOverwrite(t, status, remote);
  }

  method ProcessStat(t: DataTable, st: FakeStat, remote: nat, unknownIsReal: bool) returns (r: FakeStat)
    requires t.Valid()
    ensures r == Answer(t.db, st, remote, unknownIsReal)
  {
    hide Chained, Refines, Bucket;
    var n, _ := t.DataFind(st, remote);
    if n == null {
      r := if unknownIsReal then st else AsRoot(st);
    } else {
      var f := n.buf;
      r := st.(mode := f.mode, ino := f.ino, uid := f.uid, gid := f.gid, dev := f.dev, rdev := f.rdev);
    }
  }

  method ProcessUnlink(t: DataTable, st: FakeStat, remote: nat)
    requires t.Valid()
    modifies t, t.heads, t.repr
    ensures t.Valid() && t.db == AfterUnlink(old(t.db), st, remote) && fresh(t.repr - old(t.repr))
    ensures t.heads == old(t.heads)
  {
    hide Chained, Refines, Bucket, IsDirectory;
    if st.nlink == 1 || (IsDirectory(st.mode) && st.nlink == 2) {
      var n, j := t.DataFind(st, remote);
      if n != null {
        var _ := t.DataErase(n, j);
      }
    }
  }

  /** process_msg: the table afterwards, what is left in the buffer, and the reply of a stat request, which is that. */
  method ProcessMsg(t: DataTable, m: Msg, unknownIsReal: bool) returns (left: Msg, reply: Reply)
    requires t.Valid()
    modifies t, t.heads, t.repr
    ensures t.Valid() && t.db == After(old(t.db), m) && fresh(t.repr - old(t.repr)) && t.heads == old(t.heads)
    ensures left == LeftIn(old(t.db), m, unknownIsReal)
    ensures reply == if m.id.Stat? then Reply(Answer(old(t.db), m.st, m.remote, unknownIsReal)) else NoReply
  {
    hide Chained, Refines, AfterChown, AfterChmod, AfterMknod, AfterUnlink, Answer;
    left, reply := m, NoReply;
    match m.id
    case Chown => ProcessChown(t, m.st, m.remote);
    case Chmod =>
      var b := ProcessChmod(t, m.st, m.remote);
      left := m.(st := b);
    case Mknod =>
      var b := ProcessMknod(t, m.st, m.remote);
      left := m.(st := b);
    case Stat =>
      var r := ProcessStat(t, m.st, m.remote, unknownIsReal);
      left, reply := m.(st := r), Reply(r);
    case Unlink => ProcessUnlink(t, m.st, m.remote);
  }

  /** How one call of msgrcv ends: with a message, or interrupted by a signal whose handler returns. */
  datatype Event = Arrived(m: Msg) | Interrupted

  /** The messages among the events. */
  function Messages(es: seq<Event>): seq<Msg> {
    if es == [] then [] else Messages(es[..|es| - 1]) + if es[|es| - 1].Arrived? then [es[|es| - 1].m] else []
  }

  /** The reply to the last message that arrived. */
  function ReplyTo(ms: seq<Msg>, unknownIsReal: bool): Reply {
    if ms == [] then NoReply else
      var m := ms[|ms| - 1];
      if m.id.Stat? then Reply(Answer(AfterAll(ms[..|ms| - 1]), m.st, m.remote, unknownIsReal)) else NoReply
  }

  /** What is in the buffer after these messages. */
  function LeftAfter(ms: seq<Msg>, unknownIsReal: bool): Msg
    requires ms != []
  {
    LeftIn(AfterAll(ms[..|ms| - 1]), ms[|ms| - 1], unknownIsReal)
  }

  lemma AgainAfter(ms: seq<Msg>, u: bool)
    requires ms != []
    ensures After(AfterAll(ms), LeftAfter(ms, u)) == AfterAll(ms)
    ensures LeftIn(AfterAll(ms), LeftAfter(ms, u), u) == LeftAfter(ms, u)
    ensures
      var b := LeftAfter(ms, u);
      ReplyTo(ms, u) == if b.id.Stat? then Reply(Answer(AfterAll(ms), b.st, b.remote, u)) else NoReply
  {
    hide After, Answer;
    KeyedAfterAll(ms[..|ms| - 1]);
    HandledAgain(AfterAll(ms[..|ms| - 1]), ms[|ms| - 1], u);
  }

  /** The loop of get_msg, which handles the buffer again when msgrcv was interrupted. Every reply is the one a
      plain map would have given to the last message when it arrived, and interruptions change nothing that is
      known. */
  method Serve(t: DataTable, es: seq<Event>, unknownIsReal: bool) returns (replies: seq<Reply>)
    requires t.Valid() && t.db == map[] && (es != [] ==> es[0].Arrived?)
    modifies t, t.heads, t.repr
    ensures t.Valid() && t.db == AfterAll(Messages(es)) && |replies| == |es|
    ensures forall i :: 0 <= i < |es| ==> replies[i] == ReplyTo(Messages(es[..i + 1]), unknownIsReal)
  {
    hide Chained, Refines, After, Answer, ReplyTo, LeftAfter, AfterAll;
    assert AfterAll([]) == map[] by { NothingYet(); }
    replies := [];
    var i := 0;
    var buf := Msg(Stat, 0, 0, FakeStat(0, 0, 0, 0, 0, 0, 0), 0);
    while i < |es|
      invariant 0 <= i <= |es| && |replies| == i
      invariant t.Valid() && t.db == AfterAll(Messages(es[..i])) && fresh(t.repr - old(t.repr))
      invariant t.heads == old(t.heads)
      invariant i > 0 ==> Messages(es[..i]) != [] && buf == LeftAfter(Messages(es[..i]), unknownIsReal)
      invariant forall k :: 0 <= k < i ==> replies[k] == ReplyTo(Messages(es[..k + 1]), unknownIsReal)
    {
      ghost var ms := Messages(es[..i]);
      assert es[..i + 1][..i] == es[..i];
      if es[i].Arrived? {
        buf := es[i].m;
        Extended(ms, buf, unknownIsReal);
        assert Messages(es[..i + 1]) == ms + [buf];
      } else {
        AgainAfter(ms, unknownIsReal);
        assert Messages(es[..i + 1]) == ms + [] == ms;
      }
      var r;
      buf, r := ProcessMsg(t, buf, unknownIsReal);
      assert r == ReplyTo(Messages(es[..i + 1]), unknownIsReal);
      replies := replies + [r];
      i := i + 1;
    }
    assert es[..|es|] == es;
  }

  lemma NothingYet()
    ensures AfterAll([]) == map[]
  {
  }

  lemma Extended(ms: seq<Msg>, m: Msg, u: bool)
    ensures AfterAll(ms + [m]) == After(AfterAll(ms), m) && LeftAfter(ms + [m], u) == LeftIn(AfterAll(ms), m, u)
    ensures ReplyTo(ms + [m], u) == if m.id.Stat? then Reply(Answer(AfterAll(ms), m.st, m.remote, u)) else NoReply
  {
    hide After, Answer, LeftIn;
    assert (ms + [m])[..|ms|] == ms;
  }
}
