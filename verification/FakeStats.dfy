/** What the fakeroot daemon knows: a map from files to the status it pretends they have,
    and what each request does to it. */
module FakeStats {

  datatype FakeStat = FakeStat(uid: nat, gid: nat, ino: nat, dev: nat, rdev: nat, mode: nat, nlink: nat)

  /** A file, as far as the daemon can tell files apart. */
  datatype Key = Key(dev: nat, ino: nat, remote: nat)

  type Db = map<Key, FakeStat>

  function KeyOf(st: FakeStat, remote: nat): Key {
    Key(st.dev, st.ino, remote)
  }

  datatype Request = Chown | Chmod | Mknod | Stat | Unlink

  datatype Msg = Msg(id: Request, pid: nat, serial: nat, st: FakeStat, remote: nat)

  /** The id that means "leave unchanged": all ones in 32 bits. */
  predicate KeepId(id: nat) {
    id % 0x1_0000_0000 == 0xffff_ffff
  }

  /** The file type bits of a mode, S_IFMT. */
  function TypeBits(mode: nat): nat {
    mode / 0x1000 % 16 * 0x1000
  }

  predicate IsDirectory(mode: nat) {
    TypeBits(mode) == 0x4000
  }

  function AsRoot(st: FakeStat): FakeStat {
    st.(uid := 0, gid := 0)
  }

  lemma TypeBitsBelow(mode: nat)
    ensures TypeBits(mode) <= mode
  {
  }

  /** The permission bits of one mode with the type bits of another. */
  function WithType(permissions: nat, kind: nat): nat {
    TypeBitsBelow(permissions);
    permissions - TypeBits(permissions) + TypeBits(kind)
  }

  function AfterChown(db: Db, st: FakeStat, remote: nat): Db {
    var k := KeyOf(st, remote);
    if k in db then
      db[k := db[k].(uid := if KeepId(st.uid) then db[k].uid else st.uid,
                     gid := if KeepId(st.gid) then db[k].gid else st.gid)]
    else
      db[k := st.(uid := if KeepId(st.uid) then 0 else st.uid, gid := if KeepId(st.gid) then 0 else st.gid)]
  }

  function AfterChmod(db: Db, st: FakeStat, remote: nat): Db {
    var k := KeyOf(st, remote);
    if k in db then db[k := db[k].(mode := WithType(st.mode, db[k].mode))] else db[k := AsRoot(st)]
  }

  function AfterMknod(db: Db, st: FakeStat, remote: nat): Db {
    var k := KeyOf(st, remote);
    if k in db then db[k := db[k].(mode := st.mode, rdev := st.rdev)] else db[k := AsRoot(st)]
  }

  /** A file is forgotten with its last link. */
  predicate LastLink(st: FakeStat) {
    st.nlink == 1 || (IsDirectory(st.mode) && st.nlink == 2)
  }

  function AfterUnlink(db: Db, st: FakeStat, remote: nat): Db {
    if LastLink(st) then db - {KeyOf(st, remote)} else db
  }

  function After(db: Db, m: Msg): Db {
    match m.id
    case Chown => AfterChown(db, m.st, m.remote)
    case Chmod => AfterChmod(db, m.st, m.remote)
    case Mknod => AfterMknod(db, m.st, m.remote)
    case Stat => db
    case Unlink => AfterUnlink(db, m.st, m.remote)
  }

  /** The answer to a stat request: what is known, but for the link count, which the system knows better. */
  function Answer(db: Db, st: FakeStat, remote: nat, unknownIsReal: bool): FakeStat {
    var k := KeyOf(st, remote);
    if k in db then db[k].(nlink := st.nlink) else if unknownIsReal then st else AsRoot(st)
  }

  /** What is known after these requests, from nothing. */
  function AfterAll(ms: seq<Msg>): Db {
    if ms == [] then map[] else After(AfterAll(ms[..|ms| - 1]), ms[|ms| - 1])
  }

  lemma TypeBitsOfSum(a: nat, t: nat)
    requires TypeBits(a) == 0 && t < 16
    ensures TypeBits(a + t * 0x1000) == t * 0x1000
  {
    var q := a / 0x1000;
    assert a == q * 0x1000 + a % 0x1000;
    assert (a + t * 0x1000) / 0x1000 == q + t;
    assert q % 16 == 0;
  }

  lemma PermissionsHaveNoType(a: nat)
    ensures TypeBits(a) <= a && TypeBits(a - TypeBits(a)) == 0
  {
    var q, t := a / 0x1000, a / 0x1000 % 16;
    assert a - t * 0x1000 == (q - t) * 0x1000 + a % 0x1000;
    assert (a - t * 0x1000) / 0x1000 == q - t;
    assert (q - t) % 16 == 0;
  }

  /** Two requests are about the same file exactly if device, inode number and remote name agree. */
  lemma SameFile(a: FakeStat, b: FakeStat, remote: nat, remote': nat)
    ensures KeyOf(a, remote) == KeyOf(b, remote') <==> a.dev == b.dev && a.ino == b.ino && remote == remote'
  {
  }

  lemma KeepIdIff(id: nat)
    ensures KeepId(id) <==> (id + 1) % 0x1_0000_0000 == 0
  {
    var q, r := id / 0x1_0000_0000, id % 0x1_0000_0000;
    assert id + 1 == q * 0x1_0000_0000 + (r + 1);
  }

  lemma ModeParts(mode: nat)
    ensures mode == mode / 0x10000 * 0x10000 + TypeBits(mode) + mode % 0x1000
    ensures TypeBits(mode) % 0x1000 == 0 && TypeBits(mode) < 0x10000
    ensures mode % 0x10000 == TypeBits(mode) + mode % 0x1000
  {
    var q := mode / 0x1000;
    assert q == q / 16 * 16 + q % 16;
    assert mode == q * 0x1000 + mode % 0x1000;
    assert q / 16 == mode / 0x10000;
  }

  lemma DirectoryIff(mode: nat)
    ensures IsDirectory(mode) <==> 0x4000 <= mode % 0x10000 < 0x5000
  {
    hide TypeBits;
    ModeParts(mode);
  }

  lemma LastLinkIff(st: FakeStat)
    ensures LastLink(st) <==> st.nlink == 1 || (st.nlink == 2 && 0x4000 <= st.mode % 0x10000 < 0x5000)
  {
    hide IsDirectory;
    DirectoryIff(st.mode);
  }

  /** The bits the daemon looks at: the type is the fourth group of four from the right, a directory has a 4 there, and
      the id that changes nothing is the one whose successor is zero in 32 bits. */
  lemma BitsLookedAt(st: FakeStat, id: nat)
    ensures st.mode == st.mode / 0x10000 * 0x10000 + TypeBits(st.mode) + st.mode % 0x1000
    ensures TypeBits(st.mode) % 0x1000 == 0 && TypeBits(st.mode) < 0x10000
    ensures IsDirectory(st.mode) <==> 0x4000 <= st.mode % 0x10000 < 0x5000
    ensures LastLink(st) <==> st.nlink == 1 || (st.nlink == 2 && 0x4000 <= st.mode % 0x10000 < 0x5000)
    ensures KeepId(id) <==> (id + 1) % 0x1_0000_0000 == 0
  {
    hide IsDirectory, LastLink, KeepId;
    ModeParts(st.mode);
    DirectoryIff(st.mode);
    LastLinkIff(st);
    assert KeepId(id) <==> (id + 1) % 0x1_0000_0000 == 0 by { KeepIdIff(id); }
  }

  /** What a file counts as before a request about it: what is known, or a file of root that is as the request says. */
  ghost predicate IsBefore(before: FakeStat, db: Db, m: Msg) {
    var k := KeyOf(m.st, m.remote);
    && (k in db ==> before == db[k].(nlink := m.st.nlink))
    && (k !in db ==>
          && before.uid == 0 && before.gid == 0 && before.mode == m.st.mode && before.rdev == m.st.rdev
          && before.ino == m.st.ino && before.dev == m.st.dev && before.nlink == m.st.nlink)
  }

  /** A status asked for after a request shows what was asked for, and is otherwise as it was before, whatever was known
      before. */
  lemma StatShowsChange(db: Db, m: Msg, st: FakeStat, u: bool)
    requires KeyOf(st, m.remote) == KeyOf(m.st, m.remote)
    ensures
      var a, before := Answer(After(db, m), st, m.remote, u), Answer(db, m.st, m.remote, false);
      && IsBefore(before, db, m)
      && (m.id.Chown? && !KeepId(m.st.uid) ==> a.uid == m.st.uid)
      && (m.id.Chown? && KeepId(m.st.uid) ==> a.uid == before.uid)
      && (m.id.Chown? && !KeepId(m.st.gid) ==> a.gid == m.st.gid)
      && (m.id.Chown? && KeepId(m.st.gid) ==> a.gid == before.gid)
      && (m.id.Chown? ==> a.mode == before.mode && a.rdev == before.rdev)
      && (m.id.Chmod? ==>
            TypeBits(a.mode) == TypeBits(before.mode) && a.mode - TypeBits(a.mode) == m.st.mode - TypeBits(m.st.mode))
      && (m.id.Chmod? ==> a.uid == before.uid && a.gid == before.gid && a.rdev == before.rdev)
      && (m.id.Mknod? ==> a.mode == m.st.mode && a.rdev == m.st.rdev && a.uid == before.uid && a.gid == before.gid)
      && (m.id.Unlink? && LastLink(m.st) ==> a == if u then st else st.(uid := 0, gid := 0))
      && ((m.id.Unlink? && !LastLink(m.st)) || m.id.Stat? ==> After(db, m) == db)
      && (m.id.Chown? || m.id.Chmod? || m.id.Mknod? ==> a.ino == before.ino && a.dev == before.dev)
      && a.nlink == st.nlink
  {
    if m.id.Chmod? {
      var p, k := m.st.mode, Answer(db, m.st, m.remote, false).mode;
      PermissionsHaveNoType(p);
      TypeBitsOfSum(p - TypeBits(p), k / 0x1000 % 16);
    }
  }

  /** A status asked for of a file nothing is known about is the system's, with root as its owner unless the daemon was
      told to leave such files alone; of any other it is what is known, and the link count is always the system's. */
  lemma AnswerIs(db: Db, st: FakeStat, remote: nat, u: bool)
    ensures
      var k, a := KeyOf(st, remote), Answer(db, st, remote, u);
      && (k in db ==>
            && a.uid == db[k].uid && a.gid == db[k].gid && a.mode == db[k].mode && a.rdev == db[k].rdev
            && a.ino == db[k].ino && a.dev == db[k].dev)
      && (k !in db ==> a.mode == st.mode && a.rdev == st.rdev && a.ino == st.ino && a.dev == st.dev)
      && (k !in db && u ==> a.uid == st.uid && a.gid == st.gid)
      && (k !in db && !u ==> a.uid == 0 && a.gid == 0)
      && a.nlink == st.nlink
  {
  }

  /** A request about one file changes nothing about any other. */
  lemma OthersUntouched(db: Db, m: Msg, k: Key)
    requires k != KeyOf(m.st, m.remote)
    ensures (k in After(db, m) <==> k in db) && (k in db ==> After(db, m)[k] == db[k])
  {
  }

  // ----- A message handled again

  /** The message buffer after the message was handled: an answer is written over the question, and a file not known
      before is made root's. */
  function LeftIn(db: Db, m: Msg, unknownIsReal: bool): Msg {
    match m.id
    case Stat => m.(st := Answer(db, m.st, m.remote, unknownIsReal))
    case Chown => m
    case Unlink => m
    case _ => if KeyOf(m.st, m.remote) in db then m else m.(st := AsRoot(m.st))
  }

  /** Every status is filed under its own key. */
  ghost predicate Keyed(db: Db) {
    forall k :: k in db ==> KeyOf(db[k], k.remote) == k
  }

  lemma KeyedAfter(db: Db, m: Msg)
    requires Keyed(db)
    ensures Keyed(After(db, m))
  {
    hide KeepId, WithType, LastLink;
  }

  lemma {:induction false} KeyedAfterAll(ms: seq<Msg>)
    ensures Keyed(AfterAll(ms))
  {
    hide Keyed, After;
    if ms == [] {
      assert Keyed(map[]) by { KeyedNothing(); }
    } else {
      KeyedAfterAll(ms[..|ms| - 1]);
      KeyedAfter(AfterAll(ms[..|ms| - 1]), ms[|ms| - 1]);
    }
  }

  lemma KeyedNothing()
    ensures Keyed(map[])
  {
  }

  lemma ModeAgain(p: nat, kind: nat)
    ensures WithType(p, WithType(p, kind)) == WithType(p, kind)
  {
    PermissionsHaveNoType(p);
    TypeBitsOfSum(p - TypeBits(p), kind / 0x1000 % 16);
  }

  /** Handling what is left in the buffer changes nothing, neither what is known nor the buffer: a question is answered
      as it was the first time. */
  lemma HandledAgain(db: Db, m: Msg, u: bool)
    requires Keyed(db)
    ensures After(After(db, m), LeftIn(db, m, u)) == After(db, m)
    ensures LeftIn(After(db, m), LeftIn(db, m, u), u) == LeftIn(db, m, u)
  {
    hide KeepId, LastLink, WithType;
    if m.id.Chmod? {
      var k := KeyOf(m.st, m.remote);
      ModeAgain(m.st.mode, if k in db then db[k].mode else m.st.mode);
      assert k !in db ==> WithType(m.st.mode, m.st.mode) == m.st.mode by { SameMode(m.st.mode); }
    }
  }

  lemma SameMode(mode: nat)
    ensures WithType(mode, mode) == mode
  {
  }
}
