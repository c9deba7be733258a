/** The space allocator of mksquashfs: the main thread and any number of fragment deflators
    take room for file blocks and fragments from one offset, `bytes`.

    Deflators change it under fragment_mutex and only when fragments are not locked. The main
    thread, while it writes a file, changes it without the mutex, in separate reads and writes.
    A state is the shared variables and the place each thread is at; a step is one access or one
    critical section. */
module FragmentAllocator {

  datatype Owner = Fragment(id: nat) | FileBlock(file: nat)

  datatype Extent = Extent(owner: Owner, start: nat, size: nat)

  /** A compressed fragment that waits for the main thread to place it. */
  datatype Pending = Pending(id: nat, size: nat)

  /** A file that was kept, with the numbers of its extents, from first up to last. */
  datatype File = File(number: nat, start: nat, first: nat, last: nat)

  datatype Holder = Nobody | Main | Deflator(d: nat)

  /** Where the main thread is. */
  datatype MainPc =
    | Outside
    | Locking
    | Locked
    | Writing(start: nat, first: nat)
    | Placing(start: nat, first: nat, at: nat, size: nat)
    | Growing(start: nat, first: nat, at: nat, size: nat, seen: nat)
    | Unlocking
    | Draining
    | LastUnlocking
    | LastDraining
    | Ending
    | Finished

  /** Where a deflator is. */
  datatype DeflatorPc =
    | Waiting
    | Compressing(id: nat)
    | Ready(id: nat, size: nat)
    | Testing(id: nat, size: nat)
    | Committing(id: nat, size: nat, at: nat)
    | Deferring(id: nat, size: nat)

  /** Where a fragment is. */
  datatype Where = InQueue | At(d: nat) | InPending | Placed(slot: nat)

  /** `extents` and `where` only record what happened: no step reads them. */
  datatype State = State(
    base: nat, bytes: nat, locked: bool, holder: Holder,
    fragments: nat, outstanding: int, queue: seq<nat>, pending: seq<Pending>, table: map<nat, nat>,
    files: seq<File>, attempts: nat, main: MainPc, deflators: seq<DeflatorPc>,
    extents: seq<Extent>, where: map<nat, Where>)

  datatype Step =
    | Lock | SetLocked | ReadStart | TakePlace(size: nat) | ReadBytes | WriteBytes | Keep | Rollback
    | UnlockAcquire | DrainOne | UnlockDone | WriteFragment | LastUnlock | Finish
    | Take(d: nat) | Compress(d: nat, size: nat) | Acquire(d: nat) | Test(d: nat) | Commit(d: nat) | AddPending(d: nat)

  function Initial(base: nat, deflators: nat): State {
    State(base, base, false, Nobody, 0, 0, [], [], map[], [], 0, Outside, seq(deflators, _ => Waiting), [], map[])
  }

  function UpTo(extents: seq<Extent>, n: nat): seq<Extent> {
    if n <= |extents| then extents[..n] else extents
  }

  /** With the mutex, at the list of pending fragments. */
  predicate IsDraining(m: MainPc) {
    m.Draining? || m.LastDraining?
  }

  predicate Enabled(s: State, step: Step) {
    match step
    case Lock => s.main.Outside? && s.holder.Nobody?
    case SetLocked => s.main.Locking?
    case ReadStart => s.main.Locked?
    case TakePlace(_) => s.main.Writing?
    case ReadBytes => s.main.Placing?
    case WriteBytes => s.main.Growing?
    case Keep => s.main.Writing?
    case Rollback => s.main.Writing?
    case UnlockAcquire => (s.main.Unlocking? || s.main.LastUnlocking?) && s.holder.Nobody?
    case DrainOne => IsDraining(s.main) && s.pending != []
    case UnlockDone => IsDraining(s.main) && s.pending == []
    case LastUnlock => s.main.Outside?
    case Finish => s.main.Ending? && s.holder.Nobody? && s.outstanding == 0
    case WriteFragment => (s.main.Outside? || s.main.Writing?) && s.holder.Nobody?
    case Take(d) => d < |s.deflators| && s.deflators[d].Waiting? && s.queue != []
    case Compress(d, _) => d < |s.deflators| && s.deflators[d].Compressing?
    case Acquire(d) => d < |s.deflators| && s.deflators[d].Ready? && s.holder.Nobody?
    case Test(d) => d < |s.deflators| && s.deflators[d].Testing?
    case Commit(d) => d < |s.deflators| && s.deflators[d].Committing?
    case AddPending(d) => d < |s.deflators| && s.deflators[d].Deferring? && s.holder.Nobody?
  }

  function Apply(s: State, step: Step): State
    requires Enabled(s, step)
  {
    match step
    case Lock => s.(holder := Main, main := Locking)
    case SetLocked => s.(locked := true, holder := Nobody, main := Locked)
    case ReadStart => s.(main := Writing(s.bytes, |s.extents|))
    case TakePlace(size) => s.(main := Placing(s.main.start, s.main.first, s.bytes, size))
    case ReadBytes => s.(main := Growing(s.main.start, s.main.first, s.main.at, s.main.size, s.bytes))
    case WriteBytes =>
      var m := s.main;
      s.(bytes := m.seen + m.size, extents := s.extents + [Extent(FileBlock(s.attempts), m.at, m.size)],
         main := Writing(m.start, m.first))
    case Keep =>
      s.(files := s.files + [File(s.attempts, s.main.start, s.main.first, |s.extents|)],
         attempts := s.attempts + 1, main := Unlocking)
    case Rollback =>
      s.(bytes := s.main.start, extents := UpTo(s.extents, s.main.first), attempts := s.attempts + 1, main := Unlocking)
    case UnlockAcquire => s.(holder := Main, main := if s.main.Unlocking? then Draining else LastDraining)
    case DrainOne =>
      var p := s.pending[0];
      s.(pending := s.pending[1..], table := s.table[p.id := s.bytes], bytes := s.bytes + p.size,
         outstanding := s.outstanding - 1, holder := Nobody,
         main := if s.main.Draining? then Unlocking else LastUnlocking,
         extents := s.extents + [Extent(Fragment(p.id), s.bytes, p.size)],
         where := s.where[p.id := Placed(|s.extents|)])
    case UnlockDone => s.(locked := false, holder := Nobody, main := if s.main.Draining? then Outside else Ending)
    case LastUnlock => s.(main := LastUnlocking)
    case Finish => s.(holder := Main, main := Finished)
    case WriteFragment =>
      s.(fragments := s.fragments + 1, outstanding := s.outstanding + 1, queue := s.queue + [s.fragments],
         where := s.where[s.fragments := InQueue])
    case Take(d) =>
      s.(queue := s.queue[1..], deflators := s.deflators[d := Compressing(s.queue[0])],
         where := s.where[s.queue[0] := At(d)])
    case Compress(d, size) => s.(deflators := s.deflators[d := Ready(s.deflators[d].id, size)])
    case Acquire(d) =>
      var f := s.deflators[d];
      s.(holder := Deflator(d), deflators := s.deflators[d := Testing(f.id, f.size)])
    case Test(d) =>
      var f := s.deflators[d];
      if s.locked then s.(holder := Nobody, deflators := s.deflators[d := Deferring(f.id, f.size)])
      else s.(deflators := s.deflators[d := Committing(f.id, f.size, s.bytes)])
    case Commit(d) =>
      var f := s.deflators[d];
      s.(table := s.table[f.id := f.at], bytes := s.bytes + f.size, outstanding := s.outstanding - 1, holder := Nobody,
         deflators := s.deflators[d := Waiting], extents := s.extents + [Extent(Fragment(f.id), f.at, f.size)],
         where := s.where[f.id := Placed(|s.extents|)])
    case AddPending(d) =>
      var f := s.deflators[d];
      s.(pending := s.pending + [Pending(f.id, f.size)], deflators := s.deflators[d := Waiting],
         where := s.where[f.id := InPending])
  }

  // ----- Who holds the mutex

  /** Between lock_fragments and the end of the unlock_fragments after it. The last unlock_fragments comes without a
      lock. */
  predicate MainHasLocked(m: MainPc) {
    m.Locked? || InFile(m) || m.Unlocking? || m.Draining?
  }

  predicate Inside(p: DeflatorPc) {
    p.Testing? || p.Committing?
  }

  ghost predicate MutexOk(s: State) {
    && (s.locked <==> MainHasLocked(s.main))
    && (s.holder == Main <==> s.main.Locking? || IsDraining(s.main) || s.main.Finished?)
    && (s.holder.Deflator? ==> s.holder.d < |s.deflators|)
    && (forall d :: 0 <= d < |s.deflators| ==> (s.holder == Deflator(d) <==> Inside(s.deflators[d])))
    && (forall d :: 0 <= d < |s.deflators| && s.deflators[d].Committing? ==> !s.locked)
  }

  predicate ByDeflator(step: Step) {
    step.Take? || step.Compress? || step.Acquire? || step.Test? || step.Commit? || step.AddPending?
  }

  lemma MainKeepsMutex(s: State, step: Step)
    requires Enabled(s, step) && MutexOk(s) && !ByDeflator(step)
    ensures MutexOk(Apply(s, step))
  {
  }

  lemma DeflatorKeepsMutex(s: State, step: Step)
    requires Enabled(s, step) && MutexOk(s) && ByDeflator(step)
    ensures MutexOk(Apply(s, step))
  {
  }

  lemma MutexKept(s: State, step: Step)
    requires Enabled(s, step) && MutexOk(s)
    ensures MutexOk(Apply(s, step))
  {
    hide Apply, Enabled, MutexOk;
    if ByDeflator(step) { DeflatorKeepsMutex(s, step); } else { MainKeepsMutex(s, step); }
  }

  // ----- Where the extents are

  /** The end of extents laid end to end from base. */
  function End(extents: seq<Extent>, base: nat): nat {
    if extents == [] then base else End(extents[..|extents| - 1], base) + extents[|extents| - 1].size
  }

  ghost predicate Tiled(extents: seq<Extent>, base: nat) {
    forall i :: 0 <= i < |extents| ==> extents[i].start == End(extents[..i], base)
  }

  lemma TiledSnoc(extents: seq<Extent>, base: nat, e: Extent)
    requires Tiled(extents, base) && e.start == End(extents, base)
    ensures Tiled(extents + [e], base) && End(extents + [e], base) == End(extents, base) + e.size
  {
    hide End;
    var more := extents + [e];
    assert more[..|extents|] == extents;
    forall i | 0 <= i < |more| ensures more[i].start == End(more[..i], base) {
      assert more[..i] == extents[..i];
      if i == |extents| { assert extents[..i] == extents; }
    }
    EndSnoc(extents, base, e);
  }

  lemma EndSnoc(extents: seq<Extent>, base: nat, e: Extent)
    ensures End(extents + [e], base) == End(extents, base) + e.size
  {
    assert (extents + [e])[..|extents|] == extents;
  }

  lemma TiledPrefix(extents: seq<Extent>, base: nat, n: nat)
    requires Tiled(extents, base) && n <= |extents|
    ensures Tiled(extents[..n], base)
  {
    hide End;
    forall i | 0 <= i < n ensures extents[..n][i].start == End(extents[..n][..i], base) {
      assert extents[..n][..i] == extents[..i];
    }
  }

  predicate InFile(m: MainPc) {
    m.Writing? || m.Placing? || m.Growing?
  }

  /** The number of extents that are settled: all but those of the file being written. */
  function Settled(s: State): nat {
    if InFile(s.main) then s.main.first else |s.extents|
  }

  ghost predicate OwnedBy(extents: seq<Extent>, first: nat, last: nat, file: nat) {
    first <= last <= |extents| && forall i :: first <= i < last ==> extents[i].owner == FileBlock(file)
  }

  ghost predicate FileOk(s: State, f: File) {
    && f.last <= Settled(s) && f.number < s.attempts && OwnedBy(s.extents, f.first, f.last, f.number)
    && f.start == End(s.extents[..f.first], s.base)
  }

  ghost predicate SpaceOk(s: State) {
    && Tiled(s.extents, s.base) && s.bytes == End(s.extents, s.base)
    && (InFile(s.main) ==>
          && OwnedBy(s.extents, s.main.first, |s.extents|, s.attempts)
          && s.main.start == End(s.extents[..s.main.first], s.base))
    && (s.main.Placing? || s.main.Growing? ==> s.main.at == s.bytes)
    && (s.main.Growing? ==> s.main.seen == s.bytes)
    && (forall d :: 0 <= d < |s.deflators| && s.deflators[d].Committing? ==> s.deflators[d].at == s.bytes)
    && (forall k :: 0 <= k < |s.files| ==> FileOk(s, s.files[k]))
  }

  /** A kept file is untouched by whatever leaves the settled extents alone. */
  lemma FilesKept(s: State, t: State)
    requires s.files == t.files && s.base == t.base && s.attempts <= t.attempts
    requires Settled(s) <= Settled(t) && Settled(s) <= |s.extents| && Settled(s) <= |t.extents|
    requires t.extents[..Settled(s)] == s.extents[..Settled(s)]
    requires forall k :: 0 <= k < |s.files| ==> FileOk(s, s.files[k])
    ensures forall k :: 0 <= k < |t.files| ==> FileOk(t, t.files[k])
  {
    hide End;
    var n := Settled(s);
    forall k | 0 <= k < |t.files| ensures FileOk(t, t.files[k]) {
      var f := t.files[k];
      assert FileOk(s, f);
      assert s.extents[..f.first] == s.extents[..n][..f.first] == t.extents[..f.first];
      forall i | f.first <= i < f.last ensures t.extents[i].owner == FileBlock(f.number) {
        assert t.extents[i] == t.extents[..n][i] == s.extents[..n][i] == s.extents[i];
      }
    }
  }

  lemma WriteBytesKeepsSpace(s: State)
    requires Enabled(s, WriteBytes) && MutexOk(s) && SpaceOk(s)
    ensures SpaceOk(Apply(s, WriteBytes))
  {
    hide End, FileOk, Tiled;
    var t := Apply(s, WriteBytes);
    TiledSnoc(s.extents, s.base, t.extents[|s.extents|]);
    assert t.extents[..s.main.first] == s.extents[..s.main.first];
    FilesKept(s, t);
  }

  lemma DrainOneKeepsSpace(s: State)
    requires Enabled(s, DrainOne) && MutexOk(s) && SpaceOk(s)
    ensures SpaceOk(Apply(s, DrainOne))
  {
    hide End, FileOk, Tiled;
    var t := Apply(s, DrainOne);
    TiledSnoc(s.extents, s.base, t.extents[|s.extents|]);
    assert t.extents[..|s.extents|] == s.extents[..|s.extents|];
    FilesKept(s, t);
  }

  lemma CommitKeepsSpace(s: State, d: nat)
    requires Enabled(s, Commit(d)) && MutexOk(s) && SpaceOk(s)
    ensures SpaceOk(Apply(s, Commit(d)))
  {
    hide End, FileOk, Tiled;
    var t := Apply(s, Commit(d));
    assert s.holder == Deflator(d);
    TiledSnoc(s.extents, s.base, t.extents[|s.extents|]);
    assert t.extents[..|s.extents|] == s.extents[..|s.extents|];
    FilesKept(s, t);
  }

  lemma RollbackKeepsSpace(s: State)
    requires Enabled(s, Rollback) && MutexOk(s) && SpaceOk(s)
    ensures SpaceOk(Apply(s, Rollback))
  {
    hide End, FileOk, Tiled;
    var t := Apply(s, Rollback);
    TiledPrefix(s.extents, s.base, s.main.first);
    assert t.extents[..s.main.first] == s.extents[..s.main.first];
    FilesKept(s, t);
  }

  lemma KeepKeepsSpace(s: State)
    requires Enabled(s, Keep) && MutexOk(s) && SpaceOk(s)
    ensures SpaceOk(Apply(s, Keep))
  {
    hide End, Tiled;
    var t := Apply(s, Keep);
    var f := File(s.attempts, s.main.start, s.main.first, |s.extents|);
    assert FileOk(t, f);
    forall k | 0 <= k < |t.files| ensures FileOk(t, t.files[k]) {
      if k < |s.files| { assert FileOk(s, s.files[k]); }
    }
  }

  lemma ReadStartKeepsSpace(s: State)
    requires Enabled(s, ReadStart) && MutexOk(s) && SpaceOk(s)
    ensures SpaceOk(Apply(s, ReadStart))
  {
    hide End, FileOk, Tiled;
    var t := Apply(s, ReadStart);
    assert s.extents[..|s.extents|] == s.extents;
    FilesKept(s, t);
  }

  /** The steps that neither place nor free anything. */
  lemma OtherKeepsSpace(s: State, step: Step)
    requires Enabled(s, step) && MutexOk(s) && SpaceOk(s)
    requires !step.ReadStart? && !step.WriteBytes? && !step.Keep? && !step.Rollback? && !step.DrainOne? && !step.Commit?
    ensures SpaceOk(Apply(s, step))
  {
    hide End, FileOk, Tiled;
    FilesKept(s, Apply(s, step));
  }

  lemma SpaceKept(s: State, step: Step)
    requires Enabled(s, step) && MutexOk(s) && SpaceOk(s)
    ensures SpaceOk(Apply(s, step))
  {
    hide Apply, SpaceOk, MutexOk;
    match step
    case ReadStart => ReadStartKeepsSpace(s);
    case WriteBytes => WriteBytesKeepsSpace(s);
    case Keep => KeepKeepsSpace(s);
    case Rollback => RollbackKeepsSpace(s);
    case DrainOne => DrainOneKeepsSpace(s);
    case Commit(d) => CommitKeepsSpace(s, d);
    case _ => OtherKeepsSpace(s, step);
  }

  // ----- Where the fragments are

  type Places = map<nat, Where>

  ghost predicate QueueOk(queue: seq<nat>, w: Places) {
    && (forall i :: 0 <= i < |queue| ==> queue[i] in w && w[queue[i]] == InQueue)
    && (forall i, j :: 0 <= i < j < |queue| ==> queue[i] != queue[j])
    && (forall f :: f in w && w[f] == InQueue ==> f in queue)
  }

  predicate Carries(p: DeflatorPc, f: nat) {
    !p.Waiting? && p.id == f
  }

  ghost predicate DeflatorsOk(ds: seq<DeflatorPc>, w: Places) {
    && (forall d :: 0 <= d < |ds| && !ds[d].Waiting? ==> ds[d].id in w && w[ds[d].id] == At(d))
    && (forall f :: f in w && w[f].At? ==> w[f].d < |ds| && Carries(ds[w[f].d], f))
  }

  ghost predicate IsPending(pending: seq<Pending>, f: nat) {
    exists i :: 0 <= i < |pending| && pending[i].id == f
  }

  ghost predicate PendingOk(pending: seq<Pending>, w: Places) {
    && (forall i :: 0 <= i < |pending| ==> pending[i].id in w && w[pending[i].id] == InPending)
    && (forall i, j :: 0 <= i < j < |pending| ==> pending[i].id != pending[j].id)
    && (forall f :: f in w && w[f] == InPending ==> IsPending(pending, f))
  }

  ghost predicate SlotOk(extents: seq<Extent>, settled: nat, start: nat, f: nat, i: nat) {
    i < |extents| && i < settled && extents[i].owner == Fragment(f) && extents[i].start == start
  }

  ghost predicate TableOk(table: map<nat, nat>, extents: seq<Extent>, settled: nat, w: Places) {
    && (forall f :: f in table <==> f in w && w[f].Placed?)
    && (forall f :: f in table && f in w && w[f].Placed? ==> SlotOk(extents, settled, table[f], f, w[f].slot))
    && (forall i :: 0 <= i < |extents| && extents[i].owner.Fragment? ==>
          extents[i].owner.id in w && w[extents[i].owner.id] == Placed(i))
  }

  ghost predicate Known(fragments: nat, w: Places) {
    forall f: nat :: f in w <==> f < fragments
  }

  ghost predicate WhereOk(s: State) {
    && Known(s.fragments, s.where) && s.outstanding == s.fragments - |s.table|
    && QueueOk(s.queue, s.where) && DeflatorsOk(s.deflators, s.where) && PendingOk(s.pending, s.where)
    && TableOk(s.table, s.extents, Settled(s), s.where)
  }

  // What a move of one fragment leaves alone

  lemma QueueAside(queue: seq<nat>, w: Places, f: nat, p: Where)
    requires QueueOk(queue, w) && (f in w ==> w[f] != InQueue) && p != InQueue
    ensures QueueOk(queue, w[f := p])
  {
  }

  lemma DeflatorsAside(ds: seq<DeflatorPc>, w: Places, f: nat, p: Where)
    requires DeflatorsOk(ds, w) && (f in w ==> !w[f].At?) && !p.At?
    ensures DeflatorsOk(ds, w[f := p])
  {
  }

  lemma PendingAside(pending: seq<Pending>, w: Places, f: nat, p: Where)
    requires PendingOk(pending, w) && (f in w ==> w[f] != InPending) && p != InPending
    ensures PendingOk(pending, w[f := p])
  {
  }

  lemma TableAside(table: map<nat, nat>, extents: seq<Extent>, n: nat, w: Places, f: nat, p: Where)
    requires TableOk(table, extents, n, w) && (f in w ==> !w[f].Placed?) && !p.Placed?
    ensures TableOk(table, extents, n, w[f := p])
  {
  }

  // What it does to the place it comes from and the place it goes to

  lemma QueuePut(queue: seq<nat>, w: Places, f: nat)
    requires QueueOk(queue, w) && f !in w
    ensures QueueOk(queue + [f], w[f := InQueue])
  {
  }

  lemma QueueGet(queue: seq<nat>, w: Places, p: Where)
    requires QueueOk(queue, w) && queue != [] && p != InQueue
    ensures QueueOk(queue[1..], w[queue[0] := p])
  {
    assert queue == [queue[0]] + queue[1..];
  }

  lemma DeflatorGets(ds: seq<DeflatorPc>, w: Places, d: nat, pc: DeflatorPc)
    requires DeflatorsOk(ds, w) && d < |ds| && ds[d].Waiting? && !pc.Waiting? && (pc.id in w ==> !w[pc.id].At?)
    ensures DeflatorsOk(ds[d := pc], w[pc.id := At(d)])
  {
  }

  lemma DeflatorLoses(ds: seq<DeflatorPc>, w: Places, d: nat, p: Where)
    requires DeflatorsOk(ds, w) && d < |ds| && !ds[d].Waiting? && !p.At?
    ensures DeflatorsOk(ds[d := Waiting], w[ds[d].id := p])
  {
  }

  lemma DeflatorGoesOn(ds: seq<DeflatorPc>, w: Places, d: nat, pc: DeflatorPc)
    requires DeflatorsOk(ds, w) && d < |ds| && !ds[d].Waiting? && Carries(pc, ds[d].id)
    ensures DeflatorsOk(ds[d := pc], w)
  {
  }

  lemma PendingPut(pending: seq<Pending>, w: Places, e: Pending)
    requires PendingOk(pending, w) && (e.id in w ==> w[e.id] != InPending)
    ensures PendingOk(pending + [e], w[e.id := InPending])
  {
    var more := pending + [e];
    assert more[|pending|].id == e.id;
    forall f | IsPending(pending, f) ensures IsPending(more, f) {
      var i :| 0 <= i < |pending| && pending[i].id == f;
      assert more[i].id == f;
    }
  }

  lemma PendingGet(pending: seq<Pending>, w: Places, p: Where)
    requires PendingOk(pending, w) && pending != [] && p != InPending
    ensures PendingOk(pending[1..], w[pending[0].id := p])
  {
    var less := pending[1..];
    forall f | IsPending(pending, f) && f != pending[0].id ensures IsPending(less, f) {
      var i :| 0 <= i < |pending| && pending[i].id == f;
      assert less[i - 1].id == f;
    }
  }

  lemma OneMore(table: map<nat, nat>, f: nat, start: nat)
    requires f !in table
    ensures |table[f := start]| == |table| + 1
  {
    assert table[f := start].Keys == table.Keys + {f};
  }

  /** A fragment that was in no extent gets the next one. */
  lemma TablePut(table: map<nat, nat>, extents: seq<Extent>, n: nat, w: Places, f: nat, start: nat, size: nat)
    requires TableOk(table, extents, n, w) && (f in w ==> !w[f].Placed?) && n <= |extents|
    ensures TableOk(table[f := start], extents + [Extent(Fragment(f), start, size)], |extents| + 1,
                    w[f := Placed(|extents|)])
  {
    var t, more, v := table[f := start], extents + [Extent(Fragment(f), start, size)], w[f := Placed(|extents|)];
    forall g | g in t && g in v && v[g].Placed? ensures SlotOk(more, |more|, t[g], g, v[g].slot) {
      if g != f { assert SlotOk(extents, n, table[g], g, w[g].slot); }
    }
    forall i | 0 <= i < |more| && more[i].owner.Fragment?
      ensures more[i].owner.id in v && v[more[i].owner.id] == Placed(i)
    {
      if i < |extents| { assert more[i] == extents[i]; }
    }
  }

  /** Extents of files do not matter, beyond the settled ones. */
  lemma TableCut(table: map<nat, nat>, extents: seq<Extent>, n: nat, m: nat, w: Places)
    requires TableOk(table, extents, n, w) && n <= |extents| && n <= m
    ensures TableOk(table, extents, m, w) && TableOk(table, extents[..n], n, w)
  {
  }

  lemma TableFileBlock(table: map<nat, nat>, extents: seq<Extent>, n: nat, w: Places, e: Extent)
    requires TableOk(table, extents, n, w) && e.owner.FileBlock?
    ensures TableOk(table, extents + [e], n, w)
  {
  }

  // ----- The steps

  lemma WriteFragmentKeepsWhere(s: State)
    requires Enabled(s, WriteFragment) && WhereOk(s)
    ensures WhereOk(Apply(s, WriteFragment))
  {
    hide QueueOk, DeflatorsOk, PendingOk, TableOk;
    var f := s.fragments;
    QueuePut(s.queue, s.where, f);
    DeflatorsAside(s.deflators, s.where, f, InQueue);
    PendingAside(s.pending, s.where, f, InQueue);
    TableAside(s.table, s.extents, Settled(s), s.where, f, InQueue);
  }

  lemma TakeKeepsWhere(s: State, d: nat)
    requires Enabled(s, Take(d)) && WhereOk(s)
    ensures WhereOk(Apply(s, Take(d)))
  {
    hide DeflatorsOk, PendingOk, TableOk;
    var f := s.queue[0];
    QueueGet(s.queue, s.where, At(d));
    DeflatorGets(s.deflators, s.where, d, Compressing(f));
    PendingAside(s.pending, s.where, f, At(d));
    TableAside(s.table, s.extents, Settled(s), s.where, f, At(d));
  }

  lemma CarriedIsThere(ds: seq<DeflatorPc>, table: map<nat, nat>, extents: seq<Extent>, n: nat, w: Places, d: nat)
    requires DeflatorsOk(ds, w) && TableOk(table, extents, n, w) && d < |ds| && !ds[d].Waiting?
    ensures ds[d].id in w && w[ds[d].id] == At(d) && ds[d].id !in table
  {
  }

  lemma HeadIsPending(pending: seq<Pending>, table: map<nat, nat>, extents: seq<Extent>, n: nat, w: Places)
    requires PendingOk(pending, w) && TableOk(table, extents, n, w) && pending != []
    ensures pending[0].id in w && w[pending[0].id] == InPending && pending[0].id !in table
  {
  }

  lemma AddPendingKeepsWhere(s: State, d: nat)
    requires Enabled(s, AddPending(d)) && WhereOk(s)
    ensures WhereOk(Apply(s, AddPending(d)))
  {
    hide QueueOk, DeflatorsOk, PendingOk, TableOk;
    var f := s.deflators[d].id;
    CarriedIsThere(s.deflators, s.table, s.extents, Settled(s), s.where, d);
    QueueAside(s.queue, s.where, f, InPending);
    DeflatorLoses(s.deflators, s.where, d, InPending);
    PendingPut(s.pending, s.where, Pending(f, s.deflators[d].size));
    TableAside(s.table, s.extents, Settled(s), s.where, f, InPending);
  }

  lemma DrainOneKeepsWhere(s: State)
    requires Enabled(s, DrainOne) && WhereOk(s)
    ensures WhereOk(Apply(s, DrainOne))
  {
    hide QueueOk, DeflatorsOk, PendingOk, TableOk;
    var e, p := s.pending[0], Placed(|s.extents|);
    HeadIsPending(s.pending, s.table, s.extents, Settled(s), s.where);
    QueueAside(s.queue, s.where, e.id, p);
    DeflatorsAside(s.deflators, s.where, e.id, p);
    PendingGet(s.pending, s.where, p);
    TablePut(s.table, s.extents, Settled(s), s.where, e.id, s.bytes, e.size);
    OneMore(s.table, e.id, s.bytes);
  }

  lemma CommitKeepsWhere(s: State, d: nat)
    requires Enabled(s, Commit(d)) && WhereOk(s) && MutexOk(s)
    ensures WhereOk(Apply(s, Commit(d)))
  {
    hide QueueOk, DeflatorsOk, PendingOk, TableOk;
    var f, p := s.deflators[d], Placed(|s.extents|);
    CarriedIsThere(s.deflators, s.table, s.extents, Settled(s), s.where, d);
    assert !InFile(s.main);
    QueueAside(s.queue, s.where, f.id, p);
    DeflatorLoses(s.deflators, s.where, d, p);
    PendingAside(s.pending, s.where, f.id, p);
    TablePut(s.table, s.extents, Settled(s), s.where, f.id, f.at, f.size);
    OneMore(s.table, f.id, f.at);
  }

  /** The steps of the main thread that move no fragment. */
  lemma MainKeepsWhere(s: State, step: Step)
    requires Enabled(s, step) && WhereOk(s) && SpaceOk(s)
    requires step.Lock? || step.SetLocked? || step.ReadStart? || step.TakePlace? || step.ReadBytes? || step.WriteBytes?
      || step.Keep? || step.Rollback? || step.UnlockAcquire? || step.UnlockDone? || step.LastUnlock? || step.Finish?
    ensures WhereOk(Apply(s, step))
  {
    hide QueueOk, DeflatorsOk, PendingOk, TableOk, Tiled, End, FileOk;
    var t := Apply(s, step);
    TableCut(s.table, s.extents, Settled(s), |s.extents|, s.where);
    if step.WriteBytes? {
      TableFileBlock(s.table, s.extents, Settled(s), s.where, t.extents[|s.extents|]);
    }
  }

  /** The steps of a deflator that move no fragment. */
  lemma DeflatorKeepsWhere(s: State, step: Step)
    requires Enabled(s, step) && WhereOk(s)
    requires step.Compress? || step.Acquire? || step.Test?
    ensures WhereOk(Apply(s, step))
  {
    hide QueueOk, DeflatorsOk, PendingOk, TableOk;
    DeflatorGoesOn(s.deflators, s.where, step.d, Apply(s, step).deflators[step.d]);
  }

  lemma WhereKept(s: State, step: Step)
    requires Enabled(s, step) && WhereOk(s) && MutexOk(s) && SpaceOk(s)
    ensures WhereOk(Apply(s, step))
  {
    hide Apply, WhereOk, MutexOk, SpaceOk;
    match step
    case WriteFragment => WriteFragmentKeepsWhere(s);
    case Take(d) => TakeKeepsWhere(s, d);
    case AddPending(d) => AddPendingKeepsWhere(s, d);
    case DrainOne => DrainOneKeepsWhere(s);
    case Commit(d) => CommitKeepsWhere(s, d);
    case Compress(_, _) => DeflatorKeepsWhere(s, step);
    case Acquire(_) => DeflatorKeepsWhere(s, step);
    case Test(_) => DeflatorKeepsWhere(s, step);
    case _ => MainKeepsWhere(s, step);
  }

  // ----- Runs

  ghost predicate Ok(s: State) {
    MutexOk(s) && SpaceOk(s) && WhereOk(s)
  }

  /** The states of a run: each comes from the one before by the step between them. */
  ghost predicate IsRun(states: seq<State>, steps: seq<Step>, base: nat, deflators: nat) {
    && |states| == |steps| + 1 && states[0] == Initial(base, deflators)
    && forall i :: 0 <= i < |steps| ==> Enabled(states[i], steps[i]) && states[i + 1] == Apply(states[i], steps[i])
  }

  lemma InitialOk(base: nat, deflators: nat)
    ensures Ok(Initial(base, deflators))
  {
  }

  lemma {:induction false} RunOk(states: seq<State>, steps: seq<Step>, base: nat, deflators: nat, k: nat)
    requires IsRun(states, steps, base, deflators) && k < |states|
    ensures Ok(states[k])
  {
    hide Apply, MutexOk, SpaceOk, WhereOk;
    if k == 0 {
      InitialOk(base, deflators);
    } else {
      RunOk(states, steps, base, deflators, k - 1);
      MutexKept(states[k - 1], steps[k - 1]);
      SpaceKept(states[k - 1], steps[k - 1]);
      WhereKept(states[k - 1], steps[k - 1]);
    }
  }

  // ----- What that means

  lemma {:induction false} EndsGrow(extents: seq<Extent>, base: nat, n: nat)
    requires n <= |extents|
    ensures base <= End(extents[..n], base) <= End(extents, base)
  {
    if n == |extents| {
      assert extents[..n] == extents;
      if n > 0 { EndsGrow(extents[..n - 1], base, 0); }
    } else {
      EndsGrow(extents[..|extents| - 1], base, n);
      assert extents[..|extents| - 1][..n] == extents[..n];
    }
  }

  /** In every reachable state all extents are disjoint, in order, and below bytes. */
  lemma ExtentsDisjoint(s: State, i: nat, j: nat)
    requires Ok(s) && i < j <= |s.extents|
    ensures s.base <= s.extents[i].start && s.extents[i].start + s.extents[i].size <= s.bytes
    ensures j < |s.extents| ==> s.extents[i].start + s.extents[i].size <= s.extents[j].start
  {
    hide MutexOk, WhereOk, FileOk, End;
    EndsGrow(s.extents, s.base, i);
    EndsGrow(s.extents, s.base, i + 1);
    EndsGrow(s.extents[..j], s.base, i + 1);
    assert s.extents[..j][..i + 1] == s.extents[..i + 1] == s.extents[..i] + [s.extents[i]];
    EndSnoc(s.extents[..i], s.base, s.extents[i]);
  }

  /** A kept file's blocks lie one after the other from its start. */
  lemma FileContiguous(s: State, k: nat, i: nat)
    requires Ok(s) && k < |s.files| && s.files[k].first <= i < s.files[k].last
    ensures i < |s.extents| && s.extents[i].owner == FileBlock(s.files[k].number)
    ensures i == s.files[k].first ==> s.extents[i].start == s.files[k].start
    ensures i > s.files[k].first ==> s.extents[i].start == s.extents[i - 1].start + s.extents[i - 1].size
  {
    hide MutexOk, WhereOk, End;
    assert FileOk(s, s.files[k]);
    if i > 0 {
      assert s.extents[..i] == s.extents[..i - 1] + [s.extents[i - 1]];
      EndSnoc(s.extents[..i - 1], s.base, s.extents[i - 1]);
    }
  }

  /** A placed fragment has one extent, where its table entry says, and keeps it in every later step. */
  lemma PlacedOnce(s: State, step: Step, f: nat)
    requires Ok(s) && Enabled(s, step) && f in s.table
    ensures f in Apply(s, step).table && Apply(s, step).table[f] == s.table[f]
    ensures exists i :: 0 <= i < |s.extents| && s.extents[i].owner == Fragment(f) && s.extents[i].start == s.table[f]
    ensures forall i, j :: 0 <= i < j < |s.extents| && s.extents[i].owner == Fragment(f) ==>
      s.extents[j].owner != Fragment(f)
  {
    hide MutexOk, SpaceOk;
    assert f in s.where && SlotOk(s.extents, Settled(s), s.table[f], f, s.where[f].slot);
  }

  /** Over a whole run: once placed, a fragment is never placed again or moved. */
  lemma {:induction false} PlacedForGood(states: seq<State>, steps: seq<Step>, base: nat, deflators: nat, j: nat,
                                         k: nat, f: nat)
    requires IsRun(states, steps, base, deflators) && j <= k < |states| && f in states[j].table
    ensures f in states[k].table && states[k].table[f] == states[j].table[f]
  {
    hide Apply, Ok;
    if j < k {
      PlacedForGood(states, steps, base, deflators, j, k - 1, f);
      RunOk(states, steps, base, deflators, k - 1);
      PlacedOnce(states[k - 1], steps[k - 1], f);
    }
  }

  /** Rolling back gives up the file's own extents and nothing else: the rest stays, up to bytes. */
  lemma RollbackFreesOnlyOwn(s: State)
    requires Ok(s) && Enabled(s, Rollback)
    ensures
      var t := Apply(s, Rollback);
      && t.extents <= s.extents && t.bytes == End(t.extents, t.base) && t.table == s.table && t.files == s.files
      && (forall i :: |t.extents| <= i < |s.extents| ==> s.extents[i].owner == FileBlock(s.attempts))
      && (forall i :: 0 <= i < |t.extents| ==> t.extents[i] == s.extents[i])
  {
    hide MutexOk, WhereOk, FileOk, End;
  }

  /** No fragment is lost: what is outstanding is queued, being compressed or pending, and nowhere else. */
  lemma OutstandingIsSomewhere(s: State, f: nat)
    requires Ok(s) && f < s.fragments && f !in s.table
    ensures f in s.queue || IsPending(s.pending, f) || exists d :: 0 <= d < |s.deflators| && Carries(s.deflators[d], f)
    ensures s.outstanding == s.fragments - |s.table|
  {
    hide MutexOk, SpaceOk, IsPending;
    assert f in s.where;
    if s.where[f].At? { assert Carries(s.deflators[s.where[f].d], f); }
  }

  // ----- What is not promised

  datatype Run = Run(states: seq<State>, steps: seq<Step>)

  /** A run with one deflator that ends in this state. */
  ghost predicate EndsIn(r: Run, base: nat, s: State) {
    IsRun(r.states, r.steps, base, 1) && r.states[|r.steps|] == s
  }

  lemma OneStep(r: Run, base: nat, s: State, step: Step, u: State) returns (q: Run)
    requires EndsIn(r, base, s) && Enabled(s, step) && u == Apply(s, step)
    ensures EndsIn(q, base, u)
  {
    hide Apply, Enabled;
    q := Run(r.states + [u], r.steps + [step]);
  }

  lemma OneDeflator(base: nat)
    ensures Initial(base, 1) == State(base, base, false, Nobody, 0, 0, [], [], map[], [], 0, Outside, [Waiting], [],
                                      map[])
  {
    assert seq(1, _ => Waiting) == [Waiting];
  }

  /** One fragment is queued. */
  lemma FragmentQueued(base: nat) returns (r: Run)
    ensures EndsIn(r, base, State(base, base, false, Nobody, 1, 1, [0], [], map[], [], 0, Outside, [Waiting], [],
                                  map[0 := InQueue]))
  {
    var s := State(base, base, false, Nobody, 0, 0, [], [], map[], [], 0, Outside, [Waiting], [], map[]);
    r := Run([s], []);
    assert EndsIn(r, base, s) by { OneDeflator(base); }
    hide EndsIn;
    r := OneStep(r, base, s, WriteFragment, s.(fragments := 1, outstanding := 1, queue := [0],
                                               where := map[0 := InQueue]));
  }

  /** It is with the deflator, compressed. */
  lemma DeflatorReady(base: nat, n: nat) returns (r: Run)
    ensures EndsIn(r, base, State(base, base, false, Nobody, 1, 1, [], [], map[], [], 0, Outside, [Ready(0, n)], [],
                                  map[0 := At(0)]))
  {
    hide EndsIn;
    r := FragmentQueued(base);
    var s := State(base, base, false, Nobody, 1, 1, [0], [], map[], [], 0, Outside, [Waiting], [], map[0 := InQueue]);
    var s1 := s.(queue := [], deflators := [Compressing(0)], where := map[0 := At(0)]);
    r := OneStep(r, base, s, Take(0), s1);
    r := OneStep(r, base, s1, Compress(0, n), s1.(deflators := [Ready(0, n)]));
  }

  /** A deflator that finds fragments locked gives the mutex back before it takes it again to add its fragment. */
  lemma DeflatorDefers(base: nat, n: nat) returns (r: Run)
    ensures EndsIn(r, base, Deferred(base, n))
  {
    hide EndsIn;
    r := DeflatorReady(base, n);
    var s := Deferred(base, n).(locked := false, main := Outside, deflators := [Ready(0, n)]);
    var s1 := s.(holder := Main, main := Locking);
    r := OneStep(r, base, s, Lock, s1);
    var s2 := s.(locked := true, main := Locked);
    r := OneStep(r, base, s1, SetLocked, s2);
    var s3 := s2.(holder := Deflator(0), deflators := [Testing(0, n)]);
    r := OneStep(r, base, s2, Acquire(0), s3);
    r := OneStep(r, base, s3, Test(0), Deferred(base, n));
  }

  function Deferred(base: nat, n: nat): State {
    State(base, base, true, Nobody, 1, 1, [], [], map[], [], 0, Locked, [Deferring(0, n)], [], map[0 := At(0)])
  }

  /** The file is given up, and fragments are unlocked. */
  lemma StillDeferring(base: nat, n: nat) returns (r: Run, s: State)
    ensures s == Deferred(base, n).(attempts := 1, locked := false, main := Outside) && EndsIn(r, base, s)
  {
    hide EndsIn;
    r := DeflatorDefers(base, n);
    var s0 := Deferred(base, n);
    var s1 := s0.(main := Writing(base, 0));
    r := OneStep(r, base, s0, ReadStart, s1);
    var s2 := s1.(attempts := 1, main := Unlocking);
    r := OneStep(r, base, s1, Rollback, s2);
    var s3 := s2.(holder := Main, main := Draining);
    r := OneStep(r, base, s2, UnlockAcquire, s3);
    s := s3.(locked := false, holder := Nobody, main := Outside);
    r := OneStep(r, base, s3, UnlockDone, s);
  }

  /** So it may come too late: fragments are unlocked, and one is still pending until they are unlocked again. */
  lemma LeftPending(base: nat, n: nat) returns (r: Run, s: State)
    ensures EndsIn(r, base, s) && !s.locked && s.main.Outside? && s.pending == [Pending(0, n)] && 0 !in s.table
  {
    hide EndsIn;
    r, s := StillDeferring(base, n);
    var s1 := s.(pending := [Pending(0, n)], deflators := [Waiting], where := map[0 := InPending]);
    r := OneStep(r, base, s, AddPending(0), s1);
    s := s1;
  }
}
