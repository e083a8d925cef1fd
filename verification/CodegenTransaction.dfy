/** Publishing several generated files together, with rollback
    (compiler/driver/platform_error_projection_codegen.rs).

    The file system maps names to inodes and inodes to bytes, so that a backup made by a
    hard link keeps the old contents while the target is replaced by a rename. An
    arbitrary schedule decides which operations fail. */
module CodegenTransaction {
  import opened ByteStrings
  import opened Wrappers

  datatype Purpose = Stage | Backup

  datatype Name = Plain(path: string) | Temporary(target: string, purpose: Purpose, sequence: nat)

  datatype Disk = Disk(names: map<Name, nat>, bytes: map<nat, Bytes>)

  ghost predicate WellFormed(d: Disk) {
    forall n :: n in d.names ==> d.names[n] in d.bytes
  }

  function Read(d: Disk, n: Name): Option<Bytes> {
    if n in d.names && d.names[n] in d.bytes then Some(d.bytes[d.names[n]]) else None
  }

  /** A failing write leaves some of its bytes behind; any other failing operation
      leaves nothing. */
  class FileSystem {
    var disk: Disk
    var ticks: nat
    const schedule: nat -> Option<nat>
    ghost var history: seq<Disk>

    constructor (disk: Disk, schedule: nat -> Option<nat>)
      ensures this.disk == disk && this.schedule == schedule && ticks == 0 && history == [disk]
    {
      this.disk := disk;
      this.schedule := schedule;
      this.ticks := 0;
      this.history := [disk];
    }

    /** Draws from the schedule whether the next operation fails. */
    method Tick() returns (failed: Option<nat>)
      modifies this`ticks
      ensures failed == schedule(old(ticks)) && ticks == old(ticks) + 1
    {
      failed := schedule(ticks);
      ticks := ticks + 1;
    }

    method CreateNew(n: Name) returns (ok: bool, inode: nat)
      requires WellFormed(disk)
      modifies this
      ensures ticks == old(ticks) + 1 && history == old(history) + [disk]
      ensures ok <==> schedule(old(ticks)).None? && n !in old(disk).names
      ensures ok ==> inode !in old(disk).bytes && disk == Disk(old(disk).names[n := inode], old(disk).bytes[inode := []])
      ensures !ok ==> disk == old(disk)
    {
      inode := 0;
      var failed := Tick();
      ok := failed.None? && n !in disk.names;
      if ok {
        inode := FreshInode(disk.bytes.Keys);
        disk := Disk(disk.names[n := inode], disk.bytes[inode := []]);
      }
      history := history + [disk];
    }

    method WriteAll(inode: nat, contents: Bytes) returns (ok: bool)
      modifies this
      ensures ticks == old(ticks) + 1 && history == old(history) + [disk]
      ensures ok <==> schedule(old(ticks)).None?
      ensures disk.names == old(disk).names
      ensures exists k: nat :: k <= |contents| && disk.bytes == old(disk).bytes[inode := contents[..k]] && (ok ==> k == |contents|)
    {
      var failed := Tick();
      ok := failed.None?;
      var k := if ok || failed.value > |contents| then |contents| else failed.value;
      disk := Disk(disk.names, disk.bytes[inode := contents[..k]]);
      history := history + [disk];
    }

    method SyncAll() returns (ok: bool)
      modifies this`ticks, this`history
      ensures ticks == old(ticks) + 1 && history == old(history) + [disk]
      ensures ok <==> schedule(old(ticks)).None?
    {
      var failed := Tick();
      ok := failed.None?;
      history := history + [disk];
    }

    method HardLink(from: Name, to: Name) returns (ok: bool)
      modifies this
      ensures ticks == old(ticks) + 1 && history == old(history) + [disk]
      ensures ok <==> schedule(old(ticks)).None? && from in old(disk).names && to !in old(disk).names
      ensures ok ==> disk == old(disk).(names := old(disk).names[to := old(disk).names[from]])
      ensures !ok ==> disk == old(disk)
    {
      var failed := Tick();
      ok := failed.None? && from in disk.names && to !in disk.names;
      if ok {
        disk := disk.(names := disk.names[to := disk.names[from]]);
      }
      history := history + [disk];
    }

    /** Renaming one hard link onto another of the same inode does nothing. */
    method Rename(from: Name, to: Name) returns (ok: bool)
      modifies this
      ensures ticks == old(ticks) + 1 && history == old(history) + [disk]
      ensures ok <==> schedule(old(ticks)).None? && from in old(disk).names
      ensures ok && to in old(disk).names && old(disk).names[to] == old(disk).names[from] ==> disk == old(disk)
      ensures ok && !(to in old(disk).names && old(disk).names[to] == old(disk).names[from]) ==>
                disk == old(disk).(names := old(disk).names[to := old(disk).names[from]] - {from})
      ensures !ok ==> disk == old(disk)
    {
      var failed := Tick();
      ok := failed.None? && from in disk.names;
      if ok && !(to in disk.names && disk.names[to] == disk.names[from]) {
        disk := disk.(names := disk.names[to := disk.names[from]] - {from});
      }
      history := history + [disk];
    }

    method Remove(n: Name) returns (ok: bool)
      modifies this
      ensures ticks == old(ticks) + 1 && history == old(history) + [disk]
      ensures ok <==> schedule(old(ticks)).None? && n in old(disk).names
      ensures ok ==> disk == old(disk).(names := old(disk).names - {n})
      ensures !ok ==> disk == old(disk)
    {
      var failed := Tick();
      ok := failed.None? && n in disk.names;
      if ok {
        disk := disk.(names := disk.names - {n});
      }
      history := history + [disk];
    }
  }

  method FreshInode(used: set<nat>) returns (inode: nat)
    ensures inode !in used
  {
    inode := 0;
    var left := used;
    while left != {}
      invariant forall x :: x in used && x !in left ==> x < inode
      decreases left
    {
      var x :| x in left;
      inode := if x >= inode then x + 1 else inode;
      left := left - {x};
    }
  }

  // ----- The transaction -----

  datatype Prepared = Prepared(
    target: string, bytes: Bytes, staged: Option<Name>, backup: Option<Name>, existed: bool, published: bool)

  datatype Outcome = Ok | IoError | RollbackError

  ghost predicate SameEntry(d0: Disk, d: Disk, n: Name) {
    (n in d.names <==> n in d0.names) && (n in d0.names ==> d.names[n] == d0.names[n])
  }

  /** What holds of one output at every point, relative to the disk at the start. */
  ghost predicate OutputInv(d0: Disk, d: Disk, o: Prepared) {
    var t := Plain(o.target);
    && (o.existed <==> t in d0.names)
    && (!o.published ==> SameEntry(d0, d, t))
    && (o.published ==> t in d.names && d.names[t] !in d0.bytes && Read(d, t) == Some(o.bytes) && o.staged.None?)
    && (o.staged.Some? ==>
          var n := o.staged.value;
          && n.Temporary? && n.target == o.target && n.purpose == Stage
          && n !in d0.names && n in d.names && d.names[n] !in d0.bytes && Read(d, n) == Some(o.bytes))
    && (o.backup.Some? ==>
          var n := o.backup.value;
          && n.Temporary? && n.target == o.target && n.purpose == Backup
          && o.existed && n !in d0.names && n in d.names && d.names[n] == d0.names[t])
  }

  /** The names an output may have changed. */
  ghost predicate Owns(o: Prepared, n: Name) {
    n == Plain(o.target) || o.staged == Some(n) || o.backup == Some(n)
  }

  /** Everything that is not owned by an output is as it was, except temporary files the
      transaction has lost track of. */
  ghost predicate Frame(d0: Disk, d: Disk, outs: seq<Prepared>, orphans: set<Name>) {
    && WellFormed(d)
    && (forall x :: x in d0.bytes ==> x in d.bytes && d.bytes[x] == d0.bytes[x])
    && (forall n :: n !in orphans && (forall i :: 0 <= i < |outs| ==> !Owns(outs[i], n)) ==> SameEntry(d0, d, n))
    && (forall n :: n in orphans ==> OrphanOk(d0, d, n))
    && (forall n, i :: n in orphans && 0 <= i < |outs| ==> !Owns(outs[i], n))
  }

  /** A lost backup still holds the old contents of its target, a lost staged file none of
      the old ones. */
  ghost predicate OrphanOk(d0: Disk, d: Disk, n: Name) {
    && n.Temporary? && n !in d0.names && n in d.names
    && (n.purpose == Stage ==> d.names[n] !in d0.bytes)
    && (n.purpose == Backup ==> Plain(n.target) in d0.names && d.names[n] == d0.names[Plain(n.target)])
  }

  ghost predicate TxInv(d0: Disk, d: Disk, outs: seq<Prepared>, orphans: set<Name>) {
    && WellFormed(d0)
    && Frame(d0, d, outs, orphans)
    && (forall i, j :: 0 <= i < j < |outs| ==> outs[i].target != outs[j].target)
    && (forall i :: 0 <= i < |outs| ==> OutputInv(d0, d, outs[i]))
  }

  /** Each target holds its full old or its full new contents. */
  ghost predicate OldOrNew(d0: Disk, d: Disk, outs: seq<Prepared>) {
    forall i :: 0 <= i < |outs| ==>
      var t := Plain(outs[i].target);
      Read(d, t) == Read(d0, t) || Read(d, t) == Some(outs[i].bytes)
  }

  /** The parts of an output that never change. */
  ghost predicate SamePlan(outs: seq<Prepared>, outs': seq<Prepared>) {
    && |outs| == |outs'|
    && forall i :: 0 <= i < |outs| ==> outs[i].target == outs'[i].target && outs[i].bytes == outs'[i].bytes && outs[i].existed == outs'[i].existed
  }

  lemma TxInvOldOrNew(d0: Disk, d: Disk, outs: seq<Prepared>, orphans: set<Name>)
    requires TxInv(d0, d, outs, orphans)
    ensures OldOrNew(d0, d, outs)
  {
    forall i | 0 <= i < |outs|
      ensures var t := Plain(outs[i].target); Read(d, t) == Read(d0, t) || Read(d, t) == Some(outs[i].bytes)
    {
      assert OutputInv(d0, d, outs[i]);
    }
  }

  // ----- Steps -----

  /** An output whose names and bytes are left alone keeps its invariant. */
  lemma OutputUnaffected(d0: Disk, d: Disk, d': Disk, o: Prepared)
    requires OutputInv(d0, d, o)
    requires forall n :: Owns(o, n) ==> SameEntry(d, d', n)
    requires forall n :: Owns(o, n) && n in d.names && d.names[n] in d.bytes ==>
               d.names[n] in d'.bytes && d'.bytes[d.names[n]] == d.bytes[d.names[n]]
    ensures OutputInv(d0, d', o)
  {
    assert Owns(o, Plain(o.target));
    if o.staged.Some? {
      assert Owns(o, o.staged.value);
    }
    if o.backup.Some? {
      assert Owns(o, o.backup.value);
    }
  }

  /** The names that can belong to the output for a target. */
  predicate NameOf(target: string, n: Name) {
    n == Plain(target) || (n.Temporary? && n.target == target)
  }

  lemma OwnsNameOf(d0: Disk, d: Disk, o: Prepared, n: Name)
    requires OutputInv(d0, d, o) && Owns(o, n)
    ensures NameOf(o.target, n)
  {
  }

  /** One operation on the names of output `i`, which becomes `o`. */
  lemma StepInv(
    d0: Disk, d: Disk, outs: seq<Prepared>, orphans: set<Name>, i: nat, o: Prepared, d': Disk, orphans': set<Name>)
    requires TxInv(d0, d, outs, orphans) && i < |outs|
    requires o.target == outs[i].target && OutputInv(d0, d', o) && WellFormed(d')
    requires forall n :: !NameOf(o.target, n) ==> SameEntry(d, d', n)
    requires forall n :: NameOf(o.target, n) && !Owns(o, n) && n !in orphans' ==> SameEntry(d0, d', n)
    requires forall x :: x in d.bytes ==> x in d'.bytes && d'.bytes[x] == d.bytes[x]
    requires forall n :: n in orphans && !NameOf(o.target, n) ==> n in orphans'
    requires forall n :: n in orphans' && !NameOf(o.target, n) ==> n in orphans
    requires forall n :: n in orphans' && NameOf(o.target, n) ==> OrphanOk(d0, d', n) && !Owns(o, n)
    ensures TxInv(d0, d', outs[i := o], orphans')
  {
    var outs' := outs[i := o];
    forall j | 0 <= j < |outs| && j != i
      ensures OutputInv(d0, d', outs[j])
    {
      forall n | Owns(outs[j], n)
        ensures SameEntry(d, d', n)
      {
        OwnsNameOf(d0, d, outs[j], n);
      }
      OutputUnaffected(d0, d, d', outs[j]);
    }
    forall n | n !in orphans' && forall j :: 0 <= j < |outs'| ==> !Owns(outs'[j], n)
      ensures SameEntry(d0, d', n)
    {
      assert !Owns(outs'[i], n);
      if !NameOf(o.target, n) {
        forall j | 0 <= j < |outs|
          ensures !Owns(outs[j], n)
        {
          if j == i {
            if Owns(outs[i], n) {
              OwnsNameOf(d0, d, outs[i], n);
            }
          } else {
            assert outs'[j] == outs[j];
          }
        }
        assert n !in orphans;
        assert SameEntry(d0, d, n);
      }
    }
    forall n | n in orphans'
      ensures OrphanOk(d0, d', n)
    {
      if !NameOf(o.target, n) {
        assert OrphanOk(d0, d, n) && SameEntry(d, d', n);
      }
    }
    forall n, j | n in orphans' && 0 <= j < |outs'|
      ensures !Owns(outs'[j], n)
    {
      if j == i {
        assert OutputInv(d0, d', o);
        if Owns(o, n) {
          OwnsNameOf(d0, d', o, n);
        }
      } else if NameOf(o.target, n) && Owns(outs[j], n) {
        OwnsNameOf(d0, d, outs[j], n);
      }
    }
    hide OutputInv, Owns, SameEntry, WellFormed, NameOf, OrphanOk;
  }

  /** A new temporary file belongs to no output yet. */
  lemma CreateInv(d0: Disk, d: Disk, outs: seq<Prepared>, orphans: set<Name>, n: Name, inode: nat)
    requires TxInv(d0, d, outs, orphans) && n.Temporary? && n.purpose == Stage && n !in d.names && inode !in d.bytes
    ensures n !in d0.names && inode !in d0.bytes
    ensures forall i :: 0 <= i < |outs| ==> !Owns(outs[i], n)
    ensures TxInv(d0, Disk(d.names[n := inode], d.bytes[inode := []]), outs, orphans + {n})
  {
    var d' := Disk(d.names[n := inode], d.bytes[inode := []]);
    forall i | 0 <= i < |outs|
      ensures !Owns(outs[i], n)
      ensures OutputInv(d0, d', outs[i])
    {
      assert OutputInv(d0, d, outs[i]);
      OutputUnaffected(d0, d, d', outs[i]);
    }
    assert n !in orphans ==> SameEntry(d0, d, n);
    hide OutputInv, Owns;
  }

  lemma WriteInv(d0: Disk, d: Disk, outs: seq<Prepared>, orphans: set<Name>, n: Name, inode: nat, contents: Bytes)
    requires TxInv(d0, d, outs, orphans) && inode in d.bytes && inode !in d0.bytes
    requires forall m :: m in d.names && d.names[m] == inode ==> m == n
    requires forall i :: 0 <= i < |outs| ==> !Owns(outs[i], n)
    ensures TxInv(d0, d.(bytes := d.bytes[inode := contents]), outs, orphans)
  {
    var d' := d.(bytes := d.bytes[inode := contents]);
    forall i | 0 <= i < |outs|
      ensures OutputInv(d0, d', outs[i])
    {
      OutputUnaffected(d0, d, d', outs[i]);
    }
    hide OutputInv, Owns;
  }

  ghost predicate HistoryOk(history: seq<Disk>, past: seq<Disk>, d0: Disk, outs: seq<Prepared>) {
    past <= history && forall k :: |past| <= k < |history| ==> OldOrNew(d0, history[k], outs)
  }

  lemma HistoryGrows(history: seq<Disk>, past: seq<Disk>, d0: Disk, d: Disk, outs: seq<Prepared>, now: seq<Prepared>, orphans: set<Name>)
    requires HistoryOk(history, past, d0, outs) && SamePlan(outs, now) && TxInv(d0, d, now, orphans)
    ensures HistoryOk(history + [d], past, d0, outs)
  {
    TxInvOldOrNew(d0, d, now, orphans);
    hide TxInv;
  }

  /** The transaction's view of the disk. `plan` are the outputs as they started. */
  ghost predicate Tx(fs: FileSystem, past: seq<Disk>, d0: Disk, plan: seq<Prepared>, now: seq<Prepared>, orphans: set<Name>)
    reads fs
  {
    && TxInv(d0, fs.disk, now, orphans)
    && SamePlan(plan, now)
    && HistoryOk(fs.history, past, d0, plan)
  }

  /** No operation fails among the next `count`. */
  ghost predicate Quiet(schedule: nat -> Option<nat>, from: nat, count: nat) {
    forall t :: from <= t < from + count ==> schedule(t).None?
  }

  ghost predicate NeverFails(schedule: nat -> Option<nat>) {
    forall t :: schedule(t).None?
  }

  /** At most one staged file has been lost track of. */
  ghost predicate AtMostOneStaged(orphans: set<Name>) {
    orphans == {} || exists n :: orphans == {n} && n.Temporary? && n.purpose == Stage
  }

  lemma QuietAt(schedule: nat -> Option<nat>, from: nat, count: nat, k: nat)
    requires k < count
    ensures Quiet(schedule, from, count) ==> schedule(from + k).None?
  {
  }

  lemma QuietNone(schedule: nat -> Option<nat>, from: nat)
    ensures Quiet(schedule, from, 0)
  {
  }

  lemma QuietStep(schedule: nat -> Option<nat>, from: nat, k: nat)
    ensures Quiet(schedule, from, k + 1) <==> Quiet(schedule, from, k) && schedule(from + k).None?
  {
  }

  lemma QuietParts(schedule: nat -> Option<nat>, from: nat, first: nat, second: nat)
    ensures Quiet(schedule, from, first + second) <==> Quiet(schedule, from, first) && Quiet(schedule, from + first, second)
    ensures NeverFails(schedule) ==> Quiet(schedule, from, first + second)
  {
  }

  /** No name of a temporary file is taken at the start. */
  ghost predicate NamesFree(d0: Disk) {
    forall n :: n in d0.names ==> n.Plain?
  }

  /** Creates and fills a temporary file; on failure it may stay behind, half written. */
  method WriteNewFile(
    fs: FileSystem, n: Name, contents: Bytes,
    ghost past: seq<Disk>, ghost d0: Disk, ghost plan: seq<Prepared>, ghost now: seq<Prepared>, ghost orphans: set<Name>)
    returns (ok: bool, ghost left: set<Name>)
    requires Tx(fs, past, d0, plan, now, orphans) && n.Temporary? && n.purpose == Stage
    modifies fs
    ensures Tx(fs, past, d0, plan, now, orphans + left)
    ensures left <= {n} && (ok ==> left == {n})
    ensures ok ==> n in fs.disk.names && fs.disk.names[n] !in d0.bytes && Read(fs.disk, n) == Some(contents)
    ensures ok ==> forall i :: 0 <= i < |now| ==> !Owns(now[i], n)
    ensures fs.ticks >= old(fs.ticks) && (ok ==> fs.ticks == old(fs.ticks) + 3)
    ensures ok <==> Quiet(fs.schedule, old(fs.ticks), 3) && n !in old(fs.disk).names
  {
    hide TxInv, SamePlan, HistoryOk, Owns;
    left := {};
    assert orphans + left == orphans;
    var before := fs.disk;
    var inode: nat;
    TxWellFormed(d0, fs.disk, now, orphans);
    ok, inode := fs.CreateNew(n);
    if !ok {
      HistoryGrows(fs.history[..|fs.history| - 1], past, d0, fs.disk, plan, now, orphans);
      return;
    }
    left := {n};
    CreateInv(d0, before, now, orphans, n, inode);
    HistoryGrows(fs.history[..|fs.history| - 1], past, d0, fs.disk, plan, now, orphans + {n});
    var created := fs.disk;
    ok := fs.WriteAll(inode, contents);
    ghost var k: nat :| k <= |contents| && fs.disk.bytes == created.bytes[inode := contents[..k]] && (ok ==> k == |contents|);
    WriteInv(d0, created, now, orphans + {n}, n, inode, contents[..k]);
    assert fs.disk == created.(bytes := created.bytes[inode := contents[..k]]);
    HistoryGrows(fs.history[..|fs.history| - 1], past, d0, fs.disk, plan, now, orphans + {n});
    if !ok {
      return;
    }
    assert contents[..|contents|] == contents;
    ok := fs.SyncAll();
    HistoryGrows(fs.history[..|fs.history| - 1], past, d0, fs.disk, plan, now, orphans + {n});
  }

  lemma TxWellFormed(d0: Disk, d: Disk, outs: seq<Prepared>, orphans: set<Name>)
    requires TxInv(d0, d, outs, orphans)
    ensures WellFormed(d)
    ensures forall x :: x in d0.bytes ==> x in d.bytes
  {
  }

  // ----- The phases -----

  /** A temporary name that its output does not own is taken only if it was at the start. */
  lemma FreeName(d0: Disk, d: Disk, outs: seq<Prepared>, orphans: set<Name>, i: nat, n: Name)
    requires TxInv(d0, d, outs, orphans) && i < |outs| && !Owns(outs[i], n) && NameOf(outs[i].target, n)
    requires n !in orphans
    ensures n in d.names ==> n in d0.names
  {
    OthersSame(d0, d, outs, orphans, i);
  }

  lemma TargetPresent(d0: Disk, d: Disk, outs: seq<Prepared>, orphans: set<Name>, i: nat)
    requires TxInv(d0, d, outs, orphans) && i < |outs|
    ensures outs[i].existed || outs[i].published ==> Plain(outs[i].target) in d.names
    ensures outs[i].staged.Some? ==> outs[i].staged.value in d.names && outs[i].staged.value.Temporary? && outs[i].staged.value.purpose == Stage
    ensures outs[i].backup.Some? ==> outs[i].backup.value in d.names
  {
    assert OutputInv(d0, d, outs[i]);
  }

  ghost predicate Untouched(o: Prepared) { o.staged.None? && o.backup.None? && !o.published }

  ghost predicate IsStaged(o: Prepared) { o.staged.Some? && !o.published }

  /** Before publication every target that existed has a backup. */
  ghost predicate Recoverable(o: Prepared) { o.existed ==> o.backup.Some? }

  lemma AdoptInv(d0: Disk, d: Disk, outs: seq<Prepared>, orphans: set<Name>, i: nat, n: Name)
    requires TxInv(d0, d, outs, orphans + {n}) && n !in orphans && i < |outs| && Untouched(outs[i])
    requires n.Temporary? && n.target == outs[i].target && n.purpose == Stage
    requires n in d.names && d.names[n] !in d0.bytes && Read(d, n) == Some(outs[i].bytes)
    ensures TxInv(d0, d, outs[i := outs[i].(staged := Some(n))], orphans)
  {
    var o := outs[i].(staged := Some(n));
    assert OutputInv(d0, d, outs[i]);
    assert n in orphans + {n};
    var outs' := outs[i := o];
    forall m, j | m in orphans && 0 <= j < |outs'|
      ensures !Owns(outs'[j], m)
    {
      assert m in orphans + {n} && !Owns(outs[j], m);
    }
    forall m | m !in orphans && forall j :: 0 <= j < |outs'| ==> !Owns(outs'[j], m)
      ensures SameEntry(d0, d, m)
    {
      assert !Owns(outs'[i], m);
      forall j | 0 <= j < |outs|
        ensures !Owns(outs[j], m)
      {
        assert !Owns(outs'[j], m);
      }
    }
  }

  /** Writes each output to a temporary file beside its target. */
  method StageAll(
    fs: FileSystem, outputs: array<Prepared>, sequence: nat, ghost past: seq<Disk>, ghost d0: Disk, ghost plan: seq<Prepared>)
    returns (ok: bool, sequence': nat, ghost orphans: set<Name>)
    requires Tx(fs, past, d0, plan, outputs[..], {})
    requires forall i :: 0 <= i < outputs.Length ==> Untouched(outputs[i])
    modifies fs, outputs
    ensures Tx(fs, past, d0, plan, outputs[..], orphans)
    ensures forall i :: 0 <= i < outputs.Length ==> outputs[i].backup.None? && !outputs[i].published
    ensures ok ==> orphans == {} && forall i :: 0 <= i < outputs.Length ==> IsStaged(outputs[i])
    ensures AtMostOneStaged(orphans)
    ensures !ok ==> outputs.Length > 0
    ensures fs.ticks >= old(fs.ticks)
    ensures ok ==> fs.ticks == old(fs.ticks) + 3 * outputs.Length && Quiet(fs.schedule, old(fs.ticks), 3 * outputs.Length)
    ensures NamesFree(d0) && Quiet(fs.schedule, old(fs.ticks), 3 * outputs.Length) ==> ok
  {
    hide TxInv, SamePlan, HistoryOk;
    orphans, sequence' := {}, sequence;
    for i := 0 to outputs.Length
      invariant fs.ticks == old(fs.ticks) + 3 * i && Quiet(fs.schedule, old(fs.ticks), 3 * i)
      invariant orphans == {}
      invariant Tx(fs, past, d0, plan, outputs[..], {})
      invariant forall j :: 0 <= j < i ==> IsStaged(outputs[j]) && outputs[j].backup.None?
      invariant forall j :: i <= j < outputs.Length ==> Untouched(outputs[j])
    {
      var n := Temporary(outputs[i].target, Stage, sequence');
      sequence' := sequence' + 1;
      ghost var before := outputs[..];
      assert before[i] == outputs[i];
      FreeName(d0, fs.disk, before, {}, i, n);
      var written: bool;
      written, orphans := WriteNewFile(fs, n, outputs[i].bytes, past, d0, plan, outputs[..], {});
      assert {} + orphans == orphans;
      if !written {
        assert orphans == {} || orphans == {n};
        return false, sequence', orphans;
      }
      outputs[i] := outputs[i].(staged := Some(n));
      assert {} + {n} == {n};
      AdoptInv(d0, fs.disk, before, {}, i, n);
      assert outputs[..] == before[i := before[i].(staged := Some(n))];
      SamePlanUpdate(plan, before, i, outputs[i]);
      orphans := {};
    }
    ok := true;
  }

  lemma SamePlanUpdate(plan: seq<Prepared>, now: seq<Prepared>, i: nat, o: Prepared)
    requires SamePlan(plan, now) && i < |now|
    requires o.target == now[i].target && o.bytes == now[i].bytes && o.existed == now[i].existed
    ensures SamePlan(plan, now[i := o])
  {
  }

  lemma BackupInv(d0: Disk, d: Disk, outs: seq<Prepared>, orphans: set<Name>, i: nat, n: Name)
    requires TxInv(d0, d, outs, orphans) && i < |outs| && outs[i].backup.None? && !outs[i].published
    requires outs[i].existed && n.Temporary? && n.target == outs[i].target && n.purpose == Backup
    requires n !in d.names && Plain(outs[i].target) in d.names
    ensures TxInv(d0, d.(names := d.names[n := d.names[Plain(outs[i].target)]]), outs[i := outs[i].(backup := Some(n))], orphans)
  {
    var t := Plain(outs[i].target);
    var d' := d.(names := d.names[n := d.names[t]]);
    var o := outs[i].(backup := Some(n));
    TemporaryIsNew(d0, d, outs, orphans, n);
    assert OutputInv(d0, d, outs[i]);
    assert OutputInv(d0, d', o);
    OthersSame(d0, d, outs, orphans, i);
    StepInv(d0, d, outs, orphans, i, o, d', orphans);
  }

  lemma TemporaryIsNew(d0: Disk, d: Disk, outs: seq<Prepared>, orphans: set<Name>, n: Name)
    requires TxInv(d0, d, outs, orphans) && n.Temporary? && n !in d.names
    ensures n !in d0.names
  {
    if n !in orphans {
      forall i | 0 <= i < |outs|
        ensures !Owns(outs[i], n)
      {
        assert OutputInv(d0, d, outs[i]);
      }
      assert SameEntry(d0, d, n);
    }
  }

  /** Names of an output that it does not own are as they were at the start. */
  lemma OthersSame(d0: Disk, d: Disk, outs: seq<Prepared>, orphans: set<Name>, i: nat)
    requires TxInv(d0, d, outs, orphans) && i < |outs|
    ensures forall n :: NameOf(outs[i].target, n) && !Owns(outs[i], n) && n !in orphans ==> SameEntry(d0, d, n)
  {
    forall n | NameOf(outs[i].target, n) && !Owns(outs[i], n) && n !in orphans
      ensures SameEntry(d0, d, n)
    {
      forall j | 0 <= j < |outs|
        ensures !Owns(outs[j], n)
      {
        if j != i && Owns(outs[j], n) {
          OwnsNameOf(d0, d, outs[j], n);
          assert false;
        }
      }
    }
  }

  /** How many of the first outputs had a target. */
  ghost function Existing(plan: seq<Prepared>, n: nat): nat
    requires n <= |plan|
  {
    if n == 0 then 0 else Existing(plan, n - 1) + if plan[n - 1].existed then 1 else 0
  }

  lemma {:induction false} ExistingGrows(plan: seq<Prepared>, n: nat)
    requires n <= |plan|
    ensures Existing(plan, n) <= Existing(plan, |plan|)
    decreases |plan| - n
  {
    if n < |plan| {
      ExistingGrows(plan, n + 1);
    }
  }

  lemma ExistingStep(plan: seq<Prepared>, i: nat)
    requires i < |plan|
    ensures Existing(plan, i + 1) == Existing(plan, i) + if plan[i].existed then 1 else 0
  {
  }

  lemma ExistingNone(plan: seq<Prepared>)
    ensures Existing(plan, 0) == 0
  {
  }

  lemma SameLength(plan: seq<Prepared>, now: seq<Prepared>)
    requires SamePlan(plan, now)
    ensures |plan| == |now|
  {
  }

  lemma SameExisted(plan: seq<Prepared>, now: seq<Prepared>, i: nat)
    requires SamePlan(plan, now) && i < |now| == |plan|
    ensures now[i].existed == plan[i].existed
  {
  }

  lemma NameIsFree(d0: Disk, n: Name)
    requires n.Temporary?
    ensures NamesFree(d0) ==> n !in d0.names
  {
  }

  method BackupOne(
    fs: FileSystem, outputs: array<Prepared>, i: nat, counter: nat, ghost past: seq<Disk>, ghost d0: Disk, ghost plan: seq<Prepared>)
    returns (ok: bool)
    requires Tx(fs, past, d0, plan, outputs[..], {})
    requires i < outputs.Length && IsStaged(outputs[i]) && outputs[i].backup.None? && outputs[i].existed
    modifies fs, outputs
    ensures Tx(fs, past, d0, plan, outputs[..], {})
    ensures ok ==> outputs[i].backup.Some? && outputs[..] == old(outputs[..])[i := old(outputs[i]).(backup := outputs[i].backup)]
    ensures !ok ==> outputs[..] == old(outputs[..])
    ensures fs.ticks == old(fs.ticks) + 1
    ensures ok ==> fs.schedule(old(fs.ticks)).None?
    ensures NamesFree(d0) && fs.schedule(old(fs.ticks)).None? ==> ok
  {
    hide TxInv, SamePlan, HistoryOk, NamesFree;
    var n := Temporary(outputs[i].target, Backup, counter);
    ghost var before, disk := outputs[..], fs.disk;
    assert before[i] == outputs[i];
    TargetPresent(d0, disk, before, {}, i);
    FreeName(d0, disk, before, {}, i, n);
    NameIsFree(d0, n);
    ok := fs.HardLink(Plain(outputs[i].target), n);
    if ok {
      outputs[i] := outputs[i].(backup := Some(n));
      BackupInv(d0, disk, before, {}, i, n);
      assert outputs[..] == before[i := before[i].(backup := Some(n))];
      SamePlanUpdate(plan, before, i, outputs[i]);
    }
    HistoryGrows(fs.history[..|fs.history| - 1], past, d0, fs.disk, plan, outputs[..], {});
  }

  /** Links each existing target to a backup name. */
  method BackupAll(
    fs: FileSystem, outputs: array<Prepared>, sequence: nat, ghost past: seq<Disk>, ghost d0: Disk, ghost plan: seq<Prepared>)
    returns (ok: bool)
    requires Tx(fs, past, d0, plan, outputs[..], {})
    requires forall i :: 0 <= i < outputs.Length ==> IsStaged(outputs[i]) && outputs[i].backup.None?
    modifies fs, outputs
    ensures Tx(fs, past, d0, plan, outputs[..], {})
    ensures forall i :: 0 <= i < outputs.Length ==> IsStaged(outputs[i])
    ensures ok ==> forall i :: 0 <= i < outputs.Length ==> Recoverable(outputs[i])
    ensures !ok ==> outputs.Length > 0
    ensures fs.ticks >= old(fs.ticks)
    ensures ok ==> fs.ticks == old(fs.ticks) + Existing(plan, |plan|) && Quiet(fs.schedule, old(fs.ticks), Existing(plan, |plan|))
    ensures NamesFree(d0) && Quiet(fs.schedule, old(fs.ticks), Existing(plan, |plan|)) ==> ok
  {
    hide TxInv, SamePlan, HistoryOk, Quiet, NamesFree, Existing;
    SameLength(plan, outputs[..]);
    ExistingNone(plan);
    QuietNone(fs.schedule, fs.ticks);
    var counter := sequence;
    for i := 0 to outputs.Length
      invariant fs.ticks == old(fs.ticks) + Existing(plan, i) && Quiet(fs.schedule, old(fs.ticks), Existing(plan, i))
      invariant Tx(fs, past, d0, plan, outputs[..], {})
      invariant forall j :: 0 <= j < outputs.Length ==> IsStaged(outputs[j])
      invariant forall j :: 0 <= j < i ==> Recoverable(outputs[j])
      invariant forall j :: i <= j < outputs.Length ==> outputs[j].backup.None?
    {
      ExistingGrows(plan, i + 1);
      ExistingStep(plan, i);
      SameExisted(plan, outputs[..], i);
      if outputs[i].existed {
        QuietAt(fs.schedule, old(fs.ticks), Existing(plan, |plan|), Existing(plan, i));
        QuietStep(fs.schedule, old(fs.ticks), Existing(plan, i));
        ghost var before := outputs[..];
        var linked := BackupOne(fs, outputs, i, counter, past, d0, plan);
        counter := counter + 1;
        assert forall j :: 0 <= j < outputs.Length && j != i ==> outputs[..][j] == before[j];
        assert outputs[..][i] == outputs[i];
        if !linked {
          return false;
        }
      }
    }
    ok := true;
  }

  lemma PublishInv(d0: Disk, d: Disk, outs: seq<Prepared>, orphans: set<Name>, i: nat)
    requires TxInv(d0, d, outs, orphans) && i < |outs| && IsStaged(outs[i])
    ensures var n, t := outs[i].staged.value, Plain(outs[i].target);
            && n in d.names && !(t in d.names && d.names[t] == d.names[n])
            && TxInv(d0, d.(names := d.names[t := d.names[n]] - {n}), outs[i := outs[i].(staged := None, published := true)], orphans)
  {
    var n, t := outs[i].staged.value, Plain(outs[i].target);
    assert OutputInv(d0, d, outs[i]);
    var d' := d.(names := d.names[t := d.names[n]] - {n});
    var o := outs[i].(staged := None, published := true);
    assert OutputInv(d0, d', o);
    OthersSame(d0, d, outs, orphans, i);
    StepInv(d0, d, outs, orphans, i, o, d', orphans);
  }

  lemma RestoreInv(d0: Disk, d: Disk, outs: seq<Prepared>, orphans: set<Name>, i: nat)
    requires TxInv(d0, d, outs, orphans) && i < |outs| && outs[i].published && outs[i].backup.Some?
    ensures var n, t := outs[i].backup.value, Plain(outs[i].target);
            && n in d.names && !(t in d.names && d.names[t] == d.names[n])
            && TxInv(d0, d.(names := d.names[t := d.names[n]] - {n}), outs[i := outs[i].(backup := None, published := false)], orphans)
  {
    var n, t := outs[i].backup.value, Plain(outs[i].target);
    assert OutputInv(d0, d, outs[i]);
    var d' := d.(names := d.names[t := d.names[n]] - {n});
    var o := outs[i].(backup := None, published := false);
    assert OutputInv(d0, d', o);
    OthersSame(d0, d, outs, orphans, i);
    StepInv(d0, d, outs, orphans, i, o, d', orphans);
  }

  lemma WithdrawInv(d0: Disk, d: Disk, outs: seq<Prepared>, orphans: set<Name>, i: nat)
    requires TxInv(d0, d, outs, orphans) && i < |outs| && outs[i].published && !outs[i].existed
    ensures var t := Plain(outs[i].target);
            && outs[i].backup.None?
            && TxInv(d0, d.(names := d.names - {t}), outs[i := outs[i].(backup := None, published := false)], orphans)
  {
    var t := Plain(outs[i].target);
    assert OutputInv(d0, d, outs[i]);
    var d' := d.(names := d.names - {t});
    var o := outs[i].(backup := None, published := false);
    assert OutputInv(d0, d', o);
    OthersSame(d0, d, outs, orphans, i);
    StepInv(d0, d, outs, orphans, i, o, d', orphans);
  }

  /** Takes back the first `count` outputs, which are the published ones, last first, going
      on after a failure. */
  method Rollback(
    fs: FileSystem, outputs: array<Prepared>, ghost count: nat, ghost past: seq<Disk>, ghost d0: Disk, ghost plan: seq<Prepared>)
    returns (ok: bool)
    requires Tx(fs, past, d0, plan, outputs[..], {})
    requires forall i :: 0 <= i < outputs.Length ==> (outputs[i].published <==> i < count)
    requires forall i :: 0 <= i < outputs.Length && outputs[i].published ==> Recoverable(outputs[i])
    requires count <= outputs.Length
    modifies fs, outputs
    ensures Tx(fs, past, d0, plan, outputs[..], {})
    ensures ok <==> forall i :: 0 <= i < outputs.Length ==> !outputs[i].published
    ensures forall i :: 0 <= i < outputs.Length ==> outputs[i].staged == old(outputs[i].staged)
    ensures forall i :: 0 <= i < outputs.Length ==>
      (outputs[i].published <==> i < count && fs.schedule(old(fs.ticks) + (count - 1 - i)).Some?)
    ensures fs.ticks == old(fs.ticks) + count
  {
    hide TxInv, SamePlan, HistoryOk;
    ok := true;
    var k := outputs.Length;
    while k > 0
      invariant 0 <= k <= outputs.Length
      invariant Tx(fs, past, d0, plan, outputs[..], {})
      invariant forall j :: 0 <= j < k ==> outputs[j] == old(outputs[j])
      invariant ok <==> forall j :: k <= j < outputs.Length ==> !outputs[j].published
      invariant forall j :: 0 <= j < outputs.Length ==> outputs[j].staged == old(outputs[j].staged)
      invariant fs.ticks == old(fs.ticks) + if k >= count then 0 else count - k
      invariant forall j :: k <= j < outputs.Length ==>
        (outputs[j].published <==> j < count && fs.schedule(old(fs.ticks) + (count - 1 - j)).Some?)
    {
      k := k - 1;
      if outputs[k].published {
        ghost var before := outputs[..];
        var done := TakeBack(fs, outputs, k, past, d0, plan);
        assert forall j :: 0 <= j < outputs.Length && j != k ==> outputs[..][j] == before[j];
        assert outputs[..][k] == outputs[k];
        if !done {
          ok := false;
        }
      }
    }
  }

  /** Puts the backup of one published output back, or removes a target that was new. */
  method TakeBack(
    fs: FileSystem, outputs: array<Prepared>, i: nat, ghost past: seq<Disk>, ghost d0: Disk, ghost plan: seq<Prepared>)
    returns (ok: bool)
    requires i < outputs.Length && outputs[i].published && Recoverable(outputs[i])
    requires Tx(fs, past, d0, plan, outputs[..], {})
    modifies fs, outputs
    ensures Tx(fs, past, d0, plan, outputs[..], {})
    ensures outputs[..] == if ok then old(outputs[..])[i := old(outputs[i]).(published := false, backup := None)] else old(outputs[..])
    ensures fs.ticks == old(fs.ticks) + 1 && (ok <==> fs.schedule(old(fs.ticks)).None?)
  {
    hide TxInv, SamePlan, HistoryOk;
    ghost var before, disk := outputs[..], fs.disk;
    assert before[i] == outputs[i];
    TargetPresent(d0, disk, before, {}, i);
    if outputs[i].backup.Some? {
      RestoreInv(d0, disk, before, {}, i);
      ok := fs.Rename(outputs[i].backup.value, Plain(outputs[i].target));
    } else {
      WithdrawInv(d0, disk, before, {}, i);
      ok := fs.Remove(Plain(outputs[i].target));
    }
    if ok {
      outputs[i] := outputs[i].(published := false, backup := None);
      SamePlanUpdate(plan, before, i, outputs[i]);
      assert outputs[..] == before[i := outputs[i]];
    }
    HistoryGrows(fs.history[..|fs.history| - 1], past, d0, fs.disk, plan, outputs[..], {});
  }

  ghost function Flags(outputs: seq<Prepared>): (flags: seq<bool>)
    ensures |flags| == |outputs| && forall i :: 0 <= i < |outputs| ==> flags[i] == outputs[i].published
  {
    seq(|outputs|, i requires 0 <= i < |outputs| => outputs[i].published)
  }

  /** Publication number `k` was the first to fail, and exactly those before it stay
      published whose taking back failed too. */
  ghost predicate TakenBack(schedule: nat -> Option<nat>, from: nat, flags: seq<bool>, until: nat, k: nat) {
    && k < |flags| && Quiet(schedule, from, k) && schedule(from + k).Some?
    && until == from + 2 * k + 1
    && forall i :: 0 <= i < |flags| ==> (flags[i] <==> i < k && schedule(from + 2 * k - i).Some?)
  }

  /** Which targets stay new when publication starts at operation `from`. */
  ghost predicate Settled(schedule: nat -> Option<nat>, from: nat, flags: seq<bool>, until: nat) {
    || (Quiet(schedule, from, |flags|) && until == from + |flags| && forall i :: 0 <= i < |flags| ==> flags[i])
    || exists k :: TakenBack(schedule, from, flags, until, k)
  }

  lemma TakenBackSettles(schedule: nat -> Option<nat>, from: nat, flags: seq<bool>, until: nat, k: nat)
    requires TakenBack(schedule, from, flags, until, k)
    ensures Settled(schedule, from, flags, until)
  {
  }

  lemma DoneSettles(schedule: nat -> Option<nat>, from: nat, flags: seq<bool>, until: nat)
    requires Quiet(schedule, from, |flags|) && until == from + |flags| && forall i :: 0 <= i < |flags| ==> flags[i]
    ensures Settled(schedule, from, flags, until)
  {
  }

  lemma SettledQuiet(schedule: nat -> Option<nat>, from: nat, flags: seq<bool>, until: nat)
    requires Settled(schedule, from, flags, until) && Quiet(schedule, from, |flags|)
    ensures until == from + |flags|
  {
  }

  /** What the caller is told. A failed rollback means that temporary files could not be
      removed or that some targets are new and some are not; any other error that none is. */
  ghost predicate Reports(outcome: Outcome, cleaned: bool, published: seq<bool>) {
    && (outcome.Ok? <==> cleaned && forall i :: 0 <= i < |published| ==> published[i])
    && (outcome.IoError? <==> cleaned && published != [] && forall i :: 0 <= i < |published| ==> !published[i])
    && (outcome.RollbackError? <==>
          !cleaned || exists i, j :: 0 <= i < |published| && 0 <= j < |published| && published[i] && !published[j])
  }

  lemma RollbackReported(ok: bool, published: seq<bool>, k: nat)
    requires k < |published| && !published[k]
    requires ok <==> forall i :: 0 <= i < |published| ==> !published[i]
    ensures Reports(if ok then IoError else RollbackError, true, published)
  {
  }

  lemma ReportsUncleaned(outcome: Outcome, published: seq<bool>)
    requires Reports(outcome, true, published)
    ensures Reports(RollbackError, false, published)
  {
  }

  lemma NothingReported(published: seq<bool>)
    requires published != [] && forall i :: 0 <= i < |published| ==> !published[i]
    ensures Reports(IoError, true, published)
  {
    assert !published[0];
  }

  lemma AllReported(published: seq<bool>)
    requires forall i :: 0 <= i < |published| ==> published[i]
    ensures Reports(Ok, true, published)
  {
    assert published != [] ==> published[0];
  }

  /** Renames one staged file onto its target. */
  method PublishOne(
    fs: FileSystem, outputs: array<Prepared>, i: nat, ghost past: seq<Disk>, ghost d0: Disk, ghost plan: seq<Prepared>)
    returns (ok: bool)
    requires i < outputs.Length && IsStaged(outputs[i]) && Recoverable(outputs[i])
    requires Tx(fs, past, d0, plan, outputs[..], {})
    modifies fs, outputs
    ensures Tx(fs, past, d0, plan, outputs[..], {})
    ensures outputs[..] == if ok then old(outputs[..])[i := old(outputs[i]).(staged := None, published := true)] else old(outputs[..])
    ensures fs.ticks == old(fs.ticks) + 1 && (ok <==> fs.schedule(old(fs.ticks)).None?)
  {
    hide TxInv, SamePlan, HistoryOk;
    ghost var before, disk := outputs[..], fs.disk;
    assert before[i] == outputs[i];
    PublishInv(d0, disk, before, {}, i);
    ok := fs.Rename(outputs[i].staged.value, Plain(outputs[i].target));
    if ok {
      outputs[i] := outputs[i].(staged := None, published := true);
      assert outputs[..] == before[i := before[i].(staged := None, published := true)];
      SamePlanUpdate(plan, before, i, outputs[i]);
    }
    HistoryGrows(fs.history[..|fs.history| - 1], past, d0, fs.disk, plan, outputs[..], {});
  }

  /** Renames every staged file onto its target; the first failure takes everything back. */
  method PublishAll(
    fs: FileSystem, outputs: array<Prepared>, ghost past: seq<Disk>, ghost d0: Disk, ghost plan: seq<Prepared>)
    returns (outcome: Outcome)
    requires Tx(fs, past, d0, plan, outputs[..], {})
    requires forall i :: 0 <= i < outputs.Length ==> IsStaged(outputs[i]) && Recoverable(outputs[i])
    modifies fs, outputs
    ensures Tx(fs, past, d0, plan, outputs[..], {})
    ensures Reports(outcome, true, Flags(outputs[..]))
    ensures fs.ticks >= old(fs.ticks)
    ensures Settled(fs.schedule, old(fs.ticks), Flags(outputs[..]), fs.ticks)
    ensures Quiet(fs.schedule, old(fs.ticks), outputs.Length) <==> outcome.Ok?
  {
    hide TxInv, SamePlan, HistoryOk, Reports, Settled;
    for i := 0 to outputs.Length
      invariant fs.ticks == old(fs.ticks) + i && Quiet(fs.schedule, old(fs.ticks), i)
      invariant Tx(fs, past, d0, plan, outputs[..], {})
      invariant forall j :: 0 <= j < outputs.Length ==> Recoverable(outputs[j])
      invariant forall j :: 0 <= j < i ==> outputs[j].published
      invariant forall j :: i <= j < outputs.Length ==> IsStaged(outputs[j])
    {
      var renamed := PublishOne(fs, outputs, i, past, d0, plan);
      if !renamed {
        var undone := Rollback(fs, outputs, i, past, d0, plan);
        TakenBackSettles(fs.schedule, old(fs.ticks), Flags(outputs[..]), fs.ticks, i);
        RollbackReported(undone, Flags(outputs[..]), i);
        return if undone then IoError else RollbackError;
      }
    }
    AllReported(Flags(outputs[..]));
    DoneSettles(fs.schedule, old(fs.ticks), Flags(outputs[..]), fs.ticks);
    outcome := Ok;
  }

  /** The number of operations before the first publication. */
  ghost function Prelude(plan: seq<Prepared>): nat { 3 * |plan| + Existing(plan, |plan|) }

  /** Stages everything and backs it up. Only staging can leave a file no output owns. */
  method StageAndBackUp(
    fs: FileSystem, outputs: array<Prepared>, sequence: nat, ghost past: seq<Disk>, ghost d0: Disk, ghost plan: seq<Prepared>)
    returns (ok: bool, ghost orphans: set<Name>)
    requires Tx(fs, past, d0, plan, outputs[..], {})
    requires forall i :: 0 <= i < outputs.Length ==> Untouched(outputs[i])
    modifies fs, outputs
    ensures Tx(fs, past, d0, plan, outputs[..], orphans)
    ensures forall i :: 0 <= i < outputs.Length ==> !outputs[i].published
    ensures ok ==> orphans == {} && forall i :: 0 <= i < outputs.Length ==> IsStaged(outputs[i]) && Recoverable(outputs[i])
    ensures ok ==> fs.ticks == old(fs.ticks) + Prelude(plan) && Quiet(fs.schedule, old(fs.ticks), Prelude(plan))
    ensures !ok ==> plan != []
    ensures fs.ticks >= old(fs.ticks)
    ensures AtMostOneStaged(orphans)
    ensures NamesFree(d0) && Quiet(fs.schedule, old(fs.ticks), Prelude(plan)) ==> ok
  {
    hide TxInv, SamePlan, HistoryOk, Quiet, NamesFree, Existing;
    SameLength(plan, outputs[..]);
    QuietParts(fs.schedule, fs.ticks, 3 * |plan|, Existing(plan, |plan|));
    var sequence';
    ok, sequence', orphans := StageAll(fs, outputs, sequence, past, d0, plan);
    if ok {
      ok := BackupAll(fs, outputs, sequence', past, d0, plan);
    }
  }

  /** Stages, backs up and publishes. */
  method StageAndPublish(
    fs: FileSystem, outputs: array<Prepared>, sequence: nat, ghost past: seq<Disk>, ghost d0: Disk, ghost plan: seq<Prepared>)
    returns (outcome: Outcome, ghost orphans: set<Name>)
    requires Tx(fs, past, d0, plan, outputs[..], {})
    requires forall i :: 0 <= i < outputs.Length ==> Untouched(outputs[i])
    modifies fs, outputs
    ensures Tx(fs, past, d0, plan, outputs[..], orphans)
    ensures Reports(outcome, true, Flags(outputs[..]))
    ensures fs.ticks >= old(fs.ticks)
    ensures outcome.Ok? ==> orphans == {} && Quiet(fs.schedule, old(fs.ticks), fs.ticks - old(fs.ticks))
    ensures !Quiet(fs.schedule, old(fs.ticks), Prelude(plan)) ==> forall i :: 0 <= i < outputs.Length ==> !outputs[i].published
    ensures AtMostOneStaged(orphans)
    ensures NamesFree(d0) && Quiet(fs.schedule, old(fs.ticks), Prelude(plan)) ==>
              orphans == {} && Settled(fs.schedule, old(fs.ticks) + Prelude(plan), Flags(outputs[..]), fs.ticks)
    ensures NamesFree(d0) && NeverFails(fs.schedule) ==> outcome.Ok?
  {
    hide TxInv, SamePlan, HistoryOk, Settled, Prelude;
    var ok;
    ok, orphans := StageAndBackUp(fs, outputs, sequence, past, d0, plan);
    if !ok {
      SameLength(plan, outputs[..]);
      NothingReported(Flags(outputs[..]));
      return IoError, orphans;
    }
    ghost var prelude, start := Prelude(plan), fs.ticks;
    outcome := PublishAll(fs, outputs, past, d0, plan);
    if outcome.Ok? {
      QuietParts(fs.schedule, old(fs.ticks), prelude, outputs.Length);
      SettledQuiet(fs.schedule, start, Flags(outputs[..]), fs.ticks);
    }
  }

  // ----- Cleaning up -----

  /** Letting go of a staged or backup name, removed or not. */
  lemma ReleaseInv(d0: Disk, d: Disk, outs: seq<Prepared>, orphans: set<Name>, i: nat, n: Name, o: Prepared, removed: bool)
    requires TxInv(d0, d, outs, orphans) && i < |outs| && n.Temporary? && Owns(outs[i], n)
    requires o == outs[i].(staged := None) || o == outs[i].(backup := None)
    requires !Owns(o, n)
    ensures removed ==> TxInv(d0, d.(names := d.names - {n}), outs[i := o], orphans)
    ensures !removed ==> TxInv(d0, d, outs[i := o], orphans + {n})
  {
    assert OutputInv(d0, d, outs[i]);
    OthersSame(d0, d, outs, orphans, i);
    if removed {
      var d' := d.(names := d.names - {n});
      assert OutputInv(d0, d', o);
      StepInv(d0, d, outs, orphans, i, o, d', orphans);
    } else {
      assert OutputInv(d0, d, o);
      StepInv(d0, d, outs, orphans, i, o, d, orphans + {n});
    }
  }

  /** Removes one temporary file of output `i`, which becomes `o` either way. */
  method Release(
    fs: FileSystem, outputs: array<Prepared>, i: nat, n: Name, o: Prepared,
    ghost past: seq<Disk>, ghost d0: Disk, ghost plan: seq<Prepared>, ghost orphans: set<Name>)
    returns (ok: bool, ghost orphans': set<Name>)
    requires Tx(fs, past, d0, plan, outputs[..], orphans) && i < outputs.Length
    requires n.Temporary? && Owns(outputs[i], n) && !Owns(o, n)
    requires o == outputs[i].(staged := None) || o == outputs[i].(backup := None)
    modifies fs, outputs
    ensures Tx(fs, past, d0, plan, outputs[..], orphans')
    ensures outputs[..] == old(outputs[..])[i := o]
    ensures orphans' == if ok then orphans else orphans + {n}
    ensures fs.ticks == old(fs.ticks) + 1 && (ok <==> fs.schedule(old(fs.ticks)).None?)
  {
    hide TxInv, SamePlan, HistoryOk, Owns;
    ghost var before, disk := outputs[..], fs.disk;
    assert before[i] == outputs[i];
    OwnedPresent(d0, disk, before, orphans, i, n);
    ok := fs.Remove(n);
    ReleaseInv(d0, disk, before, orphans, i, n, o, ok);
    outputs[i] := o;
    assert outputs[..] == before[i := o];
    SamePlanUpdate(plan, before, i, o);
    orphans' := if ok then orphans else orphans + {n};
    HistoryGrows(fs.history[..|fs.history| - 1], past, d0, fs.disk, plan, outputs[..], orphans');
  }

  lemma OwnedPresent(d0: Disk, d: Disk, outs: seq<Prepared>, orphans: set<Name>, i: nat, n: Name)
    requires TxInv(d0, d, outs, orphans) && i < |outs| && n.Temporary? && Owns(outs[i], n)
    ensures n in d.names
  {
    assert OutputInv(d0, d, outs[i]);
  }

  lemma OwnedTemporary(d0: Disk, d: Disk, outs: seq<Prepared>, orphans: set<Name>, i: nat)
    requires TxInv(d0, d, outs, orphans) && i < |outs|
    ensures outs[i].staged.Some? ==> outs[i].staged.value.Temporary? && outs[i].backup != outs[i].staged
    ensures outs[i].backup.Some? ==> outs[i].backup.value.Temporary?
  {
    assert OutputInv(d0, d, outs[i]);
  }

  /** The temporary files of one output, in the order in which they are removed. */
  ghost function Temporaries(o: Prepared): seq<Name> {
    (if o.staged.Some? then [o.staged.value] else []) + (if o.backup.Some? then [o.backup.value] else [])
  }

  ghost function AllTemporaries(outs: seq<Prepared>): seq<Name> {
    if outs == [] then [] else AllTemporaries(outs[..|outs| - 1]) + Temporaries(outs[|outs| - 1])
  }

  /** The names whose removal fails when they are removed one after another. */
  ghost function Stuck(schedule: nat -> Option<nat>, from: nat, names: seq<Name>): set<Name> {
    set k | 0 <= k < |names| && schedule(from + k).Some? :: names[k]
  }

  lemma StuckConcat(schedule: nat -> Option<nat>, from: nat, names: seq<Name>, more: seq<Name>)
    ensures Stuck(schedule, from, names + more) == Stuck(schedule, from, names) + Stuck(schedule, from + |names|, more)
  {
    var all := names + more;
    forall m | m in Stuck(schedule, from, names) + Stuck(schedule, from + |names|, more)
      ensures m in Stuck(schedule, from, all)
    {
      if m in Stuck(schedule, from, names) {
        var k :| 0 <= k < |names| && schedule(from + k).Some? && names[k] == m;
        assert all[k] == m;
      } else {
        var k :| 0 <= k < |more| && schedule(from + |names| + k).Some? && more[k] == m;
        assert all[|names| + k] == m && schedule(from + (|names| + k)).Some?;
      }
    }
    forall m | m in Stuck(schedule, from, all)
      ensures m in Stuck(schedule, from, names) + Stuck(schedule, from + |names|, more)
    {
      var k :| 0 <= k < |all| && schedule(from + k).Some? && all[k] == m;
      if k >= |names| {
        assert schedule(from + |names| + (k - |names|)).Some? && more[k - |names|] == m;
      }
    }
  }

  lemma StuckOne(schedule: nat -> Option<nat>, from: nat, n: Name)
    ensures Stuck(schedule, from, [n]) == if schedule(from).Some? then {n} else {}
    ensures Quiet(schedule, from, 1) <==> schedule(from).None?
  {
    assert [n][0] == n;
    assert schedule(from).Some? ==> schedule(from + 0).Some?;
  }

  /** Removes the temporary files of one output. */
  method CleanupOne(
    fs: FileSystem, outputs: array<Prepared>, i: nat, ghost past: seq<Disk>, ghost d0: Disk, ghost plan: seq<Prepared>, ghost orphans: set<Name>)
    returns (ok: bool, ghost orphans': set<Name>)
    requires Tx(fs, past, d0, plan, outputs[..], orphans) && i < outputs.Length
    modifies fs, outputs
    ensures Tx(fs, past, d0, plan, outputs[..], orphans')
    ensures outputs[..] == old(outputs[..])[i := old(outputs[i]).(staged := None, backup := None)]
    ensures fs.ticks == old(fs.ticks) + |Temporaries(old(outputs[i]))|
    ensures orphans' == orphans + Stuck(fs.schedule, old(fs.ticks), Temporaries(old(outputs[i])))
    ensures ok <==> Quiet(fs.schedule, old(fs.ticks), |Temporaries(old(outputs[i]))|)
  {
    hide TxInv, SamePlan, HistoryOk, Quiet, Stuck;
    ghost var o, from := outputs[i], fs.ticks;
    ghost var first := if o.staged.Some? then [o.staged.value] else [];
    assert Temporaries(o) == first + if o.backup.Some? then [o.backup.value] else [];
    assert first + [] == first;
    ok, orphans' := true, orphans;
    StuckNone(fs.schedule, from);
    QuietNone(fs.schedule, from);
    assert outputs[..][i] == o;
    OwnedTemporary(d0, fs.disk, outputs[..], orphans', i);
    if outputs[i].staged.Some? {
      StuckOne(fs.schedule, from, o.staged.value);
      ok, orphans' := Release(fs, outputs, i, outputs[i].staged.value, outputs[i].(staged := None), past, d0, plan, orphans');
    }
    if outputs[i].backup.Some? {
      StuckOne(fs.schedule, fs.ticks, o.backup.value);
      StuckConcat(fs.schedule, from, first, [o.backup.value]);
      QuietParts(fs.schedule, from, |first|, 1);
      var removed: bool;
      removed, orphans' := Release(fs, outputs, i, outputs[i].backup.value, outputs[i].(backup := None), past, d0, plan, orphans');
      ok := ok && removed;
    }
  }

  lemma AllTemporariesStep(outs: seq<Prepared>, i: nat)
    requires i < |outs|
    ensures AllTemporaries(outs[..i + 1]) == AllTemporaries(outs[..i]) + Temporaries(outs[i])
  {
    assert outs[..i + 1][..i] == outs[..i];
  }

  /** Removes whatever temporary files are still owned, going on after a failure. */
  method CleanupAll(
    fs: FileSystem, outputs: array<Prepared>, ghost past: seq<Disk>, ghost d0: Disk, ghost plan: seq<Prepared>, ghost orphans: set<Name>)
    returns (ok: bool, ghost orphans': set<Name>)
    requires Tx(fs, past, d0, plan, outputs[..], orphans)
    modifies fs, outputs
    ensures Tx(fs, past, d0, plan, outputs[..], orphans')
    ensures forall i :: 0 <= i < outputs.Length ==> outputs[i] == old(outputs[i]).(staged := None, backup := None)
    ensures fs.ticks == old(fs.ticks) + |AllTemporaries(old(outputs[..]))|
    ensures orphans' == orphans + Stuck(fs.schedule, old(fs.ticks), AllTemporaries(old(outputs[..])))
    ensures ok <==> Quiet(fs.schedule, old(fs.ticks), |AllTemporaries(old(outputs[..]))|)
  {
    hide Tx, Quiet, Stuck, Temporaries;
    ok, orphans' := true, orphans;
    ghost var outs, names: seq<Name> := outputs[..], [];
    QuietNone(fs.schedule, fs.ticks);
    StuckNone(fs.schedule, fs.ticks);
    for i := 0 to outputs.Length
      invariant Tx(fs, past, d0, plan, outputs[..], orphans')
      invariant forall j :: 0 <= j < i ==> outputs[j] == outs[j].(staged := None, backup := None)
      invariant forall j :: i <= j < outputs.Length ==> outputs[j] == outs[j]
      invariant names == AllTemporaries(outs[..i])
      invariant fs.ticks == old(fs.ticks) + |names|
      invariant orphans' == orphans + Stuck(fs.schedule, old(fs.ticks), names)
      invariant ok <==> Quiet(fs.schedule, old(fs.ticks), |names|)
    {
      ghost var more := Temporaries(outs[i]);
      AllTemporariesStep(outs, i);
      StuckConcat(fs.schedule, old(fs.ticks), names, more);
      QuietParts(fs.schedule, old(fs.ticks), |names|, |more|);
      ghost var before := outputs[..];
      assert before[i] == outs[i];
      var removed: bool;
      removed, orphans' := CleanupOne(fs, outputs, i, past, d0, plan, orphans');
      assert forall j :: 0 <= j < outputs.Length && j != i ==> outputs[..][j] == before[j];
      assert outputs[..][i] == before[i].(staged := None, backup := None);
      ok := ok && removed;
      names := names + more;
    }
    assert outs[..outputs.Length] == outs;
  }

  lemma StuckNone(schedule: nat -> Option<nat>, from: nat)
    ensures Stuck(schedule, from, []) == {}
  {
  }

  lemma QuietSticksNothing(schedule: nat -> Option<nat>, from: nat, names: seq<Name>)
    ensures Quiet(schedule, from, |names|) ==> Stuck(schedule, from, names) == {}
  {
  }

  // ----- The whole transaction -----

  datatype Rendered = Rendered(target: string, bytes: Bytes)

  /** Every target holds its full old or its full new contents. */
  ghost predicate EachOldOrNew(d0: Disk, d: Disk, rendered: seq<Rendered>) {
    forall i :: 0 <= i < |rendered| ==>
      var t := Plain(rendered[i].target);
      Read(d, t) == Read(d0, t) || Read(d, t) == Some(rendered[i].bytes)
  }

  ghost predicate IsTarget(rendered: seq<Rendered>, n: Name) {
    exists i :: 0 <= i < |rendered| && n == Plain(rendered[i].target)
  }

  /** A name is bound as at the start, to the same bytes. */
  ghost predicate AsBefore(d0: Disk, d: Disk, n: Name) {
    SameEntry(d0, d, n) && Read(d, n) == Read(d0, n)
  }

  ghost function Plan(d0: Disk, rendered: seq<Rendered>): seq<Prepared> {
    seq(|rendered|, i requires 0 <= i < |rendered| =>
      Prepared(rendered[i].target, rendered[i].bytes, None, None, Plain(rendered[i].target) in d0.names, false))
  }

  ghost predicate DistinctTargets(rendered: seq<Rendered>) {
    forall i, j :: 0 <= i < j < |rendered| ==> rendered[i].target != rendered[j].target
  }

  lemma PlanInv(d0: Disk, rendered: seq<Rendered>)
    requires WellFormed(d0) && DistinctTargets(rendered)
    ensures TxInv(d0, d0, Plan(d0, rendered), {})
    ensures forall i :: 0 <= i < |rendered| ==> Untouched(Plan(d0, rendered)[i])
    ensures SamePlan(Plan(d0, rendered), Plan(d0, rendered))
    ensures forall past :: HistoryOk(past, past, d0, Plan(d0, rendered))
  {
  }

  lemma HistoryMeaning(history: seq<Disk>, past: seq<Disk>, d0: Disk, rendered: seq<Rendered>)
    requires HistoryOk(history, past, d0, Plan(d0, rendered))
    ensures past <= history
    ensures forall k :: |past| <= k < |history| ==> EachOldOrNew(d0, history[k], rendered)
  {
    forall k | |past| <= k < |history|
      ensures EachOldOrNew(d0, history[k], rendered)
    {
      assert OldOrNew(d0, history[k], Plan(d0, rendered));
      forall i | 0 <= i < |rendered|
        ensures var t := Plain(rendered[i].target); Read(history[k], t) == Read(d0, t) || Read(history[k], t) == Some(rendered[i].bytes)
      {
        assert Plan(d0, rendered)[i].target == rendered[i].target;
      }
    }
  }

  /** Once cleaned up, only targets and orphans can differ from the start. */
  lemma CleanedUp(d0: Disk, d: Disk, now: seq<Prepared>, orphans: set<Name>, rendered: seq<Rendered>)
    requires TxInv(d0, d, now, orphans) && SamePlan(Plan(d0, rendered), now)
    requires forall i :: 0 <= i < |now| ==> now[i].staged.None? && now[i].backup.None?
    ensures forall n :: n !in orphans && !IsTarget(rendered, n) ==> AsBefore(d0, d, n)
    ensures forall i :: 0 <= i < |now| && now[i].published ==> Read(d, Plain(rendered[i].target)) == Some(rendered[i].bytes)
    ensures forall i :: 0 <= i < |now| && !now[i].published ==> AsBefore(d0, d, Plain(rendered[i].target))
    ensures forall n :: n in orphans ==> n !in d0.names && n.Temporary?
    ensures EachOldOrNew(d0, d, rendered)
  {
    forall n | n !in orphans && !IsTarget(rendered, n)
      ensures AsBefore(d0, d, n)
    {
      forall i | 0 <= i < |now|
        ensures !Owns(now[i], n)
      {
        assert now[i].target == Plan(d0, rendered)[i].target == rendered[i].target;
      }
    }
    forall i | 0 <= i < |now|
      ensures now[i].published ==> Read(d, Plain(rendered[i].target)) == Some(rendered[i].bytes)
      ensures !now[i].published ==> AsBefore(d0, d, Plain(rendered[i].target))
    {
      assert OutputInv(d0, d, now[i]);
      assert now[i].target == Plan(d0, rendered)[i].target == rendered[i].target;
    }
  }

  // ----- Old contents -----

  /** Some name is bound to the inode. */
  ghost predicate Bound(d: Disk, inode: nat) {
    exists n :: n in d.names && d.names[n] == inode
  }

  /** The name is a target that stays new. */
  ghost predicate StaysNew(rendered: seq<Rendered>, published: seq<bool>, n: Name) {
    exists i :: 0 <= i < |rendered| && i < |published| && published[i] && n == Plain(rendered[i].target)
  }

  ghost predicate BackupLeft(orphans: set<Name>, target: string) {
    exists n :: n in orphans && n.Temporary? && n.purpose == Backup && n.target == target
  }

  /** An inode from the start still has a name exactly if one of its names is not a target
      that stays new, or a backup made of one of its names could not be removed. */
  ghost predicate KeptExactly(d0: Disk, d: Disk, rendered: seq<Rendered>, published: seq<bool>, orphans: set<Name>, inode: nat) {
    Bound(d, inode) <==>
      exists m :: m in d0.names && d0.names[m] == inode &&
        (!StaysNew(rendered, published, m) || (m.Plain? && BackupLeft(orphans, m.path)))
  }

  lemma KeptInodes(d0: Disk, d: Disk, now: seq<Prepared>, orphans: set<Name>, rendered: seq<Rendered>)
    requires TxInv(d0, d, now, orphans) && SamePlan(Plan(d0, rendered), now)
    requires forall i :: 0 <= i < |now| ==> now[i].staged.None? && now[i].backup.None?
    ensures forall inode :: inode in d0.bytes ==> KeptExactly(d0, d, rendered, Flags(now), orphans, inode)
  {
    var published := Flags(now);
    forall i | 0 <= i < |now|
      ensures rendered[i].target == now[i].target
    {
      assert now[i].target == Plan(d0, rendered)[i].target;
    }
    forall inode | inode in d0.bytes
      ensures KeptExactly(d0, d, rendered, published, orphans, inode)
    {
      if Bound(d, inode) {
        var n :| n in d.names && d.names[n] == inode;
        BoundFrom(d0, d, now, orphans, rendered, n);
      }
      if m :| m in d0.names && d0.names[m] == inode && (!StaysNew(rendered, published, m) || (m.Plain? && BackupLeft(orphans, m.path))) {
        KeptBy(d0, d, now, orphans, rendered, m);
      }
    }
  }

  /** A name bound to an inode from the start is a name from the start or a lost backup. */
  lemma BoundFrom(d0: Disk, d: Disk, now: seq<Prepared>, orphans: set<Name>, rendered: seq<Rendered>, n: Name)
    requires TxInv(d0, d, now, orphans) && |rendered| == |now|
    requires forall i :: 0 <= i < |now| ==> now[i].staged.None? && now[i].backup.None? && rendered[i].target == now[i].target
    requires n in d.names && d.names[n] in d0.bytes
    ensures exists m :: m in d0.names && d0.names[m] == d.names[n] &&
              (!StaysNew(rendered, Flags(now), m) || (m.Plain? && BackupLeft(orphans, m.path)))
  {
    if n in orphans {
      assert OrphanOk(d0, d, n);
      assert BackupLeft(orphans, n.target);
      assert Plain(n.target) in d0.names;
    } else {
      assert !StaysNew(rendered, Flags(now), n) by {
        forall i | 0 <= i < |now| && now[i].published
          ensures n != Plain(now[i].target)
        {
          assert OutputInv(d0, d, now[i]);
        }
      }
      NotNewIsSame(d0, d, now, orphans, rendered, n);
    }
  }

  lemma NotNewIsSame(d0: Disk, d: Disk, now: seq<Prepared>, orphans: set<Name>, rendered: seq<Rendered>, n: Name)
    requires TxInv(d0, d, now, orphans) && |rendered| == |now| && n !in orphans && !StaysNew(rendered, Flags(now), n)
    requires forall i :: 0 <= i < |now| ==> now[i].staged.None? && now[i].backup.None? && rendered[i].target == now[i].target
    ensures SameEntry(d0, d, n)
  {
    if i :| 0 <= i < |now| && Owns(now[i], n) {
      assert OutputInv(d0, d, now[i]);
      assert !now[i].published;
    }
  }

  lemma KeptBy(d0: Disk, d: Disk, now: seq<Prepared>, orphans: set<Name>, rendered: seq<Rendered>, m: Name)
    requires TxInv(d0, d, now, orphans) && |rendered| == |now| && m in d0.names
    requires forall i :: 0 <= i < |now| ==> now[i].staged.None? && now[i].backup.None? && rendered[i].target == now[i].target
    requires !StaysNew(rendered, Flags(now), m) || (m.Plain? && BackupLeft(orphans, m.path))
    ensures Bound(d, d0.names[m])
  {
    if m.Plain? && BackupLeft(orphans, m.path) {
      var n :| n in orphans && n.Temporary? && n.purpose == Backup && n.target == m.path;
      assert OrphanOk(d0, d, n);
    } else {
      assert m in orphans ==> OrphanOk(d0, d, m);
      NotNewIsSame(d0, d, now, orphans, rendered, m);
    }
  }

  /** A target with no other hard link keeps its old contents somewhere exactly if it is not
      left published or its backup could not be removed. */
  lemma OldContentsKept(d0: Disk, d: Disk, rendered: seq<Rendered>, published: seq<bool>, orphans: set<Name>, i: nat)
    requires i < |rendered| == |published| && DistinctTargets(rendered) && Plain(rendered[i].target) in d0.names
    requires forall m :: m in d0.names && d0.names[m] == d0.names[Plain(rendered[i].target)] ==> m == Plain(rendered[i].target)
    requires KeptExactly(d0, d, rendered, published, orphans, d0.names[Plain(rendered[i].target)])
    ensures Bound(d, d0.names[Plain(rendered[i].target)]) <==> !published[i] || BackupLeft(orphans, rendered[i].target)
  {
    var t := Plain(rendered[i].target);
    assert StaysNew(rendered, published, t) <==> published[i];
    hide StaysNew, BackupLeft, Bound;
  }

  /** Replaces all targets or none. Whatever operations fail, every target holds its full
      old or full new contents after every operation. */
  method Generate(fs: FileSystem, rendered: seq<Rendered>, sequence: nat)
    returns (outcome: Outcome, ghost orphans: set<Name>, ghost published: seq<bool>, ghost cleanup: nat, ghost cleaned: bool)
    requires WellFormed(fs.disk) && DistinctTargets(rendered)
    modifies fs
    ensures old(fs.history) <= fs.history
    ensures forall k :: |old(fs.history)| <= k < |fs.history| ==> EachOldOrNew(old(fs.disk), fs.history[k], rendered)
    ensures EachOldOrNew(old(fs.disk), fs.disk, rendered)
    ensures forall n :: n !in orphans && !IsTarget(rendered, n) ==> AsBefore(old(fs.disk), fs.disk, n)
    ensures forall n :: n in orphans ==> n.Temporary? && n !in old(fs.disk).names
    // Each target by itself.
    ensures |published| == |rendered|
    ensures forall i :: 0 <= i < |rendered| && published[i] ==> Read(fs.disk, Plain(rendered[i].target)) == Some(rendered[i].bytes)
    ensures forall i :: 0 <= i < |rendered| && !published[i] ==> AsBefore(old(fs.disk), fs.disk, Plain(rendered[i].target))
    // The outcomes.
    ensures Reports(outcome, cleaned, published)
    ensures old(fs.ticks) <= cleanup <= fs.ticks && (cleaned <==> Quiet(fs.schedule, cleanup, fs.ticks - cleanup))
    ensures outcome.Ok? ==> orphans == {} && Quiet(fs.schedule, old(fs.ticks), fs.ticks - old(fs.ticks))
    ensures cleaned ==> AtMostOneStaged(orphans)
    // Where the old contents are.
    ensures forall inode :: inode in old(fs.disk).bytes ==> KeptExactly(old(fs.disk), fs.disk, rendered, published, orphans, inode)
    // What the schedule decides.
    ensures !Quiet(fs.schedule, old(fs.ticks), Prelude(Plan(old(fs.disk), rendered))) ==>
              forall i :: 0 <= i < |rendered| ==> !published[i]
    ensures NamesFree(old(fs.disk)) && Quiet(fs.schedule, old(fs.ticks), Prelude(Plan(old(fs.disk), rendered))) ==>
              && Settled(fs.schedule, old(fs.ticks) + Prelude(Plan(old(fs.disk), rendered)), published, cleanup)
              && (cleaned ==> orphans == {})
    ensures NamesFree(old(fs.disk)) && NeverFails(fs.schedule) ==> outcome.Ok?
  {
    hide TxInv, SamePlan, HistoryOk, EachOldOrNew, AsBefore, KeptExactly, Settled, Reports, Quiet, Stuck, AllTemporaries,
      AtMostOneStaged, Prelude, NamesFree;
    ghost var d0, past, plan := fs.disk, fs.history, Plan(fs.disk, rendered);
    var names := fs.disk.names;
    var outputs := new Prepared[|rendered|](i requires 0 <= i < |rendered| =>
      Prepared(rendered[i].target, rendered[i].bytes, None, None, Plain(rendered[i].target) in names, false));
    PlanInv(d0, rendered);
    assert outputs[..] == plan;
    outcome, orphans := StageAndPublish(fs, outputs, sequence, past, d0, plan);
    published, cleanup := Flags(outputs[..]), fs.ticks;
    ghost var left, lost := AllTemporaries(outputs[..]), orphans;
    var ok: bool;
    ok, orphans := CleanupAll(fs, outputs, past, d0, plan, orphans);
    cleaned := ok;
    QuietSticksNothing(fs.schedule, cleanup, left);
    QuietParts(fs.schedule, cleanup, |left|, 0);
    if ok {
      assert orphans == lost;
      QuietParts(fs.schedule, old(fs.ticks), cleanup - old(fs.ticks), |left|);
    } else {
      ReportsUncleaned(outcome, published);
      outcome := RollbackError;
    }
    assert published == Flags(outputs[..]);
    CleanedUp(d0, fs.disk, outputs[..], orphans, rendered);
    KeptInodes(d0, fs.disk, outputs[..], orphans, rendered);
    HistoryMeaning(fs.history, past, d0, rendered);
  }

  // ----- Old contents lost -----

  /** The second publication and the taking back of the first fail. */
  function FailTwice(): nat -> Option<nat> {
    t => if t == 9 || t == 10 then Some(0) else None
  }

  lemma PreludeIsEight(before: Disk, rendered: seq<Rendered>)
    requires before.names.Keys == {Plain("a"), Plain("b")} && rendered == [Rendered("a", [20]), Rendered("b", [21])]
    ensures Prelude(Plan(before, rendered)) == 8
  {
    var plan := Plan(before, rendered);
    assert plan[0].existed && plan[1].existed;
    assert Existing(plan, 0) == 0 && Existing(plan, 1) == 1 && Existing(plan, 2) == 2;
  }

  lemma SettledTwice(flags: seq<bool>, until: nat)
    requires |flags| == 2 && Settled(FailTwice(), 8, flags, until)
    ensures flags == [true, false] && until == 11
  {
    assert FailTwice()(9).Some? && FailTwice()(8).None?;
  }

  /** After a failed rollback the cleanup removes a backup that was still needed: the first
      target is new, the second old, and the old contents of the first have no name left. */
  method BackupLost() returns (outcome: Outcome, disk: Disk)
    ensures outcome.RollbackError?
    ensures Read(disk, Plain("a")) == Some([20]) && Read(disk, Plain("b")) == Some([11])
    ensures !Bound(disk, 0)
  {
    var before := Disk(map[Plain("a") := 0, Plain("b") := 1], map[0 := [10], 1 := [11]]);
    var rendered := [Rendered("a", [20]), Rendered("b", [21])];
    var fs := new FileSystem(before, FailTwice());
    ghost var orphans: set<Name>, published: seq<bool>, cleanup: nat, cleaned: bool;
    assert rendered[0].target != rendered[1].target;
    outcome, orphans, published, cleanup, cleaned := Generate(fs, rendered, 0);
    disk := fs.disk;
    PreludeIsEight(before, rendered);
    SettledTwice(published, cleanup);
    assert KeptExactly(before, disk, rendered, published, orphans, 0);
    OldContentsKept(before, disk, rendered, published, orphans, 0);
  }
}
