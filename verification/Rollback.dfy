/** Installing an update file by file, and putting the old files back
    (internal/update/install.go).  Every operation may fail; a failed copy may leave
    part of the file behind. */
module Rollback {
  import opened Options

  type Name = nat
  type Content = seq<nat>

  datatype File = File(content: Content, exec: bool)

  type Files = map<Name, File>

  /** How the work on one file goes in `install`. */
  datatype Act =
    | Done
    | StopsBefore                            // making the backup directory fails
    | BackupCut(left: Option<Content>)       // the backup copy fails, leaving nothing or a part
    | StopsBetween                           // making the target directory fails
    | ReplaceFails                           // the new file cannot be put in place

  datatype Disk = Disk(root: Files, backup: Files)

  /** A copy does not carry the executable bit over. */
  function Copied(f: File): File {
    File(f.content, false)
  }

  /** One file of `install`: the disk afterwards, and whether to go on. */
  function InstallOne(d: Disk, staged: Files, name: Name, act: Act): (Disk, bool) {
    if act == StopsBefore && name in d.root then (d, false)
    else if act.BackupCut? && name in d.root then
      (if act.left.None? then d else d.(backup := d.backup[name := File(act.left.value, false)]), false)
    else
      var saved := if name in d.root then d.(backup := d.backup[name := Copied(d.root[name])]) else d;
      if act == Done && name in staged then (saved.(root := saved.root[name := staged[name]]), true)
      else (saved, false)
  }

  function InstallAll(d: Disk, staged: Files, files: seq<Name>, acts: seq<Act>): (Disk, bool)
    requires |files| == |acts|
    decreases |files|
  {
    if files == [] then (d, true)
    else
      var (next, on) := InstallOne(d, staged, files[0], acts[0]);
      if on then InstallAll(next, staged, files[1..], acts[1..]) else (next, false)
  }

  /** One file of `restore`. */
  function RestoreOne(d: Disk, name: Name, fails: bool): Disk {
    if name !in d.backup || fails then d else d.(root := d.root[name := d.backup[name]])
  }

  function RestoreAll(d: Disk, files: seq<Name>, failing: set<Name>): Disk
    decreases |files|
  {
    if files == [] then d else RestoreAll(RestoreOne(d, files[0], files[0] in failing), files[1..], failing)
  }

  // ----- The loops -----

  class FileSystem {
    var root: Files
    var backup: Files

    constructor (root: Files)
      ensures View() == Disk(root, map[])
    {
      this.root, backup := root, map[];
    }

    function View(): Disk
      reads this
    {
      Disk(root, backup)
    }

    method Install(staged: Files, files: seq<Name>, acts: seq<Act>) returns (ok: bool)
      requires |files| == |acts|
      modifies this
      ensures (View(), ok) == InstallAll(old(View()), staged, files, acts)
    {
      assert files[0..] == files && acts[0..] == acts;
      for i := 0 to |files|
        invariant InstallAll(old(View()), staged, files, acts) == InstallAll(View(), staged, files[i..], acts[i..])
      {
        var name, act := files[i], acts[i];
        assert files[i..][0] == name && files[i..][1..] == files[i + 1..];
        assert acts[i..][0] == act && acts[i..][1..] == acts[i + 1..];
        if name in root {
          if act == StopsBefore {
            return false;
          }
          if act.BackupCut? {
            if act.left.Some? {
              backup := backup[name := File(act.left.value, false)];
            }
            return false;
          }
          backup := backup[name := Copied(root[name])];
        }
        if act != Done || name !in staged {
          return false;
        }
        root := root[name := staged[name]];
      }
      ok := true;
    }

    /** Goes on past a file that cannot be put back, and reports the first. */
    method Restore(files: seq<Name>, failing: set<Name>) returns (failed: Option<Name>)
      modifies this
      ensures View() == RestoreAll(old(View()), files, failing)
      ensures backup == old(backup)
      ensures failed.None? <==> forall n :: n in files && n in backup ==> n !in failing
    {
      failed := None;
      assert files[0..] == files;
      for i := 0 to |files|
        invariant RestoreAll(old(View()), files, failing) == RestoreAll(View(), files[i..], failing)
        invariant backup == old(backup)
        invariant failed.None? <==> forall j :: 0 <= j < i && files[j] in backup ==> files[j] !in failing
      {
        var name := files[i];
        assert files[i..][0] == name && files[i..][1..] == files[i + 1..];
        if name !in backup {
          continue;
        }
        if name in failing {
          if failed.None? {
            failed := Some(name);
          }
          continue;
        }
        root := root[name := backup[name]];
      }
    }
  }

  // ----- What an interrupted install leaves -----

  ghost predicate DistinctNames(files: seq<Name>) {
    forall i, j :: 0 <= i < j < |files| ==> files[i] != files[j]
  }

  /** Every file that was there is there unchanged, or its contents are saved; `cut` names
      the one file, if any, whose backup is only a part. */
  ghost predicate Recoverable(orig: Files, d: Disk, cut: Option<Name>) {
    && (forall n :: n in orig ==> n in d.root)
    && (forall n :: n in orig && d.root[n] != orig[n] ==> n in d.backup && cut != Some(n))
    && (forall n :: n in d.backup ==> n in orig && (cut != Some(n) ==> d.backup[n] == Copied(orig[n])))
  }

  /** Files still to be worked on are as they were and have no backup. */
  ghost predicate Untouched(orig: Files, d: Disk, names: seq<Name>) {
    forall n :: n in names ==> n !in d.backup && (n in orig <==> n in d.root) && (n in orig ==> d.root[n] == orig[n])
  }

  /** The file whose backup copy is cut part way, if the install stops at one. */
  function CutFile(d: Disk, staged: Files, files: seq<Name>, acts: seq<Act>): Option<Name>
    requires |files| == |acts|
    decreases |files|
  {
    if files == [] then None
    else if acts[0].BackupCut? && acts[0].left.Some? && files[0] in d.root then Some(files[0])
    else
      var (next, on) := InstallOne(d, staged, files[0], acts[0]);
      if on then CutFile(next, staged, files[1..], acts[1..]) else None
  }

  lemma {:induction false} InstallRecoverable(orig: Files, d: Disk, staged: Files, files: seq<Name>, acts: seq<Act>)
    requires |files| == |acts| && DistinctNames(files)
    requires Recoverable(orig, d, None) && Untouched(orig, d, files)
    ensures var (after, _) := InstallAll(d, staged, files, acts);
            Recoverable(orig, after, CutFile(d, staged, files, acts))
    decreases |files|
  {
    if files != [] {
      var (next, on) := InstallOne(d, staged, files[0], acts[0]);
      if on {
        var rest := files[1..];
        assert forall i :: 0 <= i < |rest| ==> rest[i] == files[i + 1];
        assert files[0] in files;
        forall n | n in rest
          ensures n !in next.backup && (n in orig <==> n in next.root) && (n in orig ==> next.root[n] == orig[n])
        {
          assert n in files;
          var i :| 0 <= i < |rest| && rest[i] == n;
          assert n != files[0];
        }
        InstallRecoverable(orig, next, staged, rest, acts[1..]);
      } else {
        assert files[0] in files;
      }
    }
  }

  /** WHAT A RESTORE DOES TO EACH FILE, others' failures notwithstanding: a listed file with a
      backup that can be put back is its backup, and every other file stays as it was. */
  lemma {:induction false} RestoreEachPast(d: Disk, files: seq<Name>, failing: set<Name>, n: Name)
    ensures var after := RestoreAll(d, files, failing);
            && after.backup == d.backup
            && (n in files && n in d.backup && n !in failing ==> n in after.root && after.root[n] == d.backup[n])
            && (n !in files || n !in d.backup || n in failing ==>
                  (n in after.root <==> n in d.root) && (n in d.root ==> after.root[n] == d.root[n]))
    decreases |files|
  {
    if files != [] {
      RestoreEachPast(RestoreOne(d, files[0], files[0] in failing), files[1..], failing, n);
      assert n in files <==> n == files[0] || n in files[1..];
    }
  }

  lemma RestoreEach(d: Disk, files: seq<Name>, n: Name)
    ensures var after := RestoreAll(d, files, {});
            && after.backup == d.backup
            && (n in files && n in d.backup ==> n in after.root && after.root[n] == d.backup[n])
            && (n !in files || n !in d.backup ==>
                  (n in after.root <==> n in d.root) && (n in d.root ==> after.root[n] == d.root[n]))
  {
    RestoreEachPast(d, files, {}, n);
  }

  lemma {:induction false} OutsideUntouched(d: Disk, staged: Files, files: seq<Name>, acts: seq<Act>, n: Name)
    requires |files| == |acts| && n !in files
    ensures var (after, _) := InstallAll(d, staged, files, acts);
            && (n in after.root <==> n in d.root) && (n in d.root ==> after.root[n] == d.root[n])
            && (n in after.backup <==> n in d.backup)
    decreases |files|
  {
    if files != [] {
      var (next, on) := InstallOne(d, staged, files[0], acts[0]);
      assert n != files[0];
      if on {
        OutsideUntouched(next, staged, files[1..], acts[1..], n);
      }
    }
  }

  /** The disk after an install that stopped wherever it did, or finished, and a restore in
      which every file could be put back. */
  function RolledBack(orig: Files, staged: Files, files: seq<Name>, acts: seq<Act>): Files
    requires |files| == |acts|
  {
    RestoreAll(InstallAll(Disk(orig, map[]), staged, files, acts).0, files, {}).root
  }

  /** ROLLBACK.  Wherever the install stops, a restore that succeeds gives every file that
      was there its contents back - unless the install stopped in a backup copy that left
      part of the file, which is then put in the file's place - and files outside the
      list are not touched. */
  lemma RollbackRestores(orig: Files, staged: Files, files: seq<Name>, acts: seq<Act>, n: Name)
    requires |files| == |acts| && DistinctNames(files)
    ensures var after := RolledBack(orig, staged, files, acts);
            var cut := CutFile(Disk(orig, map[]), staged, files, acts);
            && (n in orig ==> n in after)
            && (n in orig && cut != Some(n) ==> after[n].content == orig[n].content)
            && (n !in files ==> (n in after <==> n in orig) && (n in orig ==> after[n] == orig[n]))
  {
    var start := Disk(orig, map[]);
    InstallRecoverable(orig, start, staged, files, acts);
    var d := InstallAll(start, staged, files, acts).0;
    RestoreEach(d, files, n);
    if n !in files {
      OutsideUntouched(start, staged, files, acts, n);
    }
  }

  // ----- How far the install came -----

  /** Files `0..i` were all put in place. */
  predicate Reaches(staged: Files, files: seq<Name>, acts: seq<Act>, i: nat)
    requires |files| == |acts| && i <= |files|
  {
    forall j :: 0 <= j < i ==> acts[j] == Done && files[j] in staged
  }

  /** File `i` came to be saved, whole or in part. */
  predicate SavedAt(staged: Files, files: seq<Name>, acts: seq<Act>, i: nat)
    requires |files| == |acts| && i < |files|
  {
    Reaches(staged, files, acts, i) && acts[i] != StopsBefore && acts[i] != BackupCut(None)
  }

  lemma ReachesTail(staged: Files, files: seq<Name>, acts: seq<Act>, i: nat)
    requires |files| == |acts| && 0 < i <= |files|
    ensures Reaches(staged, files, acts, i) <==>
              Reaches(staged, files, acts, 1) && Reaches(staged, files[1..], acts[1..], i - 1)
  {
    var rest, acts' := files[1..], acts[1..];
    assert forall j :: 0 <= j < |rest| ==> rest[j] == files[j + 1] && acts'[j] == acts[j + 1];
    assert forall j :: 0 < j < |files| ==> files[j] == rest[j - 1] && acts[j] == acts'[j - 1];
  }

  lemma DistinctTail(files: seq<Name>)
    requires files != [] && DistinctNames(files)
    ensures DistinctNames(files[1..]) && files[0] !in files[1..]
  {
  }

  /** Which file of the list, if any, one name is. */
  lemma IndexInTail(files: seq<Name>, n: Name, i: nat)
    requires files != [] && DistinctNames(files) && i < |files| && files[i] == n
    ensures n == files[0] <==> i == 0
    ensures i > 0 ==> files[1..][i - 1] == n
  {
  }

  /** A file, wherever it stands in the list, is in place afterwards if it was there or the
      install came past it. */
  lemma {:induction false} InRootIff(d: Disk, staged: Files, files: seq<Name>, acts: seq<Act>, i: nat)
    requires |files| == |acts| && DistinctNames(files) && i < |files|
    ensures var after, n := InstallAll(d, staged, files, acts).0, files[i];
            && (n in after.root <==> n in d.root || Reaches(staged, files, acts, i + 1))
            && (Reaches(staged, files, acts, i + 1) ==> after.root[n] == staged[n])
    decreases |files|
  {
    var n := files[i];
    var (next, on) := InstallOne(d, staged, files[0], acts[0]);
    var rest, acts' := files[1..], acts[1..];
    DistinctTail(files);
    IndexInTail(files, n, i);
    ReachesTail(staged, files, acts, i + 1);
    if on {
      if i == 0 {
        OutsideUntouched(next, staged, rest, acts', n);
      } else {
        InRootIff(next, staged, rest, acts', i - 1);
      }
    }
  }

  /** It has a backup if it had one, or was there when the install came to saving it. */
  lemma {:induction false} InBackupIff(d: Disk, staged: Files, files: seq<Name>, acts: seq<Act>, i: nat)
    requires |files| == |acts| && DistinctNames(files) && i < |files|
    ensures var after, n := InstallAll(d, staged, files, acts).0, files[i];
            n in after.backup <==> n in d.backup || (n in d.root && SavedAt(staged, files, acts, i))
    decreases |files|
  {
    var n := files[i];
    var (next, on) := InstallOne(d, staged, files[0], acts[0]);
    var rest, acts' := files[1..], acts[1..];
    DistinctTail(files);
    IndexInTail(files, n, i);
    if i > 0 {
      ReachesTail(staged, files, acts, i);
      assert acts'[i - 1] == acts[i];
    }
    if on {
      if i == 0 {
        OutsideUntouched(next, staged, rest, acts', n);
      } else {
        InBackupIff(next, staged, rest, acts', i - 1);
      }
    }
  }

  /** EXACTLY WHICH NEW FILES STAY after rolling back, in their new version: those the install
      had put in place. */
  lemma NewFileStaysIff(orig: Files, staged: Files, files: seq<Name>, acts: seq<Act>, i: nat)
    requires |files| == |acts| && DistinctNames(files) && i < |files| && files[i] !in orig
    ensures var after := RolledBack(orig, staged, files, acts);
            && (files[i] in after <==> Reaches(staged, files, acts, i + 1))
            && (files[i] in after ==> after[files[i]] == staged[files[i]])
  {
    var start := Disk(orig, map[]);
    InstallRecoverable(orig, start, staged, files, acts);
    InRootIff(start, staged, files, acts, i);
    RestoreEach(InstallAll(start, staged, files, acts).0, files, files[i]);
  }

  lemma {:induction false} CutBackupContents(orig: Files, d: Disk, staged: Files, files: seq<Name>, acts: seq<Act>, i: nat)
    requires |files| == |acts| && DistinctNames(files) && i < |files|
    requires forall j :: 0 <= j < i ==> acts[j] == Done && files[j] in staged
    requires acts[i].BackupCut? && acts[i].left.Some? && files[i] in d.root
    ensures CutFile(d, staged, files, acts) == Some(files[i])
    ensures files[i] in InstallAll(d, staged, files, acts).0.backup
    ensures InstallAll(d, staged, files, acts).0.backup[files[i]].content == acts[i].left.value
    decreases |files|
  {
    if i > 0 {
      var (next, on) := InstallOne(d, staged, files[0], acts[0]);
      var rest, acts' := files[1..], acts[1..];
      assert acts[0] == Done && files[0] in staged;
      assert forall j :: 0 <= j < |rest| ==> rest[j] == files[j + 1] && acts'[j] == acts[j + 1];
      assert files[0] != files[i];
      CutBackupContents(orig, next, staged, rest, acts', i - 1);
    }
  }

  /** EXACTLY WHEN A CUT BACKUP DOES HARM: the file the copy stopped at ends up holding what
      the copy left, so it is restored if and only if the part left is the whole. */
  lemma CutBackupHarms(orig: Files, staged: Files, files: seq<Name>, acts: seq<Act>, i: nat)
    requires |files| == |acts| && DistinctNames(files) && i < |files|
    requires forall j :: 0 <= j < i ==> acts[j] == Done && files[j] in staged
    requires acts[i].BackupCut? && acts[i].left.Some? && files[i] in orig
    ensures var after := RolledBack(orig, staged, files, acts);
            files[i] in after
            && (after[files[i]].content == orig[files[i]].content <==> acts[i].left.value == orig[files[i]].content)
  {
    var start := Disk(orig, map[]);
    CutBackupContents(orig, start, staged, files, acts, i);
    RestoreEach(InstallAll(start, staged, files, acts).0, files, files[i]);
  }

  /** EXACTLY WHICH FILES COME BACK AS THEY WERE, permissions and all, leaving aside one whose
      backup was cut: those that were not executable, or that the install had not come to
      saving.  Backups are written without the bit, and the restore takes it from them. */
  lemma ExecBitLostIff(orig: Files, staged: Files, files: seq<Name>, acts: seq<Act>, i: nat)
    requires |files| == |acts| && DistinctNames(files) && i < |files| && files[i] in orig
    requires CutFile(Disk(orig, map[]), staged, files, acts) != Some(files[i])
    ensures var after := RolledBack(orig, staged, files, acts);
            && files[i] in after
            && (after[files[i]] == orig[files[i]] <==> !orig[files[i]].exec || !SavedAt(staged, files, acts, i))
  {
    var start, n := Disk(orig, map[]), files[i];
    InstallRecoverable(orig, start, staged, files, acts);
    InBackupIff(start, staged, files, acts, i);
    RestoreEach(InstallAll(start, staged, files, acts).0, files, n);
  }
}
