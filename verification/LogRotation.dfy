/**
 Size-based rotation of the audit log: the current file becomes backup 1, backup i becomes
 backup i + 1, and the oldest is dropped.  Files are sequences of whole written lines.
 */
module LogRotation {
  import opened Prelude

  newtype byte = x: int | 0 <= x < 256

  /** A written line, newline included. */
  datatype Line = Line(bytes: seq<byte>)

  type File = seq<Line>

  function Size(f: File): nat {
    if f == [] then 0 else Size(f[..|f| - 1]) + |f[|f| - 1].bytes|
  }

  /** What is in the file, byte by byte. */
  function Bytes(f: File): seq<byte> {
    if f == [] then [] else f[0].bytes + Bytes(f[1..])
  }

  lemma {:induction false} SizeIsBytes(f: File)
    ensures Size(f) == |Bytes(f)|
  {
    if f != [] {
      assert f == [f[0]] + f[1..] && [f[0]][..0] == [];
      SizeAppend([f[0]], f[1..]);
      SizeIsBytes(f[1..]);
    }
  }

  lemma {:induction false} SizeAppend(f: File, g: File)
    ensures Size(f + g) == Size(f) + Size(g)
  {
    if g == [] {
      assert f + g == f;
    } else {
      assert (f + g)[..|f + g| - 1] == f + g[..|g| - 1];
      SizeAppend(f, g[..|g| - 1]);
    }
  }

  /** With a backup count of 0 the source still keeps (and overwrites) backup 1. */
  function Keep(backupCount: nat): nat {
    Max(backupCount, 1)
  }

  ghost predicate Stays(before: map<int, File>, after: map<int, File>, i: int) {
    (i in after <==> i in before) && (i in after ==> after[i] == before[i])
  }

  /** Backup `i` is what backup `i - 1` was. */
  ghost predicate Moves(before: map<int, File>, after: map<int, File>, i: int) {
    (i in after <==> i - 1 in before) && (i in after ==> after[i] == before[i - 1])
  }

  /** What one rotation does to the backups. */
  ghost predicate Rotates(before: map<int, File>, after: map<int, File>, backupCount: nat, current: File) {
    && 1 in after && after[1] == current
    && (forall i :: 2 <= i <= backupCount ==> Moves(before, after, i))
    && (forall i :: i <= 0 || i > Keep(backupCount) ==> Stays(before, after, i))
  }

  /** Backups `depth` down to 1, oldest line first. */
  ghost function Joined(backups: map<int, File>, depth: nat): File
    requires forall i :: 1 <= i <= depth ==> i in backups
  {
    if depth == 0 then [] else backups[depth] + Joined(backups, depth - 1)
  }

  ghost predicate Contiguous(backups: map<int, File>, depth: nat) {
    forall i :: i in backups <==> 1 <= i <= depth
  }

  /** A file passed the threshold with its last line, if at all. */
  predicate PassedByLastLine(f: File, threshold: int) {
    f == [] || Size(f[..|f| - 1]) < threshold
  }

  function Lines(current: Option<File>): File {
    match current case None => [] case Some(f) => f
  }

  /** `dropped` is what rotation has deleted so far; everything else is still on disk, in order. */
  ghost predicate Consistent(
      threshold: int, backupCount: nat, current: Option<File>, backups: map<int, File>, depth: nat,
      dropped: File, written: File)
  {
    && depth <= Keep(backupCount)
    && Contiguous(backups, depth)
    && written == dropped + (Joined(backups, depth) + Lines(current))
    && (depth < Keep(backupCount) ==> dropped == [])
    && (forall i :: i in backups ==> Size(backups[i]) >= threshold && PassedByLastLine(backups[i], threshold))
    && (threshold > 0 ==> PassedByLastLine(Lines(current), threshold))
    && (threshold <= 0 ==> depth == 0)
  }

  lemma {:induction false} JoinedShifts(
      before: map<int, File>, after: map<int, File>, backupCount: nat, current: File, depth: nat)
    requires Rotates(before, after, backupCount, current)
    requires depth + 1 <= Keep(backupCount) && forall i :: 1 <= i <= depth ==> i in before
    ensures forall i :: 1 <= i <= depth + 1 ==> i in after
    ensures Joined(after, depth + 1) == Joined(before, depth) + current
  {
    if depth == 0 {
      assert Joined(after, 0) == [];
    } else {
      JoinedShifts(before, after, backupCount, current, depth - 1);
      var i := depth + 1;
      assert 2 <= i <= backupCount && Moves(before, after, i);
      Associate(before[depth], Joined(before, depth - 1), current);
    }
  }

  /** Rotation keeps the disk consistent; only a full set of backups loses its oldest. */
  lemma RotationConsistent(
      threshold: int, backupCount: nat, current: File, before: map<int, File>, after: map<int, File>,
      depth: nat, dropped: File, written: File)
    requires Consistent(threshold, backupCount, Some(current), before, depth, dropped, written)
    requires threshold > 0 && Size(current) >= threshold && Rotates(before, after, backupCount, current)
    ensures depth < Keep(backupCount) ==>
              Consistent(threshold, backupCount, None, after, depth + 1, dropped, written)
    ensures depth == Keep(backupCount) ==>
              Consistent(threshold, backupCount, None, after, depth, dropped + before[depth], written)
  {
    ContiguousAfter(before, after, backupCount, current, depth);
    RotatedSizes(threshold, before, after, backupCount, current, depth);
    if depth < Keep(backupCount) {
      RotationGrows(backupCount, current, before, after, depth, dropped, written);
    } else {
      RotationDrops(backupCount, current, before, after, depth, dropped, written);
    }
  }

  lemma RotationGrows(
      backupCount: nat, current: File, before: map<int, File>, after: map<int, File>, depth: nat,
      dropped: File, written: File)
    requires Rotates(before, after, backupCount, current) && depth < Keep(backupCount) && Contiguous(before, depth)
    requires written == dropped + (Joined(before, depth) + current)
    ensures forall i :: 1 <= i <= depth + 1 ==> i in after
    ensures written == dropped + (Joined(after, depth + 1) + [])
  {
    JoinedShifts(before, after, backupCount, current, depth);
    NothingAfter(Joined(before, depth) + current);
  }

  lemma RotationDrops(
      backupCount: nat, current: File, before: map<int, File>, after: map<int, File>, depth: nat,
      dropped: File, written: File)
    requires Rotates(before, after, backupCount, current) && depth == Keep(backupCount) && Contiguous(before, depth)
    requires written == dropped + (Joined(before, depth) + current)
    ensures forall i :: 1 <= i <= depth ==> i in after
    ensures written == (dropped + before[depth]) + (Joined(after, depth) + [])
  {
    JoinedShifts(before, after, backupCount, current, depth - 1);
    Regroup(dropped, before[depth], Joined(before, depth - 1), current);
  }

  lemma NothingAfter(f: File)
    ensures f + [] == f
  {}

  lemma Associate(a: File, b: File, c: File)
    ensures a + (b + c) == (a + b) + c
  {}

  lemma Regroup(a: File, b: File, c: File, d: File)
    ensures a + ((b + c) + d) == (a + b) + ((c + d) + [])
  {}

  lemma RotatedSizes(
      threshold: int, before: map<int, File>, after: map<int, File>, backupCount: nat, current: File, depth: nat)
    requires Rotates(before, after, backupCount, current)
    requires Contiguous(before, depth) && depth <= Keep(backupCount)
    requires Size(current) >= threshold && PassedByLastLine(current, threshold)
    requires forall i :: i in before ==> Size(before[i]) >= threshold && PassedByLastLine(before[i], threshold)
    ensures forall i :: i in after ==> Size(after[i]) >= threshold && PassedByLastLine(after[i], threshold)
  {
    ContiguousAfter(before, after, backupCount, current, depth);
    forall i | i in after ensures Size(after[i]) >= threshold && PassedByLastLine(after[i], threshold) {
      assert i == 1 || (2 <= i <= backupCount && Moves(before, after, i));
    }
  }

  lemma ContiguousAfter(
      before: map<int, File>, after: map<int, File>, backupCount: nat, current: File, depth: nat)
    requires Rotates(before, after, backupCount, current)
    requires Contiguous(before, depth) && depth <= Keep(backupCount)
    ensures Contiguous(after, if depth < Keep(backupCount) then depth + 1 else depth)
  {
    var d := if depth < Keep(backupCount) then depth + 1 else depth;
    forall i ensures i in after <==> 1 <= i <= d {
      if 2 <= i <= backupCount {
        assert Moves(before, after, i);
      } else if i != 1 {
        assert Stays(before, after, i);
      }
    }
  }

  lemma {:induction false} JoinedSize(backups: map<int, File>, depth: nat, threshold: int)
    requires forall i :: 1 <= i <= depth ==> i in backups && Size(backups[i]) >= threshold
    ensures Size(Joined(backups, depth)) >= depth * threshold
  {
    if depth > 0 {
      JoinedSize(backups, depth - 1, threshold);
      SizeAppend(backups[depth], Joined(backups, depth - 1));
      assert depth * threshold == (depth - 1) * threshold + threshold;
    }
  }

  /**
   The lines still on disk are a suffix of everything written, and they hold all of it or at
   least the threshold times the number of backups.
   */
  lemma RetentionBound(
      threshold: int, backupCount: nat, current: Option<File>, backups: map<int, File>, depth: nat,
      dropped: File, written: File)
    requires Consistent(threshold, backupCount, current, backups, depth, dropped, written)
    ensures var retained := Joined(backups, depth) + Lines(current);
            && |retained| <= |written| && retained == written[|written| - |retained|..]
            && |Bytes(retained)| >= Min(|Bytes(written)|, Keep(backupCount) * threshold)
  {
    RetainedSuffix(threshold, backupCount, current, backups, depth, dropped, written);
    SizeIsBytes(Joined(backups, depth) + Lines(current));
    SizeIsBytes(written);
  }

  lemma RetainedSuffix(
      threshold: int, backupCount: nat, current: Option<File>, backups: map<int, File>, depth: nat,
      dropped: File, written: File)
    requires Consistent(threshold, backupCount, current, backups, depth, dropped, written)
    ensures var retained := Joined(backups, depth) + Lines(current);
            && |retained| <= |written| && retained == written[|written| - |retained|..]
            && Size(retained) >= Min(Size(written), Keep(backupCount) * threshold)
  {
    var joined := Joined(backups, depth);
    var retained := joined + Lines(current);
    SizeAppend(joined, Lines(current));
    if depth < Keep(backupCount) {
      assert written == retained;
    } else {
      JoinedSize(backups, depth, threshold);
    }
  }

  class LogWriter {
    const threshold: int
    const backupCount: nat
    var current: Option<File>
    var backups: map<int, File>
    ghost var depth: nat
    ghost var dropped: File
    ghost var written: File

    ghost predicate Valid()
      reads this
    {
      Consistent(threshold, backupCount, current, backups, depth, dropped, written)
    }

    constructor (logRotationBytes: int, logBackupCount: nat)
      ensures Valid() && written == []
      ensures threshold == logRotationBytes && backupCount == logBackupCount
    {
      threshold, backupCount := logRotationBytes, logBackupCount;
      current, backups := None, map[];
      depth, dropped, written := 0, [], [];
    }

    method Write(line: Line)
      requires Valid()
      modifies this
      ensures Valid() && written == old(written) + [line]
      ensures current.Some? && current.value != [] && current.value[|current.value| - 1] == line
      ensures old(dropped) <= dropped
      ensures var before := Lines(old(current));
              Lines(current) == if 0 < threshold <= |Bytes(before)| then [line] else before + [line]
    {
      RotateIfNeeded();
      var file := Lines(current);
      AppendConsistent(threshold, backupCount, current, backups, depth, dropped, written, line);
      current := Some(file + [line]);
      written := written + [line];
    }

    method RotateIfNeeded()
      requires Valid()
      modifies this
      ensures Valid() && written == old(written) && old(dropped) <= dropped
      ensures threshold > 0 ==> Size(Lines(current)) < threshold
      ensures threshold <= 0 || |Bytes(Lines(old(current)))| < threshold ==>
                current == old(current) && backups == old(backups)
      ensures threshold > 0 && |Bytes(Lines(old(current)))| >= threshold ==>
                current == None && Rotates(old(backups), backups, backupCount, old(current).value)
    {
      SizeIsBytes(Lines(current));
      if threshold <= 0 {
        return;
      }
      if current.None? {
        return;
      }
      if Size(current.value) < threshold {
        return;
      }
      ghost var before, file := backups, current.value;
      RotateFiles();
      RotationConsistent(threshold, backupCount, file, before, backups, depth, dropped, written);
      if depth < Keep(backupCount) {
        depth := depth + 1;
      } else {
        dropped := dropped + before[depth];
      }
    }

    /** The renames themselves, oldest backup first. */
    method RotateFiles()
      requires current.Some? && forall i :: i in backups ==> i >= 1
      modifies this`current, this`backups
      ensures current == None && Rotates(old(backups), backups, backupCount, old(current).value)
    {
      ghost var before := backups;
      if backupCount in backups {
        backups := backups - {backupCount};
      }
      var i: int := backupCount - 1;
      while i > 0
        invariant i <= backupCount - 1 && (if backupCount > 0 then i >= 0 else i == -1)
        invariant current == old(current)
        invariant ShiftedDownTo(before, backups, backupCount, i + 1)
      {
        ShiftStep(before, backups, backupCount, i);
        if i in backups {
          var file := backups[i];
          backups := (backups - {i})[i + 1 := file];
        }
        i := i - 1;
      }
      ShiftDone(before, backups, backupCount, i + 1, current.value);
      backups := backups[1 := current.value];
      current := None;
    }
  }

  /** Mid-rotation: backups from `slot` up have moved one place, and `slot` itself is free. */
  ghost predicate ShiftedDownTo(before: map<int, File>, now: map<int, File>, backupCount: nat, slot: int) {
    && slot !in now
    && (forall i :: slot < i <= backupCount ==> Moves(before, now, i))
    && (forall i :: i < slot || i > backupCount ==> Stays(before, now, i))
  }

  lemma ShiftStep(before: map<int, File>, now: map<int, File>, backupCount: nat, i: int)
    requires 0 < i < backupCount && ShiftedDownTo(before, now, backupCount, i + 1)
    ensures ShiftedDownTo(before, if i in now then (now - {i})[i + 1 := now[i]] else now, backupCount, i)
  {
    assert Stays(before, now, i);
    var next := if i in now then (now - {i})[i + 1 := now[i]] else now;
    forall j | i < j <= backupCount ensures Moves(before, next, j) {
      assert j > i + 1 ==> Moves(before, now, j);
    }
    forall j | j < i || j > backupCount ensures Stays(before, next, j) {
      assert Stays(before, now, j);
    }
  }

  lemma ShiftDone(before: map<int, File>, now: map<int, File>, backupCount: nat, slot: int, current: File)
    requires ShiftedDownTo(before, now, backupCount, slot) && slot == (if backupCount > 0 then 1 else 0)
    requires forall i :: i in before ==> i >= 1
    ensures Rotates(before, now[1 := current], backupCount, current)
  {
    var next := now[1 := current];
    forall j | 2 <= j <= backupCount ensures Moves(before, next, j) {
      assert Moves(before, now, j);
    }
    forall j | j <= 0 || j > Keep(backupCount) ensures Stays(before, next, j) {
      assert j != slot ==> Stays(before, now, j);
    }
  }

  lemma AppendConsistent(
      threshold: int, backupCount: nat, current: Option<File>, backups: map<int, File>, depth: nat,
      dropped: File, written: File, line: Line)
    requires Consistent(threshold, backupCount, current, backups, depth, dropped, written)
    requires threshold > 0 ==> Size(Lines(current)) < threshold
    ensures Consistent(threshold, backupCount, Some(Lines(current) + [line]), backups, depth, dropped, written + [line])
  {
    var j, c := Joined(backups, depth), Lines(current);
    assert dropped + (j + (c + [line])) == (dropped + (j + c)) + [line];
    assert (c + [line])[..|c|] == c;
  }
}
