/**
  The rotating access-log writer (internal/accesslog/rotate.go), without I/O errors.  Files are
  numbered: 0 is the current file, i >= 1 is the backup `path.i`.
*/
module LogRotation {
  import opened Options

  type Bytes = seq<int>
  type Files = map<nat, Bytes>

  /** os.Rename: replaces the target; a missing source is an error that the writer ignores. */
  function Renamed(fs: Files, from: nat, to: nat): Files
    requires from != to
  {
    if from in fs then (fs - {from})[to := fs[from]] else fs
  }

  /** The shifting loop once i has come down to `low`: every backup in low..top has moved up by one. */
  function Shifted(fs: Files, top: nat, low: nat): Files
    decreases top - low
  {
    if low >= top then fs else Renamed(Shifted(fs, top, low + 1), low, low + 1)
  }

  function Rotated(fs: Files, maxFiles: nat): Files {
    var shifted := Shifted(fs, maxFiles, 1);
    (Renamed(shifted, 0, 1) - {maxFiles + 1})[0 := []]
  }

  datatype State = State(files: Files, size: int)

  function Write(w: State, maxBytes: int, maxFiles: nat, p: Bytes): State {
    var files := if w.size + |p| > maxBytes then Rotated(w.files, maxFiles) else w.files;
    var current := if 0 in files then files[0] else [];
    State(files[0 := current + p], |current| + |p|)
  }

  // ----- what a rotation does to each file -----

  /** Where the content of file j comes from after the loop: None when there is no file j. */
  function Source(fs: Files, top: nat, low: nat, j: nat): Option<nat> {
    if low < j <= top && j - 1 in fs then Some(j - 1)
    else if j in fs && (j < low || j >= top) then Some(j)
    else None
  }

  ghost predicate ComesFrom(fs': Files, fs: Files, j: nat, source: Option<nat>) {
    match source
    case None => j !in fs'
    case Some(i) => i in fs && j in fs' && fs'[j] == fs[i]
  }

  lemma {:induction false} ShiftedAt(fs: Files, top: nat, low: nat, j: nat)
    requires 1 <= low
    ensures ComesFrom(Shifted(fs, top, low), fs, j, Source(fs, top, low, j))
    decreases top - low
  {
    if low < top {
      ShiftedAt(fs, top, low + 1, j);
      ShiftedAt(fs, top, low + 1, low);
    }
  }

  /** Backup j comes from j - 1; the oldest stays only when nothing pushes it out. */
  lemma RotatedAt(fs: Files, maxFiles: nat, j: nat)
    requires 0 in fs && maxFiles >= 1 && 1 <= j <= maxFiles
    ensures ComesFrom(Rotated(fs, maxFiles), fs, j,
                      if j - 1 in fs then Some(j - 1) else if j == maxFiles && j in fs then Some(j) else None)
  {
    ShiftedAt(fs, maxFiles, 1, j);
    ShiftedAt(fs, maxFiles, 1, 0);
  }

  /** There is a new, empty current file, and nothing beyond the last backup that was not there before. */
  lemma RotatedEnds(fs: Files, maxFiles: nat, j: nat)
    requires 0 in fs && j > maxFiles
    ensures 0 in Rotated(fs, maxFiles) && Rotated(fs, maxFiles)[0] == []
    ensures j in Rotated(fs, maxFiles) ==> j in fs && j != maxFiles + 1
  {
    ShiftedAt(fs, maxFiles, 1, j);
    ShiftedAt(fs, maxFiles, 1, 0);
  }

  // ----- reading the log back -----

  function Content(fs: Files, i: nat): Bytes {
    if i in fs then fs[i] else []
  }

  /** The backups n, n - 1, ..., 1 and then the current file. */
  function ReadBack(fs: Files, n: nat): Bytes {
    if n == 0 then Content(fs, 0) else Content(fs, n) + ReadBack(fs, n - 1)
  }

  /** What a rotation discards: the oldest backup, when there is a file to take its place. */
  function Discarded(fs: Files, maxFiles: nat): Bytes {
    if maxFiles == 0 || maxFiles - 1 in fs then Content(fs, maxFiles) else []
  }

  lemma {:induction false} ReadBackShifts(fs: Files, maxFiles: nat, k: nat)
    requires 0 in fs && 1 <= k < maxFiles
    ensures ReadBack(Rotated(fs, maxFiles), k) == ReadBack(fs, k - 1)
    decreases k
  {
    RotatedAt(fs, maxFiles, k);
    if k == 1 {
      RotatedEnds(fs, maxFiles, maxFiles + 1);
      assert ReadBack(Rotated(fs, maxFiles), 1) == fs[0] + [];
    } else {
      ReadBackShifts(fs, maxFiles, k - 1);
    }
  }

  /** A rotation loses exactly what it discards, and keeps the order of everything else. */
  lemma RotationDropsOldestOnly(fs: Files, maxFiles: nat)
    requires 0 in fs
    ensures ReadBack(fs, maxFiles) == Discarded(fs, maxFiles) + ReadBack(Rotated(fs, maxFiles), maxFiles)
  {
    var fs' := Rotated(fs, maxFiles);
    RotatedEnds(fs, maxFiles, maxFiles + 1);
    if maxFiles == 0 {
      assert ReadBack(fs', 0) == [];
    } else {
      RotatedAt(fs, maxFiles, maxFiles);
      if maxFiles == 1 {
        assert ReadBack(fs', 0) == [] && ReadBack(fs', 1) == fs[0] + [];
        assert ReadBack(fs, 1) == Content(fs, 1) + fs[0];
      } else {
        ReadBackShifts(fs, maxFiles, maxFiles - 1);
        if maxFiles - 1 !in fs {
          assert ReadBack(fs, maxFiles - 1) == [] + ReadBack(fs, maxFiles - 2);
        }
      }
    }
  }

  // ----- runs -----

  function Run(w: State, maxBytes: int, maxFiles: nat, writes: seq<Bytes>): State
    decreases |writes|
  {
    if writes == [] then w
    else Write(Run(w, maxBytes, maxFiles, writes[..|writes| - 1]), maxBytes, maxFiles, writes[|writes| - 1])
  }

  function Flat(writes: seq<Bytes>): Bytes
    decreases |writes|
  {
    if writes == [] then [] else Flat(writes[..|writes| - 1]) + writes[|writes| - 1]
  }

  ghost predicate IsSuffix(s: Bytes, whole: Bytes) {
    |s| <= |whole| && whole[|whole| - |s|..] == s
  }

  /** As after opening: the current file exists, its size is known, and no backup is numbered beyond maxFiles. */
  ghost predicate Opened(w: State, maxFiles: nat) {
    && 0 in w.files && w.size == |w.files[0]|
    && forall i | i in w.files :: i <= maxFiles
  }

  /** Either within the limit, or a single write (or a file found on opening). */
  ghost predicate WithinLimit(w: State, maxBytes: int, found: Files, writes: seq<Bytes>) {
    forall i | i in w.files ::
      |w.files[i]| <= maxBytes || w.files[i] in writes || exists j :: j in found && found[j] == w.files[i]
  }

  lemma SuffixStep(s: Bytes, dropped: Bytes, rest: Bytes, whole: Bytes, p: Bytes)
    requires IsSuffix(s, whole) && s == dropped + rest
    ensures IsSuffix(rest + p, whole + p)
  {
    var n := |whole| - |s|;
    assert whole == whole[..n] + s;
    assert whole + p == (whole[..n] + dropped) + (rest + p);
  }

  lemma {:induction false} AppendShows(fs: Files, n: nat, p: Bytes)
    requires 0 in fs
    ensures ReadBack(fs[0 := fs[0] + p], n) == ReadBack(fs, n) + p
  {
    if n > 0 {
      AppendShows(fs, n - 1, p);
    }
  }

  lemma WriteKeepsOpened(w: State, maxBytes: int, maxFiles: nat, p: Bytes)
    requires Opened(w, maxFiles)
    ensures Opened(Write(w, maxBytes, maxFiles, p), maxFiles)
  {
    RotatedEnds(w.files, maxFiles, maxFiles + 1);
    forall i | i in Rotated(w.files, maxFiles) ensures i <= maxFiles {
      if i > maxFiles {
        RotatedEnds(w.files, maxFiles, i);
      }
    }
  }

  lemma WriteReadsBack(w: State, maxBytes: int, maxFiles: nat, p: Bytes, whole: Bytes)
    requires Opened(w, maxFiles) && IsSuffix(ReadBack(w.files, maxFiles), whole)
    ensures IsSuffix(ReadBack(Write(w, maxBytes, maxFiles, p).files, maxFiles), whole + p)
  {
    var rotates := w.size + |p| > maxBytes;
    var files := if rotates then Rotated(w.files, maxFiles) else w.files;
    AppendShows(files, maxFiles, p);
    if rotates {
      RotationDropsOldestOnly(w.files, maxFiles);
      SuffixStep(ReadBack(w.files, maxFiles), Discarded(w.files, maxFiles), ReadBack(files, maxFiles), whole, p);
    } else {
      SuffixStep(ReadBack(w.files, maxFiles), [], ReadBack(files, maxFiles), whole, p);
    }
  }

  /** Every file after a rotation is one from before it, or the new empty one. */
  lemma RotatedFilesAreOld(fs: Files, maxFiles: nat, i: nat)
    requires 0 in fs && i in Rotated(fs, maxFiles) && 1 <= i <= maxFiles
    ensures exists j :: j in fs && fs[j] == Rotated(fs, maxFiles)[i]
  {
    RotatedAt(fs, maxFiles, i);
    var j: nat := if i - 1 in fs then i - 1 else i;
    assert j in fs && fs[j] == Rotated(fs, maxFiles)[i];
  }

  lemma WriteKeepsLimit(w: State, maxBytes: int, maxFiles: nat, found: Files, writes: seq<Bytes>, p: Bytes)
    requires Opened(w, maxFiles) && WithinLimit(w, maxBytes, found, writes)
    ensures WithinLimit(Write(w, maxBytes, maxFiles, p), maxBytes, found, writes + [p])
  {
    var w' := Write(w, maxBytes, maxFiles, p);
    WriteKeepsOpened(w, maxBytes, maxFiles, p);
    RotatedEnds(w.files, maxFiles, maxFiles + 1);
    forall i | i in w'.files
      ensures || |w'.files[i]| <= maxBytes || w'.files[i] in writes + [p]
              || exists j :: j in found && found[j] == w'.files[i]
    {
      if w.size + |p| > maxBytes {
        if i == 0 {
          assert w'.files[0] == [] + p == p;
        } else {
          RotatedFilesAreOld(w.files, maxFiles, i);
        }
      }
    }
  }

  lemma FlatOneMore(all: Bytes, writes: seq<Bytes>)
    requires writes != []
    ensures all + Flat(writes) == all + Flat(writes[..|writes| - 1]) + writes[|writes| - 1]
  {
    Associative(all, Flat(writes[..|writes| - 1]), writes[|writes| - 1]);
  }

  lemma Associative(a: Bytes, b: Bytes, c: Bytes)
    ensures a + b + c == a + (b + c)
  {
  }

  /**
    Over any sequence of writes: reading the backups and the current file back gives a suffix of
    everything that was there at the start and everything written since; there are at most maxFiles
    backups; the recorded size is the current file's length; and every file is within the limit or
    holds a single write, or is one that was found on opening.
  */
  lemma {:induction false} RotationIsSound(w: State, maxBytes: int, maxFiles: nat, writes: seq<Bytes>)
    requires Opened(w, maxFiles)
    ensures var w' := Run(w, maxBytes, maxFiles, writes);
            && Opened(w', maxFiles)
            && IsSuffix(ReadBack(w'.files, maxFiles), ReadBack(w.files, maxFiles) + Flat(writes))
            && WithinLimit(w', maxBytes, w.files, writes)
    decreases |writes|
  {
    var all := ReadBack(w.files, maxFiles);
    if writes == [] {
      assert all + [] == all;
    } else {
      var k := |writes| - 1;
      var w1 := Run(w, maxBytes, maxFiles, writes[..k]);
      RotationIsSound(w, maxBytes, maxFiles, writes[..k]);
      WriteKeepsOpened(w1, maxBytes, maxFiles, writes[k]);
      WriteReadsBack(w1, maxBytes, maxFiles, writes[k], all + Flat(writes[..k]));
      FlatOneMore(all, writes);
      WriteKeepsLimit(w1, maxBytes, maxFiles, w.files, writes[..k], writes[k]);
      assert writes == writes[..k] + [writes[k]];
    }
  }

  // ----- when the file is changed -----

  /**
    A write that fits within the limit goes to the end of the current file and leaves every backup alone; one that does
    not finds a new file, the old one becoming the first backup, if backups are kept, and every other moving up by one.
  */
  lemma WriteRotatesExactlyWhen(w: State, maxBytes: int, maxFiles: nat, p: Bytes)
    requires Opened(w, maxFiles)
    ensures var files' := Write(w, maxBytes, maxFiles, p).files;
            if |w.files[0]| + |p| <= maxBytes then files' == w.files[0 := w.files[0] + p]
            else
              && 0 in files' && files'[0] == p
              && (forall j: nat | j < maxFiles && j in w.files :: j + 1 in files' && files'[j + 1] == w.files[j])
              && (forall j: nat | j + 1 < maxFiles && j !in w.files :: j + 1 !in files')
              && (forall j | j in files' :: j <= maxFiles)
  {
    WriteKeepsOpened(w, maxBytes, maxFiles, p);
    RotatedEnds(w.files, maxFiles, maxFiles + 1);
    var rotated := Rotated(w.files, maxFiles);
    forall j: nat | j < maxFiles && j in w.files ensures j + 1 in rotated && rotated[j + 1] == w.files[j] {
      RotatedAt(w.files, maxFiles, j + 1);
    }
    forall j: nat | j + 1 < maxFiles && j !in w.files ensures j + 1 !in rotated {
      RotatedAt(w.files, maxFiles, j + 1);
    }
    assert [] + p == p;
  }

  /** As long as all that is written fits within the limit, it is in the current file, and nothing is rotated. */
  lemma {:induction false} FitsWithoutRotation(w: State, maxBytes: int, maxFiles: nat, writes: seq<Bytes>)
    requires Opened(w, maxFiles) && |w.files[0]| + |Flat(writes)| <= maxBytes
    ensures Run(w, maxBytes, maxFiles, writes) ==
            State(w.files[0 := w.files[0] + Flat(writes)], w.size + |Flat(writes)|)
    decreases |writes|
  {
    if writes == [] {
      assert w.files[0] + [] == w.files[0];
    } else {
      var k := |writes| - 1;
      FitsWithoutRotation(w, maxBytes, maxFiles, writes[..k]);
      FlatOneMore(w.files[0], writes);
    }
  }

  // ----- the writer -----

  class Directory {
    var files: Files

    constructor (files: Files)
      ensures this.files == files
    {
      this.files := files;
    }

    method Rename(from: nat, to: nat)
      requires from != to
      modifies this
      ensures files == Renamed(old(files), from, to)
    {
      if from in files {
        files := (files - {from})[to := files[from]];
      }
    }

    method Remove(i: nat)
      modifies this
      ensures files == old(files) - {i}
    {
      files := files - {i};
    }

    method OpenAppend() returns (size: nat)
      modifies this
      ensures files == old(files)[0 := Content(old(files), 0)] && size == |Content(old(files), 0)|
    {
      if 0 !in files {
        files := files[0 := []];
      }
      size := |files[0]|;
    }
  }

  class RotatingWriter {
    const dir: Directory
    const maxBytes: int
    const maxFiles: nat
    var size: int

    ghost function View(): State
      reads this, dir
    {
      State(dir.files, size)
    }

    constructor (dir: Directory, maxBytes: int, maxFiles: nat)
      requires forall i | i in dir.files :: i <= maxFiles
      modifies dir
      ensures this.dir == dir && this.maxBytes == maxBytes && this.maxFiles == maxFiles
      ensures Opened(View(), maxFiles)
      ensures dir.files == old(dir.files)[0 := Content(old(dir.files), 0)]
    {
      this.dir, this.maxBytes, this.maxFiles := dir, maxBytes, maxFiles;
      new;
      size := dir.OpenAppend();
    }

    method WriteBytes(p: Bytes)
      requires Opened(View(), maxFiles)
      modifies this, dir
      ensures View() == Write(old(View()), maxBytes, maxFiles, p) && Opened(View(), maxFiles)
    {
      WriteKeepsOpened(View(), maxBytes, maxFiles, p);
      if size + |p| > maxBytes {
        Rotate();
      }
      dir.files := dir.files[0 := dir.files[0] + p];
      size := size + |p|;
    }

    method Rotate()
      requires Opened(View(), maxFiles)
      modifies this, dir
      ensures dir.files == Rotated(old(dir.files), maxFiles) && size == 0
    {
      var i: int := maxFiles - 1;
      while i > 0
        invariant i <= maxFiles - 1
        invariant dir.files == Shifted(old(dir.files), maxFiles, if i >= 0 then i + 1 else 1)
      {
        dir.Rename(i, i + 1);
        i := i - 1;
      }
      dir.Rename(0, 1);
      dir.Remove(maxFiles + 1);
      RotatedEnds(old(dir.files), maxFiles, maxFiles + 1);
      size := dir.OpenAppend();
    }
  }
}
