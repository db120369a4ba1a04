/** `crates/lib/stones/src/lsmtree.rs`: the orchestrator, as a sequential
    state machine. Its state is the memtable and the directory its SSTable
    files live in; the file system is passed in and handed back. Locks and the
    race between a flush's snapshot and its clear are left out: a flush is one
    step. */
module LsmTree {
  import opened Wrappers
  import opened Lex
  import opened SortedMap
  import Memtable
  import opened FileSystem
  import SSTable

  /** Entry count at which `put` flushes. */
  const MAX_MEMTABLE_SIZE: nat := 1000

  datatype LsmTree = LsmTree(memtable: Memtable.Memtable, sstDirectory: Path)

  /** The result of one operation, the tree after it and the file system after it. */
  datatype Step = Step(result: Result<(), IoError>, tree: LsmTree, fs: Fs)

  /** Shorthand for the mapping the memtable holds. */
  function Buffered(t: LsmTree): map<Bytes, Bytes>
  {
    Memtable.Contents(t.memtable)
  }

  /** What every successful sequence of operations keeps: the memtable is
      below the flush threshold. */
  predicate Inv(t: LsmTree)
  {
    Memtable.Len(t.memtable) < MAX_MEMTABLE_SIZE
  }

  /** `LsmTree::new`: an empty memtable over the given directory; the
      directory itself is not touched. */
  function New(sstDirectory: Path): (t: LsmTree)
    ensures Buffered(t) == map[] && t.sstDirectory == sstDirectory
    ensures Inv(t)
  {
    LsmTree(Memtable.New(), sstDirectory)
  }

  /** `usize`'s decimal rendering, as `format!` writes it. */
  function Decimal(n: nat): string
  {
    if n < 10 then [DigitChar(n)] else Decimal(n / 10) + [DigitChar(n % 10)]
  }

  function DigitChar(d: nat): char
    requires d < 10
  {
    "0123456789"[d]
  }

  /** The file a flush of `n` entries writes: `<dir>/sst-<n>.sst`. */
  function FlushPath(sstDirectory: Path, n: nat): Path
  {
    sstDirectory + "/sst-" + Decimal(n) + ".sst"
  }

  /** `LsmTree::flush`: write the whole memtable to the file named after its
      entry count, then clear it. A failed write is returned as is and the
      memtable keeps everything. */
  function Flush(t: LsmTree, fs: Fs, fault: WriteFault): (r: Step)
    ensures r.tree.sstDirectory == t.sstDirectory
    ensures r.result.Ok? ==> Buffered(r.tree) == map[]
    ensures r.result.Err? ==> r.tree == t
    ensures var path := FlushPath(t.sstDirectory, |Buffered(t)|);
      && var written := SSTable.Create(SSTable.SSTable(path), fs, t.memtable.data, fault);
      && r.result == written.result && r.fs == written.fs
      && (r.result.Ok? ==> path in r.fs.files && r.fs.files[path] == SSTable.Encode(t.memtable.data))
      && r.fs.dirs == fs.dirs
      && forall p :: p != path ==> (p in r.fs.files <==> p in fs.files)
  {
    var data := t.memtable.data;
    TableSize(data);
    var table := SSTable.SSTable(FlushPath(t.sstDirectory, |data|));
    var written := SSTable.Create(table, fs, data, fault);
    if written.result.Err? then Step(written.result, t, written.fs)
    else Step(Ok(()), t.(memtable := Memtable.New()), written.fs)
  }

  /** The memtable after `put` has written to it. */
  function Buffer(t: LsmTree, key: Bytes, value: Bytes): LsmTree
  {
    t.(memtable := Memtable.Put(t.memtable, key, value))
  }

  /** `LsmTree::put`: write to the memtable; flush once it holds
      `MAX_MEMTABLE_SIZE` entries. `fault` is what the environment does to
      that flush's file write; it plays no part when there is no flush. */
  function Put(t: LsmTree, fs: Fs, key: Bytes, value: Bytes, fault: WriteFault): (r: Step)
    ensures r.tree.sstDirectory == t.sstDirectory
    ensures r.result.Err? ==> Buffered(r.tree) == Buffered(t)[key := value]
    ensures r.result.Ok? ==>
      Buffered(r.tree) == (if |Buffered(t)[key := value]| >= MAX_MEMTABLE_SIZE then map[] else Buffered(t)[key := value])
    ensures |Buffered(t)[key := value]| < MAX_MEMTABLE_SIZE ==> r.result.Ok? && r.fs == fs
    ensures |Buffered(t)[key := value]| >= MAX_MEMTABLE_SIZE ==>
      var path := FlushPath(t.sstDirectory, |Buffered(t)[key := value]|);
      var data := Buffer(t, key, value).memtable.data;
      && var written := SSTable.Create(SSTable.SSTable(path), fs, data, fault);
      && r.result == written.result && r.fs == written.fs
      && (r.result.Ok? ==> path in r.fs.files && r.fs.files[path] == SSTable.Encode(data))
      && r.fs.dirs == fs.dirs
      && forall p :: p != path ==> (p in r.fs.files <==> p in fs.files)
  {
    var buffered := Buffer(t, key, value);
    if Memtable.IsFull(buffered.memtable, MAX_MEMTABLE_SIZE) then Flush(buffered, fs, fault)
    else Step(Ok(()), buffered, fs)
  }

  /** `LsmTree::delete`: removes the key from the memtable only, and always
      succeeds. */
  function Delete(t: LsmTree, fs: Fs, key: Bytes): (r: Step)
    ensures r.result.Ok? && r.fs == fs
    ensures r.tree.sstDirectory == t.sstDirectory
    ensures Buffered(r.tree) == Buffered(t) - {key}
  {
    Step(Ok(()), t.(memtable := Memtable.Delete(t.memtable, key)), fs)
  }

  /** `Path::extension() == Some("sst")`: the name ends in `.sst` after a
      non-empty stem (`.sst` alone is a hidden file with no extension). */
  predicate HasSstExtension(name: string)
  {
    |name| > 4 && name[|name| - 4..] == ".sst"
  }

  /** A regular file directly inside `dir` whose extension is `sst`. */
  predicate IsSstEntry(dir: Path, p: Path)
  {
    && |p| > |dir| + 1
    && p[..|dir| + 1] == dir + "/"
    && '/' !in p[|dir| + 1..]
    && HasSstExtension(p[|dir| + 1..])
  }

  predicate PathsAscending(ps: seq<Path>)
  {
    forall i, j :: 0 <= i < j < |ps| ==> StrLess(ps[i], ps[j])
  }

  predicate IsLeast(p: Path, s: set<Path>)
  {
    p in s && forall q :: q in s ==> q == p || StrLess(p, q)
  }

  lemma {:induction false} HasLeast(s: set<Path>)
    requires s != {}
    ensures exists p :: IsLeast(p, s)
    decreases |s|
  {
    var x :| x in s;
    if s != {x} {
      HasLeast(s - {x});
      var m :| IsLeast(m, s - {x});
      StrLessTotal(m, x);
      if StrLess(x, m) {
        forall q | q in s && q != x ensures StrLess(x, q) {
          if q != m { StrLessTransitive(x, m, q); }
        }
        assert IsLeast(x, s);
      } else {
        assert IsLeast(m, s);
      }
    } else {
      assert IsLeast(x, s);
    }
  }

  lemma LeastUnique(s: set<Path>)
    ensures forall p, q :: IsLeast(p, s) && IsLeast(q, s) ==> p == q
  {
    forall p, q | IsLeast(p, s) && IsLeast(q, s) ensures p == q {
      if p != q {
        StrLessTransitive(p, q, p);
        StrLessIrreflexive(p);
      }
    }
  }

  /** `Vec<String>::sort` of a set of distinct paths. */
  function SortPaths(s: set<Path>): (ps: seq<Path>)
    ensures PathsAscending(ps)
    ensures forall p :: p in ps <==> p in s
    decreases |s|
  {
    if s == {} then []
    else
      HasLeast(s);
      LeastUnique(s);
      var least :| IsLeast(least, s);
      var rest := SortPaths(s - {least});
      assert forall i :: 0 <= i < |rest| ==> StrLess(least, rest[i]) by {
        forall i | 0 <= i < |rest| ensures StrLess(least, rest[i]) {
          assert rest[i] in s - {least};
        }
      }
      [least] + rest
  }

  /** `LsmTree::get_sst_files`: listing a missing directory fails; otherwise
      the paths of its `.sst` regular files in ascending order. */
  function SstFiles(fs: Fs, dir: Path): (r: Result<seq<Path>, IoError>)
    ensures r.Err? <==> dir !in fs.dirs
    ensures r.Ok? ==> PathsAscending(r.value)
    ensures r.Ok? ==> forall p :: p in r.value <==> p in fs.files && IsSstEntry(dir, p)
  {
    if dir !in fs.dirs then Err(IoError)
    else Ok(SortPaths(set p | p in fs.files && IsSstEntry(dir, p)))
  }

  /** The scan of `LsmTree::get`: read each file in turn and stop at the
      first that holds the key; a file that cannot be read ends the scan with
      its error. */
  function Scan(fs: Fs, paths: seq<Path>, key: Bytes): Result<Option<Bytes>, IoError>
    decreases |paths|
  {
    if |paths| == 0 then Ok(None)
    else
      match SSTable.Read(SSTable.SSTable(paths[0]), fs)
      case Err(e) => Err(e)
      case Ok(data) =>
        match Find(data, key)
        case Some(v) => Ok(Some(v))
        case None => Scan(fs, paths[1..], key)
  }

  /** `LsmTree::get`: the memtable first; on a miss, the directory's `.sst`
      files in ascending name order. */
  function Get(t: LsmTree, fs: Fs, key: Bytes): (r: Result<Option<Bytes>, IoError>)
    ensures key in Buffered(t) ==> r == Ok(Some(Buffered(t)[key]))
    ensures key !in Buffered(t) && t.sstDirectory !in fs.dirs ==> r.Err?
  {
    match Memtable.Get(t.memtable, key)
    case Some(v) => Ok(Some(v))
    case None =>
      match SstFiles(fs, t.sstDirectory)
      case Err(e) => Err(e)
      case Ok(paths) => Scan(fs, paths, key)
  }

  /** The file reads and does not hold the key. */
  predicate Misses(fs: Fs, p: Path, key: Bytes)
  {
    var read := SSTable.Read(SSTable.SSTable(p), fs);
    read.Ok? && key !in ToMap(read.value)
  }

  /** Every file before position `i` reads and misses the key. */
  predicate MissesBefore(fs: Fs, paths: seq<Path>, key: Bytes, i: nat)
    requires i <= |paths|
  {
    forall j :: 0 <= j < i ==> Misses(fs, paths[j], key)
  }

  /** The file at position `i` is the first to hold the key, with value `v`. */
  predicate HitAt(fs: Fs, paths: seq<Path>, key: Bytes, i: nat, v: Bytes)
  {
    && i < |paths|
    && MissesBefore(fs, paths, key, i)
    && var read := SSTable.Read(SSTable.SSTable(paths[i]), fs);
    && read.Ok? && key in ToMap(read.value) && ToMap(read.value)[key] == v
  }

  /** The file at position `i` is the first that cannot be read, before any hit. */
  predicate FailsAt(fs: Fs, paths: seq<Path>, key: Bytes, i: nat)
  {
    i < |paths| && MissesBefore(fs, paths, key, i) && SSTable.Read(SSTable.SSTable(paths[i]), fs).Err?
  }

  lemma MissesBeforeShift(fs: Fs, paths: seq<Path>, key: Bytes, i: nat)
    requires 0 < i <= |paths|
    ensures MissesBefore(fs, paths, key, i) <==>
      Misses(fs, paths[0], key) && MissesBefore(fs, paths[1..], key, i - 1)
  {
    if Misses(fs, paths[0], key) && MissesBefore(fs, paths[1..], key, i - 1) {
      forall j | 0 < j < i ensures Misses(fs, paths[j], key) {
        assert paths[1..][j - 1] == paths[j];
      }
    }
  }

  /** The scan's answer, stated without the loop: a value iff some file is the
      first to hold the key, nothing iff every file reads and misses it, an
      error iff some file fails to read before any hit. */
  lemma {:induction false} ScanFindsFirstHit(fs: Fs, paths: seq<Path>, key: Bytes, v: Bytes)
    ensures Scan(fs, paths, key) == Ok(Some(v)) <==> exists i: nat :: HitAt(fs, paths, key, i, v)
    ensures Scan(fs, paths, key) == Ok(None) <==> MissesBefore(fs, paths, key, |paths|)
    ensures Scan(fs, paths, key).Err? <==> exists i: nat :: FailsAt(fs, paths, key, i)
    decreases |paths|
  {
    if |paths| > 0 {
      var tail := paths[1..];
      ScanFindsFirstHit(fs, tail, key, v);
      MissesBeforeShift(fs, paths, key, |paths|);
      var read := SSTable.Read(SSTable.SSTable(paths[0]), fs);
      if read.Err? {
        assert FailsAt(fs, paths, key, 0);
        forall i: nat | i < |paths| ensures !HitAt(fs, paths, key, i, v) {
          if i > 0 { assert !Misses(fs, paths[0], key); }
        }
      } else if key in ToMap(read.value) {
        assert HitAt(fs, paths, key, 0, ToMap(read.value)[key]);
        forall i: nat | i < |paths| ensures !FailsAt(fs, paths, key, i) && (HitAt(fs, paths, key, i, v) ==> i == 0) {
          if i > 0 { assert !Misses(fs, paths[0], key); }
        }
      } else {
        assert Misses(fs, paths[0], key);
        forall i: nat | 0 < i <= |paths| ensures MissesBefore(fs, paths, key, i) <==> MissesBefore(fs, tail, key, i - 1) {
          MissesBeforeShift(fs, paths, key, i);
        }
        if exists i: nat :: HitAt(fs, paths, key, i, v) {
          var i: nat :| HitAt(fs, paths, key, i, v);
          assert HitAt(fs, tail, key, i - 1, v);
        }
        if exists i: nat :: HitAt(fs, tail, key, i, v) {
          var i: nat :| HitAt(fs, tail, key, i, v);
          assert HitAt(fs, paths, key, i + 1, v);
        }
        if exists i: nat :: FailsAt(fs, paths, key, i) {
          var i: nat :| FailsAt(fs, paths, key, i);
          assert FailsAt(fs, tail, key, i - 1);
        }
        if exists i: nat :: FailsAt(fs, tail, key, i) {
          var i: nat :| FailsAt(fs, tail, key, i);
          assert FailsAt(fs, paths, key, i + 1);
        }
      }
    }
  }

  /** How `get` resolves a key the memtable does not hold: a value iff some
      listed file is the first to hold the key, nothing iff every listed file
      reads and misses it. */
  lemma GetResolvesInFileOrder(t: LsmTree, fs: Fs, key: Bytes, v: Bytes)
    requires key !in Buffered(t) && t.sstDirectory in fs.dirs
    ensures var paths := SstFiles(fs, t.sstDirectory).value;
      && (Get(t, fs, key) == Ok(Some(v)) <==> exists i: nat :: HitAt(fs, paths, key, i, v))
      && (Get(t, fs, key) == Ok(None) <==> MissesBefore(fs, paths, key, |paths|))
  {
    ScanFindsFirstHit(fs, SstFiles(fs, t.sstDirectory).value, key, v);
  }

  lemma Decimal1000()
    ensures Decimal(1000) == "1000"
  {
    assert Decimal(1) == "1";
    assert Decimal(10) == "10";
    assert Decimal(100) == "100";
  }

  /** A successful put keeps the memtable below the threshold: it grows by at
      most one entry, and reaching the threshold flushes and empties it. */
  lemma PutKeepsInv(t: LsmTree, fs: Fs, key: Bytes, value: Bytes, fault: WriteFault)
    requires Inv(t)
    requires Put(t, fs, key, value, fault).result.Ok?
    ensures Inv(Put(t, fs, key, value, fault).tree)
  {
    var r := Put(t, fs, key, value, fault);
    TableSize(t.memtable.data);
    TableSize(r.tree.memtable.data);
  }

  lemma DeleteKeepsInv(t: LsmTree, fs: Fs, key: Bytes)
    requires Inv(t)
    ensures Inv(Delete(t, fs, key).tree)
  {
    var r := Delete(t, fs, key);
    TableSize(t.memtable.data);
    TableSize(r.tree.memtable.data);
  }

  /** Under the invariant a flush happens exactly when the memtable reaches
      1000 entries, so every flush writes `<dir>/sst-1000.sst`, replacing
      whatever the previous flush wrote there. */
  lemma EveryFlushWritesSst1000(t: LsmTree, fs: Fs, key: Bytes, value: Bytes, fault: WriteFault)
    requires Inv(t)
    requires |Buffered(Buffer(t, key, value))| >= MAX_MEMTABLE_SIZE
    ensures |Buffered(Buffer(t, key, value))| == 1000
    ensures var r := Put(t, fs, key, value, fault);
      var target := SSTable.SSTable(t.sstDirectory + "/sst-1000.sst");
      && r.fs == SSTable.Create(target, fs, Buffer(t, key, value).memtable.data, fault).fs
      && (r.result.Ok? ==>
            target.filePath in r.fs.files && r.fs.files[target.filePath] == SSTable.Encode(Buffer(t, key, value).memtable.data))
  {
    TableSize(t.memtable.data);
    Decimal1000();
    assert FlushPath(t.sstDirectory, 1000) == t.sstDirectory + "/sst-1000.sst";
  }

  /** The invariant needs every put to succeed: after a failed flush the
      memtable keeps 1000 entries, so the next put of a new key flushes 1001
      entries to `<dir>/sst-1001.sst`. */
  lemma FailedFlushShiftsFileName(t: LsmTree, fs: Fs, k1: Bytes, v1: Bytes, k2: Bytes, v2: Bytes)
    requires |Buffered(t)| == 999 && k1 !in Buffered(t) && k2 !in Buffered(t) && k1 != k2
    requires t.sstDirectory + "/sst-1001.sst" !in fs.dirs
    ensures var r1 := Put(t, fs, k1, v1, OpenFails);
      && r1.result.Err? && r1.fs == fs && !Inv(r1.tree)
      && var r2 := Put(r1.tree, r1.fs, k2, v2, NoFault);
      && r2.result.Ok? && Buffered(r2.tree) == map[]
      && t.sstDirectory + "/sst-1001.sst" in r2.fs.files
      && r2.fs.files[t.sstDirectory + "/sst-1001.sst"] == SSTable.Encode(Buffer(r1.tree, k2, v2).memtable.data)
  {
    var r1 := Put(t, fs, k1, v1, OpenFails);
    assert |Buffered(t)[k1 := v1]| == 1000;
    PutCannotOpen(t, fs, k1, v1);
    assert |Buffered(r1.tree)[k2 := v2]| == 1001;
    PutFlushes1001(r1.tree, fs, k2, v2);
  }

  /** A flushing put whose file cannot be opened changes no file and keeps the write. */
  lemma PutCannotOpen(t: LsmTree, fs: Fs, key: Bytes, value: Bytes)
    requires |Buffered(t)[key := value]| == MAX_MEMTABLE_SIZE
    ensures var r := Put(t, fs, key, value, OpenFails);
      && r.result.Err? && r.fs == fs && Buffered(r.tree) == Buffered(t)[key := value] && !Inv(r.tree)
  {
  }

  /** A fault-free put reaching 1001 entries writes `<dir>/sst-1001.sst`. */
  lemma PutFlushes1001(t: LsmTree, fs: Fs, key: Bytes, value: Bytes)
    requires |Buffered(t)[key := value]| == 1001
    requires t.sstDirectory + "/sst-1001.sst" !in fs.dirs
    ensures var r := Put(t, fs, key, value, NoFault);
      && r.result.Ok? && Buffered(r.tree) == map[]
      && t.sstDirectory + "/sst-1001.sst" in r.fs.files
      && r.fs.files[t.sstDirectory + "/sst-1001.sst"] == SSTable.Encode(Buffer(t, key, value).memtable.data)
  {
    Decimal1001();
    assert FlushPath(t.sstDirectory, 1001) == t.sstDirectory + "/sst-1001.sst";
  }

  lemma Decimal1001()
    ensures Decimal(1001) == "1001"
  {
    assert Decimal(1001) == Decimal(100) + [DigitChar(1)];
    assert Decimal(100) == Decimal(10) + [DigitChar(0)];
  }

  /** A put whose flush fails reports the error and keeps the write, and
      everything before it, in the memtable. */
  lemma FailedFlushKeepsMemtable(t: LsmTree, fs: Fs, key: Bytes, value: Bytes, fault: WriteFault)
    requires Put(t, fs, key, value, fault).result.Err?
    ensures Buffered(Put(t, fs, key, value, fault).tree) == Buffered(t)[key := value]
  {
  }

  /** A put that does not flush is visible to the next `get`, and leaves every
      other key's answer and the file system as they were. */
  lemma GetAfterPut(t: LsmTree, fs: Fs, key: Bytes, value: Bytes, fault: WriteFault, other: Bytes)
    requires |Buffered(Buffer(t, key, value))| < MAX_MEMTABLE_SIZE
    ensures var r := Put(t, fs, key, value, fault);
      && r.fs == fs
      && Get(r.tree, r.fs, key) == Ok(Some(value))
      && (other != key ==> Get(r.tree, r.fs, other) == Get(t, fs, other))
  {
  }

  /** `delete` removes only the memtable's entry: a value for the key that is
      in a listed file is what `get` answers afterwards. */
  lemma DeleteDoesNotShadowFiles(t: LsmTree, fs: Fs, key: Bytes, i: nat, v: Bytes)
    requires t.sstDirectory in fs.dirs
    requires HitAt(fs, SstFiles(fs, t.sstDirectory).value, key, i, v)
    ensures Get(Delete(t, fs, key).tree, fs, key) == Ok(Some(v))
  {
    var r := Delete(t, fs, key);
    GetResolvesInFileOrder(r.tree, fs, key, v);
  }

  /** Deleting a key changes no other key's answer; deleting it again changes nothing. */
  lemma DeleteIsLocal(t: LsmTree, fs: Fs, key: Bytes, other: Bytes)
    ensures other != key ==> Get(Delete(t, fs, key).tree, fs, other) == Get(t, fs, other)
    ensures var once := Delete(t, fs, key).tree;
      Delete(once, fs, key).tree == once
  {
  }

  /** One call a single caller makes. */
  datatype Op = PutOp(key: Bytes, value: Bytes, fault: WriteFault) | DeleteOp(key: Bytes) | GetOp(key: Bytes)

  /** The state after a call, and whether it succeeded. */
  function Apply(t: LsmTree, fs: Fs, op: Op): Step
  {
    match op
    case PutOp(k, v, fault) => Put(t, fs, k, v, fault)
    case DeleteOp(k) => Delete(t, fs, k)
    case GetOp(k) =>
      var answer := Get(t, fs, k);
      Step(if answer.Ok? then Ok(()) else Err(IoError), t, fs)
  }

  /** A sequence of calls, one after another; `allOk` says whether every
      call succeeded. */
  function Run(t: LsmTree, fs: Fs, ops: seq<Op>): (LsmTree, Fs, bool)
    decreases |ops|
  {
    if |ops| == 0 then (t, fs, true)
    else
      var step := Apply(t, fs, ops[0]);
      var (t', fs', ok) := Run(step.tree, step.fs, ops[1..]);
      (t', fs', ok && step.result.Ok?)
  }

  /** Sequentially, every run in which every call succeeds keeps the memtable
      below the threshold. */
  lemma {:induction false} RunKeepsInv(t: LsmTree, fs: Fs, ops: seq<Op>)
    requires Inv(t)
    requires Run(t, fs, ops).2
    ensures Inv(Run(t, fs, ops).0)
    decreases |ops|
  {
    if |ops| > 0 {
      var step := Apply(t, fs, ops[0]);
      match ops[0] {
        case PutOp(k, v, fault) => PutKeepsInv(t, fs, k, v, fault);
        case DeleteOp(k) => DeleteKeepsInv(t, fs, k);
        case GetOp(k) =>
      }
      RunKeepsInv(step.tree, step.fs, ops[1..]);
    }
  }
}
