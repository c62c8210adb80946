/** Any run of writes and truncations refines files that are plain byte arrays. */
module MinixRun {
  import opened Words
  import opened Minix
  import opened MinixZones
  import opened MinixMap
  import opened MinixFile
  import opened MinixTruncate

  /** A file as its users think of it: a size, and the bytes written and not truncated since. */
  datatype Plain = Plain(size: nat, bytes: imap<nat, u8>)

  datatype Op = WriteOp(k: nat, data: seq<u8>, off: nat) | TruncateOp(k: nat)

  ghost function Overlay(m: imap<nat, u8>, data: seq<u8>, off: nat): imap<nat, u8> {
    imap o: nat | o in m || off <= o < off + |data| :: if off <= o < off + |data| then data[o - off] else m[o]
  }

  ghost function PlainStep(files: seq<Plain>, op: Op): seq<Plain> {
    if op.k >= |files| then files
    else
      var f := files[op.k];
      match op
      case WriteOp(k, data, off) =>
        files[k := Plain(if data != [] && off + |data| > f.size then off + |data| else f.size, Overlay(f.bytes, data, off))]
      case TruncateOp(k) => files[k := Plain(0, imap[])]
  }

  /** One operation on the disk.  A zone that a write makes indirect must read as no zones; on
      what the other free zones hold nothing is assumed. */
  ghost predicate DiskStep(fs: Fs, op: Op, fs': Fs) {
    Dims(fs) && IsOwner(fs, op.k) &&
    match op
    case WriteOp(k, data, off) => off + |data| <= MAX_SIZE && CleanWrite(fs, k, data, off) && Write(fs, k, data, off) == Some(fs')
    case TruncateOp(k) => Truncated(fs, fs', k)
  }

  ghost predicate FileRefines(fs: Fs, f: Plain, k: nat) {
    IsOwner(fs, k) ==>
      fs.inodes[k].size == f.size &&
      forall o: nat :: o in f.bytes ==> o < MAX_SIZE && Mapped(fs, k, o) && Byte(fs, k, o) == f.bytes[o]
  }

  ghost predicate Refines(fs: Fs, files: seq<Plain>) {
    Inv(fs) && |files| == |fs.inodes| && forall k: nat :: k < |files| ==> FileRefines(fs, files[k], k)
  }

  lemma WriteRefines(fs: Fs, files: seq<Plain>, k: nat, data: seq<u8>, off: nat, j: nat)
    requires Refines(fs, files) && IsOwner(fs, k) && off + |data| <= MAX_SIZE && CleanWrite(fs, k, data, off)
    requires Write(fs, k, data, off).Some? && j < |files|
    ensures FileRefines(Write(fs, k, data, off).value, PlainStep(files, WriteOp(k, data, off))[j], j)
  {
    hide InBounds, Unique, AllReached, UsedKept, FreeKept, Mapped, Byte, Write, ZoneAt, StaleByte, CleanWrite;
    var fs' := Write(fs, k, data, off).value;
    WriteWrites(fs, k, data, off);
    assert FileRefines(fs, files[j], j);
    var f := PlainStep(files, WriteOp(k, data, off))[j];
    if IsOwner(fs', j) {
      forall o: nat | o in f.bytes ensures o < MAX_SIZE && Mapped(fs', j, o) && Byte(fs', j, o) == f.bytes[o] {
        assert ByteOk(fs, fs', k, data, off, j, o);
      }
    }
  }

  lemma TruncateRefines(fs: Fs, fs': Fs, files: seq<Plain>, k: nat, j: nat)
    requires Refines(fs, files) && IsOwner(fs, k) && Truncated(fs, fs', k) && j < |files|
    ensures FileRefines(fs', PlainStep(files, TruncateOp(k))[j], j)
  {
    assert FileRefines(fs, files[j], j);
    if j != k && IsOwner(fs', j) {
      forall o: nat | o in files[j].bytes ensures Mapped(fs', j, o) && Byte(fs', j, o) == Byte(fs, j, o) {
        SlotInTable(fs, j, o / BLOCK_SIZE);
        SlotsDiffer(j, o / BLOCK_SIZE, j, o / BLOCK_SIZE);
        TruncatedVal(fs, fs', k, SlotOf(j, o / BLOCK_SIZE));
      }
    }
  }

  lemma StepRefines(fs: Fs, files: seq<Plain>, op: Op, fs': Fs)
    requires Refines(fs, files) && DiskStep(fs, op, fs')
    ensures Refines(fs', PlainStep(files, op))
  {
    hide FileRefines;
    match op
    case WriteOp(k, data, off) =>
      WriteWrites(fs, k, data, off);
      forall j: nat | j < |files| ensures FileRefines(fs', PlainStep(files, op)[j], j) {
        WriteRefines(fs, files, k, data, off, j);
      }
    case TruncateOp(k) =>
      TruncateKeeps(fs, fs', k);
      forall j: nat | j < |files| ensures FileRefines(fs', PlainStep(files, op)[j], j) {
        TruncateRefines(fs, fs', files, k, j);
      }
  }

  ghost predicate DiskRun(states: seq<Fs>, ops: seq<Op>) {
    |states| == |ops| + 1 && forall i :: 0 <= i < |ops| ==> DiskStep(states[i], ops[i], states[i + 1])
  }

  ghost function PlainRun(files: seq<Plain>, ops: seq<Op>): seq<Plain>
    decreases |ops|
  {
    if ops == [] then files else PlainRun(PlainStep(files, ops[0]), ops[1..])
  }

  /** From any undamaged disk, after any run of operations, every file has the size and the
      bytes of the plain file, and no zone has two owners. */
  lemma {:induction false} RunRefines(states: seq<Fs>, ops: seq<Op>, files: seq<Plain>)
    requires DiskRun(states, ops) && Refines(states[0], files)
    ensures Refines(states[|ops|], PlainRun(files, ops))
    decreases |ops|
  {
    hide Refines, DiskStep, PlainStep;
    if ops != [] {
      assert DiskStep(states[0], ops[0], states[1]);
      StepRefines(states[0], files, ops[0], states[1]);
      forall i | 0 <= i < |ops[1..]| ensures DiskStep(states[1..][i], ops[1..][i], states[1..][i + 1]) {
        assert DiskStep(states[i + 1], ops[i + 1], states[i + 2]);
      }
      RunRefines(states[1..], ops[1..], PlainStep(files, ops[0]));
    }
  }

  // ---------------------------------------------------------------- reading

  /** What a read of a plain file may return: end of file from its size on, and else the bytes up
      to its size, as many as are asked for; bytes never written are not known, and where there is
      one the read may stop. */
  ghost predicate PlainRead(f: Plain, off: nat, len: nat, r: ReadResult) {
    var n := if off + len <= f.size then len else f.size - off;
    match r
    case Eof => off >= f.size
    case Data(b) => off < f.size && |b| == n && forall i :: 0 <= i < |b| && off + i in f.bytes ==> b[i] == f.bytes[off + i]
    case Stopped => off < f.size && exists o: nat :: off <= o < off + n && o !in f.bytes
  }

  lemma ReadRefines(fs: Fs, files: seq<Plain>, k: nat, off: nat, len: nat)
    requires Refines(fs, files) && IsOwner(fs, k)
    ensures PlainRead(files[k], off, len, Read(fs, k, off, len))
  {
    assert FileRefines(fs, files[k], k);
    ReadIs(fs, k, off, len);
    hide Inv, Read, Mapped, Byte;
    var f := files[k];
    forall o: nat ensures Hole(fs, k, o) ==> o !in f.bytes {
    }
    if Read(fs, k, off, len).Stopped? {
      var o: nat :| off <= o < off + Readable(fs, k, off, len) && Hole(fs, k, o);
      assert o !in f.bytes;
    }
  }

  /** After any run a read returns the bytes of the plain file. */
  lemma RunReads(states: seq<Fs>, ops: seq<Op>, files: seq<Plain>, k: nat, off: nat, len: nat)
    requires DiskRun(states, ops) && Refines(states[0], files)
    requires IsOwner(states[|ops|], k)
    ensures k < |PlainRun(files, ops)| && PlainRead(PlainRun(files, ops)[k], off, len, Read(states[|ops|], k, off, len))
  {
    RunRefines(states, ops, files);
    ReadRefines(states[|ops|], PlainRun(files, ops), k, off, len);
  }

  // ---------------------------------------------------------------- small files

  /** One operation on files of at most seven blocks. */
  ghost predicate SmallStep(fs: Fs, op: Op, fs': Fs) {
    Dims(fs) && IsOwner(fs, op.k) &&
    match op
    case WriteOp(k, data, off) => off + |data| <= DIRECT * BLOCK_SIZE && Write(fs, k, data, off) == Some(fs')
    case TruncateOp(k) => Truncated(fs, fs', k)
  }

  ghost predicate SmallRun(states: seq<Fs>, ops: seq<Op>) {
    |states| == |ops| + 1 && forall i :: 0 <= i < |ops| ==> SmallStep(states[i], ops[i], states[i + 1])
  }

  /** Writes to the seven direct blocks and truncations in any order need no assumption on what
      free zones hold. */
  lemma {:induction false} SmallRunRefines(states: seq<Fs>, ops: seq<Op>, files: seq<Plain>)
    requires SmallRun(states, ops) && Refines(states[0], files)
    ensures DiskRun(states, ops) && Refines(states[|ops|], PlainRun(files, ops))
    decreases |ops|
  {
    hide PlainStep, Truncated, FileRefines, InBounds, Unique, AllReached;
    if ops != [] {
      assert SmallStep(states[0], ops[0], states[1]);
      match ops[0] {
        case WriteOp(k, data, off) => DirectWrite(states[0], k, data, off);
        case TruncateOp(_) =>
      }
      StepRefines(states[0], files, ops[0], states[1]);
      forall i | 0 <= i < |ops[1..]| ensures SmallStep(states[1..][i], ops[1..][i], states[1..][i + 1]) {
        assert SmallStep(states[i + 1], ops[i + 1], states[i + 2]);
      }
      SmallRunRefines(states[1..], ops[1..], PlainStep(files, ops[0]));
      forall i | 0 <= i < |ops| ensures DiskStep(states[i], ops[i], states[i + 1]) {
        if i > 0 { assert DiskStep(states[1..][i - 1], ops[1..][i - 1], states[1..][i]); }
      }
    }
  }
}
