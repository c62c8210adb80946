/** The Minix v1 file system (src/fs/minix/minix.c): zones, the zone bit map, and the
    three-level map from the blocks of a file to zones.

    A zone is 1024 bytes.  The same bytes are read as file contents or as 512 zone
    numbers, and nothing in the model keeps the two uses apart: that is an invariant. */
module Minix {
  import opened Words
  import Bitmap

  const BLOCK_SIZE := 1024
  const BLOCK_BITS := 8192
  const INDEXES := 512           // zone numbers in a zone
  const DIRECT := 7              // zone[0..7] are file blocks, zone[7] single, zone[8] double indirect
  const TOTAL_BLOCK := 7 + 512 + 512 * 512

  type Block = s: seq<u8> | |s| == BLOCK_SIZE witness seq(BLOCK_SIZE, _ => 0)

  datatype Kind = Free | File | Directory | Device

  /** minix_inode_t, as far as it matters here. */
  datatype Inode = Inode(kind: Kind, size: nat, zone: seq<u16>)

  /** A snapshot of the disk.  Bit b of the zone map stands for zone first - 1 + b. */
  datatype Fs = Fs(first: nat, zones: nat, zmap: seq<bool>, blocks: seq<Block>, inodes: seq<Inode>)

  /** A place that holds a zone number: zone[i] of inode k, entry a of its indirect zone
      zone[i], or entry b of the zone that entry a of zone[8] names. */
  datatype Slot = Top(k: nat, i: nat) | Mid(k: nat, i: nat, a: nat) | Low(k: nat, a: nat, b: nat)

  // ---------------------------------------------------------------- zone numbers in zones

  /** Little-endian: entry i of a zone read as an array of u16. */
  function Word(s: Block, i: nat): u16
    requires i < INDEXES
  {
    s[2 * i] as int + 0x100 * s[2 * i + 1] as int
  }

  function PutWord(s: Block, i: nat, v: u16): Block
    requires i < INDEXES
  {
    s[2 * i := v % 0x100][2 * i + 1 := v / 0x100]
  }

  lemma PutWordGet(s: Block, i: nat, v: u16, j: nat)
    requires i < INDEXES && j < INDEXES
    ensures Word(PutWord(s, i, v), j) == if j == i then v else Word(s, j)
  {
  }

  function Entry(blocks: seq<Block>, z: nat, i: nat): u16 {
    if z < |blocks| && i < INDEXES then Word(blocks[z], i) else 0
  }

  function At(fs: Fs, z: nat, i: nat): u16 {
    Entry(fs.blocks, z, i)
  }

  /** Entry i of the zone z, if there is such a zone. */
  function Via(fs: Fs, z: nat, i: nat): u16 {
    if z == 0 then 0 else At(fs, z, i)
  }

  // ---------------------------------------------------------------- slots

  /** Inodes of files and directories own zones; a device keeps its number in zone[0]. */
  predicate Owner(n: Inode) {
    n.kind.File? || n.kind.Directory?
  }

  predicate InTable(fs: Fs, s: Slot) {
    s.k < |fs.inodes| && Owner(fs.inodes[s.k]) &&
    match s
    case Top(_, i) => i < 9
    case Mid(_, i, a) => (i == 7 || i == 8) && a < INDEXES
    case Low(_, a, b) => a < INDEXES && b < INDEXES
  }

  function ZoneOf(fs: Fs, k: nat, i: nat): u16 {
    if k < |fs.inodes| && i < |fs.inodes[k].zone| then fs.inodes[k].zone[i] else 0
  }

  /** The zone number in a slot, 0 if the slot or something on the way to it does not exist. */
  function Val(fs: Fs, s: Slot): u16 {
    match s
    case Top(k, i) => ZoneOf(fs, k, i)
    case Mid(k, i, a) => Via(fs, ZoneOf(fs, k, i), a)
    case Low(k, a, b) => Via(fs, Via(fs, ZoneOf(fs, k, 8), a), b)
  }

  /** The zone in this slot is an array of zone numbers. */
  predicate Indirect(s: Slot) {
    (s.Top? && (s.i == 7 || s.i == 8)) || (s.Mid? && s.i == 8)
  }

  function Child(s: Slot, j: nat): Slot
    requires Indirect(s)
  {
    match s
    case Top(k, i) => Mid(k, i, j)
    case Mid(k, _, a) => Low(k, a, j)
  }

  function Parent(s: Slot): Slot
    requires !s.Top?
  {
    match s
    case Mid(k, i, _) => Top(k, i)
    case Low(k, a, _) => Mid(k, 8, a)
  }

  function IndexIn(s: Slot): nat {
    match s
    case Top(_, i) => i
    case Mid(_, _, a) => a
    case Low(_, _, b) => b
  }

  // ---------------------------------------------------------------- the zone map

  predicate Used(fs: Fs, z: nat)
    requires 1 <= fs.first && |fs.zmap| == BLOCK_BITS
  {
    fs.first - 1 <= z < fs.first - 1 + BLOCK_BITS && fs.zmap[z - (fs.first - 1)]
  }

  ghost predicate Dims(fs: Fs) {
    1 <= fs.first <= fs.zones <= BLOCK_BITS && |fs.zmap| == BLOCK_BITS && |fs.blocks| == fs.zones &&
    forall k :: 0 <= k < |fs.inodes| ==> |fs.inodes[k].zone| == 9
  }

  predicate IsData(fs: Fs, z: nat) {
    fs.first <= z < fs.zones
  }

  /** minix_balloc: the first clear bit. It must stand for a zone of the disk. */
  function FreeBit(fs: Fs): nat {
    Bitmap.FirstRun(fs.zmap, 0, 1)
  }

  function Balloc(fs: Fs): Option<nat> {
    var bit := FreeBit(fs);
    if bit < |fs.zmap| && 0 <= bit + fs.first - 1 < fs.zones then Some(bit + fs.first - 1) else None
  }

  function Mark(fs: Fs, z: nat, value: bool): Fs {
    var bit := z - (fs.first - 1);
    if 0 <= bit < |fs.zmap| then fs.(zmap := fs.zmap[bit := value]) else fs
  }

  // ---------------------------------------------------------------- zone ownership

  ghost predicate Reached(fs: Fs, z: nat) {
    exists s :: InTable(fs, s) && Val(fs, s) == z
  }

  ghost predicate InBounds(fs: Fs)
    requires Dims(fs)
  {
    forall s :: InTable(fs, s) && Val(fs, s) != 0 ==> IsData(fs, Val(fs, s)) && Used(fs, Val(fs, s))
  }

  ghost predicate Same(fs: Fs, s: Slot, t: Slot) {
    InTable(fs, s) && InTable(fs, t) && Val(fs, s) == Val(fs, t) != 0 ==> s == t
  }

  ghost predicate Unique(fs: Fs) {
    forall s, t :: Same(fs, s, t)
  }

  ghost predicate AllReached(fs: Fs)
    requires Dims(fs)
  {
    forall z: nat :: IsData(fs, z) && Used(fs, z) ==> Reached(fs, z)
  }

  /** No zone is reached by two slots of any inodes, and the zone map marks exactly the zones
      reached and the reserved bit. */
  ghost predicate Inv(fs: Fs) {
    Dims(fs) && InBounds(fs) && Unique(fs) && AllReached(fs) && fs.zmap[0]
  }

  /** All zone numbers in the block are 0. */
  predicate NoZones(s: Block) {
    forall i: nat :: i < INDEXES ==> Word(s, i) == 0
  }

  predicate Zeroed(s: Block) {
    forall i :: 0 <= i < BLOCK_SIZE ==> s[i] == 0
  }

  /** Nothing clears a zone when it is handed out or given back, so that free zones read as
      zeros is an assumption about the disk, not something the code keeps. */
  ghost predicate FreeZonesClean(fs: Fs)
    requires Dims(fs)
  {
    forall z: nat :: IsData(fs, z) && !Used(fs, z) ==> Zeroed(fs.blocks[z])
  }
}
