/** The on-flash records of ampm_ff.c, what it takes for a sector to count as used, and what a file is. */
module AmpmFile {
  import opened Words

  const DISK_SECTOR_MAX: nat := 110    // sectors of the volume
  const DISK_SECTOR_SIZE: nat := 3840  // octets of data in a sector
  const PAGE: nat := 256
  const STATUS_OK: uint32 := 0xA5A5A5A5
  const STATUS_ERR: uint32 := 0x5A5A5A5A
  const FA_READ: uint32 := 0x01
  const FA_WRITE: uint32 := 0x02
  const NO_SECTOR: uint32 := 0xFFFFFFFF
  const SIZE_LIMIT: nat := 100000

  type Name = s: seq<byte> | |s| == 32 witness seq(32, _ => 0)
  type Data = s: seq<byte> | |s| == DISK_SECTOR_SIZE witness seq(DISK_SECTOR_SIZE, _ => 0xFF)

  // AMPM_FIL
  datatype Rec = Rec(name: Name, start: uint32, previous: uint32, current: uint32, next: uint32,
                     status: uint32, offset: uint32, permission: uint32, size: uint32, crc: uint32)

  // A sector: the header at its start, the link record after it, the close record after that, and the data.
  datatype Sector = Sector(header: Rec, link: Rec, close: Rec, data: Data)

  // Erased flash reads as ones.
  function Blank(): Rec {
    Rec(seq(32, _ => 0xFF), NO_SECTOR, NO_SECTOR, NO_SECTOR, NO_SECTOR, NO_SECTOR, NO_SECTOR, NO_SECTOR, NO_SECTOR,
        NO_SECTOR)
  }

  function BlankSector(): Sector {
    Sector(Blank(), Blank(), Blank(), seq(DISK_SECTOR_SIZE, _ => 0xFF))
  }

  // strlen
  function StrLen(s: seq<byte>): (n: nat)
    ensures n <= |s|
    decreases |s|
  {
    if |s| == 0 || s[0] == 0 then 0 else 1 + StrLen(s[1..])
  }

  function CStr(s: seq<byte>): seq<byte> { s[..StrLen(s)] }

  // strcpy into the name field of a record: the octets behind the terminator stay. What of a longer name runs over
  // into the other fields is overwritten by their own values, as long as it stays in the record.
  function StrCpy(was: Name, s: seq<byte>): Name {
    if |s| <= 31 then s + [0] + was[|s| + 1..] else s[..32]
  }

  lemma {:induction false} StrLenUnique(s: seq<byte>, n: nat)
    requires n < |s| && s[n] == 0 && forall i | 0 <= i < n :: s[i] != 0
    ensures StrLen(s) == n
    decreases n
  {
    if n == 0 {
    } else {
      StrLenUnique(s[1..], n - 1);
    }
  }

  lemma {:induction false} StrLenFull(s: seq<byte>)
    requires 0 !in s
    ensures StrLen(s) == |s|
    decreases |s|
  {
    if |s| == 0 {
    } else {
      StrLenFull(s[1..]);
    }
  }

  lemma StrCpyReads(was: Name, s: seq<byte>)
    requires |s| <= 31 && 0 !in s
    ensures CStr(StrCpy(was, s)) == s && StrLen(StrCpy(was, s)[..31]) == |s|
  {
    var t := StrCpy(was, s);
    StrLenUnique(t, |s|);
    assert t[..|s|] == s;
    if |s| < 31 {
      StrLenUnique(t[..31], |s|);
    } else {
      StrLenFull(t[..31]);
    }
  }

  // A name that does not fit has no terminator in the field.
  lemma StrCpyFull(was: Name, s: seq<byte>)
    requires |s| > 31 && 0 !in s
    ensures StrLen(StrCpy(was, s)[..31]) == 31
  {
    StrLenFull(StrCpy(was, s)[..31]);
  }

  // ampm_ff_checksum over a record without its crc: the sum of its octets.

  function Sum(s: seq<byte>): nat
    decreases |s|
  {
    if |s| == 0 then 0 else s[0] + Sum(s[1..])
  }

  lemma {:induction false} SumBound(s: seq<byte>)
    ensures Sum(s) <= 255 * |s|
    decreases |s|
  {
    if |s| == 0 {
    } else {
      SumBound(s[1..]);
    }
  }

  function Octets(w: uint32): (n: nat)
    ensures n <= 1020
  {
    w % 0x100 + w / 0x100 % 0x100 + w / 0x1_0000 % 0x100 + w / 0x100_0000
  }

  function Checksum(r: Rec): uint32 {
    SumBound(r.name);
    Sum(r.name) + Octets(r.start) + Octets(r.previous) + Octets(r.current) + Octets(r.next)
    + Octets(r.status) + Octets(r.offset) + Octets(r.permission) + Octets(r.size)
  }

  function Sealed(r: Rec): Rec { r.(crc := Checksum(r)) }

  // _ampm_f_file_format_check
  predicate FormatOk(r: Rec) {
    && r.name[0] != 0
    && r.start < DISK_SECTOR_MAX && r.current < DISK_SECTOR_MAX && r.previous < DISK_SECTOR_MAX
    && r.crc == Checksum(r)
    && r.status == STATUS_OK
    && r.offset <= r.size < SIZE_LIMIT
    && r.permission <= 0xFF
    && StrLen(r.name[..31]) < 29
  }

  lemma BlankIsBad()
    ensures !FormatOk(Blank())
  {}

  // The sectors of the volume and the one behind its end, which the probe loops also visit.
  type Disk = d: seq<Sector> | |d| == DISK_SECTOR_MAX + 1 witness seq(DISK_SECTOR_MAX + 1, _ => BlankSector())

  // The record ampm_f_file_format_check leaves: the header of the start sector that sector i names.
  function StartHeader(d: Disk, i: nat): Rec
    requires i <= DISK_SECTOR_MAX && FormatOk(d[i].header)
  {
    d[d[i].header.start].header
  }

  // ampm_f_file_format_check on the header of sector i.
  predicate Used(d: Disk, i: nat)
    requires i <= DISK_SECTOR_MAX
  {
    FormatOk(d[i].header) && FormatOk(StartHeader(d, i))
  }

  predicate InRange(order: seq<nat>) {
    forall k | 0 <= k < |order| :: order[k] <= DISK_SECTOR_MAX
  }

  // The sectors a probe that starts at s visits, in order: down from s - 1 to 0, then up from s + 1, one past the end.
  function ProbeOrder(s: nat): (p: seq<nat>)
    requires s < DISK_SECTOR_MAX
    ensures |p| == DISK_SECTOR_MAX && InRange(p)
    ensures forall k | 0 <= k < |p| :: p[k] == if k < s then s - 1 - k else k + 1
  {
    seq(DISK_SECTOR_MAX, k requires 0 <= k < DISK_SECTOR_MAX => if k < s then s - 1 - k else k + 1)
  }

  // The probe visits every sector except the one it starts at, and one that is not part of the volume.
  lemma ProbeVisits(s: nat, i: nat)
    requires s < DISK_SECTOR_MAX
    ensures i in ProbeOrder(s) <==> i <= DISK_SECTOR_MAX && i != s
  {
    var p := ProbeOrder(s);
    if i <= DISK_SECTOR_MAX && i != s {
      var k := if i < s then s - 1 - i else i - 1;
      assert p[k] == i;
    }
  }

  // A file: its name, its sectors in order, the octets written to it, and whether it has been closed.
  datatype File = File(name: seq<byte>, chain: seq<nat>, content: seq<byte>, closed: bool)

  ghost predicate GoodChain(chain: seq<nat>) {
    && |chain| >= 1
    && (forall j | 0 <= j < |chain| :: chain[j] < DISK_SECTOR_MAX)
    && forall j, k {:trigger Differ(chain, j, k)} | 0 <= j < k < |chain| :: Differ(chain, j, k)
  }

  predicate Differ(chain: seq<nat>, j: nat, k: nat)
    requires j < |chain| && k < |chain|
  {
    chain[j] != chain[k]
  }

  // A good header of a sector of the file that starts at start.
  predicate Heads(h: Rec, start: nat, name: seq<byte>) {
    FormatOk(h) && h.start == start && CStr(h.name) == name
  }

  predicate LeadsTo(l: Rec, next: nat) {
    FormatOk(l) && l.next == next
  }

  // Every sector of the chain carries a good header naming the first one, and the links lead from each to the next.
  ghost predicate Chained(d: Disk, f: File) {
    && GoodChain(f.chain)
    && (forall j {:trigger HeadedAt(d, f.chain, f.name, j)} | 0 <= j < |f.chain| :: HeadedAt(d, f.chain, f.name, j))
    && forall j {:trigger LinksOn(d, f.chain, j)} | 0 <= j < |f.chain| - 1 :: LinksOn(d, f.chain, j)
  }

  predicate HeadedAt(d: Disk, chain: seq<nat>, name: seq<byte>, j: nat)
    requires j < |chain| && chain[j] < DISK_SECTOR_MAX
  {
    Heads(d[chain[j]].header, chain[0], name)
  }

  predicate LinksOn(d: Disk, chain: seq<nat>, j: nat)
    requires j < |chain| - 1 && chain[j] < DISK_SECTOR_MAX
  {
    LeadsTo(d[chain[j]].link, chain[j + 1])
  }

  // The first n octets of the content are in flash, 3840 to a sector.
  ghost predicate Stored(d: Disk, f: File, n: nat)
    requires GoodChain(f.chain)
  {
    && n <= |f.content|
    && forall j, p {:trigger d[f.chain[j]].data[p]} |
         0 <= j < |f.chain| && 0 <= p < DISK_SECTOR_SIZE && 3840 * j + p < n ::
         d[f.chain[j]].data[p] == f.content[3840 * j + p]
  }

  // As many sectors as the content needs, and one more as soon as the last one is full.
  predicate SizeFits(f: File) {
    3840 * (|f.chain| - 1) <= |f.content| < 3840 * |f.chain|
  }

  // A closed file can be found again: the close record, the whole content, and no link behind the last sector.
  ghost predicate Finished(d: Disk, f: File)
    requires GoodChain(f.chain)
  {
    && SizeFits(f)
    && Stored(d, f, |f.content|)
    && !FormatOk(d[f.chain[|f.chain| - 1]].link)
    && Closes(d[f.chain[0]].close, f)
  }

  // The close record of a file.
  predicate Closes(c: Rec, f: File)
    requires |f.chain| > 0
  {
    FormatOk(c) && CStr(c.name) == f.name && c.start == c.current == c.previous == f.chain[0] && c.size == |f.content|
  }

  ghost predicate FileOk(d: Disk, f: File) {
    Chained(d, f) && if f.closed then Finished(d, f) else d[f.chain[0]].close == Blank()
  }

  // The files of a volume, by start sector.
  type Files = map<nat, File>

  ghost predicate FilesOk(d: Disk, files: Files) {
    forall s | s in files :: FileOk(d, files[s]) && files[s].chain[0] == s
  }

  // Every sector of a chain counts as used.
  lemma ChainIsUsed(d: Disk, f: File, j: nat)
    requires Chained(d, f) && j < |f.chain|
    ensures Used(d, f.chain[j])
  {
    assert HeadedAt(d, f.chain, f.name, j) && HeadedAt(d, f.chain, f.name, 0);
  }

  // A sector that tests free is on no chain.
  lemma FreeIsUnchained(d: Disk, files: Files, i: nat)
    requires FilesOk(d, files) && i <= DISK_SECTOR_MAX && !Used(d, i)
    ensures forall s | s in files :: i !in files[s].chain
  {
    forall s | s in files ensures i !in files[s].chain {
      var f := files[s];
      forall j | 0 <= j < |f.chain| ensures f.chain[j] != i { ChainIsUsed(d, f, j); }
    }
  }

  // The two places of a chain that hold the same sector are one.
  lemma Differs(chain: seq<nat>, j: nat, k: nat)
    requires GoodChain(chain) && j < |chain| && k < |chain| && chain[j] == chain[k]
    ensures j == k
  {
    assert j < k ==> Differ(chain, j, k);
    assert k < j ==> Differ(chain, k, j);
  }

  lemma SectorOfOne(d: Disk, files: Files, s: nat, t: nat, j: nat, k: nat)
    requires FilesOk(d, files) && s in files && t in files && j < |files[s].chain| && k < |files[t].chain|
    requires files[s].chain[j] == files[t].chain[k]
    ensures s == t && j == k
  {
    assert HeadedAt(d, files[s].chain, files[s].name, j) && HeadedAt(d, files[t].chain, files[t].name, k);
    Differs(files[s].chain, j, k);
  }

  // No sector is on two files' chains, or twice on one.
  lemma ChainsDisjoint(d: Disk, files: Files)
    requires FilesOk(d, files)
    ensures forall s, t, j, k | s in files && t in files && 0 <= j < |files[s].chain| && 0 <= k < |files[t].chain|
              && files[s].chain[j] == files[t].chain[k] :: s == t && j == k
  {
    forall s, t, j, k | s in files && t in files && 0 <= j < |files[s].chain| && 0 <= k < |files[t].chain|
              && files[s].chain[j] == files[t].chain[k] ensures s == t && j == k
    {
      SectorOfOne(d, files, s, t, j, k);
    }
  }

  // A file depends on its own sectors only.
  ghost predicate SameSectors(d: Disk, d': Disk, chain: seq<nat>)
    requires forall j | 0 <= j < |chain| :: chain[j] <= DISK_SECTOR_MAX
  {
    forall j | 0 <= j < |chain| :: d'[chain[j]] == d[chain[j]]
  }

  lemma ChainedFrame(d: Disk, d': Disk, f: File)
    requires Chained(d, f) && SameSectors(d, d', f.chain)
    ensures Chained(d', f)
  {
    ChainedWhenSame(d, d', f);
  }

  // Neither data nor close records matter to the chain.
  lemma ChainedWhenSame(d: Disk, d': Disk, f: File)
    requires Chained(d, f)
    requires forall j | 0 <= j < |f.chain| ::
               d'[f.chain[j]].header == d[f.chain[j]].header && d'[f.chain[j]].link == d[f.chain[j]].link
    ensures Chained(d', f)
  {
    forall j | 0 <= j < |f.chain| ensures HeadedAt(d', f.chain, f.name, j) {
      assert HeadedAt(d, f.chain, f.name, j);
    }
    forall j | 0 <= j < |f.chain| - 1 ensures LinksOn(d', f.chain, j) {
      assert LinksOn(d, f.chain, j);
    }
  }

  lemma StoredFrame(d: Disk, d': Disk, f: File, n: nat)
    requires GoodChain(f.chain) && Stored(d, f, n) && SameSectors(d, d', f.chain)
    ensures Stored(d', f, n)
  {}

  lemma FinishedFrame(d: Disk, d': Disk, f: File)
    requires GoodChain(f.chain) && Finished(d, f) && SameSectors(d, d', f.chain)
    ensures Finished(d', f)
  {
    StoredFrame(d, d', f, |f.content|);
    assert d'[f.chain[0]] == d[f.chain[0]];
    assert d'[f.chain[|f.chain| - 1]] == d[f.chain[|f.chain| - 1]];
  }

  lemma FileOkFrame(d: Disk, d': Disk, f: File)
    requires FileOk(d, f) && SameSectors(d, d', f.chain)
    ensures FileOk(d', f)
  {
    ChainedFrame(d, d', f);
    if f.closed {
      FinishedFrame(d, d', f);
    } else {
      assert d'[f.chain[0]] == d[f.chain[0]];
    }
  }

  // A change of the disk that touches no sector of any file, except those of the file starting at own.
  ghost predicate OthersKept(d: Disk, d': Disk, files: Files, own: nat)
    requires FilesOk(d, files)
  {
    forall s | s in files && s != own :: SameSectors(d, d', files[s].chain)
  }

  lemma OthersOk(d: Disk, d': Disk, files: Files, own: nat)
    requires FilesOk(d, files) && OthersKept(d, d', files, own)
    ensures FilesOk(d', files - {own})
  {
    forall s | s in files - {own} ensures FileOk(d', files[s]) { FileOkFrame(d, d', files[s]); }
  }

  // The own file takes on a new state.
  lemma NewFile(d0: Disk, d: Disk, files: Files, own: nat, f: File)
    requires FilesOk(d0, files) && OthersKept(d0, d, files, own) && FileOk(d, f) && f.chain[0] == own
    ensures FilesOk(d, files[own := f])
  {
    OthersOk(d0, d, files, own);
    var files' := files[own := f];
    forall s | s in files' ensures FileOk(d, files'[s]) && files'[s].chain[0] == s {
      if s != own { assert s in files - {own} && (files - {own})[s] == files[s]; }
    }
  }

  // A sector that tests free, whatever has been written to the own file, is none of the others'.
  lemma FreeIsApart(d: Disk, d1: Disk, files: Files, own: nat, i: nat)
    requires FilesOk(d, files) && OthersKept(d, d1, files, own) && i <= DISK_SECTOR_MAX && !Used(d1, i)
    ensures forall s | s in files && s != own :: i !in files[s].chain
  {
    var rest := files - {own};
    OthersOk(d, d1, files, own);
    FreeIsUnchained(d1, rest, i);
    forall s | s in files && s != own ensures i !in files[s].chain {
      assert s in rest && rest[s] == files[s];
    }
  }

  // Writing to a sector that is none of theirs leaves the others alone.
  lemma OverwriteOwn(d: Disk, d1: Disk, files: Files, own: nat, i: nat, x: Sector)
    requires FilesOk(d, files) && OthersKept(d, d1, files, own)
    requires i <= DISK_SECTOR_MAX && forall s | s in files && s != own :: i !in files[s].chain
    ensures OthersKept(d, d1[i := x], files, own)
  {}
}
