/** The volume in the octets of the flash: the writes of ampm_ff.c through the driver do to its sectors what
 * AmpmVolume takes its device to do. */
module AmpmDevice {
  import opened Words
  import opened AmpmFile
  import opened AmpmWriting
  import Sst25

  const VOLUME: nat := 0x92000     // AMPM_FLASH_START_ADDR
  const CHIP: nat := 0x40_0000     // FLASH_SIZE_MAX
  const REC: nat := 68             // sizeof(AMPM_FIL)
  const HEADER: nat := 256         // FILE_HEADER_SIZE

  // A 32-bit word, low octet first.

  function Le(w: uint32): (s: seq<byte>)
    ensures |s| == 4
  {
    [w % 0x100, w / 0x100 % 0x100, w / 0x1_0000 % 0x100, w / 0x100_0000]
  }

  function Word32(s: seq<byte>): uint32
    requires |s| == 4
  {
    var b0: nat, b1: nat, b2: nat, b3: nat := s[0], s[1], s[2], s[3];
    b0 + 0x100 * b1 + 0x1_0000 * b2 + 0x100_0000 * b3
  }

  lemma WordOfLe(w: uint32)
    ensures Word32(Le(w)) == w
  {
    var q := w / 0x1_0000;
    assert w / 0x100_0000 == q / 0x100;
    assert w / 0x100 == 0x100 * q + w / 0x100 % 0x100;
  }

  lemma OnesOfWord(s: seq<byte>)
    requires |s| == 4 && Word32(s) == NO_SECTOR
    ensures s[0] == s[1] == s[2] == s[3] == 0xFF
  {}

  // The octets of a record, and the record of some octets.

  type Octets68 = s: seq<byte> | |s| == REC witness seq(REC, _ => 0)

  function Image(r: Rec): Octets68 {
    r.name + Le(r.start) + Le(r.previous) + Le(r.current) + Le(r.next) + Le(r.status) + Le(r.offset)
    + Le(r.permission) + Le(r.size) + Le(r.crc)
  }

  function RecOf(s: Octets68): Rec {
    Rec(s[..32], Word32(s[32..36]), Word32(s[36..40]), Word32(s[40..44]), Word32(s[44..48]), Word32(s[48..52]),
        Word32(s[52..56]), Word32(s[56..60]), Word32(s[60..64]), Word32(s[64..68]))
  }

  lemma ImageParts(r: Rec, s: Octets68)
    requires s == Image(r)
    ensures s[..32] == r.name && s[32..36] == Le(r.start) && s[36..40] == Le(r.previous) && s[40..44] == Le(r.current)
    ensures s[44..48] == Le(r.next) && s[48..52] == Le(r.status) && s[52..56] == Le(r.offset)
    ensures s[56..60] == Le(r.permission) && s[60..64] == Le(r.size) && s[64..68] == Le(r.crc)
  {}

  // The low octet of a word comes first.
  lemma LowFirst(s: Octets68)
    ensures var b0: nat, b1: nat, b2: nat, b3: nat := s[32], s[33], s[34], s[35];
            RecOf(s).start == b0 + 0x100 * b1 + 0x1_0000 * b2 + 0x100_0000 * b3
  {}

  // A record reads back from its image.
  lemma RecOfImage(r: Rec)
    ensures RecOf(Image(r)) == r
  {
    ImageParts(r, Image(r));
    WordOfLe(r.start);
    WordOfLe(r.previous);
    WordOfLe(r.current);
    WordOfLe(r.next);
    WordOfLe(r.status);
    WordOfLe(r.offset);
    WordOfLe(r.permission);
    WordOfLe(r.size);
    WordOfLe(r.crc);
  }

  // A record reads as blank exactly if it is erased octet by octet.
  lemma BlankIsOnes(s: Octets68)
    ensures RecOf(s) == Blank() <==> forall p | 0 <= p < REC :: s[p] == 0xFF
  {
    if RecOf(s) == Blank() {
      forall p | 0 <= p < 32 ensures s[p] == 0xFF { assert s[..32][p] == 0xFF; }
      OnesOfWord(s[32..36]);
      OnesOfWord(s[36..40]);
      OnesOfWord(s[40..44]);
      OnesOfWord(s[44..48]);
      OnesOfWord(s[48..52]);
      OnesOfWord(s[52..56]);
      OnesOfWord(s[56..60]);
      OnesOfWord(s[60..64]);
      OnesOfWord(s[64..68]);
      forall p | 32 <= p < REC ensures s[p] == 0xFF { WordOctet(s, p); }
    }
    if forall p | 0 <= p < REC :: s[p] == 0xFF {
      assert s[..32] == seq(32, _ => 0xFF);
    }
  }

  // Every octet behind the name is in one of the words.
  lemma WordOctet(s: Octets68, p: nat)
    requires 32 <= p < REC
    ensures s[p] == s[p - p % 4..p - p % 4 + 4][p % 4]
    ensures p - p % 4 in {32, 36, 40, 44, 48, 52, 56, 60, 64}
  {}

  // The checksum of a record is the sum of its octets in front of it.

  lemma {:induction false} SumOfJoin(a: seq<byte>, b: seq<byte>)
    ensures Sum(a + b) == Sum(a) + Sum(b)
    decreases |a|
  {
    if |a| == 0 {
      assert a + b == b;
    } else {
      SumOfJoin(a[1..], b);
      assert (a + b)[1..] == a[1..] + b;
    }
  }

  lemma SumOfWord(s: seq<byte>)
    requires |s| == 4
    ensures Sum(s) == Octets(Word32(s))
  {
    var b0: nat, b1: nat, b2: nat, b3: nat := s[0], s[1], s[2], s[3];
    WordParts(b0, b1, b2, b3);
    assert s[1..][1..] == [s[2], s[3]] && [s[2], s[3]][1..] == [s[3]] && [s[3]][1..] == [];
    assert Sum([s[3]]) == b3 + Sum([]) && Sum([s[2], s[3]]) == b2 + Sum([s[3]]);
    assert Sum(s) == b0 + Sum(s[1..]) && Sum(s[1..]) == b1 + Sum(s[1..][1..]);
  }

  lemma WordParts(b0: nat, b1: nat, b2: nat, b3: nat)
    requires b0 < 0x100 && b1 < 0x100 && b2 < 0x100 && b3 < 0x100
    ensures var w := b0 + 0x100 * b1 + 0x1_0000 * b2 + 0x100_0000 * b3;
            w % 0x100 == b0 && w / 0x100 % 0x100 == b1 && w / 0x1_0000 % 0x100 == b2 && w / 0x100_0000 == b3
  {
    var w, v := b0 + 0x100 * b1 + 0x1_0000 * b2 + 0x100_0000 * b3, b2 + 0x100 * b3;
    assert w / 0x1_0000 == v && w / 0x100_0000 == v / 0x100;
    assert w / 0x100 == b1 + 0x100 * v;
  }

  lemma SumOfFour(s: Octets68, n: nat)
    requires n + 4 <= REC
    ensures Sum(s[..n + 4]) == Sum(s[..n]) + Octets(Word32(s[n..n + 4]))
  {
    assert s[..n + 4] == s[..n] + s[n..n + 4];
    SumOfJoin(s[..n], s[n..n + 4]);
    SumOfWord(s[n..n + 4]);
  }

  lemma ChecksumIsSum(s: Octets68)
    ensures Checksum(RecOf(s)) == Sum(s[..64])
  {
    hide Sum, Octets, Word32;
    SumOfFour(s, 32);
    SumOfFour(s, 36);
    SumOfFour(s, 40);
    SumOfFour(s, 44);
    SumOfFour(s, 48);
    SumOfFour(s, 52);
    SumOfFour(s, 56);
    SumOfFour(s, 60);
  }

  lemma SumOfChanged(s: seq<byte>, t: seq<byte>, p: nat)
    requires p < |s| == |t| && t == s[p := t[p]]
    ensures Sum(t) - t[p] == Sum(s) - s[p]
  {
    assert s == s[..p] + ([s[p]] + s[p + 1..]) && t == s[..p] + ([t[p]] + s[p + 1..]);
    SumOfJoin(s[..p], [s[p]] + s[p + 1..]);
    SumOfJoin(s[..p], [t[p]] + s[p + 1..]);
  }

  lemma CrcIsSum(s: Octets68)
    requires FormatOk(RecOf(s))
    ensures Word32(s[64..68]) == Sum(s[..64])
  {
    ChecksumIsSum(s);
  }

  // Two records that pass the format check do not differ in one octet only.
  lemma OneOctetShows(s: Octets68, t: Octets68, p: nat)
    requires p < REC && t == s[p := t[p]] && FormatOk(RecOf(s)) && FormatOk(RecOf(t))
    ensures s == t
  {
    hide Sum, FormatOk, RecOf, Word32;
    CrcIsSum(s);
    CrcIsSum(t);
    if p < 64 {
      assert t[..64] == s[..64][p := t[p]] && t[64..68] == s[64..68];
      SumOfChanged(s[..64], t[..64], p);
    } else {
      assert t[..64] == s[..64];
      SameWords(s[64..68], t[64..68]);
      assert t[p] == t[64..68][p - 64] == s[64..68][p - 64] == s[p];
    }
  }

  lemma SameWords(s: seq<byte>, t: seq<byte>)
    requires |s| == |t| == 4 && Word32(s) == Word32(t)
    ensures s == t
  {
    WordParts(s[0], s[1], s[2], s[3]);
    WordParts(t[0], t[1], t[2], t[3]);
  }

  function RecAt(mem: seq<byte>, a: nat): Rec
    requires a + REC <= |mem|
  {
    RecOf(mem[a..a + REC])
  }

  lemma SameSlice(mem: seq<byte>, mem': seq<byte>, a: nat, b: nat)
    requires a <= b <= |mem| == |mem'| && forall p | a <= p < b :: mem'[p] == mem[p]
    ensures mem'[a..b] == mem[a..b]
  {}

  lemma SliceOfSlice(mem: seq<byte>, a: nat, b: nat, at: nat, n: nat)
    requires a + at + n <= b <= |mem|
    ensures mem[a..b][at..at + n] == mem[a + at..a + at + n]
  {
    var x, y := mem[a..b][at..at + n], mem[a + at..a + at + n];
    forall p | 0 <= p < n ensures x[p] == y[p] { assert mem[a..b][at + p] == mem[a + at + p]; }
  }

  // A sector in memory.

  function Place(i: nat): nat { VOLUME + Sst25.SECTOR * i }

  function SectorAt(mem: seq<byte>, i: nat): Sector
    requires |mem| == CHIP && i <= DISK_SECTOR_MAX
  {
    var a := Place(i);
    Sector(RecAt(mem, a), RecAt(mem, a + REC), RecAt(mem, a + 2 * REC), mem[a + HEADER..a + Sst25.SECTOR])
  }

  // The volume goes from 0x92000 to the end of the first megabyte, the sector behind it starts there. A sector has its
  // header at 0, its link record at 68, its close record at 136, and its data from 256 on.
  lemma Layout(mem: seq<byte>, i: nat)
    requires |mem| == CHIP && i <= DISK_SECTOR_MAX
    ensures Place(0) == 0x92000 && Place(DISK_SECTOR_MAX) == 0x10_0000 && Place(i) == 0x92000 + 0x1000 * i
    ensures var s, a := SectorAt(mem, i), Place(i);
            && s.header == RecOf(mem[a..a + 68]) && s.link == RecOf(mem[a + 68..a + 136])
            && s.close == RecOf(mem[a + 136..a + 204]) && s.data == mem[a + 256..a + 0x1000]
  {}

  lemma PlaceIsStart(i: nat, p: nat)
    requires i <= DISK_SECTOR_MAX
    ensures Place(i) + Sst25.SECTOR <= CHIP
    ensures Sst25.Start(p) == Place(i) <==> Place(i) <= p < Place(i) + Sst25.SECTOR
    ensures Place(i) < p < Place(i) + Sst25.SECTOR ==> Sst25.Start(p) < p
  {
    assert Place(i) == Sst25.SECTOR * (146 + i);
    var q := p / Sst25.SECTOR;
    assert p == Sst25.SECTOR * q + p % Sst25.SECTOR;
  }

  // A write behind the start of a sector, that stays in it, erases nothing.
  lemma NoneStruck(i: nat, off: nat, n: nat, p: nat)
    requires i <= DISK_SECTOR_MAX && 0 < off && 0 < n && off + n <= Sst25.SECTOR
    ensures !Sst25.Struck(Place(i) + off, n, p)
  {
    assert Place(i) == Sst25.SECTOR * (146 + i);
  }

  // What a write behind the start of a sector does to the octets: none outside its range changes.
  lemma OnlyRange(mem: seq<byte>, mem': seq<byte>, i: nat, off: nat, data: seq<byte>)
    requires |mem| == CHIP && i <= DISK_SECTOR_MAX && 0 < off && 0 < |data| && off + |data| <= Sst25.SECTOR
    requires Sst25.Chunked(mem, mem', Place(i) + off, data)
    ensures |mem'| == CHIP
    ensures forall p | 0 <= p < CHIP && !(Place(i) + off <= p < Place(i) + off + |data|) :: mem'[p] == mem[p]
  {
    forall p | 0 <= p < CHIP && !(Place(i) + off <= p < Place(i) + off + |data|) ensures mem'[p] == mem[p] {
      NoneStruck(i, off, |data|, p);
    }
  }

  // Sectors whose octets have not changed have not changed.
  lemma SameSector(mem: seq<byte>, mem': seq<byte>, j: nat)
    requires |mem| == CHIP == |mem'| && j <= DISK_SECTOR_MAX
    requires forall p | Place(j) <= p < Place(j) + Sst25.SECTOR :: mem'[p] == mem[p]
    ensures SectorAt(mem', j) == SectorAt(mem, j)
  {
    hide RecOf;
    var a := Place(j);
    SameSlice(mem, mem', a, a + REC);
    SameSlice(mem, mem', a + REC, a + 2 * REC);
    SameSlice(mem, mem', a + 2 * REC, a + 3 * REC);
    SameSlice(mem, mem', a + HEADER, a + Sst25.SECTOR);
  }

  // A record that can be written over a blank one.
  lemma BlankIsProgrammable(mem: seq<byte>, i: nat, off: nat, data: seq<byte>)
    requires |mem| == CHIP && i <= DISK_SECTOR_MAX && 0 < off && 0 < |data| && off + |data| <= Sst25.SECTOR
    requires forall p | Place(i) + off <= p < Place(i) + off + |data| :: mem[p] == 0xFF
    ensures Place(i) + off + |data| <= |mem| && Sst25.Programmable(mem, Place(i) + off, data)
  {
    Sst25.ErasedIsProgrammable(mem, Place(i) + off, data);
  }

  // The other sectors stay when a write stays in its own.
  lemma OthersSame(mem: seq<byte>, mem': seq<byte>, i: nat, off: nat, n: nat)
    requires |mem| == CHIP == |mem'| && i <= DISK_SECTOR_MAX && off + n <= Sst25.SECTOR
    requires forall p | 0 <= p < CHIP && !(Place(i) + off <= p < Place(i) + off + n) :: mem'[p] == mem[p]
    ensures forall j | 0 <= j <= DISK_SECTOR_MAX && j != i :: SectorAt(mem', j) == SectorAt(mem, j)
  {
    forall j | 0 <= j <= DISK_SECTOR_MAX && j != i
      ensures SectorAt(mem', j) == SectorAt(mem, j)
    {
      SameSector(mem, mem', j);
    }
  }

  lemma RecSame(mem: seq<byte>, mem': seq<byte>, a: nat)
    requires a + REC <= |mem| == |mem'| && forall p | a <= p < a + REC :: mem'[p] == mem[p]
    ensures RecAt(mem', a) == RecAt(mem, a)
  {
    SameSlice(mem, mem', a, a + REC);
  }

  lemma PartsOf(mem: seq<byte>, i: nat)
    requires |mem| == CHIP && i <= DISK_SECTOR_MAX
    ensures var x, a := SectorAt(mem, i), Place(i);
            && x.header == RecAt(mem, a) && x.link == RecAt(mem, a + REC) && x.close == RecAt(mem, a + 2 * REC)
            && x.data == mem[a + HEADER..a + Sst25.SECTOR]
  {}

  // The parts of the own sector outside the range stay, too.
  ghost predicate SameOutside(mem: seq<byte>, mem': seq<byte>, i: nat, off: nat, n: nat) {
    && |mem| == CHIP == |mem'|
    && forall p | 0 <= p < CHIP && !(Place(i) + off <= p < Place(i) + off + n) :: mem'[p] == mem[p]
  }

  lemma LinkOnly(mem: seq<byte>, mem': seq<byte>, i: nat)
    requires i <= DISK_SECTOR_MAX && SameOutside(mem, mem', i, REC, REC)
    ensures SectorAt(mem', i) == WithLink(SectorAt(mem, i), SectorAt(mem', i).link)
  {
    var a := Place(i);
    RecSame(mem, mem', a);
    RecSame(mem, mem', a + 2 * REC);
    SameSlice(mem, mem', a + HEADER, a + Sst25.SECTOR);
    PartsOf(mem, i);
    PartsOf(mem', i);
  }

  lemma CloseOnly(mem: seq<byte>, mem': seq<byte>, i: nat)
    requires i <= DISK_SECTOR_MAX && SameOutside(mem, mem', i, 2 * REC, REC)
    ensures SectorAt(mem', i) == WithClose(SectorAt(mem, i), SectorAt(mem', i).close)
  {
    var a := Place(i);
    RecSame(mem, mem', a);
    RecSame(mem, mem', a + REC);
    SameSlice(mem, mem', a + HEADER, a + Sst25.SECTOR);
    PartsOf(mem, i);
    PartsOf(mem', i);
  }

  lemma DataOnly(mem: seq<byte>, mem': seq<byte>, i: nat, off: nat, n: nat)
    requires i <= DISK_SECTOR_MAX && HEADER <= off && SameOutside(mem, mem', i, off, n)
    ensures SectorAt(mem', i) == SectorAt(mem, i).(data := SectorAt(mem', i).data)
  {
    var a := Place(i);
    RecSame(mem, mem', a);
    RecSame(mem, mem', a + REC);
    RecSame(mem, mem', a + 2 * REC);
    PartsOf(mem, i);
    PartsOf(mem', i);
  }

  // Writing a record over a blank one: it is there if the write is reported good, and is on a device that does not
  // fail.
  lemma RecWritten(mem: seq<byte>, mem': seq<byte>, i: nat, off: nat, r: Rec, ok: bool, sure: bool)
    requires |mem| == CHIP && i <= DISK_SECTOR_MAX && 0 < off && off + REC <= HEADER && Place(i) + off + REC <= CHIP
    requires Sst25.Chunked(mem, mem', Place(i) + off, Image(r))
    requires ok ==> Sst25.Holds(mem', Place(i) + off, Image(r))
    requires sure ==> (ok <==> Sst25.Programmable(mem, Place(i) + off, Image(r)))
    ensures |mem'| == CHIP && (ok ==> RecAt(mem', Place(i) + off) == r)
    ensures sure && RecAt(mem, Place(i) + off) == Blank() ==> ok
  {
    RecOfImage(r);
    if sure && RecAt(mem, Place(i) + off) == Blank() {
      var was := mem[Place(i) + off..Place(i) + off + REC];
      BlankIsOnes(was);
      forall p | Place(i) + off <= p < Place(i) + off + REC
        ensures mem[p] == 0xFF
      {
        assert was[p - (Place(i) + off)] == 0xFF;
      }
      BlankIsProgrammable(mem, i, off, Image(r));
    }
  }

  // A page in the data of a sector.
  lemma PageWritten(mem: seq<byte>, mem': seq<byte>, i: nat, at: nat, page: seq<byte>, ok: bool, sure: bool)
    requires |mem| == CHIP && i <= DISK_SECTOR_MAX && at + PAGE <= DISK_SECTOR_SIZE && |page| == PAGE
    requires Place(i) + Sst25.SECTOR <= CHIP
    requires Sst25.Chunked(mem, mem', Place(i) + (HEADER + at), page)
    requires ok ==> Sst25.Holds(mem', Place(i) + (HEADER + at), page)
    requires sure ==> (ok <==> Sst25.Programmable(mem, Place(i) + (HEADER + at), page))
    ensures |mem'| == CHIP && (ok ==> PageAt(SectorAt(mem', i), at) == page)
    ensures SectorAt(mem', i) == WithPage(SectorAt(mem, i), at, PageAt(SectorAt(mem', i), at))
    ensures sure && (forall p | at <= p < at + PAGE :: SectorAt(mem, i).data[p] == 0xFF) ==> ok
  {
    hide SectorAt;
    OnlyRange(mem, mem', i, HEADER + at, page);
    PageOnly(mem, mem', i, at);
    if sure && forall p | at <= p < at + PAGE :: SectorAt(mem, i).data[p] == 0xFF { ErasedPage(mem, i, at, page); }
  }

  lemma PageOnly(mem: seq<byte>, mem': seq<byte>, i: nat, at: nat)
    requires i <= DISK_SECTOR_MAX && at + PAGE <= DISK_SECTOR_SIZE && Place(i) + Sst25.SECTOR <= CHIP
    requires SameOutside(mem, mem', i, HEADER + at, PAGE)
    ensures SectorAt(mem', i) == WithPage(SectorAt(mem, i), at, PageAt(SectorAt(mem', i), at))
    ensures PageAt(SectorAt(mem', i), at) == mem'[Place(i) + (HEADER + at)..Place(i) + (HEADER + at) + PAGE]
  {
    var a := Place(i) + HEADER;
    PartsOf(mem, i);
    PartsOf(mem', i);
    DataOnly(mem, mem', i, HEADER + at, PAGE);
    hide SectorAt;
    SliceOfSlice(mem', a, a + DISK_SECTOR_SIZE, at, PAGE);
    PageData(mem, mem', a, at, mem'[a + at..a + at + PAGE]);
  }

  lemma ErasedPage(mem: seq<byte>, i: nat, at: nat, page: seq<byte>)
    requires |mem| == CHIP && i <= DISK_SECTOR_MAX && at + PAGE <= DISK_SECTOR_SIZE && |page| == PAGE
    requires forall p | at <= p < at + PAGE :: SectorAt(mem, i).data[p] == 0xFF
    ensures Sst25.Programmable(mem, Place(i) + (HEADER + at), page)
  {
    var a := Place(i) + HEADER;
    forall p | a + at <= p < a + at + PAGE ensures mem[p] == 0xFF {
      assert SectorAt(mem, i).data[p - a] == 0xFF && mem[a..a + DISK_SECTOR_SIZE][p - a] == mem[p];
    }
    BlankIsProgrammable(mem, i, HEADER + at, page);
  }

  lemma PageData(mem: seq<byte>, mem': seq<byte>, a: nat, at: nat, page: seq<byte>)
    requires |mem| == |mem'| && a + DISK_SECTOR_SIZE <= |mem| && at + PAGE <= DISK_SECTOR_SIZE && |page| == PAGE
    requires mem'[a + at..a + at + PAGE] == page
    requires forall p | a <= p < a + DISK_SECTOR_SIZE && !(a + at <= p < a + at + PAGE) :: mem'[p] == mem[p]
    ensures mem'[a..a + DISK_SECTOR_SIZE]
         == mem[a..a + DISK_SECTOR_SIZE][..at] + page + mem[a..a + DISK_SECTOR_SIZE][at + PAGE..]
  {
    var now, was := mem'[a..a + DISK_SECTOR_SIZE], mem[a..a + DISK_SECTOR_SIZE];
    var want := was[..at] + page + was[at + PAGE..];
    forall j | 0 <= j < DISK_SECTOR_SIZE ensures now[j] == want[j] {
      assert now[j] == mem'[a + j] && was[j] == mem[a + j];
      if j < at {
        assert want[j] == was[..at][j];
      } else if j < at + PAGE {
        assert mem'[a + at..a + at + PAGE][j - at] == page[j - at] == want[j];
      } else {
        assert want[j] == was[at + PAGE..][j - (at + PAGE)];
      }
    }
  }

  // A page that runs on into the next sector, which is erased for it.
  lemma SpillWritten(mem: seq<byte>, mem': seq<byte>, i: nat, at: nat, page: seq<byte>)
    requires |mem| == CHIP && i < DISK_SECTOR_MAX && at < DISK_SECTOR_SIZE < at + PAGE && |page| == PAGE
    requires Sst25.Chunked(mem, mem', Place(i) + (HEADER + at), page)
    ensures SameOutside(mem, mem', i, HEADER + at, 2 * Sst25.SECTOR - (HEADER + at))
  {
    forall p | 0 <= p < CHIP && !(Place(i) + (HEADER + at) <= p < Place(i) + 2 * Sst25.SECTOR)
      ensures mem'[p] == mem[p]
    {
      StruckNext(i, HEADER + at, p);
    }
  }

  lemma StruckNext(i: nat, off: nat, p: nat)
    requires i < DISK_SECTOR_MAX && 0 < off < Sst25.SECTOR < off + PAGE
    ensures Sst25.Struck(Place(i) + off, PAGE, p) ==> Place(i) + Sst25.SECTOR <= p < Place(i) + 2 * Sst25.SECTOR
  {
    assert Place(i) == Sst25.SECTOR * (146 + i);
    var q := p / Sst25.SECTOR;
    assert p == Sst25.SECTOR * q + p % Sst25.SECTOR;
  }

  // A header at the start of a sector: the sector is erased before.
  lemma HeaderWritten(mem: seq<byte>, mem': seq<byte>, i: nat, r: Rec, ok: bool, sure: bool)
    requires |mem| == CHIP && i <= DISK_SECTOR_MAX && Place(i) + Sst25.SECTOR <= CHIP
    requires Sst25.Chunked(mem, mem', Place(i), Image(r))
    requires ok ==> Sst25.Holds(mem', Place(i), Image(r))
    requires sure ==> (ok <==> Sst25.Programmable(mem, Place(i), Image(r)))
    requires sure && ok ==> Sst25.Written(mem, mem', Place(i), Image(r))
    ensures |mem'| == CHIP && forall j | 0 <= j <= DISK_SECTOR_MAX && j != i :: SectorAt(mem', j) == SectorAt(mem, j)
    ensures ok ==> SectorAt(mem', i).header == r
    ensures sure ==> ok && SectorAt(mem', i) == WithHeader(r)
  {
    var a := Place(i);
    forall p | 0 <= p < CHIP && !(a <= p < a + Sst25.SECTOR) ensures mem'[p] == mem[p] { StruckAtStart(i, p); }
    OthersSame(mem, mem', i, 0, Sst25.SECTOR);
    if sure {
      HeaderFits(mem, i, Image(r));
      forall p | a + REC <= p < a + Sst25.SECTOR ensures mem'[p] == 0xFF { StruckAtStart(i, p); }
      RestBlank(mem', i);
    }
    RecOfImage(r);
  }

  lemma HeaderFits(mem: seq<byte>, i: nat, image: seq<byte>)
    requires |mem| == CHIP && i <= DISK_SECTOR_MAX && Place(i) + REC <= CHIP && |image| == REC
    ensures Sst25.Programmable(mem, Place(i), image)
  {
    var a := Place(i);
    forall p | a <= p < a + REC ensures Sst25.Fits(Sst25.Base(mem, a, REC, p), image[p - a]) {
      StruckAtStart(i, p);
      Sst25.AndErased(image[p - a]);
    }
  }

  lemma StruckAtStart(i: nat, p: nat)
    requires i <= DISK_SECTOR_MAX
    ensures Sst25.Struck(Place(i), REC, p) <==> Place(i) <= p < Place(i) + Sst25.SECTOR
  {
    assert Place(i) == Sst25.SECTOR * (146 + i);
    var q := p / Sst25.SECTOR;
    assert p == Sst25.SECTOR * q + p % Sst25.SECTOR;
  }

  lemma OnesSlice(mem: seq<byte>, a: nat, n: nat)
    requires a + n <= |mem| && forall p | a <= p < a + n :: mem[p] == 0xFF
    ensures mem[a..a + n] == seq(n, _ => 0xFF)
  {}

  lemma OnesAreBlank(mem: seq<byte>, a: nat)
    requires a + REC <= |mem| && forall p | a <= p < a + REC :: mem[p] == 0xFF
    ensures RecAt(mem, a) == Blank()
  {
    BlankIsOnes(mem[a..a + REC]);
  }

  lemma RestBlank(mem: seq<byte>, i: nat)
    requires |mem| == CHIP && i <= DISK_SECTOR_MAX && Place(i) + Sst25.SECTOR <= CHIP
    requires forall p | Place(i) + REC <= p < Place(i) + Sst25.SECTOR :: mem[p] == 0xFF
    ensures SectorAt(mem, i) == WithHeader(SectorAt(mem, i).header)
  {
    var a := Place(i);
    OnesAreBlank(mem, a + REC);
    OnesAreBlank(mem, a + 2 * REC);
    OnesSlice(mem, a + HEADER, DISK_SECTOR_SIZE);
  }

  lemma SectorErased(mem: seq<byte>, i: nat)
    requires |mem| == CHIP && i <= DISK_SECTOR_MAX && Place(i) + Sst25.SECTOR <= CHIP
    requires forall p | Place(i) <= p < Place(i) + Sst25.SECTOR :: mem[p] == 0xFF
    ensures SectorAt(mem, i) == BlankSector()
  {
    OnesAreBlank(mem, Place(i));
    RestBlank(mem, i);
  }

  // The disk that is in memory.
  function View(mem: seq<byte>): Disk
    requires |mem| == CHIP
  {
    seq(DISK_SECTOR_MAX + 1, i requires 0 <= i <= DISK_SECTOR_MAX => SectorAt(mem, i))
  }

  lemma OnlyOne(mem: seq<byte>, mem': seq<byte>, i: nat)
    requires |mem| == CHIP == |mem'| && i <= DISK_SECTOR_MAX
    requires forall j | 0 <= j <= DISK_SECTOR_MAX && j != i :: SectorAt(mem', j) == SectorAt(mem, j)
    ensures OnlyAt(View(mem), View(mem'), i) && View(mem)[i] == SectorAt(mem, i) && View(mem')[i] == SectorAt(mem', i)
  {
    hide SectorAt;
    var d, d' := View(mem), View(mem');
    forall j | 0 <= j <= DISK_SECTOR_MAX ensures d'[j] == d[i := d'[i]][j] {}
  }

  lemma OnlyTwo(mem: seq<byte>, mem': seq<byte>, i: nat)
    requires |mem| == CHIP == |mem'| && i < DISK_SECTOR_MAX
    requires forall j | 0 <= j <= DISK_SECTOR_MAX && j != i && j != i + 1 :: SectorAt(mem', j) == SectorAt(mem, j)
    requires SectorAt(mem', i) == SectorAt(mem, i).(data := SectorAt(mem', i).data)
    ensures SpillWrite(View(mem), View(mem'), i)
  {
    hide SectorAt;
    var d, d' := View(mem), View(mem');
    forall j | 0 <= j <= DISK_SECTOR_MAX ensures d'[j] == d[i := d'[i]][i + 1 := d'[i + 1]][j] {}
  }

  // The device of a volume: the flash, and what ampm_ff.c asks of it. The contracts are those of the methods of the
  // same names in AmpmVolume.Volume, on the disk that is in the flash.
  class Device {
    const flash: Sst25.Flash

    ghost predicate Valid()
      reads this, flash
    {
      |flash.mem| == CHIP
    }

    ghost function Contents(): Disk
      requires Valid()
      reads this, flash
    {
      View(flash.mem)
    }

    constructor (flash: Sst25.Flash)
      ensures this.flash == flash
    {
      this.flash := flash;
    }

    // ampm_flash_read of a record of a sector. What a failed read leaves may be anything.
    method ReadRec(i: nat, off: nat) returns (ok: bool, r: Rec)
      requires Valid() && i <= DISK_SECTOR_MAX && off + REC <= HEADER
      ensures (ok ==> r == RecAt(flash.mem, Place(i) + off)) && (flash.reliable ==> ok)
    {
      PlaceIsStart(i, 0);
      var s;
      ok, s := flash.Read(Place(i) + off, REC);
      if ok { r := RecOf(s); } else { r := *; }
    }

    method ReadHeader(i: nat) returns (ok: bool, r: Rec)
      requires Valid() && i <= DISK_SECTOR_MAX
      ensures (ok ==> r == Contents()[i].header) && (flash.reliable ==> ok)
    {
      PartsOf(flash.mem, i);
      ok, r := ReadRec(i, 0);
    }

    method ReadLink(i: nat) returns (ok: bool, r: Rec)
      requires Valid() && i <= DISK_SECTOR_MAX
      ensures (ok ==> r == Contents()[i].link) && (flash.reliable ==> ok)
    {
      PartsOf(flash.mem, i);
      ok, r := ReadRec(i, REC);
    }

    method ReadClose(i: nat) returns (ok: bool, r: Rec)
      requires Valid() && i <= DISK_SECTOR_MAX
      ensures (ok ==> r == Contents()[i].close) && (flash.reliable ==> ok)
    {
      PartsOf(flash.mem, i);
      ok, r := ReadRec(i, 2 * REC);
    }

    method ReadData(i: nat, at: nat, n: nat) returns (ok: bool, s: seq<byte>)
      requires Valid() && i <= DISK_SECTOR_MAX && at + n <= DISK_SECTOR_SIZE
      ensures (ok ==> s == Contents()[i].data[at..at + n]) && (flash.reliable ==> ok)
    {
      hide RecOf, SectorAt;
      PlaceIsStart(i, 0);
      PartsOf(flash.mem, i);
      ok, s := flash.Read(Place(i) + (HEADER + at), n);
      SliceOfSlice(flash.mem, Place(i) + HEADER, Place(i) + Sst25.SECTOR, at, n);
    }

    method ProgramHeader(i: nat, r: Rec) returns (ok: bool)
      requires Valid() && i <= DISK_SECTOR_MAX
      modifies flash
      ensures Valid() && HeaderWrite(old(Contents()), Contents(), i, r, ok, flash.reliable)
    {
      hide SectorAt, Image, View;
      ghost var mem := flash.mem;
      PlaceIsStart(i, 0);
      ok := flash.Write(Place(i), Image(r));
      assert Image(r)[..REC] == Image(r);
      HeaderWritten(mem, flash.mem, i, r, ok, flash.reliable);
      OnlyOne(mem, flash.mem, i);
    }

    method ProgramRec(i: nat, off: nat, r: Rec) returns (ok: bool)
      requires Valid() && i <= DISK_SECTOR_MAX && 0 < off && off + REC <= HEADER
      modifies flash
      ensures Valid() && OnlyAt(old(Contents()), Contents(), i) && SameOutside(old(flash.mem), flash.mem, i, off, REC)
      ensures Contents()[i] == SectorAt(flash.mem, i) && old(Contents())[i] == SectorAt(old(flash.mem), i)
      ensures Place(i) + off + REC <= CHIP && (ok ==> RecAt(flash.mem, Place(i) + off) == r)
      ensures flash.reliable && RecAt(old(flash.mem), Place(i) + off) == Blank() ==> ok
    {
      hide SectorAt, Image, View;
      ghost var mem := flash.mem;
      PlaceIsStart(i, 0);
      ok := flash.Write(Place(i) + off, Image(r));
      assert Image(r)[..REC] == Image(r);
      OnlyRange(mem, flash.mem, i, off, Image(r));
      OthersSame(mem, flash.mem, i, off, REC);
      RecWritten(mem, flash.mem, i, off, r, ok, flash.reliable);
      OnlyOne(mem, flash.mem, i);
    }

    method ProgramLink(i: nat, r: Rec) returns (ok: bool)
      requires Valid() && i <= DISK_SECTOR_MAX
      modifies flash
      ensures Valid() && LinkWrite(old(Contents()), Contents(), i, r, ok, flash.reliable)
    {
      hide View, RecAt;
      ghost var mem := flash.mem;
      ok := ProgramRec(i, REC, r);
      LinkOnly(mem, flash.mem, i);
    }

    method ProgramClose(i: nat, r: Rec) returns (ok: bool)
      requires Valid() && i <= DISK_SECTOR_MAX
      modifies flash
      ensures Valid() && CloseWrite(old(Contents()), Contents(), i, r, ok, flash.reliable)
    {
      hide View, RecAt;
      ghost var mem := flash.mem;
      ok := ProgramRec(i, 2 * REC, r);
      CloseOnly(mem, flash.mem, i);
    }

    method ProgramPage(i: nat, at: nat, page: seq<byte>) returns (ok: bool)
      requires Valid() && i <= DISK_SECTOR_MAX && at + PAGE <= DISK_SECTOR_SIZE && |page| == PAGE
      modifies flash
      ensures Valid() && PageWrite(old(Contents()), Contents(), i, at, page, ok, flash.reliable)
    {
      hide View, SectorAt;
      ghost var mem := flash.mem;
      PlaceIsStart(i, 0);
      ok := flash.Write(Place(i) + (HEADER + at), page);
      assert page[..PAGE] == page;
      OnlyRange(mem, flash.mem, i, HEADER + at, page);
      OthersSame(mem, flash.mem, i, HEADER + at, PAGE);
      PageWritten(mem, flash.mem, i, at, page, ok, flash.reliable);
      OnlyOne(mem, flash.mem, i);
    }

    method SpillPage(i: nat, at: nat, page: seq<byte>)
      requires Valid() && i < DISK_SECTOR_MAX && at < DISK_SECTOR_SIZE < at + PAGE && |page| == PAGE
      modifies flash
      ensures Valid() && SpillWrite(old(Contents()), Contents(), i)
    {
      hide View, SectorAt;
      ghost var mem := flash.mem;
      PlaceIsStart(i + 1, 0);
      var ok := flash.Write(Place(i) + (HEADER + at), page);
      assert page[..PAGE] == page;
      SpillWritten(mem, flash.mem, i, at, page);
      forall j | 0 <= j <= DISK_SECTOR_MAX && j != i && j != i + 1 ensures SectorAt(flash.mem, j) == SectorAt(mem, j) {
        SameSector(mem, flash.mem, j);
      }
      DataOnly(mem, flash.mem, i, HEADER + at, 2 * Sst25.SECTOR - (HEADER + at));
      OnlyTwo(mem, flash.mem, i);
    }

    method Erase(i: nat)
      requires Valid() && i <= DISK_SECTOR_MAX
      modifies flash
      ensures Valid() && SectorErase(old(Contents()), Contents(), i, flash.reliable)
    {
      hide View, SectorAt;
      ghost var mem := flash.mem;
      PlaceIsStart(i, 0);
      flash.Erase(Place(i));
      OthersSame(mem, flash.mem, i, 0, Sst25.SECTOR);
      if flash.reliable { SectorErased(flash.mem, i); }
      OnlyOne(mem, flash.mem, i);
    }
  }
}
