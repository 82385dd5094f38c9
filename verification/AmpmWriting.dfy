/** A file being written: what ampm_f_open (create), ampm_f_write and ampm_f_close keep true of the disk,
    the file record and the page buffer. */
module AmpmWriting {
  import opened Words
  import opened AmpmFile

  function Last<T>(s: seq<T>): T
    requires |s| > 0
  {
    s[|s| - 1]
  }

  // The octets of n that are in full pages.
  function Flushed(n: nat): nat { n - n % PAGE }

  // The record of a file being written.
  ghost predicate Describes(r: Rec, f: File)
    requires |f.chain| > 0
  {
    && r.name[0] != 0 && StrLen(r.name[..31]) < 29 && CStr(r.name) == f.name
    && r.start == f.chain[0] && r.current == Last(f.chain) && r.previous < DISK_SECTOR_MAX
    && r.status == STATUS_OK && r.permission == FA_WRITE && r.offset == r.size == |f.content|
  }

  // The first done octets are in flash, the rest of the last sector is erased, and what is not in flash is in the
  // buffer.
  ghost predicate Pages(d: Disk, f: File, buf: seq<byte>, done: nat)
    requires GoodChain(f.chain)
  {
    && |buf| == PAGE
    && 3840 * (|f.chain| - 1) <= done <= |f.content| < done + PAGE
    && |f.content| <= 3840 * |f.chain|
    && Stored(d, f, done)
    && (forall p | done - 3840 * (|f.chain| - 1) <= p < DISK_SECTOR_SIZE :: d[Last(f.chain)].data[p] == 0xFF)
    && forall p | 0 <= p < |f.content| - done :: buf[p] == f.content[done + p]
  }

  ghost predicate Writing(d: Disk, f: File, r: Rec, buf: seq<byte>) {
    && Chained(d, f) && !f.closed && |f.content| < SIZE_LIMIT
    && Describes(r, f)
    && Pages(d, f, buf, Flushed(|f.content|))
    && d[Last(f.chain)].link == Blank() && d[f.chain[0]].close == Blank()
  }

  // ... and the last sector is not full, as it is between calls.
  ghost predicate Ready(d: Disk, f: File, r: Rec, buf: seq<byte>) {
    Writing(d, f, r, buf) && SizeFits(f)
  }

  // Creating a file.

  function NewRec(was: Rec, name: seq<byte>, i: uint32): Rec {
    Sealed(Rec(StrCpy(was.name, name), i, i, i, NO_SECTOR, STATUS_OK, 0, FA_WRITE, 0, 0))
  }

  // SST25_Write at the start of a sector erases it first.
  function WithHeader(r: Rec): Sector { BlankSector().(header := r) }

  lemma NewRecOk(was: Rec, name: seq<byte>, i: uint32)
    requires 1 <= |name| <= 28 && 0 !in name && i < DISK_SECTOR_MAX
    ensures Heads(NewRec(was, name, i), i, name)
  {
    StrCpyReads(was.name, name);
  }

  lemma CreateReady(d: Disk, was: Rec, name: seq<byte>, i: uint32, buf: seq<byte>)
    requires 1 <= |name| <= 28 && 0 !in name && i < DISK_SECTOR_MAX && |buf| == PAGE
    ensures Ready(d[i := WithHeader(NewRec(was, name, i))], File(name, [i], [], false), NewRec(was, name, i), buf)
  {
    NewRecOk(was, name, i);
    StrCpyReads(was.name, name);
  }

  // Writing one octet.

  function Advance(r: Rec): Rec
    requires r.size < 0xFFFFFFFF && r.offset < 0xFFFFFFFF
  {
    r.(size := r.size + 1, offset := r.offset + 1)
  }

  function Extend(f: File, b: byte): File { f.(content := f.content + [b]) }

  lemma DescribesNext(r: Rec, f: File, b: byte)
    requires |f.chain| > 0 && Describes(r, f) && |f.content| < SIZE_LIMIT
    ensures Describes(Advance(r), Extend(f, b))
  {}

  lemma ChainedNext(d: Disk, f: File, b: byte)
    requires Chained(d, f)
    ensures Chained(d, Extend(f, b))
  {}

  lemma PagesNext(d: Disk, f: File, buf: seq<byte>, done: nat, b: byte)
    requires GoodChain(f.chain) && Pages(d, f, buf, done)
    requires |f.content| + 1 < done + PAGE && |f.content| < 3840 * |f.chain|
    ensures Pages(d, Extend(f, b), buf[|f.content| - done := b], done)
  {}

  lemma BufferOctet(d: Disk, f: File, r: Rec, buf: seq<byte>, b: byte)
    requires Ready(d, f, r, buf) && |f.content| + 1 < SIZE_LIMIT && (|f.content| + 1) % PAGE != 0
    ensures Ready(d, Extend(f, b), Advance(r), buf[|f.content| % PAGE := b])
  {
    var n, q := |f.content|, |f.chain|;
    NotFull(n, q);
    DescribesNext(r, f, b);
    ChainedNext(d, f, b);
    PagesNext(d, f, buf, Flushed(n), b);
  }

  lemma NotFull(n: nat, chain: nat)
    requires n < 3840 * chain && (n + 1) % PAGE != 0
    ensures n + 1 < 3840 * chain && Flushed(n + 1) == Flushed(n) && n + 1 < Flushed(n) + PAGE
  {
    assert 3840 * chain == PAGE * (15 * chain) && (PAGE * (15 * chain)) % PAGE == 0;
  }

  // The page buffer goes to flash when it is full.
  function WithPage(x: Sector, at: nat, page: seq<byte>): Sector
    requires at + PAGE <= DISK_SECTOR_SIZE && |page| == PAGE
  {
    x.(data := x.data[..at] + page + x.data[at + PAGE..])
  }

  lemma OffsetInSector(x: nat, chain: nat)
    requires chain >= 1 && 3840 * (chain - 1) <= x < 3840 * chain
    ensures x % DISK_SECTOR_SIZE == x - 3840 * (chain - 1)
  {}

  lemma PageOffset(n: nat, chain: nat)
    requires chain >= 1 && 3840 * (chain - 1) <= n < 3840 * chain && (n + 1) % PAGE == 0
    ensures 3840 * (chain - 1) <= n + 1 - PAGE && n + 1 <= 3840 * chain
    ensures (n + 1 - PAGE) % DISK_SECTOR_SIZE == n + 1 - PAGE - 3840 * (chain - 1)
    ensures Flushed(n) == n + 1 - PAGE && Flushed(n + 1) == n + 1 && n % PAGE == PAGE - 1
  {
    var q := (n + 1) / PAGE;
    assert n + 1 == PAGE * q;
    assert 15 * (chain - 1) < q <= 15 * chain;
    OffsetInSector(n + 1 - PAGE, chain);
  }

  lemma PagesFlush(d: Disk, f: File, buf: seq<byte>, done: nat, b: byte, at: nat, full: seq<byte>, blank: seq<byte>)
    requires GoodChain(f.chain) && Pages(d, f, buf, done)
    requires |f.content| + 1 == done + PAGE <= 3840 * |f.chain| && at == done - 3840 * (|f.chain| - 1)
    requires full == buf[PAGE - 1 := b] && |blank| == PAGE
    ensures Pages(d[Last(f.chain) := WithPage(d[Last(f.chain)], at, full)], Extend(f, b), blank, done + PAGE)
  {
    var k, cur, f' := |f.chain| - 1, Last(f.chain), Extend(f, b);
    var d' := d[cur := WithPage(d[cur], at, full)];
    forall j, p {:trigger d'[f'.chain[j]].data[p]}
      | 0 <= j < |f'.chain| && 0 <= p < DISK_SECTOR_SIZE && 3840 * j + p < done + PAGE
      ensures d'[f'.chain[j]].data[p] == f'.content[3840 * j + p]
    {
      if j < k {
        assert Differ(f.chain, j, k) && d'[f.chain[j]] == d[f.chain[j]];
      } else if p >= at {
        assert d'[cur].data[p] == full[p - at];
      } else {
        assert d'[cur].data[p] == d[cur].data[p];
      }
    }
  }

  lemma FlushParts(d: Disk, f: File, r: Rec, buf: seq<byte>, b: byte, at: nat, full: seq<byte>, blank: seq<byte>,
                   done: nat)
    requires Ready(d, f, r, buf) && |f.content| + 1 < SIZE_LIMIT && done == Flushed(|f.content|)
    requires |f.content| + 1 == done + PAGE == Flushed(|f.content| + 1) <= 3840 * |f.chain|
        && at == done - 3840 * (|f.chain| - 1)
    requires full == buf[PAGE - 1 := b] && |blank| == PAGE
    ensures Writing(d[r.current := WithPage(d[r.current], at, full)], Extend(f, b), Advance(r), blank)
  {
    PagesFlush(d, f, buf, done, b, at, full, blank);
    FlushRest(d, f, r, b, r.current, WithPage(d[r.current], at, full));
  }

  lemma FlushRest(d: Disk, f: File, r: Rec, b: byte, cur: nat, x: Sector)
    requires Chained(d, f) && Describes(r, f) && |f.content| < SIZE_LIMIT && cur <= DISK_SECTOR_MAX
    requires x.header == d[cur].header && x.link == d[cur].link && x.close == d[cur].close
    ensures Chained(d[cur := x], Extend(f, b)) && Describes(Advance(r), Extend(f, b))
    ensures d[cur := x][Last(f.chain)].link == d[Last(f.chain)].link
    ensures d[cur := x][f.chain[0]].close == d[f.chain[0]].close
  {
    FlushChained(d, f, cur, x);
    ChainedNext(d[cur := x], f, b);
    DescribesNext(r, f, b);
  }

  lemma FlushChained(d: Disk, f: File, i: nat, x: Sector)
    requires Chained(d, f) && i <= DISK_SECTOR_MAX && x.header == d[i].header && x.link == d[i].link
    ensures Chained(d[i := x], f)
  {
    ChainedWhenSame(d, d[i := x], f);
  }

  // A full sector gets a successor.

  function LinkRec(r: Rec, next: uint32): Rec { Sealed(r.(next := next)) }

  function NextHeader(r: Rec, next: uint32): Rec {
    Sealed(LinkRec(r, next).(previous := r.current, current := next))
  }

  function WithLink(x: Sector, l: Rec): Sector { x.(link := l) }

  lemma LinkOk(r: Rec, f: File, next: uint32)
    requires GoodChain(f.chain) && Describes(r, f) && |f.content| < SIZE_LIMIT && next < DISK_SECTOR_MAX
    ensures LeadsTo(LinkRec(r, next), next)
    ensures Heads(NextHeader(r, next), f.chain[0], f.name)
    ensures Describes(NextHeader(r, next), f.(chain := f.chain + [next]))
  {
    var l, h, g := LinkRec(r, next), NextHeader(r, next), f.(chain := f.chain + [next]);
    assert l.name == r.name && h.name == r.name;
    assert Last(g.chain) == next && g.chain[0] == f.chain[0];
  }

  lemma GoodChainExtend(chain: seq<nat>, i: nat)
    requires GoodChain(chain) && i < DISK_SECTOR_MAX && i !in chain
    ensures GoodChain(chain + [i])
  {
    forall j, k | 0 <= j < k < |chain| + 1 ensures Differ(chain + [i], j, k) {
      assert k < |chain| ==> Differ(chain, j, k);
    }
  }

  // Linking the last sector to a new one, and giving that one its header.
  function Linked(d: Disk, r: Rec, next: uint32): Disk
    requires r.current <= DISK_SECTOR_MAX && next <= DISK_SECTOR_MAX
  {
    d[r.current := WithLink(d[r.current], LinkRec(r, next))][next := WithHeader(NextHeader(r, next))]
  }

  // The two records point at each other, and are the record of the file in all else.
  lemma LinkedFields(d: Disk, r: Rec, next: uint32)
    requires r.current <= DISK_SECTOR_MAX && next <= DISK_SECTOR_MAX && next != r.current
    ensures var l, h := Linked(d, r, next)[r.current].link, Linked(d, r, next)[next].header;
            && l.current == r.current && l.next == next && l.previous == r.previous
            && h.current == next && h.next == next && h.previous == r.current
            && l.name == h.name == r.name && l.start == h.start == r.start && l.size == h.size == r.size
            && l.offset == h.offset == r.offset && l.status == h.status == r.status
            && l.crc == Checksum(l) && h.crc == Checksum(h)
  {}

  // A chain grows by a linked sector with a good header, whatever else happens to the disk.
  lemma ChainedGrow(d: Disk, d': Disk, f: File, g: File, next: nat)
    requires Chained(d, f) && next < DISK_SECTOR_MAX && next !in f.chain
    requires g == f.(chain := f.chain + [next])
    requires forall j | 0 <= j < |f.chain| :: d'[f.chain[j]].header == d[f.chain[j]].header
    requires forall j | 0 <= j < |f.chain| - 1 :: d'[f.chain[j]].link == d[f.chain[j]].link
    requires LeadsTo(d'[Last(f.chain)].link, next) && Heads(d'[next].header, f.chain[0], f.name)
    ensures Chained(d', g)
  {
    GoodChainExtend(f.chain, next);
    forall j | 0 <= j < |g.chain| ensures HeadedAt(d', g.chain, g.name, j) {
      if j < |f.chain| { assert HeadedAt(d, f.chain, f.name, j) && g.chain[j] == f.chain[j]; }
    }
    forall j | 0 <= j < |g.chain| - 1 ensures LinksOn(d', g.chain, j) {
      assert g.chain[j] == f.chain[j];
      if j < |f.chain| - 1 { assert LinksOn(d, f.chain, j) && g.chain[j + 1] == f.chain[j + 1]; }
    }
  }

  lemma LinkedSectors(d: Disk, f: File, r: Rec, next: uint32, l: Rec, h: Rec)
    requires GoodChain(f.chain) && r.current == Last(f.chain) && next < DISK_SECTOR_MAX && next !in f.chain
    requires l == LinkRec(r, next) && h == NextHeader(r, next)
    ensures forall j | 0 <= j < |f.chain| ::
              Linked(d, r, next)[f.chain[j]].header == d[f.chain[j]].header
                  && Linked(d, r, next)[f.chain[j]].close == d[f.chain[j]].close
    ensures forall j | 0 <= j < |f.chain| - 1 :: Linked(d, r, next)[f.chain[j]].link == d[f.chain[j]].link
    ensures Linked(d, r, next)[Last(f.chain)].link == l && Linked(d, r, next)[next] == WithHeader(h)
  {
    forall j | 0 <= j < |f.chain| - 1 ensures f.chain[j] != r.current { assert Differ(f.chain, j, |f.chain| - 1); }
  }

  lemma ChainedLink(d: Disk, f: File, r: Rec, next: uint32)
    requires Chained(d, f) && Describes(r, f) && |f.content| < SIZE_LIMIT && next < DISK_SECTOR_MAX && next !in f.chain
    ensures Chained(Linked(d, r, next), f.(chain := f.chain + [next]))
  {
    LinkedSectors(d, f, r, next, LinkRec(r, next), NextHeader(r, next));
    LinkOk(r, f, next);
    ChainedGrow(d, Linked(d, r, next), f, f.(chain := f.chain + [next]), next);
  }

  lemma PagesLink(d: Disk, f: File, r: Rec, buf: seq<byte>, next: uint32)
    requires GoodChain(f.chain) && Pages(d, f, buf, |f.content|) && |f.content| == 3840 * |f.chain|
    requires r.current == Last(f.chain) && next < DISK_SECTOR_MAX && next !in f.chain
    ensures GoodChain(f.chain + [next]) && Pages(Linked(d, r, next), f.(chain := f.chain + [next]), buf, |f.content|)
  {
    var d', g := Linked(d, r, next), f.(chain := f.chain + [next]);
    GoodChainExtend(f.chain, next);
    forall j, p {:trigger d'[g.chain[j]].data[p]}
      | 0 <= j < |g.chain| && 0 <= p < DISK_SECTOR_SIZE && 3840 * j + p < |f.content|
      ensures d'[g.chain[j]].data[p] == g.content[3840 * j + p]
    {
      assert g.chain[j] == f.chain[j] && d'[f.chain[j]].data == d[f.chain[j]].data;
    }
  }

  lemma FullIsFlushed(chain: nat)
    ensures Flushed(3840 * chain) == 3840 * chain
  {
    assert 3840 * chain == PAGE * (15 * chain) && (PAGE * (15 * chain)) % PAGE == 0;
  }

  lemma NextSector(d: Disk, f: File, r: Rec, buf: seq<byte>, next: uint32)
    requires Writing(d, f, r, buf) && |f.content| == 3840 * |f.chain|
    requires next < DISK_SECTOR_MAX && !Used(d, next)
    ensures Ready(Linked(d, r, next), f.(chain := f.chain + [next]), NextHeader(r, next), buf)
  {
    forall j | 0 <= j < |f.chain| ensures f.chain[j] != next { ChainIsUsed(d, f, j); }
    FullIsFlushed(|f.chain|);
    ReadyNext(d, f, r, buf, next, LinkRec(r, next), NextHeader(r, next));
  }

  lemma ReadyNext(d: Disk, f: File, r: Rec, buf: seq<byte>, next: uint32, l: Rec, h: Rec)
    requires Writing(d, f, r, buf) && |f.content| == 3840 * |f.chain| == Flushed(|f.content|)
    requires next < DISK_SECTOR_MAX && next !in f.chain && l == LinkRec(r, next) && h == NextHeader(r, next)
    ensures Ready(Linked(d, r, next), f.(chain := f.chain + [next]), h, buf)
  {
    ChainedLink(d, f, r, next);
    PagesLink(d, f, r, buf, next);
    LinkOk(r, f, next);
    LinkedSectors(d, f, r, next, l, h);
  }

  // Closing a file.

  function CloseRec(r: Rec, firstLink: Rec): Rec {
    Sealed(r.(current := r.start, next := firstLink.next, previous := r.start))
  }

  function WithClose(x: Sector, c: Rec): Sector { x.(close := c) }

  // What the flash driver makes of what it is asked to do, in terms of the disk before and after, of what it reports,
  // and of whether the device is sure not to fail. A failed write leaves what it was to write undefined. A write
  // reported good was read back, but what a failing device leaves of a sector erased for a header is not known.

  ghost predicate OnlyAt(d: Disk, d': Disk, i: nat)
    requires i <= DISK_SECTOR_MAX
  {
    d' == d[i := d'[i]]
  }

  ghost predicate HeaderWrite(d: Disk, d': Disk, i: nat, r: Rec, ok: bool, sure: bool)
    requires i <= DISK_SECTOR_MAX
  {
    OnlyAt(d, d', i) && (ok ==> d'[i].header == r) && (sure ==> ok && d'[i] == WithHeader(r))
  }

  ghost predicate LinkWrite(d: Disk, d': Disk, i: nat, r: Rec, ok: bool, sure: bool)
    requires i <= DISK_SECTOR_MAX
  {
    && OnlyAt(d, d', i) && d'[i] == WithLink(d[i], d'[i].link)
    && (ok ==> d'[i].link == r)
    && (sure && d[i].link == Blank() ==> ok)
  }

  ghost predicate CloseWrite(d: Disk, d': Disk, i: nat, r: Rec, ok: bool, sure: bool)
    requires i <= DISK_SECTOR_MAX
  {
    OnlyAt(d, d', i) && d'[i] == WithClose(d[i], d'[i].close) && (ok ==> d'[i].close == r)
        && (sure && d[i].close == Blank() ==> ok)
  }

  ghost predicate Erased(d: Disk, i: nat, at: nat)
    requires i <= DISK_SECTOR_MAX && at + PAGE <= DISK_SECTOR_SIZE
  {
    forall p | at <= p < at + PAGE :: d[i].data[p] == 0xFF
  }

  function PageAt(x: Sector, at: nat): seq<byte>
    requires at + PAGE <= DISK_SECTOR_SIZE
  {
    x.data[at..at + PAGE]
  }

  ghost predicate PageWrite(d: Disk, d': Disk, i: nat, at: nat, page: seq<byte>, ok: bool, sure: bool)
    requires i <= DISK_SECTOR_MAX && at + PAGE <= DISK_SECTOR_SIZE
  {
    && OnlyAt(d, d', i) && d'[i] == WithPage(d[i], at, PageAt(d'[i], at))
    && (ok ==> PageAt(d'[i], at) == page) && (sure && Erased(d, i, at) ==> ok)
  }

  // A page that does not fit the sector runs on into the next one, which is erased for it.
  ghost predicate SpillWrite(d: Disk, d': Disk, i: nat)
    requires i < DISK_SECTOR_MAX
  {
    && d' == d[i := d'[i]][i + 1 := d'[i + 1]]
    && d'[i] == d[i].(data := d'[i].data)
  }

  ghost predicate SectorErase(d: Disk, d': Disk, i: nat, sure: bool)
    requires i <= DISK_SECTOR_MAX
  {
    OnlyAt(d, d', i) && (sure ==> d'[i] == BlankSector())
  }

  lemma LastOffset(n: nat, chain: nat)
    requires chain >= 1 && 3840 * (chain - 1) <= n < 3840 * chain
    ensures (n - n % PAGE) % DISK_SECTOR_SIZE == Flushed(n) - 3840 * (chain - 1)
    ensures 3840 * (chain - 1) <= Flushed(n) <= 3840 * chain - PAGE
  {
    var q := n / PAGE;
    assert n == PAGE * q + n % PAGE;
    assert 15 * (chain - 1) <= q < 15 * chain;
    assert PAGE * q == 3840 * (chain - 1) + PAGE * (q - 15 * (chain - 1));
  }

  lemma StoredClose(d: Disk, f: File, buf: seq<byte>, done: nat, at: nat)
    requires GoodChain(f.chain) && Pages(d, f, buf, done) && at == done - 3840 * (|f.chain| - 1)
        && at + PAGE <= DISK_SECTOR_SIZE
    ensures Stored(d[Last(f.chain) := WithPage(d[Last(f.chain)], at, buf)], f, |f.content|)
  {
    var k, cur := |f.chain| - 1, Last(f.chain);
    var d' := d[cur := WithPage(d[cur], at, buf)];
    forall j, p {:trigger d'[f.chain[j]].data[p]}
      | 0 <= j < |f.chain| && 0 <= p < DISK_SECTOR_SIZE && 3840 * j + p < |f.content|
      ensures d'[f.chain[j]].data[p] == f.content[3840 * j + p]
    {
      if j < k {
        assert Differ(f.chain, j, k) && d'[f.chain[j]] == d[f.chain[j]];
      } else if p >= at {
        assert d'[cur].data[p] == buf[p - at];
      } else {
        assert d'[cur].data[p] == d[cur].data[p];
      }
    }
  }

  lemma CloseRecOk(r: Rec, f: File, firstLink: Rec)
    requires GoodChain(f.chain) && Describes(r, f) && |f.content| < SIZE_LIMIT
    ensures Closes(CloseRec(r, firstLink), f)
  {
    assert CloseRec(r, firstLink).name == r.name;
  }

  // A record that a write has failed on does not close its file.
  lemma FailedCloses(r: Rec, firstLink: Rec)
    requires r.status == 0x5A5A5A5A
    ensures !FormatOk(CloseRec(r, firstLink))
  {}

  function Closed(f: File): File { f.(closed := true) }

  // The partial page goes to flash, and the close record to the first sector. It takes over a field of the link
  // record read, which does not matter.
  lemma CloseFinishes(d: Disk, f: File, r: Rec, buf: seq<byte>, at: nat, d1: Disk, link: Rec, c: Rec)
    requires Ready(d, f, r, buf)
    requires at == (r.offset - r.size % PAGE) % DISK_SECTOR_SIZE
    ensures at + PAGE <= DISK_SECTOR_SIZE
    ensures d1 == d[r.current := WithPage(d[r.current], at, buf)] && c == CloseRec(r, link)
            ==> FileOk(d1[r.start := WithClose(d1[r.start], c)], Closed(f))
  {
    var n := |f.content|;
    LastOffset(n, |f.chain|);
    if d1 == d[r.current := WithPage(d[r.current], at, buf)] && c == CloseRec(r, link) {
      StoredClose(d, f, buf, Flushed(n), at);
      CloseRecOk(r, f, link);
      FlushChained(d, f, r.current, d1[r.current]);
      CloseLast(d, d1, f, r.start, c);
    }
  }

  lemma CloseLast(d: Disk, d1: Disk, f: File, first: nat, c: Rec)
    requires Chained(d1, f) && SizeFits(f) && Stored(d1, f, |f.content|) && first == f.chain[0]
    requires d[Last(f.chain)].link == Blank() && d1[Last(f.chain)].link == d[Last(f.chain)].link
    requires Closes(c, f)
    ensures FileOk(d1[first := WithClose(d1[first], c)], Closed(f))
  {
    var x := WithClose(d1[first], c);
    FlushChained(d1, f, first, x);
    BlankIsBad();
    CloseParts(d1, d1[first := x], f);
  }

  lemma CloseParts(d: Disk, d': Disk, f: File)
    requires Chained(d', f) && SizeFits(f) && Stored(d, f, |f.content|) && Closes(d'[f.chain[0]].close, f)
    requires forall j | 0 <= j < |f.chain| :: d'[f.chain[j]].data == d[f.chain[j]].data
    requires !FormatOk(d'[Last(f.chain)].link)
    ensures FileOk(d', Closed(f))
  {
    var g := Closed(f);
    assert Chained(d', g);
    assert Stored(d', g, |g.content|);
  }

  // Where the pages of a file go.

  lemma PageFits(x: nat)
    requires x >= PAGE && x % PAGE == 0
    ensures (x - PAGE) % DISK_SECTOR_SIZE + PAGE <= DISK_SECTOR_SIZE
  {
    var y := (x - PAGE) % DISK_SECTOR_SIZE;
    assert x - PAGE == DISK_SECTOR_SIZE * ((x - PAGE) / DISK_SECTOR_SIZE) + y;
    assert y % PAGE == 0;
  }

  // The page to be written lies in erased flash, and once it is written the file is one octet longer.
  lemma PageStep(d: Disk, f: File, r: Rec, buf: seq<byte>, b: byte, at: nat, page: seq<byte>, blank: seq<byte>)
    requires Ready(d, f, r, buf) && |f.content| + 1 < SIZE_LIMIT && (|f.content| + 1) % PAGE == 0
    requires at == (|f.content| + 1 - PAGE) % DISK_SECTOR_SIZE && page == buf[|f.content| % PAGE := b]
    requires |blank| == PAGE
    ensures at + PAGE <= DISK_SECTOR_SIZE && Erased(d, r.current, at)
    ensures Writing(d[r.current := WithPage(d[r.current], at, page)], Extend(f, b), Advance(r), blank)
    ensures FilledTo(Extend(f, b))
  {
    PageOffset(|f.content|, |f.chain|);
    PageErased(d, f, buf, Flushed(|f.content|), at);
    FlushParts(d, f, r, buf, b, at, page, blank, Flushed(|f.content|));
    FillsUp(f, b);
  }

  lemma PageErased(d: Disk, f: File, buf: seq<byte>, done: nat, at: nat)
    requires GoodChain(f.chain) && Pages(d, f, buf, done)
    requires at == done - 3840 * (|f.chain| - 1) && at + PAGE <= DISK_SECTOR_SIZE
    ensures Erased(d, Last(f.chain), at)
  {}

  // A file whose last sector is full exactly when its size is a multiple of the sector size.
  predicate FilledTo(f: File) {
    if |f.content| % DISK_SECTOR_SIZE == 0 then |f.content| == 3840 * |f.chain| else |f.content| < 3840 * |f.chain|
  }

  lemma FillsUp(f: File, b: byte)
    requires |f.chain| >= 1 && SizeFits(f)
    ensures FilledTo(Extend(f, b))
  {
    SectorFill(|f.content|, |f.chain|);
  }

  lemma SectorFill(n: nat, chain: nat)
    requires chain >= 1 && 3840 * (chain - 1) <= n < 3840 * chain
    ensures if (n + 1) % DISK_SECTOR_SIZE == 0 then n + 1 == 3840 * chain else n + 1 < 3840 * chain
  {}

  // Where ampm_f_close writes the page buffer, in 32-bit arithmetic.
  function LastAt(r: Rec): (at: nat)
    ensures at < DISK_SECTOR_SIZE
  {
    var at := r.offset - r.size % PAGE;
    (if at >= 0 then at else 0x1_0000_0000 + at) % DISK_SECTOR_SIZE
  }

  // Before the offset by the octets behind the last full page of the size, below zero from 2 to the 32 on.
  lemma ClosePlace(r: Rec)
    ensures r.size % 256 <= r.offset ==> LastAt(r) == (r.offset - r.size % 256) % 3840
    ensures r.size % 256 > r.offset ==> LastAt(r) == (0x1_0000_0000 + r.offset - r.size % 256) % 3840
  {}

  // The last page lies in erased flash.
  lemma LastPage(d: Disk, f: File, r: Rec, buf: seq<byte>)
    requires Ready(d, f, r, buf)
    ensures LastAt(r) == (r.offset - r.size % PAGE) % DISK_SECTOR_SIZE && LastAt(r) + PAGE <= DISK_SECTOR_SIZE
    ensures Erased(d, r.current, LastAt(r))
  {
    LastOffset(|f.content|, |f.chain|);
    PageErased(d, f, buf, Flushed(|f.content|), LastAt(r));
  }

  // What the two writes of a close come to: if the page is in flash as well as the close record, the file is closed.
  lemma ClosedBy(d: Disk, d1: Disk, d2: Disk, f: File, r: Rec, buf: seq<byte>, link: Rec, done: bool, sure: bool)
    requires Ready(d, f, r, buf) && LastAt(r) + PAGE <= DISK_SECTOR_SIZE
    requires PageWrite(d, d1, r.current, LastAt(r), buf, done, sure)
    requires CloseWrite(d1, d2, r.start, CloseRec(r, link), true, sure)
    ensures Closes(d2[r.start].close, f) && PageAt(d2[r.current], LastAt(r)) == PageAt(d1[r.current], LastAt(r))
    ensures PageAt(d1[r.current], LastAt(r)) == buf ==> FileOk(d2, Closed(f))
  {
    LastPage(d, f, r, buf);
    CloseRecOk(r, f, link);
    if PageAt(d1[r.current], LastAt(r)) == buf {
      CloseFinishes(d, f, r, buf, LastAt(r), d1, link, CloseRec(r, link));
      assert d2 == d1[r.start := WithClose(d1[r.start], CloseRec(r, link))];
    }
  }

  // A failed page write can leave the erased flash as it was; the file is then closed with a good record all the
  // same, but not stored, if the page held an octet of it that is not 0xFF.
  lemma UnstoredClose(d: Disk, f: File, r: Rec, buf: seq<byte>, k: nat, link: Rec, c: Rec)
    requires Ready(d, f, r, buf) && Flushed(|f.content|) <= k < |f.content| && f.content[k] != 0xFF
    requires c == CloseRec(r, link)
    ensures LastAt(r) + PAGE <= DISK_SECTOR_SIZE && PageWrite(d, d, r.current, LastAt(r), buf, false, false)
    ensures CloseWrite(d, d[r.start := WithClose(d[r.start], c)], r.start, c, true, false)
    ensures Closes(d[r.start := WithClose(d[r.start], c)][r.start].close, f)
    ensures !FileOk(d[r.start := WithClose(d[r.start], c)], Closed(f))
  {
    LastPage(d, f, r, buf);
    CloseRecOk(r, f, link);
    assert d[r.current] == WithPage(d[r.current], LastAt(r), PageAt(d[r.current], LastAt(r)));
    StillErased(d, f, buf, k, r.start, WithClose(d[r.start], c));
  }

  lemma StillErased(d: Disk, f: File, buf: seq<byte>, k: nat, i: nat, x: Sector)
    requires GoodChain(f.chain) && Pages(d, f, buf, Flushed(|f.content|)) && |f.content| < 3840 * |f.chain|
    requires Flushed(|f.content|) <= k < |f.content| && f.content[k] != 0xFF
    requires i <= DISK_SECTOR_MAX && x.data == d[i].data
    ensures !Stored(d[i := x], f, |f.content|)
  {
    var p, q := k - 3840 * (|f.chain| - 1), |f.chain| - 1;
    assert d[Last(f.chain)].data[p] == 0xFF;
    assert d[i := x][f.chain[q]].data[p] == 0xFF && 3840 * q + p == k;
  }
}
