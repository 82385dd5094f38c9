/** Seeking and reading: what ampm_f_lseek, ampm_f_next_sector and ampm_f_read compute from the disk and a file
 * record. */
module AmpmReading {
  import opened Words
  import opened AmpmFile

  // The guard of ampm_f_read and ampm_f_close, and, with the permission asked for, of ampm_f_write.
  predicate Guard(r: Rec) {
    && r.start < DISK_SECTOR_MAX && r.current < DISK_SECTOR_MAX && r.previous < DISK_SECTOR_MAX
    && r.name[0] != 0 && r.size <= SIZE_LIMIT && r.offset <= SIZE_LIMIT && r.offset <= r.size
    && r.permission <= FA_WRITE
  }

  // A record that passes the format check has a name of 1 to 28 characters, and passes the guard if it has a permission
  // that ampm_f_open gives.
  lemma FormatMeans(r: Rec)
    requires FormatOk(r)
    ensures Guard(r) <==> r.permission <= 2
    ensures r.permission <= 0xFF && 1 <= |CStr(r.name[..31])| <= 28
  {}

  // A file that has come to exactly 100000 octets still passes the guard, but no more the format check.
  lemma SizeLimit(r: Rec, size: uint32)
    requires FormatOk(r) && r.permission <= 2 && r.offset <= size
    ensures Guard(r.(size := size)) <==> size <= 100000
    ensures FormatOk(Sealed(r.(size := size))) <==> size < 100000
  {
    assert Sealed(r.(size := size)).name == r.name;
  }

  // A file record with sector q of a closed file as its current one, and its offset at octet k.
  ghost predicate Standing(f: File, r: Rec, q: nat, k: nat) {
    && SizeFits(f) && k <= |f.content| && q < |f.chain| && q <= k / DISK_SECTOR_SIZE
    && r.start == f.chain[0] && r.current == f.chain[q] && r.size == |f.content| && r.offset == k
    && r.previous < DISK_SECTOR_MAX && r.name[0] != 0 && r.permission <= FA_WRITE
  }

  // It stands at octet k if that is in its current sector.
  ghost predicate At(f: File, r: Rec, k: nat) { Standing(f, r, k / DISK_SECTOR_SIZE, k) }

  // The links of a closed file end with its chain.
  lemma LinkIff(d: Disk, f: File, j: nat)
    requires FileOk(d, f) && f.closed && j < |f.chain|
    ensures f.chain[j] < DISK_SECTOR_MAX
    ensures FormatOk(d[f.chain[j]].link) <==> j < |f.chain| - 1
    ensures j < |f.chain| - 1 ==>
              d[f.chain[j]].link.next == f.chain[j + 1] && d[f.chain[j]].link.previous < DISK_SECTOR_MAX
  {
    if j < |f.chain| - 1 { assert LinksOn(d, f.chain, j); }
  }

  // What ampm_f_open makes of the close record.
  function Opened(c: Rec, write: bool): Rec {
    c.(permission := if write then FA_WRITE else FA_READ, offset := 0)
  }

  lemma OpenedAtStart(d: Disk, f: File, write: bool)
    requires FileOk(d, f) && f.closed
    ensures At(f, Opened(d[f.chain[0]].close, write), 0)
  {}

  // Seeking.

  // What following n link records from sector current comes to; rfil is the link record read last. A link record may
  // lead out of the volume, and what would be read there is not known.
  datatype Walked = Reached(current: uint32, rfil: Rec) | Stopped | Outside

  function WalkLinks(d: Disk, current: uint32, n: nat, rfil: Rec): Walked
    decreases n
  {
    if n == 0 then Reached(current, rfil)
    else if current > DISK_SECTOR_MAX then Outside
    else if !FormatOk(d[current].link) then Stopped
    else WalkLinks(d, d[current].link.next, n - 1, d[current].link)
  }

  function Sought(r: Rec, current: uint32, rfil: Rec, seek: uint32): Rec {
    r.(current := current, next := rfil.next, previous := rfil.previous, offset := seek)
  }

  // In a closed file the walk reaches the sector that many places on, or stops at the end of the chain.
  lemma {:induction false} WalkClosed(d: Disk, f: File, j: nat, n: nat, rfil: Rec)
    requires FileOk(d, f) && f.closed && j < |f.chain|
    ensures WalkLinks(d, f.chain[j], n, rfil)
         == if j + n >= |f.chain| then Stopped
            else Reached(f.chain[j + n], if n == 0 then rfil else d[f.chain[j + n - 1]].link)
    decreases n
  {
    hide FileOk, FormatOk;
    LinkIff(d, f, j);
    if n > 0 && j + 1 < |f.chain| { WalkClosed(d, f, j + 1, n - 1, d[f.chain[j]].link); }
  }

  // A seek, with unset in the local record of ampm_f_lseek before any link is read into it, leaves record r at its
  // target.
  ghost predicate SeeksTo(d: Disk, f: File, r: Rec, seek: uint32, unset: Rec) {
    var w := WalkLinks(d, r.start, seek / DISK_SECTOR_SIZE, unset);
    w.Reached? && At(f, Sought(r, w.current, w.rfil, seek), seek)
  }

  lemma SeekFrom(d: Disk, f: File, r: Rec, q: nat, k: nat, seek: uint32, unset: Rec)
    requires FileOk(d, f) && f.closed && Standing(f, r, q, k)
    ensures SeeksTo(d, f, r, seek, unset)
       <==> seek <= |f.content| && (seek < DISK_SECTOR_SIZE ==> unset.previous < DISK_SECTOR_MAX)
  {
    hide FileOk, FormatOk, WalkLinks;
    var j := seek / DISK_SECTOR_SIZE;
    WalkClosed(d, f, 0, j, unset);
    if 0 < j <= |f.chain| { LinkIff(d, f, j - 1); }
  }

  // It does so whatever that record held exactly if the target is in the file, and not in its first sector.
  lemma SeekAt(d: Disk, f: File, r: Rec, q: nat, k: nat, seek: uint32)
    requires FileOk(d, f) && f.closed && Standing(f, r, q, k)
    ensures (forall unset: Rec :: SeeksTo(d, f, r, seek, unset)) <==> DISK_SECTOR_SIZE <= seek <= |f.content|
  {
    forall unset: Rec
      ensures SeeksTo(d, f, r, seek, unset)
         <==> seek <= |f.content| && (seek < DISK_SECTOR_SIZE ==> unset.previous < DISK_SECTOR_MAX)
    {
      SeekFrom(d, f, r, q, k, seek, unset);
    }
    SeekFrom(d, f, r, q, k, seek, Blank());
  }

  // Reading.

  // What ampm_f_next_sector makes of a record and the link record of the first sector.
  function Followed(r: Rec, link: Rec): Rec {
    r.(current := link.next, next := link.next, previous := link.previous)
  }

  function Moved(r: Rec, n: nat): Rec
    requires r.offset + n < 0x1_0000_0000
  {
    r.(offset := r.offset + n)
  }

  // What a read comes to: the octets put to the front of the buffer, and the record afterwards. It breaks off when
  // there is no second sector, and goes astray when the link record leads out of the volume.
  datatype Reading =
    | Refused
    | Done(octets: seq<byte>, r: Rec)
    | Broken(octets: seq<byte>)
    | Astray(octets: seq<byte>, r: Rec)

  // ... of n octets
  function ReadOf(d: Disk, r: Rec, n: nat): Reading
    requires Guard(r) && r.offset + n <= r.size
  {
    ReadParts(d, r, n, r.offset % DISK_SECTOR_SIZE)
  }

  // ... from octet t of the current sector on
  function ReadParts(d: Disk, r: Rec, n: nat, t: nat): Reading
    requires Guard(r) && r.offset + n <= r.size && t < DISK_SECTOR_SIZE
  {
    var data, link := d[r.current].data, d[r.start].link;
    if t + n <= DISK_SECTOR_SIZE then Done(data[t..t + n], Moved(r, n))
    else if !FormatOk(link) then Broken(data[t..])
    else if link.next > DISK_SECTOR_MAX then Astray(data[t..], Moved(Followed(r, link), n))
    else Done(data[t..] + d[link.next].data[..(t + n) % DISK_SECTOR_SIZE], Moved(Followed(r, link), n))
  }

  function ReadCount(r: Rec, btr: nat): nat
    requires r.offset <= r.size
  {
    if r.offset + btr < r.size then btr else r.size - r.offset
  }

  // ampm_f_read
  function ReadCall(d: Disk, r: Rec, btr: nat): Reading {
    if Guard(r) then ReadOf(d, r, ReadCount(r, btr)) else Refused
  }

  // What a read of n octets takes from the content of a file, where its first octet is at place p of the content and
  // at t in its sector. If it goes beyond that sector it goes on in the second sector of the file, and for no more
  // octets than fit behind the last sector boundary.
  function ReadFrom(content: seq<byte>, p: nat, n: nat, t: nat): seq<byte>
    requires p + n <= |content| && t <= p && t < DISK_SECTOR_SIZE
  {
    if t + n <= DISK_SECTOR_SIZE then content[p..p + n]
    else
      var m := (t + n) % DISK_SECTOR_SIZE;
      Remainder(t, n, m);
      content[p..p + (DISK_SECTOR_SIZE - t)] + content[DISK_SECTOR_SIZE..DISK_SECTOR_SIZE + m]
  }

  lemma Remainder(t: nat, n: nat, m: nat)
    requires t < DISK_SECTOR_SIZE < t + n && m == (t + n) % DISK_SECTOR_SIZE
    ensures DISK_SECTOR_SIZE + m <= t + n
  {}

  // The sector the record has as its current one afterwards.
  function NextQ(q: nat, k: nat, n: nat): nat {
    if k % DISK_SECTOR_SIZE + n <= DISK_SECTOR_SIZE then q else 1
  }

  // The octets of the content that a sector of the file holds.
  lemma DataAt(d: Disk, f: File, q: nat, t: nat, n: nat)
    requires FileOk(d, f) && f.closed && 3840 * q + t + n <= |f.content| && t + n <= DISK_SECTOR_SIZE && q < |f.chain|
    ensures d[f.chain[q]].data[t..t + n] == f.content[3840 * q + t..3840 * q + t + n]
  {
    var x, y := d[f.chain[q]].data[t..t + n], f.content[3840 * q + t..3840 * q + t + n];
    forall p | 0 <= p < n ensures x[p] == y[p] {
      assert d[f.chain[q]].data[t + p] == f.content[3840 * q + (t + p)];
    }
  }

  lemma SecondSector(d: Disk, f: File, m: nat)
    requires FileOk(d, f) && f.closed && DISK_SECTOR_SIZE < |f.content| && m < DISK_SECTOR_SIZE
        && DISK_SECTOR_SIZE + m <= |f.content|
    ensures |f.chain| > 1 && f.chain[1] < DISK_SECTOR_MAX
    ensures d[f.chain[1]].data[..m] == f.content[DISK_SECTOR_SIZE..DISK_SECTOR_SIZE + m]
    ensures d[f.chain[0]].link.next == f.chain[1] && FormatOk(d[f.chain[0]].link)
        && d[f.chain[0]].link.previous < DISK_SECTOR_MAX
  {
    DataAt(d, f, 1, 0, m);
    LinkIff(d, f, 0);
    assert d[f.chain[1]].data[..m] == d[f.chain[1]].data[0..0 + m];
  }

  lemma Places(q: nat, k: nat, n: nat, t: nat)
    requires q <= k / DISK_SECTOR_SIZE && t == k % DISK_SECTOR_SIZE
    ensures t <= 3840 * q + t <= k && t < DISK_SECTOR_SIZE
    ensures q == k / DISK_SECTOR_SIZE ==> 3840 * q + t == k
    ensures NextQ(q, k, n) <= (k + n) / DISK_SECTOR_SIZE
  {}

  // A read in a closed file gives what the content says, and the record stands in the file again.
  lemma ReadInFile(d: Disk, f: File, r: Rec, q: nat, k: nat, n: nat)
    requires FileOk(d, f) && f.closed && Standing(f, r, q, k) && k + n <= |f.content|
    ensures k % DISK_SECTOR_SIZE <= 3840 * q + k % DISK_SECTOR_SIZE <= k
    ensures ReadCall(d, r, n).Done?
    ensures ReadCall(d, r, n).octets == ReadFrom(f.content, 3840 * q + k % DISK_SECTOR_SIZE, n, k % DISK_SECTOR_SIZE)
    ensures Standing(f, ReadCall(d, r, n).r, NextQ(q, k, n), k + n)
  {
    var t := k % DISK_SECTOR_SIZE;
    Places(q, k, n, t);
    assert ReadCount(r, n) == n;
    PartsInFile(d, f, r, q, k, n, t, 3840 * q + t);
  }

  lemma PartsInFile(d: Disk, f: File, r: Rec, q: nat, k: nat, n: nat, t: nat, p: nat)
    requires FileOk(d, f) && f.closed && Standing(f, r, q, k) && k + n <= |f.content| && Guard(r)
    requires t < DISK_SECTOR_SIZE && p == 3840 * q + t <= k
    ensures ReadParts(d, r, n, t).Done? && ReadParts(d, r, n, t).octets == ReadFrom(f.content, p, n, t)
    ensures ReadParts(d, r, n, t).r == Moved(if t + n <= DISK_SECTOR_SIZE then r else Followed(r, d[r.start].link), n)
    ensures t + n > DISK_SECTOR_SIZE ==>
              |f.chain| > 1 && d[r.start].link.next == f.chain[1] && d[r.start].link.previous < DISK_SECTOR_MAX
  {
    hide FileOk, FormatOk;
    if t + n <= DISK_SECTOR_SIZE {
      DataAt(d, f, q, t, n);
    } else {
      var m := (t + n) % DISK_SECTOR_SIZE;
      Remainder(t, n, m);
      DataAt(d, f, q, t, DISK_SECTOR_SIZE - t);
      SecondSector(d, f, m);
      assert d[r.current].data[t..] == d[r.current].data[t..t + (DISK_SECTOR_SIZE - t)];
    }
  }

  // Reads after which the record stands where it should: they end inside their sector, or inside the second one.
  predicate StaysInStep(k: nat, n: nat) {
    var t := k % DISK_SECTOR_SIZE;
    t + n < DISK_SECTOR_SIZE || (k < DISK_SECTOR_SIZE < t + n < 2 * DISK_SECTOR_SIZE)
  }

  lemma StepIff(k: nat, n: nat)
    ensures StaysInStep(k, n) <==> NextQ(k / DISK_SECTOR_SIZE, k, n) == (k + n) / DISK_SECTOR_SIZE
  {
    assert k == DISK_SECTOR_SIZE * (k / DISK_SECTOR_SIZE) + k % DISK_SECTOR_SIZE;
  }

  // Exactly after those. In particular not after a read to the end of a sector.
  lemma StepAt(d: Disk, f: File, r: Rec, k: nat, n: nat)
    requires FileOk(d, f) && f.closed && At(f, r, k) && k + n <= |f.content|
    ensures ReadCall(d, r, n).Done?
    ensures At(f, ReadCall(d, r, n).r, k + n) <==> StaysInStep(k, n)
  {
    ReadInFile(d, f, r, k / DISK_SECTOR_SIZE, k, n);
    StepIff(k, n);
    OneSector(f, ReadCall(d, r, n).r, NextQ(k / DISK_SECTOR_SIZE, k, n), (k + n) / DISK_SECTOR_SIZE, k + n);
  }

  lemma OneSector(f: File, r: Rec, q: nat, j: nat, k: nat)
    requires GoodChain(f.chain) && Standing(f, r, q, k)
    ensures Standing(f, r, j, k) ==> q == j
  {
    if Standing(f, r, j, k) { Differs(f.chain, q, j); }
  }

  // Reads that come out right: inside one sector, or from the first sector into the second but not to its end.
  predicate ReadsRight(k: nat, n: nat) {
    var t := k % DISK_SECTOR_SIZE;
    t + n <= DISK_SECTOR_SIZE || (k < DISK_SECTOR_SIZE && t + n < 2 * DISK_SECTOR_SIZE)
  }

  lemma ReadIsRight(content: seq<byte>, k: nat, n: nat)
    requires k + n <= |content| && ReadsRight(k, n)
    ensures ReadFrom(content, k, n, k % DISK_SECTOR_SIZE) == content[k..k + n]
  {
    if k % DISK_SECTOR_SIZE + n > DISK_SECTOR_SIZE {
      RightRemainder(k, n);
      SliceJoin(content, k, DISK_SECTOR_SIZE, k + n);
    }
  }

  lemma RightRemainder(k: nat, n: nat)
    requires k < DISK_SECTOR_SIZE < k + n < 2 * DISK_SECTOR_SIZE
    ensures k % DISK_SECTOR_SIZE == k && (k + n) % DISK_SECTOR_SIZE == k + n - DISK_SECTOR_SIZE
  {}

  lemma SliceJoin(s: seq<byte>, a: nat, b: nat, c: nat)
    requires a <= b <= c <= |s|
    ensures s[a..b] + s[b..c] == s[a..c]
  {}

  // A file with only one octet that is not zero.
  function OneAt(size: nat, i: nat): (content: seq<byte>)
    ensures |content| == size
  {
    seq(size, j => if j == i then 1 else 0)
  }

  // All other reads come out wrong for some file of that size.
  lemma ReadIsWrong(k: nat, n: nat, size: nat)
    requires k + n <= size && !ReadsRight(k, n)
    ensures var content := OneAt(size, k + (DISK_SECTOR_SIZE - k % DISK_SECTOR_SIZE));
            ReadFrom(content, k, n, k % DISK_SECTOR_SIZE) != content[k..k + n]
  {
    var t := k % DISK_SECTOR_SIZE;
    var n0, m := DISK_SECTOR_SIZE - t, (t + n) % DISK_SECTOR_SIZE;
    var content := OneAt(size, k + n0);
    Remainder(t, n, m);
    var octets := ReadFrom(content, k, n, t);
    assert content[k..k + n][n0] == 1;
    if k < DISK_SECTOR_SIZE {
      assert |octets| == n0 + m < n;
    } else if m > 0 {
      assert octets[n0] == content[DISK_SECTOR_SIZE];
    }
  }

  // Reading a place of a file of some size is right for all contents exactly at the places and lengths of ReadsRight.
  lemma ReadIff(k: nat, n: nat, size: nat)
    requires k + n <= size
    ensures (forall content: seq<byte> | |content| == size ::
               ReadFrom(content, k, n, k % DISK_SECTOR_SIZE) == content[k..k + n])
       <==> ReadsRight(k, n)
  {
    if ReadsRight(k, n) {
      forall content: seq<byte> | |content| == size
        ensures ReadFrom(content, k, n, k % DISK_SECTOR_SIZE) == content[k..k + n]
      {
        ReadIsRight(content, k, n);
      }
    } else {
      ReadIsWrong(k, n, size);
    }
  }

  // Reading one piece after another.

  function Total(ns: seq<nat>): nat
    decreases |ns|
  {
    if |ns| == 0 then 0 else ns[0] + Total(ns[1..])
  }

  // Several calls of ampm_f_read, until one fails.
  function Reads(d: Disk, r: Rec, ns: seq<nat>): Reading
    decreases |ns|
  {
    if |ns| == 0 then Done([], r) else
      var first := ReadCall(d, r, ns[0]);
      if !first.Done? then first else
        var rest := Reads(d, first.r, ns[1..]);
        if !rest.Done? then rest else Done(first.octets + rest.octets, rest.r)
  }

  // What they take from the content of a file.
  function RunFrom(content: seq<byte>, q: nat, k: nat, ns: seq<nat>): seq<byte>
    requires q <= k / DISK_SECTOR_SIZE && k + Total(ns) <= |content|
    decreases |ns|
  {
    if |ns| == 0 then [] else
      var t, n := k % DISK_SECTOR_SIZE, ns[0];
      Places(q, k, n, t);
      ReadFrom(content, 3840 * q + t, n, t) + RunFrom(content, NextQ(q, k, n), k + n, ns[1..])
  }

  // The sector that is current afterwards.
  function RunQ(q: nat, k: nat, ns: seq<nat>): nat
    decreases |ns|
  {
    if |ns| == 0 then q else RunQ(NextQ(q, k, ns[0]), k + ns[0], ns[1..])
  }

  lemma {:induction false} RunInFile(d: Disk, f: File, r: Rec, q: nat, k: nat, ns: seq<nat>)
    requires FileOk(d, f) && f.closed && Standing(f, r, q, k) && k + Total(ns) <= |f.content|
    ensures Reads(d, r, ns).Done? && Reads(d, r, ns).octets == RunFrom(f.content, q, k, ns)
    ensures Standing(f, Reads(d, r, ns).r, RunQ(q, k, ns), k + Total(ns))
    decreases |ns|
  {
    hide FileOk, Standing, ReadCall, ReadFrom, NextQ;
    if |ns| == 0 {
    } else {
      ReadInFile(d, f, r, q, k, ns[0]);
      RunInFile(d, f, ReadCall(d, r, ns[0]).r, NextQ(q, k, ns[0]), k + ns[0], ns[1..]);
    }
  }

  // Every one of them leaves the record in step.
  predicate AllInStep(k: nat, ns: seq<nat>)
    decreases |ns|
  {
    |ns| == 0 || (StaysInStep(k, ns[0]) && AllInStep(k + ns[0], ns[1..]))
  }

  // Reads that start at the beginning stay in step exactly if none of them ends at the end of the first sector, or at
  // the end of the second or beyond.
  predicate GoodPlace(k: nat) { k < 2 * DISK_SECTOR_SIZE && k != DISK_SECTOR_SIZE }

  ghost predicate GoodPlaces(k: nat, ns: seq<nat>) {
    forall j | 0 <= j <= |ns| :: GoodPlace(k + Total(ns[..j]))
  }

  lemma {:induction false} InStepIff(k: nat, ns: seq<nat>)
    requires GoodPlace(k)
    ensures AllInStep(k, ns) <==> GoodPlaces(k, ns)
    decreases |ns|
  {
    if |ns| == 0 {
    } else {
      assert StaysInStep(k, ns[0]) <==> GoodPlace(k + ns[0]);
      hide GoodPlaces, StaysInStep;
      PlacesFrom(k, ns);
      if GoodPlace(k + ns[0]) { InStepIff(k + ns[0], ns[1..]); }
    }
  }

  lemma PlacesFrom(k: nat, ns: seq<nat>)
    requires |ns| > 0 && GoodPlace(k)
    ensures GoodPlaces(k, ns) <==> GoodPlace(k + ns[0]) && GoodPlaces(k + ns[0], ns[1..])
  {
    hide GoodPlace;
    var n, rest := ns[0], ns[1..];
    forall j | 0 <= j <= |rest|
      ensures Total(ns[..j + 1]) == n + Total(rest[..j])
    {
      assert ns[..j + 1][1..] == rest[..j];
    }
    if GoodPlaces(k, ns) {
      forall j | 0 <= j <= |rest|
        ensures GoodPlace(k + n + Total(rest[..j]))
      {
        assert GoodPlace(k + Total(ns[..j + 1]));
      }
      assert GoodPlace(k + n + Total(rest[..0]));
    }
    if GoodPlaces(k + n, rest) {
      forall j | 0 <= j <= |ns| ensures GoodPlace(k + Total(ns[..j])) {
        if j > 0 { assert GoodPlace(k + n + Total(rest[..j - 1])); }
      }
    }
  }

  // Once out of step with one of the first two sectors current, a record never gets in step again.
  lemma {:induction false} StaysOut(q: nat, k: nat, ns: seq<nat>)
    requires q < k / DISK_SECTOR_SIZE && q <= 1
    ensures RunQ(q, k, ns) < (k + Total(ns)) / DISK_SECTOR_SIZE
    decreases |ns|
  {
    if |ns| == 0 {
    } else {
      OutNext(q, k, ns[0]);
      StaysOut(NextQ(q, k, ns[0]), k + ns[0], ns[1..]);
    }
  }

  lemma OutNext(q: nat, k: nat, n: nat)
    requires q < k / DISK_SECTOR_SIZE && q <= 1
    ensures NextQ(q, k, n) < (k + n) / DISK_SECTOR_SIZE && NextQ(q, k, n) <= 1
  {
    assert k == DISK_SECTOR_SIZE * (k / DISK_SECTOR_SIZE) + k % DISK_SECTOR_SIZE;
  }

  lemma {:induction false} RunQIff(k: nat, ns: seq<nat>)
    requires k < 2 * DISK_SECTOR_SIZE
    ensures RunQ(k / DISK_SECTOR_SIZE, k, ns) == (k + Total(ns)) / DISK_SECTOR_SIZE <==> AllInStep(k, ns)
    decreases |ns|
  {
    if |ns| == 0 {
    } else {
      var q, n := k / DISK_SECTOR_SIZE, ns[0];
      StepIff(k, n);
      Places(q, k, n, k % DISK_SECTOR_SIZE);
      if StaysInStep(k, n) {
        RunQIff(k + n, ns[1..]);
      } else {
        StaysOut(NextQ(q, k, n), k + n, ns[1..]);
      }
    }
  }

  // Reads one after another from a freshly opened file: they all succeed, and the record stands at the end of the
  // last one exactly if every one has stayed in step.
  lemma RunAt(d: Disk, f: File, write: bool, ns: seq<nat>)
    requires FileOk(d, f) && f.closed && Total(ns) <= |f.content|
    ensures var run := Reads(d, Opened(d[f.chain[0]].close, write), ns);
            run.Done? && (At(f, run.r, Total(ns)) <==> AllInStep(0, ns))
  {
    hide Finished, Standing, AllInStep, Reads, RunFrom, RunQ;
    var r := Opened(d[f.chain[0]].close, write);
    OpenedAtStart(d, f, write);
    RunInFile(d, f, r, 0, 0, ns);
    RunQIff(0, ns);
    OneSector(f, Reads(d, r, ns).r, RunQ(0, 0, ns), Total(ns) / DISK_SECTOR_SIZE, Total(ns));
  }

  // A run that comes out right: every read does, and all but the last that reads anything stay in step.
  predicate RunsRight(k: nat, ns: seq<nat>)
    decreases |ns|
  {
    |ns| == 0
    || (&& ReadsRight(k, ns[0])
        && if Total(ns[1..]) == 0 then true else StaysInStep(k, ns[0]) && RunsRight(k + ns[0], ns[1..]))
  }

  lemma ReadShort(content: seq<byte>, p: nat, n: nat, t: nat)
    requires p + n <= |content| && t <= p && t < DISK_SECTOR_SIZE
    ensures |ReadFrom(content, p, n, t)| <= n
    ensures n > 0 ==> ReadFrom(content, p, n, t) != [] && ReadFrom(content, p, n, t)[0] == content[p]
  {
    if t + n > DISK_SECTOR_SIZE { Remainder(t, n, (t + n) % DISK_SECTOR_SIZE); }
  }

  lemma {:induction false} RunShort(content: seq<byte>, q: nat, k: nat, ns: seq<nat>)
    requires q <= k / DISK_SECTOR_SIZE && k + Total(ns) <= |content|
    ensures |RunFrom(content, q, k, ns)| <= Total(ns)
    decreases |ns|
  {
    hide ReadFrom, NextQ;
    if |ns| == 0 {
    } else {
      Places(q, k, ns[0], k % DISK_SECTOR_SIZE);
      ReadShort(content, 3840 * q + k % DISK_SECTOR_SIZE, ns[0], k % DISK_SECTOR_SIZE);
      RunShort(content, NextQ(q, k, ns[0]), k + ns[0], ns[1..]);
    }
  }

  // The first read of a run that is in step, and the others.
  lemma RunFirst(content: seq<byte>, k: nat, ns: seq<nat>) returns (more: seq<byte>)
    requires k + Total(ns) <= |content| && |ns| > 0
    ensures NextQ(k / DISK_SECTOR_SIZE, k, ns[0]) <= (k + ns[0]) / DISK_SECTOR_SIZE
    ensures more == RunFrom(content, NextQ(k / DISK_SECTOR_SIZE, k, ns[0]), k + ns[0], ns[1..])
    ensures RunFrom(content, k / DISK_SECTOR_SIZE, k, ns) == ReadFrom(content, k, ns[0], k % DISK_SECTOR_SIZE) + more
    ensures |more| <= Total(ns[1..])
  {
    hide ReadFrom, NextQ;
    var q := k / DISK_SECTOR_SIZE;
    Places(q, k, ns[0], k % DISK_SECTOR_SIZE);
    more := RunFrom(content, NextQ(q, k, ns[0]), k + ns[0], ns[1..]);
    RunShort(content, NextQ(q, k, ns[0]), k + ns[0], ns[1..]);
  }

  predicate Gives(content: seq<byte>, k: nat, ns: seq<nat>)
    requires k + Total(ns) <= |content|
  {
    RunFrom(content, k / DISK_SECTOR_SIZE, k, ns) == content[k..k + Total(ns)]
  }

  lemma {:induction false} RunIsRight(content: seq<byte>, k: nat, ns: seq<nat>)
    requires k + Total(ns) <= |content| && RunsRight(k, ns)
    ensures Gives(content, k, ns)
    decreases |ns|
  {
    if |ns| == 0 {
    } else {
      hide ReadsRight, StaysInStep, Gives;
      if Total(ns[1..]) > 0 { RunIsRight(content, k + ns[0], ns[1..]); }
      RightNext(content, k, ns[0], ns, Total(ns[1..]));
    }
  }

  lemma RightNext(content: seq<byte>, k: nat, n: nat, ns: seq<nat>, m: nat)
    requires k + Total(ns) <= |content| && |ns| > 0 && n == ns[0] && m == Total(ns[1..]) && Total(ns) == n + m
    requires ReadsRight(k, n) && (m > 0 ==> StaysInStep(k, n) && Gives(content, k + n, ns[1..]))
    ensures Gives(content, k, ns)
  {
    hide ReadsRight, StaysInStep, ReadFrom, NextQ, RunFrom, Total;
    var more := RunFirst(content, k, ns);
    ReadIsRight(content, k, n);
    if m > 0 { StepIff(k, n); }
    RightJoin(content, k, n, m, ReadFrom(content, k, n, k % DISK_SECTOR_SIZE), more);
  }

  lemma RightJoin(content: seq<byte>, k: nat, n: nat, m: nat, octets: seq<byte>, more: seq<byte>)
    requires k + n + m <= |content| && octets == content[k..k + n] && |more| <= m
        && (m > 0 ==> more == content[k + n..k + n + m])
    ensures octets + more == content[k..k + n + m]
  {}

  // With an earlier sector current than the one octet k starts, the next octet read is the first one of that earlier
  // sector.
  lemma {:induction false} RunIsStale(content: seq<byte>, q: nat, k: nat, ns: seq<nat>)
    requires q < k / DISK_SECTOR_SIZE && k % DISK_SECTOR_SIZE == 0 && k + Total(ns) <= |content| && Total(ns) > 0
    ensures RunFrom(content, q, k, ns) != [] && RunFrom(content, q, k, ns)[0] == content[3840 * q]
    decreases |ns|
  {
    hide ReadFrom;
    Places(q, k, ns[0], 0);
    if ns[0] == 0 {
      RunIsStale(content, q, k, ns[1..]);
      ReadShort(content, 3840 * q, 0, 0);
    } else {
      ReadShort(content, 3840 * q, ns[0], 0);
    }
  }

  // A run that is not of that kind comes out wrong for some file of the size.
  lemma {:induction false} RunIsWrong(k: nat, ns: seq<nat>, size: nat) returns (content: seq<byte>)
    requires k + Total(ns) <= size && !RunsRight(k, ns)
    ensures |content| == size && RunFrom(content, k / DISK_SECTOR_SIZE, k, ns) != content[k..k + Total(ns)]
    decreases |ns|
  {
    hide ReadFrom, ReadsRight, StaysInStep, NextQ, RunFrom;
    var n, rest := ns[0], ns[1..];
    if !ReadsRight(k, n) {
      content := OneAt(size, k + (DISK_SECTOR_SIZE - k % DISK_SECTOR_SIZE));
      var more := RunFirst(content, k, ns);
      ReadIsWrong(k, n, size);
      ReadShort(content, k, n, k % DISK_SECTOR_SIZE);
      FirstWrong(content, k, n, k + Total(ns), ReadFrom(content, k, n, k % DISK_SECTOR_SIZE), more);
    } else {
      StepIff(k, n);
      if !StaysInStep(k, n) {
        content := OneAt(size, k + n);
        EndsSector(k, n);
        RunIsStale(content, k / DISK_SECTOR_SIZE, k + n, rest);
        assert content[k + n..k + n + Total(rest)][0] == 1;
      } else {
        content := RunIsWrong(k + n, rest, size);
      }
      var more := RunFirst(content, k, ns);
      ReadIsRight(content, k, n);
      LaterWrong(content, k, n, k + Total(ns), more);
    }
  }

  // A part of a file whose first octets are read wrong is not the file, whatever is read next, ...
  lemma FirstWrong(content: seq<byte>, k: nat, n: nat, end: nat, octets: seq<byte>, more: seq<byte>)
    requires k + n <= end <= |content| && |octets| <= n && |more| <= end - k - n && octets != content[k..k + n]
    ensures octets + more != content[k..end]
  {
    if |octets| == n {
      assert (octets + more)[..n] == octets;
      assert content[k..end][..n] == content[k..k + n];
    }
  }

  // ... nor if what is read next is wrong.
  lemma LaterWrong(content: seq<byte>, k: nat, n: nat, end: nat, more: seq<byte>)
    requires k + n <= end <= |content| && more != content[k + n..end]
    ensures content[k..k + n] + more != content[k..end]
  {
    assert (content[k..k + n] + more)[n..] == more;
    assert content[k..end][n..] == content[k + n..end];
  }

  lemma EndsSector(k: nat, n: nat)
    requires ReadsRight(k, n) && !StaysInStep(k, n)
    ensures (k + n) % DISK_SECTOR_SIZE == 0
    ensures NextQ(k / DISK_SECTOR_SIZE, k, n) == k / DISK_SECTOR_SIZE < (k + n) / DISK_SECTOR_SIZE
  {
    assert k == DISK_SECTOR_SIZE * (k / DISK_SECTOR_SIZE) + k % DISK_SECTOR_SIZE;
  }

  // Exactly the runs of RunsRight give the content, whatever the file of that size holds.
  lemma RunIff(ns: seq<nat>, size: nat)
    requires Total(ns) <= size
    ensures (forall content: seq<byte> | |content| == size :: RunFrom(content, 0, 0, ns) == content[..Total(ns)])
       <==> RunsRight(0, ns)
  {
    if RunsRight(0, ns) {
      forall content: seq<byte> | |content| == size ensures RunFrom(content, 0, 0, ns) == content[..Total(ns)] {
        RunIsRight(content, 0, ns);
        assert Gives(content, 0, ns);
      }
    } else {
      var content := RunIsWrong(0, ns, size);
      assert content[0..0 + Total(ns)] == content[..Total(ns)];
    }
  }

  // Reading a whole file.

  // The counts that a file of so many octets gives when it is read in pieces of n until one comes short.
  function Pieces(size: nat, n: nat): (ns: seq<nat>)
    requires n > 0
    ensures Total(ns) == size
    decreases size
  {
    if size < n then [size] else [n] + Pieces(size - n, n)
  }

  // Where the piece that starts at octet k is read right, and all behind it; divides says that pieces of n end with the
  // first sector.
  predicate PiecesFit(k: nat, size: nat, n: nat, divides: bool) {
    if k > DISK_SECTOR_SIZE then size <= 2 * DISK_SECTOR_SIZE
    else || size <= DISK_SECTOR_SIZE
         || (!divides && (size < 2 * DISK_SECTOR_SIZE || (size == 2 * DISK_SECTOR_SIZE && n < 2 * DISK_SECTOR_SIZE)))
  }

  lemma AtLeastOnce(n: nat, d: nat)
    requires d >= 1
    ensures n * d >= n
  {}

  // The multiples of n have no remainder, and places between two of them have one.
  lemma Multiples(x: nat, n: nat, j: nat)
    requires n > 0 && n * j <= x < n * j + n
    ensures x % n == 0 <==> x == n * j
  {
    var q := x / n;
    assert x == n * q + x % n;
    assert n * (q - j) == n * q - n * j && n * (j - q) == n * j - n * q;
    if q > j {
      AtLeastOnce(n, q - j);
    } else if q < j {
      AtLeastOnce(n, j - q);
    }
  }

  lemma {:induction false} PiecesFrom(k: nat, size: nat, n: nat, j: nat)
    requires n > 0 && k == n * j <= size && GoodPlace(k)
    ensures RunsRight(k, Pieces(size - k, n)) <==> PiecesFit(k, size, n, DISK_SECTOR_SIZE % n == 0)
    decreases size - k
  {
    hide RunsRight, ReadsRight, StaysInStep, Pieces, PiecesFit;
    var p := if size - k < n then size - k else n;
    FirstPiece(k, size, n);
    PieceRight(k, p);
    if k < DISK_SECTOR_SIZE <= k + n { EndsFirst(k, n, j); }
    if k + p < size && GoodPlace(k + p) {
      NextMultiple(n, j);
      PiecesFrom(k + p, size, n, j + 1);
    }
    FitsNext(k, size, n, p, j == 0, DISK_SECTOR_SIZE % n == 0);
  }

  lemma NextMultiple(n: nat, j: nat)
    ensures n * (j + 1) == n * j + n
  {}

  lemma EndsFirst(k: nat, n: nat, j: nat)
    requires n > 0 && k == n * j < DISK_SECTOR_SIZE <= k + n
    ensures DISK_SECTOR_SIZE % n == 0 <==> DISK_SECTOR_SIZE == k + n
    ensures j > 0 ==> n <= k
  {
    NextMultiple(n, j);
    if DISK_SECTOR_SIZE == k + n { Multiples(DISK_SECTOR_SIZE, n, j + 1); } else { Multiples(DISK_SECTOR_SIZE, n, j); }
    if j > 0 { AtLeastOnce(n, j); }
  }

  lemma FitsNext(k: nat, size: nat, n: nat, p: nat, first: bool, divides: bool)
    requires k <= size && GoodPlace(k) && p == (if size - k < n then size - k else n) && (first <==> k == 0)
    requires k < DISK_SECTOR_SIZE <= k + n ==> (divides <==> DISK_SECTOR_SIZE == k + n) && (!first ==> n <= k)
    ensures PiecesFit(k, size, n, divides)
       <==> (k + p < 2 * DISK_SECTOR_SIZE || (k > DISK_SECTOR_SIZE && k + p == 2 * DISK_SECTOR_SIZE))
            && (k + p < size ==> GoodPlace(k + p) && PiecesFit(k + p, size, n, divides))
  {}

  lemma PieceRight(k: nat, p: nat)
    requires GoodPlace(k)
    ensures ReadsRight(k, p) <==>
              k + p < 2 * DISK_SECTOR_SIZE || (k > DISK_SECTOR_SIZE && k + p == 2 * DISK_SECTOR_SIZE)
    ensures StaysInStep(k, p) <==> GoodPlace(k + p)
  {}

  lemma FirstPiece(k: nat, size: nat, n: nat)
    requires n > 0 && k <= size
    ensures var p := if size - k < n then size - k else n;
            RunsRight(k, Pieces(size - k, n))
            <==> ReadsRight(k, p)
                 && (k + p < size ==> StaysInStep(k, p) && RunsRight(k + p, Pieces(size - (k + p), n)))
  {
    hide ReadsRight, StaysInStep;
    if size - k >= n {
      var rest := Pieces(size - k - n, n);
      assert ([n] + rest)[1..] == rest;
    }
  }

  // Read in pieces of n, all files of a size come back as they are exactly if they have at most 3840 octets, or if no
  // piece ends with the first sector and the file ends in the second, or with it and takes more than one piece.
  lemma PiecesIff(size: nat, n: nat)
    requires n > 0
    ensures (forall content: seq<byte> | |content| == size :: RunFrom(content, 0, 0, Pieces(size, n)) == content)
       <==> size <= 3840 || (3840 % n != 0 && (size < 7680 || (size == 7680 && n < 7680)))
  {
    hide RunFrom, RunsRight, Pieces;
    PiecesFrom(0, size, n, 0);
    RunIff(Pieces(size, n), size);
    assert forall content: seq<byte> | |content| == size :: content[..Total(Pieces(size, n))] == content;
  }
}
