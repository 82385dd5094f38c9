/** The operations of ampm_ff.c on a volume: creating, writing, closing, opening, seeking, reading and removing
 * files. */
module AmpmVolume {
  import opened Words
  import opened AmpmFile
  import opened AmpmWriting
  import opened AmpmFinding
  import opened AmpmReading
  import opened AmpmSpace
  import opened AmpmTracking

  // An AMPM_FIL variable of the caller.
  class Fil {
    var r: Rec

    constructor (rec: Rec)
      ensures r == rec
    {
      r := rec;
    }
  }

  predicate Writable(r: Rec) { Guard(r) && r.permission == FA_WRITE }

  // A record that has just been opened passes the guards, and can be written exactly if that was asked for.
  lemma OpenedGuard(c: Rec, write: bool)
    requires FormatOk(c)
    ensures Guard(Opened(c, write)) && (Writable(Opened(c, write)) <==> write)
  {}

  // mode & flag, for a flag of one bit.
  predicate Has(mode: byte, flag: byte)
    requires flag > 0
  {
    mode / flag % 2 == 1
  }

  predicate Opening(mode: byte) { Has(mode, 0x01) || Has(mode, 0x10) || Has(mode, 0x80) }

  predicate Creating(mode: byte) { Has(mode, 0x08) || Has(mode, 0x04) }

  // READ, OPEN_ALWAYS and OPEN_EXISTING ask for a file that is there, CREATE_NEW and CREATE_ALWAYS for a new one.
  lemma Modes(mode: byte)
    ensures Opening(mode) <==> mode % 2 == 1 || mode / 16 % 2 == 1 || mode >= 128
    ensures Creating(mode) <==> mode / 4 % 2 == 1 || mode / 8 % 2 == 1
  {}

  class Volume {
    // the contents of the flash
    var flash: Disk
    const fileBuf: array<byte>
    // a device that never fails to read, and one that never fails at all
    const readable: bool
    const reliable: bool
    // the files the volume is known to hold, by start sector
    ghost var files: Files

    ghost predicate Shape()
    {
      fileBuf.Length == PAGE && (reliable ==> readable)
    }

    ghost predicate Valid()
      reads this
    {
      Shape() && FilesOk(flash, files)
    }

    // The device. AmpmDevice shows that the flash driver provides these writes.

    method ProgramHeader(i: nat, r: Rec) returns (ok: bool)
      requires Shape() && i <= DISK_SECTOR_MAX
      modifies this`flash
      ensures HeaderWrite(old(flash), flash, i, r, ok, reliable)
    {
      ok := *;
      ok := ok || reliable;
      var header: Rec, link: Rec, close: Rec, data: Data := *, *, *, *;
      var x := if reliable then WithHeader(r) else Sector(if ok then r else header, link, close, data);
      flash := flash[i := x];
    }

    method ProgramLink(i: nat, r: Rec) returns (ok: bool)
      requires Shape() && i <= DISK_SECTOR_MAX
      modifies this`flash
      ensures LinkWrite(old(flash), flash, i, r, ok, reliable)
    {
      var l: Rec := *;
      ok := *;
      ok := ok || (reliable && flash[i].link == Blank());
      flash := flash[i := WithLink(flash[i], if ok then r else l)];
    }

    method ProgramClose(i: nat, r: Rec) returns (ok: bool)
      requires Shape() && i <= DISK_SECTOR_MAX
      modifies this`flash
      ensures CloseWrite(old(flash), flash, i, r, ok, reliable)
    {
      var c: Rec := *;
      ok := *;
      ok := ok || (reliable && flash[i].close == Blank());
      flash := flash[i := WithClose(flash[i], if ok then r else c)];
    }

    method ProgramPage(i: nat, at: nat) returns (ok: bool)
      requires Shape() && i <= DISK_SECTOR_MAX && at + PAGE <= DISK_SECTOR_SIZE
      modifies this`flash
      ensures PageWrite(old(flash), flash, i, at, fileBuf[..], ok, reliable)
    {
      var junk := new byte[PAGE];
      ok := *;
      ok := ok || reliable;
      var page := if ok then fileBuf[..] else junk[..];
      flash := flash[i := WithPage(flash[i], at, page)];
      assert PageAt(flash[i], at) == page;
    }

    // A page that runs on into the next sector.
    method SpillPage(i: nat)
      requires Shape() && i < DISK_SECTOR_MAX
      modifies this`flash
      ensures SpillWrite(old(flash), flash, i)
    {
      var header: Rec, link: Rec, close: Rec, data: Data, data1: Data := *, *, *, *, *;
      flash := flash[i := flash[i].(data := data)];
      flash := flash[i + 1 := Sector(header, link, close, data1)];
    }

    method Erase(i: nat)
      requires Shape() && i <= DISK_SECTOR_MAX
      modifies this`flash
      ensures SectorErase(old(flash), flash, i, reliable)
    {
      var header: Rec, link: Rec, close: Rec, data: Data := *, *, *, *;
      flash := flash[i := if reliable then BlankSector() else Sector(header, link, close, data)];
    }

    // What is read is what is there, if the read does not fail; if it does, it may be anything, and the result is not
    // looked at.

    method ReadHeader(i: nat) returns (r: Rec, ghost good: bool)
      requires Shape() && i <= DISK_SECTOR_MAX
      ensures (good ==> r == flash[i].header) && (readable ==> good)
    {
      var junk: Rec, ok: bool := *, *;
      r := if ok || readable then flash[i].header else junk;
      good := ok || readable;
    }

    method ReadLink(i: nat) returns (r: Rec, ghost good: bool)
      requires Shape() && i <= DISK_SECTOR_MAX
      ensures (good ==> r == flash[i].link) && (readable ==> good)
    {
      var junk: Rec, ok: bool := *, *;
      r := if ok || readable then flash[i].link else junk;
      good := ok || readable;
    }

    method ReadClose(i: nat) returns (r: Rec, ghost good: bool)
      requires Shape() && i <= DISK_SECTOR_MAX
      ensures (good ==> r == flash[i].close) && (readable ==> good)
    {
      var junk: Rec, ok: bool := *, *;
      r := if ok || readable then flash[i].close else junk;
      good := ok || readable;
    }

    // n octets of the data of a sector go to the buffer.
    method ReadData(i: nat, at: nat, buff: array<byte>, to: nat, n: nat) returns (ghost good: bool)
      requires i <= DISK_SECTOR_MAX && at + n <= DISK_SECTOR_SIZE && to + n <= buff.Length
      modifies buff
      ensures buff[..to] == old(buff[..to]) && buff[to + n..] == old(buff[to + n..])
      ensures (good ==> buff[to..to + n] == flash[i].data[at..at + n]) && (readable ==> good)
    {
      var ok: bool := *;
      good := ok || readable;
      if ok || readable {
        forall p | 0 <= p < n { buff[to + p] := flash[i].data[at + p]; }
      } else {
        ReadAnything(buff, to, n);
      }
    }

    method ReadAnything(buff: array<byte>, to: nat, n: nat)
      requires to + n <= buff.Length
      modifies buff
      ensures buff[..to] == old(buff[..to]) && buff[to + n..] == old(buff[to + n..])
    {
      var p: nat := 0;
      while p < n
        invariant p <= n && buff[..to] == old(buff[..to]) && buff[to + n..] == old(buff[to + n..])
      {
        buff[to + p] := *;
        p := p + 1;
      }
    }

    // ampm_f_file_format_check on a record just read; the start header that it names replaces it.
    method FormatCheck(fil: Fil, ghost i: nat, ghost got: bool) returns (ok: bool, ghost seen: bool)
      requires Shape() && i <= DISK_SECTOR_MAX && (got ==> fil.r == flash[i].header)
      modifies fil
      ensures seen ==> got && (ok <==> Used(flash, i)) && (ok ==> fil.r == StartHeader(flash, i))
      ensures ok ==> FormatOk(fil.r)
      ensures readable && got ==> seen
    {
      ok, seen := false, got;
      if FormatOk(fil.r) {
        var r;
        ghost var good;
        r, good := ReadHeader(fil.r.start);
        fil.r, seen := r, seen && good;
        if FormatOk(fil.r) {
          ok := true;
        }
      }
    }

    // The look that all loops take at a sector: its header, and ampm_f_file_format_check on it.
    method Look(fil: Fil, i: nat) returns (used: bool, ghost seen: bool)
      requires Shape() && i <= DISK_SECTOR_MAX
      modifies fil
      ensures seen ==> (used <==> Used(flash, i)) && (used ==> fil.r == StartHeader(flash, i))
      ensures used ==> FormatOk(fil.r)
      ensures readable ==> seen
    {
      var r;
      ghost var got;
      r, got := ReadHeader(i);
      fil.r := r;
      used, seen := FormatCheck(fil, i, got);
    }

    // One step of the probe loops: i, temp and rand_sec advance to the next sector to look at.
    method NextProbe(i: nat, temp: nat, randSec: nat, ghost s: nat, ghost k: nat)
      returns (i': nat, temp': nat, randSec': nat)
      requires s < DISK_SECTOR_MAX && k < DISK_SECTOR_MAX && Probing(s, k, i, temp, randSec)
      ensures Probing(s, k + 1, i', temp', randSec') && i' == ProbeOrder(s)[k]
    {
      i', temp', randSec' := i, temp, randSec;
      if randSec != 0 {
        i' := i' - 1;
        randSec' := randSec' - 1;
      } else {
        if temp' != 0 {
          i' := temp';
          temp' := 0;
        }
        i' := i' + 1;
      }
    }

    // The loop variables after k sectors of a probe from s.
    ghost predicate Probing(s: nat, k: nat, i: nat, temp: nat, randSec: nat) {
      if k <= s then i == s - k && temp == s && randSec == s - k else i == k && temp == 0 && randSec == 0
    }

    // ampm_f_find_free_sector: the first sector in probe order that tests free. It fails, or hands out the sector
    // behind the volume, only if all others but one are used. seen says that no read has failed; if one has, a used
    // sector may test free.
    method FindFreeSector() returns (ok: bool, sector: nat, ghost s: nat, ghost k: nat, ghost seen: bool)
      requires Shape()
      ensures ok ==> sector <= DISK_SECTOR_MAX
      ensures readable ==> seen
      ensures s < DISK_SECTOR_MAX && k <= DISK_SECTOR_MAX && (ok <==> k < DISK_SECTOR_MAX)
      ensures ok ==> sector == ProbeOrder(s)[k]
      ensures seen ==> (forall j | 0 <= j < k :: Used(flash, ProbeOrder(s)[j])) && (ok ==> !Used(flash, sector))
      ensures seen && (!ok || sector == DISK_SECTOR_MAX) ==> Brimming(flash)
    {
      var rand: nat := *;
      var randSec: nat := rand % DISK_SECTOR_MAX;
      s, k, seen := randSec, 0, true;
      var i: nat, temp: nat := randSec, randSec;
      while i < DISK_SECTOR_MAX
        invariant 0 <= k <= DISK_SECTOR_MAX && Probing(s, k, i, temp, randSec) && (readable ==> seen)
        invariant seen ==> forall j | 0 <= j < k :: Used(flash, ProbeOrder(s)[j])
        decreases DISK_SECTOR_MAX - k
      {
        i, temp, randSec := NextProbe(i, temp, randSec, s, k);
        var fil := new Fil(Blank());
        var used;
        ghost var good;
        used, good := Look(fil, i);
        seen := seen && good;
        if !used {
          if seen && i == DISK_SECTOR_MAX { ProbedToEnd(flash, s, k); }
          return true, i, s, k, seen;
        }
        k := k + 1;
      }
      if seen { ProbedToEnd(flash, s, k); }
      return false, 0, s, k, seen;
    }

    // Writing.

    // Only sectors that the call has written to have changed, and the one it writes to next counts as such; as long
    // as no read has failed, all is known of the own file and of the others.
    ghost predicate Going(c: Call, r: Rec, w: Way)
      requires Shape()
      reads this`flash, fileBuf
    {
      && r.current <= DISK_SECTOR_MAX && r.current in w.hit && SameBut(c.d0, flash, w.hit)
      && (w.seen ==> Goes(c, reliable, flash, r, w.f, w.stray, fileBuf[..]))
    }

    // What a step of a write comes to. It only fails, or makes the file go astray, for want of room, if the device
    // does not fail and the file was whole and stays below the size limit.
    ghost predicate Stepped(c: Call, n: nat, r: Rec, w: Way, w': Way, ok: bool)
      requires Shape()
      reads this`flash, fileBuf
    {
      && SameBut(c.d0, flash, w'.hit) && (ok ==> Going(c, r, w'))
      && (w'.seen ==> w.seen && Ends(c, reliable, flash, w'.f, w'.stray) && (w.stray ==> w'.stray))
      && (readable && w.seen ==> w'.seen)
      && (reliable && w.seen && c.held && !w.stray && n < SIZE_LIMIT && !(ok && !w'.stray) ==> NoRoom(c, n))
    }

    // The body of the loop of ampm_f_write.
    method PutOctet(fil: Fil, b: byte, ghost c: Call, ghost w: Way) returns (ok: bool, ghost w': Way)
      requires Shape() && Going(c, fil.r, w) && fil.r.size < 0x1000_0000 && fil.r.offset < 0x1000_0000
      modifies fil, this`flash, fileBuf
      ensures Stepped(c, old(fil.r).size + 1, fil.r, w, w', ok) && w'.f.content == w.f.content + [b]
      ensures ok ==> fil.r.size == old(fil.r.size) + 1 && fil.r.offset == old(fil.r.offset) + 1
      ensures !ok ==> fil.r.status == 0x5A5A5A5A
      ensures ok && fil.r.offset % 256 == 0 ==> fileBuf[..] == seq(256, _ => 0xFF)
    {
      w' := w.(f := Extend(w.f, b));
      ghost var r0, buf0 := fil.r, fileBuf[..];
      fileBuf[fil.r.offset % PAGE] := b;
      assert fileBuf[..] == buf0[r0.offset % PAGE := b];
      fil.r := Advance(fil.r);
      if fil.r.offset % PAGE == 0 {
        ok, w' := PutPage(fil, b, c, w, r0, buf0);
      } else {
        ok := true;
        if w.seen {
          OctetGoes(c, reliable, flash, r0, w.f, w.stray, buf0, b);
          GoesEnds(c, reliable, flash, fil.r, w'.f, w'.stray, fileBuf[..]);
        }
      }
    }

    // A full page buffer is written out, and a full sector gets a successor.
    method PutPage(fil: Fil, ghost b: byte, ghost c: Call, ghost w: Way, ghost r0: Rec, ghost buf0: seq<byte>)
      returns (ok: bool, ghost w': Way)
      requires Shape() && r0.current <= DISK_SECTOR_MAX && r0.current in w.hit && SameBut(c.d0, flash, w.hit)
      requires |buf0| == PAGE
      requires w.seen ==> Goes(c, reliable, flash, r0, w.f, w.stray, buf0)
      requires r0.size < 0x1000_0000 && r0.offset < 0x1000_0000
      requires fil.r == Advance(r0) && (r0.offset + 1) % PAGE == 0 && fileBuf[..] == buf0[r0.offset % PAGE := b]
      modifies fil, this`flash, fileBuf
      ensures Stepped(c, r0.size + 1, fil.r, w, w', ok) && w'.f.content == w.f.content + [b]
      ensures ok ==> fil.r.size == r0.size + 1 && fil.r.offset == r0.offset + 1
      ensures !ok ==> fil.r.status == 0x5A5A5A5A
      ensures ok ==> fileBuf[..] == seq(256, _ => 0xFF)
    {
      hide Goes, Fills, Ends, SameBut;
      ghost var d, blank := flash, seq(PAGE, _ => 0xFF);
      w' := w.(f := Extend(w.f, b));
      var at := (fil.r.offset - PAGE) % DISK_SECTOR_SIZE;
      PageFits(fil.r.offset);
      ok := ProgramPage(fil.r.current, at);
      SameButMore(c.d0, d, flash, w.hit, r0.current);
      assert w.hit + {r0.current} == w.hit;
      if w.seen { PageFills(c, reliable, d, flash, r0, w.f, w.stray, buf0, b, at, ok, blank); }
      if !ok {
        fil.r := fil.r.(status := STATUS_ERR);
        return;
      }
      if fil.r.offset % DISK_SECTOR_SIZE == 0 {
        ghost var w1 := w';
        ok, w' := PutSector(fil, c, w1, blank);
        if !ok { return; }
      } else if w.seen {
        FilledGoes(c, reliable, flash, fil.r, w'.f, w'.stray, blank);
      }
      ClearBuffer();
    }

    // memset of the page buffer
    method ClearBuffer()
      requires Shape()
      modifies fileBuf
      ensures fileBuf[..] == seq(PAGE, _ => 0xFF)
    {
      forall i | 0 <= i < PAGE { fileBuf[i] := 0xFF; }
    }

    // A full sector is linked to a free one, which gets the header of the file.
    method PutSector(fil: Fil, ghost c: Call, ghost w: Way, ghost buf: seq<byte>) returns (ok: bool, ghost w': Way)
      requires Shape() && fil.r.offset % DISK_SECTOR_SIZE == 0
      requires fil.r.current <= DISK_SECTOR_MAX && fil.r.current in w.hit && SameBut(c.d0, flash, w.hit)
      requires w.seen ==> Fills(c, reliable, flash, fil.r, w.f, w.stray, buf)
      modifies fil, this`flash
      ensures SameBut(c.d0, flash, w'.hit) && w'.f.content == w.f.content
      ensures w'.seen ==> w.seen && Ends(c, reliable, flash, w'.f, w'.stray) && (w.stray ==> w'.stray)
      ensures readable && w.seen ==> w'.seen
      ensures ok ==> fil.r.current <= DISK_SECTOR_MAX && fil.r.current in w'.hit
      ensures ok && w'.seen ==> Goes(c, reliable, flash, fil.r, w'.f, w'.stray, buf)
      ensures ok ==> fil.r.size == old(fil.r.size) && fil.r.offset == old(fil.r.offset)
      ensures !ok ==> fil.r.status == 0x5A5A5A5A
      ensures reliable && w.seen && c.held && !w.stray && old(fil.r.size) < SIZE_LIMIT && !(ok && !w'.stray) ==>
                NoRoom(c, old(fil.r.size))
    {
      hide Goes, Fills, Ends, SameBut;
      ghost var d1, r := flash, fil.r;
      var sector;
      ghost var s, k, good;
      ok, sector, s, k, good := FindFreeSector();
      ghost var seen := w.seen && good;
      w' := w.(seen := seen);
      if seen { FillsEnds(c, reliable, d1, r, w.f, w.stray, buf); }
      if seen && (!ok || sector == DISK_SECTOR_MAX) { FullEnds(c, reliable, d1, r, w.f, w.stray, buf); }
      if !ok {
        fil.r := fil.r.(status := STATUS_ERR);
        return;
      }
      ghost var w1 := w';
      ok, w' := LinkSector(fil, sector, c, w1, buf);
    }

    // The link record of the full sector, and the header of the new one.
    method LinkSector(fil: Fil, sector: nat, ghost c: Call, ghost w: Way, ghost buf: seq<byte>)
      returns (ok: bool, ghost w': Way)
      requires Shape() && fil.r.offset % DISK_SECTOR_SIZE == 0 && sector <= DISK_SECTOR_MAX
      requires fil.r.current <= DISK_SECTOR_MAX && fil.r.current in w.hit && SameBut(c.d0, flash, w.hit)
      requires w.seen ==> Fills(c, reliable, flash, fil.r, w.f, w.stray, buf) && !Used(flash, sector)
      modifies fil, this`flash
      ensures SameBut(c.d0, flash, w'.hit) && w'.f.content == w.f.content && w'.seen == w.seen
      ensures w'.seen ==> Ends(c, reliable, flash, w'.f, w'.stray) && (w.stray ==> w'.stray)
      ensures ok ==> fil.r.current <= DISK_SECTOR_MAX && fil.r.current in w'.hit
      ensures ok && w'.seen ==> Goes(c, reliable, flash, fil.r, w'.f, w'.stray, buf)
      ensures ok ==> fil.r.size == old(fil.r.size) && fil.r.offset == old(fil.r.offset)
      ensures !ok ==> fil.r.status == 0x5A5A5A5A
      ensures reliable && w.seen && c.held && Kept(old(fil.r), w.stray) && sector < DISK_SECTOR_MAX ==> ok && !w'.stray
    {
      hide Goes, Fills, Ends, SameBut, Used;
      ghost var d1, r := flash, fil.r;
      w' := w.(hit := w.hit + {sector});
      fil.r := LinkRec(fil.r, sector);
      ok := ProgramLink(fil.r.current, fil.r);
      ghost var d2 := flash;
      SameButMore(c.d0, d1, d2, w.hit, r.current);
      assert w.hit + {r.current} == w.hit;
      SameButMore(c.d0, d2, d2, w.hit, sector);
      if !ok {
        if w.seen { LinkEnds(c, reliable, d1, d2, r, sector, w.f, w.stray, buf); }
        fil.r := fil.r.(status := STATUS_ERR);
        return;
      }
      fil.r := Sealed(fil.r.(previous := fil.r.current, current := sector));
      ok := ProgramHeader(sector, fil.r);
      SameButMore(c.d0, d2, flash, w.hit, sector);
      if w.seen {
        ghost var f', stray' := LinkGoes(c, reliable, d1, d2, flash, r, sector, w.f, w.stray, buf, ok);
        w' := w'.(f := f', stray := stray');
      }
      if !ok {
        fil.r := fil.r.(status := STATUS_ERR);
      }
    }

    // The loop of ampm_f_write.
    method PutAll(fil: Fil, buff: seq<byte>, ghost c: Call, ghost w0: Way) returns (ok: bool, ghost w: Way)
      requires Shape() && |buff| < 0x1_0000 && Going(c, fil.r, w0) && fil.r.size <= SIZE_LIMIT
      requires fil.r.offset <= SIZE_LIMIT
      modifies fil, this`flash, fileBuf
      ensures Stepped(c, old(fil.r.size) + |buff|, fil.r, w0, w, ok)
      ensures ok ==> w.f.content == w0.f.content + buff
      ensures ok ==> fil.r.size == old(fil.r.size) + |buff| && fil.r.offset == old(fil.r.offset) + |buff|
      ensures !ok ==> fil.r.status == 0x5A5A5A5A
      ensures ok && |buff| > 0 && fil.r.offset % 256 == 0 ==> fileBuf[..] == seq(256, _ => 0xFF)
    {
      hide Goes, Ends, NoRoom, SameBut;
      w, ok := w0, true;
      ghost var n: nat := fil.r.size;
      if w.seen { GoesEnds(c, reliable, flash, fil.r, w.f, w.stray, fileBuf[..]); }
      var i: nat := 0;
      while i < |buff|
        invariant 0 <= i <= |buff| && ok && fil.r.size == n + i && fil.r.offset == old(fil.r.offset) + i
        invariant Stepped(c, n + i, fil.r, w0, w, ok)
        invariant w.f.content == w0.f.content + buff[..i]
        invariant i > 0 && fil.r.offset % 256 == 0 ==> fileBuf[..] == seq(256, _ => 0xFF)
      {
        ghost var w1 := w;
        ok, w := PutOctet(fil, buff[i], c, w1);
        if NoRoom(c, n + i) { NoRoomLater(c, n + i, n + i + 1); }
        if NoRoom(c, n + i + 1) { NoRoomLater(c, n + i + 1, n + |buff|); }
        if !ok { return; }
        i := i + 1;
      }
    }

    // A record of the file being written, whose last page is in the page buffer.
    ghost predicate IsOpen(r: Rec)
      requires Shape()
      reads this`files, this`flash, fileBuf
    {
      r.start in files && Ready(flash, files[r.start], r, fileBuf[..])
    }

    // A record of a file that is not closed, but of which it is not known that it is whole.
    ghost predicate IsTracked(r: Rec)
      reads this`files, this`flash
    {
      Tracked(flash, files, r)
    }

    // ampm_f_write. kept says that the file has been extended by the octets, seen that no read has failed. hit are
    // the sectors that may have been written to.
    method Write(fil: Fil, buff: seq<byte>)
      returns (ok: bool, br: nat, ghost kept: bool, ghost seen: bool, ghost hit: set<nat>)
      requires Valid() && |buff| < 0x1_0000
      modifies this`files, fil, this`flash, fileBuf
      ensures Valid() && (readable ==> seen) && SameBut(old(flash), flash, hit)
      ensures !seen ==> !kept && files == Avoiding(old(files), hit)
      ensures !old(Writable(fil.r)) ==>
                && !ok && !kept && seen && fil.r == old(fil.r)
                && flash == old(flash) && files == old(files) && fileBuf[..] == old(fileBuf[..])
      ensures br == if old(Writable(fil.r)) then |buff| else 0
      ensures ok ==> fil.r.size == old(fil.r.size) + |buff| && fil.r.offset == old(fil.r.offset) + |buff|
      ensures ok && |buff| > 0 && fil.r.offset % 256 == 0 ==> fileBuf[..] == seq(256, _ => 0xFF)
      ensures old(Writable(fil.r)) && !ok ==> fil.r.status == 0x5A5A5A5A
      ensures seen && old(Writable(fil.r)) && !old(IsTracked(fil.r)) ==>
                && !kept && files == Avoiding(old(files), {old(fil.r.current)})
                && forall s | s in files :: SameSectors(old(flash), flash, files[s].chain)
      ensures seen && old(Writable(fil.r)) && old(IsTracked(fil.r)) ==>
                && Extended(old(flash), flash, old(files), files, old(fil.r), buff, ok, kept, old(IsOpen(fil.r)),
                            reliable)
                && (ok ==> IsTracked(fil.r) && fil.r.start == old(fil.r.start))
                && (kept ==> IsOpen(fil.r))
      ensures old(IsOpen(fil.r)) ==> old(IsTracked(fil.r) && Writable(fil.r))
    {
      br, kept, seen, hit := 0, false, true, {};
      if IsOpen(fil.r) { ReadyTracked(flash, files, fil.r, fileBuf[..]); }
      if !Guard(fil.r) || fil.r.permission != FA_WRITE {
        return false, 0, false, true, {};
      }
      br := |buff|;
      ok, kept, seen, hit := WriteOn(fil, buff);
    }

    // ... past its guard.
    method WriteOn(fil: Fil, buff: seq<byte>)
      returns (ok: bool, ghost kept: bool, ghost seen: bool, ghost hit: set<nat>)
      requires Valid() && |buff| < 0x1_0000 && Guard(fil.r)
      modifies this`files, fil, this`flash, fileBuf
      ensures Valid() && (readable ==> seen) && SameBut(old(flash), flash, hit)
      ensures !seen ==> !kept && files == Avoiding(old(files), hit)
      ensures ok ==> fil.r.size == old(fil.r.size) + |buff| && fil.r.offset == old(fil.r.offset) + |buff|
      ensures !ok ==> fil.r.status == 0x5A5A5A5A
      ensures ok && |buff| > 0 && fil.r.offset % 256 == 0 ==> fileBuf[..] == seq(256, _ => 0xFF)
      ensures seen && !old(IsTracked(fil.r)) ==>
                && !kept && files == Avoiding(old(files), {old(fil.r.current)})
                && forall s | s in files :: SameSectors(old(flash), flash, files[s].chain)
      ensures seen && old(IsTracked(fil.r)) ==>
                && Extended(old(flash), flash, old(files), files, old(fil.r), buff, ok, kept, old(IsOpen(fil.r)),
                            reliable)
                && (ok ==> IsTracked(fil.r) && fil.r.start == old(fil.r.start))
                && (kept ==> IsOpen(fil.r))
    {
      hide Points, Goes, Ends, Extended, Ready, Avoiding, FilesOk, SameBut;
      ghost var d0, files0, r0, buf0 := flash, files, fil.r, fileBuf[..];
      ghost var tracked, whole := IsTracked(r0), IsOpen(r0);
      ghost var c, f0, stray0 := StartCall(d0, files0, r0, buf0, reliable);
      ghost var w;
      StillSame(d0, r0.current);
      ok, w := PutAll(fil, buff, c, Way(f0, stray0, true, {r0.current}));
      seen, hit := w.seen, w.hit;
      kept := seen && tracked && whole && ok && Kept(fil.r, w.stray);
      if seen {
        files := EndCall(d0, files0, r0, buf0, buff, c, f0, stray0, reliable, flash, fil.r, w.f, w.stray, fileBuf[..],
                         ok, kept);
      } else {
        AvoidingOk(d0, flash, files0, hit);
        files := Avoiding(files0, hit);
      }
    }

    // ampm_f_close. stored says that the page buffer is in flash where it should be; the result of writing it is not
    // looked at.
    method Close(fil: Fil) returns (ok: bool, ghost stored: bool)
      requires Valid()
      modifies this`files, fil, this`flash
      ensures Valid()
      ensures ok ==> fil.r.name[0] == 0 && old(Guard(fil.r))
      ensures !ok ==> fil.r.name == old(fil.r.name)
      ensures !old(Writable(fil.r)) ==> ok == old(Guard(fil.r)) && flash == old(flash) && files == old(files)
      ensures old(Writable(fil.r)) && !old(IsOpen(fil.r)) ==>
                && files == Avoiding(old(files), Touched(old(fil.r)))
                && forall s | s in files :: SameSectors(old(flash), flash, files[s].chain)
      ensures old(IsOpen(fil.r)) ==>
                && ClosesOpen(old(flash), flash, old(files), files, old(fil.r), fileBuf[..], ok, stored)
                && (reliable ==> ok && stored)
    {
      stored := false;
      if !Guard(fil.r) {
        return false, false;
      }
      if fil.r.permission == FA_WRITE {
        ok, stored := CloseWritten(fil);
        if !ok { return; }
      }
      fil.r := fil.r.(name := fil.r.name[0 := 0]);
      ok := true;
    }

    // ... of a record for writing.
    method CloseWritten(fil: Fil) returns (ok: bool, ghost stored: bool)
      requires Valid() && Guard(fil.r)
      modifies this`files, fil, this`flash
      ensures Valid() && fil.r.name == old(fil.r.name)
      ensures !old(IsOpen(fil.r)) ==>
                && files == Avoiding(old(files), Touched(old(fil.r)))
                && forall s | s in files :: SameSectors(old(flash), flash, files[s].chain)
      ensures old(IsOpen(fil.r)) ==>
                && ClosesOpen(old(flash), flash, old(files), files, old(fil.r), fileBuf[..], ok, stored)
                && (reliable ==> ok && stored)
    {
      hide Ready, ClosedOn, ClosesOpen, SameBut, FilesOk, LastAt;
      ghost var d0, files0, r0 := flash, files, fil.r;
      if IsOpen(r0) { LastPage(d0, files0[r0.start], r0, fileBuf[..]); }
      ghost var t;
      ok, stored, t := WriteLast(fil);
      if r0.start in files0 && Ready(d0, files0[r0.start], r0, fileBuf[..]) {
        OpenCloses(d0, t, flash, files0, r0, fileBuf[..], ok, reliable);
        files := if ok && stored then files0[r0.start := Closed(files0[r0.start])] else files0 - {r0.start};
      } else {
        AvoidingOk(d0, flash, files0, Touched(r0));
        files := Avoiding(files0, Touched(r0));
      }
    }

    // The last page, and the close record; if that one fails, the file is erased.
    method WriteLast(fil: Fil) returns (ok: bool, ghost stored: bool, ghost t: Closing)
      requires Shape() && Guard(fil.r)
      modifies fil, this`flash
      ensures fil.r.name == old(fil.r.name) && SameBut(old(flash), flash, Touched(old(fil.r)))
      ensures LastAt(old(fil.r)) + PAGE <= DISK_SECTOR_SIZE ==>
                && ClosedOn(old(flash), t, flash, old(fil.r), fileBuf[..], ok, reliable)
                && (stored <==> PageAt(t.d1[old(fil.r.current)], LastAt(old(fil.r))) == fileBuf[..])
    {
      ghost var d0, r0 := flash, fil.r;
      var at := LastAt(fil.r);
      ghost var done;
      stored, done := WriteRest(fil, at);
      ghost var d1 := flash;
      var link;
      ghost var good;
      link, good := ReadLink(fil.r.start);
      fil.r := Sealed(fil.r.(current := fil.r.start, next := link.next, previous := fil.r.start));
      ok := ProgramClose(fil.r.start, fil.r);
      t := Closing(d1, flash, link, done);
      if !ok {
        Erase(fil.r.start);
      }
      ClosingTouches(d0, t, flash, r0, ok, reliable);
    }

    // The page buffer, wherever it goes.
    method WriteRest(fil: Fil, at: nat) returns (ghost stored: bool, ghost done: bool)
      requires Shape() && fil.r.current < DISK_SECTOR_MAX && at < DISK_SECTOR_SIZE
      modifies this`flash
      ensures at + PAGE <= DISK_SECTOR_SIZE ==>
                && PageWrite(old(flash), flash, fil.r.current, at, fileBuf[..], done, reliable)
                && (stored <==> PageAt(flash[fil.r.current], at) == fileBuf[..])
      ensures at + PAGE > DISK_SECTOR_SIZE ==> SpillWrite(old(flash), flash, fil.r.current)
    {
      stored, done := false, false;
      if at + PAGE <= DISK_SECTOR_SIZE {
        var written := ProgramPage(fil.r.current, at);
        done, stored := written, PageAt(flash[fil.r.current], at) == fileBuf[..];
      } else {
        SpillPage(fil.r.current);
      }
    }

    // What creating a file in sector i does to a volume with disk d and the given files.
    ghost predicate Created(r: Rec, name: seq<byte>, i: nat, ok: bool, d: Disk, files0: Files)
      requires Shape() && FilesOk(d, files0) && i <= DISK_SECTOR_MAX
      reads this`files, this`flash, fileBuf
    {
      && i !in files0 && OthersKept(d, flash, files0, i)
      && r.start == r.current == r.previous == i && r.next == 0xFFFFFFFF && r.status == 0xA5A5A5A5
      && r.size == r.offset == 0 && r.permission == 2
      && (reliable ==> ok)
      && (reliable && i < DISK_SECTOR_MAX && 1 <= |name| <= 28 ==> i in files)
      && if i in files
         then ok && files == files0[i := File(name, [i], [], false)] && IsOpen(r)
             && Grows(d, flash, File(name, [], [], false), files[i], false)
         else files == files0 && (reliable ==> Fades(d, flash))
    }

    // ampm_f_open: what a search in probe order from a random sector comes to, if no read fails. hit is the sector a
    // file has been created in, if one has.
    method Open(fil: Fil, name: seq<byte>, mode: byte)
      returns (ok: bool, ghost s: nat, ghost found: Found, ghost seen: bool, ghost hit: set<nat>)
      requires Valid() && 0 !in name && (Creating(mode) ==> |name| <= 67)
      modifies this`files, this`flash, fil
      ensures Valid() && s < DISK_SECTOR_MAX && (readable ==> seen) && SameBut(old(flash), flash, hit)
      ensures !seen ==> files == Avoiding(old(files), hit)
      ensures !Creating(mode) ==> hit == {} && flash == old(flash) && files == old(files)
      ensures found == Search(old(flash), ProbeOrder(s), name, Opening(mode), Creating(mode))
      ensures seen && !found.Create? ==> flash == old(flash) && files == old(files)
      ensures seen && found.Existing? ==> ok && fil.r == Opened(found.close, Has(mode, 0x02))
      ensures (seen && found.Existing?) || (ok && !Creating(mode)) ==>
                Guard(fil.r) && fil.r.offset == 0 && (Writable(fil.r) <==> mode / 2 % 2 == 1)
      ensures seen && found.NotFound? ==> !ok && fil.r.name[0] == 0
      ensures seen && found.Create? ==>
                !Used(old(flash), found.sector) && Created(fil.r, name, found.sector, ok, old(flash), old(files))
    {
      var i;
      ok, i, s, found, seen := Find(fil, name, Opening(mode), Creating(mode), Has(mode, 0x02));
      hit := {};
      if !ok && i <= DISK_SECTOR_MAX {
        hit := {i};
        ok := CreateFile(fil, name, i, seen);
      } else {
        NoneHit(flash, files);
      }
    }

    // The probe loop of ampm_f_open, for the questions it asks of the mode. i is the sector to create the file in, if
    // it comes to that.
    method Find(fil: Fil, name: seq<byte>, open: bool, create: bool, write: bool)
      returns (ok: bool, i: nat, ghost s: nat, ghost found: Found, ghost seen: bool)
      requires Shape()
      modifies fil
      ensures s < DISK_SECTOR_MAX && (readable ==> seen) && found == Search(flash, ProbeOrder(s), name, open, create)
      ensures !ok && i <= DISK_SECTOR_MAX ==> create
      ensures ok ==> Guard(fil.r) && fil.r.offset == 0 && (Writable(fil.r) <==> write)
      ensures seen && found.Existing? ==> ok && fil.r == Opened(found.close, write)
      ensures seen && found.NotFound? ==> !ok && fil.r.name[0] == 0
      ensures seen && found.Create? ==> !ok
      ensures seen && !ok ==> i == if found.Create? then found.sector else DISK_SECTOR_MAX + 1
    {
      hide Answers, Used;
      var rand: nat := *;
      var randSec: nat := rand % DISK_SECTOR_MAX;
      var temp: nat := randSec;
      s, i, seen := randSec, randSec, true;
      ghost var k: nat, order := 0, ProbeOrder(s);
      found := Search(flash, order, name, open, create);
      while i < DISK_SECTOR_MAX
        invariant 0 <= k <= DISK_SECTOR_MAX && Probing(s, k, i, temp, randSec) && (readable ==> seen)
        invariant seen ==> found == Search(flash, order[k..], name, open, create)
        decreases DISK_SECTOR_MAX - k
      {
        i, temp, randSec := NextProbe(i, temp, randSec, s, k);
        assert order[k..][0] == i && order[k..][1..] == order[k + 1..];
        var there;
        ghost var good;
        there, good := LookAt(fil, i, name, open, create, write);
        seen := seen && good;
        if there.Existing? {
          OpenedGuard(there.close, write);
          return true, i, s, found, seen;
        }
        if there.Create? { return false, i, s, found, seen; }
        k := k + 1;
      }
      fil.r := fil.r.(name := fil.r.name[0 := 0]);
      ok, i := false, DISK_SECTOR_MAX + 1;
    }

    // One turn of it: whether the search ends at sector i.
    method LookAt(fil: Fil, i: nat, name: seq<byte>, open: bool, create: bool, write: bool)
      returns (there: Found, ghost seen: bool)
      requires Shape() && i <= DISK_SECTOR_MAX
      modifies fil
      ensures readable ==> seen
      ensures seen ==>
                there == if open && Answers(flash, i, name) then Existing(flash[StartHeader(flash, i).start].close)
                                else if create && !Used(flash, i) then Create(i) else NotFound
      ensures there.Existing? ==> fil.r == Opened(there.close, write) && FormatOk(there.close)
      ensures there.Create? ==> create
    {
      var used;
      used, seen := Look(fil, i);
      if used {
        if open {
          if CStr(fil.r.name) == name {
            var r;
            ghost var good;
            r, good := ReadClose(fil.r.start);
            fil.r, seen := r, seen && good;
            if FormatOk(fil.r) {
              there := Existing(fil.r);
              fil.r := Opened(fil.r, write);
              return;
            }
          }
        }
      } else if create {
        return Create(i), seen;
      }
      there := NotFound;
    }

    // A free sector, or, if a read has failed, one that was taken for free, gets the header of a new file.
    method CreateFile(fil: Fil, name: seq<byte>, i: nat, ghost seen: bool) returns (ok: bool)
      requires Valid() && 0 !in name && |name| <= 67 && i <= DISK_SECTOR_MAX && (seen ==> !Used(flash, i))
      modifies this`files, this`flash, fil
      ensures Valid() && SameBut(old(flash), flash, {i})
      ensures !seen ==> files == Avoiding(old(files), {i})
      ensures seen ==> Created(fil.r, name, i, ok, old(flash), old(files))
    {
      hide Chained, Finished;
      ghost var d, was, f := flash, fil.r, File(name, [i], [], false);
      fil.r := NewRec(fil.r, name, i);
      ok := ProgramHeader(i, fil.r);
      if seen {
        FreeIsApart(d, d, files, i, i);
        OverwriteOwn(d, d, files, i, i, flash[i]);
        FreeIsUnchained(d, files, i);
        OthersOk(d, flash, files, i);
        NewKey(d, files, i);
        if ok && flash[i] == WithHeader(fil.r) && i < DISK_SECTOR_MAX && 1 <= |name| <= 28 {
          CreateReady(d, was, name, i, fileBuf[..]);
          ReadyChain(flash, f, fil.r, fileBuf[..]);
          NewFile(d, flash, files, i, f);
          CreateGrows(d, flash[i], i, name);
          files := files[i := f];
        } else if reliable {
          CreatesGood(was, name, i);
          OneFades(d, flash, i);
        }
      } else {
        AvoidingOk(d, flash, files, {i});
        files := Avoiding(files, {i});
      }
    }

    // ampm_f_lseek. unset is what its local record holds before a link record is read into it.
    method Lseek(fil: Fil, seek: uint32) returns (ok: bool, ghost unset: Rec, ghost seen: bool)
      requires Shape()
      modifies fil
      ensures readable ==> seen
      ensures seen ==>
                match WalkLinks(flash, old(fil.r.start), seek / DISK_SECTOR_SIZE, unset)
                case Reached(current, rfil) => ok && fil.r == Sought(old(fil.r), current, rfil, seek)
                case Stopped => !ok
                case Outside => true
      ensures fil.r == if ok
                       then old(fil.r).(current := fil.r.current, next := fil.r.next, previous := fil.r.previous,
                                        offset := seek)
                       else old(fil.r)
    {
      var num: nat, current: uint32 := seek / DISK_SECTOR_SIZE, fil.r.start;
      var rfil: Rec := *;
      unset, seen := rfil, true;
      ghost var walked := WalkLinks(flash, current, num, rfil);
      var i: nat := 0;
      while i < num
        invariant 0 <= i <= num && fil.r == old(fil.r) && (readable ==> seen)
        invariant seen ==> walked.Outside? || walked == WalkLinks(flash, current, num - i, rfil)
      {
        if current <= DISK_SECTOR_MAX {
          ghost var good;
          rfil, good := ReadLink(current);
          seen := seen && good;
        } else {
          rfil := *;
        }
        if !FormatOk(rfil) {
          return false, unset, seen;
        }
        current := rfil.next;
        i := i + 1;
      }
      fil.r := fil.r.(current := current, next := rfil.next, previous := rfil.previous, offset := seek);
      ok := true;
    }

    // ampm_f_next_sector: always the sector the link record of the first one names.
    method NextOf(fil: Fil) returns (ok: bool, ghost seen: bool)
      requires Shape() && fil.r.start <= DISK_SECTOR_MAX
      modifies fil
      ensures readable ==> seen
      ensures seen ==>
                && ok == FormatOk(flash[old(fil.r.start)].link)
                && (ok ==> fil.r.current == flash[old(fil.r.start)].link.next)
                && fil.r == if ok then Followed(old(fil.r), flash[old(fil.r.start)].link) else old(fil.r)
      ensures fil.r == if ok then old(fil.r).(current := fil.r.next, next := fil.r.next, previous := fil.r.previous)
                       else old(fil.r)
    {
      var rfil;
      rfil, seen := ReadLink(fil.r.start);
      ok := FormatOk(rfil);
      if !ok {
        return;
      }
      fil.r := fil.r.(current := rfil.next, next := rfil.next, previous := rfil.previous);
    }

    // ampm_f_read
    method Read(fil: Fil, buff: array<byte>, btr: nat) returns (ok: bool, br: nat, ghost seen: bool)
      requires Shape() && btr < 0x1_0000_0000 - SIZE_LIMIT
      requires Guard(fil.r) ==> ReadCount(fil.r, btr) <= buff.Length
      modifies fil, buff
      ensures readable ==> seen
      ensures seen ==> HasRead(ReadCall(flash, old(fil.r), btr), ok, old(fil.r), fil.r, old(buff[..]), buff[..], br)
      ensures old(Guard(fil.r)) ==> br == ReadCount(old(fil.r), btr) && old(fil.r.offset) + br <= old(fil.r.size)
      ensures old(Guard(fil.r)) && br < btr ==> old(fil.r.offset) + br == old(fil.r.size)
      ensures br <= btr && br <= buff.Length && buff[br..] == old(buff[br..])
      ensures ok ==> old(Guard(fil.r))
      ensures seen ==>
                (ok <==> && old(Guard(fil.r))
                         && (old(fil.r.offset) % 3840 + br <= 3840 || FormatOk(flash[old(fil.r.start)].link)))
      ensures fil.r == if ok
                       then old(fil.r).(current := fil.r.current, next := fil.r.next, previous := fil.r.previous,
                                        offset := old(fil.r.offset) + br)
                       else old(fil.r)
    {
      if !Guard(fil.r) {
        return false, 0, true;
      }
      br := if fil.r.offset + btr < fil.r.size then btr else fil.r.size - fil.r.offset;
      ok, seen := ReadOn(fil, buff, br, fil.r.offset % DISK_SECTOR_SIZE);
      if ok {
        fil.r := fil.r.(offset := fil.r.offset + br);
      }
    }

    // ... past its guard, from octet temp of the current sector on.
    method ReadOn(fil: Fil, buff: array<byte>, n: nat, temp: nat) returns (ok: bool, ghost seen: bool)
      requires Shape() && Guard(fil.r) && fil.r.offset + n <= fil.r.size && n <= buff.Length && temp < DISK_SECTOR_SIZE
      modifies fil, buff
      ensures readable ==> seen
      ensures fil.r == if ok
                       then old(fil.r).(current := fil.r.current, next := fil.r.next, previous := fil.r.previous)
                       else old(fil.r)
      ensures buff[n..] == old(buff[n..])
      ensures seen ==>
                HasRead(ReadParts(flash, old(fil.r), n, temp), ok, old(fil.r),
                        if ok then Moved(fil.r, n) else fil.r, old(buff[..]), buff[..], n)
    {
      if temp + n <= DISK_SECTOR_SIZE {
        ghost var was := buff[..];
        seen := ReadData(fil.r.current, temp, buff, 0, n);
        if seen { FrontIs(was, buff[..], flash[fil.r.current].data[temp..temp + n], n); }
        ok := true;
      } else {
        Remainder(temp, n, (temp + n) % DISK_SECTOR_SIZE);
        ok, seen := ReadOver(fil, buff, n, temp, (temp + n) % DISK_SECTOR_SIZE);
      }
    }

    // A read that leaves its sector.
    method ReadOver(fil: Fil, buff: array<byte>, n: nat, temp: nat, rest: nat) returns (ok: bool, ghost seen: bool)
      requires Shape() && Guard(fil.r) && fil.r.offset + n <= fil.r.size && n <= buff.Length
      requires temp < DISK_SECTOR_SIZE < temp + n && rest == (temp + n) % DISK_SECTOR_SIZE
      requires DISK_SECTOR_SIZE + rest <= temp + n
      modifies fil, buff
      ensures readable ==> seen
      ensures fil.r == if ok
                       then old(fil.r).(current := fil.r.current, next := fil.r.next, previous := fil.r.previous)
                       else old(fil.r)
      ensures buff[n..] == old(buff[n..])
      ensures seen ==>
                HasRead(ReadParts(flash, old(fil.r), n, temp), ok, old(fil.r),
                        if ok then Moved(fil.r, n) else fil.r, old(buff[..]), buff[..], n)
    {
      var temp0 := DISK_SECTOR_SIZE - temp;
      ghost var was, data := buff[..], flash[fil.r.current].data;
      ghost var good := ReadData(fil.r.current, temp, buff, 0, temp0);
      ghost var half := buff[..];
      Behind(was, half, temp0, n);
      if good {
        FrontIs(was, half, data[temp..temp + temp0], temp0);
        assert data[temp..temp + temp0] == data[temp..];
      }
      ok, seen := NextOf(fil);
      seen := seen && good;
      if !ok { return; }
      good := ReadSecond(fil, buff, temp0, rest, n);
      seen := seen && good;
      if seen { HasCrossed(flash, old(fil.r), n, temp, rest, was, half, buff[..]); }
    }

    // ... from the start of the sector that is current then.
    method ReadSecond(fil: Fil, buff: array<byte>, temp0: nat, rest: nat, ghost n: nat) returns (ghost good: bool)
      requires Shape() && temp0 + rest <= n <= buff.Length && rest <= DISK_SECTOR_SIZE
      modifies buff
      ensures readable ==> good
      ensures buff[..temp0] == old(buff[..temp0]) && buff[n..] == old(buff[n..])
      ensures buff[temp0 + rest..] == old(buff[temp0 + rest..])
      ensures good && fil.r.current <= DISK_SECTOR_MAX ==>
                buff[temp0..temp0 + rest] == flash[fil.r.current].data[0..rest]
    {
      ghost var half := buff[..];
      good := true;
      if fil.r.current <= DISK_SECTOR_MAX {
        good := ReadData(fil.r.current, 0, buff, temp0, rest);
      } else {
        ReadAnything(buff, temp0, rest);
      }
      Behind(half, buff[..], temp0 + rest, n);
    }

    // ampm_f_unlink: the first sector of a file of that name and the start of the file are erased, if no read fails.
    method Unlink(name: seq<byte>) returns (ok: bool, ghost i: nat, ghost s: nat, ghost seen: bool)
      requires Valid() && 0 !in name
      modifies this`files, this`flash
      ensures Valid() && (readable ==> seen)
      ensures !ok ==> flash == old(flash) && files == old(files)
      ensures ok ==> files == Avoiding(old(files), {s, i}) && SameBut(old(flash), flash, {s, i})
      ensures seen ==> (ok <==> exists k :: 0 <= k < DISK_SECTOR_MAX && Named(old(flash), k, name))
      ensures seen && ok ==>
                && i < DISK_SECTOR_MAX && Named(old(flash), i, name)
                && (forall k | 0 <= k < i :: !Named(old(flash), k, name))
                && s == StartHeader(old(flash), i).start && (reliable ==> Unlinked(old(flash), flash, i, s))
    {
      hide FilesOk;
      ghost var d := flash;
      i, s, seen := 0, 0, true;
      var n: nat := 0;
      while n < DISK_SECTOR_MAX
        invariant 0 <= n <= DISK_SECTOR_MAX && flash == d && files == old(files) && (readable ==> seen)
        invariant seen ==> forall k | 0 <= k < n :: !Named(d, k, name)
      {
        var fil := new Fil(Blank());
        var used;
        ghost var good;
        used, good := Look(fil, n);
        seen := seen && good;
        if used {
          if CStr(fil.r.name) == name {
            i, s := n, fil.r.start;
            assert seen ==> Named(d, n, name);
            Erase(fil.r.start);
            Erase(n);
            AvoidingOk(d, flash, files, {s, i});
            files := Avoiding(files, {s, i});
            return true, i, s, seen;
          }
        }
        n := n + 1;
      }
      ok := false;
    }

    // ampm_f_disk_cleanup, as it is run at start-up: exactly the closed files are left, untouched, if no read fails.
    // On a device that does not fail all sectors of the others test free, and if all used sectors named starts of
    // files they still do. hit are the sectors erased.
    method DiskCleanup() returns (ghost seen: bool, ghost hit: set<nat>)
      requires Valid()
      modifies this`files, this`flash
      ensures Valid() && (readable ==> seen) && SameBut(old(flash), flash, hit)
      ensures !seen ==> files == Avoiding(old(files), hit)
      ensures seen ==> files == ClosedOnes(old(files))
      ensures seen ==> forall s | s in files :: SameSectors(old(flash), flash, files[s].chain)
      ensures reliable ==>
                && Fades(old(flash), flash)
                && (forall s | s in old(files) && !old(files)[s].closed :: AllFree(flash, old(files)[s].chain))
                && (Live(old(flash), old(files)) ==> Live(flash, files))
    {
      ghost var d0, files0 := flash, files;
      seen, hit := true, {};
      var i: nat := 0;
      while i < DISK_SECTOR_MAX
        invariant 0 <= i <= DISK_SECTOR_MAX && files == files0 && (readable ==> seen) && SameBut(d0, flash, hit)
        invariant seen ==> ClosedSame(d0, files0, flash)
        invariant reliable ==> Cleaned(d0, files0, flash, i)
      {
        ghost var seen1, hit1 := seen, hit;
        seen, hit := CleanSector(i, d0, files0, seen1, hit1);
        i := i + 1;
      }
      if seen {
        CleanupEnds(d0, files0, flash, reliable);
        files := ClosedOnes(files0);
      } else {
        AvoidingOk(d0, flash, files0, hit);
        files := Avoiding(files0, hit);
      }
    }

    // One turn of its loop.
    method CleanSector(i: nat, ghost d0: Disk, ghost files0: Files, ghost seen: bool, ghost hit: set<nat>)
      returns (ghost seen': bool, ghost hit': set<nat>)
      requires Shape() && i < DISK_SECTOR_MAX && FilesOk(d0, files0) && (readable ==> seen) && SameBut(d0, flash, hit)
      requires seen ==> ClosedSame(d0, files0, flash)
      requires reliable ==> Cleaned(d0, files0, flash, i)
      modifies this`flash
      ensures (readable ==> seen') && SameBut(d0, flash, hit')
      ensures seen' ==> ClosedSame(d0, files0, flash)
      ensures reliable ==> Cleaned(d0, files0, flash, i + 1)
    {
      hide FilesOk, SameBut, ClosedSame, Cleaned;
      ghost var d := flash;
      seen', hit' := seen, hit;
      if reliable && i in files0 && !files0[i].closed && d[i] != BlankSector() { TurnAtStart(d0, files0, d, i); }
      var fil := new Fil(Blank());
      var used;
      ghost var good;
      used, good := Look(fil, i);
      seen' := seen' && good;
      if used {
        seen', hit' := CleanFile(fil, i, d0, files0, seen', hit);
      }
      if reliable { CleanedNext(d0, files0, flash, i); }
    }

    // The file that a used sector leads to is erased at its start if its close record is not good.
    method CleanFile(fil: Fil, ghost i: nat, ghost d0: Disk, ghost files0: Files, ghost seen: bool, ghost hit: set<nat>)
      returns (ghost seen': bool, ghost hit': set<nat>)
      requires Shape() && FormatOk(fil.r) && FilesOk(d0, files0) && (readable ==> seen) && SameBut(d0, flash, hit)
      requires seen ==> ClosedSame(d0, files0, flash)
      requires reliable ==> Cleaned(d0, files0, flash, i)
      modifies fil, this`flash
      ensures (readable ==> seen') && SameBut(d0, flash, hit') && (seen' ==> ClosedSame(d0, files0, flash))
      ensures reliable ==> Cleaned(d0, files0, flash, i)
      ensures && reliable && old(fil.r.start == i)
              && old(FormatOk(flash[i].header) && flash[i].header.start == i && !FormatOk(flash[i].close)) ==>
                flash[i] == BlankSector()
    {
      hide FilesOk, SameBut, ClosedSame, Cleaned;
      ghost var d := flash;
      seen', hit' := seen, hit;
      var start, r := fil.r.start, Blank();
      ghost var good;
      r, good := ReadHeader(start);
      fil.r, seen' := r, seen' && good;
      if FormatOk(fil.r) {
        r, good := ReadClose(fil.r.start);
        fil.r, seen' := r, seen' && good;
        if !FormatOk(fil.r) {
          Erase(start);
          hit' := hit + {start};
          SameButMore(d0, d, flash, hit, start);
          if seen' {
            ErasesNoClosed(d0, files0, d, start);
            ClosedStaySame(d0, files0, d, start, flash[start]);
          }
          if reliable { CleanedErase(d0, files0, d, i, start); }
        }
      }
    }

    // ampm_f_disk_format
    method DiskFormat()
      requires Shape()
      modifies this`files, this`flash
      ensures Valid() && files == map[] && flash[DISK_SECTOR_MAX] == old(flash[DISK_SECTOR_MAX])
      ensures reliable ==>
                && (forall i | 0 <= i < DISK_SECTOR_MAX :: flash[i] == BlankSector())
                && Live(flash, files) && Spare(flash) == DISK_SECTOR_MAX
                && (Clean(flash, files) <==> !FormatOk(flash[DISK_SECTOR_MAX].header))
    {
      var i: nat := 0;
      while i < DISK_SECTOR_MAX
        invariant 0 <= i <= DISK_SECTOR_MAX && flash[DISK_SECTOR_MAX] == old(flash[DISK_SECTOR_MAX])
        invariant reliable ==> forall k | 0 <= k < i :: flash[k] == BlankSector()
      {
        Erase(i);
        i := i + 1;
      }
      if reliable { FormattedIsEmpty(flash); }
      files := map[];
    }
  }

  // What a write to a file on the disk comes to. kept says that the file has been extended: it was whole before, the
  // write succeeded, the file stayed below the size limit, and it did not go on behind the volume.
  ghost predicate Extended(d: Disk, d': Disk, files: Files, files': Files, r: Rec, buff: seq<byte>, ok: bool,
                           kept: bool, whole: bool, sure: bool)
    requires FilesOk(d, files) && r.start in files
  {
    && r.start in files' && files' == files[r.start := files'[r.start]] && OthersKept(d, d', files, r.start)
    && var f, f', over := files[r.start], files'[r.start], Beyond(d', r.start);
       && f'.name == f.name && f.chain <= f'.chain && !f'.closed && Chained(d', f')
       && (ok ==> f'.content == f.content + buff)
       && (sure && (whole || Beyond(d, r.start)) ==> Grows(d, d', f, f', over))
       && (sure ==> Grows(d, d', f, f', true) && (Beyond(d, r.start) ==> over))
       && (kept ==> whole && ok && r.size + |buff| < SIZE_LIMIT)
       && (kept ==> Grows(d, d', f, f', false) && d'[DISK_SECTOR_MAX] == d[DISK_SECTOR_MAX])
       && (sure && whole && ok && !kept && r.size + |buff| < SIZE_LIMIT ==> over)
       && (sure && whole && !kept && r.size + |buff| < SIZE_LIMIT ==> TooFull(d, r.size, r.size + |buff|))
  }

  // A file of n octets is to get sectors more, but there are not more than these left.
  ghost predicate TooFull(d: Disk, n: nat, n': nat) {
    n / DISK_SECTOR_SIZE < n' / DISK_SECTOR_SIZE && Spare(d) <= n' / DISK_SECTOR_SIZE - n / DISK_SECTOR_SIZE
  }

  lemma StillSame(d: Disk, i: nat)
    ensures SameBut(d, d, {i})
  {}

  lemma FillsEnds(c: Call, sure: bool, d: Disk, r: Rec, f: File, stray: bool, buf: seq<byte>)
    requires Fills(c, sure, d, r, f, stray, buf)
    ensures Ends(c, sure, d, f, stray)
  {}

  // No sector of a file is among none.
  lemma NoneHit(d: Disk, files: Files)
    ensures SameBut(d, d, {}) && Avoiding(files, {}) == files
  {}

  lemma NewKey(d: Disk, files: Files, i: nat)
    requires FilesOk(d, files) && forall s | s in files :: i !in files[s].chain
    ensures i !in files && files - {i} == files
  {
    if i in files { StartOnChain(d, files, i); }
  }

  lemma GoesEnds(c: Call, sure: bool, d: Disk, r: Rec, f: File, stray: bool, buf: seq<byte>)
    requires Goes(c, sure, d, r, f, stray, buf)
    ensures Ends(c, sure, d, f, stray)
  {}

  // The two kinds of calls.
  lemma StartCall(d: Disk, files: Files, r: Rec, buf: seq<byte>, sure: bool) returns (c: Call, f: File, stray: bool)
    requires FilesOk(d, files) && |buf| == PAGE && r.current <= DISK_SECTOR_MAX
    ensures IsCall(d, files, r, buf, c, f, stray) && Goes(c, sure, d, r, f, stray, buf)
  {
    if Tracked(d, files, r) {
      f := files[r.start];
      stray := !Ready(d, f, r, buf);
      c := Call(d, files, r.start, f, true, !stray || Beyond(d, r.start));
      TrackedGoes(d, files, r, buf, !stray, sure);
    } else {
      c, f, stray := Loose(d, Avoiding(files, {r.current})), NO_FILE, true;
      LooseGoes(d, files, r, buf, sure);
    }
  }

  ghost predicate IsCall(d: Disk, files: Files, r: Rec, buf: seq<byte>, c: Call, f: File, stray: bool) {
    if Tracked(d, files, r)
    then f == files[r.start] && stray == !Ready(d, f, r, buf)
         && c == Call(d, files, r.start, f, true, !stray || Beyond(d, r.start))
    else c == Loose(d, Avoiding(files, {r.current})) && f == NO_FILE && stray
  }

  lemma EndCall(d: Disk, files: Files, r: Rec, buf: seq<byte>, buff: seq<byte>, c: Call, f: File, stray: bool,
                sure: bool, d': Disk, r': Rec, f': File, stray': bool, buf': seq<byte>, ok: bool, kept: bool)
      returns (files': Files)
    requires FilesOk(d, files) && |buf| == PAGE && IsCall(d, files, r, buf, c, f, stray)
    requires Ends(c, sure, d', f', stray') && (stray ==> stray')
    requires ok ==> Goes(c, sure, d', r', f', stray', buf') && f'.content == f.content + buff
    requires ok ==> r'.size == r.size + |buff|
    requires sure && c.held && !stray && r.size + |buff| < SIZE_LIMIT && !(ok && !stray') ==> NoRoom(c, r.size + |buff|)
    requires kept <==> Tracked(d, files, r) && Ready(d, files[r.start], r, buf) && ok && Kept(r', stray')
    ensures FilesOk(d', files')
    ensures !Tracked(d, files, r) ==>
              files' == Avoiding(files, {r.current}) && forall s | s in files' :: SameSectors(d, d', files'[s].chain)
    ensures Tracked(d, files, r) ==>
              && Extended(d, d', files, files', r, buff, ok, kept, Ready(d, files[r.start], r, buf), sure)
              && (ok ==> Tracked(d', files', r') && r'.start == r.start)
              && (kept ==> Ready(d', files'[r.start], r', buf'))
  {
    if Tracked(d, files, r) {
      files' := files[c.own := f'];
      NewFile(d, d', files, c.own, f');
      TrackedEnds(d, files, r, buf, buff, c, f, stray, sure, d', r', f', stray', buf', ok, kept);
    } else {
      files' := c.files0;
      LooseOk(d, d', files');
    }
  }

  lemma TrackedEnds(d: Disk, files: Files, r: Rec, buf: seq<byte>, buff: seq<byte>, c: Call, f: File, stray: bool,
                    sure: bool, d': Disk, r': Rec, f': File, stray': bool, buf': seq<byte>, ok: bool, kept: bool)
    requires FilesOk(d, files) && Tracked(d, files, r) && IsCall(d, files, r, buf, c, f, stray)
    requires Ends(c, sure, d', f', stray') && (stray ==> stray')
    requires ok ==> Goes(c, sure, d', r', f', stray', buf') && f'.content == f.content + buff
    requires ok ==> r'.size == r.size + |buff|
    requires sure && !stray && r.size + |buff| < SIZE_LIMIT && !(ok && !stray') ==> NoRoom(c, r.size + |buff|)
    requires kept <==> Ready(d, files[r.start], r, buf) && ok && Kept(r', stray')
    ensures Extended(d, d', files, files[r.start := f'], r, buff, ok, kept, Ready(d, files[r.start], r, buf), sure)
    ensures ok ==> Tracked(d', files[r.start := f'], r') && r'.start == r.start
    ensures kept ==> Ready(d', f', r', buf')
  {
    if !stray { ReadySize(d, f, r, buf); }
    if sure && !stray' {
      GrowsMore(d, d', f, f', Beyond(d', r.start));
      GrowsMore(d, d', f, f', true);
    }
  }

  // The disks on the way of a close, the link record it read, and what its page write reported.
  datatype Closing = Closing(d1: Disk, d2: Disk, link: Rec, done: bool)

  // The last page, and the close record, or the first sector erased when that one failed.
  ghost predicate ClosedOn(d: Disk, t: Closing, d': Disk, r: Rec, buf: seq<byte>, ok: bool, sure: bool) {
    && r.start <= DISK_SECTOR_MAX && r.current <= DISK_SECTOR_MAX && LastAt(r) + PAGE <= DISK_SECTOR_SIZE
    && PageWrite(d, t.d1, r.current, LastAt(r), buf, t.done, sure)
    && CloseWrite(t.d1, t.d2, r.start, CloseRec(r, t.link), ok, sure)
    && if ok then d' == t.d2 else SectorErase(t.d2, d', r.start, sure)
  }

  lemma ClosingTouches(d: Disk, t: Closing, d': Disk, r: Rec, ok: bool, sure: bool)
    requires r.start < DISK_SECTOR_MAX && r.current < DISK_SECTOR_MAX
    requires if LastAt(r) + PAGE <= DISK_SECTOR_SIZE then OnlyAt(d, t.d1, r.current) else SpillWrite(d, t.d1, r.current)
    requires OnlyAt(t.d1, t.d2, r.start) && if ok then d' == t.d2 else OnlyAt(t.d2, d', r.start)
    ensures SameBut(d, d', Touched(r))
  {
    forall k | 0 <= k <= DISK_SECTOR_MAX && k !in Touched(r) ensures d'[k] == d[k] {
      assert t.d1[k] == d[k];
    }
  }

  // The sectors a close can change.
  function Touched(r: Rec): set<nat> {
    {r.start, r.current} + if LastAt(r) + PAGE <= DISK_SECTOR_SIZE then {} else {r.current + 1}
  }

  // What closing a file open for writing comes to.
  ghost predicate ClosesOpen(d: Disk, d': Disk, files: Files, files': Files, r: Rec, buf: seq<byte>, ok: bool,
                             stored: bool)
    requires FilesOk(d, files) && r.start in files
  {
    && OthersKept(d, d', files, r.start) && r.start <= DISK_SECTOR_MAX && r.current <= DISK_SECTOR_MAX
        && LastAt(r) + PAGE <= DISK_SECTOR_SIZE
    && files' == (if ok && stored then files[r.start := Closed(files[r.start])] else files - {r.start})
    && (ok ==> && SameHeaders(d, d') && Closes(d'[r.start].close, files[r.start])
               && (stored <==> PageAt(d'[r.current], LastAt(r)) == buf))
  }

  lemma ReadyChain(d: Disk, f: File, r: Rec, buf: seq<byte>)
    requires Ready(d, f, r, buf)
    ensures |f.chain| > 0 && r.start == f.chain[0] && d[r.start].close == Blank()
  {}

  lemma OpenCloses(d: Disk, t: Closing, d': Disk, files: Files, r: Rec, buf: seq<byte>, ok: bool, sure: bool)
    requires FilesOk(d, files) && r.start in files && Ready(d, files[r.start], r, buf)
    requires ClosedOn(d, t, d', r, buf, ok, sure)
    ensures var stored := PageAt(t.d1[r.current], LastAt(r)) == buf;
            var files' := if ok && stored then files[r.start := Closed(files[r.start])] else files - {r.start};
            ClosesOpen(d, d', files, files', r, buf, ok, stored) && FilesOk(d', files') && (sure ==> ok && stored)
  {
    var own, f := r.start, files[r.start];
    LastPage(d, f, r, buf);
    ReadyChain(d, f, r, buf);
    ClosingApart(d, t, d', files, r, buf, ok, sure);
    hide FilesOk, FileOk, Ready;
    OthersOk(d, d', files, own);
    if ok {
      ClosedBy(d, t.d1, d', f, r, buf, t.link, t.done, sure);
      if PageAt(t.d1[r.current], LastAt(r)) == buf { NewFile(d, d', files, own, Closed(f)); }
    }
  }

  // It leaves the other files alone.
  lemma ClosingApart(d: Disk, t: Closing, d': Disk, files: Files, r: Rec, buf: seq<byte>, ok: bool, sure: bool)
    requires FilesOk(d, files) && r.start in files && Ready(d, files[r.start], r, buf)
    requires ClosedOn(d, t, d', r, buf, ok, sure)
    ensures OthersKept(d, d', files, r.start)
  {
    OwnApart(d, files, r.start, r);
    hide FilesOk, FileOk, Ready, WithPage, WithClose, CloseRec;
    OverwriteOwn(d, d, files, r.start, r.current, t.d1[r.current]);
    OverwriteOwn(d, t.d1, files, r.start, r.start, t.d2[r.start]);
    OverwriteOwn(d, t.d2, files, r.start, r.start, d'[r.start]);
  }

  lemma CreateGrows(d: Disk, x: Sector, i: nat, name: seq<byte>)
    requires i <= DISK_SECTOR_MAX
    ensures Grows(d, d[i := x], File(name, [], [], false), File(name, [i], [], false), false)
  {
    var d', f' := d[i := x], File(name, [i], [], false);
    assert f'.chain[0] == i;
    forall k | 0 <= k <= DISK_SECTOR_MAX ensures HeaderKept(d, d', f', false, k) {}
  }

  // The header written by a create is a good one exactly if the name has 1 to 28 characters and the sector is in the
  // volume.
  lemma CreatesGood(was: Rec, name: seq<byte>, i: uint32)
    requires 0 !in name
    ensures FormatOk(NewRec(was, name, i)) <==> 1 <= |name| <= 28 && i < DISK_SECTOR_MAX
  {
    if 1 <= |name| <= 28 && i < DISK_SECTOR_MAX {
      NewRecOk(was, name, i);
    } else if |name| <= 31 {
      StrCpyReads(was.name, name);
    } else {
      StrCpyFull(was.name, name);
    }
  }

  lemma OneFades(d: Disk, d': Disk, i: nat)
    requires i <= DISK_SECTOR_MAX && d' == d[i := d'[i]] && !FormatOk(d'[i].header)
    ensures Fades(d, d')
  {
    forall k | 0 <= k <= DISK_SECTOR_MAX ensures FadedAt(d, d', k) {}
  }

  // What a read does to the record and the buffer.
  ghost predicate HasRead(reading: Reading, ok: bool, r: Rec, r': Rec, was: seq<byte>, now: seq<byte>, br: nat) {
    match reading
    case Refused => !ok && r' == r && now == was
    case Done(octets, r1) => ok && r' == r1 && |octets| <= |was| && now == octets + was[|octets|..]
    case Broken(octets) => !ok && r' == r && |octets| <= |was| && now == octets + was[|octets|..]
    case Astray(octets, r1) =>
      ok && r' == r1 && |octets| <= br <= |was| == |now| && now[..|octets|] == octets && now[br..] == was[br..]
  }

  lemma FrontIs(was: seq<byte>, now: seq<byte>, first: seq<byte>, n: nat)
    requires n == |first| <= |was| == |now| && now[0..0 + n] == first && now[0 + n..] == was[0 + n..]
    ensures now == first + was[n..]
  {
    assert now == now[..n] + now[n..];
  }

  // What is behind place a is behind place b.
  lemma Behind(was: seq<byte>, now: seq<byte>, a: nat, b: nat)
    requires a <= b <= |was| == |now| && now[a..] == was[a..]
    ensures now[b..] == was[b..]
  {
    assert now[b..] == now[a..][b - a..] && was[b..] == was[a..][b - a..];
  }

  // A buffer that is filled in two steps from the front.
  lemma Reassemble(was: seq<byte>, half: seq<byte>, now: seq<byte>, first: seq<byte>, second: seq<byte>)
    requires |first| + |second| <= |was| == |now| && half == first + was[|first|..]
    requires now[..|first|] == half[..|first|] && now[|first|..|first| + |second|] == second
    requires now[|first| + |second|..] == half[|first| + |second|..]
    ensures now == first + second + was[|first + second|..]
  {
    assert half[|first| + |second|..] == was[|first| + |second|..];
    assert now == now[..|first|] + now[|first|..|first| + |second|] + now[|first| + |second|..];
  }

  // A read that has left its sector, put together.
  lemma HasCrossed(d: Disk, r: Rec, n: nat, temp: nat, rest: nat, was: seq<byte>, half: seq<byte>, now: seq<byte>)
    requires Guard(r) && r.offset + n <= r.size && n <= |was| == |now|
    requires temp < DISK_SECTOR_SIZE < temp + n && rest == (temp + n) % DISK_SECTOR_SIZE
    requires DISK_SECTOR_SIZE + rest <= temp + n
    requires FormatOk(d[r.start].link) && half == d[r.current].data[temp..] + was[DISK_SECTOR_SIZE - temp..]
    requires var n0, next := DISK_SECTOR_SIZE - temp, d[r.start].link.next;
             && now[..n0] == half[..n0] && now[n0 + rest..] == half[n0 + rest..]
             && (next <= DISK_SECTOR_MAX ==> now[n0..n0 + rest] == d[next].data[0..rest])
    ensures HasRead(ReadParts(d, r, n, temp), true, r, Moved(Followed(r, d[r.start].link), n), was, now, n)
  {
    hide FormatOk;
    var first, next := d[r.current].data[temp..], d[r.start].link.next;
    if next <= DISK_SECTOR_MAX {
      assert d[next].data[..rest] == d[next].data[0..rest];
      Reassemble(was, half, now, first, d[next].data[..rest]);
    } else {
      AfterFront(was, half, now, first, rest, n);
    }
  }

  lemma AfterFront(was: seq<byte>, half: seq<byte>, now: seq<byte>, first: seq<byte>, rest: nat, n: nat)
    requires |first| + rest <= n <= |was| && half == first + was[|first|..] && |now| == |was|
    requires now[..|first|] == half[..|first|] && now[|first| + rest..] == half[|first| + rest..]
    ensures now[..|first|] == first && now[n..] == was[n..]
  {
    assert now[n..] == now[|first| + rest..][n - |first| - rest..];
    assert half[|first| + rest..][n - |first| - rest..] == was[n..];
  }

  lemma CleanupEnds(d0: Disk, files0: Files, d: Disk, sure: bool)
    requires FilesOk(d0, files0) && ClosedSame(d0, files0, d) && (sure ==> Cleaned(d0, files0, d, DISK_SECTOR_MAX))
    ensures FilesOk(d, ClosedOnes(files0))
    ensures sure ==>
              && Fades(d0, d)
              && (forall s | s in files0 && !files0[s].closed :: AllFree(d, files0[s].chain))
              && (Live(d0, files0) ==> Live(d, ClosedOnes(files0)))
  {
    CleanedUp(d0, files0, d);
    if sure {
      BlankIsBad();
      forall i | 0 <= i <= DISK_SECTOR_MAX ensures FadedAt(d0, d, i) { assert CleanedAt(d0, d, i); }
      if Live(d0, files0) { CleanedLive(d0, files0, d); }
    }
  }

  lemma FormattedIsEmpty(d: Disk)
    requires forall i | 0 <= i < DISK_SECTOR_MAX :: d[i] == BlankSector()
    ensures Live(d, map[]) && Spare(d) == DISK_SECTOR_MAX
    ensures Clean(d, map[]) <==> !FormatOk(d[DISK_SECTOR_MAX].header)
  {
    BlankIsBad();
    AllSpare(d, DISK_SECTOR_MAX);
    forall i | 0 <= i <= DISK_SECTOR_MAX ensures NamesStart(d, map[], i) {}
    if Clean(d, map[]) { assert Belongs(d, map[], DISK_SECTOR_MAX); }
  }
}
