/** What stays true of a file during a call of ampm_f_write, whatever the device does: its chain survives, no other
 * file is touched, and if the write goes wrong on a device that does not fail, there was no room for it. */
module AmpmTracking {
  import opened Words
  import opened AmpmFile
  import opened AmpmWriting
  import opened AmpmFinding
  import opened AmpmSpace

  // What is fixed during a call: the disk and the files at its start, where the own file starts, what it was then,
  // whether there is such a file at all, and whether it was whole or had gone on behind the volume.
  datatype Call = Call(d0: Disk, files0: Files, own: nat, f0: File, held: bool, sound: bool)

  // All other files are as they were, and the sector written to is none of theirs.
  ghost predicate Apart(c: Call, d: Disk, current: nat) {
    && FilesOk(c.d0, c.files0) && OthersKept(c.d0, d, c.files0, c.own)
    && current <= DISK_SECTOR_MAX && Foreign(c.files0, c.own, current)
  }

  ghost predicate Foreign(files: Files, own: nat, i: nat) {
    forall s | s in files && s != own :: i !in files[s].chain
  }

  ghost predicate OnlyLast(chain: seq<nat>, current: nat) {
    forall j | 0 <= j < |chain| - 1 :: chain[j] != current
  }

  // The own file is a file that is not closed. As long as it has not gone astray, its headers are those of its chain;
  // and on a device that does not fail it only goes astray by getting the sector behind the volume.
  ghost predicate Trails(c: Call, sure: bool, d: Disk, f: File, stray: bool) {
    && FileOk(d, f) && !f.closed && f.chain[0] == c.own && f.name == c.f0.name && c.f0.chain <= f.chain
    && (!stray ==> d[DISK_SECTOR_MAX] == c.d0[DISK_SECTOR_MAX])
    && (sure && stray && c.sound ==> d[DISK_SECTOR_MAX].header.start == c.own)
    && (sure || !stray ==> Grows(c.d0, d, c.f0, f, stray))
  }

  ghost predicate Follows(c: Call, sure: bool, d: Disk, r: Rec, f: File, stray: bool) {
    Trails(c, sure, d, f, stray) && Points(r, f, c.own, stray)
  }

  // The record of the file.
  ghost predicate Points(r: Rec, f: File, own: nat, stray: bool) {
    && r.start == own && CStr(r.name) == f.name && r.size == r.offset
    && OnlyLast(f.chain, r.current) && (!stray ==> r.current < DISK_SECTOR_MAX)
  }

  predicate Kept(r: Rec, stray: bool) { !stray && r.size < SIZE_LIMIT }

  lemma ReadyPoints(d: Disk, f: File, r: Rec, buf: seq<byte>)
    requires Ready(d, f, r, buf)
    ensures FileOk(d, f) && !f.closed && Points(r, f, f.chain[0], false)
  {
    forall j | 0 <= j < |f.chain| - 1 ensures f.chain[j] != r.current { assert Differ(f.chain, j, |f.chain| - 1); }
  }

  // The sectors of a file whose record is followed stay good when something else is written.

  lemma ClosesSame(d: Disk, d': Disk, f: File, i: nat)
    requires FileOk(d, f) && !f.closed && i <= DISK_SECTOR_MAX && d' == d[i := d'[i]]
    requires d'[i].header == d[i].header && d'[i].close == d[i].close
    requires d'[i].link == d[i].link || OnlyLast(f.chain, i)
    ensures FileOk(d', f)
  {
    forall j | 0 <= j < |f.chain| ensures HeadedAt(d', f.chain, f.name, j) { assert HeadedAt(d, f.chain, f.name, j); }
    forall j | 0 <= j < |f.chain| - 1 ensures LinksOn(d', f.chain, j) { assert LinksOn(d, f.chain, j); }
  }

  lemma FileOkElsewhere(d: Disk, d': Disk, f: File, i: nat)
    requires FileOk(d, f) && i <= DISK_SECTOR_MAX && d' == d[i := d'[i]] && i !in f.chain
    ensures FileOk(d', f)
  {
    FileOkFrame(d, d', f);
  }

  // Writing a page or a link record.
  lemma TrailsSame(c: Call, sure: bool, d: Disk, d': Disk, i: nat, f: File, stray: bool)
    requires Trails(c, sure, d, f, stray) && i <= DISK_SECTOR_MAX && (i < DISK_SECTOR_MAX || stray)
    requires d' == d[i := d'[i]]
    requires d'[i].header == d[i].header && d'[i].close == d[i].close
    requires d'[i].link == d[i].link || OnlyLast(f.chain, i)
    ensures Trails(c, sure, d', f, stray)
  {
    ClosesSame(d, d', f, i);
    if sure || !stray {
      SameHeadersGrow(d, d', f, f, stray);
      GrowsTrans(c.d0, d, d', c.f0, f, f, stray);
    }
  }

  // Writing a header to a sector that does not become one of the chain.
  lemma TrailsOff(c: Call, sure: bool, d: Disk, d': Disk, i: nat, f: File, stray: bool, stray': bool)
    requires Trails(c, sure, d, f, stray) && i <= DISK_SECTOR_MAX && i !in f.chain && d' == d[i := d'[i]]
    requires (stray ==> stray') && (i == DISK_SECTOR_MAX ==> stray')
    requires sure || !stray' ==> !FormatOk(d'[i].header) || (stray' && Heads(d'[i].header, c.own, f.name))
    requires sure ==> d'[i].header.start == c.own && (stray' ==> stray || i == DISK_SECTOR_MAX)
    ensures Trails(c, sure, d', f, stray')
  {
    FileOkElsewhere(d, d', f, i);
    if sure || !stray' {
      if !stray { GrowsMore(c.d0, d, c.f0, f, stray'); }
      forall k | 0 <= k <= DISK_SECTOR_MAX ensures HeaderKept(d, d', f, stray', k) {}
      GrowsTrans(c.d0, d, d', c.f0, f, f, stray');
    }
  }

  // Writing the header of the next sector of the chain.
  lemma TrailsOn(c: Call, sure: bool, d: Disk, d': Disk, i: nat, f: File, f': File)
    requires Trails(c, sure, d, f, false) && i < DISK_SECTOR_MAX && i !in f.chain && d' == d[i := d'[i]]
    requires f' == f.(chain := f.chain + [i]) && Chained(d', f')
    ensures Trails(c, sure, d', f', false)
  {
    assert f'.chain[|f.chain|] == i && f'.chain[0] == f.chain[0];
    forall k | 0 <= k <= DISK_SECTOR_MAX ensures HeaderKept(d, d', f', false, k) {}
    GrowsTrans(c.d0, d, d', c.f0, f, f', false);
  }

  lemma OffChain(chain: seq<nat>, i: nat)
    requires i !in chain
    ensures OnlyLast(chain, i)
  {}

  // A free sector is not on the own chain.
  lemma FreeIsOff(d: Disk, f: File, i: nat)
    requires Chained(d, f) && i <= DISK_SECTOR_MAX && !Used(d, i)
    ensures i !in f.chain
  {
    forall j | 0 <= j < |f.chain| ensures f.chain[j] != i { ChainIsUsed(d, f, j); }
  }

  // The header that the next sector gets is one of the file, or a bad one.
  lemma NextIsOwn(r: Rec, f: File, own: nat, stray: bool, next: uint32)
    requires Points(r, f, own, stray)
    ensures NextHeader(r, next).start == own && CStr(NextHeader(r, next).name) == f.name
    ensures r.size >= SIZE_LIMIT || next >= DISK_SECTOR_MAX ==> !FormatOk(NextHeader(r, next))
    ensures next !in f.chain ==> Points(NextHeader(r, next), f, own, stray || next >= DISK_SECTOR_MAX)
  {
    assert NextHeader(r, next).name == r.name;
  }

  // What a link and a header written to a free sector come to.
  lemma Linking(c: Call, sure: bool, d1: Disk, d2: Disk, d3: Disk, r: Rec, next: uint32, f: File, stray: bool,
                buf: seq<byte>)
      returns (f': File, stray': bool)
    requires Follows(c, sure, d1, r, f, stray) && r.current <= DISK_SECTOR_MAX && next <= DISK_SECTOR_MAX
    requires !Used(d1, next)
    requires Kept(r, stray) ==> Writing(d1, f, r, buf) && |f.content| == 3840 * |f.chain|
    requires LinkWrite(d1, d2, r.current, LinkRec(r, next), true, sure)
        && exists ok :: HeaderWrite(d2, d3, next, NextHeader(r, next), ok, sure)
    ensures Follows(c, sure, d3, NextHeader(r, next), f', stray') && (stray ==> stray') && f'.content == f.content
    ensures Kept(r, stray') ==> Ready(d3, f', NextHeader(r, next), buf)
    ensures sure && !stray && next < DISK_SECTOR_MAX ==> !stray'
  {
    FreeIsOff(d1, f, next);
    NextIsOwn(r, f, c.own, stray, next);
    OffChain(f.chain, next);
    TrailsSame(c, sure, d1, d2, r.current, f, stray);
    var exact := d3 == Linked(d1, r, next);
    if sure { assert d3 == Linked(d1, r, next); }
    f', stray' := f, stray || !exact || next == DISK_SECTOR_MAX;
    if Kept(r, stray') {
      NextSector(d1, f, r, buf, next);
      f' := f.(chain := f.chain + [next]);
      TrailsOn(c, sure, d2, d3, next, f, f');
      ReadyPoints(d3, f', NextHeader(r, next), buf);
    } else {
      TrailsOff(c, sure, d2, d3, next, f, stray, stray');
    }
  }

  // Room.

  // The chain of a file of n octets.
  predicate FullChain(f: File, n: nat) { |f.chain| == n / DISK_SECTOR_SIZE + 1 }

  lemma SizeIsChain(f: File)
    requires |f.chain| > 0 && SizeFits(f)
    ensures FullChain(f, |f.content|)
  {}

  // The own file, at n octets, cannot get a sector more.
  ghost predicate NoRoom(c: Call, n: nat) {
    var full := |c.f0.content| / DISK_SECTOR_SIZE;
    full < n / DISK_SECTOR_SIZE && Spare(c.d0) <= n / DISK_SECTOR_SIZE - full
  }

  lemma NoRoomLater(c: Call, n: nat, n': nat)
    requires NoRoom(c, n) && n <= n'
    ensures NoRoom(c, n')
  {}

  lemma NoRoomNow(c: Call, sure: bool, d: Disk, f: File)
    requires Trails(c, sure, d, f, false) && Brimming(d) && Chained(c.d0, c.f0) && SizeFits(c.f0)
    requires |f.content| == 3840 * |f.chain|
    ensures NoRoom(c, |f.content|)
  {
    SpareGrows(c.d0, d, c.f0, f);
    BrimmingSpare(d);
    SizeIsChain(c.f0);
    assert |c.f0.chain| <= |f.chain|;
  }

  // What is known of a call at some point: the file so far, whether it has gone astray, whether no read of the device
  // has failed, and the sectors it has written to or is going to.
  datatype Way = Way(f: File, stray: bool, seen: bool, hit: set<nat>)

  lemma SameButMore(d0: Disk, d: Disk, d': Disk, hit: set<nat>, i: nat)
    requires SameBut(d0, d, hit) && i <= DISK_SECTOR_MAX && OnlyAt(d, d', i)
    ensures SameBut(d0, d', hit + {i})
  {}

  // A call on its way: between octets, after a page, and when it has ended.

  ghost predicate Rooted(c: Call) { Chained(c.d0, c.f0) && SizeFits(c.f0) }

  ghost predicate Goes(c: Call, sure: bool, d: Disk, r: Rec, f: File, stray: bool, buf: seq<byte>) {
    && Apart(c, d, r.current) && |buf| == PAGE
    && (c.held ==> Follows(c, sure, d, r, f, stray) && (stray || Rooted(c)) && (Kept(r, stray) ==> Ready(d, f, r, buf)))
  }

  ghost predicate Fills(c: Call, sure: bool, d: Disk, r: Rec, f: File, stray: bool, buf: seq<byte>) {
    && Apart(c, d, r.current) && |buf| == PAGE
    && (c.held ==>
          && Follows(c, sure, d, r, f, stray) && (stray || Rooted(c))
          && (Kept(r, stray) ==> Writing(d, f, r, buf) && FilledTo(f)))
  }

  ghost predicate Ends(c: Call, sure: bool, d: Disk, f: File, stray: bool) {
    && FilesOk(c.d0, c.files0) && OthersKept(c.d0, d, c.files0, c.own)
    && (c.held ==> Trails(c, sure, d, f, stray))
  }

  lemma PointsNext(r: Rec, f: File, own: nat, stray: bool, b: byte)
    requires Points(r, f, own, stray) && r.size < 0x1000_0000
    ensures Points(Advance(r), Extend(f, b), own, stray)
  {}

  lemma TrailsNext(c: Call, sure: bool, d: Disk, f: File, stray: bool, b: byte)
    requires Trails(c, sure, d, f, stray)
    ensures Trails(c, sure, d, Extend(f, b), stray)
  {
    var f' := Extend(f, b);
    ChainedNext(d, f, b);
    if sure || !stray {
      forall i | 0 <= i <= DISK_SECTOR_MAX ensures HeaderKept(c.d0, d, f', stray, i) {
        assert HeaderKept(c.d0, d, f, stray, i);
      }
    }
  }

  lemma FollowsNext(c: Call, sure: bool, d: Disk, r: Rec, f: File, stray: bool, b: byte)
    requires Follows(c, sure, d, r, f, stray) && r.size < 0x1000_0000
    ensures Follows(c, sure, d, Advance(r), Extend(f, b), stray)
  {
    hide Trails, Points;
    TrailsNext(c, sure, d, f, stray, b);
    PointsNext(r, f, c.own, stray, b);
  }

  // An octet that does not fill the page.
  lemma OctetGoes(c: Call, sure: bool, d: Disk, r: Rec, f: File, stray: bool, buf: seq<byte>, b: byte)
    requires Goes(c, sure, d, r, f, stray, buf) && (r.offset + 1) % PAGE != 0 && r.size < 0x1000_0000
    requires r.offset < 0x1000_0000
    ensures Goes(c, sure, d, Advance(r), Extend(f, b), stray, buf[r.offset % PAGE := b])
  {
    hide Apart, Follows;
    if c.held {
      FollowsNext(c, sure, d, r, f, stray, b);
      if Kept(Advance(r), stray) { BufferOctet(d, f, r, buf, b); }
    }
  }

  // A page written.
  lemma PageFills(c: Call, sure: bool, d: Disk, d': Disk, r: Rec, f: File, stray: bool, buf: seq<byte>, b: byte,
                  at: nat, ok: bool, blank: seq<byte>)
    requires Goes(c, sure, d, r, f, stray, buf) && (r.offset + 1) % PAGE == 0 && r.size < 0x1000_0000
    requires r.offset < 0x1000_0000
    requires r.offset + 1 >= PAGE && at == (r.offset + 1 - PAGE) % DISK_SECTOR_SIZE && at + PAGE <= DISK_SECTOR_SIZE
        && |blank| == PAGE
    requires PageWrite(d, d', r.current, at, buf[r.offset % PAGE := b], ok, sure)
    ensures Ends(c, sure, d', Extend(f, b), stray)
    ensures ok ==> Fills(c, sure, d', Advance(r), Extend(f, b), stray, blank)
    ensures c.held && sure && Kept(Advance(r), stray) ==> ok
  {
    var page := buf[r.offset % PAGE := b];
    OverwriteOwn(c.d0, d, c.files0, c.own, r.current, d'[r.current]);
    if c.held {
      hide Trails, Points, Writing, Ready;
      PageTrails(c, sure, d, d', r, f, stray);
      TrailsNext(c, sure, d', f, stray, b);
      PointsNext(r, f, c.own, stray, b);
      if Kept(Advance(r), stray) {
        ReadySize(d, f, r, buf);
        PageStep(d, f, r, buf, b, at, page, blank);
        assert ok ==> d' == d[r.current := WithPage(d[r.current], at, page)];
      }
    }
  }

  lemma ReadySize(d: Disk, f: File, r: Rec, buf: seq<byte>)
    requires Ready(d, f, r, buf)
    ensures r.offset == r.size == |f.content| && |f.chain| > 0 && SizeFits(f)
  {}

  lemma PageTrails(c: Call, sure: bool, d: Disk, d': Disk, r: Rec, f: File, stray: bool)
    requires Follows(c, sure, d, r, f, stray) && r.current <= DISK_SECTOR_MAX && d' == d[r.current := d'[r.current]]
    requires d'[r.current] == d[r.current].(data := d'[r.current].data)
    ensures Trails(c, sure, d', f, stray)
  {
    TrailsSame(c, sure, d, d', r.current, f, stray);
  }

  // ... that does not fill the sector.
  lemma FilledGoes(c: Call, sure: bool, d: Disk, r: Rec, f: File, stray: bool, buf: seq<byte>)
    requires Fills(c, sure, d, r, f, stray, buf) && r.offset % DISK_SECTOR_SIZE != 0
    ensures Goes(c, sure, d, r, f, stray, buf)
  {}

  // A sector added.
  lemma LinkGoes(c: Call, sure: bool, d1: Disk, d2: Disk, d3: Disk, r: Rec, next: uint32, f: File, stray: bool,
      buf: seq<byte>, ok: bool)
      returns (f': File, stray': bool)
    requires Fills(c, sure, d1, r, f, stray, buf) && r.offset % DISK_SECTOR_SIZE == 0 && next <= DISK_SECTOR_MAX
        && !Used(d1, next)
    requires LinkWrite(d1, d2, r.current, LinkRec(r, next), true, sure)
        && HeaderWrite(d2, d3, next, NextHeader(r, next), ok, sure)
    ensures Ends(c, sure, d3, f', stray') && (stray ==> stray') && f'.content == f.content
    ensures Goes(c, sure, d3, NextHeader(r, next), f', stray', buf)
    ensures sure && c.held && !stray && next < DISK_SECTOR_MAX ==> !stray'
  {
    FreeIsApart(c.d0, d1, c.files0, c.own, next);
    OverwriteOwn(c.d0, d1, c.files0, c.own, r.current, d2[r.current]);
    OverwriteOwn(c.d0, d2, c.files0, c.own, next, d3[next]);
    f', stray' := f, stray;
    if c.held {
      hide Writing, Points, Trails;
      if Kept(r, stray) { WritingSize(d1, f, r, buf); }
      f', stray' := Linking(c, sure, d1, d2, d3, r, next, f, stray, buf);
    }
  }

  lemma WritingSize(d: Disk, f: File, r: Rec, buf: seq<byte>)
    requires Writing(d, f, r, buf)
    ensures r.offset == r.size == |f.content| && |f.chain| > 0 && d[r.current].link == Blank()
  {}

  // A link record that could not be written.
  lemma LinkEnds(c: Call, sure: bool, d1: Disk, d2: Disk, r: Rec, next: uint32, f: File, stray: bool, buf: seq<byte>)
    requires Fills(c, sure, d1, r, f, stray, buf) && r.offset % DISK_SECTOR_SIZE == 0 && next <= DISK_SECTOR_MAX
    requires LinkWrite(d1, d2, r.current, LinkRec(r, next), false, sure)
    ensures Ends(c, sure, d2, f, stray)
    ensures c.held && sure ==> !Kept(r, stray)
  {
    OverwriteOwn(c.d0, d1, c.files0, c.own, r.current, d2[r.current]);
    if c.held {
      TrailsSame(c, sure, d1, d2, r.current, f, stray);
      if Kept(r, stray) { WritingSize(d1, f, r, buf); }
    }
  }

  // No sector found, or only the one behind the volume.
  lemma FullEnds(c: Call, sure: bool, d: Disk, r: Rec, f: File, stray: bool, buf: seq<byte>)
    requires Fills(c, sure, d, r, f, stray, buf) && r.offset % DISK_SECTOR_SIZE == 0 && Brimming(d)
    ensures Ends(c, sure, d, f, stray)
    ensures c.held && Kept(r, stray) ==> NoRoom(c, r.size)
  {
    if c.held && Kept(r, stray) {
      WritingSize(d, f, r, buf);
      NoRoomNow(c, sure, d, f);
    }
  }

  // How a call starts.

  // A record that follows a file that is not closed, but may have gone astray.
  ghost predicate Tracked(d: Disk, files: Files, r: Rec) {
    && r.start in files && !files[r.start].closed && Points(r, files[r.start], r.start, true)
    && r.current <= DISK_SECTOR_MAX && Foreign(files, r.start, r.current)
  }

  lemma ReadyTracked(d: Disk, files: Files, r: Rec, buf: seq<byte>)
    requires FilesOk(d, files) && r.start in files && Ready(d, files[r.start], r, buf)
    ensures Tracked(d, files, r) && r.current < DISK_SECTOR_MAX && Points(r, files[r.start], r.start, false)
  {
    ReadyPoints(d, files[r.start], r, buf);
    OwnApart(d, files, r.start, r);
  }

  // The sectors of a file being written are its own.
  lemma OwnApart(d: Disk, files: Files, own: nat, r: Rec)
    requires FilesOk(d, files) && own in files && Describes(r, files[own])
    ensures OthersKept(d, d, files, own) && r.current < DISK_SECTOR_MAX && Foreign(files, own, r.current)
        && Foreign(files, own, own)
  {
    var f := files[own];
    assert f.chain[|f.chain| - 1] == r.current < DISK_SECTOR_MAX;
    hide FilesOk, Describes;
    NamesOwnStart(d, files, own, r.current);
    StartOnChain(d, files, own);
    NamesOwnStart(d, files, own, own);
    forall s | s in files && s != own ensures r.current !in files[s].chain && own !in files[s].chain {
      if r.current in files[s].chain { NamesOwnStart(d, files, s, r.current); }
      if own in files[s].chain { NamesOwnStart(d, files, s, own); }
    }
  }

  predicate Beyond(d: Disk, own: nat) { d[DISK_SECTOR_MAX].header.start == own }

  lemma TrackedGoes(d: Disk, files: Files, r: Rec, buf: seq<byte>, whole: bool, sure: bool)
    requires FilesOk(d, files) && Tracked(d, files, r) && |buf| == PAGE && (whole ==> Ready(d, files[r.start], r, buf))
    ensures Goes(Call(d, files, r.start, files[r.start], true, whole || Beyond(d, r.start)), sure, d, r, files[r.start],
        !whole, buf)
  {
    var f := files[r.start];
    if whole { ReadyTracked(d, files, r, buf); }
    SameHeadersGrow(d, d, f, f, !whole);
  }

  // A record that follows none: the files that have its current sector are given up.
  const NO_FILE: File := File([], [], [], false)

  function Loose(d: Disk, files: Files): Call { Call(d, files, DISK_SECTOR_MAX + 1, NO_FILE, false, false) }

  lemma LooseGoes(d: Disk, files: Files, r: Rec, buf: seq<byte>, sure: bool)
    requires FilesOk(d, files) && r.current <= DISK_SECTOR_MAX && |buf| == PAGE
    ensures Goes(Loose(d, Avoiding(files, {r.current})), sure, d, r, NO_FILE, true, buf)
  {
    AvoidingOk(d, d, files, {r.current});
  }

  lemma LooseOk(d: Disk, d': Disk, files: Files)
    requires FilesOk(d, files) && OthersKept(d, d', files, DISK_SECTOR_MAX + 1)
    ensures FilesOk(d', files) && forall s | s in files :: SameSectors(d, d', files[s].chain)
  {
    OthersOk(d, d', files, DISK_SECTOR_MAX + 1);
    forall s | s in files ensures s != DISK_SECTOR_MAX + 1 { assert files[s].chain[0] == s; }
    assert files - {DISK_SECTOR_MAX + 1} == files;
  }

  // When a read fails.

  lemma WrongHeader(d: Disk, f: File, j: nat)
    requires j < |f.chain| && f.chain[j] <= DISK_SECTOR_MAX && d[f.chain[j]].header.start != f.chain[0]
    ensures !FileOk(d, f)
  {
    assert f.chain[j] < DISK_SECTOR_MAX ==> !HeadedAt(d, f.chain, f.name, j);
  }

  // Linking the own file to a sector leaves another file as it was exactly if it does not have that sector. A sector
  // that was taken for a free one because its header could not be read ruins the file that it belongs to.
  lemma LinkHarms(d: Disk, files: Files, r: Rec, next: uint32, s: nat)
    requires FilesOk(d, files) && s in files && s != r.start && r.current <= DISK_SECTOR_MAX && next <= DISK_SECTOR_MAX
    requires r.current !in files[s].chain
    ensures FileOk(Linked(d, r, next), files[s]) <==> next !in files[s].chain
  {
    var d' := Linked(d, r, next);
    if next in files[s].chain {
      var j :| 0 <= j < |files[s].chain| && files[s].chain[j] == next;
      StartOnChain(d, files, s);
      WrongHeader(d', files[s], j);
    } else {
      FileOkFrame(d, d', files[s]);
    }
  }

  // A removal that leaves a sector behind which leads to no file: a file has sectors 0 and 1, and a header left over
  // in sector 2 names sector 1.
  lemma RemovalStrays() returns (d: Disk, d': Disk, files: Files)
    ensures FilesOk(d, files) && 0 in files && AllLead(d, files)
    ensures Unlinked(d, d', 0, 0) && Strays(d, 0, 0, 2) && !AllLead(d', files - {0})
  {
    hide FormatOk, Used, StartHeader, Checksum;
    var name, buf: seq<byte> := [0x41], seq(PAGE, _ => 0xFF);
    var empty: Disk := seq(DISK_SECTOR_MAX + 1, _ => BlankSector());
    var r := NewRec(Blank(), name, 0);
    NewRecOk(Blank(), name, 0);
    CreateReady(empty, Blank(), name, 0, buf);
    var f0, f := File(name, [0], [], false), File(name, [0, 1], [], false);
    assert f == f0.(chain := f0.chain + [1]);
    LinkOk(r, f0, 1);
    var h, stale := NextHeader(r, 1), Leftover(NextHeader(r, 1));
    LeftoverOk(h);
    d := empty[0 := Sector(r, LinkRec(r, 1), Blank(), BlankSector().data)][1 := WithHeader(h)][2 := WithHeader(stale)];
    d' := d[0 := BlankSector()];
    files := map[0 := f];
    BlankIsBad();
    TwoSectors(d, f);
    Led(d, d', files, f, name);
  }

  lemma Led(d: Disk, d': Disk, files: Files, f: File, name: seq<byte>)
    requires f == File(name, [0, 1], [], false) && files == map[0 := f] && Chained(d, f) && d[0].close == Blank()
    requires FormatOk(d[2].header) && d[2].header.start == 1
    requires forall i | 3 <= i <= DISK_SECTOR_MAX :: !FormatOk(d[i].header)
    requires Heads(d[0].header, 0, name) && Heads(d[1].header, 0, name) && d' == d[0 := BlankSector()]
    ensures FilesOk(d, files) && AllLead(d, files)
    ensures Unlinked(d, d', 0, 0) && Strays(d, 0, 0, 2) && !AllLead(d', files - {0})
  {
    hide FormatOk;
    forall i | 0 <= i <= DISK_SECTOR_MAX ensures LeadsHome(d, files, i) { assert i <= 2 || !FormatOk(d[i].header); }
    UnlinkLeads(d, d', files, 0, 0);
  }

  function Leftover(h: Rec): Rec { Sealed(h.(start := 1, current := 2)) }

  lemma LeftoverOk(h: Rec)
    requires FormatOk(h)
    ensures FormatOk(Leftover(h)) && Leftover(h).start == 1
  {
    assert Leftover(h).name == h.name;
  }

  lemma TwoSectors(d: Disk, f: File)
    requires f.chain == [0, 1] && Heads(d[0].header, 0, f.name) && Heads(d[1].header, 0, f.name)
    requires LeadsTo(d[0].link, 1)
    ensures Chained(d, f)
  {
    assert Differ(f.chain, 0, 1);
    forall j | 0 <= j < |f.chain| ensures HeadedAt(d, f.chain, f.name, j) {}
    forall j | 0 <= j < |f.chain| - 1 ensures LinksOn(d, f.chain, j) {}
  }
}
