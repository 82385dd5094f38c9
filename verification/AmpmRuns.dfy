/** Whole runs over a volume: a file is saved in any number of writes, read back in any number of reads, and removed. */
module AmpmRuns {
  import opened Words
  import opened AmpmFile
  import opened AmpmWriting
  import opened AmpmFinding
  import opened AmpmReading
  import opened AmpmSpace
  import opened AmpmTracking
  import opened AmpmVolume

  function Concat(parts: seq<seq<byte>>): seq<byte> {
    if |parts| == 0 then [] else Concat(parts[..|parts| - 1]) + parts[|parts| - 1]
  }

  lemma {:induction false} ConcatGrows(parts: seq<seq<byte>>, k: nat)
    requires k <= |parts|
    ensures |Concat(parts[..k])| <= |Concat(parts)|
    decreases |parts|
  {
    if k < |parts| {
      var most := parts[..|parts| - 1];
      ConcatGrows(most, k);
      assert most[..k] == parts[..k];
    } else {
      assert parts[..k] == parts;
    }
  }

  lemma ConcatStep(parts: seq<seq<byte>>, k: nat)
    requires k < |parts|
    ensures Concat(parts[..k + 1]) == Concat(parts[..k]) + parts[k] && |Concat(parts[..k + 1])| <= |Concat(parts)|
  {
    assert parts[..k + 1][..k] == parts[..k];
    ConcatGrows(parts, k + 1);
  }

  ghost predicate NewName(files: Files, name: seq<byte>) {
    forall s | s in files :: files[s].name != name
  }

  // Everything that was on the volume is there as it was.
  ghost predicate AllThere(d: Disk, d': Disk, files: Files, files': Files)
    requires FilesOk(d, files)
  {
    forall s | s in files :: s in files' && files'[s] == files[s] && SameSectors(d, d', files[s].chain)
  }

  // A search that only creates finds nothing, or the sector behind the volume, only when there is no room.
  lemma SearchFull(d: Disk, s: nat, name: seq<byte>, found: Found)
    requires s < DISK_SECTOR_MAX && found == Search(d, ProbeOrder(s), name, false, true)
    ensures !found.Existing?
    ensures found.NotFound? || (found.Create? && found.sector == DISK_SECTOR_MAX) ==> Brimming(d)
  {
    var k := SearchUsed(d, ProbeOrder(s), name);
    if !(found.Create? && found.sector != DISK_SECTOR_MAX) { ProbedToEnd(d, s, k); }
  }

  lemma {:induction false} SearchUsed(d: Disk, order: seq<nat>, name: seq<byte>) returns (k: nat)
    requires InRange(order)
    ensures k <= |order| && forall j | 0 <= j < k :: Used(d, order[j])
    ensures Search(d, order, name, false, true) == if k < |order| then Create(order[k]) else NotFound
    decreases |order|
  {
    hide Used, Answers;
    if |order| == 0 || !Used(d, order[0]) {
      k := 0;
    } else {
      var k1 := SearchUsed(d, order[1..], name);
      assert forall j | 1 <= j < k1 + 1 :: order[j] == order[1..][j - 1];
      k := k1 + 1;
    }
  }

  // Saving.

  // The new file, before it has a sector.
  function Unborn(name: seq<byte>): File { File(name, [], [], false) }

  // Whether it may have got sectors that are not on its chain: kept says that nothing has gone wrong, long that it is
  // going to be too long.
  predicate Over(d: Disk, start: nat, long: bool, kept: bool) { !kept && (long || Beyond(d, start)) }

  // The file that starts at start is being written and has that content so far; all else is as it was.
  ghost predicate Saving(d0: Disk, files0: Files, d: Disk, files: Files, start: nat, name: seq<byte>,
                         content: seq<byte>, over: bool)
    requires FilesOk(d0, files0)
  {
    && start !in files0 && start in files && files == files0[start := files[start]] && OthersKept(d0, d, files0, start)
    && files[start].name == name && files[start].content == content && !files[start].closed
    && Chained(d, files[start]) && files[start].chain[0] == start
    && Grows(d0, d, Unborn(name), files[start], over)
  }

  lemma SavingKeeps(d0: Disk, files0: Files, d: Disk, files: Files, start: nat, name: seq<byte>, content: seq<byte>,
                    over: bool)
    requires FilesOk(d0, files0) && Saving(d0, files0, d, files, start, name, content, over)
    ensures AllThere(d0, d, files0, files)
    ensures AllLead(d0, files0) ==> AllLead(d, files)
    ensures Clean(d0, files0) && !over ==> Clean(d, files)
  {
    hide Chained, FileOk, Grows, Clean, AllLead;
    if AllLead(d0, files0) { LeadGrows(d0, d, files0, start, Unborn(name), files[start], over); }
    if Clean(d0, files0) && !over { CleanGrows(d0, d, files0, start, Unborn(name), files[start]); }
  }

  lemma DistinctWith(files: Files, files': Files, start: nat, name: seq<byte>)
    requires DistinctNames(files) && NewName(files, name)
    requires start in files' && files' == files[start := files'[start]] && files'[start].name == name
    ensures DistinctNames(files')
  {
    forall s, t | s in files' && t in files' && files'[s].name == files'[t].name ensures s == t {
      if s != start { assert files[s] == files'[s]; }
      if t != start { assert files[t] == files'[t]; }
    }
  }

  // A part written.
  lemma PartSaves(d0: Disk, files0: Files, d1: Disk, files1: Files, d2: Disk, files2: Files, start: nat,
                  name: seq<byte>, content: seq<byte>, long: bool, r: Rec, part: seq<byte>, ok: bool, kept: bool,
                  whole: bool, sofar: bool)
    requires FilesOk(d0, files0) && FilesOk(d1, files1) && r.start == start
    requires Saving(d0, files0, d1, files1, start, name, content, Over(d1, start, long, sofar))
    requires Extended(d1, d2, files1, files2, r, part, ok, kept, whole, true) && (sofar ==> whole)
        && (sofar || long || Beyond(d1, start))
    ensures Saving(d0, files0, d2, files2, start, name, files2[start].content, Over(d2, start, long, sofar && kept))
    ensures ok ==> files2[start].content == content + part
  {
    assert |files1[start].chain| > 0;
    hide Chained, FileOk, FilesOk, OthersKept;
    var f1, f2, over := files1[start], files2[start], Over(d2, start, long, sofar && kept);
    SavedElsewhere(d0, files0, d1, files1, d2, start);
    if sofar && !kept { GrowsOver(d0, d1, Unborn(name), f1, false, over); }
    if !(sofar && kept) {
      GrowsOver(d1, d2, f1, f2, if whole || Beyond(d1, start) then Beyond(d2, start) else true, over);
    }
    if !sofar { GrowsOver(d0, d1, Unborn(name), f1, Over(d1, start, long, false), over); }
    GrowsTrans(d0, d1, d2, Unborn(name), f1, f2, over);
  }

  lemma GrowsOver(d: Disk, d': Disk, f: File, f': File, over: bool, over': bool)
    requires Grows(d, d', f, f', over) && (over ==> over')
    ensures Grows(d, d', f, f', over')
  {
    if !over { GrowsMore(d, d', f, f', over'); }
  }

  lemma SavedElsewhere(d0: Disk, files0: Files, d1: Disk, files1: Files, d2: Disk, start: nat)
    requires FilesOk(d0, files0) && FilesOk(d1, files1) && OthersKept(d0, d1, files0, start)
        && OthersKept(d1, d2, files1, start)
    requires start !in files0 && start in files1 && files1 == files0[start := files1[start]]
    ensures OthersKept(d0, d2, files0, start)
  {
    hide Finished;
    forall s | s in files0 && s != start ensures SameSectors(d0, d2, files0[s].chain) {
      assert SameSectors(d0, d1, files0[s].chain) && files1[s] == files0[s] && SameSectors(d1, d2, files1[s].chain);
    }
  }

  // The room a write did not find was not there before the file was begun.
  ghost predicate Scarce(d0: Disk, n: nat) { Spare(d0) <= n / DISK_SECTOR_SIZE + 1 }

  lemma PartScarce(d0: Disk, files0: Files, d1: Disk, files1: Files, start: nat, name: seq<byte>, content: seq<byte>,
                   n: nat, total: nat)
    requires FilesOk(d0, files0) && Saving(d0, files0, d1, files1, start, name, content, false)
    requires SizeFits(files1[start]) && TooFull(d1, |content|, n) && n <= total
    ensures Scarce(d0, total)
  {
    SpareGrows(d0, d1, Unborn(name), files1[start]);
    SizeIsChain(files1[start]);
  }

  // The state of a run that saves a file: made says that the file has got a first sector, kept that nothing has gone
  // wrong.
  ghost predicate Running(v: Volume, fil: Fil, d0: Disk, files0: Files, start: nat, name: seq<byte>, content: seq<byte>,
      total: nat, made: bool, kept: bool)
    reads v, v.fileBuf, fil
  {
    && v.Valid() && FilesOk(d0, files0) && (kept ==> made)
    && if made
       then && Saving(d0, files0, v.flash, v.files, start, name, content,
                      Over(v.flash, start, total >= SIZE_LIMIT, kept))
            && v.IsTracked(fil.r) && fil.r.start == start && fil.r.size == |content|
            && (kept ==> v.IsOpen(fil.r))
            && (kept || total >= SIZE_LIMIT || (Beyond(v.flash, start) && Scarce(d0, total)))
       else && !Guard(fil.r) && v.files == files0 && Scarce(d0, total)
            && Fades(d0, v.flash) && AllThere(d0, v.flash, files0, files0)
  }

  // What is left of a run that has failed: the files there were, and perhaps the new one, not closed.
  ghost predicate Given(d0: Disk, files0: Files, d: Disk, files: Files, start: nat, total: nat)
    requires FilesOk(d0, files0)
  {
    && AllThere(d0, d, files0, files)
    && (files == files0
        || (start !in files0 && start in files && !files[start].closed && files == files0[start := files[start]]))
    && (AllLead(d0, files0) ==> AllLead(d, files))
    && (Clean(d0, files0) && total < SIZE_LIMIT && !Beyond(d, start) ==> Clean(d, files))
    && (total < SIZE_LIMIT ==> Scarce(d0, total))
  }

  lemma PartRuns(d0: Disk, files0: Files, d1: Disk, files1: Files, d2: Disk, files2: Files, start: nat,
                 name: seq<byte>, content: seq<byte>, total: nat, r: Rec, part: seq<byte>, ok: bool, kept: bool,
                 whole: bool, sofar: bool)
    requires FilesOk(d0, files0) && FilesOk(d1, files1) && r.start == start && r.size == |content|
        && |content| + |part| <= total
    requires Saving(d0, files0, d1, files1, start, name, content, Over(d1, start, total >= SIZE_LIMIT, sofar))
    requires sofar || total >= SIZE_LIMIT || (Beyond(d1, start) && Scarce(d0, total))
    requires sofar ==> whole && SizeFits(files1[start])
    requires Extended(d1, d2, files1, files2, r, part, ok, kept, whole, true)
    ensures start in files2
    ensures Saving(d0, files0, d2, files2, start, name, files2[start].content,
        Over(d2, start, total >= SIZE_LIMIT, sofar && kept))
    ensures ok ==> files2[start].content == content + part
    ensures ok ==> (sofar && kept) || total >= SIZE_LIMIT || (Beyond(d2, start) && Scarce(d0, total))
    ensures !ok ==> Given(d0, files0, d2, files2, start, total)
  {
    var long := total >= SIZE_LIMIT;
    PartSaves(d0, files0, d1, files1, d2, files2, start, name, content, long, r, part, ok, kept, whole, sofar);
    if sofar && !kept && !long { PartScarce(d0, files0, d1, files1, start, name, content, |content| + |part|, total); }
    hide FilesOk, AllLead, Clean, OthersKept, Grows, Scarce, Spare, TooFull;
    if !ok {
      SavingKeeps(d0, files0, d2, files2, start, name, files2[start].content, Over(d2, start, long, sofar && kept));
    }
  }

  lemma WholeFits(d: Disk, f: File, r: Rec, buf: seq<byte>)
    requires Ready(d, f, r, buf)
    ensures SizeFits(f)
  {}

  method SavePart(v: Volume, fil: Fil, part: seq<byte>, ghost d0: Disk, ghost files0: Files, ghost start: nat,
      ghost name: seq<byte>, ghost content: seq<byte>, ghost total: nat, ghost made: bool, ghost kept: bool)
    returns (ok: bool, ghost kept': bool)
    requires v.reliable && Running(v, fil, d0, files0, start, name, content, total, made, kept) && |part| < 0x1_0000
    requires |content| + |part| <= total
    modifies v`files, v`flash, v.fileBuf, fil
    ensures v.Valid()
    ensures ok ==> Running(v, fil, d0, files0, start, name, content + part, total, made, kept')
    ensures !ok ==> Given(d0, files0, v.flash, v.files, start, total)
  {
    hide Saving, Extended, Fades, AllThere, Given, Ready;
    ghost var d1, files1, r := v.flash, v.files, fil.r;
    ghost var whole := v.IsOpen(r);
    if kept { WholeFits(d1, files1[start], r, v.fileBuf[..]); }
    var br;
    ghost var k, seen, hit;
    ok, br, k, seen, hit := v.Write(fil, part);
    kept' := kept && k;
    if !made {
      UnmadeGiven(d0, files0, v.flash, v.files, start, total);
    } else if Writable(r) {
      PartRuns(d0, files0, d1, files1, v.flash, v.files, start, name, content, total, r, part, ok, k, whole, kept);
    } else {
      RefusedGiven(d0, files0, d1, files1, start, name, content, total);
    }
  }

  lemma UnmadeGiven(d0: Disk, files0: Files, d: Disk, files: Files, start: nat, total: nat)
    requires FilesOk(d0, files0) && files == files0 && Fades(d0, d) && AllThere(d0, d, files0, files0)
    requires Scarce(d0, total)
    ensures Given(d0, files0, d, files, start, total)
  {
    FadedStays(d0, d, files0);
  }

  lemma RefusedGiven(d0: Disk, files0: Files, d: Disk, files: Files, start: nat, name: seq<byte>, content: seq<byte>,
      total: nat)
    requires FilesOk(d0, files0) && Saving(d0, files0, d, files, start, name, content,
        Over(d, start, total >= SIZE_LIMIT, false))
    requires total >= SIZE_LIMIT || Scarce(d0, total)
    ensures Given(d0, files0, d, files, start, total)
  {
    SavingKeeps(d0, files0, d, files, start, name, content, Over(d, start, total >= SIZE_LIMIT, false));
  }

  // The first sector.
  method SaveCreate(v: Volume, fil: Fil, name: seq<byte>, ghost total: nat) returns (ok: bool, ghost start: nat,
      ghost made: bool)
    requires v.reliable && v.Valid() && 1 <= |name| <= 28 && 0 !in name
    modifies v`files, v`flash, fil
    ensures v.Valid()
    ensures ok ==> Running(v, fil, old(v.flash), old(v.files), start, name, [], total, made, made)
    ensures !ok ==> Given(old(v.flash), old(v.files), v.flash, v.files, start, total)
  {
    hide Given, Fades, AllLead, Clean, Brimming, Search, ProbeOrder, Ready;
    ghost var d, files := v.flash, v.files;
    ghost var s, found, seen, hit;
    WriteMode();
    ok, s, found, seen, hit := v.Open(fil, name, 0x0A);
    SearchFull(d, s, name, found);
    if Brimming(d) { BrimmingSpare(d); }
    start, made := if found.Create? then found.sector else 0, false;
    if !ok {
      SameFades(d);
      UnmadeGiven(d, files, d, files, start, total);
      return;
    }
    made := start in v.files;
    if made {
      ReadyTracked(v.flash, v.files, fil.r, v.fileBuf[..]);
      ReadySize(v.flash, v.files[start], fil.r, v.fileBuf[..]);
    }
  }

  lemma WriteMode()
    ensures !Opening(0x0A) && Creating(0x0A)
  {}

  lemma SameFades(d: Disk)
    ensures Fades(d, d)
  {
    forall i | 0 <= i <= DISK_SECTOR_MAX ensures FadedAt(d, d, i) {}
  }

  method SaveParts(v: Volume, fil: Fil, parts: seq<seq<byte>>, ghost d0: Disk, ghost files0: Files, ghost start: nat,
      ghost name: seq<byte>, ghost made: bool)
    returns (ok: bool, ghost kept: bool)
    requires v.reliable && Running(v, fil, d0, files0, start, name, [], |Concat(parts)|, made, made)
    requires forall k | 0 <= k < |parts| :: |parts[k]| < 0x1_0000
    modifies v`files, v`flash, v.fileBuf, fil
    ensures v.Valid()
    ensures ok ==> Running(v, fil, d0, files0, start, name, Concat(parts), |Concat(parts)|, made, kept)
    ensures !ok ==> Given(d0, files0, v.flash, v.files, start, |Concat(parts)|)
  {
    assert v.Valid();
    hide Running, Given;
    ok, kept := true, made;
    var k: nat := 0;
    ghost var content: seq<byte> := [];
    while k < |parts|
      invariant 0 <= k <= |parts| && ok && content == Concat(parts[..k])
      invariant v.Valid() && Running(v, fil, d0, files0, start, name, content, |Concat(parts)|, made, kept)
    {
      ConcatStep(parts, k);
      ok, kept := SavePart(v, fil, parts[k], d0, files0, start, name, content, |Concat(parts)|, made, kept);
      if !ok { return; }
      content, k := content + parts[k], k + 1;
    }
    assert parts[..k] == parts;
  }

  // The files after start got a closed file of that name and content.
  ghost predicate SavedAs(d0: Disk, files0: Files, d: Disk, files: Files, start: nat, name: seq<byte>,
                          content: seq<byte>)
    requires FilesOk(d0, files0)
  {
    && start !in files0 && start in files && files == files0[start := files[start]]
    && files[start].name == name && files[start].content == content && files[start].closed
    && AllThere(d0, d, files0, files)
    && (AllLead(d0, files0) ==> AllLead(d, files)) && (Clean(d0, files0) ==> Clean(d, files))
    && Spare(d0) <= Spare(d) + |content| / DISK_SECTOR_SIZE + 1
  }

  lemma CloseSaves(d0: Disk, files0: Files, d1: Disk, files1: Files, d2: Disk, files2: Files, start: nat,
                   name: seq<byte>, content: seq<byte>, r: Rec, buf: seq<byte>)
    requires FilesOk(d0, files0) && FilesOk(d1, files1) && FilesOk(d2, files2) && r.start == start
    requires Saving(d0, files0, d1, files1, start, name, content, false)
        && ClosesOpen(d1, d2, files1, files2, r, buf, true, true)
    ensures SavedAs(d0, files0, d2, files2, start, name, content)
  {
    var f1, f2 := files1[start], files2[start];
    SizeIsChain(f2);
    hide Finished, AllLead, Clean, Spare;
    assert files2 == files0[start := f2];
    SavedElsewhere(d0, files0, d1, files1, d2, start);
    SameHeadersGrow(d1, d2, f1, f2, false);
    GrowsTrans(d0, d1, d2, Unborn(name), f1, f2, false);
    SpareGrows(d0, d2, Unborn(name), f2);
    if AllLead(d0, files0) { LeadGrows(d0, d2, files0, start, Unborn(name), f2, false); }
    if Clean(d0, files0) { CleanGrows(d0, d2, files0, start, Unborn(name), f2); }
  }

  // Whatever a close comes to, all that was there before the file is still there.
  lemma CloseThere(d0: Disk, files0: Files, d1: Disk, files1: Files, d2: Disk, files2: Files, start: nat,
                   name: seq<byte>, content: seq<byte>, over: bool, r: Rec)
    requires FilesOk(d0, files0) && FilesOk(d1, files1) && Saving(d0, files0, d1, files1, start, name, content, over)
    requires Tracked(d1, files1, r) && r.start == start
    requires files2 == Avoiding(files1, Touched(r)) && forall s | s in files2 :: SameSectors(d1, d2, files2[s].chain)
    ensures AllThere(d0, d2, files0, files2)
  {
    NoSpill(r);
    StartOnChain(d1, files1, start);
    forall s | s in files0 ensures s in files2 && files2[s] == files0[s] && SameSectors(d0, d2, files0[s].chain) {
      assert files1[s] == files0[s] && SameSectors(d0, d1, files0[s].chain);
      if start in files1[s].chain { NotShared(d1, files1, s, start, start); }
    }
  }

  lemma NoSpill(r: Rec)
    requires r.size == r.offset
    ensures Touched(r) == {r.start, r.current}
  {
    var n := r.size - r.size % PAGE;
    assert n % PAGE == 0;
    PageFits(n + PAGE);
  }

  method SaveClose(v: Volume, fil: Fil, ghost d0: Disk, ghost files0: Files, ghost start: nat, ghost name: seq<byte>,
                   ghost content: seq<byte>, ghost made: bool, ghost kept: bool)
    returns (ok: bool)
    requires v.reliable && Running(v, fil, d0, files0, start, name, content, |content|, made, kept)
    modifies v`files, v`flash, fil
    ensures v.Valid()
    ensures kept ==> ok && SavedAs(d0, files0, v.flash, v.files, start, name, content)
    ensures AllThere(d0, v.flash, files0, v.files)
    ensures !kept && |content| < SIZE_LIMIT ==> Scarce(d0, |content|)
  {
    hide Saving, SavedAs, Fades, AllThere, ClosesOpen, Ready, Scarce, Avoiding, FilesOk;
    ghost var d1, files1, r := v.flash, v.files, fil.r;
    ghost var whole, over := v.IsOpen(r), Over(v.flash, start, |content| >= SIZE_LIMIT, kept);
    if whole { ReadyWritable(d1, files1[r.start], r, v.fileBuf[..]); }
    ghost var stored;
    ok, stored := v.Close(fil);
    if made {
      if whole {
        CloseKeeps(d0, files0, d1, files1, v.flash, v.files, start, name, content, over, r, v.fileBuf[..]);
        if kept { CloseSaves(d0, files0, d1, files1, v.flash, v.files, start, name, content, r, v.fileBuf[..]); }
      } else if Writable(r) {
        CloseThere(d0, files0, d1, files1, v.flash, v.files, start, name, content, over, r);
      } else {
        SavingKeeps(d0, files0, d1, files1, start, name, content, over);
      }
    }
  }

  lemma ReadyWritable(d: Disk, f: File, r: Rec, buf: seq<byte>)
    requires Ready(d, f, r, buf)
    ensures Writable(r)
  {}

  lemma CloseKeeps(d0: Disk, files0: Files, d1: Disk, files1: Files, d2: Disk, files2: Files, start: nat,
                   name: seq<byte>, content: seq<byte>, over: bool, r: Rec, buf: seq<byte>)
    requires FilesOk(d0, files0) && FilesOk(d1, files1) && Saving(d0, files0, d1, files1, start, name, content, over)
    requires r.start == start && ClosesOpen(d1, d2, files1, files2, r, buf, true, true)
    ensures AllThere(d0, d2, files0, files2)
  {
    SavedElsewhere(d0, files0, d1, files1, d2, start);
  }

  // Creating a file, writing the parts to it one by one until one fails, and closing it, on a device that does not
  // fail. The file is saved if it stays below the size limit and there were two sectors more than it has full ones.
  // If not, nothing that was there is harmed; and as long as it has not come to closing, the new file stays behind
  // unclosed.
  method Save(v: Volume, name: seq<byte>, parts: seq<seq<byte>>) returns (ok: bool, ghost saved: bool, ghost start: nat,
      ghost closing: bool)
    requires v.reliable && v.Valid() && 1 <= |name| <= 28 && 0 !in name
    requires forall k | 0 <= k < |parts| :: |parts[k]| < 0x1_0000
    modifies v`files, v`flash, v.fileBuf
    ensures v.Valid() && AllThere(old(v.flash), v.flash, old(v.files), v.files)
    ensures |Concat(parts)| < SIZE_LIMIT && Spare(old(v.flash)) >= |Concat(parts)| / DISK_SECTOR_SIZE + 2 ==> saved
    ensures saved ==> ok && SavedAs(old(v.flash), old(v.files), v.flash, v.files, start, name, Concat(parts))
    ensures !closing ==> !ok && Given(old(v.flash), old(v.files), v.flash, v.files, start, |Concat(parts)|)
  {
    hide Running, SavedAs, Grows;
    saved, closing := false, false;
    ghost var made;
    var fil := new Fil(Blank());
    ok, start, made := SaveCreate(v, fil, name, |Concat(parts)|);
    if !ok { return; }
    ok, saved := SaveParts(v, fil, parts, old(v.flash), old(v.files), start, name, made);
    if !ok {
      saved := false;
      return;
    }
    closing := true;
    ok := SaveClose(v, fil, old(v.flash), old(v.files), start, name, Concat(parts), made, saved);
  }

  // Names stay distinct when a file with a new one is saved.
  lemma SavedDistinct(d0: Disk, files0: Files, d: Disk, files: Files, start: nat, name: seq<byte>, content: seq<byte>)
    requires FilesOk(d0, files0) && SavedAs(d0, files0, d, files, start, name, content)
    requires DistinctNames(files0) && NewName(files0, name)
    ensures DistinctNames(files)
  {
    DistinctWith(files0, files, start, name);
  }

  // Reading back.

  // A volume on which files can be found by name.
  ghost predicate Findable(v: Volume)
    reads v
  {
    v.Valid() && AllLead(v.flash, v.files) && DistinctNames(v.files)
  }

  // Opening a closed file for reading. seen says that no read of the device has failed.
  method LoadOpen(v: Volume, fil: Fil, name: seq<byte>, ghost s: nat)
    returns (ok: bool, ghost probe: nat, ghost seen: bool)
    requires Findable(v) && s in v.files && v.files[s].closed && v.files[s].name == name && 0 !in name
    modifies v`files, v`flash, fil
    ensures v.flash == old(v.flash) && v.files == old(v.files)
    ensures probe < DISK_SECTOR_MAX && (v.readable ==> seen)
    ensures seen ==> (ok <==> Met(v.flash, s, probe)) && (ok ==> At(v.files[s], fil.r, 0))
    ensures seen && v.files[s].chain != [probe] ==> ok
  {
    ghost var d, files := v.flash, v.files;
    ghost var found, hit;
    ReadMode();
    ok, probe, found, seen, hit := v.Open(fil, name, 0x01);
    FoundIs(d, files, s, probe, found);
  }

  lemma ReadMode()
    ensures Opening(0x01) && !Creating(0x01) && !Has(0x01, 0x02)
  {}

  lemma FoundIs(d: Disk, files: Files, s: nat, probe: nat, found: Found)
    requires FilesOk(d, files) && AllLead(d, files) && DistinctNames(files) && s in files && files[s].closed
    requires probe < DISK_SECTOR_MAX && found == Search(d, ProbeOrder(probe), files[s].name, true, false)
    ensures if Met(d, s, probe) then found.Existing? && At(files[s], Opened(found.close, false), 0) else found.NotFound?
    ensures files[s].chain != [probe] ==> Met(d, s, probe)
  {
    hide Search, ProbeOrder;
    OpenIff(d, files, s, probe);
    OpenedAtStart(d, files[s], false);
    if files[s].chain != [probe] { LongIsMet(d, files[s], probe); }
  }

  // Going to octet k, beyond the first sector.
  method LoadSeek(v: Volume, fil: Fil, k: uint32, ghost f: File) returns (ok: bool, ghost seen: bool)
    requires v.Valid() && DISK_SECTOR_SIZE <= k
    modifies fil
    ensures v.readable ==> seen
    ensures && seen && k <= |f.content|
            && old(fil.r.start in v.files && f == v.files[fil.r.start] && f.closed && At(f, fil.r, 0)) ==>
              ok && At(f, fil.r, k) && fil.r.start == old(fil.r.start)
  {
    ghost var r0 := fil.r;
    ghost var unset;
    ok, unset, seen := v.Lseek(fil, k);
    if seen && r0.start in v.files && f == v.files[r0.start] && f.closed && At(f, r0, 0) {
      SeekFrom(v.flash, f, r0, 0, 0, k, unset);
    }
  }

  // Opening a closed file by name, going to octet k if that is beyond the first sector, and reading pieces of the
  // sizes ns one after another, as long as nothing fails. If no read of the device fails, the file is found exactly
  // if the probe meets a sector that leads to it, and the octets are those of the file.
  method Load(v: Volume, name: seq<byte>, k: uint32, ns: seq<nat>, ghost s: nat)
    returns (ok: bool, data: seq<byte>, ghost probe: nat, ghost seen: bool)
    requires Findable(v) && s in v.files && v.files[s].closed && v.files[s].name == name && 0 !in name
    requires k == 0 || k >= DISK_SECTOR_SIZE
    requires k + Total(ns) <= |v.files[s].content| && RunsRight(k, ns)
    modifies v`files, v`flash
    ensures v.flash == old(v.flash) && v.files == old(v.files)
    ensures probe < DISK_SECTOR_MAX && (v.readable ==> seen)
    ensures seen ==> (ok <==> Met(v.flash, s, probe))
    ensures seen && ok ==> data == v.files[s].content[k..k + Total(ns)]
    ensures seen && v.files[s].chain != [probe] ==> ok
  {
    var fil := new Fil(Blank());
    data := [];
    ok, probe, seen := LoadOpen(v, fil, name, s);
    if !ok { return; }
    ghost var good := true;
    if k > 0 {
      ok, good := LoadSeek(v, fil, k, v.files[s]);
      seen := seen && good;
      if !ok { return; }
    }
    SmallTotal(v.flash, v.files[s], k, ns);
    ok, data, good := LoadParts(v, fil, k, ns, v.files[s], seen);
    seen := seen && good;
  }

  lemma SmallTotal(d: Disk, f: File, k: nat, ns: seq<nat>)
    requires FileOk(d, f) && f.closed && k + Total(ns) <= |f.content|
    ensures Total(ns) < SIZE_LIMIT
  {}

  lemma {:induction false} PartOfTotal(ns: seq<nat>, i: nat)
    requires i < |ns|
    ensures ns[i] <= Total(ns)
    decreases |ns|
  {
    if i == 0 {
    } else {
      PartOfTotal(ns[1..], i - 1);
    }
  }

  method LoadParts(v: Volume, fil: Fil, k: nat, ns: seq<nat>, ghost f: File, ghost sure: bool)
    returns (ok: bool, data: seq<byte>, ghost seen: bool)
    requires v.Valid() && Total(ns) < SIZE_LIMIT
    requires sure ==>
               FileOk(v.flash, f) && f.closed && At(f, fil.r, k) && k + Total(ns) <= |f.content| && RunsRight(k, ns)
    modifies fil
    ensures v.readable ==> seen
    ensures sure && seen ==> ok && data == f.content[k..k + Total(ns)]
  {
    hide Standing, FileOk, ReadsRight, StaysInStep, NextQ;
    ok, data, seen := true, [], true;
    var i: nat := 0;
    ghost var at: nat, q: nat, left := k, k / DISK_SECTOR_SIZE, ns;
    while i < |ns|
      invariant 0 <= i <= |ns| && left == ns[i..] && at + Total(left) == k + Total(ns) && ok && (v.readable ==> seen)
      invariant sure && seen ==>
                  && Standing(f, fil.r, q, at) && RunsRight(at, left)
                  && (Total(left) > 0 ==> q == at / DISK_SECTOR_SIZE)
                  && k <= at && data == f.content[k..at]
    {
      assert left[0] == ns[i] && left[1..] == ns[i + 1..];
      PartOfTotal(ns, i);
      var part;
      ghost var good;
      ok, part, q, good := LoadPart(v, fil, ns[i], f, q, at, left, sure && seen);
      seen := seen && good;
      if !ok { return; }
      if sure && seen { SliceJoin(f.content, k, at, at + ns[i]); }
      data, at, left, i := data + part, at + ns[i], left[1..], i + 1;
    }
  }

  // One of the reads.
  method LoadPart(v: Volume, fil: Fil, n: nat, ghost f: File, ghost q: nat, ghost at: nat, ghost left: seq<nat>,
                  ghost sure: bool)
    returns (ok: bool, part: seq<byte>, ghost q': nat, ghost seen: bool)
    requires v.Valid() && n < SIZE_LIMIT && |left| > 0 && left[0] == n
    requires sure ==>
               && FileOk(v.flash, f) && f.closed && Standing(f, fil.r, q, at) && at + Total(left) <= |f.content|
               && RunsRight(at, left) && (Total(left) > 0 ==> q == at / DISK_SECTOR_SIZE)
    modifies fil
    ensures v.readable ==> seen
    ensures sure && seen ==>
              && ok && part == f.content[at..at + n] && Standing(f, fil.r, q', at + n)
              && RunsRight(at + n, left[1..]) && (Total(left[1..]) > 0 ==> q' == (at + n) / DISK_SECTOR_SIZE)
  {
    hide Standing, FileOk, ReadFrom, ReadOf, ReadParts;
    q' := NextQ(q, at, n);
    if sure {
      ReadInFile(v.flash, f, fil.r, q, at, n);
      StandingIn(v.flash, f, fil.r, q, at, n);
      PartIs(f.content, q, at, n, left);
    }
    var buff := new byte[n](_ => 0);
    var br;
    ok, br, seen := v.Read(fil, buff, n);
    part := buff[..];
  }

  lemma StandingIn(d: Disk, f: File, r: Rec, q: nat, k: nat, n: nat)
    requires FileOk(d, f) && f.closed && Standing(f, r, q, k) && k + n <= |f.content|
    ensures Guard(r) && ReadCount(r, n) == n && n < SIZE_LIMIT
  {}

  lemma PartIs(content: seq<byte>, q: nat, k: nat, n: nat, left: seq<nat>)
    requires |left| > 0 && left[0] == n && k + Total(left) <= |content| && RunsRight(k, left)
    requires q <= k / DISK_SECTOR_SIZE && (Total(left) > 0 ==> q == k / DISK_SECTOR_SIZE)
    ensures k % DISK_SECTOR_SIZE <= 3840 * q + k % DISK_SECTOR_SIZE <= k
    ensures ReadFrom(content, 3840 * q + k % DISK_SECTOR_SIZE, n, k % DISK_SECTOR_SIZE) == content[k..k + n]
    ensures RunsRight(k + n, left[1..]) && (Total(left[1..]) > 0 ==> NextQ(q, k, n) == (k + n) / DISK_SECTOR_SIZE)
  {
    Places(q, k, n, k % DISK_SECTOR_SIZE);
    if Total(left) > 0 {
      ReadIsRight(content, k, n);
    } else {
      ReadShort(content, 3840 * q + k % DISK_SECTOR_SIZE, n, k % DISK_SECTOR_SIZE);
    }
    if Total(left[1..]) > 0 { StepIff(k, n); } else { NothingLeft(k + n, left[1..]); }
  }

  lemma NothingLeft(k: nat, ns: seq<nat>)
    requires Total(ns) == 0
    ensures RunsRight(k, ns)
  {}

  // Opening a closed file by name and reading pieces of n octets until one comes short. If no read of the device fails,
  // that gives the whole content, for the sizes and pieces of PiecesIff.
  method LoadWhole(v: Volume, name: seq<byte>, n: nat, ghost s: nat)
    returns (ok: bool, data: seq<byte>, ghost probe: nat, ghost seen: bool)
    requires Findable(v) && s in v.files && v.files[s].closed && v.files[s].name == name && 0 !in name
    requires 0 < n < 0x1_0000_0000 - SIZE_LIMIT
    modifies v`files, v`flash
    ensures v.flash == old(v.flash) && v.files == old(v.files)
    ensures probe < DISK_SECTOR_MAX && (v.readable ==> seen)
    ensures seen ==> (ok <==> Met(v.flash, s, probe))
    ensures var size := |v.files[s].content|;
            && (seen && v.files[s].chain != [probe] ==> ok)
            && (seen && ok && (size <= 3840 || (3840 % n != 0 && (size < 7680 || (size == 7680 && n < 7680)))) ==>
                  data == v.files[s].content)
  {
    hide RunsRight, Pieces, Standing, FileOk;
    var fil := new Fil(Blank());
    data := [];
    ok, probe, seen := LoadOpen(v, fil, name, s);
    if !ok { return; }
    ghost var f := v.files[s];
    PiecesFrom(0, |f.content|, n, 0);
    ghost var good;
    ok, data, good := LoadPieces(v, fil, n, f, seen);
    seen := seen && good;
  }

  method LoadPieces(v: Volume, fil: Fil, n: nat, ghost f: File, ghost sure: bool)
    returns (ok: bool, data: seq<byte>, ghost seen: bool)
    requires v.Valid() && 0 < n < 0x1_0000_0000 - SIZE_LIMIT
    requires sure ==> FileOk(v.flash, f) && f.closed && Standing(f, fil.r, 0, 0)
    modifies fil
    ensures v.readable ==> seen
    ensures sure && seen ==> ok && (RunsRight(0, Pieces(|f.content|, n)) ==> data == f.content)
  {
    hide RunsRight, Pieces, Standing, FileOk;
    ok, data, seen := true, [], true;
    ghost var size, at: nat, q: nat := |f.content|, 0, 0;
    ghost var right := RunsRight(0, Pieces(size, n));
    var more := true;
    while more
      invariant ok && (v.readable ==> seen)
      invariant sure && seen ==> at <= size && (if more then Standing(f, fil.r, q, at) else at == size)
      invariant sure && seen && right ==>
                  && RunsRight(at, Pieces(size - at, n)) && (at < size ==> q == at / DISK_SECTOR_SIZE)
                  && data == f.content[..at]
      decreases more, if fil.r.offset <= fil.r.size then fil.r.size - fil.r.offset else 0
    {
      var part;
      ghost var good;
      ok, part, q, good := LoadPiece(v, fil, n, f, q, at, sure && seen, right);
      seen := seen && good;
      if !ok { return; }
      if sure && seen && right { SliceJoin(f.content, 0, at, at + |part|); }
      data, at, more := data + part, at + |part|, |part| == n;
    }
  }

  // One of the reads, of n octets or what is left.
  method LoadPiece(v: Volume, fil: Fil, n: nat, ghost f: File, ghost q: nat, ghost at: nat, ghost sure: bool,
                   ghost right: bool)
    returns (ok: bool, part: seq<byte>, ghost q': nat, ghost seen: bool)
    requires v.Valid() && 0 < n < 0x1_0000_0000 - SIZE_LIMIT
    requires sure ==> FileOk(v.flash, f) && f.closed && Standing(f, fil.r, q, at) && at <= |f.content|
    requires sure && right ==>
               RunsRight(at, Pieces(|f.content| - at, n)) && (at < |f.content| ==> q == at / DISK_SECTOR_SIZE)
    modifies fil
    ensures v.readable ==> seen
    ensures |part| <= n
    ensures ok ==>
              && fil.r.size == old(fil.r.size) && fil.r.offset == old(fil.r.offset) + |part|
              && old(fil.r.offset) + |part| <= fil.r.size
    ensures sure && seen ==>
              var p := if |f.content| - at < n then |f.content| - at else n;
              ok && |part| == p && Standing(f, fil.r, q', at + p)
    ensures sure && seen && right ==>
              && part == f.content[at..at + |part|] && RunsRight(at + |part|, Pieces(|f.content| - (at + |part|), n))
              && (at + |part| < |f.content| ==> q' == (at + |part|) / DISK_SECTOR_SIZE)
  {
    hide Standing, FileOk, ReadFrom, ReadOf, ReadParts, RunsRight, Pieces;
    ghost var p: nat := if sure && |f.content| - at < n then |f.content| - at else n;
    q' := NextQ(q, at, p);
    if sure {
      ReadInFile(v.flash, f, fil.r, q, at, p);
      CountIs(v.flash, f, fil.r, q, at, n, p);
      if right { PieceIs(f.content, q, at, n, p); }
    }
    var buff := new byte[n](_ => 0);
    var br;
    ok, br, seen := v.Read(fil, buff, n);
    part := buff[..br];
  }

  lemma CountIs(d: Disk, f: File, r: Rec, q: nat, k: nat, n: nat, p: nat)
    requires FileOk(d, f) && f.closed && Standing(f, r, q, k) && k <= |f.content|
    requires p == if |f.content| - k < n then |f.content| - k else n
    ensures Guard(r) && ReadCount(r, n) == p == ReadCount(r, p) && ReadCall(d, r, n) == ReadCall(d, r, p)
  {}

  lemma PieceIs(content: seq<byte>, q: nat, k: nat, n: nat, p: nat)
    requires n > 0 && k <= |content| && p == if |content| - k < n then |content| - k else n
    requires RunsRight(k, Pieces(|content| - k, n)) && q <= k / DISK_SECTOR_SIZE
    requires k < |content| ==> q == k / DISK_SECTOR_SIZE
    ensures k % DISK_SECTOR_SIZE <= 3840 * q + k % DISK_SECTOR_SIZE <= k
    ensures ReadFrom(content, 3840 * q + k % DISK_SECTOR_SIZE, p, k % DISK_SECTOR_SIZE) == content[k..k + p]
    ensures RunsRight(k + p, Pieces(|content| - (k + p), n))
    ensures k + p < |content| ==> NextQ(q, k, p) == (k + p) / DISK_SECTOR_SIZE
  {
    hide ReadFrom, NextQ, RunsRight;
    var left := Pieces(|content| - k, n);
    PartIs(content, q, k, p, left);
    if p == n {
      assert left[1..] == Pieces(|content| - (k + p), n);
    } else {
      NothingLeft(k + p, Pieces(0, n));
    }
  }

  // Opening a file that is there, reading pieces, trying to write and closing, on any device. Unless writing was asked
  // for nothing at all changes; if it was, a write right behind the opening passes its guard.
  method Access(v: Volume, name: seq<byte>, mode: byte, ns: seq<nat>, buff: seq<byte>)
    returns (there: bool, written: bool, br: nat, closed: bool)
    requires v.Valid() && 0 !in name && !Creating(mode) && |buff| < 0x1_0000
    requires forall k | 0 <= k < |ns| :: ns[k] < 0x1_0000_0000 - SIZE_LIMIT
    modifies v`files, v`flash, v.fileBuf
    ensures v.Valid()
    ensures mode / 2 % 2 == 0 || !there ==>
              && !written && br == 0
              && v.flash == old(v.flash) && v.files == old(v.files) && v.fileBuf[..] == old(v.fileBuf[..])
    ensures there && mode / 2 % 2 == 1 && |ns| == 0 ==> br == |buff|
    ensures there && mode / 2 % 2 == 0 && |ns| == 0 ==> closed
  {
    hide Guard, ReadCount, HasRead, ReadCall, Search, Extended, ClosesOpen, Avoiding, SameBut, FilesOk, Opened;
    written, br, closed := false, 0, false;
    var fil := new Fil(Blank());
    ghost var s, found, seen, hit;
    there, s, found, seen, hit := v.Open(fil, name, mode);
    if !there { return; }
    ReadPieces(v, fil, ns);
    ghost var kept;
    ghost var hit1: set<nat>;
    written, br, kept, seen, hit1 := v.Write(fil, buff);
    ghost var stored;
    closed, stored := v.Close(fil);
  }

  // Several reads, whose results are not looked at.
  method ReadPieces(v: Volume, fil: Fil, ns: seq<nat>)
    requires v.Valid() && forall k | 0 <= k < |ns| :: ns[k] < 0x1_0000_0000 - SIZE_LIMIT
    modifies fil
    ensures fil.r.permission == old(fil.r.permission) && (|ns| == 0 ==> fil.r == old(fil.r))
  {
    hide Guard, ReadCount, HasRead, ReadCall, FilesOk;
    var i: nat := 0;
    while i < |ns|
      invariant 0 <= i <= |ns| && fil.r.permission == old(fil.r.permission)
      invariant i == 0 ==> fil.r == old(fil.r)
    {
      CountAtMost(fil.r, ns[i]);
      var part := new byte[ns[i]](_ => 0);
      var ok, n;
      ghost var good;
      ok, n, good := v.Read(fil, part, ns[i]);
      i := i + 1;
    }
  }

  lemma CountAtMost(r: Rec, n: nat)
    ensures Guard(r) ==> r.offset <= r.size && ReadCount(r, n) <= n
  {}

  // On a volume just formatted every file below the size limit can be saved, and found again. The volume is clean,
  // too, but for a good header behind its end.
  method SaveFresh(v: Volume, name: seq<byte>, parts: seq<seq<byte>>) returns (ok: bool, ghost start: nat)
    requires v.reliable && v.Shape() && 1 <= |name| <= 28 && 0 !in name
    requires |Concat(parts)| < SIZE_LIMIT && forall k | 0 <= k < |parts| :: |parts[k]| < 0x1_0000
    modifies v`files, v`flash, v.fileBuf
    ensures ok && Findable(v) && start in v.files && v.files == map[start := v.files[start]]
    ensures v.files[start].name == name && v.files[start].content == Concat(parts) && v.files[start].closed
    ensures !FormatOk(old(v.flash)[DISK_SECTOR_MAX].header) ==> Clean(v.flash, v.files) && Live(v.flash, v.files)
    ensures Spare(v.flash) >= DISK_SECTOR_MAX - 1 - |Concat(parts)| / DISK_SECTOR_SIZE
  {
    hide SavedAs, AllLead, Live, Clean, Given, Spare, FormatOk;
    v.DiskFormat();
    ghost var d, files := v.flash, v.files;
    LiveLeads(d, files);
    ghost var saved, closing;
    ok, saved, start, closing := Save(v, name, parts);
    SavedParts(d, files, v.flash, v.files, start, name, Concat(parts));
    SavedDistinct(d, files, v.flash, v.files, start, name, Concat(parts));
    if Clean(v.flash, v.files) { CleanIsLive(v.flash, v.files); }
  }

  lemma SavedParts(d0: Disk, files0: Files, d: Disk, files: Files, start: nat, name: seq<byte>, content: seq<byte>)
    requires FilesOk(d0, files0) && SavedAs(d0, files0, d, files, start, name, content) && AllLead(d0, files0)
    ensures start in files && files == files0[start := files[start]] && AllLead(d, files)
    ensures (Clean(d0, files0) ==> Clean(d, files)) && Spare(d0) <= Spare(d) + |content| / DISK_SECTOR_SIZE + 1
    ensures files[start].name == name && files[start].content == content && files[start].closed
  {}

  // Removing.

  // A file is removed by its name, on a device that does not fail; all others stay. If every used sector named the
  // start of a file, it still does; if it only led to a file, it still does exactly if those that led to the removed
  // one all named one of the two sectors erased.
  method Remove(v: Volume, name: seq<byte>) returns (ok: bool, ghost i: nat, ghost s: nat)
    requires v.reliable && v.Valid() && AllLead(v.flash, v.files) && 0 !in name
    modifies v`files, v`flash
    ensures v.Valid() && Spare(old(v.flash)) <= Spare(v.flash)
    ensures ok <==> !NewName(old(v.files), name)
    ensures !ok ==> v.flash == old(v.flash) && v.files == old(v.files)
    ensures ok ==> s in old(v.files) && old(v.files)[s].name == name && v.files == old(v.files) - {s}
    ensures ok ==> AllFree(v.flash, old(v.files)[s].chain)
    ensures forall u | u in v.files :: SameSectors(old(v.flash), v.flash, v.files[u].chain)
    ensures Live(old(v.flash), old(v.files)) ==> Live(v.flash, v.files) && AllLead(v.flash, v.files)
    ensures ok ==> (AllLead(v.flash, v.files) <==> NoneStray(old(v.flash), i, s))
    ensures DistinctNames(old(v.files)) ==> DistinctNames(v.files)
  {
    hide Named, LeadsHome, NamesStart;
    ghost var d, files := v.flash, v.files;
    NamedIff(d, files, name);
    ghost var seen;
    ok, i, s, seen := v.Unlink(name);
    if ok {
      NamedUsed(d, i, name);
      UnlinkRemoves(d, v.flash, files, i, s);
      UnlinkLeads(d, v.flash, files, i, s);
      if Live(d, files) { UnlinkLive(d, v.flash, files, i, s); }
      UnlinkFades(d, v.flash, i, s);
    }
    if Live(v.flash, v.files) { LiveLeads(v.flash, v.files); }
  }

  lemma NamedUsed(d: Disk, i: nat, name: seq<byte>)
    requires i <= DISK_SECTOR_MAX && Named(d, i, name)
    ensures Used(d, i) && CStr(StartHeader(d, i).name) == name
  {}

  lemma UnlinkFades(d: Disk, d': Disk, i: nat, s: nat)
    requires Unlinked(d, d', i, s)
    ensures Fades(d, d') && Spare(d) <= Spare(d')
  {
    BlankIsBad();
    forall k | 0 <= k <= DISK_SECTOR_MAX ensures FadedAt(d, d', k) {}
    SpareFades(d, d');
  }

  // From formatting on: two files are saved, the first is removed again, and the second is read back, in pieces.
  method TwoFiles(v: Volume, name1: seq<byte>, parts1: seq<seq<byte>>, name2: seq<byte>, parts2: seq<seq<byte>>,
                  ns: seq<nat>)
    returns (removed: bool, loaded: bool, data: seq<byte>)
    requires v.reliable && v.Shape() && !FormatOk(v.flash[DISK_SECTOR_MAX].header)
    requires 1 <= |name1| <= 28 && 0 !in name1 && 1 <= |name2| <= 28 && 0 !in name2 && name1 != name2
    requires |Concat(parts1)| < SIZE_LIMIT && forall k | 0 <= k < |parts1| :: |parts1[k]| < 0x1_0000
    requires |Concat(parts2)| < SIZE_LIMIT && forall k | 0 <= k < |parts2| :: |parts2[k]| < 0x1_0000
    requires RunsRight(0, ns) && Total(ns) <= |Concat(parts2)|
    modifies v`files, v`flash, v.fileBuf
    ensures removed && (loaded ==> data == Concat(parts2)[..Total(ns)])
    ensures |Concat(parts2)| >= DISK_SECTOR_SIZE ==> loaded
  {
    hide SavedAs, AllLead, Live, Clean, Given, Spare, FormatOk, FilesOk, RunsRight;
    var ok, start1 := SaveFresh(v, name1, parts1);
    ghost var d1, files1 := v.flash, v.files;
    ghost var saved, s2, closing;
    ok, saved, s2, closing := Save(v, name2, parts2);
    SavedParts(d1, files1, v.flash, v.files, s2, name2, Concat(parts2));
    SavedDistinct(d1, files1, v.flash, v.files, s2, name2, Concat(parts2));
    CleanIsLive(v.flash, v.files);
    ghost var files2 := v.files;
    ghost var i, s;
    removed, i, s := Remove(v, name1);
    assert files2[start1].name == name1;
    ghost var probe, seen;
    LongChain(v.flash, v.files, s2);
    loaded, data, probe, seen := Load(v, name2, 0, ns, s2);
  }

  lemma LongChain(d: Disk, files: Files, s: nat)
    requires FilesOk(d, files) && s in files && files[s].closed
    ensures |files[s].content| >= DISK_SECTOR_SIZE ==> |files[s].chain| > 1
  {}
}
