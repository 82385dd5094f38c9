/** Finding and removing files: what ampm_f_open, ampm_f_unlink and ampm_f_disk_cleanup compute from the headers of
 * the disk. */
module AmpmFinding {
  import opened Words
  import opened AmpmFile

  // What the probe of ampm_f_open comes to.
  datatype Found = Existing(close: Rec) | Create(sector: nat) | NotFound

  // A used sector answers for the file whose start header it leads to, if the close record there is good.
  predicate Answers(d: Disk, i: nat, name: seq<byte>)
    requires i <= DISK_SECTOR_MAX
  {
    Used(d, i) && CStr(StartHeader(d, i).name) == name && FormatOk(d[StartHeader(d, i).start].close)
  }

  function Search(d: Disk, order: seq<nat>, name: seq<byte>, open: bool, create: bool): (found: Found)
    requires InRange(order)
    ensures found.Create? ==> create && found.sector in order && !Used(d, found.sector)
    ensures found.Existing? ==> open && FormatOk(found.close)
    decreases |order|
  {
    if |order| == 0 then NotFound
    else if open && Answers(d, order[0], name) then Existing(d[StartHeader(d, order[0]).start].close)
    else if create && !Used(d, order[0]) then Create(order[0])
    else Search(d, order[1..], name, open, create)
  }

  // A sector settles the search by answering, or by being free.
  predicate Settles(d: Disk, i: nat, name: seq<byte>, open: bool, create: bool)
    requires i <= DISK_SECTOR_MAX
  {
    (open && Answers(d, i, name)) || (create && !Used(d, i))
  }

  // The search goes by the first sector in its order that settles it, whichever of the two it is: with both asked
  // for, a file that is there is not found behind a free sector.
  lemma {:induction false} SearchFirst(d: Disk, order: seq<nat>, name: seq<byte>, open: bool, create: bool)
    returns (k: nat)
    requires InRange(order)
    ensures k <= |order| && forall j | 0 <= j < k :: !Settles(d, order[j], name, open, create)
    ensures var found := Search(d, order, name, open, create);
            if k == |order| then found == NotFound
            else Settles(d, order[k], name, open, create)
                 && found == if Used(d, order[k]) then Existing(d[StartHeader(d, order[k]).start].close)
                             else Create(order[k])
    decreases |order|
  {
    hide Used, StartHeader, FormatOk;
    k := 0;
    if |order| > 0 && !Settles(d, order[0], name, open, create) {
      k := SearchFirst(d, order[1..], name, open, create);
      hide Settles, Search;
      forall j | 0 <= j < k + 1 ensures !Settles(d, order[j], name, open, create) {
        if j > 0 { assert order[j] == order[1..][j - 1]; }
      }
      k := k + 1;
    }
  }

  // How the used sectors stand to the files, from weak to strong: each leads to a file, ...
  ghost predicate AllLead(d: Disk, files: Files) {
    forall i {:trigger LeadsHome(d, files, i)} | 0 <= i <= DISK_SECTOR_MAX :: LeadsHome(d, files, i)
  }

  predicate LeadsHome(d: Disk, files: Files, i: nat)
    requires i <= DISK_SECTOR_MAX
  {
    Used(d, i) ==> var h := StartHeader(d, i); h.start in files && CStr(h.name) == files[h.start].name
  }

  // ... each names the start of a file, ...
  ghost predicate Live(d: Disk, files: Files) {
    forall i {:trigger NamesStart(d, files, i)} | 0 <= i <= DISK_SECTOR_MAX :: NamesStart(d, files, i)
  }

  predicate NamesStart(d: Disk, files: Files, i: nat)
    requires i <= DISK_SECTOR_MAX
  {
    Used(d, i) ==> d[i].header.start in files
  }

  // ... and every good header is on a chain.
  ghost predicate Clean(d: Disk, files: Files) {
    forall i {:trigger Belongs(d, files, i)} | 0 <= i <= DISK_SECTOR_MAX :: Belongs(d, files, i)
  }

  ghost predicate Belongs(d: Disk, files: Files, i: nat)
    requires i <= DISK_SECTOR_MAX
  {
    FormatOk(d[i].header) ==> exists s :: s in files && i in files[s].chain
  }

  ghost predicate DistinctNames(files: Files) {
    forall s, t | s in files && t in files && files[s].name == files[t].name :: s == t
  }

  lemma NamesOwnStart(d: Disk, files: Files, s: nat, i: nat)
    requires FilesOk(d, files) && s in files && i in files[s].chain
    ensures d[i].header.start == s && CStr(d[i].header.name) == files[s].name
  {
    var j :| 0 <= j < |files[s].chain| && files[s].chain[j] == i;
    assert HeadedAt(d, files[s].chain, files[s].name, j);
  }

  lemma CleanIsLive(d: Disk, files: Files)
    requires FilesOk(d, files) && Clean(d, files)
    ensures Live(d, files)
  {
    forall i | 0 <= i <= DISK_SECTOR_MAX ensures NamesStart(d, files, i) {
      assert Belongs(d, files, i);
      if FormatOk(d[i].header) {
        var s :| s in files && i in files[s].chain;
        NamesOwnStart(d, files, s, i);
      }
    }
  }

  lemma LiveLeads(d: Disk, files: Files)
    requires FilesOk(d, files) && Live(d, files)
    ensures AllLead(d, files)
  {
    forall i | 0 <= i <= DISK_SECTOR_MAX ensures LeadsHome(d, files, i) {
      assert NamesStart(d, files, i);
      if Used(d, i) {
        var s := d[i].header.start;
        StartOnChain(d, files, s);
        NamesOwnStart(d, files, s, s);
      }
    }
  }

  lemma NotShared(d: Disk, files: Files, t: nat, u: nat, i: nat)
    requires FilesOk(d, files) && t in files && u in files && i in files[t].chain && i in files[u].chain
    ensures t == u
  {
    NamesOwnStart(d, files, t, i);
    NamesOwnStart(d, files, u, i);
  }

  lemma StartOnChain(d: Disk, files: Files, s: nat)
    requires FilesOk(d, files) && s in files
    ensures s in files[s].chain
  {
    assert files[s].chain[0] == s;
  }

  // Opening.

  // With distinct names, all sectors that answer to the name of a file lead to it.
  lemma OnlyOwnAnswers(d: Disk, files: Files, s: nat, i: nat)
    requires AllLead(d, files) && DistinctNames(files) && s in files && i <= DISK_SECTOR_MAX
    requires Answers(d, i, files[s].name)
    ensures StartHeader(d, i).start == s
  {
    assert LeadsHome(d, files, i);
  }

  lemma {:induction false} SearchFinds(d: Disk, order: seq<nat>, name: seq<byte>, c: Rec, i: nat)
    requires InRange(order)
    requires forall k | 0 <= k < |order| :: Answers(d, order[k], name) ==> d[StartHeader(d, order[k]).start].close == c
    requires i in order && Answers(d, i, name)
    ensures Search(d, order, name, true, false) == Existing(c)
    decreases |order|
  {
    if !Answers(d, order[0], name) { SearchFinds(d, order[1..], name, c, i); }
  }

  lemma {:induction false} SearchMisses(d: Disk, order: seq<nat>, name: seq<byte>)
    requires InRange(order) && forall k | 0 <= k < |order| :: !Answers(d, order[k], name)
    ensures Search(d, order, name, true, false) == NotFound
    decreases |order|
  {
    if |order| == 0 {
    } else {
      SearchMisses(d, order[1..], name);
    }
  }

  lemma OpenFromOrder(d: Disk, files: Files, s: nat, order: seq<nat>, i: nat)
    requires AllLead(d, files) && DistinctNames(files) && s in files && s <= DISK_SECTOR_MAX && InRange(order)
    requires i in order && i <= DISK_SECTOR_MAX && Answers(d, i, files[s].name)
    ensures Search(d, order, files[s].name, true, false) == Existing(d[s].close)
  {
    forall k | 0 <= k < |order| && Answers(d, order[k], files[s].name)
      ensures d[StartHeader(d, order[k]).start].close == d[s].close
    {
      OnlyOwnAnswers(d, files, s, order[k]);
    }
    SearchFinds(d, order, files[s].name, d[s].close, i);
  }

  // Opening finds a file from any sector that answers to its name, if the probe visits it.
  lemma OpenFinds(d: Disk, files: Files, s: nat, start: nat, i: nat)
    requires AllLead(d, files) && DistinctNames(files) && s in files && s <= DISK_SECTOR_MAX
    requires start < DISK_SECTOR_MAX && i <= DISK_SECTOR_MAX && i != start && Answers(d, i, files[s].name)
    ensures Search(d, ProbeOrder(start), files[s].name, true, false) == Existing(d[s].close)
  {
    ProbeVisits(start, i);
    OpenFromOrder(d, files, s, ProbeOrder(start), i);
  }

  // A probe from start meets a used sector that leads to the file starting at s.
  ghost predicate Met(d: Disk, s: nat, start: nat) {
    exists i :: MetAt(d, s, start, i)
  }

  predicate MetAt(d: Disk, s: nat, start: nat, i: nat) {
    i <= DISK_SECTOR_MAX && i != start && Used(d, i) && StartHeader(d, i).start == s
  }

  // Opening a closed file by name finds its close record exactly if the probe meets a sector that leads to the file.
  lemma OpenIff(d: Disk, files: Files, s: nat, start: nat)
    requires FilesOk(d, files) && AllLead(d, files) && DistinctNames(files) && s in files && files[s].closed
    requires start < DISK_SECTOR_MAX
    ensures s < DISK_SECTOR_MAX
    ensures Search(d, ProbeOrder(start), files[s].name, true, false)
         == if Met(d, s, start) then Existing(d[s].close) else NotFound
  {
    hide Finished, Answers;
    if Met(d, s, start) {
      var i :| MetAt(d, s, start, i);
      LeaderAnswers(d, files, s, i);
      OpenFinds(d, files, s, start, i);
    } else {
      MissesFromOrder(d, files, s, ProbeOrder(start), start);
    }
  }

  lemma LeaderAnswers(d: Disk, files: Files, s: nat, i: nat)
    requires FilesOk(d, files) && AllLead(d, files) && s in files && files[s].closed
    requires i <= DISK_SECTOR_MAX && Used(d, i) && StartHeader(d, i).start == s
    ensures Answers(d, i, files[s].name)
  {
    assert LeadsHome(d, files, i);
  }

  lemma MissesFromOrder(d: Disk, files: Files, s: nat, order: seq<nat>, start: nat)
    requires AllLead(d, files) && DistinctNames(files) && s in files
    requires !Met(d, s, start) && InRange(order) && forall k | 0 <= k < |order| :: order[k] != start
    ensures Search(d, order, files[s].name, true, false) == NotFound
  {
    forall k | 0 <= k < |order| ensures !Answers(d, order[k], files[s].name) {
      if Answers(d, order[k], files[s].name) {
        OnlyOwnAnswers(d, files, s, order[k]);
        assert MetAt(d, s, start, order[k]);
      }
    }
    SearchMisses(d, order, files[s].name);
  }

  // It does unless the probe starts at the only sector of the file.
  lemma LongIsMet(d: Disk, f: File, start: nat)
    requires Chained(d, f) && f.chain != [start]
    ensures Met(d, f.chain[0], start)
  {
    var j := OtherSector(f.chain, start);
    ChainIsUsed(d, f, j);
    assert HeadedAt(d, f.chain, f.name, j) && HeadedAt(d, f.chain, f.name, 0);
    assert MetAt(d, f.chain[0], start, f.chain[j]);
  }

  // Every probe meets one exactly if a sector besides the start leads to the file.
  lemma AlwaysMet(d: Disk, f: File)
    requires Chained(d, f)
    ensures (forall start | 0 <= start < DISK_SECTOR_MAX :: Met(d, f.chain[0], start))
       <==> exists i :: MetAt(d, f.chain[0], f.chain[0], i)
  {
    var s := f.chain[0];
    assert HeadedAt(d, f.chain, f.name, 0);
    if exists i :: MetAt(d, s, s, i) {
      forall start | 0 <= start < DISK_SECTOR_MAX ensures Met(d, s, start) {
        if start != s { assert MetAt(d, s, start, s); }
      }
    }
    if forall start | 0 <= start < DISK_SECTOR_MAX :: Met(d, s, start) {
      assert Met(d, s, s);
    }
  }

  // On a clean volume a closed file is found from every random start exactly if it has more than one sector. With one
  // sector it is missed when the probe starts there.
  lemma OneSectorMissed(d: Disk, files: Files, s: nat)
    requires FilesOk(d, files) && Clean(d, files) && DistinctNames(files) && s in files && files[s].closed
    ensures s < DISK_SECTOR_MAX
    ensures (forall start | 0 <= start < DISK_SECTOR_MAX :: FoundFrom(d, files[s].name, start))
            <==> |files[s].chain| > 1
    ensures |files[s].chain| == 1 ==> Search(d, ProbeOrder(s), files[s].name, true, false) == NotFound
  {
    hide Finished, Search;
    CleanIsLive(d, files);
    LiveLeads(d, files);
    forall start | 0 <= start < DISK_SECTOR_MAX ensures FoundFrom(d, files[s].name, start) <==> Met(d, s, start) {
      OpenIff(d, files, s, start);
    }
    OpenIff(d, files, s, s);
    if |files[s].chain| > 1 {
      forall start | 0 <= start < DISK_SECTOR_MAX ensures Met(d, s, start) { LongIsMet(d, files[s], start); }
    } else {
      OneSectorAlone(d, files, s);
      assert !FoundFrom(d, files[s].name, s);
    }
  }

  predicate FoundFrom(d: Disk, name: seq<byte>, start: nat)
    requires start < DISK_SECTOR_MAX
  {
    Search(d, ProbeOrder(start), name, true, false).Existing?
  }

  lemma OneSectorAlone(d: Disk, files: Files, s: nat)
    requires FilesOk(d, files) && Clean(d, files) && s in files && |files[s].chain| == 1
    ensures !Met(d, s, s)
  {
    if Met(d, s, s) {
      var i :| MetAt(d, s, s, i);
      hide FilesOk;
      assert Belongs(d, files, i);
      var t :| t in files && i in files[t].chain;
      NamesOwnStart(d, files, t, i);
      StartOnChain(d, files, t);
      NamesOwnStart(d, files, t, t);
      StartOnChain(d, files, s);
      OneOfOne(files[s].chain, i, s);
    }
  }

  lemma OneOfOne(chain: seq<nat>, i: nat, s: nat)
    requires |chain| == 1 && i in chain && s in chain
    ensures i == s
  {}

  lemma OtherSector(chain: seq<nat>, start: nat) returns (j: nat)
    requires GoodChain(chain) && chain != [start]
    ensures j < |chain| && chain[j] != start
  {
    if chain[0] != start { return 0; }
    assert |chain| > 1 && Differ(chain, 0, 1);
    return 1;
  }

  // Removing.

  // A used sector of a file of that name, closed or not.
  predicate Named(d: Disk, i: nat, name: seq<byte>)
    requires i <= DISK_SECTOR_MAX
  {
    Used(d, i) && CStr(StartHeader(d, i).name) == name
  }

  // The files that have none of some sectors.
  ghost predicate Avoids(chain: seq<nat>, hit: set<nat>) {
    forall j | 0 <= j < |chain| :: chain[j] !in hit
  }

  ghost function Avoiding(files: Files, hit: set<nat>): Files {
    map s | s in files && Avoids(files[s].chain, hit) :: files[s]
  }

  // The disks agree but for some sectors.
  ghost predicate SameBut(d: Disk, d': Disk, hit: set<nat>) {
    forall k | 0 <= k <= DISK_SECTOR_MAX && k !in hit :: d'[k] == d[k]
  }

  lemma AvoidingOk(d: Disk, d': Disk, files: Files, hit: set<nat>)
    requires FilesOk(d, files) && SameBut(d, d', hit)
    ensures FilesOk(d', Avoiding(files, hit))
    ensures forall s | s in Avoiding(files, hit) :: SameSectors(d, d', files[s].chain)
  {
    var rest := Avoiding(files, hit);
    forall s | s in rest ensures SameSectors(d, d', files[s].chain) && FileOk(d', rest[s]) && rest[s].chain[0] == s {
      FileOkFrame(d, d', files[s]);
    }
  }

  // Removing by name finds a sector exactly if there is a file of that name.
  lemma NamedIff(d: Disk, files: Files, name: seq<byte>)
    requires FilesOk(d, files) && AllLead(d, files)
    ensures (exists i :: 0 <= i < DISK_SECTOR_MAX && Named(d, i, name))
            <==> exists s :: s in files && files[s].name == name
  {
    forall i | 0 <= i < DISK_SECTOR_MAX && Named(d, i, name) ensures exists s :: s in files && files[s].name == name {
      assert LeadsHome(d, files, i);
    }
    forall s | s in files && files[s].name == name ensures s < DISK_SECTOR_MAX && Named(d, s, name) {
      StartIsNamed(d, files[s]);
    }
  }

  lemma StartIsNamed(d: Disk, f: File)
    requires Chained(d, f)
    ensures Named(d, f.chain[0], f.name)
  {
    assert HeadedAt(d, f.chain, f.name, 0);
  }

  // What removing does to the disk: the used sector i, and the start s of the file it leads to, are erased.
  ghost predicate Unlinked(d: Disk, d': Disk, i: nat, s: nat) {
    && i <= DISK_SECTOR_MAX && Used(d, i) && s == StartHeader(d, i).start
    && SameBut(d, d', {s, i}) && d'[s] == d'[i] == BlankSector()
  }

  // It takes away the file and no other, and all its sectors test free.
  lemma UnlinkRemoves(d: Disk, d': Disk, files: Files, i: nat, s: nat)
    requires FilesOk(d, files) && AllLead(d, files) && Unlinked(d, d', i, s)
    ensures s in files && files[s].name == CStr(StartHeader(d, i).name) && Avoiding(files, {s, i}) == files - {s}
    ensures AllFree(d', files[s].chain)
    ensures forall u | u in files && u != s :: SameSectors(d, d', files[u].chain)
  {
    assert LeadsHome(d, files, i);
    OnlyOne(d, files, i, s);
    AvoidingOk(d, d', files, {s, i});
    forall j | 0 <= j < |files[s].chain| ensures !Used(d', files[s].chain[j]) {
      assert HeadedAt(d, files[s].chain, files[s].name, j);
      BlankIsBad();
    }
  }

  lemma OnlyOne(d: Disk, files: Files, i: nat, s: nat)
    requires FilesOk(d, files) && s in files && i <= DISK_SECTOR_MAX && Used(d, i) && StartHeader(d, i).start == s
    ensures Avoiding(files, {s, i}) == files - {s}
  {
    hide FilesOk, Used, StartHeader;
    StartOnChain(d, files, s);
    forall u | u in files && u != s ensures Avoids(files[u].chain, {s, i}) {
      NotOthers(d, files, i, s, u);
    }
    assert !Avoids(files[s].chain, {s, i});
  }

  lemma NotOthers(d: Disk, files: Files, i: nat, s: nat, u: nat)
    requires FilesOk(d, files) && s in files && i <= DISK_SECTOR_MAX && Used(d, i) && StartHeader(d, i).start == s
    requires u in files && u != s
    ensures s !in files[u].chain && i !in files[u].chain
  {
    StartOnChain(d, files, s);
    StartOnChain(d, files, u);
    NamesOwnStart(d, files, s, s);
    NamesOwnStart(d, files, u, u);
    if s in files[u].chain { NamesOwnStart(d, files, u, s); }
    if i in files[u].chain { NamesOwnStart(d, files, u, i); }
  }

  // A sector used afterwards was used before, and names a sector that was not erased.
  lemma UsedBefore(d: Disk, d': Disk, i: nat, s: nat, j: nat)
    requires Unlinked(d, d', i, s) && j <= DISK_SECTOR_MAX
    ensures Used(d', j) <==> j !in {s, i} && Used(d, j) && d[j].header.start !in {s, i}
    ensures Used(d', j) ==> d'[j].header == d[j].header
  {
    BlankIsBad();
  }

  // If every used sector named the start of a file, so it is with the files left.
  lemma UnlinkLive(d: Disk, d': Disk, files: Files, i: nat, s: nat)
    requires Live(d, files) && Unlinked(d, d', i, s)
    ensures Live(d', files - {s})
  {
    forall j | 0 <= j <= DISK_SECTOR_MAX ensures NamesStart(d', files - {s}, j) {
      UsedBefore(d, d', i, s, j);
      assert NamesStart(d, files, j);
    }
  }

  // If every used sector led to a file, so it is with the files left exactly if those that led to the removed file
  // all named one of the two sectors.
  lemma UnlinkLeads(d: Disk, d': Disk, files: Files, i: nat, s: nat)
    requires AllLead(d, files) && Unlinked(d, d', i, s)
    ensures AllLead(d', files - {s}) <==> NoneStray(d, i, s)
  {
    forall j | 0 <= j <= DISK_SECTOR_MAX ensures LeadsHome(d', files - {s}, j) <==> !Strays(d, i, s, j) {
      assert LeadsHome(d, files, j);
      UsedBefore(d, d', i, s, j);
    }
    if AllLead(d', files - {s}) {
      forall j | 0 <= j <= DISK_SECTOR_MAX ensures !Strays(d, i, s, j) { assert LeadsHome(d', files - {s}, j); }
    }
  }

  // Sector j leads to the file that starts at s by way of another sector than s and i.
  predicate Strays(d: Disk, i: nat, s: nat, j: nat)
    requires j <= DISK_SECTOR_MAX
  {
    j !in {s, i} && Used(d, j) && StartHeader(d, j).start == s && d[j].header.start !in {s, i}
  }

  ghost predicate NoneStray(d: Disk, i: nat, s: nat) {
    forall j | 0 <= j <= DISK_SECTOR_MAX :: !Strays(d, i, s, j)
  }

  // A clean volume stays clean exactly if the two sectors were all the file had.
  lemma CleanAfterUnlink(d: Disk, d': Disk, files: Files, i: nat, s: nat)
    requires FilesOk(d, files) && Clean(d, files) && Unlinked(d, d', i, s) && s in files
    ensures Clean(d', files - {s}) <==> forall k | k in files[s].chain :: k == s || k == i
  {
    BlankIsBad();
    if Clean(d', files - {s}) {
      forall k | k in files[s].chain ensures k == s || k == i { LeftBehind(d, d', files, i, s, k); }
    }
    if forall k | k in files[s].chain :: k == s || k == i {
      forall k | 0 <= k <= DISK_SECTOR_MAX ensures Belongs(d', files - {s}, k) {
        assert Belongs(d, files, k);
        if FormatOk(d'[k].header) {
          var u :| u in files && k in files[u].chain;
          assert u in files - {s} && k in (files - {s})[u].chain;
        }
      }
    }
  }

  lemma LeftBehind(d: Disk, d': Disk, files: Files, i: nat, s: nat, k: nat)
    requires FilesOk(d, files) && Unlinked(d, d', i, s) && s in files && Clean(d', files - {s}) && k in files[s].chain
    ensures k == s || k == i
  {
    if k != s && k != i {
      var j :| 0 <= j < |files[s].chain| && files[s].chain[j] == k;
      assert HeadedAt(d, files[s].chain, files[s].name, j) && Belongs(d', files - {s}, k);
      var u :| u in files - {s} && k in (files - {s})[u].chain;
      NotShared(d, files, s, u, k);
    }
  }

  // Cleaning up.

  function ClosedOnes(files: Files): Files {
    map s | s in files && files[s].closed :: files[s]
  }

  ghost predicate AllFree(d: Disk, chain: seq<nat>) {
    forall j | 0 <= j < |chain| :: chain[j] <= DISK_SECTOR_MAX && !Used(d, chain[j])
  }

  ghost predicate ClosedSame(d0: Disk, files0: Files, d: Disk)
    requires FilesOk(d0, files0)
  {
    forall s | s in files0 && files0[s].closed :: SameSectors(d0, d, files0[s].chain)
  }

  // The sector the cleaning up erases is on no chain of a closed file: its header names the start of the file that it
  // is on, and the close record there would be good.
  lemma ErasesNoClosed(d0: Disk, files0: Files, d: Disk, y: nat)
    requires FilesOk(d0, files0) && ClosedSame(d0, files0, d) && y <= DISK_SECTOR_MAX
    requires FormatOk(d[y].header) && !FormatOk(d[d[y].header.start].close)
    ensures forall s | s in files0 && files0[s].closed :: y !in files0[s].chain
  {
    forall s | s in files0 && files0[s].closed ensures y !in files0[s].chain {
      if y in files0[s].chain { ClosedGuards(d0, files0, d, s, y); }
    }
  }

  lemma ClosedGuards(d0: Disk, files0: Files, d: Disk, s: nat, y: nat)
    requires FilesOk(d0, files0) && ClosedSame(d0, files0, d) && s in files0 && files0[s].closed && y in files0[s].chain
    ensures y < DISK_SECTOR_MAX && d[y].header.start == s && FormatOk(d[s].close)
  {
    NamesOwnStart(d0, files0, s, y);
    assert files0[s].chain[0] == s;
  }

  lemma ClosedStaySame(d0: Disk, files0: Files, d: Disk, y: nat, x: Sector)
    requires FilesOk(d0, files0) && ClosedSame(d0, files0, d) && y <= DISK_SECTOR_MAX
    requires forall s | s in files0 && files0[s].closed :: y !in files0[s].chain
    ensures ClosedSame(d0, files0, d[y := x])
  {}

  // On a device that does not fail sectors are left alone or erased, and all starts of files that are not closed are
  // erased among the first n sectors.
  ghost predicate Cleaned(d0: Disk, files0: Files, d: Disk, n: nat) {
    && (forall k {:trigger CleanedAt(d0, d, k)} | 0 <= k <= DISK_SECTOR_MAX :: CleanedAt(d0, d, k))
    && forall s {:trigger Gone(files0, d, s)} | 0 <= s < n :: Gone(files0, d, s)
  }

  ghost predicate CleanedAt(d0: Disk, d: Disk, k: nat)
    requires k <= DISK_SECTOR_MAX
  {
    d[k] == d0[k] || d[k] == BlankSector()
  }

  // Sector s is not the start of a file that is not closed, unless it is erased.
  ghost predicate Gone(files0: Files, d: Disk, s: nat) {
    s in files0 && !files0[s].closed ==> s <= DISK_SECTOR_MAX && d[s] == BlankSector()
  }

  // The turn at the start of a file that is not closed erases it, if it has not been erased before.
  lemma TurnAtStart(d0: Disk, files0: Files, d: Disk, i: nat)
    requires FilesOk(d0, files0) && Cleaned(d0, files0, d, i) && i in files0 && !files0[i].closed
    requires d[i] != BlankSector()
    ensures i < DISK_SECTOR_MAX && Used(d, i) && StartHeader(d, i).start == i && FormatOk(d[i].header)
    ensures d[i].header.start == i
    ensures !FormatOk(d[i].close)
  {
    BlankIsBad();
    StartOnChain(d0, files0, i);
    StartIsNamed(d0, files0[i]);
    NamesOwnStart(d0, files0, i, i);
    assert CleanedAt(d0, d, i);
  }

  lemma CleanedNext(d0: Disk, files0: Files, d: Disk, i: nat)
    requires Cleaned(d0, files0, d, i) && i < DISK_SECTOR_MAX
    requires i in files0 && !files0[i].closed ==> d[i] == BlankSector()
    ensures Cleaned(d0, files0, d, i + 1)
  {
    assert Gone(files0, d, i);
  }

  lemma CleanedErase(d0: Disk, files0: Files, d: Disk, i: nat, y: nat)
    requires Cleaned(d0, files0, d, i) && y <= DISK_SECTOR_MAX
    ensures Cleaned(d0, files0, d[y := BlankSector()], i)
  {
    var d' := d[y := BlankSector()];
    forall k | 0 <= k <= DISK_SECTOR_MAX ensures CleanedAt(d0, d', k) { assert CleanedAt(d0, d, k); }
    forall s | 0 <= s < i ensures Gone(files0, d', s) { assert Gone(files0, d, s); }
  }

  // At the end all closed files are as they were, and all sectors of the others test free.
  lemma CleanedUp(d0: Disk, files0: Files, d: Disk)
    requires FilesOk(d0, files0) && ClosedSame(d0, files0, d)
    ensures FilesOk(d, ClosedOnes(files0))
    ensures Cleaned(d0, files0, d, DISK_SECTOR_MAX) ==>
              forall s | s in files0 && !files0[s].closed :: AllFree(d, files0[s].chain)
  {
    var left := ClosedOnes(files0);
    forall s | s in left ensures FileOk(d, left[s]) && left[s].chain[0] == s { FileOkFrame(d0, d, files0[s]); }
    if Cleaned(d0, files0, d, DISK_SECTOR_MAX) {
      forall s | s in files0 && !files0[s].closed
        ensures AllFree(d, files0[s].chain)
      {
        UnclosedFreed(d0, files0, d, s);
      }
    }
  }

  lemma UnclosedFreed(d0: Disk, files0: Files, d: Disk, s: nat)
    requires FilesOk(d0, files0) && Cleaned(d0, files0, d, DISK_SECTOR_MAX) && s in files0 && !files0[s].closed
    ensures AllFree(d, files0[s].chain)
  {
    BlankIsBad();
    StartOnChain(d0, files0, s);
    assert Gone(files0, d, s);
    forall j | 0 <= j < |files0[s].chain| ensures !Used(d, files0[s].chain[j]) {
      NamesOwnStart(d0, files0, s, files0[s].chain[j]);
      assert CleanedAt(d0, d, files0[s].chain[j]);
    }
  }

  // If every used sector named the start of a file, so it is with the closed ones.
  lemma CleanedLive(d0: Disk, files0: Files, d: Disk)
    requires FilesOk(d0, files0) && Live(d0, files0) && Cleaned(d0, files0, d, DISK_SECTOR_MAX)
    ensures Live(d, ClosedOnes(files0))
  {
    BlankIsBad();
    forall i | 0 <= i <= DISK_SECTOR_MAX ensures NamesStart(d, ClosedOnes(files0), i) {
      if Used(d, i) {
        var x := d[i].header.start;
        assert CleanedAt(d0, d, i) && CleanedAt(d0, d, x) && NamesStart(d0, files0, i) && Gone(files0, d, x);
      }
    }
  }
}
