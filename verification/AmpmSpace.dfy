/** What creating, extending and closing files does to the headers of a volume, and to the room that is left on it. */
module AmpmSpace {
  import opened Words
  import opened AmpmFile
  import opened AmpmFinding

  // The file grows from f to f'. Headers change only at the sectors of its chain, or become bad; over allows for more
  // sectors with the header of the file, as a file gets that has gone on behind the volume.
  ghost predicate Grows(d: Disk, d': Disk, f: File, f': File, over: bool) {
    && f.chain <= f'.chain && f.name == f'.name
    && forall i {:trigger HeaderKept(d, d', f', over, i)} | 0 <= i <= DISK_SECTOR_MAX :: HeaderKept(d, d', f', over, i)
  }

  ghost predicate HeaderKept(d: Disk, d': Disk, f': File, over: bool, i: nat)
    requires i <= DISK_SECTOR_MAX
  {
    || d'[i].header == d[i].header || !FormatOk(d'[i].header) || i in f'.chain
    || (over && |f'.chain| > 0 && Heads(d'[i].header, f'.chain[0], f'.name))
  }

  ghost predicate SameHeaders(d: Disk, d': Disk) {
    forall i | 0 <= i <= DISK_SECTOR_MAX :: d'[i].header == d[i].header
  }

  lemma GrowsTrans(d: Disk, d1: Disk, d2: Disk, f: File, f1: File, f2: File, over: bool)
    requires Grows(d, d1, f, f1, over) && Grows(d1, d2, f1, f2, over)
    ensures Grows(d, d2, f, f2, over)
  {
    forall i | 0 <= i <= DISK_SECTOR_MAX ensures HeaderKept(d, d2, f2, over, i) {
      assert HeaderKept(d, d1, f1, over, i) && HeaderKept(d1, d2, f2, over, i);
      if i in f1.chain { PrefixIn(f1.chain, f2.chain, i); }
    }
  }

  lemma PrefixIn(s: seq<nat>, t: seq<nat>, x: nat)
    requires s <= t && x in s
    ensures x in t
  {
    var j :| 0 <= j < |s| && s[j] == x;
    assert t[j] == x;
  }

  lemma GrowsMore(d: Disk, d': Disk, f: File, f': File, over: bool)
    requires Grows(d, d', f, f', false)
    ensures Grows(d, d', f, f', over)
  {
    forall i | 0 <= i <= DISK_SECTOR_MAX
      ensures HeaderKept(d, d', f', over, i)
    {
      assert HeaderKept(d, d', f', false, i);
    }
  }

  lemma SameHeadersGrow(d: Disk, d': Disk, f: File, f': File, over: bool)
    requires SameHeaders(d, d') && f.chain == f'.chain && f.name == f'.name
    ensures Grows(d, d', f, f', over)
  {}

  // A clean volume stays clean when the file that starts at own grows, or is new.
  lemma CleanGrows(d: Disk, d': Disk, files: Files, own: nat, f: File, f': File)
    requires Clean(d, files) && Grows(d, d', f, f', false) && (own in files ==> files[own].chain == f.chain)
    ensures Clean(d', files[own := f'])
  {
    var files' := files[own := f'];
    forall i | 0 <= i <= DISK_SECTOR_MAX ensures Belongs(d', files', i) {
      assert HeaderKept(d, d', f', false, i) && Belongs(d, files, i);
      if i in f'.chain {
        assert own in files' && i in files'[own].chain;
      } else if FormatOk(d'[i].header) {
        var s :| s in files && i in files[s].chain;
        if s == own { PrefixIn(f.chain, f'.chain, i); }
        assert s in files' && i in files'[s].chain;
      }
    }
  }

  // If all used sectors led to files, so it is when the file grows, or is new, even behind the volume.
  lemma LeadGrows(d: Disk, d': Disk, files: Files, own: nat, f: File, f': File, over: bool)
    requires AllLead(d, files) && Grows(d, d', f, f', over) && (own in files ==> files[own].name == f.name)
    requires Chained(d', f') && f'.chain[0] == own
    ensures AllLead(d', files[own := f'])
  {
    var files' := files[own := f'];
    forall i | 0 <= i <= DISK_SECTOR_MAX ensures LeadsHome(d', files', i) {
      if Used(d', i) { HomeGrows(d, d', files, own, f, f', over, i, d'[i].header.start); }
    }
  }

  lemma HomeGrows(d: Disk, d': Disk, files: Files, own: nat, f: File, f': File, over: bool, i: nat, x: nat)
    requires AllLead(d, files) && Grows(d, d', f, f', over) && (own in files ==> files[own].name == f.name)
    requires Chained(d', f') && f'.chain[0] == own
    requires i <= DISK_SECTOR_MAX && Used(d', i) && x == d'[i].header.start
    ensures LeadsHome(d', files[own := f'], i)
  {
    assert HeaderKept(d, d', f', over, i) && HeaderKept(d, d', f', over, x) && LeadsHome(d, files, i);
    HeadOfChain(d', f', own);
    if x in f'.chain { HeadOfChain(d', f', x); }
    if i in f'.chain { HeadOfChain(d', f', i); }
  }

  lemma HeadOfChain(d: Disk, f: File, x: nat)
    requires Chained(d, f) && x in f.chain
    ensures x < DISK_SECTOR_MAX && Heads(d[x].header, f.chain[0], f.name)
  {
    var j :| 0 <= j < |f.chain| && f.chain[j] == x;
    assert HeadedAt(d, f.chain, f.name, j);
  }

  // If headers have only become bad, nothing that held of the good ones is lost.
  ghost predicate Fades(d: Disk, d': Disk) {
    forall i {:trigger FadedAt(d, d', i)} | 0 <= i <= DISK_SECTOR_MAX :: FadedAt(d, d', i)
  }

  predicate FadedAt(d: Disk, d': Disk, i: nat)
    requires i <= DISK_SECTOR_MAX
  {
    d'[i].header == d[i].header || !FormatOk(d'[i].header)
  }

  lemma FadedStays(d: Disk, d': Disk, files: Files)
    requires Fades(d, d')
    ensures Clean(d, files) ==> Clean(d', files)
    ensures Live(d, files) ==> Live(d', files)
    ensures AllLead(d, files) ==> AllLead(d', files)
  {
    if Clean(d, files) {
      forall i | 0 <= i <= DISK_SECTOR_MAX
        ensures Belongs(d', files, i)
      {
        assert Belongs(d, files, i) && FadedAt(d, d', i);
      }
    }
    if Live(d, files) {
      forall i | 0 <= i <= DISK_SECTOR_MAX ensures NamesStart(d', files, i) {
        assert NamesStart(d, files, i);
        if Used(d', i) { FadedUse(d, d', i); }
      }
    }
    if AllLead(d, files) {
      forall i | 0 <= i <= DISK_SECTOR_MAX ensures LeadsHome(d', files, i) {
        assert LeadsHome(d, files, i);
        if Used(d', i) { FadedUse(d, d', i); }
      }
    }
  }

  lemma FadedUse(d: Disk, d': Disk, i: nat)
    requires i <= DISK_SECTOR_MAX && Fades(d, d') && Used(d', i)
    ensures d'[i].header == d[i].header && Used(d, i) && StartHeader(d', i) == StartHeader(d, i)
  {
    assert FadedAt(d, d', i) && FadedAt(d, d', d'[i].header.start);
  }

  // Room.

  // The sectors of the volume whose header is not a good one.
  function SpareSet(d: Disk): set<nat> { SpareBelow(d, DISK_SECTOR_MAX) }

  function SpareBelow(d: Disk, n: nat): set<nat>
    requires n <= DISK_SECTOR_MAX
  {
    set i: nat | i < n && !FormatOk(d[i].header)
  }

  function Spare(d: Disk): nat { |SpareSet(d)| }

  // Every sector of the volume but the one some probe starts at is used; only then does a search for a free one fail,
  // or hand out the sector behind the volume.
  ghost predicate Brimming(d: Disk) {
    exists s :: BrimmingBut(d, s)
  }

  ghost predicate BrimmingBut(d: Disk, s: nat) {
    forall i | 0 <= i < DISK_SECTOR_MAX && i != s :: Used(d, i)
  }

  lemma ProbedToEnd(d: Disk, s: nat, k: nat)
    requires s < DISK_SECTOR_MAX && k <= DISK_SECTOR_MAX
    requires k < DISK_SECTOR_MAX ==> ProbeOrder(s)[k] == DISK_SECTOR_MAX
    requires forall j | 0 <= j < k :: Used(d, ProbeOrder(s)[j])
    ensures Brimming(d)
  {
    forall i | 0 <= i < DISK_SECTOR_MAX && i != s ensures Used(d, i) {
      ProbeVisits(s, i);
      var j :| 0 <= j < DISK_SECTOR_MAX && ProbeOrder(s)[j] == i;
    }
    assert BrimmingBut(d, s);
  }

  lemma BrimmingSpare(d: Disk)
    requires Brimming(d)
    ensures Spare(d) <= 1
  {
    var s :| BrimmingBut(d, s);
    forall i | i in SpareSet(d) ensures i in {s} { assert i != s ==> Used(d, i); }
    SubsetSize(SpareSet(d), {s});
  }

  lemma {:induction false} SubsetSize(a: set<nat>, b: set<nat>)
    requires a <= b
    ensures |a| <= |b|
  {
    if a == {} {
    } else {
      var x :| x in a;
      SubsetSize(a - {x}, b - {x});
    }
  }

  function Elements(s: seq<nat>): set<nat> { set x | x in s }

  lemma {:induction false} ElementsSize(s: seq<nat>)
    ensures |Elements(s)| <= |s|
    decreases |s|
  {
    if |s| == 0 {
    } else {
      ElementsSize(s[1..]);
      assert Elements(s) == {s[0]} + Elements(s[1..]);
    }
  }

  // A growing file takes no more room than its chain gets sectors.
  lemma SpareGrows(d: Disk, d': Disk, f: File, f': File)
    requires Grows(d, d', f, f', false) && (f.chain == [] || Chained(d, f))
    ensures Spare(d) <= Spare(d') + (|f'.chain| - |f.chain|)
  {
    var added := f'.chain[|f.chain|..];
    forall i | i in SpareSet(d) ensures i in SpareSet(d') + Elements(added) {
      assert HeaderKept(d, d', f', false, i);
      if i !in SpareSet(d') { IsNew(d, f, f', i); }
    }
    SubsetSize(SpareSet(d), SpareSet(d') + Elements(added));
    ElementsSize(added);
  }

  lemma IsNew(d: Disk, f: File, f': File, i: nat)
    requires f.chain == [] || Chained(d, f)
    requires f.chain <= f'.chain && i in f'.chain && i <= DISK_SECTOR_MAX && !FormatOk(d[i].header)
    ensures i in Elements(f'.chain[|f.chain|..])
  {
    var j :| 0 <= j < |f'.chain| && f'.chain[j] == i;
    if j < |f.chain| { HeadOfChain(d, f, f.chain[j]); }
    assert f'.chain[|f.chain|..][j - |f.chain|] == i;
  }

  lemma SpareFades(d: Disk, d': Disk)
    requires Fades(d, d')
    ensures Spare(d) <= Spare(d')
  {
    forall i | i in SpareSet(d) ensures i in SpareSet(d') { assert FadedAt(d, d', i); }
    SubsetSize(SpareSet(d), SpareSet(d'));
  }

  lemma {:induction false} AllSpare(d: Disk, n: nat)
    requires n <= DISK_SECTOR_MAX && forall i | 0 <= i < n :: !FormatOk(d[i].header)
    ensures |SpareBelow(d, n)| == n
  {
    hide FormatOk;
    if n == 0 {
      assert SpareBelow(d, n) == {};
    } else {
      AllSpare(d, n - 1);
      assert SpareBelow(d, n) == SpareBelow(d, n - 1) + {n - 1};
    }
  }
}
