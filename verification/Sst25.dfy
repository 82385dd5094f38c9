/** The flash driver sst25.c over a NOR memory: erasing sets a sector to ones, programming only clears bits. */
module Sst25 {
  import opened Words

  const SECTOR: nat := 0x1000  // SST25_SECTOR_SIZE
  const PAGE: nat := 256
  const CHUNK: nat := 512

  // Bitwise and.
  function And(a: nat, b: nat): nat {
    if a == 0 || b == 0 then 0 else (a % 2) * (b % 2) + 2 * And(a / 2, b / 2)
  }

  lemma {:induction false} AndBelow(a: nat, b: nat)
    ensures And(a, b) <= b
  {
    if a != 0 && b != 0 {
      AndBelow(a / 2, b / 2);
      assert a % 2 == 0 || a % 2 == 1;
    }
  }

  lemma {:induction false} AndOnes(n: nat, b: nat)
    requires b < Pow2(n)
    ensures And(Pow2(n) - 1, b) == b
  {
    if b != 0 {
      assert Pow2(n) == 2 * Pow2(n - 1);
      var ones := Pow2(n) - 1;
      assert ones % 2 == 1 && ones / 2 == Pow2(n - 1) - 1;
      AndOnes(n - 1, b / 2);
    }
  }

  lemma AndErased(b: byte)
    ensures And(0xFF, b) == b
  {
    WordSizes();
    AndOnes(8, b);
  }

  // Bit k of a number.
  predicate BitSet(a: nat, k: nat)
    decreases k
  {
    if k == 0 then a % 2 == 1 else BitSet(a / 2, k - 1)
  }

  // A bit is set in it exactly if it is in both.
  lemma {:induction false} AndBit(a: nat, b: nat, k: nat)
    ensures BitSet(And(a, b), k) <==> BitSet(a, k) && BitSet(b, k)
    decreases k
  {
    if a == 0 || b == 0 {
      NoBits(k);
    } else {
      AndHalves(a, b);
      if k > 0 { AndBit(a / 2, b / 2, k - 1); }
    }
  }

  lemma AndHalves(a: nat, b: nat)
    requires a != 0 && b != 0
    ensures And(a, b) / 2 == And(a / 2, b / 2) && And(a, b) % 2 == if a % 2 == 1 && b % 2 == 1 then 1 else 0
  {
    assert a % 2 == 0 || a % 2 == 1;
  }

  lemma {:induction false} NoBits(k: nat)
    ensures !BitSet(0, k)
    decreases k
  {
    if k > 0 { NoBits(k - 1); }
  }

  // The start of the sector of an address.
  function Start(p: nat): (e: nat)
    ensures e <= p < e + SECTOR
  {
    p - p % SECTOR
  }

  // Writing n octets at addr erases the sectors that start among them; p is in one of these.
  predicate Struck(addr: nat, n: nat, p: nat) { addr <= Start(p) < addr + n }

  // What programming finds at p when the first n octets at addr are being written.
  function Base(old0: seq<byte>, addr: nat, n: nat, p: nat): byte
    requires p < |old0|
  {
    if Struck(addr, n, p) then 0xFF else old0[p]
  }

  function Programmed(was: byte, b: byte): byte {
    AndBelow(was, b);
    And(was, b)
  }

  // The octets that a write can leave in the flash: where no sector start comes before, bits can only be cleared.
  predicate Programmable(mem: seq<byte>, addr: nat, data: seq<byte>)
    requires addr + |data| <= |mem|
  {
    forall p | addr <= p < addr + |data| :: Fits(Base(mem, addr, |data|, p), data[p - addr])
  }

  predicate Fits(was: byte, b: byte) { Programmed(was, b) == b }

  // Programming can clear bits and set none, so an octet fits exactly if all its bits are set already.
  lemma FitsIff(was: byte, b: byte)
    ensures forall k: nat :: BitSet(Programmed(was, b), k) <==> BitSet(was, k) && BitSet(b, k)
    ensures Fits(was, b) <==> Covers(was, b)
  {
    hide BitSet, And;
    forall k: nat ensures BitSet(Programmed(was, b), k) <==> BitSet(was, k) && BitSet(b, k) { AndBit(was, b, k); }
    if Covers(was, b) { AllBits(was, b); }
    if Fits(was, b) {
      forall k: nat ensures BitSet(b, k) ==> BitSet(was, k) { AndBit(was, b, k); }
    }
  }

  ghost predicate Covers(a: nat, b: nat) { forall k: nat :: BitSet(b, k) ==> BitSet(a, k) }

  lemma {:induction false} AllBits(a: nat, b: nat)
    requires Covers(a, b)
    ensures And(a, b) == b
    decreases b
  {
    if b != 0 {
      if a == 0 {
        var k := SomeBit(b);
        NoBits(k);
      } else {
        forall k: nat ensures BitSet(b / 2, k) ==> BitSet(a / 2, k) {
          assert BitSet(b, k + 1) ==> BitSet(a, k + 1);
        }
        AllBits(a / 2, b / 2);
        AndHalves(a, b);
        assert BitSet(b, 0) ==> BitSet(a, 0);
      }
    }
  }

  lemma {:induction false} SomeBit(b: nat) returns (k: nat)
    requires b > 0
    ensures BitSet(b, k)
    decreases b
  {
    if b % 2 == 1 {
      k := 0;
    } else {
      k := SomeBit(b / 2);
      k := k + 1;
    }
  }

  function Ones(): seq<byte> { seq(SECTOR, _ => 0xFF) }

  function Replaced(mem: seq<byte>, addr: nat, part: seq<byte>): (r: seq<byte>)
    requires addr + |part| <= |mem|
    ensures |r| == |mem|
  {
    mem[..addr] + part + mem[addr + |part|..]
  }

  // The octets with the bits cleared that are not set in data.
  function Cleared(was: seq<byte>, data: seq<byte>): (r: seq<byte>)
    requires |data| == |was|
    ensures |r| == |data|
  {
    seq(|data|, i requires 0 <= i < |data| == |was| => Programmed(was[i], data[i]))
  }

  // Every write can be left in flash that is erased up to the first sector start in the range.
  lemma ErasedIsProgrammable(mem: seq<byte>, addr: nat, data: seq<byte>)
    requires addr + |data| <= |mem|
    requires forall p | addr <= p < addr + |data| && Start(p) < addr :: mem[p] == 0xFF
    ensures Programmable(mem, addr, data)
  {
    forall p | addr <= p < addr + |data| ensures Fits(Base(mem, addr, |data|, p), data[p - addr]) {
      AndErased(data[p - addr]);
    }
  }

  class Flash {
    var mem: seq<byte>
    // a device that never fails
    const reliable: bool

    constructor (sectors: nat, reliable: bool)
      ensures |mem| == SECTOR * sectors && this.reliable == reliable
    {
      mem := seq(SECTOR * sectors, _ => 0xFF);
      this.reliable := reliable;
    }

    // SST25_Erase of the 4 kB sector at addr; what a failing device leaves in the sector is not known.
    method Erase(addr: nat)
      requires addr + SECTOR <= |mem|
      modifies this`mem
      ensures |mem| == |old(mem)|
      ensures forall p | 0 <= p < |mem| && !(addr <= p < addr + SECTOR) :: mem[p] == old(mem)[p]
      ensures reliable ==> forall p | addr <= p < addr + SECTOR :: mem[p] == 0xFF
    {
      var junk := Junk(SECTOR);
      mem := Replaced(mem, addr, if reliable then Ones() else junk);
    }

    method Junk(n: nat) returns (junk: seq<byte>)
      ensures |junk| == n
    {
      junk := [];
      while |junk| < n
        invariant |junk| <= n
      {
        var b: byte := *;
        junk := junk + [b];
      }
    }

    // __SST25_Write of the n octets of data from octet from on.
    method Program(addr: nat, data: seq<byte>, from: nat, n: nat) returns (ok: bool)
      requires addr + n <= |mem| && from + n <= |data|
      modifies this`mem
      ensures |mem| == |old(mem)|
      ensures forall p | 0 <= p < |mem| && !(addr <= p < addr + n) :: mem[p] == old(mem)[p]
      ensures reliable ==>
                ok && forall p | addr <= p < addr + n :: mem[p] == Programmed(old(mem)[p], data[p - addr + from])
    {
      ok := *;
      ok := ok || reliable;
      var junk := Junk(n);
      mem := Replaced(mem, addr, if reliable then Cleared(mem[addr..addr + n], data[from..from + n]) else junk);
    }

    // _SST25_Read
    method ReadChunk(addr: nat, n: nat) returns (ok: bool, data: seq<byte>)
      requires addr + n <= |mem|
      ensures |data| == n && (ok ==> data == mem[addr..addr + n]) && (reliable ==> ok)
    {
      ok := *;
      ok := ok || reliable;
      var junk := Junk(n);
      data := if ok then mem[addr..addr + n] else junk;
    }

    // _SST25_Write: at most a page, which may reach into the next sector.
    method WriteChunk(addr: nat, data: seq<byte>) returns (ok: bool)
      requires |data| <= PAGE && addr + |data| <= |mem| && |mem| % SECTOR == 0 && addr < |mem|
      modifies this`mem
      ensures Chunked(old(mem), mem, addr, data)
      ensures reliable ==> ok && Written(old(mem), mem, addr, data)
    {
      var count, count1 := |data|, 0;
      ghost var m0, e := mem, ErasedBy(addr, |data|, |mem|);
      if addr % SECTOR == 0 {
        InSector(addr, |mem|);
        Erase(addr);
      }
      if addr % SECTOR + count > SECTOR {
        Straddles(addr, count, |mem|);
        count1 := (addr + count) % SECTOR;
        count := count - count1;
      }
      ok := TwoSteps(addr, data, count, count1, m0, e);
      StruckIs(addr, |data|, |mem|);
      Concludes(m0, mem, addr, data, e, reliable);
    }

    // What comes after erasing at the front of the range.
    method TwoSteps(addr: nat, data: seq<byte>, count: nat, count1: nat, ghost m0: seq<byte>, ghost e: nat)
      returns (ok: bool)
      requires count + count1 == |data| && addr + |data| <= |mem| == |m0|
      requires count1 > 0 ==> addr + count + SECTOR <= |mem|
      requires if e == addr then count1 == 0 else count1 > 0 ==> e == addr + count
      requires forall p | 0 <= p < |mem| && !(e == addr && e <= p < e + SECTOR) :: mem[p] == m0[p]
      requires reliable && e == addr ==> forall p | e <= p < e + SECTOR && p < |mem| :: mem[p] == 0xFF
      requires count1 == 0 && e != addr ==> e >= |mem|
      modifies this`mem
      ensures Confined(m0, mem, addr, data, e)
      ensures reliable ==> ok && Exactly(m0, mem, addr, data, e)
    {
      ok := Program(addr, data, 0, count);
      if !ok { return; }
      if count1 > 0 {
        Erase(addr + count);
        ok := Program(addr + count, data, count, count1);
      }
    }

    // A chunk is written and read back.
    method WriteChecked(addr: nat, data: seq<byte>) returns (ok: bool)
      requires |data| <= PAGE && addr + |data| <= |mem| && |mem| % SECTOR == 0 && addr < |mem|
      modifies this`mem
      ensures Chunked(old(mem), mem, addr, data)
      ensures ok ==> Holds(mem, addr, data)
      ensures reliable ==> Written(old(mem), mem, addr, data) && (ok <==> Programmable(old(mem), addr, data))
    {
      ghost var m0 := mem;
      var written := WriteChunk(addr, data);
      var read, back := ReadChunk(addr, |data|);
      ok := written && read && back == data;
      if reliable { HoldsIff(m0, mem, addr, data); }
    }

    // SST25_Write: the count is cut to 16 bits.
    method Write(addr: nat, buff: seq<byte>) returns (ok: bool)
      requires |mem| % SECTOR == 0 && addr < |mem| && addr + |buff| % 0x1_0000 <= |mem|
      modifies this`mem
      ensures Chunked(old(mem), mem, addr, buff[..|buff| % 0x1_0000])
      ensures ok ==> Holds(mem, addr, buff[..|buff| % 0x1_0000])
      ensures reliable ==>
                && (ok <==> Programmable(old(mem), addr, buff[..|buff| % 0x1_0000]))
                && (ok ==> Written(old(mem), mem, addr, buff[..|buff| % 0x1_0000]))
    {
      var cnt := |buff| % 0x1_0000;
      var data := buff[..cnt];
      if cnt <= PAGE {
        ok := WriteChecked(addr, data);
      } else {
        ok := WriteChunks(addr, data);
      }
    }

    // Its loop.
    method WriteChunks(addr: nat, data: seq<byte>) returns (ok: bool)
      requires |mem| % SECTOR == 0 && addr + |data| <= |mem| && |data| > 0
      modifies this`mem
      ensures Chunked(old(mem), mem, addr, data)
      ensures ok ==> Holds(mem, addr, data)
      ensures reliable ==> (ok <==> Programmable(old(mem), addr, data)) && (ok ==> Written(old(mem), mem, addr, data))
    {
      ghost var m0 := mem;
      var cnt: nat, offset: nat := |data|, 0;
      while cnt > 0
        invariant offset + cnt == |data| && |mem| == |m0|
        invariant Wrote(m0, mem, addr, data[..offset], reliable)
      {
        var n := if cnt >= PAGE then PAGE else cnt;
        var chunk := data[offset..offset + n];
        ok := WriteNext(addr, data, offset, n, chunk, m0);
        if !ok { return; }
        offset, cnt := offset + n, cnt - n;
      }
      assert data[..offset] == data;
      ok := true;
    }

    // One turn of it.
    method WriteNext(addr: nat, data: seq<byte>, offset: nat, n: nat, chunk: seq<byte>, ghost m0: seq<byte>)
      returns (ok: bool)
      requires |mem| % SECTOR == 0 && addr + |data| <= |mem| == |m0| && offset + n <= |data| && 0 < n <= PAGE
      requires chunk == data[offset..offset + n] && Wrote(m0, mem, addr, data[..offset], reliable)
      modifies this`mem
      ensures |mem| == |m0|
      ensures ok ==> Wrote(m0, mem, addr, data[..offset + n], reliable)
      ensures !ok ==> Chunked(m0, mem, addr, data) && (reliable ==> !Programmable(m0, addr, data))
    {
      ghost var m1 := mem;
      ok := WriteChecked(addr + offset, chunk);
      WroteNext(m0, m1, mem, addr, data, data[..offset], chunk, offset + n, reliable, ok);
    }

    // SST25_Read, in chunks of 512 octets; the count is cut to 16 bits.
    method Read(addr: nat, count: nat) returns (ok: bool, data: seq<byte>)
      requires addr + count % 0x1_0000 <= |mem|
      ensures ok ==> data == mem[addr..addr + count % 0x1_0000]
      ensures reliable ==> ok
    {
      var cnt: nat, offset: nat := count % 0x1_0000, 0;
      if cnt <= CHUNK {
        ok, data := ReadChunk(addr, cnt);
        return;
      }
      data := [];
      while cnt > 0
        invariant offset + cnt == count % 0x1_0000 && data == mem[addr..addr + offset]
      {
        var n := if cnt >= CHUNK then CHUNK else cnt;
        var part;
        ok, part := ReadChunk(addr + offset, n);
        if !ok { return; }
        assert mem[addr..addr + offset] + part == mem[addr..addr + offset + n];
        data, offset, cnt := data + part, offset + n, cnt - n;
      }
      ok := true;
    }
  }

  // As Chunked and Written below, when the sector that starts at e is the only one erased.
  ghost predicate Confined(old0: seq<byte>, mem: seq<byte>, addr: nat, data: seq<byte>, e: nat) {
    && |mem| == |old0|
    && forall p | 0 <= p < |mem| && !(addr <= p < addr + |data|) && !(e <= p < e + SECTOR) :: mem[p] == old0[p]
  }

  ghost predicate Exactly(old0: seq<byte>, mem: seq<byte>, addr: nat, data: seq<byte>, e: nat) {
    && |mem| == |old0|
    && forall p | 0 <= p < |mem| ::
         mem[p] == var was := if e <= p < e + SECTOR then 0xFF else old0[p];
                   if addr <= p < addr + |data| then Programmed(was, data[p - addr]) else was
  }

  lemma Concludes(old0: seq<byte>, mem: seq<byte>, addr: nat, data: seq<byte>, e: nat, sure: bool)
    requires Confined(old0, mem, addr, data, e) && (sure ==> Exactly(old0, mem, addr, data, e))
    requires forall p | 0 <= p < |mem| :: Struck(addr, Reach(|data|), p) <==> e <= p < e + SECTOR
    ensures Chunked(old0, mem, addr, data) && (sure ==> Written(old0, mem, addr, data))
  {}

  // The sector that a write of at most a page erases, or the end of the memory.
  function ErasedBy(addr: nat, n: nat, size: nat): nat {
    if addr % SECTOR == 0 then addr
    else if addr % SECTOR + n > SECTOR then addr + n - (addr + n) % SECTOR
    else size
  }

  lemma StruckIs(addr: nat, n: nat, size: nat)
    requires n <= PAGE && addr + n <= size && size % SECTOR == 0 && addr < size
    ensures forall p | 0 <= p < size ::
              Struck(addr, Reach(n), p) <==> ErasedBy(addr, n, size) <= p < ErasedBy(addr, n, size) + SECTOR
  {
    forall p | 0 <= p < size
      ensures Struck(addr, Reach(n), p) <==> ErasedBy(addr, n, size) <= p < ErasedBy(addr, n, size) + SECTOR
    {
      StruckAt(addr, n, size, p);
    }
  }

  lemma StruckAt(addr: nat, n: nat, size: nat, p: nat)
    requires n <= PAGE && addr + n <= size && size % SECTOR == 0 && p < size && addr < size
    ensures Struck(addr, Reach(n), p) <==> ErasedBy(addr, n, size) <= p < ErasedBy(addr, n, size) + SECTOR
  {
    StruckParts(addr, n, p, addr / SECTOR, addr % SECTOR, p / SECTOR);
    if addr % SECTOR != 0 && addr % SECTOR + n > SECTOR {
      Straddles(addr, n, size);
    }
  }

  // Which sector starts lie in the octets written, in whole sectors.
  lemma StruckParts(addr: nat, n: nat, p: nat, qa: nat, ra: nat, qp: nat)
    requires addr == SECTOR * qa + ra && ra < SECTOR && SECTOR * qp <= p < SECTOR * (qp + 1) && n <= PAGE
    ensures ra == 0 ==> (addr <= SECTOR * qp < addr + Reach(n) <==> addr <= p < addr + SECTOR)
    ensures ra > 0 && ra + n > SECTOR ==>
              (addr <= SECTOR * qp < addr + Reach(n) <==> SECTOR * (qa + 1) <= p < SECTOR * (qa + 1) + SECTOR)
    ensures ra > 0 && ra + n <= SECTOR ==> !(addr <= SECTOR * qp < addr + Reach(n))
  {}

  lemma Straddles(addr: nat, n: nat, size: nat)
    requires n <= PAGE && addr % SECTOR + n > SECTOR && addr + n <= size && size % SECTOR == 0
    ensures 0 < (addr + n) % SECTOR < n && addr % SECTOR != 0
    ensures addr + n - (addr + n) % SECTOR == SECTOR * (addr / SECTOR + 1)
    ensures addr + n - (addr + n) % SECTOR + SECTOR <= size
  {
    var q := addr / SECTOR;
    assert addr + n == SECTOR * (q + 1) + (addr % SECTOR + n - SECTOR);
    assert (addr + n) % SECTOR == addr % SECTOR + n - SECTOR;
    var z := size / SECTOR;
    assert size == SECTOR * z;
    assert q + 1 < z;
  }

  // Only the octets written to and the rest of the sectors erased for them have changed.
  ghost predicate Chunked(old0: seq<byte>, mem: seq<byte>, addr: nat, data: seq<byte>) {
    && |mem| == |old0|
    && forall p | 0 <= p < |mem| && !(addr <= p < addr + |data|) && !Struck(addr, Reach(|data|), p) :: mem[p] == old0[p]
  }

  // Writing nothing at the start of a sector erases it all the same.
  function Reach(n: nat): nat { if n == 0 then 1 else n }

  // What a write does to a device that never fails.
  ghost predicate Written(old0: seq<byte>, mem: seq<byte>, addr: nat, data: seq<byte>) {
    && |mem| == |old0|
    && forall p | 0 <= p < |mem| ::
         mem[p] == var was := Base(old0, addr, Reach(|data|), p);
                   if addr <= p < addr + |data| then Programmed(was, data[p - addr]) else was
  }

  lemma InSector(addr: nat, size: nat)
    requires addr % SECTOR == 0 && addr < size && size % SECTOR == 0
    ensures addr + SECTOR <= size
  {}

  ghost predicate Holds(mem: seq<byte>, addr: nat, data: seq<byte>) {
    addr + |data| <= |mem| && mem[addr..addr + |data|] == data
  }

  lemma HoldsIff(old0: seq<byte>, mem: seq<byte>, addr: nat, data: seq<byte>)
    requires addr + |data| <= |old0| && Written(old0, mem, addr, data)
    ensures Holds(mem, addr, data) <==> Programmable(old0, addr, data)
  {
    forall p | addr <= p < addr + |data|
      ensures mem[p] == data[p - addr] <==> Fits(Base(old0, addr, |data|, p), data[p - addr])
    {}
    if Holds(mem, addr, data) {
      forall p | addr <= p < addr + |data|
        ensures Fits(Base(old0, addr, |data|, p), data[p - addr])
      {
        assert mem[addr..addr + |data|][p - addr] == mem[p];
      }
    }
  }

  // What the chunks written so far come to.
  ghost predicate Wrote(old0: seq<byte>, mem: seq<byte>, addr: nat, data: seq<byte>, sure: bool) {
    if |data| == 0 then mem == old0
    else
      && addr + |data| <= |old0| && Chunked(old0, mem, addr, data) && Holds(mem, addr, data)
      && (sure ==> Written(old0, mem, addr, data) && Programmable(old0, addr, data))
  }

  // A sector start in the second part is not before it: the first part stays.
  lemma StruckLater(addr: nat, n1: nat, n2: nat, p: nat)
    ensures Struck(addr, n1 + n2, p) <==> Struck(addr, n1, p) || Struck(addr + n1, n2, p)
    ensures p < addr + n1 ==> !Struck(addr + n1, n2, p)
  {}

  lemma ChunkedJoin(m0: seq<byte>, m1: seq<byte>, m2: seq<byte>, addr: nat, d1: seq<byte>, d2: seq<byte>)
    requires |d1| > 0 && |d2| > 0 && Chunked(m0, m1, addr, d1) && Chunked(m1, m2, addr + |d1|, d2)
    ensures Chunked(m0, m2, addr, d1 + d2)
    ensures forall p | addr <= p < addr + |d1| && p < |m0| :: m2[p] == m1[p]
  {
    forall p | 0 <= p < |m0| && !(addr <= p < addr + |d1 + d2|) && !Struck(addr, |d1 + d2|, p) ensures m2[p] == m0[p] {
      StruckLater(addr, |d1|, |d2|, p);
    }
    forall p | addr <= p < addr + |d1| && p < |m0| ensures m2[p] == m1[p] {
      StruckLater(addr, |d1|, |d2|, p);
    }
  }

  lemma WrittenJoin(m0: seq<byte>, m1: seq<byte>, m2: seq<byte>, addr: nat, d1: seq<byte>, d2: seq<byte>)
    requires |d1| > 0 && |d2| > 0 && addr + |d1| + |d2| <= |m0|
    requires Written(m0, m1, addr, d1) && Written(m1, m2, addr + |d1|, d2)
    ensures Written(m0, m2, addr, d1 + d2)
    ensures Programmable(m0, addr, d1 + d2) <==> Programmable(m0, addr, d1) && Programmable(m1, addr + |d1|, d2)
  {
    var d := d1 + d2;
    forall p | 0 <= p < |m0|
      ensures var was := Base(m0, addr, |d|, p);
              m2[p] == if addr <= p < addr + |d| then Programmed(was, d[p - addr]) else was
      ensures p < addr + |d1| ==> Base(m0, addr, |d|, p) == Base(m0, addr, |d1|, p)
      ensures p >= addr + |d1| ==> Base(m0, addr, |d|, p) == Base(m1, addr + |d1|, |d2|, p)
    {
      StruckLater(addr, |d1|, |d2|, p);
    }
    ProgrammableJoin(m0, m1, addr, d1, d2, d);
  }

  lemma ProgrammableJoin(m0: seq<byte>, m1: seq<byte>, addr: nat, d1: seq<byte>, d2: seq<byte>, d: seq<byte>)
    requires addr + |d1| + |d2| <= |m0| == |m1| && d == d1 + d2
    requires forall p | addr <= p < addr + |d1| :: Base(m0, addr, |d|, p) == Base(m0, addr, |d1|, p)
    requires forall p | addr + |d1| <= p < addr + |d| :: Base(m0, addr, |d|, p) == Base(m1, addr + |d1|, |d2|, p)
    ensures Programmable(m0, addr, d) <==> Programmable(m0, addr, d1) && Programmable(m1, addr + |d1|, d2)
  {
    if Programmable(m0, addr, d) {
      forall p | addr <= p < addr + |d1| ensures Fits(Base(m0, addr, |d1|, p), d1[p - addr]) {
        assert Fits(Base(m0, addr, |d|, p), d[p - addr]);
      }
      var a2 := addr + |d1|;
      forall p | a2 <= p < a2 + |d2| ensures Fits(Base(m1, a2, |d2|, p), d2[p - a2]) {
        assert Fits(Base(m0, addr, |d|, p), d[p - addr]);
      }
    }
    if Programmable(m0, addr, d1) && Programmable(m1, addr + |d1|, d2) {
      forall p | addr <= p < addr + |d| ensures Fits(Base(m0, addr, |d|, p), d[p - addr]) {
        if p < addr + |d1| {
          assert Fits(Base(m0, addr, |d1|, p), d1[p - addr]);
        } else {
          assert Fits(Base(m1, addr + |d1|, |d2|, p), d2[p - (addr + |d1|)]);
        }
      }
    }
  }

  lemma WroteStep(m0: seq<byte>, m1: seq<byte>, m2: seq<byte>, addr: nat, d1: seq<byte>, d2: seq<byte>, sure: bool)
    requires |d2| > 0 && addr + |d1| + |d2| <= |m0| && Wrote(m0, m1, addr, d1, sure)
    requires Chunked(m1, m2, addr + |d1|, d2) && (sure ==> Written(m1, m2, addr + |d1|, d2))
    ensures Chunked(m0, m2, addr, d1 + d2)
    ensures sure ==> Written(m0, m2, addr, d1 + d2)
    ensures sure ==> (Programmable(m0, addr, d1 + d2) <==> Programmable(m1, addr + |d1|, d2))
    ensures Holds(m2, addr + |d1|, d2) ==> Holds(m2, addr, d1 + d2)
  {
    if |d1| == 0 {
      assert d1 + d2 == d2;
    } else {
      ChunkedJoin(m0, m1, m2, addr, d1, d2);
      if sure { WrittenJoin(m0, m1, m2, addr, d1, d2); }
      assert m2[addr..addr + |d1|] == m1[addr..addr + |d1|];
      assert m2[addr..addr + |d1 + d2|] == m2[addr..addr + |d1|] + m2[addr + |d1|..addr + |d1| + |d2|];
    }
  }

  lemma WroteNext(m0: seq<byte>, m1: seq<byte>, m2: seq<byte>, addr: nat, data: seq<byte>, d1: seq<byte>, d2: seq<byte>,
                  k: nat, sure: bool, ok: bool)
    requires |d2| > 0 && addr + |data| <= |m0| && Wrote(m0, m1, addr, d1, sure) && d1 + d2 <= data && k == |d1 + d2|
    requires Chunked(m1, m2, addr + |d1|, d2) && (ok ==> Holds(m2, addr + |d1|, d2))
    requires sure ==> Written(m1, m2, addr + |d1|, d2) && (ok <==> Programmable(m1, addr + |d1|, d2))
    ensures if ok then Wrote(m0, m2, addr, data[..k], sure)
            else Chunked(m0, m2, addr, data) && (sure ==> !Programmable(m0, addr, data))
  {
    assert data[..k] == d1 + d2;
    WroteStep(m0, m1, m2, addr, d1, d2, sure);
    if !ok { Prefix(m0, m2, addr, data, k); }
  }

  // What holds of a part of the data: no more has changed than the whole may change, and if the whole can be left in
  // the flash, so can the part.
  lemma Prefix(m0: seq<byte>, mem: seq<byte>, addr: nat, data: seq<byte>, k: nat)
    requires 0 < k <= |data| && addr + |data| <= |m0| && Chunked(m0, mem, addr, data[..k])
    ensures Chunked(m0, mem, addr, data)
    ensures Programmable(m0, addr, data) ==> Programmable(m0, addr, data[..k])
  {
    if Programmable(m0, addr, data) {
      forall p | addr <= p < addr + k ensures Fits(Base(m0, addr, k, p), data[..k][p - addr]) {
        assert Fits(Base(m0, addr, |data|, p), data[p - addr]);
      }
    }
  }
}
