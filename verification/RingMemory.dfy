/** The rings as raw mapped bytes, in one shared mapping or two, and the client's code on them. */
module RingMemory {
  import opened Words
  import opened RingMachine

  const SQE_SIZE := 64
  const CQE_SIZE := 16

  // ---- the kernel's structures, byte by byte ----

  function EncodeSqe(e: Endian, s: Sqe): (b: seq<Byte>)
    ensures |b| == SQE_SIZE
  {
    ([s.opcode, s.flags] + Put(e, 2, s.ioPrio) + Put(e, 4, I32ToU32(s.fd)))
    + Put(e, 8, s.off) + Put(e, 8, s.addr) + (Put(e, 4, s.len) + Put(e, 4, s.rwFlags)) + Put(e, 8, s.userData)
    + (Put(e, 2, s.bufIndex) + Put(e, 2, s.personality) + Put(e, 4, I32ToU32(s.spliceFd)))
    + Put(e, 8, s.addr3) + Put(e, 8, s.pad2)
  }

  function DecodeSqe(e: Endian, b: seq<Byte>): Sqe
    requires |b| == SQE_SIZE
  {
    Sqe(b[0], b[1], LoadU16(e, b, 2), U32ToI32(LoadU32(e, b, 4)), LoadU64(e, b, 8), LoadU64(e, b, 16),
        LoadU32(e, b, 24), LoadU32(e, b, 28), LoadU64(e, b, 32), LoadU16(e, b, 40), LoadU16(e, b, 42),
        U32ToI32(LoadU32(e, b, 44)), LoadU64(e, b, 48), LoadU64(e, b, 56))
  }

  lemma LoadPut(e: Endian, w: nat, b: seq<Byte>, off: nat, v: nat)
    requires off + w <= |b| && v < Span(w) && b[off..off + w] == Put(e, w, v)
    ensures Load(e, w, b, off) == v
  {
    GetPut(e, w, v);
  }

  /** The eight 8-byte words of the struct, cut out of its bytes. */
  lemma SqeWords(e: Endian, s: Sqe)
    ensures var b := EncodeSqe(e, s);
            && b[0] == s.opcode && b[1] == s.flags && b[2..4] == Put(e, 2, s.ioPrio)
            && b[4..8] == Put(e, 4, I32ToU32(s.fd))
            && b[8..16] == Put(e, 8, s.off) && b[16..24] == Put(e, 8, s.addr)
            && b[24..28] == Put(e, 4, s.len) && b[28..32] == Put(e, 4, s.rwFlags) && b[32..40] == Put(e, 8, s.userData)
            && b[40..42] == Put(e, 2, s.bufIndex) && b[42..44] == Put(e, 2, s.personality)
            && b[44..48] == Put(e, 4, I32ToU32(s.spliceFd)) && b[48..56] == Put(e, 8, s.addr3)
            && b[56..64] == Put(e, 8, s.pad2)
  {
    hide Put;
  }

  /** The struct written through *sqeAt reads back field by field. */
  lemma DecodeEncodeSqe(e: Endian, s: Sqe)
    ensures DecodeSqe(e, EncodeSqe(e, s)) == s
  {
    hide Put, Get, EncodeSqe;
    SpanValues();
    SqeWords(e, s);
    var b := EncodeSqe(e, s);
    LoadPut(e, 2, b, 2, s.ioPrio);
    LoadPut(e, 4, b, 4, I32ToU32(s.fd));
    LoadPut(e, 8, b, 8, s.off);
    LoadPut(e, 8, b, 16, s.addr);
    LoadPut(e, 4, b, 24, s.len);
    LoadPut(e, 4, b, 28, s.rwFlags);
    LoadPut(e, 8, b, 32, s.userData);
    LoadPut(e, 2, b, 40, s.bufIndex);
    LoadPut(e, 2, b, 42, s.personality);
    LoadPut(e, 4, b, 44, I32ToU32(s.spliceFd));
    LoadPut(e, 8, b, 48, s.addr3);
    LoadPut(e, 8, b, 56, s.pad2);
  }

  function DecodeCqe(e: Endian, b: seq<Byte>): Cqe
    requires |b| == CQE_SIZE
  {
    Cqe(LoadU64(e, b, 0), U32ToI32(LoadU32(e, b, 8)), LoadU32(e, b, 12))
  }

  // ---- the mappings ----

  const FEAT_SINGLE_MMAP := 1

  datatype SqOffsets = SqOffsets(head: U32, tail: U32, ringMask: U32, ringEntries: U32, index: U32)

  datatype CqOffsets = CqOffsets(head: U32, tail: U32, ringMask: U32, cqes: U32)

  datatype Params = Params(sqEntries: U32, cqEntries: U32, features: U32, sqOff: SqOffsets, cqOff: CqOffsets)

  predicate SingleMmap(p: Params) { And(p.features, FEAT_SINGLE_MMAP) != 0 }

  /** The kernel offers one mapping for both rings in the lowest bit of the features word. */
  lemma SingleMmapIs(p: Params)
    ensures SingleMmap(p) <==> p.features % 2 == 1
  {
    AndMask(p.features, 1);
    assert Pow2(1) == 2 * Pow2(0) == 2;
  }

  function SqSize(p: Params): nat { p.sqOff.index + p.sqEntries * 4 }

  function CqSize(p: Params): nat { p.cqOff.cqes + p.cqEntries * CQE_SIZE }

  function MaxInt(a: nat, b: nat): nat { if a > b then a else b }

  /** The lengths asked of mmap for the two rings. */
  function SqRingLen(p: Params): nat { if SingleMmap(p) then MaxInt(SqSize(p), CqSize(p)) else SqSize(p) }

  function CqRingLen(p: Params): nat { if SingleMmap(p) then MaxInt(SqSize(p), CqSize(p)) else CqSize(p) }

  datatype Region = Region(start: nat, len: nat)

  predicate Beside(a: Region, b: Region) { a.start + a.len <= b.start || b.start + b.len <= a.start }

  function SqRegions(p: Params): seq<Region> {
    [Region(p.sqOff.head, 4), Region(p.sqOff.tail, 4), Region(p.sqOff.ringMask, 4), Region(p.sqOff.ringEntries, 4),
     Region(p.sqOff.index, p.sqEntries * 4)]
  }

  function CqRegions(p: Params): seq<Region> {
    [Region(p.cqOff.head, 4), Region(p.cqOff.tail, 4), Region(p.cqOff.ringMask, 4),
     Region(p.cqOff.cqes, p.cqEntries * CQE_SIZE)]
  }

  ghost predicate PairwiseBeside(rs: seq<Region>) {
    forall i, j :: 0 <= i < j < |rs| ==> Beside(rs[i], rs[j])
  }

  ghost predicate Inside(rs: seq<Region>, size: nat) {
    forall i :: 0 <= i < |rs| ==> rs[i].start + rs[i].len <= size
  }

  /** What io_uring_setup promises about the offsets it returns. A uint32 offset reaches every
      word of the submission ring. */
  ghost predicate KernelLayout(p: Params) {
    && IsRingSize(p.sqEntries) && IsRingSize(p.cqEntries)
    && Inside(SqRegions(p), SqSize(p)) && Inside(CqRegions(p), CqSize(p)) && SqSize(p) <= B32
    && if SingleMmap(p) then PairwiseBeside(SqRegions(p) + CqRegions(p))
       else PairwiseBeside(SqRegions(p)) && PairwiseBeside(CqRegions(p))
  }

  /** The bytes of the three mappings; with one shared mapping both rings are the same bytes. */
  datatype Mem = Mem(sq: seq<Byte>, cq: seq<Byte>, sqes: seq<Byte>)

  ghost predicate Sized(p: Params, m: Mem) {
    && |m.sq| == SqRingLen(p) && |m.cq| == CqRingLen(p) && |m.sqes| == p.sqEntries * SQE_SIZE
    && (SingleMmap(p) ==> m.sq == m.cq)
  }

  /** The kernel never changes the mask and size words. */
  ghost predicate Mapped(e: Endian, p: Params, m: Mem) {
    && KernelLayout(p) && Sized(p, m)
    && WordsInside(p, m)
    && LoadU32(e, m.sq, p.sqOff.ringMask) == p.sqEntries - 1
    && LoadU32(e, m.sq, p.sqOff.ringEntries) == p.sqEntries
    && LoadU32(e, m.cq, p.cqOff.ringMask) == p.cqEntries - 1
  }

  /** Every word the client loads or stores lies inside its mapping. */
  predicate WordsInside(p: Params, m: Mem) {
    && p.sqOff.head + 4 <= |m.sq| && p.sqOff.tail + 4 <= |m.sq| && p.sqOff.ringMask + 4 <= |m.sq|
    && p.sqOff.ringEntries + 4 <= |m.sq| && p.sqOff.index + p.sqEntries * 4 <= |m.sq|
    && p.cqOff.head + 4 <= |m.cq| && p.cqOff.tail + 4 <= |m.cq| && p.cqOff.ringMask + 4 <= |m.cq|
    && p.cqOff.cqes + p.cqEntries * CQE_SIZE <= |m.cq| && p.sqEntries * SQE_SIZE <= |m.sqes|
  }

  /** The sizes computed for mmap cover every access, in both layouts. */
  lemma SizesCoverAccesses(p: Params, m: Mem)
    requires KernelLayout(p) && Sized(p, m)
    ensures WordsInside(p, m)
  {
    var s, c := SqRegions(p), CqRegions(p);
    assert forall i :: 0 <= i < 5 ==> s[i].start + s[i].len <= SqSize(p);
    assert s[0].start + s[0].len <= SqSize(p) && s[1].start + s[1].len <= SqSize(p);
    assert s[2].start + s[2].len <= SqSize(p) && s[3].start + s[3].len <= SqSize(p);
    assert c[0].start + c[0].len <= CqSize(p) && c[1].start + c[1].len <= CqSize(p);
    assert c[2].start + c[2].len <= CqSize(p);
  }

  /** The uint32 offset of an index-array slot does not wrap. */
  lemma ArrayOffsetExact(p: Params, slot: U32)
    requires KernelLayout(p) && slot < p.sqEntries
    ensures WrapAdd(p.sqOff.index, WrapMul(slot, 4)) == p.sqOff.index + slot * 4
  {}

  // ---- the typed ring the bytes stand for ----

  function View(e: Endian, p: Params, m: Mem): Ring
    requires WordsInside(p, m)
  {
    Ring(LoadU32(e, m.sq, p.sqOff.head), LoadU32(e, m.sq, p.sqOff.tail),
         LoadU32(e, m.sq, p.sqOff.ringMask), LoadU32(e, m.sq, p.sqOff.ringEntries),
         seq(p.sqEntries, i requires 0 <= i < p.sqEntries => LoadU32(e, m.sq, p.sqOff.index + i * 4)),
         seq(p.sqEntries, i requires 0 <= i < p.sqEntries => SqeIn(e, m.sqes, i)),
         LoadU32(e, m.cq, p.cqOff.head), LoadU32(e, m.cq, p.cqOff.tail),
         LoadU32(e, m.cq, p.cqOff.ringMask),
         seq(p.cqEntries, i requires 0 <= i < p.cqEntries => CqeIn(e, m.cq, p.cqOff.cqes, i)))
  }

  function SqeIn(e: Endian, sqes: seq<Byte>, i: nat): Sqe
    requires (i + 1) * SQE_SIZE <= |sqes|
  {
    DecodeSqe(e, sqes[i * SQE_SIZE..(i + 1) * SQE_SIZE])
  }

  function CqeIn(e: Endian, cq: seq<Byte>, base: nat, i: nat): Cqe
    requires base + (i + 1) * CQE_SIZE <= |cq|
  {
    DecodeCqe(e, cq[base + i * CQE_SIZE..base + (i + 1) * CQE_SIZE])
  }

  lemma ViewIsWf(e: Endian, p: Params, m: Mem)
    requires Mapped(e, p, m)
    ensures Wf(View(e, p, m))
  {
    hide And, Get;
  }

  // ---- stores through the mappings ----

  function StoreSq(p: Params, m: Mem, off: nat, x: seq<Byte>): Mem
    requires off + |x| <= |m.sq|
  {
    var sq := Patch(m.sq, off, x);
    Mem(sq, if SingleMmap(p) then sq else m.cq, m.sqes)
  }

  function StoreCq(p: Params, m: Mem, off: nat, x: seq<Byte>): Mem
    requires off + |x| <= |m.cq|
  {
    var cq := Patch(m.cq, off, x);
    Mem(if SingleMmap(p) then cq else m.sq, cq, m.sqes)
  }

  function StoreSqe(m: Mem, slot: nat, x: seq<Byte>): Mem
    requires |x| == SQE_SIZE && (slot + 1) * SQE_SIZE <= |m.sqes|
  {
    m.(sqes := Patch(m.sqes, slot * SQE_SIZE, x))
  }

  lemma LoadBeside(e: Endian, b: seq<Byte>, off: nat, x: seq<Byte>, o: nat)
    requires off + |x| <= |b| && o + 4 <= |b| && Beside(Region(off, |x|), Region(o, 4))
    ensures LoadU32(e, Patch(b, off, x), o) == LoadU32(e, b, o)
  {
    SliceBeside(b, off, x, o, o + 4);
  }

  /** A store inside one region of a ring is beside every other region. */
  lemma RegionUntouched(rs: seq<Region>, k: nat, j: nat, s: Region)
    requires PairwiseBeside(rs) && k < |rs| && j < |rs| && j != k
    requires rs[k].start <= s.start && s.start + s.len <= rs[k].start + rs[k].len
    ensures Beside(s, rs[j])
  {
    if k < j {
      assert Beside(rs[k], rs[j]);
    } else {
      assert Beside(rs[j], rs[k]);
    }
  }

  /** Region s lies inside region k of the ring whose regions are rs. */
  predicate Within(rs: seq<Region>, k: nat, s: Region) {
    k < |rs| && rs[k].start <= s.start && s.start + s.len <= rs[k].start + rs[k].len
  }

  lemma SqStoreIsBeside(p: Params, k: nat, s: Region)
    requires KernelLayout(p) && Within(SqRegions(p), k, s)
    ensures forall j: nat :: j < 5 && j != k ==> Beside(s, SqRegions(p)[j])
    ensures SingleMmap(p) ==> forall j: nat :: j < 4 ==> Beside(s, CqRegions(p)[j])
  {
    hide IsRingSize;
    var rs := if SingleMmap(p) then SqRegions(p) + CqRegions(p) else SqRegions(p);
    assert rs[k] == SqRegions(p)[k];
    forall j: nat | j < 5 && j != k ensures Beside(s, SqRegions(p)[j]) {
      assert rs[j] == SqRegions(p)[j];
      RegionUntouched(rs, k, j, s);
    }
    if SingleMmap(p) {
      forall j: nat | j < 4 ensures Beside(s, CqRegions(p)[j]) {
        assert rs[5 + j] == CqRegions(p)[j];
        RegionUntouched(rs, k, 5 + j, s);
      }
    }
  }

  lemma CqStoreIsBeside(p: Params, k: nat, s: Region)
    requires KernelLayout(p) && Within(CqRegions(p), k, s)
    ensures forall j: nat :: j < 4 && j != k ==> Beside(s, CqRegions(p)[j])
    ensures SingleMmap(p) ==> forall j: nat :: j < 5 ==> Beside(s, SqRegions(p)[j])
  {
    hide IsRingSize;
    var rs := if SingleMmap(p) then SqRegions(p) + CqRegions(p) else CqRegions(p);
    var base := if SingleMmap(p) then 5 else 0;
    assert rs[base + k] == CqRegions(p)[k];
    forall j: nat | j < 4 && j != k ensures Beside(s, CqRegions(p)[j]) {
      assert rs[base + j] == CqRegions(p)[j];
      RegionUntouched(rs, base + k, base + j, s);
    }
    if SingleMmap(p) {
      forall j: nat | j < 5 ensures Beside(s, SqRegions(p)[j]) {
        assert rs[j] == SqRegions(p)[j];
        RegionUntouched(rs, base + k, j, s);
      }
    }
  }

  /** The words of the submission ring survive a store beside them. */
  lemma SqWordsSurvive(e: Endian, p: Params, m: Mem, m': Mem, off: nat, x: seq<Byte>)
    requires WordsInside(p, m) && off + |x| <= |m.sq| && m'.sq == Patch(m.sq, off, x)
    ensures var r := SqRegions(p); var s := Region(off, |x|);
            && (Beside(s, r[0]) ==> LoadU32(e, m'.sq, p.sqOff.head) == LoadU32(e, m.sq, p.sqOff.head))
            && (Beside(s, r[1]) ==> LoadU32(e, m'.sq, p.sqOff.tail) == LoadU32(e, m.sq, p.sqOff.tail))
            && (Beside(s, r[2]) ==> LoadU32(e, m'.sq, p.sqOff.ringMask) == LoadU32(e, m.sq, p.sqOff.ringMask))
            && (Beside(s, r[3]) ==> LoadU32(e, m'.sq, p.sqOff.ringEntries) == LoadU32(e, m.sq, p.sqOff.ringEntries))
    ensures var s := Region(off, |x|);
            Beside(s, SqRegions(p)[4]) ==>
              forall i: nat :: i < p.sqEntries ==>
                LoadU32(e, m'.sq, p.sqOff.index + i * 4) == LoadU32(e, m.sq, p.sqOff.index + i * 4)
  {
    hide Get;
    forall o: nat | o + 4 <= |m.sq| && Beside(Region(off, |x|), Region(o, 4))
      ensures LoadU32(e, m'.sq, o) == LoadU32(e, m.sq, o)
    {
      LoadBeside(e, m.sq, off, x, o);
    }
  }

  lemma CqWordsSurvive(e: Endian, p: Params, m: Mem, m': Mem, off: nat, x: seq<Byte>)
    requires WordsInside(p, m) && off + |x| <= |m.cq| && m'.cq == Patch(m.cq, off, x)
    ensures var r := CqRegions(p); var s := Region(off, |x|);
            && (Beside(s, r[0]) ==> LoadU32(e, m'.cq, p.cqOff.head) == LoadU32(e, m.cq, p.cqOff.head))
            && (Beside(s, r[1]) ==> LoadU32(e, m'.cq, p.cqOff.tail) == LoadU32(e, m.cq, p.cqOff.tail))
            && (Beside(s, r[2]) ==> LoadU32(e, m'.cq, p.cqOff.ringMask) == LoadU32(e, m.cq, p.cqOff.ringMask))
    ensures var s := Region(off, |x|);
            Beside(s, CqRegions(p)[3]) ==>
              forall i: nat :: i < p.cqEntries ==>
                CqeIn(e, m'.cq, p.cqOff.cqes, i) == CqeIn(e, m.cq, p.cqOff.cqes, i)
  {
    hide Get;
    forall o: nat | o + 4 <= |m.cq| && Beside(Region(off, |x|), Region(o, 4))
      ensures LoadU32(e, m'.cq, o) == LoadU32(e, m.cq, o)
    {
      LoadBeside(e, m.cq, off, x, o);
    }
    if Beside(Region(off, |x|), CqRegions(p)[3]) {
      forall i: nat | i < p.cqEntries
        ensures CqeIn(e, m'.cq, p.cqOff.cqes, i) == CqeIn(e, m.cq, p.cqOff.cqes, i)
      {
        SliceBeside(m.cq, off, x, p.cqOff.cqes + i * CQE_SIZE, p.cqOff.cqes + (i + 1) * CQE_SIZE);
      }
    }
  }

  /** A store into region k of the submission ring leaves the completion ring alone ... */
  lemma SqStoreKeepsCq(e: Endian, p: Params, m: Mem, k: nat, off: nat, x: seq<Byte>)
    requires Mapped(e, p, m) && Within(SqRegions(p), k, Region(off, |x|)) && k < 5
    ensures off + |x| <= |m.sq|
    ensures var m' := StoreSq(p, m, off, x);
            && LoadU32(e, m'.cq, p.cqOff.head) == LoadU32(e, m.cq, p.cqOff.head)
            && LoadU32(e, m'.cq, p.cqOff.tail) == LoadU32(e, m.cq, p.cqOff.tail)
            && LoadU32(e, m'.cq, p.cqOff.ringMask) == LoadU32(e, m.cq, p.cqOff.ringMask)
            && forall i: nat :: i < p.cqEntries ==>
                 CqeIn(e, m'.cq, p.cqOff.cqes, i) == CqeIn(e, m.cq, p.cqOff.cqes, i)
  {
    hide Get, And, IsRingSize, DecodeCqe;
    assert off + |x| <= |m.sq|;
    if SingleMmap(p) {
      SqStoreIsBeside(p, k, Region(off, |x|));
      CqWordsSurvive(e, p, m, StoreSq(p, m, off, x), off, x);
    }
  }

  /** ... and every other word of its own ring. */
  lemma SqStoreFrame(e: Endian, p: Params, m: Mem, k: nat, off: nat, x: seq<Byte>)
    requires Mapped(e, p, m) && Within(SqRegions(p), k, Region(off, |x|)) && (k < 2 || k == 4)
    ensures off + |x| <= |m.sq|
    ensures var m' := StoreSq(p, m, off, x); Mapped(e, p, m')
    ensures var v, v' := View(e, p, m), View(e, p, StoreSq(p, m, off, x));
            v'.(sqHead := 0, sqTail := 0, index := []) == v.(sqHead := 0, sqTail := 0, index := [])
            && (k != 0 ==> v'.sqHead == v.sqHead) && (k != 1 ==> v'.sqTail == v.sqTail)
            && (k != 4 ==> v'.index == v.index)
  {
    hide Get, And, IsRingSize, LoadU32, CqeIn, SqeIn;
    SqStoreKeepsCq(e, p, m, k, off, x);
    var m' := StoreSq(p, m, off, x);
    SqStoreIsBeside(p, k, Region(off, |x|));
    SqWordsSurvive(e, p, m, m', off, x);
    hide PairwiseBeside, Inside, Beside;
    var v, v' := View(e, p, m), View(e, p, m');
    assert v'.cqes == v.cqes && v'.sqes == v.sqes;
    assert k != 4 ==> v'.index == v.index;
  }

  /** Storing an index-array slot changes that slot and nothing else, in both layouts. */
  lemma StoreIndexView(e: Endian, p: Params, m: Mem, slot: U32, v: U32)
    requires Mapped(e, p, m) && slot < p.sqEntries
    ensures var m' := StoreSq(p, m, p.sqOff.index + slot * 4, Put(e, 4, v));
            Mapped(e, p, m') && View(e, p, m') == View(e, p, m).(index := View(e, p, m).index[slot := v])
  {
    hide Get, Put, And, IsRingSize;
    var off, x := p.sqOff.index + slot * 4, Put(e, 4, v);
    var m' := StoreSq(p, m, off, x);
    SqStoreFrame(e, p, m, 4, off, x);
    SpanValues();
    LoadStore(e, 4, m.sq, off, v);
    forall i: nat | i < p.sqEntries && i != slot
      ensures LoadU32(e, m'.sq, p.sqOff.index + i * 4) == LoadU32(e, m.sq, p.sqOff.index + i * 4)
    {
      LoadBeside(e, m.sq, off, x, p.sqOff.index + i * 4);
    }
    assert View(e, p, m').index == View(e, p, m).index[slot := v];
  }

  lemma StoreTailView(e: Endian, p: Params, m: Mem, v: U32)
    requires Mapped(e, p, m)
    ensures var m' := StoreSq(p, m, p.sqOff.tail, Put(e, 4, v));
            Mapped(e, p, m') && View(e, p, m') == View(e, p, m).(sqTail := v)
  {
    hide Get, Put, And, IsRingSize;
    SqStoreFrame(e, p, m, 1, p.sqOff.tail, Put(e, 4, v));
    SpanValues();
    LoadStore(e, 4, m.sq, p.sqOff.tail, v);
  }

  /** The kernel advancing the SQ head likewise. */
  lemma StoreSqHeadView(e: Endian, p: Params, m: Mem, v: U32)
    requires Mapped(e, p, m)
    ensures var m' := StoreSq(p, m, p.sqOff.head, Put(e, 4, v));
            Mapped(e, p, m') && View(e, p, m') == View(e, p, m).(sqHead := v)
  {
    hide Get, Put, And, IsRingSize;
    SqStoreFrame(e, p, m, 0, p.sqOff.head, Put(e, 4, v));
    SpanValues();
    LoadStore(e, 4, m.sq, p.sqOff.head, v);
  }

  /** A store into region k of the completion ring leaves the submission ring and every other word
      of its own ring alone. */
  lemma CqStoreFrame(e: Endian, p: Params, m: Mem, k: nat, off: nat, x: seq<Byte>)
    requires Mapped(e, p, m) && Within(CqRegions(p), k, Region(off, |x|)) && (k < 2 || k == 3)
    ensures off + |x| <= |m.cq|
    ensures var m' := StoreCq(p, m, off, x); Mapped(e, p, m')
    ensures var v, v' := View(e, p, m), View(e, p, StoreCq(p, m, off, x));
            v'.(cqHead := 0, cqTail := 0, cqes := []) == v.(cqHead := 0, cqTail := 0, cqes := [])
            && (k != 0 ==> v'.cqHead == v.cqHead) && (k != 1 ==> v'.cqTail == v.cqTail)
            && (k != 3 ==> v'.cqes == v.cqes)
  {
    hide Get, And, IsRingSize, LoadU32, CqeIn, SqeIn;
    assert off + |x| <= |m.cq|;
    var m' := StoreCq(p, m, off, x);
    CqStoreIsBeside(p, k, Region(off, |x|));
    CqWordsSurvive(e, p, m, m', off, x);
    if SingleMmap(p) {
      SqWordsSurvive(e, p, m, m', off, x);
    }
    hide PairwiseBeside, Inside, Beside;
    var v, v' := View(e, p, m), View(e, p, m');
    assert v'.index == v.index && v'.sqes == v.sqes;
    assert k != 3 ==> v'.cqes == v.cqes;
  }

  /** Advancing the CQ head changes that word and nothing else, in both layouts. */
  lemma StoreCqHeadView(e: Endian, p: Params, m: Mem, v: U32)
    requires Mapped(e, p, m)
    ensures var m' := StoreCq(p, m, p.cqOff.head, Put(e, 4, v));
            Mapped(e, p, m') && View(e, p, m') == View(e, p, m).(cqHead := v)
  {
    hide Get, Put, And, IsRingSize;
    CqStoreFrame(e, p, m, 0, p.cqOff.head, Put(e, 4, v));
    SpanValues();
    LoadStore(e, 4, m.cq, p.cqOff.head, v);
  }

  /** The kernel advancing the CQ tail likewise ... */
  lemma StoreCqTailView(e: Endian, p: Params, m: Mem, v: U32)
    requires Mapped(e, p, m)
    ensures var m' := StoreCq(p, m, p.cqOff.tail, Put(e, 4, v));
            Mapped(e, p, m') && View(e, p, m') == View(e, p, m).(cqTail := v)
  {
    hide Get, Put, And, IsRingSize;
    CqStoreFrame(e, p, m, 1, p.cqOff.tail, Put(e, 4, v));
    SpanValues();
    LoadStore(e, 4, m.cq, p.cqOff.tail, v);
  }

  function EncodeCqe(e: Endian, c: Cqe): (b: seq<Byte>)
    ensures |b| == CQE_SIZE
  {
    Put(e, 8, c.userData) + Put(e, 4, I32ToU32(c.res)) + Put(e, 4, c.flags)
  }

  lemma DecodeEncodeCqe(e: Endian, c: Cqe)
    ensures DecodeCqe(e, EncodeCqe(e, c)) == c
  {
    hide Put, Get;
    SpanValues();
    var b := EncodeCqe(e, c);
    assert b[0..8] == Put(e, 8, c.userData) && b[8..12] == Put(e, 4, I32ToU32(c.res));
    assert b[12..16] == Put(e, 4, c.flags);
    LoadPut(e, 8, b, 0, c.userData);
    LoadPut(e, 4, b, 8, I32ToU32(c.res));
    LoadPut(e, 4, b, 12, c.flags);
  }

  /** ... and writing a completion: that slot changes and nothing else. */
  lemma StoreCqeView(e: Endian, p: Params, m: Mem, slot: nat, cqe: Cqe)
    requires Mapped(e, p, m) && slot < p.cqEntries
    ensures p.cqOff.cqes + (slot + 1) * CQE_SIZE <= |m.cq|
    ensures var m' := StoreCq(p, m, p.cqOff.cqes + slot * CQE_SIZE, EncodeCqe(e, cqe));
            Mapped(e, p, m') && View(e, p, m') == View(e, p, m).(cqes := View(e, p, m).cqes[slot := cqe])
  {
    hide Get, Put, And, IsRingSize, EncodeCqe, DecodeCqe;
    var base, off, x := p.cqOff.cqes, p.cqOff.cqes + slot * CQE_SIZE, EncodeCqe(e, cqe);
    CqStoreFrame(e, p, m, 3, off, x);
    var m' := StoreCq(p, m, off, x);
    DecodeEncodeCqe(e, cqe);
    assert m'.cq[base + slot * CQE_SIZE..base + (slot + 1) * CQE_SIZE] == x;
    forall i: nat | i < p.cqEntries && i != slot ensures CqeIn(e, m'.cq, base, i) == CqeIn(e, m.cq, base, i) {
      SliceBeside(m.cq, off, x, base + i * CQE_SIZE, base + (i + 1) * CQE_SIZE);
    }
    assert View(e, p, m').cqes == View(e, p, m).cqes[slot := cqe];
  }

  /** Writing an SQE through *sqeAt changes that slot and nothing else. */
  lemma StoreSqeView(e: Endian, p: Params, m: Mem, slot: nat, sqe: Sqe)
    requires Mapped(e, p, m) && slot < p.sqEntries
    ensures (slot + 1) * SQE_SIZE <= |m.sqes|
    ensures var m' := StoreSqe(m, slot, EncodeSqe(e, sqe));
            Mapped(e, p, m') && View(e, p, m') == View(e, p, m).(sqes := View(e, p, m).sqes[slot := sqe])
  {
    hide Get, Put, And, IsRingSize, EncodeSqe, DecodeSqe;
    var x := EncodeSqe(e, sqe);
    assert (slot + 1) * SQE_SIZE <= |m.sqes|;
    var m' := StoreSqe(m, slot, x);
    DecodeEncodeSqe(e, sqe);
    assert m'.sqes[slot * SQE_SIZE..(slot + 1) * SQE_SIZE] == x;
    forall i: nat | i < p.sqEntries && i != slot ensures SqeIn(e, m'.sqes, i) == SqeIn(e, m.sqes, i) {
      SliceBeside(m.sqes, slot * SQE_SIZE, x, i * SQE_SIZE, (i + 1) * SQE_SIZE);
    }
    assert View(e, p, m').sqes == View(e, p, m).sqes[slot := sqe];
  }

  // ---- the bytes of a call, in numbers ----

  /** A completion lies at this offset: user data, result in two's complement, and flags. */
  ghost predicate CompletionAt(e: Endian, b: seq<Byte>, at: nat, c: Cqe) {
    && at + 16 <= |b| && b[at..at + 8] == Put(e, 8, c.userData)
    && b[at + 8..at + 12] == Put(e, 4, if c.res < 0 then c.res + 0x1_0000_0000 else c.res)
    && b[at + 12..at + 16] == Put(e, 4, c.flags)
  }

  lemma CqeInIsAt(e: Endian, cq: seq<Byte>, base: nat, i: nat)
    requires base + (i + 1) * 16 <= |cq|
    ensures CompletionAt(e, cq, base + 16 * i, CqeIn(e, cq, base, i))
  {
    hide Put, Get;
    var at := base + 16 * i;
    var b := cq[at..at + 16];
    SpanValues();
    PutGet(e, b[0..8]);
    PutGet(e, b[8..12]);
    PutGet(e, b[12..16]);
    assert cq[at..at + 8] == b[0..8] && cq[at + 8..at + 12] == b[8..12] && cq[at + 12..at + 16] == b[12..16];
  }

  /** What a kernel that follows the structure writes is found there. */
  lemma EncodeCqeIsAt(e: Endian, c: Cqe)
    ensures CompletionAt(e, EncodeCqe(e, c), 0, c)
  {
    hide Put;
  }

  /** The position of a count in a ring of n entries. */
  function Position(count: nat, n: nat): (slot: nat)
    requires n > 0
    ensures slot < n
  {
    count % n
  }

  /** Reaping on the bytes of the completion ring. */
  ghost predicate Reaped(e: Endian, p: Params, cq: seq<Byte>, r: Result<Cqe, CallError>, cq': seq<Byte>)
    requires p.cqOff.head + 4 <= |cq| && p.cqOff.tail + 4 <= |cq| && p.cqEntries > 0
  {
    var h := p.cqOff.head;
    var head, tail := Get(e, cq[h..h + 4]), Get(e, cq[p.cqOff.tail..p.cqOff.tail + 4]);
    if head == tail then r == Err(QueueEmpty) && cq' == cq
    else
      && r.Ok? && CompletionAt(e, cq, p.cqOff.cqes + 16 * Position(head, p.cqEntries), r.value)
      && cq' == Patch(cq, h, Put(e, 4, (head + 1) % 0x1_0000_0000))
  }

  lemma SlotIs(w: U32, mask: U32, n: nat)
    requires IsRingSize(n) && mask == n - 1
    ensures n > 0 && And(w, mask) == Position(w, n)
  {
    assert w % B32 == w;
    WrappedSlot(w, n);
  }

  /** The slots of both rings at any counter. */
  lemma SlotsAre(e: Endian, p: Params, m: Mem, w: U32)
    requires Mapped(e, p, m)
    ensures WordsInside(p, m) && p.sqEntries > 0 && p.cqEntries > 0
    ensures LoadU32(e, m.sq, p.sqOff.ringEntries) == p.sqEntries
    ensures And(w, LoadU32(e, m.sq, p.sqOff.ringMask)) == Position(w, p.sqEntries)
    ensures And(w, LoadU32(e, m.cq, p.cqOff.ringMask)) == Position(w, p.cqEntries)
  {
    SlotIs(w, p.sqEntries - 1, p.sqEntries);
    SlotIs(w, p.cqEntries - 1, p.cqEntries);
    hide And, LoadU32, IsRingSize, Inside, PairwiseBeside, Sized, SingleMmap, Position;
  }

  lemma WordAt(e: Endian, b: seq<Byte>, off: nat)
    requires off + 4 <= |b|
    ensures LoadU32(e, b, off) == Get(e, b[off..off + 4])
  {}

  lemma ReapedAt(e: Endian, p: Params, cq: seq<Byte>, head: U32, slot: nat, cqe: Cqe)
    requires p.cqOff.head + 4 <= |cq| && p.cqOff.tail + 4 <= |cq| && p.cqEntries > 0
    requires head == Get(e, cq[p.cqOff.head..p.cqOff.head + 4])
    requires head != Get(e, cq[p.cqOff.tail..p.cqOff.tail + 4])
    requires slot == Position(head, p.cqEntries) && CompletionAt(e, cq, p.cqOff.cqes + 16 * slot, cqe)
    ensures Reaped(e, p, cq, Ok(cqe), Patch(cq, p.cqOff.head, Put(e, 4, WrapAdd(head, 1))))
  {
    hide Get, Put, CompletionAt, Patch, Position;
  }

  lemma ReapedIs(e: Endian, p: Params, cq: seq<Byte>, slot: nat)
    requires p.cqOff.head + 4 <= |cq| && p.cqOff.tail + 4 <= |cq| && p.cqOff.cqes + p.cqEntries * 16 <= |cq|
    requires p.cqEntries > 0 && slot == Position(LoadU32(e, cq, p.cqOff.head), p.cqEntries)
    ensures var head := LoadU32(e, cq, p.cqOff.head);
            if head == LoadU32(e, cq, p.cqOff.tail) then Reaped(e, p, cq, Err(QueueEmpty), cq)
            else Reaped(e, p, cq, Ok(CqeIn(e, cq, p.cqOff.cqes, slot)),
                        Patch(cq, p.cqOff.head, Put(e, 4, WrapAdd(head, 1))))
  {
    var head := LoadU32(e, cq, p.cqOff.head);
    WordAt(e, cq, p.cqOff.head);
    WordAt(e, cq, p.cqOff.tail);
    CqeInIsAt(e, cq, p.cqOff.cqes, slot);
    hide Get, Put, CqeIn, CompletionAt, LoadU32, WrapAdd, Patch, Position;
    if head != LoadU32(e, cq, p.cqOff.tail) {
      ReapedAt(e, p, cq, head, slot, CqeIn(e, cq, p.cqOff.cqes, slot));
      hide Reaped;
    }
  }

  /** Sixty-four bytes hold a submission, its signed fields in two's complement. */
  ghost predicate HoldsSqe(e: Endian, b: seq<Byte>, s: Sqe) {
    && |b| == 64 && b[0] == s.opcode && b[1] == s.flags && b[2..4] == Put(e, 2, s.ioPrio)
    && b[4..8] == Put(e, 4, if s.fd < 0 then s.fd + 0x1_0000_0000 else s.fd)
    && b[8..16] == Put(e, 8, s.off) && b[16..24] == Put(e, 8, s.addr)
    && b[24..28] == Put(e, 4, s.len) && b[28..32] == Put(e, 4, s.rwFlags)
    && b[32..40] == Put(e, 8, s.userData) && b[40..42] == Put(e, 2, s.bufIndex)
    && b[42..44] == Put(e, 2, s.personality)
    && b[44..48] == Put(e, 4, if s.spliceFd < 0 then s.spliceFd + 0x1_0000_0000 else s.spliceFd)
    && b[48..56] == Put(e, 8, s.addr3) && b[56..64] == Put(e, 8, s.pad2)
  }

  lemma EncodeSqeHolds(e: Endian, s: Sqe)
    ensures HoldsSqe(e, EncodeSqe(e, s), s)
  {
    SqeWords(e, s);
    ConversionsAre(s.fd, 0, 0, 0);
    ConversionsAre(s.spliceFd, 0, 0, 0);
    var b := EncodeSqe(e, s);
    assert |b| == 64;
    hide *;
  }

  /** The head and tail words of the submission ring show no room for another entry. */
  ghost predicate NoRoom(e: Endian, p: Params, sq: seq<Byte>)
    requires p.sqOff.head + 4 <= |sq| && p.sqOff.tail + 4 <= |sq|
  {
    var head := Get(e, sq[p.sqOff.head..p.sqOff.head + 4]);
    var tail := Get(e, sq[p.sqOff.tail..p.sqOff.tail + 4]);
    (tail - head) % 0x1_0000_0000 >= p.sqEntries
  }

  lemma NoRoomIs(e: Endian, p: Params, sq: seq<Byte>)
    requires p.sqOff.head + 4 <= |sq| && p.sqOff.tail + 4 <= |sq|
    ensures NoRoom(e, p, sq) <==> WrapSub(LoadU32(e, sq, p.sqOff.tail), LoadU32(e, sq, p.sqOff.head)) >= p.sqEntries
  {
    WordAt(e, sq, p.sqOff.head);
    WordAt(e, sq, p.sqOff.tail);
    hide Get, LoadU32;
  }

  /** Storing the entry, its slot in the index array, and the new tail, on the bytes. The slot is the
      tail modulo the ring size. */
  ghost predicate Published(e: Endian, p: Params, sq: seq<Byte>, sqes: seq<Byte>, sqe: Sqe,
                            r: Result<(), CallError>, sq': seq<Byte>, sqes': seq<Byte>)
    requires p.sqOff.head + 4 <= |sq| && p.sqOff.tail + 4 <= |sq| && p.sqEntries > 0
    requires p.sqOff.index + p.sqEntries * 4 <= |sq| && p.sqEntries * 64 <= |sqes|
  {
    var tail := Get(e, sq[p.sqOff.tail..p.sqOff.tail + 4]);
    if NoRoom(e, p, sq) then r == Err(QueueFull) && sq' == sq && sqes' == sqes
    else r == Ok(()) && StoredAt(e, p, sq, sqes, sqe, tail, Position(tail, p.sqEntries), sq', sqes')
  }

  /** The three stores of a publish into this slot. */
  ghost predicate StoredAt(e: Endian, p: Params, sq: seq<Byte>, sqes: seq<Byte>, sqe: Sqe, tail: nat, slot: nat,
                           sq': seq<Byte>, sqes': seq<Byte>)
    requires p.sqOff.tail + 4 <= |sq| && p.sqOff.index + (slot + 1) * 4 <= |sq| && (slot + 1) * 64 <= |sqes|
  {
    && EntryAt(e, sqes, slot, sqe, sqes')
    && sq' == Patch(Patch(sq, p.sqOff.index + slot * 4, Put(e, 4, slot)), p.sqOff.tail,
                    Put(e, 4, (tail + 1) % 0x1_0000_0000))
  }

  /** Sixty-four bytes hold the submission, and all others stay. */
  ghost predicate EntryAt(e: Endian, sqes: seq<Byte>, slot: nat, sqe: Sqe, sqes': seq<Byte>)
    requires (slot + 1) * 64 <= |sqes|
  {
    && |sqes'| == |sqes| && HoldsSqe(e, sqes'[slot * 64..slot * 64 + 64], sqe)
    && sqes'[..slot * 64] == sqes[..slot * 64] && sqes'[slot * 64 + 64..] == sqes[slot * 64 + 64..]
  }

  /** Memory after the three stores of a publish. */
  function PublishMem(e: Endian, p: Params, m: Mem, slot: nat, sqe: Sqe, tail: U32): Mem
    requires WordsInside(p, m) && slot < p.sqEntries
  {
    var m1 := StoreSqe(m, slot, EncodeSqe(e, sqe));
    StoreSq(p, StoreSq(p, m1, p.sqOff.index + slot * 4, Put(e, 4, slot)), p.sqOff.tail, Put(e, 4, WrapAdd(tail, 1)))
  }

  lemma PublishMemView(e: Endian, p: Params, m: Mem, slot: U32, sqe: Sqe, tail: U32)
    requires Mapped(e, p, m) && slot < p.sqEntries
    ensures var m', r := PublishMem(e, p, m, slot, sqe, tail), View(e, p, m);
            && Mapped(e, p, m')
            && View(e, p, m') == r.(sqes := r.sqes[slot := sqe], index := r.index[slot := slot],
                                    sqTail := WrapAdd(tail, 1))
  {
    StoreSqeView(e, p, m, slot, sqe);
    var m1 := StoreSqe(m, slot, EncodeSqe(e, sqe));
    StoreIndexView(e, p, m1, slot, slot);
    var m2 := StoreSq(p, m1, p.sqOff.index + slot * 4, Put(e, 4, slot));
    StoreTailView(e, p, m2, WrapAdd(tail, 1));
    hide Put, EncodeSqe, WrapAdd, Mapped, View, StoreSq, StoreSqe;
  }

  lemma EntryStored(e: Endian, sqes: seq<Byte>, slot: nat, sqe: Sqe)
    requires (slot + 1) * 64 <= |sqes|
    ensures EntryAt(e, sqes, slot, sqe, Patch(sqes, slot * 64, EncodeSqe(e, sqe)))
  {
    EncodeSqeHolds(e, sqe);
    hide EncodeSqe, HoldsSqe;
    assert Patch(sqes, slot * 64, EncodeSqe(e, sqe))[slot * 64..slot * 64 + 64] == EncodeSqe(e, sqe);
  }

  lemma PublishedAt(e: Endian, p: Params, sq: seq<Byte>, sqes: seq<Byte>, sqe: Sqe, tail: U32, slot: nat,
                    sq': seq<Byte>, sqes': seq<Byte>)
    requires p.sqOff.head + 4 <= |sq| && p.sqOff.tail + 4 <= |sq| && p.sqEntries > 0
    requires p.sqOff.index + p.sqEntries * 4 <= |sq| && p.sqEntries * 64 <= |sqes|
    requires tail == LoadU32(e, sq, p.sqOff.tail) && !NoRoom(e, p, sq)
    requires slot == Position(tail, p.sqEntries)
    requires StoredAt(e, p, sq, sqes, sqe, tail, slot, sq', sqes')
    ensures Published(e, p, sq, sqes, sqe, Ok(()), sq', sqes')
  {
    WordAt(e, sq, p.sqOff.tail);
    hide Get, Put, StoredAt, LoadU32, Position, NoRoom;
  }

  lemma FullIs(e: Endian, p: Params, sq: seq<Byte>, sqes: seq<Byte>, sqe: Sqe)
    requires p.sqOff.head + 4 <= |sq| && p.sqOff.tail + 4 <= |sq| && p.sqEntries > 0
    requires p.sqOff.index + p.sqEntries * 4 <= |sq| && p.sqEntries * 64 <= |sqes|
    requires WrapSub(LoadU32(e, sq, p.sqOff.tail), LoadU32(e, sq, p.sqOff.head)) >= p.sqEntries
    ensures Published(e, p, sq, sqes, sqe, Err(QueueFull), sq, sqes)
  {
    NoRoomIs(e, p, sq);
    hide Get, Put, StoredAt, LoadU32, Position, NoRoom;
  }

  lemma PublishMemBytes(e: Endian, p: Params, m: Mem, sqe: Sqe, tail: U32, slot: nat)
    requires WordsInside(p, m) && p.sqEntries > 0 && tail == LoadU32(e, m.sq, p.sqOff.tail)
    requires slot == Position(tail, p.sqEntries)
    requires WrapSub(tail, LoadU32(e, m.sq, p.sqOff.head)) < p.sqEntries
    ensures var m' := PublishMem(e, p, m, slot, sqe, tail);
            Published(e, p, m.sq, m.sqes, sqe, Ok(()), m'.sq, m'.sqes)
  {
    PublishMemIs(e, p, m, slot, sqe, tail);
    EntryStored(e, m.sqes, slot, sqe);
    NoRoomIs(e, p, m.sq);
    var m' := PublishMem(e, p, m, slot, sqe, tail);
    assert StoredAt(e, p, m.sq, m.sqes, sqe, tail, slot, m'.sq, m'.sqes) by {
      hide Put, Patch, PublishMem, EntryAt, EncodeSqe, NoRoom, Position;
    }
    hide *;
    PublishedAt(e, p, m.sq, m.sqes, sqe, tail, slot, m'.sq, m'.sqes);
  }

  lemma PublishMemIs(e: Endian, p: Params, m: Mem, slot: nat, sqe: Sqe, tail: U32)
    requires WordsInside(p, m) && slot < p.sqEntries
    ensures (slot + 1) * 64 <= |m.sqes| && p.sqOff.index + slot * 4 + 4 <= |m.sq| && p.sqOff.tail + 4 <= |m.sq|
    ensures p.sqOff.head + 4 <= |m.sq| && p.sqOff.index + p.sqEntries * 4 <= |m.sq| && p.sqEntries * 64 <= |m.sqes|
    ensures var m' := PublishMem(e, p, m, slot, sqe, tail);
            && m'.sqes == Patch(m.sqes, slot * 64, EncodeSqe(e, sqe))
            && m'.sq == Patch(Patch(m.sq, p.sqOff.index + slot * 4, Put(e, 4, slot)), p.sqOff.tail,
                              Put(e, 4, (tail + 1) % 0x1_0000_0000))
  {
    hide Put, EncodeSqe, Patch, SingleMmap;
  }

  /** What a call answers, from the words it found, what the enter returned, and the completion ring
      the kernel left. */
  ghost predicate Answers(e: Endian, p: Params, sq: seq<Byte>, enter: EnterResult, cq: seq<Byte>,
                          r: Result<Cqe, CallError>)
    requires p.sqOff.head + 4 <= |sq| && p.sqOff.tail + 4 <= |sq| && p.cqEntries > 0
    requires p.cqOff.head + 4 <= |cq| && p.cqOff.tail + 4 <= |cq|
  {
    var head := Get(e, cq[p.cqOff.head..p.cqOff.head + 4]);
    var tail := Get(e, cq[p.cqOff.tail..p.cqOff.tail + 4]);
    if NoRoom(e, p, sq) then r == Err(QueueFull)
    else if enter.Errno? then r == Err(EnterError(enter.errno))
    else if enter.n != 1 then r == Err(WrongCount(enter.n))
    else if head == tail then r == Err(QueueEmpty)
    else r.Ok? && CompletionAt(e, cq, p.cqOff.cqes + 16 * Position(head, p.cqEntries), r.value)
  }

  // ---- the client ----

  datatype CallError = QueueFull | EnterError(errno: nat) | WrongCount(submitted: nat) | QueueEmpty

  /** What the mmap system call hands back: an error, or the bytes the kernel put there. */
  datatype MmapResult = MmapFails(errno: nat) | MmapGives(bytes: seq<Byte>)

  /** What a call comes to: published is what publishing gave, reaped what there was to reap when the
      enter returned; untouched and handedBack say that the bytes are those found, or those the
      kernel left; after is the ring at the end. */
  ghost predicate Comes(published: Option<Ring>, enter: EnterResult, reaped: Option<(Ring, Cqe)>,
                        untouched: bool, handedBack: bool, r: Result<Cqe, CallError>, after: Ring)
  {
    if published == None then r == Err(QueueFull) && untouched
    else if enter.Errno? then r == Err(EnterError(enter.errno)) && handedBack
    else if enter.n != 1 then r == Err(WrongCount(enter.n)) && handedBack
    else if reaped == None then r == Err(QueueEmpty) && handedBack
    else r == Ok(reaped.value.1) && after == reaped.value.0
  }

  /** What a call of submitAndWait comes to: before are the bytes it finds, image the bytes when the
      enter returns, after the bytes it leaves. */
  ghost predicate Called(e: Endian, p: Params, before: Mem, sqe: Sqe, enter: EnterResult, image: Mem,
                         r: Result<Cqe, CallError>, after: Mem)
    requires Mapped(e, p, before) && Mapped(e, p, image) && Mapped(e, p, after)
  {
    ViewIsWf(e, p, before);
    ViewIsWf(e, p, image);
    Comes(PublishAll(View(e, p, before), sqe), enter, ReapOne(View(e, p, image)),
          after == before, after == image, r, View(e, p, after))
  }

  method Overwrite(a: array<Byte>, x: seq<Byte>)
    requires |x| == a.Length
    modifies a
    ensures a[..] == x
  {
    CopyInto(a, 0, x);
    assert a[..] == x;
  }

  class RingMapping {
    const e: Endian
    const params: Params
    var sqRing: array<Byte>
    var cqRing: array<Byte>
    var sqes: array<Byte>

    constructor (e: Endian, params: Params)
      ensures this.e == e && this.params == params && fresh(sqRing) && fresh(cqRing) && fresh(sqes)
    {
      this.e := e;
      this.params := params;
      sqRing, cqRing, sqes := new Byte[0], new Byte[0], new Byte[0];
    }

    function Bytes(): Mem
      reads this, sqRing, cqRing, sqes
    {
      Mem(sqRing[..], cqRing[..], sqes[..])
    }

    /** The mappings are as mmap made them, and the kernel's promises hold of their bytes. */
    ghost predicate Valid()
      reads this, sqRing, cqRing, sqes
    {
      && (sqRing == cqRing <==> SingleMmap(params))
      && sqes != sqRing && sqes != cqRing
      && Mapped(e, params, Bytes())
    }

    ghost function Rings(): Ring
      reads this, sqRing, cqRing, sqes
      requires Valid()
    {
      View(e, params, Bytes())
    }

    /** One mmap call of a given length. */
    method MapRegion(size: nat, answer: MmapResult) returns (r: Result<array<Byte>, nat>)
      ensures answer.MmapFails? ==> r == Err(answer.errno)
      ensures answer.MmapGives? && |answer.bytes| == size ==> r.Ok? && fresh(r.value) && r.value[..] == answer.bytes
      ensures r.Ok? ==> r.value.Length == size && fresh(r.value)
    {
      if answer.MmapFails? {
        return Err(answer.errno);
      }
      var a := new Byte[size];
      if |answer.bytes| == size {
        Overwrite(a, answer.bytes);
      }
      return Ok(a);
    }

    /** Maps the rings, as one region or two, and the submission entries. On success every access
        of the client is inside the mappings. */
    method MapAll(sq: MmapResult, cq: MmapResult, entries: MmapResult) returns (r: Result<(), nat>)
      requires KernelLayout(params)
      requires sq.MmapGives? ==> |sq.bytes| == SqRingLen(params)
      requires cq.MmapGives? ==> |cq.bytes| == CqRingLen(params)
      requires entries.MmapGives? ==> |entries.bytes| == params.sqEntries * SQE_SIZE
      modifies this
      ensures r.Ok? <==> sq.MmapGives? && (params.features % 2 == 1 || cq.MmapGives?) && entries.MmapGives?
      ensures r.Err? ==> r.error == if sq.MmapFails? then sq.errno
                                    else if params.features % 2 == 0 && cq.MmapFails? then cq.errno
                                    else entries.errno
      ensures r.Ok? ==>
        && Bytes() == Mem(sq.bytes, if params.features % 2 == 1 then sq.bytes else cq.bytes, entries.bytes)
        && Sized(params, Bytes()) && WordsInside(params, Bytes())
        && (sqRing == cqRing <==> params.features % 2 == 1) && sqes != sqRing && sqes != cqRing
        && (Mapped(e, params, Bytes()) ==> Valid())
      ensures r.Ok? ==>
        var sqLen, cqLen := params.sqOff.index + 4 * params.sqEntries, params.cqOff.cqes + 16 * params.cqEntries;
        && sqes.Length == 64 * params.sqEntries
        && if params.features % 2 == 0 then sqRing.Length == sqLen && cqRing.Length == cqLen
           else sqRing.Length == cqRing.Length == if sqLen > cqLen then sqLen else cqLen
    {
      SingleMmapIs(params);
      hide SingleMmap, KernelLayout;
      if SingleMmap(params) {
        var sharedSize := MaxInt(SqSize(params), CqSize(params));
        var m := MapRegion(sharedSize, sq);
        if m.Err? { return Err(m.error); }
        sqRing := m.value;
        cqRing := sqRing;
      } else {
        var m := MapRegion(SqSize(params), sq);
        if m.Err? { return Err(m.error); }
        sqRing := m.value;
        var m2 := MapRegion(CqSize(params), cq);
        if m2.Err? { return Err(m2.error); }
        cqRing := m2.value;
      }
      var m3 := MapRegion(params.sqEntries * SQE_SIZE, entries);
      if m3.Err? { return Err(m3.error); }
      sqes := m3.value;
      SizesCoverAccesses(params, Bytes());
      return Ok(());
    }

    /** While io_uring_enter runs, the kernel may change the shared bytes to anything that keeps
        its promises about sizes, masks and layout. */
    method KernelRuns(image: Mem)
      requires Valid() && Mapped(e, params, image)
      modifies sqRing, cqRing, sqes
      ensures Valid() && Bytes() == image
    {
      hide KernelLayout, WordsInside, Load;
      assert sqRing.Length == |image.sq| && cqRing.Length == |image.cq| && sqes.Length == |image.sqes|;
      Overwrite(sqRing, image.sq);
      Overwrite(cqRing, image.cq);
      Overwrite(sqes, image.sqes);
    }

    /** The three publish stores of submitAndWait; an error leaves every byte alone. */
    method Publish(sqe: Sqe) returns (r: Result<(), CallError>)
      requires Valid()
      modifies sqRing, cqRing, sqes
      ensures Valid()
      ensures match PublishAll(old(Rings()), sqe)
              case None => r == Err(QueueFull) && Bytes() == old(Bytes())
              case Some(ring) => r == Ok(()) && Rings() == ring
      ensures params.sqEntries > 0
              && Published(e, params, old(sqRing[..]), old(sqes[..]), sqe, r, sqRing[..], sqes[..])
    {
      hide And, Get, Put, IsRingSize, EncodeSqe, DecodeSqe, Published, PublishMem, Patch, Position;
      ViewIsWf(e, params, Bytes());
      ghost var before := Bytes();
      var sqHead := LoadU32(e, sqRing[..], params.sqOff.head);
      var sqTail := LoadU32(e, sqRing[..], params.sqOff.tail);
      var sqMask := LoadU32(e, sqRing[..], params.sqOff.ringMask);
      var sqEntries := LoadU32(e, sqRing[..], params.sqOff.ringEntries);
      SlotsAre(e, params, before, sqTail);
      if WrapSub(sqTail, sqHead) >= sqEntries {
        FullIs(e, params, before.sq, before.sqes, sqe);
        return Err(QueueFull);
      }
      var slot := And(sqTail, sqMask);
      PublishMemBytes(e, params, before, sqe, sqTail, slot);
      PublishMemView(e, params, before, slot, sqe, sqTail);
      ArrayOffsetExact(params, slot);
      StoreEntry(sqe, slot, sqTail);
      return Ok(());
    }

    /** The three stores: entry, index array, tail. */
    method StoreEntry(sqe: Sqe, slot: U32, sqTail: U32)
      requires (sqRing == cqRing <==> SingleMmap(params)) && sqes != sqRing && sqes != cqRing
      requires WordsInside(params, Bytes()) && slot < params.sqEntries
      requires WrapAdd(params.sqOff.index, WrapMul(slot, 4)) == params.sqOff.index + slot * 4
      modifies sqRing, cqRing, sqes
      ensures Bytes() == PublishMem(e, params, old(Bytes()), slot, sqe, sqTail)
    {
      hide And, Put, EncodeSqe, WrapAdd, WrapMul, Patch, SingleMmap;
      CopyInto(sqes, slot * SQE_SIZE, EncodeSqe(e, sqe));
      var arrayOffset := WrapAdd(params.sqOff.index, WrapMul(slot, 4));
      PutUint(sqRing, arrayOffset, e, 4, slot);
      PutUint(sqRing, params.sqOff.tail, e, 4, WrapAdd(sqTail, 1));
    }

    method WaitCompletion() returns (r: Result<Cqe, CallError>)
      requires Valid()
      modifies sqRing, cqRing
      ensures Valid()
      ensures match ReapOne(old(Rings()))
              case None => r == Err(QueueEmpty) && Bytes() == old(Bytes())
              case Some((ring, cqe)) => r == Ok(cqe) && Rings() == ring
      ensures params.cqEntries > 0 && Reaped(e, params, old(cqRing[..]), r, cqRing[..])
    {
      hide And, Get, Put, IsRingSize, EncodeSqe, DecodeSqe, Reaped, CqeIn, Patch, Position;
      ViewIsWf(e, params, Bytes());
      var cqHead := LoadU32(e, cqRing[..], params.cqOff.head);
      var cqTail := LoadU32(e, cqRing[..], params.cqOff.tail);
      SlotsAre(e, params, Bytes(), cqHead);
      ReapedIs(e, params, cqRing[..], Position(cqHead, params.cqEntries));
      if cqHead == cqTail {
        return Err(QueueEmpty);
      }
      var cqMask := LoadU32(e, cqRing[..], params.cqOff.ringMask);
      var cqe := CqeIn(e, cqRing[..], params.cqOff.cqes, And(cqHead, cqMask));
      StoreCqHeadView(e, params, Bytes(), WrapAdd(cqHead, 1));
      PutUint(cqRing, params.cqOff.head, e, 4, WrapAdd(cqHead, 1));
      return Ok(cqe);
    }

    /** One call: publish, enter the kernel, reap. handed is what the kernel finds on entry. */
    method SubmitAndWait(sqe: Sqe, enter: EnterResult, image: Mem)
      returns (r: Result<Cqe, CallError>, ghost handed: Ring)
      requires Valid() && Mapped(e, params, image)
      modifies sqRing, cqRing, sqes
      ensures Valid()
      ensures Called(e, params, old(Bytes()), sqe, enter, image, r, Bytes())
      ensures handed == PublishAll(old(Rings()), sqe).GetOr(old(Rings()))
    {
      hide Published, Reaped, Position, LoadU32;
      handed := Rings();
      var p := Publish(sqe);
      if p.Err? {
        return Err(p.error), handed;
      }
      handed := Rings();
      KernelRuns(image);
      if enter.Errno? {
        return Err(EnterError(enter.errno)), handed;
      }
      if enter.n != 1 {
        return Err(WrongCount(enter.n)), handed;
      }
      r := WaitCompletion();
    }
  }

  lemma ComesAnswers(e: Endian, p: Params, sq: seq<Byte>, enter: EnterResult, cq: seq<Byte>, published: Option<Ring>,
                     reaped: Option<(Ring, Cqe)>, untouched: bool, handedBack: bool, r: Result<Cqe, CallError>,
                     after: Ring)
    requires p.sqOff.head + 4 <= |sq| && p.sqOff.tail + 4 <= |sq| && p.cqEntries > 0
    requires p.cqOff.head + 4 <= |cq| && p.cqOff.tail + 4 <= |cq|
    requires (published == None <==> NoRoom(e, p, sq)) && Found(e, p, cq, reaped)
    requires Comes(published, enter, reaped, untouched, handedBack, r, after)
    ensures Answers(e, p, sq, enter, cq, r)
  {
    hide NoRoom, Get, CompletionAt, Position;
  }

  /** What there is to reap lies at the head, unless the head and tail words are equal. */
  ghost predicate Found(e: Endian, p: Params, cq: seq<Byte>, reaped: Option<(Ring, Cqe)>)
    requires p.cqOff.head + 4 <= |cq| && p.cqOff.tail + 4 <= |cq| && p.cqEntries > 0
  {
    var head := Get(e, cq[p.cqOff.head..p.cqOff.head + 4]);
    var tail := Get(e, cq[p.cqOff.tail..p.cqOff.tail + 4]);
    if head == tail then reaped == None
    else reaped.Some? && CompletionAt(e, cq, p.cqOff.cqes + 16 * Position(head, p.cqEntries), reaped.value.1)
  }

  lemma FoundAt(e: Endian, p: Params, cq: seq<Byte>, slot: nat, reaped: Option<(Ring, Cqe)>)
    requires p.cqOff.head + 4 <= |cq| && p.cqOff.tail + 4 <= |cq| && p.cqOff.cqes + p.cqEntries * 16 <= |cq|
    requires p.cqEntries > 0 && slot == Position(LoadU32(e, cq, p.cqOff.head), p.cqEntries)
    requires if LoadU32(e, cq, p.cqOff.head) == LoadU32(e, cq, p.cqOff.tail) then reaped == None
             else reaped.Some? && reaped.value.1 == CqeIn(e, cq, p.cqOff.cqes, slot)
    ensures Found(e, p, cq, reaped)
  {
    WordAt(e, cq, p.cqOff.head);
    WordAt(e, cq, p.cqOff.tail);
    CqeInIsAt(e, cq, p.cqOff.cqes, slot);
    hide Position, LoadU32, CqeIn, Get, CompletionAt;
  }

  lemma InsideCq(e: Endian, p: Params, m: Mem)
    requires Mapped(e, p, m)
    ensures WordsInside(p, m) && Wf(View(e, p, m))
    ensures p.cqOff.head + 4 <= |m.cq| && p.cqOff.tail + 4 <= |m.cq| && p.cqOff.cqes + p.cqEntries * 16 <= |m.cq|
  {
    ViewIsWf(e, p, m);
    hide View, Wf, KernelLayout, Sized, LoadU32;
  }

  lemma ReapFinds(e: Endian, p: Params, m: Mem)
    requires Mapped(e, p, m)
    ensures WordsInside(p, m) && p.cqEntries > 0 && Wf(View(e, p, m))
    ensures Found(e, p, m.cq, ReapOne(View(e, p, m)))
  {
    InsideCq(e, p, m);
    SlotsAre(e, p, m, LoadU32(e, m.cq, p.cqOff.head));
    ReapOnBytes(e, p, m);
    hide *;
    FoundAt(e, p, m.cq, Position(LoadU32(e, m.cq, p.cqOff.head), p.cqEntries), ReapOne(View(e, p, m)));
  }

  lemma PublishFinds(e: Endian, p: Params, m: Mem, sqe: Sqe)
    requires Mapped(e, p, m)
    ensures WordsInside(p, m) && Wf(View(e, p, m))
    ensures PublishAll(View(e, p, m), sqe) == None <==> NoRoom(e, p, m.sq)
  {
    ViewIsWf(e, p, m);
    NoRoomIs(e, p, m.sq);
    FullOnBytes(e, p, m, sqe);
    hide View, PublishAll, NoRoom, LoadU32, Wf;
  }

  /** What a call answers, read off the bytes it found and the completion ring the kernel left: full
      exactly when the words of the submission ring show no room, then the error of the enter, then a
      wrong count, then an empty queue, and otherwise the completion that lies at the head. */
  lemma CallAnswers(e: Endian, p: Params, before: Mem, sqe: Sqe, enter: EnterResult, image: Mem,
                    r: Result<Cqe, CallError>, after: Mem)
    requires Mapped(e, p, before) && Mapped(e, p, image) && Mapped(e, p, after)
    requires Called(e, p, before, sqe, enter, image, r, after)
    ensures p.cqEntries > 0 && WordsInside(p, before) && WordsInside(p, image)
    ensures Answers(e, p, before.sq, enter, image.cq, r)
  {
    PublishFinds(e, p, before, sqe);
    ReapFinds(e, p, image);
    hide Mapped, View, PublishAll, ReapOne, NoRoom, Found, Comes, Answers, Wf;
    ComesAnswers(e, p, before.sq, enter, image.cq, PublishAll(View(e, p, before), sqe), ReapOne(View(e, p, image)),
                 after == before, after == image, r, View(e, p, after));
  }

  lemma FullOnBytes(e: Endian, p: Params, m: Mem, sqe: Sqe)
    requires Mapped(e, p, m) && Wf(View(e, p, m))
    ensures PublishAll(View(e, p, m), sqe) == None
       <==> WrapSub(LoadU32(e, m.sq, p.sqOff.tail), LoadU32(e, m.sq, p.sqOff.head)) >= p.sqEntries
  {
    hide And, LoadU32, SqeIn, CqeIn, KernelLayout, Wf, SqSlot;
  }

  lemma ReapOnBytes(e: Endian, p: Params, m: Mem)
    requires Mapped(e, p, m) && Wf(View(e, p, m))
    ensures WordsInside(p, m)
    ensures var head := LoadU32(e, m.cq, p.cqOff.head);
            var slot := And(head, LoadU32(e, m.cq, p.cqOff.ringMask));
            if head == LoadU32(e, m.cq, p.cqOff.tail) then ReapOne(View(e, p, m)) == None
            else
              slot < p.cqEntries && ReapOne(View(e, p, m)).Some?
              && ReapOne(View(e, p, m)).value.1 == CqeIn(e, m.cq, p.cqOff.cqes, slot)
  {
    SlotInRange(View(e, p, m), LoadU32(e, m.cq, p.cqOff.head));
    hide And, LoadU32, SqeIn, CqeIn, KernelLayout, Wf;
  }
}
