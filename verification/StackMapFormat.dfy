/** LLVM's StackMap format, version 3, as bytes (`stackmap.c`). */
module StackMapFormat {

  type Byte = x: int | 0 <= x < 256

  // ---- little-endian numbers ----------------------------------------------------------

  function Pow256(n: nat): (p: nat)
    ensures p > 0
  {
    if n == 0 then 1 else 256 * Pow256(n - 1)
  }

  /** v in n bytes, least significant first. */
  function Enc(n: nat, v: nat): (bs: seq<Byte>)
    ensures |bs| == n
  {
    if n == 0 then [] else [v % 256] + Enc(n - 1, v / 256)
  }

  function LE(bs: seq<Byte>): nat {
    if |bs| == 0 then 0 else bs[0] + 256 * LE(bs[1..])
  }

  lemma {:induction false} DecodeNumber(n: nat, v: nat)
    requires v < Pow256(n)
    ensures LE(Enc(n, v)) == v
  {
    if n > 0 {
      DecodeNumber(n - 1, v / 256);
      assert Enc(n, v)[1..] == Enc(n - 1, v / 256);
    }
  }

  lemma Pow256s()
    ensures Pow256(1) == 0x100 && Pow256(2) == 0x1_0000
    ensures Pow256(4) == 0x1_0000_0000 && Pow256(8) == 0x1_0000_0000_0000_0000
  {
    assert Pow256(3) == 0x100_0000;
    assert Pow256(5) == 0x100_0000_0000;
    assert Pow256(7) == 0x100_0000_0000_0000;
  }

  const TWO31: int := 0x8000_0000
  const TWO32: int := 0x1_0000_0000
  const TWO64: int := 0x1_0000_0000_0000_0000

  function Unsigned32(x: int): nat
    requires -TWO31 <= x < TWO31
  {
    if x < 0 then x + TWO32 else x
  }

  function Signed32(v: nat): int {
    if v >= TWO31 then v - TWO32 else v
  }

  // ---- the documents ---------------------------------------------------------------------

  const DIRECT := 2
  const INDIRECT := 3
  const CONSTANT := 4
  const CONST_INDEX := 5
  const FP := 29
  const SP := 31
  const STACK_SIZE_UNKNOWN: nat := 0xFFFF_FFFF_FFFF_FFFF

  datatype Loc = Loc(kind: nat, size: nat, reg: nat, off: int)

  /** A statepoint record: three leading constants, the third the number of deopt locations; deopt
      locations; pairs of base and derived pointer; live-outs. */
  datatype Record = Record(id: nat, ioff: nat, flags: nat, lead: seq<Loc>, deopt: seq<Loc>, gc: seq<Loc>,
      live: seq<nat>)

  datatype Function = Function(addr: nat, size: nat, recs: seq<Record>)

  datatype Map = Map(funcs: seq<Function>, consts: seq<nat>)

  function EncLoc(l: Loc): (bs: seq<Byte>)
    requires -TWO31 <= l.off < TWO31
    ensures |bs| == 12
  {
    Enc(1, l.kind) + Enc(1, 0) + Enc(2, l.size) + Enc(2, l.reg) + Enc(2, 0) + Enc(4, Unsigned32(l.off))
  }

  ghost predicate LocFits(l: Loc) {
    l.kind < 0x100 && l.size < 0x1_0000 && l.reg < 0x1_0000 && -TWO31 <= l.off < TWO31
  }

  ghost predicate LocsFit(ls: seq<Loc>) {
    forall i :: 0 <= i < |ls| ==> LocFits(ls[i])
  }

  function EncLocs(ls: seq<Loc>): (bs: seq<Byte>)
    requires forall i :: 0 <= i < |ls| ==> -TWO31 <= ls[i].off < TWO31
    ensures |bs| == 12 * |ls|
  {
    if |ls| == 0 then [] else EncLoc(ls[0]) + EncLocs(ls[1..])
  }

  function EncWords(ws: seq<nat>, n: nat): (bs: seq<Byte>)
    ensures |bs| == |ws| * n
    decreases |ws|
  {
    WordsLength(|ws|, n);
    if |ws| == 0 then [] else Enc(n, ws[0]) + EncWords(ws[1..], n)
  }

  lemma WordsLength(k: nat, n: nat)
    ensures k * n >= 0 && (k > 0 ==> k * n == n + (k - 1) * n)
  {
  }

  /** Bytes up to the next multiple of eight. */
  function Pad(n: nat): nat { (8 - n % 8) % 8 }

  function Padding(n: nat): (bs: seq<Byte>)
    ensures |bs| == Pad(n) && (n + |bs|) % 8 == 0
  {
    seq(Pad(n), _ => 0)
  }

  function AllLocs(r: Record): seq<Loc> { r.lead + r.deopt + r.gc }

  function EncHead(r: Record): (bs: seq<Byte>)
    requires forall i :: 0 <= i < |AllLocs(r)| ==> -TWO31 <= AllLocs(r)[i].off < TWO31
    ensures |bs| == 16 + 12 * |AllLocs(r)|
  {
    Enc(8, r.id) + Enc(4, r.ioff) + Enc(2, r.flags) + Enc(2, |AllLocs(r)|) + EncLocs(AllLocs(r))
  }

  function EncTail(r: Record): (bs: seq<Byte>)
    ensures |bs| == 4 + |r.live| * 4
  {
    Enc(2, 0) + Enc(2, |r.live|) + EncWords(r.live, 4)
  }

  function EncRecord(r: Record): (bs: seq<Byte>)
    requires forall i :: 0 <= i < |AllLocs(r)| ==> -TWO31 <= AllLocs(r)[i].off < TWO31
    ensures |bs| % 8 == 0
  {
    var head, tail := EncHead(r), EncTail(r);
    var body := head + Padding(|head|) + tail;
    body + Padding(|body|)
  }

  /** What a location that must be a constant denotes. */
  function ConstOf(l: Loc, consts: seq<nat>): int {
    if l.kind == CONSTANT then l.off % TWO64
    else if 0 <= l.off < |consts| then consts[l.off] else 0
  }

  ghost predicate Leading(l: Loc, consts: seq<nat>) {
    l.kind == CONSTANT || (l.kind == CONST_INDEX && 0 <= l.off < |consts|)
  }

  /** A location the collector can find again from the frame. */
  ghost predicate Findable(l: Loc, consts: seq<nat>, stackSize: nat) {
    || ((l.kind == INDIRECT || l.kind == DIRECT) && (l.kind == INDIRECT ==> l.size == 8)
        && (l.reg == FP || (l.reg == SP && stackSize != STACK_SIZE_UNKNOWN)))
    || l.kind == CONSTANT
    || (l.kind == CONST_INDEX && 0 <= l.off < |consts|)
  }

  ghost predicate RecordGood(r: Record, consts: seq<nat>, stackSize: nat) {
    && r.id < TWO64 && r.ioff < TWO32 && r.flags < 0x1_0000
    && LocsFit(AllLocs(r)) && |AllLocs(r)| < 0x1_0000
    && |r.lead| == 3 && (forall i :: 0 <= i < 3 ==> Leading(r.lead[i], consts))
    && ConstOf(r.lead[2], consts) == |r.deopt|
    && |r.gc| % 2 == 0 && (forall i :: 0 <= i < |r.gc| ==> Findable(r.gc[i], consts, stackSize))
    && |r.live| < 0x1_0000 && (forall i :: 0 <= i < |r.live| ==> r.live[i] < TWO32)
  }

  // ---- what the records say ------------------------------------------------------------------

  /** A location as kept: the constant it indexes is resolved. */
  datatype Place = Place(kind: nat, reg: nat, off: int, konst: nat)

  function PlaceOf(l: Loc, consts: seq<nat>): Place {
    Place(l.kind, l.reg, l.off, if l.kind == CONST_INDEX && 0 <= l.off < |consts| then consts[l.off] else 0)
  }

  /** Base and derived places in order; a derived place equal to its base is not repeated. */
  function Places(gc: seq<Loc>, consts: seq<nat>): seq<Place>
    requires |gc| % 2 == 0
  {
    if |gc| == 0 then []
    else
      var base, derived := PlaceOf(gc[|gc| - 2], consts), PlaceOf(gc[|gc| - 1], consts);
      Places(gc[..|gc| - 2], consts) + if derived == base then [base] else [base, derived]
  }

  /** Every location of the record is among the places, and the other way round. */
  lemma {:induction false} PlacesComplete(gc: seq<Loc>, consts: seq<nat>)
    requires |gc| % 2 == 0
    ensures forall l :: l in gc ==> PlaceOf(l, consts) in Places(gc, consts)
    ensures forall p :: p in Places(gc, consts) ==> exists l :: l in gc && PlaceOf(l, consts) == p
  {
    if |gc| > 0 {
      var rest := gc[..|gc| - 2];
      PlacesComplete(rest, consts);
      assert gc == rest + [gc[|gc| - 2], gc[|gc| - 1]];
    }
  }

  datatype Entry = Entry(ret: nat, stackSize: nat, places: seq<Place>)

  function EntryOf(f: Function, r: Record, consts: seq<nat>): Entry
    requires |r.gc| % 2 == 0
  {
    Entry((f.addr + r.ioff) % TWO64, f.size, Places(r.gc, consts))
  }

  /** `p` is the place of the location `l`: the same kind, register and offset, and the constant it names in the
      table. */
  ghost predicate IsPlaceOf(p: Place, l: Loc, consts: seq<nat>) {
    && p.kind == l.kind && p.reg == l.reg && p.off == l.off
    && (l.kind == 5 && 0 <= l.off < |consts| ==> p.konst == consts[l.off])
  }

  /** What an entry says of its record: the address of its instruction, the frame size of its function, and the
      place of every base and derived pointer, each base before what is derived from it. */
  lemma EntrySays(f: Function, r: Record, consts: seq<nat>)
    requires |r.gc| % 2 == 0
    ensures var e := EntryOf(f, r, consts);
            && e.ret % 0x1_0000_0000_0000_0000 == (f.addr + r.ioff) % 0x1_0000_0000_0000_0000 == e.ret
            && e.stackSize == f.size
            && AllPlaced(r.gc, e.places, consts) && |e.places| <= |r.gc|
  {
    hide Places, AllPlaced;
    PlacesAre(r.gc, consts);
    PlacesCounted(r.gc, consts);
  }

  /** Each location has its place, and each place is that of a location. */
  ghost predicate AllPlaced(gc: seq<Loc>, places: seq<Place>, consts: seq<nat>) {
    && (forall l :: l in gc ==> exists p :: p in places && IsPlaceOf(p, l, consts))
    && (forall p :: p in places ==> exists l :: l in gc && IsPlaceOf(p, l, consts))
  }

  lemma PlacesAre(gc: seq<Loc>, consts: seq<nat>)
    requires |gc| % 2 == 0
    ensures AllPlaced(gc, Places(gc, consts), consts)
  {
    PlacesComplete(gc, consts);
    hide Places, PlaceOf, IsPlaceOf;
    forall l | l in gc
      ensures exists p :: p in Places(gc, consts) && IsPlaceOf(p, l, consts)
    {
      PlaceIs(l, consts);
    }
    forall p | p in Places(gc, consts)
      ensures exists l :: l in gc && IsPlaceOf(p, l, consts)
    {
      var l :| l in gc && PlaceOf(l, consts) == p;
      PlaceIs(l, consts);
    }
  }

  lemma PlaceIs(l: Loc, consts: seq<nat>)
    ensures IsPlaceOf(PlaceOf(l, consts), l, consts)
  {
  }

  lemma {:induction false} PlacesCounted(gc: seq<Loc>, consts: seq<nat>)
    requires |gc| % 2 == 0
    ensures |Places(gc, consts)| <= |gc|
  {
    if |gc| > 0 { PlacesCounted(gc[..|gc| - 2], consts); }
  }

  /** Pairs follow one another: first the base, then what is derived from it unless it is at the base's place. */
  lemma PairAdded(gc: seq<Loc>, base: Loc, derived: Loc, consts: seq<nat>)
    requires |gc| % 2 == 0
    ensures exists b, d :: IsPlaceOf(b, base, consts) && IsPlaceOf(d, derived, consts)
                           && Places(gc + [base, derived], consts)
                              == Places(gc, consts) + if d == b then [b] else [b, d]
  {
    assert (gc + [base, derived])[..|gc|] == gc;
    var b, d := PlaceOf(base, consts), PlaceOf(derived, consts);
    assert IsPlaceOf(b, base, consts) && IsPlaceOf(d, derived, consts);
  }

  // ---- where the numbers are ---------------------------------------------------------------

  lemma TwoBytes(v: nat)
    requires v < 0x1_0000
    ensures Enc(2, v) == [v % 256, v / 256]
  {
    assert Enc(1, v / 256) == [v / 256 % 256] + Enc(0, v / 256 / 256);
  }

  /** A location takes twelve bytes: its kind, a reserved byte, its size, its register, two reserved bytes, and its
      offset or small constant. */
  lemma LocationBytes(l: Loc)
    requires LocFits(l)
    ensures var bs := EncLoc(l);
            && bs[0] == l.kind && bs[2] as int + 256 * (bs[3] as int) == l.size
            && bs[4] as int + 256 * (bs[5] as int) == l.reg
            && Signed32(LE(bs[8..])) == l.off && LE(bs[8..]) == if l.off < 0 then l.off + 0x1_0000_0000 else l.off
  {
    TwoBytes(l.size);
    TwoBytes(l.reg);
    TwoBytes(0);
    Pow256s();
    DecodeNumber(4, Unsigned32(l.off));
    assert Enc(1, l.kind) == [l.kind % 256] + Enc(0, l.kind / 256) && Enc(1, 0) == [0] + Enc(0, 0);
    assert EncLoc(l)[8..] == Enc(4, Unsigned32(l.off));
  }

  /** A leading constant: the offset itself, as 64 bits, or the entry of the constant table it names. */
  lemma ConstantSays(l: Loc, consts: seq<nat>)
    requires Leading(l, consts)
    ensures l.kind == 4 || (l.kind == 5 && 0 <= l.off < |consts|)
    ensures l.kind == 4 && l.off >= 0 && l.off < TWO64 ==> ConstOf(l, consts) == l.off
    ensures l.kind == 4 && -TWO64 <= l.off < 0 ==> ConstOf(l, consts) == l.off + TWO64
    ensures l.kind == 5 ==> ConstOf(l, consts) == consts[l.off]
  {
  }

  /** A map starts with its version, 3, and the numbers of its functions, constants and records. */
  lemma HeaderBytes(m: Map)
    requires |m.funcs| < TWO32 && |m.consts| < TWO32 && CountRecords(m.funcs) < TWO32
    ensures var bs := EncTables(m);
            && bs[0] == 3 && LE(bs[4..8]) == |m.funcs| && LE(bs[8..12]) == |m.consts|
            && LE(bs[12..16]) == CountRecords(m.funcs)
  {
    Pow256s();
    var bs, h := EncTables(m), EncHeader(m);
    assert Enc(1, 3) == [3] + Enc(0, 0) && bs[..16] == h;
    assert bs[4..8] == h[4..8] == Enc(4, |m.funcs|) && bs[8..12] == h[8..12] == Enc(4, |m.consts|);
    assert bs[12..16] == h[12..16] == Enc(4, CountRecords(m.funcs));
    DecodeNumber(4, |m.funcs|);
    DecodeNumber(4, |m.consts|);
    DecodeNumber(4, CountRecords(m.funcs));
  }

  /** A function's entry: its address, its frame size and the number of its records, eight bytes each. */
  lemma FunctionBytes(f: Function)
    requires f.addr < TWO64 && f.size < TWO64 && |f.recs| < TWO64
    ensures var bs := EncFunction(f);
            LE(bs[..8]) == f.addr && LE(bs[8..16]) == f.size && LE(bs[16..]) == |f.recs|
  {
    Pow256s();
    var bs := EncFunction(f);
    assert bs[..8] == Enc(8, f.addr) && bs[8..16] == Enc(8, f.size) && bs[16..] == Enc(8, |f.recs|);
    DecodeNumber(8, f.addr);
    DecodeNumber(8, f.size);
    DecodeNumber(8, |f.recs|);
  }

  /** A record starts with its identifier, the offset of its instruction, flags and the number of its locations. */
  lemma RecordBytes(r: Record)
    requires r.id < TWO64 && r.ioff < TWO32 && r.flags < 0x1_0000 && |AllLocs(r)| < 0x1_0000 && LocsFit(AllLocs(r))
    ensures var bs := EncHead(r);
            && LE(bs[..8]) == r.id && LE(bs[8..12]) == r.ioff
            && bs[14] as int + 256 * (bs[15] as int) == |r.lead| + |r.deopt| + |r.gc|
  {
    Pow256s();
    TwoBytes(r.flags);
    TwoBytes(|AllLocs(r)|);
    hide EncLocs;
    var bs := EncHead(r);
    assert bs[..8] == Enc(8, r.id) && bs[8..12] == Enc(4, r.ioff) && bs[14..16] == Enc(2, |AllLocs(r)|);
    assert bs[14] == bs[14..16][0] && bs[15] == bs[14..16][1];
    DecodeNumber(8, r.id);
    DecodeNumber(4, r.ioff);
  }

  /** Two parts that each keep the alignment. */
  function Join8(a: seq<Byte>, b: seq<Byte>): (r: seq<Byte>)
    requires |a| % 8 == 0 && |b| % 8 == 0
    ensures r == a + b && |r| % 8 == 0
  {
    a + b
  }

  // ---- whole maps ------------------------------------------------------------------------------

  ghost predicate RecordsGood(rs: seq<Record>, consts: seq<nat>, stackSize: nat) {
    forall i :: 0 <= i < |rs| ==> RecordGood(rs[i], consts, stackSize)
  }

  ghost predicate FunctionGood(f: Function, consts: seq<nat>) {
    f.addr < TWO64 && f.size < TWO64 && RecordsGood(f.recs, consts, f.size)
  }

  ghost predicate FunctionsGood(fs: seq<Function>, consts: seq<nat>) {
    forall i :: 0 <= i < |fs| ==> FunctionGood(fs[i], consts)
  }

  function CountRecords(fs: seq<Function>): nat {
    if |fs| == 0 then 0 else |fs[0].recs| + CountRecords(fs[1..])
  }

  ghost predicate MapGood(m: Map) {
    && |m.funcs| < TWO32 && |m.consts| < TWO32 && CountRecords(m.funcs) < TWO32
    && FunctionsGood(m.funcs, m.consts)
    && forall i :: 0 <= i < |m.consts| ==> m.consts[i] < TWO64
  }

  function EncFunction(f: Function): (bs: seq<Byte>)
    ensures |bs| == 24
  {
    Enc(8, f.addr) + Enc(8, f.size) + Enc(8, |f.recs|)
  }

  function EncFunctions(fs: seq<Function>): (bs: seq<Byte>)
    ensures |bs| == 24 * |fs|
  {
    if |fs| == 0 then [] else EncFunction(fs[0]) + EncFunctions(fs[1..])
  }

  ghost function EncRecords(rs: seq<Record>, consts: seq<nat>, stackSize: nat): (bs: seq<Byte>)
    requires RecordsGood(rs, consts, stackSize)
    ensures |bs| % 8 == 0
  {
    if |rs| == 0 then []
    else
      assert RecordGood(rs[0], consts, stackSize);
      assert LocsFit(AllLocs(rs[0]));
      Join8(EncRecord(rs[0]), EncRecords(rs[1..], consts, stackSize))
  }

  /** The records of all functions, grouped by function. */
  ghost function EncBodies(fs: seq<Function>, consts: seq<nat>): (bs: seq<Byte>)
    requires FunctionsGood(fs, consts)
    ensures |bs| % 8 == 0
  {
    if |fs| == 0 then []
    else
      assert FunctionGood(fs[0], consts);
      Join8(EncRecords(fs[0].recs, consts, fs[0].size), EncBodies(fs[1..], consts))
  }

  function EncHeader(m: Map): (bs: seq<Byte>)
    ensures |bs| == 16
  {
    Enc(1, 3) + Enc(1, 0) + Enc(2, 0) + Enc(4, |m.funcs|) + Enc(4, |m.consts|) + Enc(4, CountRecords(m.funcs))
  }

  /** Header, function table and constant table. */
  function EncTables(m: Map): (bs: seq<Byte>)
    ensures |bs| == 16 + 24 * |m.funcs| + 8 * |m.consts| && |bs| % 8 == 0
  {
    EncHeader(m) + EncFunctions(m.funcs) + EncWords(m.consts, 8)
  }

  ghost function EncMap(m: Map): (bs: seq<Byte>)
    requires MapGood(m)
    ensures |bs| % 8 == 0
  {
    Join8(EncTables(m), EncBodies(m.funcs, m.consts))
  }

  function EntriesOfRecords(f: Function, rs: seq<Record>, consts: seq<nat>): seq<Entry>
    requires forall i :: 0 <= i < |rs| ==> |rs[i].gc| % 2 == 0
  {
    if |rs| == 0 then [] else [EntryOf(f, rs[0], consts)] + EntriesOfRecords(f, rs[1..], consts)
  }

  ghost function EntriesOfFunctions(fs: seq<Function>, consts: seq<nat>): seq<Entry>
    requires FunctionsGood(fs, consts)
  {
    if |fs| == 0 then []
    else
      assert FunctionGood(fs[0], consts);
      assert forall i :: 0 <= i < |fs[0].recs| ==> RecordGood(fs[0].recs[i], consts, fs[0].size);
      EntriesOfRecords(fs[0], fs[0].recs, consts) + EntriesOfFunctions(fs[1..], consts)
  }

  /** The records of a map, each with its function's address and frame size. */
  ghost function EntriesOfMap(m: Map): seq<Entry>
    requires MapGood(m)
  {
    EntriesOfFunctions(m.funcs, m.consts)
  }

  ghost predicate MapsGood(ms: seq<Map>) {
    forall i :: 0 <= i < |ms| ==> MapGood(ms[i])
  }

  /** The contributions of several object files, one after the other. */
  ghost function EncMaps(ms: seq<Map>): (bs: seq<Byte>)
    requires MapsGood(ms)
    ensures |bs| % 8 == 0
  {
    if |ms| == 0 then [] else Join8(EncMap(ms[0]), EncMaps(ms[1..]))
  }

  ghost function EntriesOfMaps(ms: seq<Map>): seq<Entry>
    requires MapsGood(ms)
  {
    if |ms| == 0 then [] else EntriesOfMap(ms[0]) + EntriesOfMaps(ms[1..])
  }

  // ---- bytes at an offset -------------------------------------------------------------------------

  ghost predicate HasAt(p: seq<Byte>, off: nat, bs: seq<Byte>) {
    off + |bs| <= |p| && p[off..off + |bs|] == bs
  }

  lemma HasJoin(p: seq<Byte>, off: nat, a: seq<Byte>, b: seq<Byte>)
    ensures HasAt(p, off, a + b) <==> HasAt(p, off, a) && HasAt(p, off + |a|, b)
  {
    if off + |a| + |b| <= |p| {
      assert p[off..off + |a| + |b|] == p[off..off + |a|] + p[off + |a|..off + |a| + |b|];
      if p[off..off + |a| + |b|] == a + b {
        assert p[off..off + |a|] == (a + b)[..|a|] && p[off + |a|..off + |a| + |b|] == (a + b)[|a|..];
      }
    }
  }

  lemma NumberAt(p: seq<Byte>, off: nat, n: nat, v: nat)
    requires HasAt(p, off, Enc(n, v)) && v < Pow256(n)
    ensures off + n <= |p| && LE(p[off..off + n]) == v
  {
    DecodeNumber(n, v);
  }

  /** The i-th word of a table. */
  lemma {:induction false} WordAt(p: seq<Byte>, off: nat, ws: seq<nat>, n: nat, i: nat)
    requires HasAt(p, off, EncWords(ws, n)) && i < |ws|
    ensures HasAt(p, off + i * n, Enc(n, ws[i]))
    decreases i
  {
    HasJoin(p, off, Enc(n, ws[0]), EncWords(ws[1..], n));
    if i > 0 {
      WordAt(p, off + n, ws[1..], n, i - 1);
      assert n + (i - 1) * n == i * n;
    }
  }

  lemma {:induction false} FunctionAt(p: seq<Byte>, off: nat, fs: seq<Function>, i: nat)
    requires HasAt(p, off, EncFunctions(fs)) && i < |fs|
    ensures HasAt(p, off + 24 * i, EncFunction(fs[i]))
    decreases i
  {
    HasJoin(p, off, EncFunction(fs[0]), EncFunctions(fs[1..]));
    if i > 0 { FunctionAt(p, off + 24, fs[1..], i - 1); }
  }
}
