/** Parsing stack maps and looking a return address up in them (`stackmap.c`). */
module StackMap {
  import opened Options
  import opened StackMapFormat

  /** A record as kept: its places are locs[first..first + nloc]. */
  datatype Rec = Rec(ret: nat, stackSize: nat, first: nat, nloc: nat)

  ghost predicate RecIn(r: Rec, locs: seq<Place>) {
    r.first + r.nloc <= |locs|
  }

  ghost function Shown(recs: seq<Rec>, locs: seq<Place>): (es: seq<Entry>)
    ensures |es| == |recs|
  {
    seq(|recs|, i requires 0 <= i < |recs| =>
      Entry(recs[i].ret, recs[i].stackSize,
            if RecIn(recs[i], locs) then locs[recs[i].first..recs[i].first + recs[i].nloc] else []))
  }

  ghost predicate RecsIn(recs: seq<Rec>, locs: seq<Place>) {
    forall i :: 0 <= i < |recs| ==> RecIn(recs[i], locs)
  }

  lemma ShownGrows(recs: seq<Rec>, locs: seq<Place>, more: seq<Place>)
    requires RecsIn(recs, locs)
    ensures RecsIn(recs, locs + more) && Shown(recs, locs + more) == Shown(recs, locs)
  {
    forall i | 0 <= i < |recs|
      ensures RecIn(recs[i], locs + more) && Shown(recs, locs + more)[i] == Shown(recs, locs)[i] {
      assert RecIn(recs[i], locs);
      var r := recs[i];
      assert (locs + more)[r.first..r.first + r.nloc] == locs[r.first..r.first + r.nloc];
    }
  }

  /** A record added with the places from `first` on. */
  lemma ShownMore(recs: seq<Rec>, locs: seq<Place>, more: seq<Place>, ret: nat, size: nat)
    requires RecsIn(recs, locs)
    ensures var recs' := recs + [Rec(ret, size, |locs|, |more|)];
            RecsIn(recs', locs + more) && Shown(recs', locs + more) == Shown(recs, locs) + [Entry(ret, size, more)]
  {
    ShownGrows(recs, locs, more);
    assert (locs + more)[|locs|..|locs| + |more|] == more;
  }

  lemma {:induction false} PlacesSnoc(gc: seq<Loc>, base: Loc, derived: Loc, consts: seq<nat>)
    requires |gc| % 2 == 0
    ensures Places(gc + [base, derived], consts)
            == Places(gc, consts)
               + if PlaceOf(derived, consts) == PlaceOf(base, consts) then [PlaceOf(base, consts)]
                 else [PlaceOf(base, consts), PlaceOf(derived, consts)]
  {
    assert (gc + [base, derived])[..|gc|] == gc;
  }

  /** The places of the first k locations; a base without its derived pointer yet is kept. */
  ghost function PlacesSoFar(gc: seq<Loc>, k: nat, consts: seq<nat>): seq<Place>
    requires k <= |gc|
  {
    if k % 2 == 0 then Places(gc[..k], consts) else Places(gc[..k - 1], consts) + [PlaceOf(gc[k - 1], consts)]
  }

  lemma {:induction false} PlacesNext(gc: seq<Loc>, k: nat, consts: seq<nat>)
    requires k < |gc|
    ensures k % 2 == 1 ==> |PlacesSoFar(gc, k, consts)| > 0
                           && PlacesSoFar(gc, k, consts)[|PlacesSoFar(gc, k, consts)| - 1] == PlaceOf(gc[k - 1], consts)
    ensures PlacesSoFar(gc, k + 1, consts)
            == if k % 2 == 1 && PlaceOf(gc[k], consts) == PlaceOf(gc[k - 1], consts) then PlacesSoFar(gc, k, consts)
               else PlacesSoFar(gc, k, consts) + [PlaceOf(gc[k], consts)]
  {
    hide Places, PlaceOf;
    if k % 2 == 1 {
      assert gc[..k + 1] == gc[..k - 1] + [gc[k - 1], gc[k]];
      PlacesSnoc(gc[..k - 1], gc[k - 1], gc[k], consts);
      Alternatives(Places(gc[..k - 1], consts), PlaceOf(gc[k - 1], consts), PlaceOf(gc[k], consts));
    } else {
      assert gc[..k + 1 - 1] == gc[..k];
    }
  }

  lemma Alternatives(s: seq<Place>, base: Place, derived: Place)
    ensures s + (if derived == base then [base] else [base, derived])
         == (s + [base]) + (if derived == base then [] else [derived])
    ensures (s + [base]) + [] == s + [base]
  {
  }

  lemma PlacesStart(gc: seq<Loc>, consts: seq<nat>)
    ensures PlacesSoFar(gc, 0, consts) == []
    ensures |gc| % 2 == 0 ==> PlacesSoFar(gc, |gc|, consts) == Places(gc, consts)
  {
    assert gc[..0] == [] && gc[..|gc|] == gc;
  }

  class Parser {
    const p: seq<Byte>
    var off: nat
    var recs: seq<Rec>
    var locs: seq<Place>

    ghost predicate Valid()
      reads this
    {
      off <= |p| && RecsIn(recs, locs)
    }

    constructor (p: seq<Byte>)
      ensures Valid() && this.p == p && off == 0 && recs == [] && locs == []
    {
      this.p, off, recs, locs := p, 0, [], [];
    }

    // ---- bounds-checked reading ----------------------------------------------------------

    /** The number in the next k bytes. */
    method Read(k: nat) returns (ok: bool, v: nat)
      requires off <= |p|
      modifies `off
      ensures ok <==> old(off) + k <= |p|
      ensures off == if ok then old(off) + k else old(off)
      ensures ok ==> v == LE(p[old(off)..old(off) + k])
    {
      v := 0;
      ok := k <= |p| - off;
      if ok {
        v := LE(p[off..off + k]);
        off := off + k;
      }
    }

    method Skip(k: nat) returns (ok: bool)
      requires off <= |p|
      modifies `off
      ensures ok <==> old(off) + k <= |p|
      ensures off == if ok then old(off) + k else old(off)
    {
      ok := k <= |p| - off;
      if ok { off := off + k; }
    }

    method Align8() returns (ok: bool)
      requires off <= |p|
      modifies `off
      ensures ok <==> old(off) + Pad(old(off)) <= |p|
      ensures off == if ok then old(off) + Pad(old(off)) else old(off)
    {
      var pad := (8 - off % 8) % 8;
      ok := Skip(pad);
    }

    /** The number v, if it is what the bytes say. */
    method ReadNumber(k: nat, ghost v: nat, ghost good: bool) returns (ok: bool, w: nat)
      requires off <= |p| && (good ==> HasAt(p, off, Enc(k, v)) && v < Pow256(k))
      modifies `off
      ensures off == if ok then old(off) + k else old(off)
      ensures off <= |p| && (good ==> ok && w == v)
    {
      if good { NumberAt(p, off, k, v); }
      ok, w := Read(k);
    }

    /** One location. */
    method ReadLoc(ghost l: Loc, ghost good: bool) returns (ok: bool, kind: nat, size: nat, reg: nat, val: int)
      requires off <= |p| && (good ==> LocFits(l) && HasAt(p, off, EncLoc(l)))
      modifies `off
      ensures off <= |p| && (ok ==> off == old(off) + 12)
      ensures good ==> ok && kind == l.kind && size == l.size && reg == l.reg && val == l.off
    {
      hide HasAt, Enc, LE;
      kind, size, reg, val := 0, 0, 0, 0;
      if good { LocParts(p, off, l); }
      Pow256s();
      ok, kind := ReadNumber(1, l.kind, good);
      if !ok { return; }
      var skipped;
      ok, skipped := ReadNumber(1, 0, good);
      if !ok { return; }
      ok, size := ReadNumber(2, l.size, good);
      if !ok { return; }
      ok, reg := ReadNumber(2, l.reg, good);
      if !ok { return; }
      ok, skipped := ReadNumber(2, 0, good);
      if !ok { return; }
      var v;
      ok, v := ReadNumber(4, if good then Unsigned32(l.off) else 0, good);
      if !ok { return; }
      val := Signed32(v);
    }

    /** A word of a table. */
    method TableWord(o: nat) returns (v: nat)
      requires o + 8 <= |p|
      ensures v == LE(p[o..o + 8])
    {
      v := LE(p[o..o + 8]);
    }

    // ---- records -----------------------------------------------------------------------------

    /** The constants a location may index. */
    ghost predicate Table(co: nat, nconst: nat, consts: seq<nat>, good: bool) {
      co + 8 * nconst <= |p| && (good ==> |consts| == nconst && ConstsAt(p, co, nconst, consts))
    }

    /** The three leading constants; the third is the number of deopt locations. */
    method ReadLead(co: nat, nconst: nat, ghost lead: seq<Loc>, ghost consts: seq<nat>, ghost good: bool)
      returns (ok: bool, ndeopt: int)
      requires off <= |p| && Table(co, nconst, consts, good)
      requires good ==> |lead| == 3 && LocsFit(lead) && HasAt(p, off, EncLocs(lead))
      requires good ==> forall i :: 0 <= i < 3 ==> Leading(lead[i], consts)
      modifies `off
      ensures off <= |p| && (ok ==> off == old(off) + 36)
      ensures good ==> ok && ndeopt == ConstOf(lead[2], consts)
    {
      hide HasAt, EncLocs, ConstsAt;
      ok, ndeopt := true, 0;
      if good { LocsFrom(p, off, lead); }
      for k := 0 to 3
        invariant off == old(off) + 12 * k && off <= |p|
        invariant good ==> HasAt(p, off, EncLocs(lead[k..]))
        invariant good && k == 3 ==> ndeopt == ConstOf(lead[2], consts)
      {
        if good { NextLoc(p, off, lead, k); }
        var kind, size, reg, val;
        ok, kind, size, reg, val := ReadLoc(if good then lead[k] else Loc(0, 0, 0, 0), good);
        if !ok { return; }
        var v := 0;
        if kind == CONSTANT {
          v := val % TWO64;
        } else if kind == CONST_INDEX {
          if val < 0 || val >= nconst {
            return false, 0;
          }
          if good { ConstAt(p, co, nconst, consts, val); }
          v := TableWord(co + val * 8);
        } else {
          return false, 0;
        }
        if k == 2 { ndeopt := v; }
      }
    }

    method SkipDeopt(n: nat, ghost deopt: seq<Loc>, ghost good: bool) returns (ok: bool)
      requires off <= |p| && (good ==> |deopt| == n && LocsFit(deopt) && HasAt(p, off, EncLocs(deopt)))
      modifies `off
      ensures off <= |p| && (ok ==> off == old(off) + 12 * n) && (good ==> ok)
    {
      ok := true;
      for k := 0 to n
        invariant off == old(off) + 12 * k && off <= |p|
      {
        ok := Skip(12);
        if !ok { return; }
      }
    }

    /** The gc pointer locations, added to the places. */
    method ReadGc(n: nat, stackSize: nat, co: nat, nconst: nat, ghost gc: seq<Loc>, ghost consts: seq<nat>,
        ghost good: bool)
      returns (ok: bool, nloc: nat)
      requires off <= |p| && Table(co, nconst, consts, good) && n % 2 == 0
      requires good ==> |gc| == n && LocsFit(gc) && HasAt(p, off, EncLocs(gc))
      requires good ==> forall i :: 0 <= i < |gc| ==> Findable(gc[i], consts, stackSize)
      modifies `off, `locs
      ensures off <= |p| && (ok ==> off == old(off) + 12 * n)
      ensures |locs| == |old(locs)| + nloc && old(locs) <= locs
      ensures good ==> ok && locs == old(locs) + Places(gc, consts)
    {
      hide HasAt, EncLocs, ConstsAt, PlacesSoFar, Places;
      ok, nloc := true, 0;
      if good {
        LocsFrom(p, off, gc);
        PlacesStart(gc, consts);
      }
      for k := 0 to n
        invariant off == old(off) + 12 * k && off <= |p|
        invariant |locs| == |old(locs)| + nloc && old(locs) <= locs && (k > 0 ==> nloc > 0)
        invariant good ==> HasAt(p, off, EncLocs(gc[k..])) && locs == old(locs) + PlacesSoFar(gc, k, consts)
      {
        if good {
          NextLoc(p, off, gc, k);
          PlacesNext(gc, k, consts);
        }
        var place;
        ok, place := ReadPlace(stackSize, co, nconst, if good then gc[k] else Loc(0, 0, 0, 0), consts, good);
        if !ok { return; }
        if k % 2 == 1 && locs[|locs| - 1] == place {
          continue;
        }
        locs := locs + [place];
        nloc := nloc + 1;
      }
    }

    /** A gc pointer location that can be found from the frame. */
    method ReadPlace(stackSize: nat, co: nat, nconst: nat, ghost l: Loc, ghost consts: seq<nat>, ghost good: bool)
      returns (ok: bool, place: Place)
      requires off <= |p| && Table(co, nconst, consts, good)
      requires good ==> LocFits(l) && HasAt(p, off, EncLoc(l)) && Findable(l, consts, stackSize)
      modifies `off
      ensures off <= |p| && (ok ==> off == old(off) + 12)
      ensures good ==> ok && place == PlaceOf(l, consts)
    {
      hide HasAt, ConstsAt;
      place := Place(0, 0, 0, 0);
      var kind, size, reg, val;
      ok, kind, size, reg, val := ReadLoc(l, good);
      if !ok { return; }
      var konst := 0;
      if kind == INDIRECT || kind == DIRECT {
        if kind == INDIRECT && size != 8 {
          return false, place;
        }
        if reg != SP && reg != FP {
          return false, place;
        }
        if reg == SP && stackSize == STACK_SIZE_UNKNOWN {
          return false, place;
        }
      } else if kind == CONST_INDEX {
        if val < 0 || val >= nconst {
          return false, place;
        }
        if good { ConstAt(p, co, nconst, consts, val); }
        konst := TableWord(co + val * 8);
      } else if kind != CONSTANT {
        return false, place;
      }
      place := Place(kind, reg, val, konst);
    }

    /** One record of the function at `addr` with frames of `stackSize`. */
    method ParseRecord(addr: nat, stackSize: nat, co: nat, nconst: nat,
                       ghost r: Record, ghost consts: seq<nat>, ghost good: bool)
      returns (ok: bool)
      requires Valid() && Table(co, nconst, consts, good)
      requires good ==> RecordGood(r, consts, stackSize) && HasAt(p, off, EncRecord(r)) && off % 8 == 0
      modifies this
      ensures Valid() && (ok ==> off >= old(off))
      ensures good ==> ok && off == old(off) + |EncRecord(r)|
      ensures good ==> Shown(recs, locs) == old(Shown(recs, locs))
                                            + [Entry((addr + r.ioff) % TWO64, stackSize, Places(r.gc, consts))]
    {
      hide HasAt, ConstsAt, EncRecord, EncLocs, Places, Shown, RecsIn, EncWords, Enc;
      ghost var start := off;
      if good { RecordParts(p, off, r, consts, stackSize); }
      var ioff, nloc;
      ok, ioff, nloc := ReadRecordHead(r, good);
      if !ok { return; }
      if nloc < 3 {
        return false;
      }
      var ndeopt;
      ok, ndeopt := ReadLead(co, nconst, r.lead, consts, good);
      if !ok { return; }
      if ndeopt > nloc - 3 || ndeopt < 0 {
        return false;
      }
      var n := nloc - 3 - ndeopt;
      if n % 2 == 1 {
        return false;
      }
      ok := SkipDeopt(ndeopt, r.deopt, good);
      if !ok { return; }
      ghost var recs0, locs0 := recs, locs;
      var first := |locs|;
      var kept;
      ok, kept := ReadGc(n, stackSize, co, nconst, r.gc, consts, good);
      PlacesAdded(recs0, locs0, locs, (addr + ioff) % TWO64, stackSize);
      if !ok { return; }
      recs := recs + [Rec((addr + ioff) % TWO64, stackSize, first, kept)];
      ok := SkipTail(start, r, good);
    }

    /** Id, offset, flags and number of locations. */
    method ReadRecordHead(ghost r: Record, ghost good: bool) returns (ok: bool, ioff: nat, nloc: nat)
      requires off <= |p|
      requires good ==> && r.id < TWO64 && r.ioff < TWO32 && r.flags < 0x1_0000 && |AllLocs(r)| < 0x1_0000
                        && HasAt(p, off, Enc(8, r.id)) && HasAt(p, off + 8, Enc(4, r.ioff))
                        && HasAt(p, off + 12, Enc(2, r.flags)) && HasAt(p, off + 14, Enc(2, |AllLocs(r)|))
      modifies `off
      ensures off <= |p| && (ok ==> off == old(off) + 16)
      ensures good ==> ok && ioff == r.ioff && nloc == |AllLocs(r)|
    {
      hide HasAt, Enc;
      Pow256s();
      ioff, nloc := 0, 0;
      var skipped;
      ok, skipped := ReadNumber(8, r.id, good);
      if !ok { return; }
      ok, ioff := ReadNumber(4, r.ioff, good);
      if !ok { return; }
      ok, skipped := ReadNumber(2, r.flags, good);
      if !ok { return; }
      ok, nloc := ReadNumber(2, |AllLocs(r)|, good);
    }

    /** Padding, live-outs, padding. */
    method SkipTail(ghost start: nat, ghost r: Record, ghost good: bool) returns (ok: bool)
      requires off <= |p|
      requires good ==> start % 8 == 0 && off == start + HeadSize(r) && TailAt(p, start, r) && |r.live| < 0x1_0000
      modifies `off
      ensures old(off) <= off <= |p|
      ensures good ==> ok && off == start + RecordSize(r)
    {
      hide HasAt, Enc;
      Pow256s();
      if good { PadFrom(start, HeadSize(r)); }
      ok := Align8();
      if !ok { return; }
      var skipped, nlive;
      ok, skipped := ReadNumber(2, 0, good);
      if !ok { return; }
      ok, nlive := ReadNumber(2, |r.live|, good);
      if !ok { return; }
      ok := Skip(nlive * 4);
      if !ok { return; }
      if good { PadFrom(start, HeadSize(r) + Pad(HeadSize(r)) + 4 + |r.live| * 4); }
      ok := Align8();
    }

    // ---- maps ----------------------------------------------------------------------------------

    /** The record counts of the functions sum to the number of records. */
    method CheckCounts(fo: nat, nfunc: nat, nrec: nat, ghost fs: seq<Function>, ghost good: bool) returns (ok: bool)
      requires fo + 24 * nfunc <= |p| && nrec < TWO32
      requires good ==> FunctionsAt(p, fo, nfunc, fs) && nrec == CountRecords(fs)
      ensures ok <==> CountsAt(p, fo, nfunc) == nrec
      ensures good ==> ok
    {
      hide FunctionsAt, HasAt, LE;
      Pow256s();
      ok := true;
      var seen := 0;
      if good { assert fs[0..] == fs; FunctionsCounted(p, fo, nfunc, fs); }
      for i := 0 to nfunc
        invariant 0 <= seen <= nrec && seen == CountsAt(p, fo, i)
        invariant good ==> |fs| == nfunc && seen + CountRecords(fs[i..]) == CountRecords(fs)
      {
        if good {
          FunctionFields(p, fo, nfunc, fs, i);
          CountRest(fs, i);
        }
        var c := TableWord(fo + i * 24 + 16);
        NumberBound(p[fo + i * 24 + 16..fo + i * 24 + 24]);
        CountsGrow(p, fo, i + 1, nfunc);
        seen := (seen + c) % TWO64;
        if seen < c || seen > nrec {
          return false;
        }
      }
      if good { CountNone(fs); }
      if seen != nrec {
        return false;
      }
    }

    /** One complete stack map. */
    method ParseMap(ghost m: Map, ghost good: bool) returns (ok: bool)
      requires Valid()
      requires good ==> MapGood(m) && HasAt(p, off, EncMap(m)) && off % 8 == 0
      modifies this
      ensures Valid() && (ok ==> off > old(off))
      ensures good ==> ok && off == old(off) + |EncMap(m)|
      ensures good ==> Shown(recs, locs) == old(Shown(recs, locs)) + EntriesOfMap(m)
    {
      hide HasAt, FunctionsAt, ConstsAt, EncMap, EntriesOfMap, Shown, RecsIn, EncTables, EncBodies, CountsAt, LE;
      ghost var start := off;
      if good { MapParts(p, off, m); }
      var nfunc, nconst, nrec;
      ok, nfunc, nconst, nrec := ReadHeader(m, good);
      if !ok { return; }
      var fo, co;
      ok, fo, co := SkipTables(nfunc, nconst);
      if !ok { return; }
      ok := CheckCounts(fo, nfunc, nrec, m.funcs, good);
      if !ok { return; }
      ok := ParseRecords(fo, nfunc, co, nconst, nrec, m.funcs, m.consts, good);
    }

    /** The tables of functions and constants. */
    method SkipTables(nfunc: nat, nconst: nat) returns (ok: bool, fo: nat, co: nat)
      requires off <= |p|
      modifies `off
      ensures old(off) <= off <= |p|
      ensures ok <==> old(off) + 24 * nfunc + 8 * nconst <= |p|
      ensures ok ==> fo == old(off) && co == fo + 24 * nfunc && off == co + 8 * nconst
    {
      fo, co := off, off;
      ok := Skip(nfunc * 24);
      if !ok { return; }
      co := off;
      ok := Skip(nconst * 8);
    }

    method ReadHeader(ghost m: Map, ghost good: bool) returns (ok: bool, nfunc: nat, nconst: nat, nrec: nat)
      requires off <= |p| && (good ==> HeaderAt(p, off, m))
      modifies `off
      ensures off <= |p| && (ok ==> off == old(off) + 16 && nrec < TWO32)
      ensures good ==> ok && nfunc == |m.funcs| && nconst == |m.consts| && nrec == CountRecords(m.funcs)
    {
      hide HasAt, Enc;
      nfunc, nconst, nrec := 0, 0, 0;
      Pow256s();
      var version, skipped;
      ok, version := ReadNumber(1, 3, good);
      if !ok { return; }
      if version != 3 {
        ok := false;
        return;
      }
      ok, skipped := ReadNumber(1, 0, good);
      if !ok { return; }
      ok, skipped := ReadNumber(2, 0, good);
      if !ok { return; }
      ok, nfunc := ReadNumber(4, |m.funcs|, good);
      if !ok { return; }
      ok, nconst := ReadNumber(4, |m.consts|, good);
      if !ok { return; }
      ghost var at := off;
      ok, nrec := Read(4);
      if ok { NumberBound(p[at..at + 4]); }
      if good { NumberAt(p, at, 4, CountRecords(m.funcs)); }
    }

    /** The records, grouped by function; functions without records are passed over. */
    method ParseRecords(fo: nat, nfunc: nat, co: nat, nconst: nat, nrec: nat,
                        ghost fs: seq<Function>, ghost consts: seq<nat>, ghost good: bool)
      returns (ok: bool)
      requires Valid() && fo + 24 * nfunc <= |p| && Table(co, nconst, consts, good)
      requires good ==> FunctionsAt(p, fo, nfunc, fs) && FunctionsGood(fs, consts)
      requires good ==> nrec == CountRecords(fs) && HasAt(p, off, EncBodies(fs, consts)) && off % 8 == 0
      modifies this
      ensures Valid() && (ok ==> off >= old(off))
      ensures good ==> ok && off == old(off) + |EncBodies(fs, consts)|
      ensures good ==> Shown(recs, locs) == old(Shown(recs, locs)) + EntriesOfFunctions(fs, consts)
    {
      hide HasAt, FunctionsAt, ConstsAt, Shown, RecsIn, EncBodies, EncRecords, Ahead, EntriesOfFunctions,
           EntriesOfRecords, FunctionsGood, RecordsGood, RecordGood, EncRecord, CountRecords;
      ghost var end, all := off + if good then |EncBodies(fs, consts)| else 0, Shown(recs, locs);
      if good { all := all + EntriesOfFunctions(fs, consts); }
      var fi, left, addr, size := 0, 0, 0, 0;
      ghost var todo: seq<Record> := [];
      if good {
        AheadStart(p, off, fs, consts, Shown(recs, locs));
        FunctionsCounted(p, fo, nfunc, fs);
      }
      for i := 0 to nrec
        invariant Valid() && fi <= nfunc && off >= old(off)
        invariant good ==> Ahead(p, off, fs, fi, todo, addr, size, consts, Shown(recs, locs), all, end)
        invariant good ==> |fs| == nfunc && left == |todo| && nrec - i == left + CountRecords(fs[fi..])
      {
        while left == 0
          modifies {}
          invariant Valid() && fi <= nfunc
          invariant good ==> Ahead(p, off, fs, fi, todo, addr, size, consts, Shown(recs, locs), all, end)
          invariant good ==> |fs| == nfunc && left == |todo| && nrec - i == left + CountRecords(fs[fi..])
          decreases nfunc - fi
        {
          if fi >= nfunc {
            if good { CountNone(fs); }
            return false;
          }
          if good {
            AheadFunction(p, off, fs, fi, addr, size, consts, Shown(recs, locs), all, end);
            FunctionFields(p, fo, nfunc, fs, fi);
            CountRest(fs, fi);
            todo := fs[fi].recs;
          }
          addr := TableWord(fo + fi * 24);
          size := TableWord(fo + fi * 24 + 8);
          left := TableWord(fo + fi * 24 + 16);
          fi := fi + 1;
        }
        left := left - 1;
        if good { AheadRecord(p, off, fs, fi, todo, addr, size, consts, Shown(recs, locs), all, end); }
        ok := ParseRecord(addr, size, co, nconst, if good then todo[0] else NoRecord(), consts, good);
        if !ok { return; }
        if good { todo := todo[1..]; }
      }
      if good { AheadEnd(p, off, fs, fi, todo, addr, size, consts, Shown(recs, locs), all, end); }
      ok := left == 0;
    }

    // ---- the section and its index ------------------------------------------------------------

    /** Parse the whole section. */
    method ParseSection(ghost ms: seq<Map>, ghost good: bool) returns (ok: bool)
      requires Valid() && off == 0 && recs == []
      requires good ==> MapsGood(ms) && p == EncMaps(ms)
      modifies this
      ensures Valid()
      ensures good ==> ok && off == |p| && Shown(recs, locs) == EntriesOfMaps(ms)
    {
      hide HasAt, EncMap, EntriesOfMap, Shown, RecsIn, EncMaps, MapsGood, EntriesOfMaps;
      ok := true;
      ghost var todo, all := ms, if good then EntriesOfMaps(ms) else [];
      NoneShown(locs);
      if good { SectionStart(p, ms); }
      while off < |p|
        invariant Valid()
        invariant good ==> MapsGood(todo) && HasAt(p, off, EncMaps(todo))
        invariant good ==> off + |EncMaps(todo)| == |p| && off % 8 == 0
        invariant good ==> all == Shown(recs, locs) + EntriesOfMaps(todo)
        decreases |p| - off
      {
        if good { NextMap(p, off, todo); }
        ok := ParseMap(if good then todo[0] else Map([], []), good);
        if !ok { return; }
        ok := Align8();
        if !ok { return; }
        if good { todo := todo[1..]; }
      }
      if good { SectionEnd(todo); }
    }

    /** Sort the records by return address and check that no two have the same. */
    method Index() returns (ok: bool)
      requires Valid()
      modifies `recs
      ensures Valid() && recs == Sorted(old(recs)) && Ordered(recs)
      ensures ok <==> DistinctRets(old(recs))
      ensures forall e :: e in Shown(recs, locs) <==> e in old(Shown(recs, locs))
    {
      hide Shown, RecsIn, DistinctRets;
      SortedOrdered(recs);
      SortedDistinct(recs);
      SortedShows(recs, locs);
      recs := Sorted(recs);
      var i := 1;
      while i < |recs|
        modifies {}
        invariant i >= 1
        invariant forall j, k :: 0 <= j < k < i && k < |recs| ==> recs[j].ret < recs[k].ret
      {
        if recs[i].ret == recs[i - 1].ret {
          NotDistinct(recs, i - 1, i);
          return false;
        }
        i := i + 1;
      }
      OrderedDistinct(recs);
      return true;
    }

    /** Parse the section and make its index. */
    method StackmapInit(ghost ms: seq<Map>, ghost good: bool) returns (ok: bool)
      requires Valid() && off == 0 && recs == []
      requires good ==> MapsGood(ms) && p == EncMaps(ms)
      modifies this
      ensures Valid() && (ok ==> Ordered(recs) && DistinctRets(recs))
      ensures good ==> (ok <==> DistinctEntries(EntriesOfMaps(ms)))
      ensures good ==> forall e :: e in Shown(recs, locs) <==> e in EntriesOfMaps(ms)
    {
      hide Shown, RecsIn, DistinctRets, Sorted, EntriesOfMaps, EncMaps, DistinctEntries, Ordered, MapsGood;
      ok := ParseSection(ms, good);
      if !ok { return; }
      ShownDistinct(recs, locs);
      SortedDistinct(recs);
      ok := Index();
    }

    /** The record of a return address. */
    method FindRec(ret: nat) returns (r: Option<nat>)
      requires Ordered(recs)
      ensures match r
              case Some(i) => i < |recs| && recs[i].ret == ret
              case None => forall i :: 0 <= i < |recs| ==> recs[i].ret != ret
    {
      var lo, hi := 0, |recs|;
      while lo < hi
        invariant 0 <= lo <= hi <= |recs|
        invariant forall i :: 0 <= i < lo ==> recs[i].ret < ret
        invariant forall i :: hi <= i < |recs| ==> recs[i].ret > ret
      {
        var mid := lo + (hi - lo) / 2;
        if recs[mid].ret < ret {
          lo := mid + 1;
        } else if recs[mid].ret > ret {
          hi := mid;
        } else {
          return Some(mid);
        }
      }
      return None;
    }
  }

  // ---- the order of the records -----------------------------------------------------------

  ghost predicate Ordered(rs: seq<Rec>) {
    forall i, j :: 0 <= i < j < |rs| ==> rs[i].ret <= rs[j].ret
  }

  ghost predicate DistinctRets(rs: seq<Rec>) {
    forall i, j :: 0 <= i < j < |rs| ==> rs[i].ret != rs[j].ret
  }

  ghost predicate DistinctEntries(es: seq<Entry>) {
    forall i, j :: 0 <= i < j < |es| ==> es[i].ret != es[j].ret
  }

  function Inserted(r: Rec, rs: seq<Rec>): (s: seq<Rec>)
    ensures |s| == |rs| + 1
  {
    if |rs| == 0 || r.ret <= rs[0].ret then [r] + rs else [rs[0]] + Inserted(r, rs[1..])
  }

  /** The records in the order of their return addresses. */
  function Sorted(rs: seq<Rec>): (s: seq<Rec>)
    ensures |s| == |rs|
  {
    if |rs| == 0 then [] else Inserted(rs[0], Sorted(rs[1..]))
  }

  lemma {:induction false} InsertedMembers(r: Rec, rs: seq<Rec>)
    ensures forall x :: x in Inserted(r, rs) <==> x == r || x in rs
  {
    if |rs| > 0 && r.ret > rs[0].ret {
      InsertedMembers(r, rs[1..]);
      assert rs == [rs[0]] + rs[1..];
    }
  }

  lemma {:induction false} InsertedOrdered(r: Rec, rs: seq<Rec>)
    requires Ordered(rs)
    ensures Ordered(Inserted(r, rs))
  {
    if |rs| > 0 && r.ret > rs[0].ret {
      InsertedOrdered(r, rs[1..]);
      InsertedMembers(r, rs[1..]);
      var rest := Inserted(r, rs[1..]);
      forall i | 0 <= i < |rest| ensures rs[0].ret <= rest[i].ret {
        assert rest[i] in rest;
      }
    }
  }

  lemma {:induction false} SortedMembers(rs: seq<Rec>)
    ensures forall x :: x in Sorted(rs) <==> x in rs
  {
    if |rs| > 0 {
      SortedMembers(rs[1..]);
      InsertedMembers(rs[0], Sorted(rs[1..]));
      assert rs == [rs[0]] + rs[1..];
    }
  }

  lemma {:induction false} SortedOrdered(rs: seq<Rec>)
    ensures Ordered(Sorted(rs))
  {
    if |rs| > 0 {
      SortedOrdered(rs[1..]);
      InsertedOrdered(rs[0], Sorted(rs[1..]));
    }
  }

  ghost predicate HasRet(rs: seq<Rec>, ret: nat) {
    exists x :: x in rs && x.ret == ret
  }

  lemma DistinctTail(r: Rec, rs: seq<Rec>)
    requires DistinctRets([r] + rs)
    ensures DistinctRets(rs) && !HasRet(rs, r.ret)
  {
    var s := [r] + rs;
    forall i, j | 0 <= i < j < |rs| ensures rs[i].ret != rs[j].ret {
      assert s[i + 1] == rs[i] && s[j + 1] == rs[j];
    }
    forall x | x in rs ensures x.ret != r.ret {
      var i :| 0 <= i < |rs| && rs[i] == x;
      assert s[i + 1] == x && s[0] == r;
    }
  }

  lemma DistinctCons(r: Rec, rs: seq<Rec>)
    ensures DistinctRets([r] + rs) <==> DistinctRets(rs) && !HasRet(rs, r.ret)
  {
    if DistinctRets([r] + rs) { DistinctTail(r, rs); }
    if DistinctRets(rs) && !HasRet(rs, r.ret) { DistinctMore(r, rs); }
  }

  lemma DistinctMore(r: Rec, rs: seq<Rec>)
    requires DistinctRets(rs) && !HasRet(rs, r.ret)
    ensures DistinctRets([r] + rs)
  {
    var s := [r] + rs;
    forall i, j | 0 <= i < j < |s| ensures s[i].ret != s[j].ret {
      assert s[j] == rs[j - 1] && rs[j - 1] in rs;
      if i > 0 { assert s[i] == rs[i - 1]; }
    }
  }

  lemma {:induction false} InsertedDistinct(r: Rec, rs: seq<Rec>)
    ensures DistinctRets(Inserted(r, rs)) <==> DistinctRets(rs) && !HasRet(rs, r.ret)
  {
    hide DistinctRets;
    if |rs| == 0 || r.ret <= rs[0].ret {
      DistinctCons(r, rs);
    } else {
      InsertedDistinct(r, rs[1..]);
      InsertedMembers(r, rs[1..]);
      DistinctCons(rs[0], Inserted(r, rs[1..]));
      DistinctCons(rs[0], rs[1..]);
      assert rs == [rs[0]] + rs[1..];
    }
  }

  lemma {:induction false} SortedDistinct(rs: seq<Rec>)
    ensures DistinctRets(Sorted(rs)) <==> DistinctRets(rs)
  {
    hide DistinctRets;
    if |rs| > 0 {
      SortedDistinct(rs[1..]);
      SortedMembers(rs[1..]);
      InsertedDistinct(rs[0], Sorted(rs[1..]));
      DistinctCons(rs[0], rs[1..]);
      assert rs == [rs[0]] + rs[1..];
    } else {
      assert Sorted(rs) == rs;
    }
  }

  lemma NotDistinct(rs: seq<Rec>, i: nat, j: nat)
    requires i < j < |rs| && rs[i].ret == rs[j].ret
    ensures !DistinctRets(rs)
  {
  }

  lemma OrderedDistinct(rs: seq<Rec>)
    requires forall j, k :: 0 <= j < k < |rs| ==> rs[j].ret < rs[k].ret
    ensures DistinctRets(rs)
  {
  }

  lemma SortedShows(rs: seq<Rec>, locs: seq<Place>)
    requires RecsIn(rs, locs)
    ensures RecsIn(Sorted(rs), locs)
    ensures forall e :: e in Shown(Sorted(rs), locs) <==> e in Shown(rs, locs)
  {
    SortedMembers(rs);
    forall i | 0 <= i < |rs| ensures RecIn(Sorted(rs)[i], locs) {
      assert Sorted(rs)[i] in rs;
    }
    SameShown(Sorted(rs), rs, locs);
    SameShown(rs, Sorted(rs), locs);
  }

  lemma SameShown(a: seq<Rec>, b: seq<Rec>, locs: seq<Place>)
    requires forall x :: x in a ==> x in b
    ensures forall e :: e in Shown(a, locs) ==> e in Shown(b, locs)
  {
    forall e | e in Shown(a, locs) ensures e in Shown(b, locs) {
      var i :| 0 <= i < |a| && Shown(a, locs)[i] == e;
      assert a[i] in b;
      var j :| 0 <= j < |b| && b[j] == a[i];
      assert Shown(b, locs)[j] == e;
    }
  }

  lemma ShownDistinct(rs: seq<Rec>, locs: seq<Place>)
    ensures DistinctRets(rs) <==> DistinctEntries(Shown(rs, locs))
  {
    assert forall i :: 0 <= i < |rs| ==> Shown(rs, locs)[i].ret == rs[i].ret;
    if !DistinctRets(rs) {
      var i, j :| 0 <= i < j < |rs| && rs[i].ret == rs[j].ret;
      assert Shown(rs, locs)[i].ret == Shown(rs, locs)[j].ret;
    }
  }

  function NoRecord(): Record { Record(0, 0, 0, [], [], [], []) }

  lemma {:induction false} NumberBound(bs: seq<Byte>)
    ensures LE(bs) < Pow256(|bs|)
  {
    if |bs| > 0 { NumberBound(bs[1..]); }
  }

  lemma CountRest(fs: seq<Function>, i: nat)
    requires i < |fs|
    ensures CountRecords(fs[i..]) == |fs[i].recs| + CountRecords(fs[i + 1..])
  {
    assert fs[i..][1..] == fs[i + 1..];
  }

  lemma CountNone(fs: seq<Function>)
    ensures CountRecords(fs[|fs|..]) == 0
  {
  }

  /** What the record counts of the first n functions of a table sum to. */
  ghost function CountsAt(p: seq<Byte>, fo: nat, n: nat): nat
    requires fo + 24 * n <= |p|
  {
    if n == 0 then 0 else CountsAt(p, fo, n - 1) + LE(p[fo + (n - 1) * 24 + 16..fo + (n - 1) * 24 + 24])
  }

  lemma {:induction false} CountsGrow(p: seq<Byte>, fo: nat, i: nat, n: nat)
    requires i <= n && fo + 24 * n <= |p|
    ensures CountsAt(p, fo, i) <= CountsAt(p, fo, n)
  {
    if i < n { CountsGrow(p, fo, i, n - 1); }
  }

  ghost predicate FunctionsAt(p: seq<Byte>, fo: nat, nfunc: nat, fs: seq<Function>) {
    && |fs| == nfunc && HasAt(p, fo, EncFunctions(fs)) && CountRecords(fs) < TWO32
    && forall i :: 0 <= i < |fs| ==> fs[i].addr < TWO64 && fs[i].size < TWO64
  }

  lemma {:induction false} CountBounds(fs: seq<Function>, i: nat)
    requires i < |fs|
    ensures |fs[i].recs| <= CountRecords(fs)
    decreases i
  {
    if i > 0 { CountBounds(fs[1..], i - 1); }
  }

  lemma FunctionsCounted(p: seq<Byte>, fo: nat, nfunc: nat, fs: seq<Function>)
    requires FunctionsAt(p, fo, nfunc, fs)
    ensures |fs| == nfunc
  {
  }

  lemma FunctionFields(p: seq<Byte>, fo: nat, nfunc: nat, fs: seq<Function>, i: nat)
    requires FunctionsAt(p, fo, nfunc, fs) && i < nfunc
    ensures |fs| == nfunc && fo + i * 24 + 24 <= |p| && |fs[i].recs| < TWO32
    ensures LE(p[fo + i * 24..fo + i * 24 + 8]) == fs[i].addr
    ensures LE(p[fo + i * 24 + 8..fo + i * 24 + 16]) == fs[i].size
    ensures LE(p[fo + i * 24 + 16..fo + i * 24 + 24]) == |fs[i].recs|
  {
    hide HasAt, Enc;
    var o, f := fo + 24 * i, fs[i];
    Pow256s();
    FunctionAt(p, fo, fs, i);
    CountBounds(fs, i);
    HasJoin(p, o, Enc(8, f.addr) + Enc(8, f.size), Enc(8, |f.recs|));
    HasJoin(p, o, Enc(8, f.addr), Enc(8, f.size));
    NumberAt(p, o, 8, f.addr);
    NumberAt(p, o + 8, 8, f.size);
    NumberAt(p, o + 16, 8, |f.recs|);
  }

  ghost predicate HeaderAt(p: seq<Byte>, off: nat, m: Map) {
    && |m.funcs| < TWO32 && |m.consts| < TWO32 && CountRecords(m.funcs) < TWO32
    && HasAt(p, off, Enc(1, 3)) && HasAt(p, off + 1, Enc(1, 0)) && HasAt(p, off + 2, Enc(2, 0))
    && HasAt(p, off + 4, Enc(4, |m.funcs|)) && HasAt(p, off + 8, Enc(4, |m.consts|))
    && HasAt(p, off + 12, Enc(4, CountRecords(m.funcs)))
  }

  lemma HeaderParts(p: seq<Byte>, off: nat, m: Map)
    requires MapGood(m) && HasAt(p, off, EncHeader(m))
    ensures HeaderAt(p, off, m)
  {
    hide HasAt, Enc, FunctionsGood;
    var a := Enc(1, 3);
    var b := a + Enc(1, 0);
    var c := b + Enc(2, 0);
    var d := c + Enc(4, |m.funcs|);
    var e := d + Enc(4, |m.consts|);
    HasJoin(p, off, e, Enc(4, CountRecords(m.funcs)));
    HasJoin(p, off, d, Enc(4, |m.consts|));
    HasJoin(p, off, c, Enc(4, |m.funcs|));
    HasJoin(p, off, b, Enc(2, 0));
    HasJoin(p, off, a, Enc(1, 0));
  }

  /** The parts of a map: header, function table, constant table, records. */
  lemma MapParts(p: seq<Byte>, off: nat, m: Map)
    requires MapGood(m) && HasAt(p, off, EncMap(m))
    ensures var f, c := |m.funcs|, |m.consts|;
            && HeaderAt(p, off, m) && FunctionsAt(p, off + 16, f, m.funcs)
            && ConstsAt(p, off + 16 + 24 * f, c, m.consts)
            && FunctionsGood(m.funcs, m.consts)
            && HasAt(p, off + 16 + 24 * f + 8 * c, EncBodies(m.funcs, m.consts))
            && off + 16 + 24 * f + 8 * c <= |p|
            && |EncMap(m)| == 16 + 24 * f + 8 * c + |EncBodies(m.funcs, m.consts)|
            && EntriesOfMap(m) == EntriesOfFunctions(m.funcs, m.consts)
  {
    hide HasAt, EncFunctions, EncWords, EncBodies, EncHeader, EntriesOfFunctions, FunctionsGood;
    HasJoin(p, off, EncTables(m), EncBodies(m.funcs, m.consts));
    HasJoin(p, off, EncHeader(m) + EncFunctions(m.funcs), EncWords(m.consts, 8));
    HasJoin(p, off, EncHeader(m), EncFunctions(m.funcs));
    HasBound(p, off, EncTables(m));
    HeaderParts(p, off, m);
    AddressesFit(m);
  }

  lemma AddressesFit(m: Map)
    requires MapGood(m)
    ensures forall i :: 0 <= i < |m.funcs| ==> m.funcs[i].addr < TWO64 && m.funcs[i].size < TWO64
  {
    assert forall i :: 0 <= i < |m.funcs| ==> FunctionGood(m.funcs[i], m.consts);
  }

  /** What is ahead when functions from fi on are still to come and `todo` is left of the one before:
      their bytes up to `end`, and their entries, which complete `shown` to `all`. */
  ghost predicate Ahead(p: seq<Byte>, off: nat, fs: seq<Function>, fi: nat, todo: seq<Record>, addr: nat, size: nat,
                        consts: seq<nat>, shown: seq<Entry>, all: seq<Entry>, end: nat) {
    && fi <= |fs| && FunctionsGood(fs[fi..], consts) && RecordsGood(todo, consts, size) && off % 8 == 0
    && HasAt(p, off, EncRecords(todo, consts, size))
    && HasAt(p, off + |EncRecords(todo, consts, size)|, EncBodies(fs[fi..], consts))
    && end == off + |EncRecords(todo, consts, size)| + |EncBodies(fs[fi..], consts)|
    && (forall i :: 0 <= i < |todo| ==> |todo[i].gc| % 2 == 0)
    && all == shown + EntriesOfRecords(Function(addr, size, []), todo, consts) + EntriesOfFunctions(fs[fi..], consts)
  }

  lemma AheadStart(p: seq<Byte>, off: nat, fs: seq<Function>, consts: seq<nat>, shown: seq<Entry>)
    requires FunctionsGood(fs, consts) && HasAt(p, off, EncBodies(fs, consts)) && off % 8 == 0
    ensures Ahead(p, off, fs, 0, [], 0, 0, consts, shown, shown + EntriesOfFunctions(fs, consts),
                  off + |EncBodies(fs, consts)|)
    ensures fs[0..] == fs
  {
    hide FunctionsGood, EncBodies, EntriesOfFunctions;
    assert fs[0..] == fs;
    HasBound(p, off, EncBodies(fs, consts));
    assert shown + [] == shown;
  }

  lemma AheadFunction(p: seq<Byte>, off: nat, fs: seq<Function>, fi: nat, addr: nat, size: nat,
                      consts: seq<nat>, shown: seq<Entry>, all: seq<Entry>, end: nat)
    requires Ahead(p, off, fs, fi, [], addr, size, consts, shown, all, end) && fi < |fs|
    ensures Ahead(p, off, fs, fi + 1, fs[fi].recs, fs[fi].addr, fs[fi].size, consts, shown, all, end)
  {
    hide HasAt, RecordsGood, FunctionsGood, RecordGood, EncBodies, EncRecords, EntriesOfRecords, EntriesOfFunctions,
         FunctionGood, LE, Enc;
    var f, rest := fs[fi], fs[fi + 1..];
    EmptyAhead(p, off, fs, fi, addr, size, consts, shown, all, end);
    FunctionsRest(fs, fi, consts);
    FirstBody(fs, fi, consts);
    HasJoin(p, off, EncRecords(f.recs, consts, f.size), EncBodies(rest, consts));
    EntriesSame(f, f.recs, consts);
    AppendAssoc(shown, EntriesOfRecords(f, f.recs, consts), EntriesOfFunctions(rest, consts));
  }

  lemma EmptyAhead(p: seq<Byte>, off: nat, fs: seq<Function>, fi: nat, addr: nat, size: nat,
                   consts: seq<nat>, shown: seq<Entry>, all: seq<Entry>, end: nat)
    requires Ahead(p, off, fs, fi, [], addr, size, consts, shown, all, end)
    ensures fi <= |fs| && FunctionsGood(fs[fi..], consts) && off % 8 == 0
    ensures HasAt(p, off, EncBodies(fs[fi..], consts)) && end == off + |EncBodies(fs[fi..], consts)|
    ensures all == shown + EntriesOfFunctions(fs[fi..], consts)
  {
    hide HasAt, RecordsGood, FunctionsGood, RecordGood, EncBodies, EncRecords, EntriesOfRecords, EntriesOfFunctions;
    NothingTodo(consts, addr, size, off);
    assert shown + [] == shown;
  }

  lemma AppendAssoc(a: seq<Entry>, b: seq<Entry>, c: seq<Entry>)
    ensures a + b + c == a + (b + c)
  {
  }

  lemma NothingTodo(consts: seq<nat>, addr: nat, size: nat, off: nat)
    ensures RecordsGood([], consts, size) && EncRecords([], consts, size) == []
    ensures EntriesOfRecords(Function(addr, size, []), [], consts) == []
  {
  }

  /** The bytes and entries of the functions from fi on begin with those of fi. */
  lemma FirstBody(fs: seq<Function>, fi: nat, consts: seq<nat>)
    requires fi < |fs| && FunctionsGood(fs[fi..], consts) && FunctionsGood(fs[fi + 1..], consts)
    requires FunctionGood(fs[fi], consts)
    ensures RecordsGood(fs[fi].recs, consts, fs[fi].size)
    ensures EncBodies(fs[fi..], consts)
            == EncRecords(fs[fi].recs, consts, fs[fi].size) + EncBodies(fs[fi + 1..], consts)
    ensures forall i :: 0 <= i < |fs[fi].recs| ==> |fs[fi].recs[i].gc| % 2 == 0
    ensures EntriesOfFunctions(fs[fi..], consts)
            == EntriesOfRecords(fs[fi], fs[fi].recs, consts) + EntriesOfFunctions(fs[fi + 1..], consts)
  {
    assert fs[fi..][1..] == fs[fi + 1..] && fs[fi..][0] == fs[fi];
    PairsEven(fs[fi].recs, consts, fs[fi].size);
    hide EncRecords, EntriesOfRecords, RecordsGood;
  }

  lemma FunctionsRest(fs: seq<Function>, fi: nat, consts: seq<nat>)
    requires fi < |fs| && FunctionsGood(fs[fi..], consts)
    ensures FunctionGood(fs[fi], consts) && FunctionsGood(fs[fi + 1..], consts)
  {
    assert fs[fi..][0] == fs[fi];
    var rest := fs[fi + 1..];
    forall i | 0 <= i < |rest| ensures FunctionGood(rest[i], consts) {
      assert fs[fi..][i + 1] == rest[i];
    }
  }

  lemma PairsEven(rs: seq<Record>, consts: seq<nat>, size: nat)
    requires RecordsGood(rs, consts, size)
    ensures forall i :: 0 <= i < |rs| ==> |rs[i].gc| % 2 == 0
  {
    assert forall i :: 0 <= i < |rs| ==> RecordGood(rs[i], consts, size);
  }

  /** Only address and frame size of the function matter for its entries. */
  lemma {:induction false} EntriesSame(f: Function, rs: seq<Record>, consts: seq<nat>)
    requires forall i :: 0 <= i < |rs| ==> |rs[i].gc| % 2 == 0
    ensures EntriesOfRecords(Function(f.addr, f.size, []), rs, consts) == EntriesOfRecords(f, rs, consts)
  {
    if |rs| > 0 { EntriesSame(f, rs[1..], consts); }
  }

  lemma AheadRecord(p: seq<Byte>, off: nat, fs: seq<Function>, fi: nat, todo: seq<Record>, addr: nat, size: nat,
                    consts: seq<nat>, shown: seq<Entry>, all: seq<Entry>, end: nat)
    requires Ahead(p, off, fs, fi, todo, addr, size, consts, shown, all, end) && |todo| > 0
    ensures RecordGood(todo[0], consts, size) && |todo[0].gc| % 2 == 0 && off % 8 == 0
    ensures HasAt(p, off, EncRecord(todo[0]))
    ensures Ahead(p, off + |EncRecord(todo[0])|, fs, fi, todo[1..], addr, size, consts,
                  shown + [Entry((addr + todo[0].ioff) % TWO64, size, Places(todo[0].gc, consts))], all, end)
  {
    hide HasAt, FunctionsGood, EncBodies, EncRecord, EntriesOfFunctions, RecordGood;
    RecordsRest(todo, consts, size);
    OffsetsFit(todo[0], consts, size);
    HasJoin(p, off, EncRecord(todo[0]), EncRecords(todo[1..], consts, size));
  }

  lemma OffsetsFit(r: Record, consts: seq<nat>, size: nat)
    requires RecordGood(r, consts, size)
    ensures forall i :: 0 <= i < |AllLocs(r)| ==> -TWO31 <= AllLocs(r)[i].off < TWO31
  {
  }

  lemma RecordsRest(rs: seq<Record>, consts: seq<nat>, size: nat)
    requires RecordsGood(rs, consts, size) && |rs| > 0
    ensures RecordGood(rs[0], consts, size) && RecordsGood(rs[1..], consts, size)
  {
    assert forall i :: 0 <= i < |rs| - 1 ==> rs[1..][i] == rs[i + 1];
  }

  lemma AheadEnd(p: seq<Byte>, off: nat, fs: seq<Function>, fi: nat, todo: seq<Record>, addr: nat, size: nat,
                 consts: seq<nat>, shown: seq<Entry>, all: seq<Entry>, end: nat)
    requires Ahead(p, off, fs, fi, todo, addr, size, consts, shown, all, end)
    requires |todo| + CountRecords(fs[fi..]) == 0
    ensures off == end && shown == all && todo == []
  {
    hide HasAt;
    NoneAhead(fs[fi..], consts);
  }

  /** Functions without records take no bytes and have no entries. */
  lemma {:induction false} NoneAhead(fs: seq<Function>, consts: seq<nat>)
    requires FunctionsGood(fs, consts) && CountRecords(fs) == 0
    ensures EncBodies(fs, consts) == [] && EntriesOfFunctions(fs, consts) == []
  {
    if |fs| > 0 {
      assert FunctionGood(fs[0], consts);
      NoneAhead(fs[1..], consts);
    }
  }

  lemma NoneShown(locs: seq<Place>)
    ensures Shown([], locs) == []
  {
  }

  lemma SectionStart(p: seq<Byte>, ms: seq<Map>)
    requires MapsGood(ms) && p == EncMaps(ms)
    ensures HasAt(p, 0, EncMaps(ms)) && [] + EntriesOfMaps(ms) == EntriesOfMaps(ms)
  {
    assert p[0..|p|] == p;
  }

  lemma MapSize(m: Map)
    requires MapGood(m)
    ensures |EncMap(m)| >= 16 && |EncMap(m)| % 8 == 0
  {
    hide EncBodies;
  }

  lemma MapsUnfold(ms: seq<Map>)
    requires MapsGood(ms)
    ensures |ms| == 0 ==> EncMaps(ms) == [] && EntriesOfMaps(ms) == []
    ensures |ms| > 0 ==> && MapGood(ms[0]) && MapsGood(ms[1..])
                         && EncMaps(ms) == EncMap(ms[0]) + EncMaps(ms[1..]) && |EncMaps(ms)| >= 16
                         && EntriesOfMaps(ms) == EntriesOfMap(ms[0]) + EntriesOfMaps(ms[1..])
  {
    if |ms| > 0 {
      MapsRest(ms);
      MapSize(ms[0]);
    }
    hide EncMap, EntriesOfMap, MapGood;
  }

  lemma MapsRest(ms: seq<Map>)
    requires MapsGood(ms) && |ms| > 0
    ensures MapGood(ms[0]) && MapsGood(ms[1..])
  {
  }

  lemma NextMap(p: seq<Byte>, off: nat, ms: seq<Map>)
    requires MapsGood(ms) && HasAt(p, off, EncMaps(ms)) && off + |EncMaps(ms)| == |p| && off < |p| && off % 8 == 0
    ensures |ms| > 0 && MapGood(ms[0]) && MapsGood(ms[1..])
    ensures HasAt(p, off, EncMap(ms[0])) && HasAt(p, off + |EncMap(ms[0])|, EncMaps(ms[1..]))
    ensures |EncMaps(ms)| == |EncMap(ms[0])| + |EncMaps(ms[1..])| && |EncMap(ms[0])| >= 16
    ensures EntriesOfMaps(ms) == EntriesOfMap(ms[0]) + EntriesOfMaps(ms[1..])
    ensures Pad(off + |EncMap(ms[0])|) == 0
  {
    hide HasAt, EncMap, EncMaps, EntriesOfMap, EntriesOfMaps, MapGood, MapsGood;
    MapsUnfold(ms);
    MapSize(ms[0]);
    HasJoin(p, off, EncMap(ms[0]), EncMaps(ms[1..]));
  }

  lemma SectionEnd(ms: seq<Map>)
    requires MapsGood(ms) && |EncMaps(ms)| == 0
    ensures EntriesOfMaps(ms) == []
  {
    hide *;
    MapsUnfold(ms);
  }

  function HeadSize(r: Record): nat { 16 + 12 * |AllLocs(r)| }

  function RecordSize(r: Record): nat {
    var n := HeadSize(r) + Pad(HeadSize(r)) + 4 + |r.live| * 4;
    n + Pad(n)
  }

  /** What follows the locations of a record. */
  ghost predicate TailAt(p: seq<Byte>, start: nat, r: Record) {
    var o := start + HeadSize(r) + Pad(HeadSize(r));
    HasAt(p, o, Enc(2, 0)) && HasAt(p, o + 2, Enc(2, |r.live|)) && start + RecordSize(r) <= |p|
  }

  lemma PadFrom(start: nat, n: nat)
    requires start % 8 == 0
    ensures Pad(start + n) == Pad(n)
  {
  }

  lemma RecordParts(p: seq<Byte>, off: nat, r: Record, consts: seq<nat>, stackSize: nat)
    requires RecordGood(r, consts, stackSize) && HasAt(p, off, EncRecord(r))
    ensures HasAt(p, off, Enc(8, r.id)) && HasAt(p, off + 8, Enc(4, r.ioff))
    ensures HasAt(p, off + 12, Enc(2, r.flags)) && HasAt(p, off + 14, Enc(2, |AllLocs(r)|))
    ensures LocsFit(r.lead) && LocsFit(r.deopt) && LocsFit(r.gc)
    ensures HasAt(p, off + 16, EncLocs(r.lead)) && HasAt(p, off + 52, EncLocs(r.deopt))
    ensures HasAt(p, off + 52 + 12 * |r.deopt|, EncLocs(r.gc))
    ensures TailAt(p, off, r) && |EncRecord(r)| == RecordSize(r)
  {
    hide HasAt, Enc, EncLocs, EncWords;
    var head, tail := EncHead(r), EncTail(r);
    var body := head + Padding(|head|) + tail;
    HasBound(p, off, EncRecord(r));
    HasJoin(p, off, body, Padding(|body|));
    HasJoin(p, off, head + Padding(|head|), tail);
    HasJoin(p, off, head, Padding(|head|));
    TailParts(p, off, r);
    HeadParts(p, off, r);
  }

  lemma HasBound(p: seq<Byte>, off: nat, bs: seq<Byte>)
    requires HasAt(p, off, bs)
    ensures off + |bs| <= |p|
  {
  }

  lemma TailParts(p: seq<Byte>, off: nat, r: Record)
    requires HasAt(p, off + HeadSize(r) + Pad(HeadSize(r)), EncTail(r)) && off + RecordSize(r) <= |p|
    ensures TailAt(p, off, r)
  {
    hide HasAt, Enc, EncWords;
    var o := off + HeadSize(r) + Pad(HeadSize(r));
    HasJoin(p, o, Enc(2, 0) + Enc(2, |r.live|), EncWords(r.live, 4));
    HasJoin(p, o, Enc(2, 0), Enc(2, |r.live|));
  }

  lemma HeadParts(p: seq<Byte>, off: nat, r: Record)
    requires LocsFit(AllLocs(r)) && |r.lead| == 3 && HasAt(p, off, EncHead(r))
    ensures HasAt(p, off, Enc(8, r.id)) && HasAt(p, off + 8, Enc(4, r.ioff))
    ensures HasAt(p, off + 12, Enc(2, r.flags)) && HasAt(p, off + 14, Enc(2, |AllLocs(r)|))
    ensures LocsFit(r.lead) && LocsFit(r.deopt) && LocsFit(r.gc)
    ensures HasAt(p, off + 16, EncLocs(r.lead)) && HasAt(p, off + 52, EncLocs(r.deopt))
    ensures HasAt(p, off + 52 + 12 * |r.deopt|, EncLocs(r.gc))
  {
    hide HasAt, Enc, EncLocs;
    var a := Enc(8, r.id);
    var b := a + Enc(4, r.ioff);
    var c := b + Enc(2, r.flags);
    var d := c + Enc(2, |AllLocs(r)|);
    HasJoin(p, off, d, EncLocs(AllLocs(r)));
    HasJoin(p, off, c, Enc(2, |AllLocs(r)|));
    HasJoin(p, off, b, Enc(2, r.flags));
    HasJoin(p, off, a, Enc(4, r.ioff));
    LocsSplit(r);
    EncLocsJoin(r.lead + r.deopt, r.gc);
    EncLocsJoin(r.lead, r.deopt);
    HasJoin(p, off + 16, EncLocs(r.lead + r.deopt), EncLocs(r.gc));
    HasJoin(p, off + 16, EncLocs(r.lead), EncLocs(r.deopt));
  }

  lemma LocsSplit(r: Record)
    requires LocsFit(AllLocs(r))
    ensures LocsFit(r.lead) && LocsFit(r.deopt) && LocsFit(r.gc) && LocsFit(r.lead + r.deopt)
  {
    forall i | 0 <= i < |r.lead| ensures LocFits(r.lead[i]) { assert AllLocs(r)[i] == r.lead[i]; }
    forall i | 0 <= i < |r.deopt| ensures LocFits(r.deopt[i]) { assert AllLocs(r)[|r.lead| + i] == r.deopt[i]; }
    forall i | 0 <= i < |r.gc| ensures LocFits(r.gc[i]) { assert AllLocs(r)[|r.lead| + |r.deopt| + i] == r.gc[i]; }
  }

  lemma {:induction false} EncLocsJoin(a: seq<Loc>, b: seq<Loc>)
    requires LocsFit(a) && LocsFit(b) && LocsFit(a + b)
    ensures EncLocs(a + b) == EncLocs(a) + EncLocs(b)
  {
    hide EncLoc;
    if |a| == 0 {
      assert a + b == b;
    } else {
      assert (a + b)[1..] == a[1..] + b;
      EncLocsJoin(a[1..], b);
    }
  }

  /** Places were added; the records so far show the same, and one more shows the new places. */
  lemma PlacesAdded(recs: seq<Rec>, locs0: seq<Place>, locs: seq<Place>, ret: nat, size: nat)
    requires RecsIn(recs, locs0) && locs0 <= locs
    ensures RecsIn(recs, locs)
    ensures var recs' := recs + [Rec(ret, size, |locs0|, |locs| - |locs0|)];
            RecsIn(recs', locs) && Shown(recs', locs) == Shown(recs, locs0) + [Entry(ret, size, locs[|locs0|..])]
  {
    var more := locs[|locs0|..];
    assert locs == locs0 + more;
    ShownGrows(recs, locs0, more);
    ShownMore(recs, locs0, more, ret, size);
  }

  ghost predicate ConstsAt(p: seq<Byte>, co: nat, nconst: nat, consts: seq<nat>) {
    && |consts| == nconst && HasAt(p, co, EncWords(consts, 8))
    && forall i :: 0 <= i < |consts| ==> consts[i] < TWO64
  }

  lemma ConstAt(p: seq<Byte>, co: nat, nconst: nat, consts: seq<nat>, i: nat)
    requires ConstsAt(p, co, nconst, consts) && i < nconst
    ensures |consts| == nconst && co + i * 8 + 8 <= |p| && LE(p[co + i * 8..co + i * 8 + 8]) == consts[i]
  {
    Pow256s();
    WordAt(p, co, consts, 8, i);
    NumberAt(p, co + i * 8, 8, consts[i]);
  }

  lemma LocsFrom(p: seq<Byte>, off: nat, ls: seq<Loc>)
    requires LocsFit(ls) && HasAt(p, off, EncLocs(ls))
    ensures LocsFit(ls[0..]) && HasAt(p, off, EncLocs(ls[0..]))
  {
    assert ls[0..] == ls;
  }

  lemma NextLoc(p: seq<Byte>, off: nat, ls: seq<Loc>, k: nat)
    requires k < |ls| && LocsFit(ls) && HasAt(p, off, EncLocs(ls[k..]))
    ensures LocFits(ls[k]) && HasAt(p, off, EncLoc(ls[k])) && HasAt(p, off + 12, EncLocs(ls[k + 1..]))
  {
    hide HasAt, EncLoc;
    assert ls[k..][1..] == ls[k + 1..];
    HasJoin(p, off, EncLoc(ls[k]), EncLocs(ls[k + 1..]));
  }

  lemma LocParts(p: seq<Byte>, off: nat, l: Loc)
    requires LocFits(l) && HasAt(p, off, EncLoc(l))
    ensures HasAt(p, off, Enc(1, l.kind)) && HasAt(p, off + 1, Enc(1, 0)) && HasAt(p, off + 2, Enc(2, l.size))
    ensures HasAt(p, off + 4, Enc(2, l.reg)) && HasAt(p, off + 6, Enc(2, 0))
             && HasAt(p, off + 8, Enc(4, Unsigned32(l.off)))
  {
    hide HasAt, Enc;
    var a := Enc(1, l.kind);
    var b := a + Enc(1, 0);
    var c := b + Enc(2, l.size);
    var d := c + Enc(2, l.reg);
    var e := d + Enc(2, 0);
    HasJoin(p, off, e, Enc(4, Unsigned32(l.off)));
    HasJoin(p, off, d, Enc(2, 0));
    HasJoin(p, off, c, Enc(2, l.reg));
    HasJoin(p, off, b, Enc(2, l.size));
    HasJoin(p, off, a, Enc(1, 0));
  }
}
