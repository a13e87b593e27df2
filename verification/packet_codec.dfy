/** Properties of the packet decoders (packet/game.go): the droid ids of
    PkGameDroidInfo are the running uint32 sums of the deltas on the wire,
    and every well-formed packet is read back from its encoding with
    whatever follows it left untouched.

    The program only decodes; the encoders here are written for this model
    as the inverse of each decoder, field by field in wire order.  Each
    `Put...(x, t)` writes `x` in front of the bytes `t`. */
module PacketCodec {
  import opened Wrappers
  import opened WzBytes
  import opened WzConstants
  import opened Packet

  // ---------------------------------------------------------------------
  // Droid ids: running sums of the deltas
  // ---------------------------------------------------------------------

  /** The ids a run of deltas stands for: each delta added, in uint32
      arithmetic, to the id before it (to 0 for the first). */
  function RunningSums(ds: seq<u32>): (r: seq<u32>)
    ensures |r| == |ds|
  {
    if ds == [] then []
    else
      var front := RunningSums(ds[..|ds| - 1]);
      front + [AddU32(Last0(front), ds[|ds| - 1])]
  }

  /** The sum of a sequence, unbounded. */
  function Sum(xs: seq<u32>): nat
  {
    if xs == [] then 0 else Sum(xs[..|xs| - 1]) + xs[|xs| - 1]
  }

  /** The ids read from the decoded deltas, keeping the bytes left. */
  function Summed(r: Parsed<seq<u32>>): Parsed<seq<u32>>
  {
    match r
    case Ok(vr) => Ok((RunningSums(vr.0), vr.1))
    case Err(e) => Err(e)
  }

  lemma DeltaStep(x: Parsed<seq<u32>>)
    ensures DeltaNext(Summed(x)) == Summed(VarintNext(x))
  {
    if x.Ok? {
      var ds, rest := x.value.0, x.value.1;
      var v := VarintAt(rest);
      if v.Ok? {
        var ds' := ds + [v.value.0];
        assert ds'[..|ds'| - 1] == ds;
      }
    }
  }

  /** Reading `n` droid ids reads `n` U32v values, fails exactly when they
      fail, leaves the same bytes, and yields their running sums. */
  lemma {:induction false} DeltasAreRunningSums(n: nat, s: seq<byte>)
    ensures DeltasAt(n, s) == Summed(VarintsAt(n, s))
  {
    if n > 0 {
      var x := VarintsAt(n - 1, s);
      DeltasAreRunningSums(n - 1, s);
      DeltaStep(x);
      assert DeltasAt(n, s) == DeltaNext(Summed(x));
    }
  }

  lemma AddMod(a: nat, d: u32)
    ensures ((a % TWO32) + d) % TWO32 == (a + d) % TWO32
  {
    var q := a / TWO32;
    assert a == q * TWO32 + a % TWO32;
    assert (a + d) == q * TWO32 + ((a % TWO32) + d);
  }

  /** The i-th id is the sum of the first i + 1 deltas, modulo 2^32. */
  lemma {:induction false} RunningSumsAreSums(ds: seq<u32>, i: nat)
    requires i < |ds|
    ensures RunningSums(ds)[i] == Sum(ds[..i + 1]) % TWO32
  {
    var front := ds[..|ds| - 1];
    if i < |ds| - 1 {
      RunningSumsAreSums(front, i);
      assert front[..i + 1] == ds[..i + 1];
    } else {
      assert ds[..i + 1] == ds;
      var sums := RunningSums(front);
      AddU32Mod(Last0(sums), ds[i]);
      if front != [] {
        RunningSumsAreSums(front, |front| - 1);
        assert front[..|front|] == front;
        AddMod(Sum(front), ds[i]);
      }
    }
  }

  /** `a - b` in uint32 arithmetic. */
  function SubU32(a: u32, b: u32): (c: u32)
    ensures AddU32(b, c) == a
  {
    if a >= b then a - b else a - b + TWO32
  }

  /** The deltas that stand for the ids `ids`. */
  function Deltas(ids: seq<u32>): (ds: seq<u32>)
    ensures |ds| == |ids|
  {
    if ids == [] then []
    else
      var front := ids[..|ids| - 1];
      Deltas(front) + [SubU32(ids[|ids| - 1], Last0(front))]
  }

  /** Summing the deltas of `ids` gives `ids` back. */
  lemma {:induction false} SumsOfDeltas(ids: seq<u32>)
    ensures RunningSums(Deltas(ids)) == ids
  {
    if ids != [] {
      var front, last := ids[..|ids| - 1], ids[|ids| - 1];
      var d := SubU32(last, Last0(front));
      var ds := Deltas(ids);
      assert ds == Deltas(front) + [d];
      assert ds[..|ds| - 1] == Deltas(front);
      SumsOfDeltas(front);
      assert RunningSums(ds) == front + [AddU32(Last0(front), d)];
      assert ids == front + [last];
    }
  }

  /** Three deltas 5, 0, 3, each a one-byte U32v, are the ids 5, 5, 8. */
  lemma DeltaExample()
    ensures DeltasAt(3, [5, 0, 3]) == Ok(([5, 5, 8], []))
  {
    var s: seq<byte> := [5, 0, 3];
    var s1, s2: seq<byte> := [0, 3], [3];
    assert s[1..] == s1 && s1[1..] == s2 && s2[1..] == [];
    assert VarintAt(s) == Ok((5, 1));
    assert VarintAt(s1) == Ok((0, 1));
    assert VarintAt(s2) == Ok((3, 1));
    assert VarintsAt(0, s) == Ok(([], s));
    assert VarintsAt(1, s) == Ok(([5], s1)) by {
      assert [] + [5] == [5];
    }
    assert VarintsAt(2, s) == Ok(([5, 0], s2)) by {
      assert [5] + [0] == [5, 0];
    }
    assert VarintsAt(3, s) == Ok(([5, 0, 3], [])) by {
      assert [5, 0] + [3] == [5, 0, 3];
    }
    DeltasAreRunningSums(3, s);
    assert RunningSums([5, 0, 3]) == [5, 5, 8] by {
      assert [5, 0, 3][..2] == [5, 0];
      assert [5, 0][..1] == [5];
      assert [5][..0] == [];
    }
  }

  // ---------------------------------------------------------------------
  // Encoders of the primitive reads
  // ---------------------------------------------------------------------

  function PutU8(b: byte, t: seq<byte>): seq<byte>
  {
    [b] + t
  }

  lemma ReadsU8(b: byte, t: seq<byte>)
    ensures U8At(PutU8(b, t)) == Ok((b, 1)) && PutU8(b, t)[1..] == t
  {
  }

  /** Big-endian, high byte first. */
  function PutU16(v: u16, t: seq<byte>): seq<byte>
  {
    [v / 0x100, v % 0x100] + t
  }

  lemma ReadsU16(v: u16, t: seq<byte>)
    ensures U16At(PutU16(v, t)) == Ok((v, 2)) && PutU16(v, t)[2..] == t
  {
  }

  /** `r` is a U32v that NETreadU32 reads as `v`, followed by `t`. */
  ghost predicate VarintBefore(v: u32, t: seq<byte>, r: seq<byte>)
  {
    |r| > |t| && VarintAt(r) == Ok((v, |r| - |t|)) && r[|r| - |t|..] == t
  }

  /** The U32v of `v` in front of `t`, characterised by what NETreadU32 reads
      from it; lemma PutU32Canonical shows it is `EncodeVarint(v) + t`. */
  ghost function PutU32(v: u32, t: seq<byte>): seq<byte>
  {
    VarintRoundTrip(v, t);
    assert VarintBefore(v, t, EncodeVarint(v) + t);
    var r :| VarintBefore(v, t, r);
    r
  }

  lemma PutU32Canonical(v: u32, t: seq<byte>)
    ensures PutU32(v, t) == EncodeVarint(v) + t
  {
    var r := PutU32(v, t);
    var k := |r| - |t|;
    VarintCanonical(r);
    assert r == r[..k] + r[k..];
  }

  lemma ReadsU32(v: u32, t: seq<byte>)
    ensures VarintAt(PutU32(v, t)) == Ok((v, |PutU32(v, t)| - |t|))
    ensures |PutU32(v, t)| > |t| && PutU32(v, t)[|PutU32(v, t)| - |t|..] == t
  {
  }

  /** The least value NETreadS32 can produce (lemma SignedRange). */
  const MinS32: int := -0x7fff_fffe

  /** The uint32 the signed mapping sends to `x`: 2x for x >= 0, 3 - 2x below. */
  function UnsignedOf(x: i32): (v: u32)
    requires x >= MinS32
    ensures SignedFromU32(v) == x
  {
    if x >= 0 then 2 * x else 3 - 2 * x
  }

  ghost function PutS32(x: i32, t: seq<byte>): seq<byte>
    requires x >= MinS32
  {
    PutU32(UnsignedOf(x), t)
  }

  lemma ReadsS32(x: i32, t: seq<byte>)
    requires x >= MinS32
    ensures S32At(PutS32(x, t)) == Ok((x, |PutS32(x, t)| - |t|))
    ensures |PutS32(x, t)| > |t| && PutS32(x, t)[|PutS32(x, t)| - |t|..] == t
  {
    ReadsU32(UnsignedOf(x), t);
  }

  function PutU16s(us: seq<u16>, t: seq<byte>): (r: seq<byte>)
    ensures |r| == 2 * |us| + |t| && r[2 * |us|..] == t
  {
    if us == [] then t else PutU16(us[0], PutU16s(us[1..], t))
  }

  lemma {:induction false} ReadsU16s(us: seq<u16>, t: seq<byte>)
    ensures U16sAt(|us|, PutU16s(us, t)) == Ok((us, 2 * |us|))
  {
    if us != [] {
      var rest := PutU16s(us[1..], t);
      ReadsU16(us[0], rest);
      ReadsU16s(us[1..], t);
      assert [us[0]] + us[1..] == us;
    }
  }

  /** NETstring's layout: the U32v count of code units, then the units. */
  ghost function PutString(us: seq<u16>, t: seq<byte>): seq<byte>
    requires |us| < TWO32
  {
    PutU32(|us|, PutU16s(us, t))
  }

  lemma ReadsString(us: seq<u16>, t: seq<byte>)
    requires |us| < TWO32
    ensures StringAt(PutString(us, t)) == Ok((us, |PutString(us, t)| - |t|))
    ensures |PutString(us, t)| > |t| && PutString(us, t)[|PutString(us, t)| - |t|..] == t
  {
    var units := PutU16s(us, t);
    var e := PutString(us, t);
    ReadsU16s(us, t);
    StringHead(|us|, units, us);
    DropDrop(e, |e| - |units|, units, 2 * |us|, t);
  }

  /** A string's count in front of its units reads back with them. */
  lemma StringHead(n: u32, u: seq<byte>, us: seq<u16>)
    requires U16sAt(n, u) == Ok((us, 2 * n))
    ensures StringAt(PutU32(n, u)) == Ok((us, |PutU32(n, u)| - |u| + 2 * n))
  {
    var e := PutU32(n, u);
    StringParts(e, |e| - |u|, n, U16sAt(n, u));
  }

  /** Bytes `u` behind the first `k` of `e`, and `t` behind the first `m` of `u`. */
  lemma DropDrop(e: seq<byte>, k: nat, u: seq<byte>, m: nat, t: seq<byte>)
    requires k <= |e| && e[k..] == u && m <= |u| && u[m..] == t
    ensures |e| - |t| == k + m && e[k + m..] == t
  {
    assert e[k..][m..] == e[k + m..];
  }

  // ---------------------------------------------------------------------
  // Encoders of the packets
  // ---------------------------------------------------------------------

  ghost function PutGameTime(p: Packet, t: seq<byte>): seq<byte>
    requires p.GameTime?
  {
    PutU32(p.latencyTicks, PutU32(p.gameTime, PutU16(p.crc, PutU16(p.wantedLatency, t))))
  }

  lemma GameTimeRoundTrip(p: Packet, t: seq<byte>)
    requires p.GameTime?
    ensures GameTimeAt(p.hdr, PutGameTime(p, t)) == Ok((p, t))
  {
    var s3 := PutU16(p.wantedLatency, t);
    var s2 := PutU16(p.crc, s3);
    var s1 := PutU32(p.gameTime, s2);
    ReadsU32(p.latencyTicks, s1);
    ReadsU32(p.gameTime, s2);
    ReadsU16(p.crc, s3);
    ReadsU16(p.wantedLatency, t);
  }

  /** A run of U32v values, in order. */
  ghost function PutU32s(xs: seq<u32>, t: seq<byte>): seq<byte>
  {
    if xs == [] then t else PutU32(xs[0], PutU32s(xs[1..], t))
  }

  lemma {:induction false} PutU32sSnoc(xs: seq<u32>, x: u32, t: seq<byte>)
    ensures PutU32s(xs + [x], t) == PutU32s(xs, PutU32(x, t))
  {
    if xs != [] {
      assert (xs + [x])[1..] == xs[1..] + [x];
      PutU32sSnoc(xs[1..], x, t);
    }
  }

  /** Reading `|xs|` U32v values back from their encoding gives `xs`. */
  lemma {:induction false} ReadsU32s(xs: seq<u32>, t: seq<byte>)
    ensures VarintsAt(|xs|, PutU32s(xs, t)) == Ok((xs, t))
  {
    if xs != [] {
      var front, x := xs[..|xs| - 1], xs[|xs| - 1];
      assert xs == front + [x];
      PutU32sSnoc(front, x, t);
      ReadsU32s(front, PutU32(x, t));
      ReadsU32(x, t);
    }
  }

  /** The droid ids of PkGameDroidInfo, written as their deltas. */
  ghost function PutIds(ids: seq<u32>, t: seq<byte>): seq<byte>
  {
    PutU32s(Deltas(ids), t)
  }

  lemma ReadsIds(ids: seq<u32>, t: seq<byte>)
    ensures DeltasAt(|ids|, PutIds(ids, t)) == Ok((ids, t))
  {
    DeltasAreRunningSums(|ids|, PutIds(ids, t));
    ReadsU32s(Deltas(ids), t);
    SumsOfDeltas(ids);
  }

  function PutBool(b: bool, t: seq<byte>): seq<byte>
  {
    PutU8(if b then 1 else 0, t)
  }

  // ---------------------------------------------------------------------
  // Encoders of the packets
  // ---------------------------------------------------------------------

  /** A droid template the decoder can produce: a name whose length fits a
      U32v and a type the signed mapping reaches. */
  predicate DroidDefWellFormed(d: DroidDef)
  {
    |d.name| < TWO32 && d.droidType >= MinS32
  }

  ghost function PutDroidDef(d: DroidDef, t: seq<byte>): seq<byte>
    requires DroidDefWellFormed(d)
  {
    PutString(d.name, PutU32(d.id, PutS32(d.droidType,
      PutU8(d.body, PutU8(d.brain, PutU8(d.propulsion, PutU8(d.repairunit,
        PutU8(d.ecm, PutU8(d.sensor, PutU8(d.construct, t))))))))))
  }

  lemma DroidDefRoundTrip(d: DroidDef, t: seq<byte>)
    requires DroidDefWellFormed(d)
    ensures DroidDefAt(PutDroidDef(d, t)) == Ok((d, t))
  {
    var s9 := PutU8(d.construct, t);
    var s8 := PutU8(d.sensor, s9);
    var s7 := PutU8(d.ecm, s8);
    var s6 := PutU8(d.repairunit, s7);
    var s5 := PutU8(d.propulsion, s6);
    var s4 := PutU8(d.brain, s5);
    var s3 := PutU8(d.body, s4);
    var s2 := PutS32(d.droidType, s3);
    var s1 := PutU32(d.id, s2);
    ReadsString(d.name, s1);
    ReadsU32(d.id, s2);
    ReadsS32(d.droidType, s3);
    ReadsU8(d.body, s4);
    ReadsU8(d.brain, s5);
    ReadsU8(d.propulsion, s6);
    ReadsU8(d.repairunit, s7);
    ReadsU8(d.ecm, s8);
    ReadsU8(d.sensor, s9);
    ReadsU8(d.construct, t);
  }

  /** A structure-info packet the decoder can produce: the template and the
      weapons only for STRUCTUREINFO_MANUFACTURE, at most 255 weapons. */
  predicate StructInfoWellFormed(p: Packet)
    requires p.StructInfo?
  {
    if p.structInfo == STRUCTUREINFO_MANUFACTURE then
      DroidDefWellFormed(p.droid) && |p.droidWeapons| < 0x100
    else
      p.droid == ZeroDroid && p.droidWeapons == []
  }

  ghost function PutStructInfo(p: Packet, t: seq<byte>): seq<byte>
    requires p.StructInfo? && StructInfoWellFormed(p)
  {
    PutU8(p.player, PutU32(p.structID, PutU8(p.structInfo,
      if p.structInfo == STRUCTUREINFO_MANUFACTURE then
        PutDroidDef(p.droid, PutU8(|p.droidWeapons|, PutU32s(p.droidWeapons, t)))
      else t)))
  }

  lemma StructInfoRoundTrip(p: Packet, t: seq<byte>)
    requires p.StructInfo? && StructInfoWellFormed(p)
    ensures StructInfoAt(p.hdr, PutStructInfo(p, t)) == Ok((p, t))
  {
    var rest := if p.structInfo == STRUCTUREINFO_MANUFACTURE then
      PutDroidDef(p.droid, PutU8(|p.droidWeapons|, PutU32s(p.droidWeapons, t)))
    else t;
    var s2 := PutU8(p.structInfo, rest);
    var s1 := PutU32(p.structID, s2);
    ReadsU32(p.structID, s2);
    if p.structInfo == STRUCTUREINFO_MANUFACTURE {
      var ws := PutU32s(p.droidWeapons, t);
      DroidDefRoundTrip(p.droid, PutU8(|p.droidWeapons|, ws));
      ReadsU32s(p.droidWeapons, t);
    }
  }

  ghost function PutResearchStatus(p: Packet, t: seq<byte>): seq<byte>
    requires p.ResearchStatus?
  {
    PutU8(p.player, PutBool(p.start, PutU32(p.building, PutU32(p.topic, t))))
  }

  lemma ResearchStatusRoundTrip(p: Packet, t: seq<byte>)
    requires p.ResearchStatus?
    ensures ResearchStatusAt(p.hdr, PutResearchStatus(p, t)) == Ok((p, t))
  {
    var s3 := PutU32(p.topic, t);
    ReadsU32(p.building, s3);
    ReadsU32(p.topic, t);
  }

  /** The order fields the decoder can produce for `subType`: the fields it
      does not read are zero and the signed ones are in the mapping's range. */
  predicate OrderWellFormed(subType: u32, f: Order)
  {
    if subType == DroidOrderSybTypeObj || subType == DroidOrderSybTypeLoc then
      f.secOrder == 0 && f.secState == 0 &&
      (if subType == DroidOrderSybTypeObj then f.coordX == 0 && f.coordY == 0
       else f.destID == 0 && f.destType == 0 && f.coordX >= MinS32 && f.coordY >= MinS32) &&
      (f.order == DORDER_BUILD || f.order == DORDER_LINEBUILD || (f.structRef == 0 && f.direction == 0)) &&
      (if f.order == DORDER_LINEBUILD then f.coordX2 >= MinS32 && f.coordY2 >= MinS32
       else f.coordX2 == 0 && f.coordY2 == 0) &&
      (f.order == DORDER_BUILDMODULE || f.index == 0)
    else if subType == DroidOrderSybTypeSec then
      f == ZeroOrder.(secOrder := f.secOrder, secState := f.secState)
    else
      f == ZeroOrder
  }

  ghost function PutTarget(subType: u32, f: Order, t: seq<byte>): seq<byte>
    requires subType != DroidOrderSybTypeObj ==> f.coordX >= MinS32 && f.coordY >= MinS32
  {
    if subType == DroidOrderSybTypeObj then PutU32(f.destID, PutU32(f.destType, t))
    else PutS32(f.coordX, PutS32(f.coordY, t))
  }

  ghost function PutBuild(f: Order, t: seq<byte>): seq<byte>
  {
    if f.order == DORDER_BUILD || f.order == DORDER_LINEBUILD then PutU32(f.structRef, PutU16(f.direction, t))
    else t
  }

  ghost function PutLine(f: Order, t: seq<byte>): seq<byte>
    requires f.order == DORDER_LINEBUILD ==> f.coordX2 >= MinS32 && f.coordY2 >= MinS32
  {
    if f.order == DORDER_LINEBUILD then PutS32(f.coordX2, PutS32(f.coordY2, t)) else t
  }

  ghost function PutModule(f: Order, t: seq<byte>): seq<byte>
  {
    if f.order == DORDER_BUILDMODULE then PutU32(f.index, t) else t
  }

  ghost function PutOrder(subType: u32, f: Order, t: seq<byte>): seq<byte>
    requires OrderWellFormed(subType, f)
  {
    if subType == DroidOrderSybTypeObj || subType == DroidOrderSybTypeLoc then
      PutU32(f.order, PutTarget(subType, f, PutBuild(f, PutLine(f, PutModule(f, PutBool(f.add, t))))))
    else if subType == DroidOrderSybTypeSec then PutU32(f.secOrder, PutU32(f.secState, t))
    else t
  }

  lemma TargetRoundTrip(subType: u32, g: Order, f: Order, t: seq<byte>)
    requires subType != DroidOrderSybTypeObj ==> f.coordX >= MinS32 && f.coordY >= MinS32
    ensures TargetAt(subType, g, PutTarget(subType, f, t)) ==
      Ok((if subType == DroidOrderSybTypeObj then g.(destID := f.destID, destType := f.destType)
          else g.(coordX := f.coordX, coordY := f.coordY), t))
  {
    if subType == DroidOrderSybTypeObj {
      ObjTargetRoundTrip(g, f.destID, f.destType, t);
    } else {
      LocTargetRoundTrip(subType, g, f.coordX, f.coordY, t);
    }
  }

  lemma ObjTargetRoundTrip(g: Order, id: u32, ty: u32, t: seq<byte>)
    ensures TargetAt(DroidOrderSybTypeObj, g, PutU32(id, PutU32(ty, t))) == Ok((g.(destID := id, destType := ty), t))
  {
    ReadsU32(id, PutU32(ty, t));
    ReadsU32(ty, t);
  }

  lemma LocTargetRoundTrip(subType: u32, g: Order, x: i32, y: i32, t: seq<byte>)
    requires subType != DroidOrderSybTypeObj && x >= MinS32 && y >= MinS32
    ensures TargetAt(subType, g, PutS32(x, PutS32(y, t))) == Ok((g.(coordX := x, coordY := y), t))
  {
    ReadsS32(x, PutS32(y, t));
    ReadsS32(y, t);
  }

  lemma BuildRoundTrip(g: Order, f: Order, t: seq<byte>)
    requires g.order == f.order
    ensures BuildAt(g, PutBuild(f, t)) ==
      Ok((if f.order == DORDER_BUILD || f.order == DORDER_LINEBUILD
          then g.(structRef := f.structRef, direction := f.direction) else g, t))
  {
    if f.order == DORDER_BUILD || f.order == DORDER_LINEBUILD {
      BuildFieldsRoundTrip(g, f.structRef, f.direction, t);
    }
  }

  lemma BuildFieldsRoundTrip(g: Order, sr: u32, dir: u16, t: seq<byte>)
    requires g.order == DORDER_BUILD || g.order == DORDER_LINEBUILD
    ensures BuildAt(g, PutU32(sr, PutU16(dir, t))) == Ok((g.(structRef := sr, direction := dir), t))
  {
    ReadsU32(sr, PutU16(dir, t));
    ReadsU16(dir, t);
  }

  lemma LineRoundTrip(g: Order, f: Order, t: seq<byte>)
    requires g.order == f.order
    requires f.order == DORDER_LINEBUILD ==> f.coordX2 >= MinS32 && f.coordY2 >= MinS32
    ensures LineAt(g, PutLine(f, t)) ==
      Ok((if f.order == DORDER_LINEBUILD then g.(coordX2 := f.coordX2, coordY2 := f.coordY2) else g, t))
  {
    if f.order == DORDER_LINEBUILD {
      LineFieldsRoundTrip(g, f.coordX2, f.coordY2, t);
    }
  }

  lemma LineFieldsRoundTrip(g: Order, x: i32, y: i32, t: seq<byte>)
    requires g.order == DORDER_LINEBUILD && x >= MinS32 && y >= MinS32
    ensures LineAt(g, PutS32(x, PutS32(y, t))) == Ok((g.(coordX2 := x, coordY2 := y), t))
  {
    ReadsS32(x, PutS32(y, t));
    ReadsS32(y, t);
  }

  lemma ModuleRoundTrip(g: Order, f: Order, t: seq<byte>)
    requires g.order == f.order
    ensures ModuleAt(g, PutModule(f, t)) ==
      Ok((if f.order == DORDER_BUILDMODULE then g.(index := f.index) else g, t))
  {
    if f.order == DORDER_BUILDMODULE {
      ModuleFieldsRoundTrip(g, f.index, t);
    }
  }

  lemma ModuleFieldsRoundTrip(g: Order, ix: u32, t: seq<byte>)
    requires g.order == DORDER_BUILDMODULE
    ensures ModuleAt(g, PutU32(ix, t)) == Ok((g.(index := ix), t))
  {
    ReadsU32(ix, t);
  }

  /** The order fields the Obj and Loc branch builds up from ZeroOrder, read
      back from `f`'s encoding. */
  function ObjLocFields(subType: u32, f: Order): Order
  {
    var g0 := ZeroOrder.(order := f.order);
    var g1 := if subType == DroidOrderSybTypeObj then g0.(destID := f.destID, destType := f.destType)
              else g0.(coordX := f.coordX, coordY := f.coordY);
    var g2 := if f.order == DORDER_BUILD || f.order == DORDER_LINEBUILD
              then g1.(structRef := f.structRef, direction := f.direction) else g1;
    var g3 := if f.order == DORDER_LINEBUILD then g2.(coordX2 := f.coordX2, coordY2 := f.coordY2) else g2;
    var g4 := if f.order == DORDER_BUILDMODULE then g3.(index := f.index) else g3;
    g4.(add := f.add)
  }

  /** For well-formed fields, those are all of `f`. */
  lemma ObjLocFieldsComplete(subType: u32, f: Order)
    requires subType == DroidOrderSybTypeObj || subType == DroidOrderSybTypeLoc
    requires OrderWellFormed(subType, f)
    ensures ObjLocFields(subType, f) == f
  {
  }

  lemma ObjLocRoundTrip(subType: u32, f: Order, t: seq<byte>)
    requires subType == DroidOrderSybTypeObj || subType == DroidOrderSybTypeLoc
    requires OrderWellFormed(subType, f)
    ensures ObjLocAt(subType, PutOrder(subType, f, t)) == Ok((ObjLocFields(subType, f), t))
  {
    var s5 := PutBool(f.add, t);
    var s4 := PutModule(f, s5);
    var s3 := PutLine(f, s4);
    var s2 := PutBuild(f, s3);
    var s1 := PutTarget(subType, f, s2);
    var g0 := ZeroOrder.(order := f.order);
    TargetRoundTrip(subType, g0, f, s2);
    var g1 := if subType == DroidOrderSybTypeObj then g0.(destID := f.destID, destType := f.destType)
              else g0.(coordX := f.coordX, coordY := f.coordY);
    BuildRoundTrip(g1, f, s3);
    var g2 := if f.order == DORDER_BUILD || f.order == DORDER_LINEBUILD
              then g1.(structRef := f.structRef, direction := f.direction) else g1;
    LineRoundTrip(g2, f, s4);
    var g3 := if f.order == DORDER_LINEBUILD then g2.(coordX2 := f.coordX2, coordY2 := f.coordY2) else g2;
    ModuleRoundTrip(g3, f, s5);
    var g4 := if f.order == DORDER_BUILDMODULE then g3.(index := f.index) else g3;
    var a: byte := if f.add then 1 else 0;
    ReadsU8(a, t);
    ObjLocHead(subType, f.order, s1);
    ObjLocChain(subType, f.order, s1, g1, s2, g2, s3, g3, s4, g4, s5, a, t);
  }

  /** The order's U32v in front of `s1` reads back, whatever follows. */
  lemma ObjLocHead(subType: u32, o: u32, s1: seq<byte>)
    ensures ObjLocAt(subType, PutU32(o, s1)) == ObjLocAfter(subType, o, s1)
  {
    var s := PutU32(o, s1);
    ObjLocSplit(subType, s, o, |s| - |s1|, s1);
  }

  lemma ObjLocSplit(subType: u32, s: seq<byte>, o: u32, k: nat, s1: seq<byte>)
    requires VarintAt(s) == Ok((o, k)) && s[k..] == s1
    ensures ObjLocAt(subType, s) == ObjLocAfter(subType, o, s1)
  {
  }

  /** ObjLocAfter on bytes whose stages read as given. */
  lemma ObjLocChain(subType: u32, o: u32, s1: seq<byte>, g1: Order, s2: seq<byte>,
                    g2: Order, s3: seq<byte>, g3: Order, s4: seq<byte>, g4: Order, s5: seq<byte>,
                    a: byte, t: seq<byte>)
    requires TargetAt(subType, ZeroOrder.(order := o), s1) == Ok((g1, s2))
    requires BuildAt(g1, s2) == Ok((g2, s3)) && LineAt(g2, s3) == Ok((g3, s4))
    requires ModuleAt(g3, s4) == Ok((g4, s5)) && U8At(s5) == Ok((a, 1)) && s5[1..] == t
    ensures ObjLocAfter(subType, o, s1) == Ok((g4.(add := a > 0), t))
  {
  }

  lemma OrderRoundTrip(subType: u32, f: Order, t: seq<byte>)
    requires OrderWellFormed(subType, f)
    ensures OrderAt(subType, PutOrder(subType, f, t)) == Ok((f, t))
  {
    if subType == DroidOrderSybTypeObj || subType == DroidOrderSybTypeLoc {
      ObjLocRoundTrip(subType, f, t);
      ObjLocFieldsComplete(subType, f);
    } else if subType == DroidOrderSybTypeSec {
      ReadsU32(f.secOrder, PutU32(f.secState, t));
      ReadsU32(f.secState, t);
    }
  }

  ghost function PutDroidInfo(p: Packet, t: seq<byte>): seq<byte>
    requires p.DroidInfo? && OrderWellFormed(p.subType, p.fields) && |p.droids| < TWO32
  {
    PutU8(p.player, PutU32(p.subType, PutOrder(p.subType, p.fields,
      PutU32(|p.droids|, PutIds(p.droids, t)))))
  }

  lemma DroidInfoRoundTrip(p: Packet, t: seq<byte>)
    requires p.DroidInfo? && OrderWellFormed(p.subType, p.fields) && |p.droids| < TWO32
    ensures DroidInfoAt(p.hdr, PutDroidInfo(p, t)) == Ok((p, t))
  {
    var s4 := PutIds(p.droids, t);
    var s3 := PutU32(|p.droids|, s4);
    var s2 := PutOrder(p.subType, p.fields, s3);
    ReadsU32(p.subType, s2);
    OrderRoundTrip(p.subType, p.fields, s3);
    ReadsU32(|p.droids|, s4);
    ReadsIds(p.droids, t);
  }

  ghost function PutGift(p: Packet, t: seq<byte>): seq<byte>
    requires p.Gift?
  {
    PutU8(p.giftType, PutU8(p.from, PutU8(p.to, PutU32(p.droidID, t))))
  }

  lemma GiftRoundTrip(p: Packet, t: seq<byte>)
    requires p.Gift?
    ensures GiftAt(p.hdr, PutGift(p, t)) == Ok((p, t))
  {
    ReadsU32(p.droidID, t);
  }

  ghost function PutLasSat(p: Packet, t: seq<byte>): seq<byte>
    requires p.LasSat?
  {
    PutU8(p.player, PutU32(p.id, PutU32(p.targetID, PutU8(p.targetPlayer, t))))
  }

  lemma LasSatRoundTrip(p: Packet, t: seq<byte>)
    requires p.LasSat?
    ensures LasSatAt(p.hdr, PutLasSat(p, t)) == Ok((p, t))
  {
    var s3 := PutU8(p.targetPlayer, t);
    ReadsU32(p.id, PutU32(p.targetID, s3));
    ReadsU32(p.targetID, s3);
  }

  // ---------------------------------------------------------------------
  // ParsePacket
  // ---------------------------------------------------------------------

  /** A packet ParsePacket can return: its code has a parser, its variant is
      the one that parser produces, and its fields are in the decoder's range. */
  predicate WellFormed(p: Packet)
  {
    HasParser(p.hdr.t) && KindMatches(p.hdr.t, p) &&
    match p
    case StructInfo(_, _, _, _, _, _) => StructInfoWellFormed(p)
    case DroidInfo(_, _, subType, fields, droids) => OrderWellFormed(subType, fields) && |droids| < TWO32
    case _ => true
  }

  /** The payload of `p` in front of `t`. */
  ghost function Encode(p: Packet, t: seq<byte>): seq<byte>
    requires WellFormed(p)
  {
    match p
    case Nothing(_) => t
    case GameTime(_, _, _, _, _) => PutGameTime(p, t)
    case StructInfo(_, _, _, _, _, _) => PutStructInfo(p, t)
    case ResearchStatus(_, _, _, _, _) => PutResearchStatus(p, t)
    case DroidInfo(_, _, _, _, _) => PutDroidInfo(p, t)
    case PlayerLeft(_, pl) => PutU8(pl, t)
    case Gift(_, _, _, _, _) => PutGift(p, t)
    case LasSat(_, _, _, _, _) => PutLasSat(p, t)
  }

  /** ParsePacket reads every well-formed packet back from its payload,
      leaving whatever follows it. */
  lemma EncodeRoundTrip(p: Packet, t: seq<byte>)
    requires WellFormed(p)
    ensures ParsePacketAt(p.Type(), p.Length(), Encode(p, t)) == Ok((p, t))
  {
    assert Header(p.Type(), p.Length()) == p.hdr;
    ParserIs(p.hdr, Encode(p, t));
    match p
    case Nothing(_) =>
    case GameTime(_, _, _, _, _) => GameTimeRoundTrip(p, t);
    case StructInfo(_, _, _, _, _, _) => StructInfoRoundTrip(p, t);
    case ResearchStatus(_, _, _, _, _) => ResearchStatusRoundTrip(p, t);
    case DroidInfo(_, _, _, _, _) => DroidInfoRoundTrip(p, t);
    case PlayerLeft(_, _) =>
    case Gift(_, _, _, _, _) => GiftRoundTrip(p, t);
    case LasSat(_, _, _, _, _) => LasSatRoundTrip(p, t);
  }
}
