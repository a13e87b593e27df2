/** The per-packet decoders of the game protocol (packet/game.go).

    Each decoder is a fixed sequence of primitive reads, some of them
    conditional on fields read before.  Every decoder has a pure
    specification on the bytes it is given (`...At`), returning the value and
    the bytes left after it, or the error of the first read that failed; the
    decoder methods, which read from a `Reader` field by field as the program
    does, are proved to leave the reader exactly on those remaining bytes.

    A read error inside a decoder is a panic in the program (`panicerr`); the
    dispatcher `ParsePacketAt` reports it as `ParserPanic`, so a decoder never
    hands back a packet built from a truncated payload. */
module Packet {
  import opened Wrappers
  import opened WzBytes
  import opened WzConstants

  /** `pk`: the type code and declared length a decoder is handed. */
  datatype Header = Header(t: byte, l: u32)

  /** PkGameStructInfoDroidDef: the droid template a factory starts to build. */
  datatype DroidDef = DroidDef(name: seq<u16>, id: u32, droidType: i32, body: byte, brain: byte,
    propulsion: byte, repairunit: byte, ecm: byte, sensor: byte, construct: byte)

  /** Go's zero value of the template, left in place for other structure-info actions. */
  const ZeroDroid: DroidDef := DroidDef([], 0, 0, 0, 0, 0, 0, 0, 0, 0)

  /** The order fields of PkGameDroidInfo; those the sub-type and order do not read stay zero. */
  datatype Order = Order(order: u32, destID: u32, destType: u32, coordX: i32, coordY: i32,
    structRef: u32, direction: u16, coordX2: i32, coordY2: i32, index: u32, add: bool,
    secOrder: u32, secState: u32)

  const ZeroOrder: Order := Order(0, 0, 0, 0, 0, 0, 0, 0, 0, 0, false, 0, 0)

  /** The packets the decoders produce: one variant per parser, each carrying its header. */
  datatype Packet =
    | Nothing(hdr: Header)
    | GameTime(hdr: Header, latencyTicks: u32, gameTime: u32, crc: u16, wantedLatency: u16)
    | StructInfo(hdr: Header, player: byte, structID: u32, structInfo: byte, droid: DroidDef,
                 droidWeapons: seq<u32>)
    | ResearchStatus(hdr: Header, player: byte, start: bool, building: u32, topic: u32)
    | DroidInfo(hdr: Header, player: byte, subType: u32, fields: Order, droids: seq<u32>)
    | PlayerLeft(hdr: Header, player: byte)
    | Gift(hdr: Header, giftType: byte, from: byte, to: byte, droidID: u32)
    | LasSat(hdr: Header, player: byte, id: u32, targetID: u32, targetPlayer: byte)
  {
    /** NetPacket.Type. */
    function Type(): byte
    {
      hdr.t
    }

    /** NetPacket.Length: the declared length, whatever the decoder consumed. */
    function Length(): u32
    {
      hdr.l
    }

    /** NetPacket.Name: the registry name of the type code, "" if it has none. */
    function Name(): (name: string)
      ensures hdr.t in NetMessageType ==> name == NetMessageType[hdr.t]
      ensures hdr.t !in NetMessageType ==> name == ""
    {
      MessageName(hdr.t)
    }
  }

  /** A decoder's outcome on some bytes: the value and the bytes it left unread. */
  type Parsed<T> = Result<(T, seq<byte>)>

  // ---------------------------------------------------------------------
  // Specifications of the decoders
  // ---------------------------------------------------------------------

  /** ParseGameGameTime: U32v latency ticks, U32v game time, U16 CRC, U16 wanted latency. */
  function GameTimeAt(h: Header, s: seq<byte>): (r: Parsed<Packet>)
    ensures r.Ok? ==> r.value.0.GameTime? && r.value.0.hdr == h && |r.value.1| <= |s| - 6
  {
    var lt :- VarintAt(s);
    var s1 := s[lt.1..];
    var gt :- VarintAt(s1);
    var s2 := s1[gt.1..];
    var crc :- U16At(s2);
    var s3 := s2[2..];
    var wl :- U16At(s3);
    Ok((GameTime(h, lt.0, gt.0, crc.0, wl.0), s3[2..]))
  }

  /** The droid template literal: NETstring name, U32v id, S32v type, then
      seven U8 component indices in field order. */
  function DroidDefAt(s: seq<byte>): (r: Parsed<DroidDef>)
    ensures r.Ok? ==> |r.value.1| <= |s| - 9
  {
    var nm :- StringAt(s);
    var s1 := s[nm.1..];
    var id :- VarintAt(s1);
    var s2 := s1[id.1..];
    var ty :- S32At(s2);
    var s3 := s2[ty.1..];
    var body :- U8At(s3);
    var s4 := s3[1..];
    var brain :- U8At(s4);
    var s5 := s4[1..];
    var propulsion :- U8At(s5);
    var s6 := s5[1..];
    var repairunit :- U8At(s6);
    var s7 := s6[1..];
    var ecm :- U8At(s7);
    var s8 := s7[1..];
    var sensor :- U8At(s8);
    var s9 := s8[1..];
    var construct :- U8At(s9);
    Ok((DroidDef(nm.0, id.0, ty.0, body.0, brain.0, propulsion.0, repairunit.0, ecm.0, sensor.0,
                 construct.0), s9[1..]))
  }

  /** The first `n` of a run of U32v values, read left to right. */
  function VarintsAt(n: nat, s: seq<byte>): (r: Parsed<seq<u32>>)
    ensures r.Ok? ==> |r.value.0| == n && |r.value.1| <= |s|
    decreases n
  {
    if n == 0 then Ok(([], s)) else VarintNext(VarintsAt(n - 1, s))
  }

  /** One more NETreadU32 after the values decoded so far, or their failure. */
  function VarintNext(front: Parsed<seq<u32>>): (r: Parsed<seq<u32>>)
    ensures front.Err? ==> r == front
    ensures r.Ok? ==> front.Ok? && |r.value.0| == |front.value.0| + 1 && |r.value.1| <= |front.value.1|
  {
    var f :- front;
    var v :- VarintAt(f.1);
    Ok((f.0 + [v.0], f.1[v.1..]))
  }

  /** ParseGameStructInfo: U8 player, U32v structure id, U8 action; only for
      STRUCTUREINFO_MANUFACTURE the droid template, a U8 weapon count and
      that many U32v weapons. */
  function StructInfoAt(h: Header, s: seq<byte>): (r: Parsed<Packet>)
    ensures r.Ok? ==> r.value.0.StructInfo? && r.value.0.hdr == h && |r.value.1| <= |s| - 3
    ensures r.Ok? && r.value.0.structInfo != STRUCTUREINFO_MANUFACTURE ==>
      r.value.0.droid == ZeroDroid && r.value.0.droidWeapons == []
    ensures r.Ok? ==> |r.value.0.droidWeapons| < 0x100
  {
    var pl :- U8At(s);
    var s1 := s[1..];
    var id :- VarintAt(s1);
    var s2 := s1[id.1..];
    var si :- U8At(s2);
    var s3 := s2[1..];
    if si.0 != STRUCTUREINFO_MANUFACTURE then
      Ok((StructInfo(h, pl.0, id.0, si.0, ZeroDroid, []), s3))
    else
      var d :- DroidDefAt(s3);
      var nw :- U8At(d.1);
      var s5 := d.1[1..];
      var ws :- VarintsAt(nw.0, s5);
      Ok((StructInfo(h, pl.0, id.0, si.0, d.0, ws.0), ws.1))
  }

  /** ParseGameResearchStatus: U8 player, U8 start flag (set iff nonzero), U32v building, U32v topic. */
  function ResearchStatusAt(h: Header, s: seq<byte>): (r: Parsed<Packet>)
    ensures r.Ok? ==> r.value.0.ResearchStatus? && r.value.0.hdr == h && |r.value.1| <= |s| - 4
  {
    var pl :- U8At(s);
    var s1 := s[1..];
    var st :- U8At(s1);
    var s2 := s1[1..];
    var b :- VarintAt(s2);
    var s3 := s2[b.1..];
    var tp :- VarintAt(s3);
    Ok((ResearchStatus(h, pl.0, st.0 > 0, b.0, tp.0), s3[tp.1..]))
  }

  /** The destination of an Obj order (two U32v) or a Loc order (two S32v coordinates). */
  function TargetAt(subType: u32, f: Order, s: seq<byte>): (r: Parsed<Order>)
    ensures r.Ok? ==> |r.value.1| <= |s| - 2
  {
    if subType == DroidOrderSybTypeObj then
      var id :- VarintAt(s);
      var s1 := s[id.1..];
      var ty :- VarintAt(s1);
      Ok((f.(destID := id.0, destType := ty.0), s1[ty.1..]))
    else
      var x :- S32At(s);
      var s1 := s[x.1..];
      var y :- S32At(s1);
      Ok((f.(coordX := x.0, coordY := y.0), s1[y.1..]))
  }

  /** For DORDER_BUILD and DORDER_LINEBUILD: U32v structure reference and U16 direction. */
  function BuildAt(f: Order, s: seq<byte>): (r: Parsed<Order>)
    ensures r.Ok? ==> |r.value.1| <= |s|
  {
    if f.order == DORDER_BUILD || f.order == DORDER_LINEBUILD then
      var sr :- VarintAt(s);
      var s1 := s[sr.1..];
      var dir :- U16At(s1);
      Ok((f.(structRef := sr.0, direction := dir.0), s1[2..]))
    else Ok((f, s))
  }

  /** For DORDER_LINEBUILD: the far end of the line, two S32v. */
  function LineAt(f: Order, s: seq<byte>): (r: Parsed<Order>)
    ensures r.Ok? ==> |r.value.1| <= |s|
  {
    if f.order == DORDER_LINEBUILD then
      var x :- S32At(s);
      var s1 := s[x.1..];
      var y :- S32At(s1);
      Ok((f.(coordX2 := x.0, coordY2 := y.0), s1[y.1..]))
    else Ok((f, s))
  }

  /** For DORDER_BUILDMODULE: U32v module index. */
  function ModuleAt(f: Order, s: seq<byte>): (r: Parsed<Order>)
    ensures r.Ok? ==> |r.value.1| <= |s|
  {
    if f.order == DORDER_BUILDMODULE then
      var ix :- VarintAt(s);
      Ok((f.(index := ix.0), s[ix.1..]))
    else Ok((f, s))
  }

  /** The Obj and Loc branch: U32v order, the destination, the order's extra
      fields, then U8 add flag (set iff nonzero). */
  function ObjLocAt(subType: u32, s: seq<byte>): (r: Parsed<Order>)
    ensures r.Ok? ==> |r.value.1| <= |s| - 4
  {
    var o :- VarintAt(s);
    ObjLocAfter(subType, o.0, s[o.1..])
  }

  /** What follows the order number `o` in the Obj and Loc branch. */
  function ObjLocAfter(subType: u32, o: u32, s: seq<byte>): (r: Parsed<Order>)
    ensures r.Ok? ==> |r.value.1| <= |s| - 3
  {
    var t :- TargetAt(subType, ZeroOrder.(order := o), s);
    var b :- BuildAt(t.0, t.1);
    var l :- LineAt(b.0, b.1);
    var m :- ModuleAt(l.0, l.1);
    var a :- U8At(m.1);
    Ok((m.0.(add := a.0 > 0), m.1[1..]))
  }

  /** The switch on the sub-type: Obj and Loc as above, Sec two U32v, anything else nothing. */
  function OrderAt(subType: u32, s: seq<byte>): (r: Parsed<Order>)
    ensures r.Ok? ==> |r.value.1| <= |s|
  {
    if subType == DroidOrderSybTypeObj || subType == DroidOrderSybTypeLoc then ObjLocAt(subType, s)
    else if subType == DroidOrderSybTypeSec then
      var so :- VarintAt(s);
      var s1 := s[so.1..];
      var ss :- VarintAt(s1);
      Ok((ZeroOrder.(secOrder := so.0, secState := ss.0), s1[ss.1..]))
    else Ok((ZeroOrder, s))
  }

  /** The running total after the ids `xs`: the last one, or zero before the first. */
  function Last0(xs: seq<u32>): u32
  {
    if xs == [] then 0 else xs[|xs| - 1]
  }

  /** Go's `+` on uint32 (lemma AddU32Mod). */
  function AddU32(a: u32, b: u32): u32
  {
    Wrap32(a + b)
  }

  lemma AddU32Mod(a: u32, b: u32)
    ensures AddU32(a, b) == (a + b) % TWO32
  {
    Wrap32Mod(a + b);
  }

  /** The first `n` droid ids: each U32v delta added to the previous id in uint32 arithmetic. */
  function DeltasAt(n: nat, s: seq<byte>): (r: Parsed<seq<u32>>)
    ensures r.Ok? ==> |r.value.0| == n && |r.value.1| <= |s|
    decreases n
  {
    if n == 0 then Ok(([], s)) else DeltaNext(DeltasAt(n - 1, s))
  }

  /** One more delta added to the last id decoded so far, or their failure. */
  function DeltaNext(front: Parsed<seq<u32>>): (r: Parsed<seq<u32>>)
    ensures front.Err? ==> r == front
    ensures r.Ok? ==> front.Ok? && |r.value.0| == |front.value.0| + 1 && |r.value.1| <= |front.value.1|
  {
    var f :- front;
    var d :- VarintAt(f.1);
    Ok((f.0 + [AddU32(Last0(f.0), d.0)], f.1[d.1..]))
  }

  /** ParseGameDroidInfo: U8 player, U32v sub-type, the order fields, then a
      U32v count and that many delta-encoded droid ids. */
  function DroidInfoAt(h: Header, s: seq<byte>): (r: Parsed<Packet>)
    ensures r.Ok? ==> r.value.0.DroidInfo? && r.value.0.hdr == h && |r.value.1| <= |s| - 3
  {
    var pl :- U8At(s);
    var s1 := s[1..];
    var st :- VarintAt(s1);
    var f :- OrderAt(st.0, s1[st.1..]);
    var num :- VarintAt(f.1);
    var ids :- DeltasAt(num.0, f.1[num.1..]);
    Ok((DroidInfo(h, pl.0, st.0, f.0, ids.0), ids.1))
  }

  /** ParseGamePlayerLeft: U8 player. */
  function PlayerLeftAt(h: Header, s: seq<byte>): (r: Parsed<Packet>)
    ensures r.Ok? ==> r.value.0.PlayerLeft? && r.value.0.hdr == h && |r.value.1| == |s| - 1
  {
    var pl :- U8At(s);
    Ok((PlayerLeft(h, pl.0), s[1..]))
  }

  /** ParseGameGift: U8 gift type, U8 from, U8 to, U32v droid id. */
  function GiftAt(h: Header, s: seq<byte>): (r: Parsed<Packet>)
    ensures r.Ok? ==> r.value.0.Gift? && r.value.0.hdr == h && |r.value.1| <= |s| - 4
  {
    var gt :- U8At(s);
    var s1 := s[1..];
    var fr :- U8At(s1);
    var s2 := s1[1..];
    var to :- U8At(s2);
    var s3 := s2[1..];
    var id :- VarintAt(s3);
    Ok((Gift(h, gt.0, fr.0, to.0, id.0), s3[id.1..]))
  }

  /** ParseGameLasSat: U8 player, U32v weapon id, U32v target id, U8 target player. */
  function LasSatAt(h: Header, s: seq<byte>): (r: Parsed<Packet>)
    ensures r.Ok? ==> r.value.0.LasSat? && r.value.0.hdr == h && |r.value.1| <= |s| - 4
  {
    var pl :- U8At(s);
    var s1 := s[1..];
    var id :- VarintAt(s1);
    var s2 := s1[id.1..];
    var tg :- VarintAt(s2);
    var s3 := s2[tg.1..];
    var tp :- U8At(s3);
    Ok((LasSat(h, pl.0, id.0, tg.0, tp.0), s3[1..]))
  }

  // ---------------------------------------------------------------------
  // The parser table and ParsePacket
  // ---------------------------------------------------------------------

  /** The codes of `packetParsers`. */
  predicate HasParser(t: byte)
  {
    t == GAME_GAME_TIME || t == GAME_STRUCTUREINFO || t == GAME_RESEARCHSTATUS ||
    t == GAME_DROIDINFO || t == GAME_PLAYER_LEFT || t == GAME_GIFT || t == GAME_LASSAT ||
    t == REPLAY_ENDED
  }

  /** Which variant each parser of the table produces. */
  predicate KindMatches(t: byte, p: Packet)
  {
    (t == GAME_GAME_TIME ==> p.GameTime?) && (t == GAME_STRUCTUREINFO ==> p.StructInfo?) &&
    (t == GAME_RESEARCHSTATUS ==> p.ResearchStatus?) && (t == GAME_DROIDINFO ==> p.DroidInfo?) &&
    (t == GAME_PLAYER_LEFT ==> p.PlayerLeft?) && (t == GAME_GIFT ==> p.Gift?) &&
    (t == GAME_LASSAT ==> p.LasSat?) && (t == REPLAY_ENDED ==> p.Nothing?)
  }

  /** ParseNothing: the REPLAY_ENDED packet has no payload to read. */
  function NothingAt(h: Header, s: seq<byte>): (r: Parsed<Packet>)
    ensures r.Ok? && r.value.0.Nothing? && r.value.0.hdr == h && r.value.1 == s
  {
    Ok((Nothing(h), s))
  }

  /** `packetParsers`: the decoder registered for each packet code. */
  const Parsers: map<byte, (Header, seq<byte>) -> Parsed<Packet>> :=
    map[GAME_GAME_TIME := GameTimeAt, GAME_STRUCTUREINFO := StructInfoAt,
        GAME_RESEARCHSTATUS := ResearchStatusAt, GAME_DROIDINFO := DroidInfoAt,
        GAME_PLAYER_LEFT := PlayerLeftAt, GAME_GIFT := GiftAt, GAME_LASSAT := LasSatAt,
        REPLAY_ENDED := NothingAt]

  /** The parser `packetParsers[h.t]` run on `s`, its read errors still raw. */
  function ParserAt(h: Header, s: seq<byte>): (r: Parsed<Packet>)
    requires HasParser(h.t)
    ensures r.Ok? ==> r.value.0.hdr == h && |r.value.1| <= |s| && KindMatches(h.t, r.value.0)
    ensures h.t == REPLAY_ENDED ==> r == NothingAt(h, s)
  {
    assert h.t in Parsers;
    Parsers[h.t](h, s)
  }

  /** The table entry for each registered code. */
  lemma ParserIs(h: Header, s: seq<byte>)
    requires HasParser(h.t)
    ensures h.t == GAME_GAME_TIME ==> ParserAt(h, s) == GameTimeAt(h, s)
    ensures h.t == GAME_STRUCTUREINFO ==> ParserAt(h, s) == StructInfoAt(h, s)
    ensures h.t == GAME_RESEARCHSTATUS ==> ParserAt(h, s) == ResearchStatusAt(h, s)
    ensures h.t == GAME_DROIDINFO ==> ParserAt(h, s) == DroidInfoAt(h, s)
    ensures h.t == GAME_PLAYER_LEFT ==> ParserAt(h, s) == PlayerLeftAt(h, s)
    ensures h.t == GAME_GIFT ==> ParserAt(h, s) == GiftAt(h, s)
    ensures h.t == GAME_LASSAT ==> ParserAt(h, s) == LasSatAt(h, s)
  {
    assert Parsers[GAME_GAME_TIME] == GameTimeAt && Parsers[GAME_STRUCTUREINFO] == StructInfoAt;
    assert Parsers[GAME_RESEARCHSTATUS] == ResearchStatusAt && Parsers[GAME_DROIDINFO] == DroidInfoAt;
    assert Parsers[GAME_PLAYER_LEFT] == PlayerLeftAt && Parsers[GAME_GIFT] == GiftAt;
    assert Parsers[GAME_LASSAT] == LasSatAt;
  }

  /** The error ParsePacket returns for a code without a parser: its text
      names the code's registry entry (MessageName) when it has one, and
      calls it an unknown packet type otherwise. */
  function NoParser(t: byte): Error
  {
    NoPacketParser(t, InRegistry(t))
  }

  /** A read error inside a parser, after panicerr turned it into a panic. */
  function Panicked<T>(r: Result<T>): (r': Result<T>)
    ensures r.Ok? ==> r' == r
    ensures r.Err? ==> r' == Err(ParserPanic(r.error))
  {
    if r.Ok? then r else Err(ParserPanic(r.error))
  }

  /** ParsePacket(t, l, s): an error, never a packet, for a code without a
      parser; otherwise the parser's packet, carrying the header (t, l)
      whatever it consumed, or the panic of its first failed read. */
  function ParsePacketAt(t: byte, l: u32, s: seq<byte>): (r: Parsed<Packet>)
    ensures !HasParser(t) <==> r.Err? && r.error.NoPacketParser?
    ensures !HasParser(t) ==> r == Err(NoParser(t))
    ensures HasParser(t) && r.Err? ==> r.error.ParserPanic?
    ensures r.Ok? ==> r.value.0.hdr == Header(t, l) && r.value.0.Type() == t && r.value.0.Length() == l
    ensures r.Ok? ==> |r.value.1| <= |s| && KindMatches(t, r.value.0)
    ensures t == REPLAY_ENDED ==> r == Ok((Nothing(Header(t, l)), s))
  {
    if !HasParser(t) then Err(NoParser(t))
    else Panicked(ParserAt(Header(t, l), s))
  }

  /** NoParser's text names a registry entry exactly for the codes NetMessageType has. */
  lemma NoParserNamed(t: byte)
    ensures NoParser(t).registered <==> t in NetMessageType
  {
    RegistryDomain(t);
  }

  /** The codes with a parser are registered, and REPLAY_ENDED_2 has none. */
  lemma ParsersRegistered(t: byte)
    requires HasParser(t)
    ensures t in NetMessageType && GAME_MIN_TYPE <= t <= REPLAY_ENDED
    ensures ParsePacketAt(REPLAY_ENDED_2, 0, []) == Err(NoPacketParser(REPLAY_ENDED_2, false))
  {
    RegistryDomain(t);
    RegistryDomain(REPLAY_ENDED_2);
  }

  // ---------------------------------------------------------------------
  // The decoders, reading field by field
  // ---------------------------------------------------------------------

  /** The reader moved as the decoder specification `spec` says: onto the
      bytes the decoder left, with its value, or to the end of the input with
      its error. */
  ghost predicate Decoded<T>(r: Reader, spec: Parsed<T>, res: Result<T>)
    reads r
  {
    r.Valid() &&
    match spec
    case Ok(vr) => res == Ok(vr.0) && r.Rest() == vr.1
    case Err(e) => res == Err(e) && r.pos == |r.data|
  }

  /** The same for a primitive read of the bytes `t`, whose specification counts the bytes it took. */
  ghost predicate Took<T>(r: Reader, t: seq<byte>, spec: Result<(T, nat)>, res: Result<T>)
    reads r
  {
    r.Valid() &&
    match spec
    case Ok(vk) => res == Ok(vk.0) && vk.1 <= |t| && r.Rest() == t[vk.1..]
    case Err(e) => res == Err(e) && r.pos == |r.data|
  }

  /** NETreadU8 as the decoders call it. */
  method ReadU8(r: Reader) returns (v: Result<byte>)
    requires r.Valid()
    modifies r
    ensures Took(r, old(r.Rest()), U8At(old(r.Rest())), v)
  {
    v := r.NETreadU8();
  }

  /** NETreadU16 as the decoders call it. */
  method ReadU16(r: Reader) returns (v: Result<u16>)
    requires r.Valid()
    modifies r
    ensures Took(r, old(r.Rest()), U16At(old(r.Rest())), v)
  {
    v := r.NETreadU16();
  }

  /** NETreadU32 as the decoders call it. */
  method ReadU32(r: Reader) returns (v: Result<u32>)
    requires r.Valid()
    modifies r
    ensures Took(r, old(r.Rest()), VarintAt(old(r.Rest())), v)
  {
    v := r.NETreadU32();
  }

  /** NETreadS32 as the decoders call it. */
  method ReadS32(r: Reader) returns (v: Result<i32>)
    requires r.Valid()
    modifies r
    ensures Took(r, old(r.Rest()), S32At(old(r.Rest())), v)
  {
    v := r.NETreadS32();
  }

  /** NETstring as the decoders call it. */
  method ReadString(r: Reader) returns (v: Result<seq<u16>>)
    requires r.Valid()
    modifies r
    ensures Took(r, old(r.Rest()), StringAt(old(r.Rest())), v)
  {
    v := r.NETstring();
  }

  method ParseNothing(h: Header, r: Reader) returns (res: Result<Packet>)
    requires r.Valid()
    modifies r
    ensures Decoded(r, NothingAt(h, old(r.Rest())), res)
  {
    res := Ok(Nothing(h));
  }

  method ParseGameGameTime(h: Header, r: Reader) returns (res: Result<Packet>)
    requires r.Valid()
    modifies r
    ensures Decoded(r, GameTimeAt(h, old(r.Rest())), res)
  {
    var lt := ReadU32(r);
    if lt.Err? { return Err(lt.error); }
    var gt := ReadU32(r);
    if gt.Err? { return Err(gt.error); }
    var crc := ReadU16(r);
    if crc.Err? { return Err(crc.error); }
    var wl := ReadU16(r);
    if wl.Err? { return Err(wl.error); }
    res := Ok(GameTime(h, lt.value, gt.value, crc.value, wl.value));
  }

  /** The droid template literal of ParseGameStructInfo, its fields read left to right. */
  method ReadDroidDef(r: Reader) returns (res: Result<DroidDef>)
    requires r.Valid()
    modifies r
    ensures Decoded(r, DroidDefAt(old(r.Rest())), res)
  {
    var name := ReadString(r);
    if name.Err? { return Err(name.error); }
    var id := ReadU32(r);
    if id.Err? { return Err(id.error); }
    var droidType := ReadS32(r);
    if droidType.Err? { return Err(droidType.error); }
    var body := ReadU8(r);
    if body.Err? { return Err(body.error); }
    var brain := ReadU8(r);
    if brain.Err? { return Err(brain.error); }
    var propulsion := ReadU8(r);
    if propulsion.Err? { return Err(propulsion.error); }
    var repairunit := ReadU8(r);
    if repairunit.Err? { return Err(repairunit.error); }
    var ecm := ReadU8(r);
    if ecm.Err? { return Err(ecm.error); }
    var sensor := ReadU8(r);
    if sensor.Err? { return Err(sensor.error); }
    var construct := ReadU8(r);
    if construct.Err? { return Err(construct.error); }
    res := Ok(DroidDef(name.value, id.value, droidType.value, body.value, brain.value, propulsion.value,
      repairunit.value, ecm.value, sensor.value, construct.value));
  }

  /** Once a run of reads has failed, reading further values changes nothing. */
  lemma {:induction false} VarintsStuck(i: nat, n: nat, s: seq<byte>)
    requires i <= n && VarintsAt(i, s).Err?
    ensures VarintsAt(n, s) == VarintsAt(i, s)
    decreases n
  {
    if i < n {
      VarintsStuck(i, n - 1, s);
    }
  }

  /** The weapons loop of ParseGameStructInfo: `n` NETreadU32 appended in order. */
  method ReadVarints(n: nat, r: Reader) returns (res: Result<seq<u32>>)
    requires r.Valid()
    modifies r
    ensures Decoded(r, VarintsAt(n, old(r.Rest())), res)
  {
    ghost var s0 := r.Rest();
    var xs: seq<u32> := [];
    var i := 0;
    while i < n
      invariant i <= n && r.Valid()
      invariant VarintsAt(i, s0) == Ok((xs, r.Rest()))
    {
      var v := ReadU32(r);
      if v.Err? {
        VarintsStuck(i + 1, n, s0);
        return Err(v.error);
      }
      xs := xs + [v.value];
      i := i + 1;
    }
    res := Ok(xs);
  }

  method ParseGameStructInfo(h: Header, r: Reader) returns (res: Result<Packet>)
    requires r.Valid()
    modifies r
    ensures Decoded(r, StructInfoAt(h, old(r.Rest())), res)
  {
    var player := ReadU8(r);
    if player.Err? { return Err(player.error); }
    var structID := ReadU32(r);
    if structID.Err? { return Err(structID.error); }
    var structInfo := ReadU8(r);
    if structInfo.Err? { return Err(structInfo.error); }
    if structInfo.value != STRUCTUREINFO_MANUFACTURE {
      return Ok(StructInfo(h, player.value, structID.value, structInfo.value, ZeroDroid, []));
    }
    var droid := ReadDroidDef(r);
    if droid.Err? { return Err(droid.error); }
    var droidNumWeapons := ReadU8(r);
    if droidNumWeapons.Err? { return Err(droidNumWeapons.error); }
    var weapons := ReadVarints(droidNumWeapons.value, r);
    if weapons.Err? { return Err(weapons.error); }
    res := Ok(StructInfo(h, player.value, structID.value, structInfo.value, droid.value, weapons.value));
  }

  method ParseGameResearchStatus(h: Header, r: Reader) returns (res: Result<Packet>)
    requires r.Valid()
    modifies r
    ensures Decoded(r, ResearchStatusAt(h, old(r.Rest())), res)
  {
    var player := ReadU8(r);
    if player.Err? { return Err(player.error); }
    var start := ReadU8(r);
    if start.Err? { return Err(start.error); }
    var building := ReadU32(r);
    if building.Err? { return Err(building.error); }
    var topic := ReadU32(r);
    if topic.Err? { return Err(topic.error); }
    res := Ok(ResearchStatus(h, player.value, start.value > 0, building.value, topic.value));
  }

  /** The destination fields of the Obj and Loc branch of ParseGameDroidInfo. */
  method ReadTarget(subType: u32, f: Order, r: Reader) returns (res: Result<Order>)
    requires r.Valid()
    modifies r
    ensures Decoded(r, TargetAt(subType, f, old(r.Rest())), res)
  {
    if subType == DroidOrderSybTypeObj {
      var destID := ReadU32(r);
      if destID.Err? { return Err(destID.error); }
      var destType := ReadU32(r);
      if destType.Err? { return Err(destType.error); }
      res := Ok(f.(destID := destID.value, destType := destType.value));
    } else {
      var x := ReadS32(r);
      if x.Err? { return Err(x.error); }
      var y := ReadS32(r);
      if y.Err? { return Err(y.error); }
      res := Ok(f.(coordX := x.value, coordY := y.value));
    }
  }

  /** The DORDER_BUILD / DORDER_LINEBUILD fields. */
  method ReadBuild(f: Order, r: Reader) returns (res: Result<Order>)
    requires r.Valid()
    modifies r
    ensures Decoded(r, BuildAt(f, old(r.Rest())), res)
  {
    if f.order == DORDER_BUILD || f.order == DORDER_LINEBUILD {
      var structRef := ReadU32(r);
      if structRef.Err? { return Err(structRef.error); }
      var direction := ReadU16(r);
      if direction.Err? { return Err(direction.error); }
      return Ok(f.(structRef := structRef.value, direction := direction.value));
    }
    res := Ok(f);
  }

  /** The DORDER_LINEBUILD far end. */
  method ReadLine(f: Order, r: Reader) returns (res: Result<Order>)
    requires r.Valid()
    modifies r
    ensures Decoded(r, LineAt(f, old(r.Rest())), res)
  {
    if f.order == DORDER_LINEBUILD {
      var x2 := ReadS32(r);
      if x2.Err? { return Err(x2.error); }
      var y2 := ReadS32(r);
      if y2.Err? { return Err(y2.error); }
      return Ok(f.(coordX2 := x2.value, coordY2 := y2.value));
    }
    res := Ok(f);
  }

  /** The DORDER_BUILDMODULE index. */
  method ReadModule(f: Order, r: Reader) returns (res: Result<Order>)
    requires r.Valid()
    modifies r
    ensures Decoded(r, ModuleAt(f, old(r.Rest())), res)
  {
    if f.order == DORDER_BUILDMODULE {
      var index := ReadU32(r);
      if index.Err? { return Err(index.error); }
      return Ok(f.(index := index.value));
    }
    res := Ok(f);
  }

  /** The Obj and Loc case of the sub-type switch (with its fallthrough). */
  method ReadObjLoc(subType: u32, r: Reader) returns (res: Result<Order>)
    requires r.Valid()
    modifies r
    ensures Decoded(r, ObjLocAt(subType, old(r.Rest())), res)
  {
    var order := ReadU32(r);
    if order.Err? { return Err(order.error); }
    var f := ReadTarget(subType, ZeroOrder.(order := order.value), r);
    if f.Err? { return Err(f.error); }
    f := ReadBuild(f.value, r);
    if f.Err? { return Err(f.error); }
    f := ReadLine(f.value, r);
    if f.Err? { return Err(f.error); }
    f := ReadModule(f.value, r);
    if f.Err? { return Err(f.error); }
    var add := ReadU8(r);
    if add.Err? { return Err(add.error); }
    res := Ok(f.value.(add := add.value > 0));
  }

  /** The switch on the sub-type of ParseGameDroidInfo. */
  method ReadOrder(subType: u32, r: Reader) returns (res: Result<Order>)
    requires r.Valid()
    modifies r
    ensures Decoded(r, OrderAt(subType, old(r.Rest())), res)
  {
    if subType == DroidOrderSybTypeObj || subType == DroidOrderSybTypeLoc {
      res := ReadObjLoc(subType, r);
    } else if subType == DroidOrderSybTypeSec {
      var secOrder := ReadU32(r);
      if secOrder.Err? { return Err(secOrder.error); }
      var secState := ReadU32(r);
      if secState.Err? { return Err(secState.error); }
      res := Ok(ZeroOrder.(secOrder := secOrder.value, secState := secState.value));
    } else {
      res := Ok(ZeroOrder);
    }
  }

  /** Once the id list has failed, reading further ids changes nothing. */
  lemma {:induction false} DeltasStuck(i: nat, n: nat, s: seq<byte>)
    requires i <= n && DeltasAt(i, s).Err?
    ensures DeltasAt(n, s) == DeltasAt(i, s)
    decreases n
  {
    if i < n {
      DeltasStuck(i, n - 1, s);
    }
  }

  /** The droid id loop of ParseGameDroidInfo: `n` deltas added to the running uint32 `droiddelta`. */
  method ReadDroidIds(n: u32, r: Reader) returns (res: Result<seq<u32>>)
    requires r.Valid()
    modifies r
    ensures Decoded(r, DeltasAt(n, old(r.Rest())), res)
  {
    ghost var s0 := r.Rest();
    var droids: seq<u32> := [];
    var droiddelta: u32 := 0;
    for i := 0 to n
      invariant r.Valid() && droiddelta == Last0(droids)
      invariant DeltasAt(i, s0) == Ok((droids, r.Rest()))
    {
      var d := ReadU32(r);
      if d.Err? {
        DeltasStuck(i + 1, n, s0);
        return Err(d.error);
      }
      droiddelta := AddU32(droiddelta, d.value);
      droids := droids + [droiddelta];
    }
    res := Ok(droids);
  }

  method ParseGameDroidInfo(h: Header, r: Reader) returns (res: Result<Packet>)
    requires r.Valid()
    modifies r
    ensures Decoded(r, DroidInfoAt(h, old(r.Rest())), res)
  {
    var player := ReadU8(r);
    if player.Err? { return Err(player.error); }
    var subType := ReadU32(r);
    if subType.Err? { return Err(subType.error); }
    var fields := ReadOrder(subType.value, r);
    if fields.Err? { return Err(fields.error); }
    var num := ReadU32(r);
    if num.Err? { return Err(num.error); }
    var droids := ReadDroidIds(num.value, r);
    if droids.Err? { return Err(droids.error); }
    res := Ok(DroidInfo(h, player.value, subType.value, fields.value, droids.value));
  }

  method ParseGamePlayerLeft(h: Header, r: Reader) returns (res: Result<Packet>)
    requires r.Valid()
    modifies r
    ensures Decoded(r, PlayerLeftAt(h, old(r.Rest())), res)
  {
    var player := ReadU8(r);
    if player.Err? { return Err(player.error); }
    res := Ok(PlayerLeft(h, player.value));
  }

  method ParseGameGift(h: Header, r: Reader) returns (res: Result<Packet>)
    requires r.Valid()
    modifies r
    ensures Decoded(r, GiftAt(h, old(r.Rest())), res)
  {
    var giftType := ReadU8(r);
    if giftType.Err? { return Err(giftType.error); }
    var from := ReadU8(r);
    if from.Err? { return Err(from.error); }
    var to := ReadU8(r);
    if to.Err? { return Err(to.error); }
    var droidID := ReadU32(r);
    if droidID.Err? { return Err(droidID.error); }
    res := Ok(Gift(h, giftType.value, from.value, to.value, droidID.value));
  }

  method ParseGameLasSat(h: Header, r: Reader) returns (res: Result<Packet>)
    requires r.Valid()
    modifies r
    ensures Decoded(r, LasSatAt(h, old(r.Rest())), res)
  {
    var player := ReadU8(r);
    if player.Err? { return Err(player.error); }
    var id := ReadU32(r);
    if id.Err? { return Err(id.error); }
    var targetID := ReadU32(r);
    if targetID.Err? { return Err(targetID.error); }
    var targetPlayer := ReadU8(r);
    if targetPlayer.Err? { return Err(targetPlayer.error); }
    res := Ok(LasSat(h, player.value, id.value, targetID.value, targetPlayer.value));
  }

  /** ParsePacket: no reading at all for a code without a parser; otherwise
      the parser of the table, a read error inside it turned into a panic. */
  method ParsePacket(t: byte, l: u32, r: Reader) returns (res: Result<Packet>)
    requires r.Valid()
    modifies r
    ensures !HasParser(t) ==> res == Err(NoParser(t)) && r.pos == old(r.pos) && r.Valid()
    ensures HasParser(t) ==> Decoded(r, ParsePacketAt(t, l, old(r.Rest())), res)
  {
    if !HasParser(t) {
      return Err(NoParser(t));
    }
    var h := Header(t, l);
    ParserIs(h, r.Rest());
    if t == GAME_GAME_TIME {
      res := ParseGameGameTime(h, r);
    } else if t == GAME_STRUCTUREINFO {
      res := ParseGameStructInfo(h, r);
    } else if t == GAME_RESEARCHSTATUS {
      res := ParseGameResearchStatus(h, r);
    } else if t == GAME_DROIDINFO {
      res := ParseGameDroidInfo(h, r);
    } else if t == GAME_PLAYER_LEFT {
      res := ParseGamePlayerLeft(h, r);
    } else if t == GAME_GIFT {
      res := ParseGameGift(h, r);
    } else if t == GAME_LASSAT {
      res := ParseGameLasSat(h, r);
    } else {
      res := ParseNothing(h, r);
    }
    if res.Err? {
      res := Err(ParserPanic(res.error));
    }
  }
}
