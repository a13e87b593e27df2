/** The replay dumper's own pass over a replay (replay-dumper/main.go).

    The dumper walks the same container as the `replay` package, but with
    other failure rules: every error return ends the program through
    `log.Fatal` (`noerr`, `noerr2`, `must`), while an odd settings version or
    embedded-map version is only logged.  Its message loop frames each
    message itself (sender byte, type byte, variable-length length), copies
    the declared number of payload bytes out of the input and only then
    decodes that copy, so decoding never moves the framing.  On the way it
    tallies messages per type name and remembers the first time each player
    builds a droid with the AutoRepair unit.

    An exit of the program is an `Err`: `Fatal(e)` where log.Fatal reports
    the error `e`, `IndexOutOfRange` for a runtime panic, which the dumper
    does not recover either. */
module Dumper {
  import opened Wrappers
  import opened WzBytes
  import opened WzConstants
  import Packet
  import Replay
  import DumperStat

  type Parsed<T> = Packet.Parsed<T>

  /** noerr: an error return ends the program through log.Fatal. */
  function Noerr<T>(p: Parsed<T>): (r: Parsed<T>)
    ensures p.Ok? ==> r == p
    ensures p.Err? ==> r == Err(Fatal(p.error))
  {
    match p
    case Ok(v) => Ok(v)
    case Err(e) => Err(Fatal(e))
  }

  // ---------------------------------------------------------------------
  // readMagic
  // ---------------------------------------------------------------------

  /** readMagic: one Read of four bytes; an empty input, fewer than four
      bytes or other bytes than 'W','Z','r','p' end the program. */
  function MagicAt(s: seq<byte>): (r: Parsed<seq<byte>>)
  {
    var m :- Noerr(Replay.FullAt(4, s));
    if m.0 != Replay.Magic then Err(Fatal(WrongMagic)) else Ok(m)
  }

  /** The dumper accepts exactly the replays whose first four bytes are the
      magic, which are exactly those the replay package accepts; its
      refusals are fatal. */
  lemma MagicAccepts(s: seq<byte>)
    ensures MagicAt(s).Ok? <==> |s| >= 4 && s[..4] == Replay.Magic
    ensures MagicAt(s).Ok? ==> MagicAt(s).value == (s[..4], s[4..])
    ensures MagicAt(s).Err? ==> MagicAt(s).error.Fatal?
    ensures MagicAt(s) == Noerr(Replay.MagicAt(s))
  {
  }

  method ReadMagic(r: Reader) returns (res: Result<seq<byte>>)
    requires r.Valid()
    modifies r
    ensures Replay.Stepped(r, MagicAt(old(r.Rest())), res)
  {
    if r.pos == |r.data| {
      return Err(Fatal(EOF));
    }
    var n := if |r.data| - r.pos < 4 then |r.data| - r.pos else 4;
    var magic := r.data[r.pos..r.pos + n] + Zeros(4 - n);
    r.pos := r.pos + n;
    if n != 4 {
      return Err(Fatal(UnexpectedEOF));
    }
    if magic != Replay.Magic {
      return Err(Fatal(WrongMagic));
    }
    res := Ok(magic);
  }

  // ---------------------------------------------------------------------
  // readEmbeddedMap
  // ---------------------------------------------------------------------

  /** readEmbeddedMap: UBE32 version, UBE32 length, and that many bytes
      unless the length is 0.  The version is only logged.  An exhausted
      ReadUBE32 panics; a failed ReadBytes is fatal. */
  function EmbeddedMapAt(s: seq<byte>): (r: Parsed<Option<seq<byte>>>)
  {
    var dv :- Replay.Taking(UBE32At(s), s);
    var ml :- Replay.Taking(UBE32At(dv.1), dv.1);
    if ml.0 == 0 then Ok((None, ml.1))
    else
      var b :- Noerr(Replay.Taking(BytesAt(ml.0, ml.1), ml.1));
      Ok((Some(b.0), b.1))
  }

  /** The version word is read and ignored: any four bytes in its place give
      the same outcome. */
  lemma EmbeddedMapAnyVersion(v: seq<byte>, w: seq<byte>, t: seq<byte>)
    requires |v| == 4 && |w| == 4
    ensures EmbeddedMapAt(v + t) == EmbeddedMapAt(w + t)
  {
    assert (v + t)[..4] == v && (v + t)[4..] == t;
    assert (w + t)[..4] == w && (w + t)[4..] == t;
  }

  /** Where the replay package accepts the embedded map, the dumper reads the
      same blob; where the dumper reads one, the replay package accepts it
      exactly when the version is 1. */
  lemma EmbeddedMapAsReplay(s: seq<byte>)
    ensures Replay.EmbeddedMapAt(s).Ok? ==> EmbeddedMapAt(s) == Replay.EmbeddedMapAt(s)
    ensures EmbeddedMapAt(s).Ok? ==>
      |s| >= 4 && (Replay.EmbeddedMapAt(s).Ok? <==> BigEndian32(s[..4]) == 1)
  {
  }

  method ReadEmbeddedMap(r: Reader) returns (res: Result<Option<seq<byte>>>)
    requires r.Valid()
    modifies r
    ensures Replay.Stepped(r, EmbeddedMapAt(old(r.Rest())), res)
  {
    var dv := Replay.ReadUBE32(r);
    if dv.Err? {
      return Err(dv.error);
    }
    var len := Replay.ReadUBE32(r);
    if len.Err? {
      return Err(len.error);
    }
    if len.value == 0 {
      return Ok(None);
    }
    var b := Replay.ReadBytes(r, len.value);
    if b.Err? {
      return Err(Fatal(b.error));
    }
    res := Ok(Some(b.value));
  }

  // ---------------------------------------------------------------------
  // readSettings
  // ---------------------------------------------------------------------

  /** An entry of NetplayPlayers: the name (its UTF-8 bytes, which is what
      Go's len counts) and whether the slot is allocated. */
  datatype NetplayPlayer = NetplayPlayer(name: seq<byte>, isAllocated: bool)

  /** The fields of the dumper's ReplaySettings that it acts on. */
  datatype Settings = Settings(replayFormatVer: int, players: seq<NetplayPlayer>)

  /** readSettings: UBE32 length, that many bytes, the JSON document.  An
      exhausted ReadUBE32 panics; a failed ReadBytes or a JSON error is fatal;
      the format version is only logged. */
  function SettingsAt(s: seq<byte>, unmarshal: seq<byte> -> Option<Settings>): (r: Parsed<Settings>)
  {
    var sl :- Replay.Taking(UBE32At(s), s);
    var sb :- Noerr(Replay.Taking(BytesAt(sl.0, sl.1), sl.1));
    match unmarshal(sb.0)
    case None => Err(Fatal(JsonError))
    case Some(st) => Ok((st, sb.1))
  }

  /** The dumper takes every settings block the replay package takes, and
      also those whose format version is not 2. */
  lemma SettingsAsReplay<E>(s: seq<byte>, js: Replay.Json<Settings, E>)
    ensures Replay.SettingsAt(s, js).Ok? ==> SettingsAt(s, js.settings) == Replay.SettingsAt(s, js)
    ensures SettingsAt(s, js.settings).Ok? ==>
      (Replay.SettingsAt(s, js).Ok? <==> js.formatVer(SettingsAt(s, js.settings).value.0) == 2)
  {
  }

  /** namePadLength after the players loop of readSettings: raised to the
      name length of each allocated player, in slot order. */
  function PadAfter(pad: nat, players: seq<NetplayPlayer>): nat
  {
    if players == [] then pad
    else
      var before := PadAfter(pad, players[..|players| - 1]);
      var p := players[|players| - 1];
      if p.isAllocated && before < |p.name| then |p.name| else before
  }

  /** One more player of the loop. */
  lemma PadAfterSnoc(pad: nat, players: seq<NetplayPlayer>, i: nat)
    requires i < |players|
    ensures PadAfter(pad, players[..i + 1]) ==
      if players[i].isAllocated && PadAfter(pad, players[..i]) < |players[i].name| then |players[i].name|
      else PadAfter(pad, players[..i])
  {
    assert players[..i + 1][..i] == players[..i];
  }

  /** The loop computes a maximum: the result is at least the old value and
      every allocated player's name length, and it is one of them. */
  lemma {:induction false} PadIsMaximum(pad: nat, players: seq<NetplayPlayer>)
    ensures PadAfter(pad, players) >= pad
    ensures forall i | 0 <= i < |players| && players[i].isAllocated :: PadAfter(pad, players) >= |players[i].name|
    ensures PadAfter(pad, players) == pad ||
      exists i | 0 <= i < |players| :: players[i].isAllocated && PadAfter(pad, players) == |players[i].name|
    decreases |players|
  {
    if players != [] {
      var init := players[..|players| - 1];
      PadIsMaximum(pad, init);
      forall i | 0 <= i < |players| - 1
        ensures players[i] == init[i]
      {
      }
      var before := PadAfter(pad, init);
      if before != pad {
        var i :| 0 <= i < |init| && init[i].isAllocated && before == |init[i].name|;
        assert players[i] == init[i];
      }
    }
  }

  // ---------------------------------------------------------------------
  // readNetMessages
  // ---------------------------------------------------------------------

  /** The command-line flags that decide which payloads readNetMessages
      decodes and which messages it prints. */
  datatype Flags = Flags(short: bool, dOrder: bool, dResearch: bool, dStructinfo: bool,
    dumpUnits: bool, checkIllegals: bool, genHeatmap: bool)

  /** What the message loop reads besides the bytes: the flags and the
      players readSettings stored in netPlayPlayers. */
  datatype Ctx = Ctx(flags: Flags, players: seq<NetplayPlayer>)

  /** The variables of readNetMessages: the message count, the last game
      time, the byte and message counts per type name, and each player's
      first AutoRepair time. */
  datatype Tally = Tally(total: nat, gameTime: u32, netsizes: map<string, nat>,
    netcounts: map<string, nat>, autorepair: map<seq<byte>, u32>)

  const Start: Tally := Tally(0, 0, map[], map[], map[])

  /** A message as the loop frames it: sender, type, declared length and the
      payload copied out of the input. */
  datatype Frame = Frame(player: byte, t: byte, l: u32, payload: seq<byte>)

  /** A map entry, with Go's zero value for a missing key. */
  function Get<K>(m: map<K, nat>, k: K): nat
  {
    if k in m then m[k] else 0
  }

  /** `m[k] = m[k] + d` on a map of counters. */
  function Add(m: map<string, nat>, k: string, d: nat): (r: map<string, nat>)
    ensures r.Keys == m.Keys + {k}
    ensures Get(r, k) == Get(m, k) + d
    ensures forall j :: j != k ==> Get(r, j) == Get(m, j)
  {
    m[k := Get(m, k) + d]
  }

  /** `m2` keeps every entry of `m1` unchanged. */
  ghost predicate Extends(m1: map<seq<byte>, u32>, m2: map<seq<byte>, u32>)
  {
    forall k | k in m1 :: k in m2 && m2[k] == m1[k]
  }

  /** The header: two ReadByte calls, then ReadByte and Decode_uint32_t at
      positions 0, 1, ... until a byte is final.  Running out is fatal. */
  function HeaderAt(s: seq<byte>): (r: Parsed<(byte, byte, u32)>)
    ensures r.Ok? ==> |s| >= 3 && r.value.0.0 == s[0] && r.value.0.1 == s[1]
    ensures r.Ok? ==> VarintAt(s[2..]).Ok?
    ensures r.Ok? ==> r.value.0.2 == VarintAt(s[2..]).value.0 && r.value.1 == s[2 + VarintAt(s[2..]).value.1..]
    ensures r.Err? <==> |s| < 2 || VarintAt(s[2..]).Err?
    ensures r.Err? ==> r.error == Fatal(EOF)
  {
    if |s| < 2 then Err(Fatal(EOF))
    else
      var l :- Noerr(Replay.Taking(VarintAt(s[2..]), s[2..]));
      Ok(((s[0], s[1], l.0), l.1))
  }

  /** The next message, or None for REPLAY_ENDED, whose payload is not read.
      Any other message takes exactly its declared length of payload bytes,
      zero-padded where the input runs out. */
  function FrameAt(s: seq<byte>): (r: Parsed<Option<Frame>>)
    ensures r.Ok? ==> |r.value.1| < |s|
    ensures r.Ok? ==> HeaderAt(s).Ok? && (r.value.0.None? <==> HeaderAt(s).value.0.1 == REPLAY_ENDED)
    ensures r.Ok? && r.value.0.None? ==> r.value.1 == HeaderAt(s).value.1
    ensures r.Ok? && r.value.0.Some? ==> |r.value.0.value.payload| == r.value.0.value.l
  {
    var h :- HeaderAt(s);
    var (player, t, l) := h.0;
    if t == REPLAY_ENDED then Ok((None, h.1))
    else
      var d :- Noerr(Replay.Taking(BytesAt(l, h.1), h.1));
      Ok((Some(Frame(player, t, l, d.0)), d.1))
  }

  /** The messages up to the sentinel, as the bytes alone frame them. */
  function FramesFrom(s: seq<byte>): (r: Result<seq<Frame>>)
    decreases |s|
  {
    var f :- FrameAt(s);
    match f.0
    case None => Ok([])
    case Some(fr) =>
      var rest :- FramesFrom(f.1);
      Ok([fr] + rest)
  }

  /** rprint: the sender's name is looked up in netPlayPlayers, a runtime
      panic when the sender byte is past its end. */
  function Print(ctx: Ctx, player: byte, st: Tally): (r: Result<Tally>)
    ensures r.Ok? <==> player < |ctx.players|
    ensures r.Ok? ==> r.value == st
    ensures r.Err? ==> r.error == IndexOutOfRange
  {
    if player < |ctx.players| then Ok(st) else Err(IndexOutOfRange)
  }

  /** The debug codes the switch prints by name, through its fallthrough chain. */
  predicate DebugNotice(t: byte)
  {
    t == GAME_DEBUG_ADD_STRUCTURE || t == GAME_DEBUG_ADD_DROID || t == GAME_DEBUG_ADD_FEATURE ||
    t == GAME_DEBUG_REMOVE_DROID || t == GAME_DEBUG_REMOVE_FEATURE || t == GAME_DEBUG_REMOVE_STRUCTURE ||
    t == GAME_DEBUG_FINISH_RESEARCH
  }

  /** The dumper's DroidDef literal, filled from the decoded template. */
  function Template(d: Packet.DroidDef): DumperStat.DroidDef
  {
    DumperStat.DroidDef(d.name, d.id, d.droidType, d.body, d.brain, d.propulsion, d.repairunit,
      d.ecm, d.sensor, d.construct)
  }

  /** The droid a STRUCTUREINFO packet starts to build carries the AutoRepair unit. */
  predicate AutoRepair(tables: DumperStat.Tables, p: Packet.Packet)
    requires p.StructInfo?
  {
    p.structInfo == STRUCTUREINFO_MANUFACTURE && tables.TypifyDroid(Template(p.droid)).repairunit == "AutoRepair"
  }

  /** After a structure-info packet is decoded: the warnings and the listing
      print (and so look the sender up), and a droid with the AutoRepair unit
      records the current game time under the sender's name unless that
      name already has one. */
  function Built(ctx: Ctx, tables: DumperStat.Tables, player: byte, p: Packet.Packet, st: Tally)
    : (r: Result<Tally>)
    requires p.StructInfo?
    ensures r.Err? ==> r.error == IndexOutOfRange && player >= |ctx.players|
    ensures r.Ok? && !AutoRepair(tables, p) ==> r.value == st
    ensures r.Ok? && AutoRepair(tables, p) ==> player < |ctx.players|
    ensures r.Ok? && AutoRepair(tables, p) ==>
      var name := ctx.players[player].name;
      r.value == st.(autorepair := r.value.autorepair) && r.value.autorepair.Keys == st.autorepair.Keys + {name} &&
      r.value.autorepair[name] == (if name in st.autorepair then st.autorepair[name] else st.gameTime)
    ensures r.Ok? ==> Extends(st.autorepair, r.value.autorepair)
  {
    var manufacture := p.structInfo == STRUCTUREINFO_MANUFACTURE;
    var typed := tables.TypifyDroid(Template(p.droid));
    var warned := manufacture &&
      (|p.droidWeapons| > 2 || (ctx.flags.checkIllegals && DumperStat.CheckDroidIllegal(typed) != ""));
    var listed := ctx.flags.dStructinfo || (manufacture && ctx.flags.dumpUnits);
    if (warned || listed || AutoRepair(tables, p)) && player >= |ctx.players| then Err(IndexOutOfRange)
    else if AutoRepair(tables, p) then
      var name := ctx.players[player].name;
      if name in st.autorepair then Ok(st) else Ok(st.(autorepair := st.autorepair[name := st.gameTime]))
    else Ok(st)
  }

  /** The game time a GAME_GAME_TIME payload carries, if it decodes. */
  function TimeIn(fr: Frame): Option<u32>
  {
    match Packet.GameTimeAt(Packet.Header(fr.t, fr.l), fr.payload)
    case Ok(p) => Some(p.0.gameTime)
    case Err(_) => None
  }

  /** What the loop relies on from its switch: an unregistered code is left
      alone, the counters are not touched, no AutoRepair time is overwritten,
      and only GAME_GAME_TIME sets the game time, to the one its payload
      carries. */
  ghost predicate HandlerContract(fr: Frame, st: Tally, r: Result<Tally>)
  {
    (!InRegistry(fr.t) ==> r == Ok(st)) &&
    (r.Ok? ==> r.value.total == st.total && r.value.netsizes == st.netsizes &&
               r.value.netcounts == st.netcounts && Extends(st.autorepair, r.value.autorepair)) &&
    (r.Ok? && fr.t != GAME_GAME_TIME ==> r.value.gameTime == st.gameTime) &&
    (r.Ok? && fr.t == GAME_GAME_TIME ==> TimeIn(fr) == Some(r.value.gameTime))
  }

  ghost predicate KeepsContract(handle: (Frame, Tally) -> Result<Tally>)
  {
    forall fr, st :: HandlerContract(fr, st, handle(fr, st))
  }

  /** A switch that only keeps the game time: it shows the contract can be met. */
  function TimeOnly(fr: Frame, st: Tally): Result<Tally>
  {
    if fr.t != GAME_GAME_TIME || !InRegistry(fr.t) then Ok(st)
    else
      match TimeIn(fr)
      case Some(g) => Ok(st.(gameTime := g))
      case None => Err(Fatal(EOF))
  }

  /** The switch of the loop as the framing sees it.  The properties of the
      loop below hold for every switch that keeps the contract, which
      `Handle` does whatever the flags, the players and the tables. */
  type Handler = handle: (Frame, Tally) -> Result<Tally> | KeepsContract(handle) witness TimeOnly

  /** `handle` is the switch of readNetMessages under `ctx` and `tables`. */
  ghost predicate IsHandle(handle: Handler, ctx: Ctx, tables: DumperStat.Tables)
  {
    forall fr, st {:trigger Handle(ctx, tables, fr, st)} :: handle(fr, st) == Handle(ctx, tables, fr, st)
  }

  /** The switch of readNetMessages under `ctx` and `tables`, as a handler. */
  ghost function HandlerOf(ctx: Ctx, tables: DumperStat.Tables): (handle: Handler)
    ensures IsHandle(handle, ctx, tables)
  {
    (fr, st) => Handle(ctx, tables, fr, st)
  }

  /** The switch of readNetMessages on one message, after the counters: what
      it decodes from the payload copy, when it prints, and what it changes.
      Unregistered codes are only logged; a bad GAME_GAME_TIME payload is fatal. */
  function Handle(ctx: Ctx, tables: DumperStat.Tables, fr: Frame, st: Tally): (r: Result<Tally>)
    ensures HandlerContract(fr, st, r)
    ensures fr.t == GAME_GAME_TIME && TimeIn(fr).None? ==> r.Err? && r.error.Fatal?
    ensures r.Ok? && fr.t != GAME_STRUCTUREINFO ==> r.value.autorepair == st.autorepair
    ensures fr.t == GAME_STRUCTUREINFO ==>
      var p := Packet.StructInfoAt(Packet.Header(fr.t, fr.l), fr.payload);
      (p.Err? ==> r == Err(Fatal(p.error))) &&
      (p.Ok? ==> r == Built(ctx, tables, fr.player, p.value.0, st))
  {
    var h := Packet.Header(fr.t, fr.l);
    if !InRegistry(fr.t) then Ok(st)
    else if fr.t == GAME_GAME_TIME then
      var p :- Noerr(Packet.GameTimeAt(h, fr.payload));
      Ok(st.(gameTime := p.0.gameTime))
    else if fr.t == GAME_DEBUG_MODE then
      var enable :- Noerr(Replay.Taking(U8At(fr.payload), fr.payload));
      Print(ctx, fr.player, st)
    else if DebugNotice(fr.t) then
      Print(ctx, fr.player, st)
    else if fr.t == GAME_STRUCTUREINFO then
      var p :- Noerr(Packet.StructInfoAt(h, fr.payload));
      Built(ctx, tables, fr.player, p.0, st)
    else if fr.t == GAME_DROIDINFO then
      if !(ctx.flags.dOrder || ctx.flags.genHeatmap) then Ok(st)
      else
        var p :- Noerr(Packet.DroidInfoAt(h, fr.payload));
        if ctx.flags.dOrder then Print(ctx, fr.player, st) else Ok(st)
    else if fr.t == GAME_RESEARCHSTATUS then
      if !ctx.flags.dResearch then Ok(st)
      else
        var p :- Noerr(Packet.ResearchStatusAt(h, fr.payload));
        if !ctx.flags.short then Print(ctx, fr.player, st) else Ok(st)
    else if fr.t == GAME_GIFT then Ok(st)
    else Print(ctx, fr.player, st)
  }

  /** One turn of the loop for a message other than the sentinel: the
      counters under its type name ("" for an unregistered code), the switch,
      then total++. */
  function Step(handle: Handler, fr: Frame, st: Tally): (r: Result<Tally>)
    ensures r.Ok? ==> r.value.total == st.total + 1
    ensures r.Ok? ==> r.value.netsizes == Add(st.netsizes, MessageName(fr.t), fr.l)
    ensures r.Ok? ==> r.value.netcounts == Add(st.netcounts, MessageName(fr.t), 1)
    ensures r.Ok? ==> Extends(st.autorepair, r.value.autorepair)
    ensures r.Ok? && fr.t == GAME_GAME_TIME ==> TimeIn(fr) == Some(r.value.gameTime)
    ensures r.Ok? && fr.t != GAME_GAME_TIME ==> r.value.gameTime == st.gameTime
  {
    var name := MessageName(fr.t);
    var counted := st.(netsizes := Add(st.netsizes, name, fr.l), netcounts := Add(st.netcounts, name, 1));
    var st' :- handle(fr, counted);
    Ok(st'.(total := st'.total + 1))
  }

  /** readNetMessages from the bytes `s` on, with the variables at `st`:
      the final variables once REPLAY_ENDED is met, or the exit. */
  function MessagesFrom(handle: Handler, s: seq<byte>, st: Tally): (r: Result<Tally>)
    decreases |s|
  {
    var f :- FrameAt(s);
    match f.0
    case None => Ok(st)
    case Some(fr) =>
      var st' :- Step(handle, fr, st);
      MessagesFrom(handle, f.1, st')
  }

  // ---------------------------------------------------------------------
  // What the loop's variables end up holding
  // ---------------------------------------------------------------------

  /** The number of frames whose type name is `k`. */
  function CountOf(fs: seq<Frame>, k: string): nat
  {
    if fs == [] then 0 else (if MessageName(fs[0].t) == k then 1 else 0) + CountOf(fs[1..], k)
  }

  /** The declared lengths of the frames whose type name is `k`, summed. */
  function SizeOf(fs: seq<Frame>, k: string): nat
  {
    if fs == [] then 0 else (if MessageName(fs[0].t) == k then fs[0].l else 0) + SizeOf(fs[1..], k)
  }

  /** The game time after the frames: that of the last GAME_GAME_TIME frame, or `g`. */
  function LastTime(fs: seq<Frame>, g: u32): u32
  {
    if fs == [] then g
    else LastTime(fs[1..], if fs[0].t == GAME_GAME_TIME && TimeIn(fs[0]).Some? then TimeIn(fs[0]).value else g)
  }

  /** One turn of the loop on a framed message: the turn's outcome decides
      whether the loop goes on from the bytes after it. */
  lemma MessagesTurn(handle: Handler, s: seq<byte>, fr: Frame, rest: seq<byte>, st: Tally, step: Result<Tally>)
    requires FrameAt(s) == Ok((Some(fr), rest)) && step == Step(handle, fr, st)
    ensures step.Err? ==> MessagesFrom(handle, s, st) == Err(step.error)
    ensures step.Ok? ==> MessagesFrom(handle, s, st) == MessagesFrom(handle, rest, step.value)
  {
  }

  /** A turn is the counters, then the switch, then total++. */
  lemma StepIs(handle: Handler, fr: Frame, st: Tally, counted: Tally)
    requires counted == st.(netsizes := Add(st.netsizes, MessageName(fr.t), fr.l),
                            netcounts := Add(st.netcounts, MessageName(fr.t), 1))
    ensures handle(fr, counted).Err? ==> Step(handle, fr, st) == Err(handle(fr, counted).error)
    ensures handle(fr, counted).Ok? ==>
      Step(handle, fr, st) == Ok(handle(fr, counted).value.(total := handle(fr, counted).value.total + 1))
  {
  }

  /** The loop stops where the framing fails or meets REPLAY_ENDED. */
  lemma LoopStops(handle: Handler, s: seq<byte>, st: Tally)
    ensures FrameAt(s).Err? ==> MessagesFrom(handle, s, st) == Err(FrameAt(s).error)
    ensures FrameAt(s).Ok? && FrameAt(s).value.0.None? ==> MessagesFrom(handle, s, st) == Ok(st)
  {
  }

  /** One turn of the loop on a framed message: the counters, the switch's
      outcome `res` on them, and total++ decide whether and how the loop goes
      on from the bytes after the message. */
  lemma LoopTurns(handle: Handler, s: seq<byte>, fr: Frame, rest: seq<byte>, before: Tally, counted: Tally,
    res: Result<Tally>)
    requires FrameAt(s) == Ok((Some(fr), rest))
    requires counted == before.(netsizes := Add(before.netsizes, MessageName(fr.t), fr.l),
                                netcounts := Add(before.netcounts, MessageName(fr.t), 1))
    requires res == handle(fr, counted)
    ensures res.Err? ==> MessagesFrom(handle, s, before) == Err(res.error)
    ensures res.Ok? ==> MessagesFrom(handle, s, before) == MessagesFrom(handle, rest, res.value.(total := before.total + 1))
  {
    StepIs(handle, fr, before, counted);
    if res.Ok? {
      var next := res.value.(total := before.total + 1);
      assert HandlerContract(fr, counted, res);
      assert Step(handle, fr, before) == Ok(next);
      MessagesTurn(handle, s, fr, rest, before, Ok(next));
    } else {
      MessagesTurn(handle, s, fr, rest, before, Err(res.error));
    }
  }

  /** A run that ends normally went through exactly the frames the bytes
      alone decide, and took one turn per frame. */
  lemma {:induction false} Framed(handle: Handler, s: seq<byte>, st: Tally)
    requires MessagesFrom(handle, s, st).Ok?
    ensures FramesFrom(s).Ok?
    ensures MessagesFrom(handle, s, st) == Turns(handle, FramesFrom(s).value, st)
    decreases |s|
  {
    var f := FrameAt(s).value;
    if f.0.Some? {
      var fr := f.0.value;
      var st' := Step(handle, fr, st).value;
      Framed(handle, f.1, st');
      var fs := FramesFrom(f.1).value;
      assert FramesFrom(s) == Ok([fr] + fs);
      assert ([fr] + fs)[1..] == fs;
    } else {
      assert FramesFrom(s) == Ok([]);
    }
  }

  /** The turns of the loop over given frames. */
  function Turns(handle: Handler, fs: seq<Frame>, st: Tally): Result<Tally>
  {
    if fs == [] then Ok(st)
    else
      var st' :- Step(handle, fs[0], st);
      Turns(handle, fs[1..], st')
  }

  /** Over any frames, the turns count each frame in `total`, and count it
      under its type name; a name is a key of `netcounts` once a frame
      carries it. */
  lemma {:induction false} TurnsCount(handle: Handler, fs: seq<Frame>, st: Tally)
    requires Turns(handle, fs, st).Ok?
    ensures Turns(handle, fs, st).value.total == st.total + |fs|
    ensures forall k :: Get(Turns(handle, fs, st).value.netcounts, k) == Get(st.netcounts, k) + CountOf(fs, k)
    ensures forall k :: k in Turns(handle, fs, st).value.netcounts <==> k in st.netcounts || CountOf(fs, k) > 0
    decreases |fs|
  {
    if fs != [] {
      var st' := Step(handle, fs[0], st).value;
      TurnsCount(handle, fs[1..], st');
    }
  }

  /** Over any frames, the turns add each frame's declared length under its
      type name; a name is a key of `netsizes` once a frame carries it. */
  lemma {:induction false} TurnsSize(handle: Handler, fs: seq<Frame>, st: Tally)
    requires Turns(handle, fs, st).Ok?
    ensures forall k :: Get(Turns(handle, fs, st).value.netsizes, k) == Get(st.netsizes, k) + SizeOf(fs, k)
    ensures forall k :: k in Turns(handle, fs, st).value.netsizes <==> k in st.netsizes || CountOf(fs, k) > 0
    decreases |fs|
  {
    if fs != [] {
      var st' := Step(handle, fs[0], st).value;
      TurnsSize(handle, fs[1..], st');
    }
  }

  /** Over any frames, the turns end with the last game time carried and
      never overwrite an AutoRepair time. */
  lemma {:induction false} TurnsTime(handle: Handler, fs: seq<Frame>, st: Tally)
    requires Turns(handle, fs, st).Ok?
    ensures Turns(handle, fs, st).value.gameTime == LastTime(fs, st.gameTime)
    ensures Extends(st.autorepair, Turns(handle, fs, st).value.autorepair)
    decreases |fs|
  {
    if fs != [] {
      var st' := Step(handle, fs[0], st).value;
      TurnsTime(handle, fs[1..], st');
    }
  }

  /** What a run that ends normally reports: `total` is the number of frames,
      `netcounts` and `netsizes` count them and sum their declared lengths
      per type name and hold a key exactly for the names that occur, and
      `gameTime` is the last game time carried. */
  lemma Tallied(handle: Handler, s: seq<byte>)
    requires MessagesFrom(handle, s, Start).Ok?
    ensures FramesFrom(s).Ok?
    ensures var t := MessagesFrom(handle, s, Start).value; var fs := FramesFrom(s).value;
      t.total == |fs| && t.gameTime == LastTime(fs, 0) &&
      (forall k :: Get(t.netcounts, k) == CountOf(fs, k) && Get(t.netsizes, k) == SizeOf(fs, k)) &&
      (forall k :: (k in t.netcounts <==> CountOf(fs, k) > 0) && (k in t.netsizes <==> CountOf(fs, k) > 0))
  {
    Framed(handle, s, Start);
    TurnsCount(handle, FramesFrom(s).value, Start);
    TurnsSize(handle, FramesFrom(s).value, Start);
    TurnsTime(handle, FramesFrom(s).value, Start);
  }

  /** The counters depend on the bytes alone: two runs that end normally,
      under any flags, players and tables, report the same counts. */
  lemma CountersIgnoreDecoding(h1: Handler, h2: Handler, s: seq<byte>)
    requires MessagesFrom(h1, s, Start).Ok? && MessagesFrom(h2, s, Start).Ok?
    ensures var a := MessagesFrom(h1, s, Start).value; var b := MessagesFrom(h2, s, Start).value;
      a.total == b.total && a.netcounts == b.netcounts && a.netsizes == b.netsizes && a.gameTime == b.gameTime
  {
    Tallied(h1, s);
    Tallied(h2, s);
  }

  /** The frame is a STRUCTUREINFO message that decodes and starts a droid
      with the AutoRepair unit. */
  predicate AutoRepairFrame(tables: DumperStat.Tables, fr: Frame)
  {
    fr.t == GAME_STRUCTUREINFO &&
    var p := Packet.StructInfoAt(Packet.Header(fr.t, fr.l), fr.payload);
    p.Ok? && AutoRepair(tables, p.value.0)
  }

  /** The player named `name` sent the frame, and it starts an AutoRepair droid. */
  predicate RepairedBy(ctx: Ctx, tables: DumperStat.Tables, fr: Frame, name: seq<byte>)
  {
    AutoRepairFrame(tables, fr) && fr.player < |ctx.players| && ctx.players[fr.player].name == name
  }

  /** One turn of the loop records an AutoRepair time only on an AutoRepair
      frame, under its sender's name, at the current game time, and only if
      that name has none yet. */
  lemma StepAutoRepair(handle: Handler, ctx: Ctx, tables: DumperStat.Tables, fr: Frame, st: Tally)
    requires IsHandle(handle, ctx, tables) && Step(handle, fr, st).Ok?
    ensures !AutoRepairFrame(tables, fr) ==> Step(handle, fr, st).value.autorepair == st.autorepair
    ensures AutoRepairFrame(tables, fr) ==> fr.player < |ctx.players|
    ensures AutoRepairFrame(tables, fr) && fr.player < |ctx.players| ==>
      (var name := ctx.players[fr.player].name;
       Step(handle, fr, st).value.autorepair ==
         if name in st.autorepair then st.autorepair else st.autorepair[name := st.gameTime])
  {
    var counted := st.(netsizes := Add(st.netsizes, MessageName(fr.t), fr.l),
                       netcounts := Add(st.netcounts, MessageName(fr.t), 1));
    StepIs(handle, fr, st, counted);
    var r := Handle(ctx, tables, fr, counted);
    assert handle(fr, counted) == r;
    assert Step(handle, fr, st).value.autorepair == r.value.autorepair;
    if fr.t == GAME_STRUCTUREINFO {
      var p := Packet.StructInfoAt(Packet.Header(fr.t, fr.l), fr.payload);
      assert r == Built(ctx, tables, fr.player, p.value.0, counted);
      if AutoRepair(tables, p.value.0) {
        var name := ctx.players[fr.player].name;
        var ar := r.value.autorepair;
        var want := if name in st.autorepair then st.autorepair else st.autorepair[name := st.gameTime];
        assert ar.Keys == want.Keys;
        assert forall k | k in ar :: ar[k] == want[k];
      }
    }
  }

  /** Over any frames, every AutoRepair frame has a known sender: printing
      for an unknown one is an index panic. */
  lemma {:induction false} TurnsSenders(handle: Handler, ctx: Ctx, tables: DumperStat.Tables, fs: seq<Frame>,
    st: Tally)
    requires IsHandle(handle, ctx, tables) && Turns(handle, fs, st).Ok?
    ensures forall i | 0 <= i < |fs| && AutoRepairFrame(tables, fs[i]) :: fs[i].player < |ctx.players|
    decreases |fs|
  {
    if fs != [] {
      var st' := Step(handle, fs[0], st).value;
      StepAutoRepair(handle, ctx, tables, fs[0], st);
      TurnsSenders(handle, ctx, tables, fs[1..], st');
      forall i | 0 < i < |fs| ensures fs[i] == fs[1..][i - 1] { }
    }
  }

  /** Over any frames, a name gains an AutoRepair time exactly when one of
      its frames starts an AutoRepair droid. */
  lemma {:induction false} TurnsRepairKeys(handle: Handler, ctx: Ctx, tables: DumperStat.Tables, fs: seq<Frame>,
    st: Tally)
    requires IsHandle(handle, ctx, tables) && Turns(handle, fs, st).Ok?
    ensures forall name :: name in Turns(handle, fs, st).value.autorepair <==>
      name in st.autorepair || exists i :: 0 <= i < |fs| && RepairedBy(ctx, tables, fs[i], name)
    decreases |fs|
  {
    if fs != [] {
      var rest := fs[1..];
      var st' := Step(handle, fs[0], st).value;
      assert Turns(handle, fs, st) == Turns(handle, rest, st');
      StepAutoRepair(handle, ctx, tables, fs[0], st);
      TurnsRepairKeys(handle, ctx, tables, rest, st');
      var ar := Turns(handle, fs, st).value.autorepair;
      forall name
        ensures name in ar <==> name in st.autorepair || exists i :: 0 <= i < |fs| && RepairedBy(ctx, tables, fs[i], name)
      {
        KeysAfterTurn(ctx, tables, fs, st.autorepair, st'.autorepair, st.gameTime, name);
        if name in ar && name !in st'.autorepair {
          var i :| 0 <= i < |rest| && RepairedBy(ctx, tables, rest[i], name);
          assert fs[i + 1] == rest[i];
        }
        if name !in st.autorepair && !RepairedBy(ctx, tables, fs[0], name) &&
          exists i :: 0 <= i < |fs| && RepairedBy(ctx, tables, fs[i], name) {
          var i :| 0 <= i < |fs| && RepairedBy(ctx, tables, fs[i], name);
          assert i > 0 && rest[i - 1] == fs[i];
        }
      }
    }
  }

  /** Over any frames, a name without an AutoRepair time gets the game time
      in force at the first frame where it starts an AutoRepair droid. */
  lemma {:induction false} TurnsRepairTime(handle: Handler, ctx: Ctx, tables: DumperStat.Tables, fs: seq<Frame>,
    st: Tally, name: seq<byte>, i: nat)
    requires IsHandle(handle, ctx, tables) && Turns(handle, fs, st).Ok?
    requires i < |fs| && RepairedBy(ctx, tables, fs[i], name) && name !in st.autorepair
    requires forall j | 0 <= j < i :: !RepairedBy(ctx, tables, fs[j], name)
    ensures name in Turns(handle, fs, st).value.autorepair
    ensures Turns(handle, fs, st).value.autorepair[name] == LastTime(fs[..i], st.gameTime)
    decreases i
  {
    var rest := fs[1..];
    var st' := Step(handle, fs[0], st).value;
    assert Turns(handle, fs, st) == Turns(handle, rest, st');
    if i == 0 {
      RepairHere(handle, ctx, tables, fs[0], rest, st, st', name);
      assert fs[..0] == [];
    } else {
      StepAutoRepair(handle, ctx, tables, fs[0], st);
      RepairLater(ctx, tables, fs, st.autorepair, st'.autorepair, st.gameTime, name, i);
      TurnsRepairTime(handle, ctx, tables, rest, st', name, i - 1);
      TimeAfterTurn(handle, fs, i, st, st');
    }
  }

  /** A name without a time that starts an AutoRepair droid in the first turn
      keeps the game time of that turn to the end. */
  lemma RepairHere(handle: Handler, ctx: Ctx, tables: DumperStat.Tables, fr: Frame, rest: seq<Frame>,
    st: Tally, st': Tally, name: seq<byte>)
    requires IsHandle(handle, ctx, tables) && Step(handle, fr, st) == Ok(st') && Turns(handle, rest, st').Ok?
    requires RepairedBy(ctx, tables, fr, name) && name !in st.autorepair
    ensures name in Turns(handle, rest, st').value.autorepair
    ensures Turns(handle, rest, st').value.autorepair[name] == st.gameTime
  {
    StepAutoRepair(handle, ctx, tables, fr, st);
    assert name in st'.autorepair && st'.autorepair[name] == st.gameTime;
    TurnsTime(handle, rest, st');
  }

  /** When the first frame is not the name's first AutoRepair frame, the name
      still has no time after it, and the later frames before its first one
      are not AutoRepair frames of that name either. */
  lemma RepairLater(ctx: Ctx, tables: DumperStat.Tables, fs: seq<Frame>, ar: map<seq<byte>, u32>,
    ar': map<seq<byte>, u32>, g: u32, name: seq<byte>, i: nat)
    requires 0 < i < |fs| && RepairedBy(ctx, tables, fs[i], name) && name !in ar
    requires forall j | 0 <= j < i :: !RepairedBy(ctx, tables, fs[j], name)
    requires !AutoRepairFrame(tables, fs[0]) ==> ar' == ar
    requires AutoRepairFrame(tables, fs[0]) ==> fs[0].player < |ctx.players|
    requires AutoRepairFrame(tables, fs[0]) && fs[0].player < |ctx.players| ==>
      (var n := ctx.players[fs[0].player].name; ar' == if n in ar then ar else ar[n := g])
    ensures name !in ar' && RepairedBy(ctx, tables, fs[1..][i - 1], name)
    ensures forall j | 0 <= j < i - 1 :: !RepairedBy(ctx, tables, fs[1..][j], name)
  {
    assert !RepairedBy(ctx, tables, fs[0], name);
    KeysAfterTurn(ctx, tables, fs, ar, ar', g, name);
    assert fs[1..][i - 1] == fs[i];
    forall j | 0 <= j < i - 1 ensures !RepairedBy(ctx, tables, fs[1..][j], name) {
      assert fs[1..][j] == fs[j + 1];
    }
  }

  /** After the first turn, a name has an AutoRepair time exactly when it had
      one before or the first frame gave it one. */
  lemma KeysAfterTurn(ctx: Ctx, tables: DumperStat.Tables, fs: seq<Frame>, ar: map<seq<byte>, u32>,
    ar': map<seq<byte>, u32>, g: u32, name: seq<byte>)
    requires fs != []
    requires !AutoRepairFrame(tables, fs[0]) ==> ar' == ar
    requires AutoRepairFrame(tables, fs[0]) ==> fs[0].player < |ctx.players|
    requires AutoRepairFrame(tables, fs[0]) && fs[0].player < |ctx.players| ==>
      (var n := ctx.players[fs[0].player].name; ar' == if n in ar then ar else ar[n := g])
    ensures name in ar' <==> name in ar || RepairedBy(ctx, tables, fs[0], name)
  {
  }

  /** The game time in force before frame i is the one after the first turn,
      carried over the frames between. */
  lemma TimeAfterTurn(handle: Handler, fs: seq<Frame>, i: nat, st: Tally, st': Tally)
    requires 0 < i < |fs| && Step(handle, fs[0], st) == Ok(st')
    ensures LastTime(fs[..i], st.gameTime) == LastTime(fs[1..][..i - 1], st'.gameTime)
  {
    assert fs[..i][0] == fs[0] && fs[..i][1..] == fs[1..][..i - 1];
  }

  /** What a run that ends normally leaves in `playersautorepair`: a key
      exactly for each player name that started an AutoRepair droid, holding
      the game time in force at the first such frame. */
  lemma AutoRepairTallied(handle: Handler, ctx: Ctx, tables: DumperStat.Tables, s: seq<byte>)
    requires IsHandle(handle, ctx, tables) && MessagesFrom(handle, s, Start).Ok?
    ensures FramesFrom(s).Ok?
    ensures var ar := MessagesFrom(handle, s, Start).value.autorepair; var fs := FramesFrom(s).value;
      forall name :: name in ar <==> exists i :: 0 <= i < |fs| && RepairedBy(ctx, tables, fs[i], name)
    ensures var ar := MessagesFrom(handle, s, Start).value.autorepair; var fs := FramesFrom(s).value;
      forall name, i | 0 <= i < |fs| && RepairedBy(ctx, tables, fs[i], name) &&
          (forall j | 0 <= j < i :: !RepairedBy(ctx, tables, fs[j], name)) ::
        name in ar && ar[name] == LastTime(fs[..i], 0)
  {
    Framed(handle, s, Start);
    TurnsRepairKeys(handle, ctx, tables, FramesFrom(s).value, Start);
    var fs := FramesFrom(s).value;
    forall name, i | 0 <= i < |fs| && RepairedBy(ctx, tables, fs[i], name) &&
        (forall j | 0 <= j < i :: !RepairedBy(ctx, tables, fs[j], name))
      ensures name in Turns(handle, fs, Start).value.autorepair
      ensures Turns(handle, fs, Start).value.autorepair[name] == LastTime(fs[..i], 0)
    {
      TurnsRepairTime(handle, ctx, tables, fs, Start, name, i);
    }
  }

  /** A type code without a NetMessageType entry is counted under "" and
      changes nothing else. */
  lemma UnknownCounted(handle: Handler, fr: Frame, st: Tally)
    requires !InRegistry(fr.t)
    ensures Step(handle, fr, st) ==
      Ok(st.(total := st.total + 1, netsizes := Add(st.netsizes, "", fr.l), netcounts := Add(st.netcounts, "", 1)))
  {
    RegistryDomain(fr.t);
  }

  /** REPLAY_ENDED ends the loop right after its length: nothing after it is
      read or counted, whatever it is. */
  lemma SentinelStops(handle: Handler, player: byte, len: seq<byte>, rest: seq<byte>, st: Tally)
    requires VarintAt(len).Ok? && VarintAt(len).value.1 == |len|
    ensures MessagesFrom(handle, [player, REPLAY_ENDED] + len + rest, st) == Ok(st)
  {
    var s := [player, REPLAY_ENDED] + len + rest;
    assert s[2..] == len[..VarintAt(len).value.1] + rest;
    VarintPrefix(len, rest, 0);
  }

  /** main after loading the tables: readMagic, readSettings,
      readEmbeddedMap and readNetMessages in that order, the messages handled
      with the players the settings list; the settings and the loop's
      variables, or the exit. */
  ghost function DumpAt(s: seq<byte>, unmarshal: seq<byte> -> Option<Settings>, flags: Flags,
    tables: DumperStat.Tables): (r: Result<(Settings, Tally)>)
    ensures r.Ok? ==> MagicAt(s).Ok? && |s| >= 4 && s[..4] == Replay.Magic
  {
    MagicAccepts(s);
    var m :- MagicAt(s);
    var st :- SettingsAt(m.1, unmarshal);
    var em :- EmbeddedMapAt(st.1);
    var t :- MessagesFrom(HandlerOf(Ctx(flags, st.0.players), tables), em.1, Start);
    Ok((st.0, t))
  }

  // ---------------------------------------------------------------------
  // The program's globals and the loop itself
  // ---------------------------------------------------------------------

  /** The package variables readSettings sets and readNetMessages reads. */
  class Dumper {
    var namePadLength: nat
    var netPlayPlayers: seq<NetplayPlayer>

    constructor ()
      ensures namePadLength == 2 && netPlayPlayers == []
    {
      namePadLength := 2;
      netPlayPlayers := [];
    }

    /** readSettings: on success namePadLength has grown to fit every
        allocated player's name and netPlayPlayers holds the players. */
    method ReadSettings(r: Reader, unmarshal: seq<byte> -> Option<Settings>) returns (res: Result<Settings>)
      requires r.Valid()
      modifies this, r
      ensures Replay.Stepped(r, SettingsAt(old(r.Rest()), unmarshal), res)
      ensures res.Ok? ==> namePadLength == PadAfter(old(namePadLength), res.value.players)
      ensures res.Ok? ==> netPlayPlayers == res.value.players
      ensures res.Err? ==> namePadLength == old(namePadLength) && netPlayPlayers == old(netPlayPlayers)
    {
      var sl := Replay.ReadUBE32(r);
      if sl.Err? {
        return Err(sl.error);
      }
      var sb := Replay.ReadBytes(r, sl.value);
      if sb.Err? {
        return Err(Fatal(sb.error));
      }
      var s := unmarshal(sb.value);
      if s.None? {
        return Err(Fatal(JsonError));
      }
      var players := s.value.players;
      ghost var p0 := r.pos;
      var i := 0;
      while i < |players|
        invariant i <= |players| && r.pos == p0
        invariant namePadLength == PadAfter(old(namePadLength), players[..i])
      {
        PadAfterSnoc(old(namePadLength), players, i);
        var p := players[i];
        if p.isAllocated && namePadLength < |p.name| {
          namePadLength := |p.name|;
        }
        i := i + 1;
      }
      assert players[..i] == players;
      netPlayPlayers := players;
      res := Ok(s.value);
    }

    /** The switch of readNetMessages on one message's payload copy. */
    method HandleMessage(fr: Frame, flags: Flags, tables: DumperStat.Tables, st: Tally)
      returns (res: Result<Tally>)
      ensures res == Handle(Ctx(flags, netPlayPlayers), tables, fr, st)
    {
      if !InRegistry(fr.t) {
        return Ok(st);
      }
      var h := Packet.Header(fr.t, fr.l);
      var r := new Reader(fr.payload);
      var known := fr.player < |netPlayPlayers|;
      if fr.t == GAME_GAME_TIME {
        var p := Packet.ParseGameGameTime(h, r);
        if p.Err? {
          return Err(Fatal(p.error));
        }
        res := Ok(st.(gameTime := p.value.gameTime));
      } else if fr.t == GAME_DEBUG_MODE {
        var enable := r.NETreadU8();
        if enable.Err? {
          return Err(Fatal(enable.error));
        }
        res := if known then Ok(st) else Err(IndexOutOfRange);
      } else if DebugNotice(fr.t) {
        res := if known then Ok(st) else Err(IndexOutOfRange);
      } else if fr.t == GAME_STRUCTUREINFO {
        var p := Packet.ParseGameStructInfo(h, r);
        if p.Err? {
          return Err(Fatal(p.error));
        }
        res := BuiltMessage(fr.player, p.value, flags, tables, st);
      } else if fr.t == GAME_DROIDINFO {
        if !(flags.dOrder || flags.genHeatmap) {
          return Ok(st);
        }
        var p := Packet.ParseGameDroidInfo(h, r);
        if p.Err? {
          return Err(Fatal(p.error));
        }
        res := if flags.dOrder && !known then Err(IndexOutOfRange) else Ok(st);
      } else if fr.t == GAME_RESEARCHSTATUS {
        if !flags.dResearch {
          return Ok(st);
        }
        var p := Packet.ParseGameResearchStatus(h, r);
        if p.Err? {
          return Err(Fatal(p.error));
        }
        res := if !flags.short && !known then Err(IndexOutOfRange) else Ok(st);
      } else if fr.t == GAME_GIFT {
        res := Ok(st);
      } else {
        res := if known then Ok(st) else Err(IndexOutOfRange);
      }
    }

    /** The STRUCTUREINFO case after decoding, in the program's order. */
    method BuiltMessage(player: byte, p: Packet.Packet, flags: Flags, tables: DumperStat.Tables, st: Tally)
      returns (res: Result<Tally>)
      requires p.StructInfo?
      ensures res == Built(Ctx(flags, netPlayPlayers), tables, player, p, st)
    {
      var known := player < |netPlayPlayers|;
      var listed := flags.dStructinfo;
      res := Ok(st);
      if p.structInfo == STRUCTUREINFO_MANUFACTURE {
        if |p.droidWeapons| > 2 && !known {
          return Err(IndexOutOfRange);
        }
        var typed := tables.TypifyDroid(Template(p.droid));
        listed := listed || flags.dumpUnits;
        if flags.checkIllegals && DumperStat.CheckDroidIllegal(typed) != "" && !known {
          return Err(IndexOutOfRange);
        }
        if typed.repairunit == "AutoRepair" {
          if !known {
            return Err(IndexOutOfRange);
          }
          var name := netPlayPlayers[player].name;
          if name !in st.autorepair {
            res := Ok(st.(autorepair := st.autorepair[name := st.gameTime]));
          }
        }
      }
      if listed && !known {
        return Err(IndexOutOfRange);
      }
    }

    /** The header of one message. */
    static method ReadHeader(r: Reader) returns (res: Result<(byte, byte, u32)>)
      requires r.Valid()
      modifies r
      ensures Replay.Stepped(r, HeaderAt(old(r.Rest())), res)
    {
      ghost var s := r.Rest();
      var pPlayer, _, e1 := r.ReadByte();
      if e1.Some? {
        return Err(Fatal(e1.value));
      }
      var pType, _, e2 := r.ReadByte();
      if e2.Some? {
        return Err(Fatal(e2.value));
      }
      ghost var s0 := r.Rest();
      assert s0 == s[2..];
      ghost var p0 := r.pos;
      var l: u32 := 0;
      var n: nat := 0;
      var last := false;
      while !last
        invariant r.Valid() && r.pos == p0 + n && n <= 5
        invariant !last ==> n < |TableA| && VarintAt(s0) == Shift(VarintFrom(r.data[r.pos..], n, l), n)
        invariant last ==> VarintAt(s0) == Ok((l, n))
        decreases 5 - n
      {
        ghost var rest := r.data[r.pos..];
        var b, _, e := r.ReadByte();
        if e.Some? {
          return Err(Fatal(e.value));
        }
        ghost var rest' := r.data[r.pos..];
        assert rest' == rest[1..];
        var step := DecodeStep(b, l, n);
        VarintFromStep(rest, rest', n, n + 1, l, step.1, step.0, n, n + 1);
        last, l := step.0, step.1;
        n := n + 1;
      }
      assert r.Rest() == s0[n..];
      res := Ok((pPlayer, pType, l));
    }

    /** The switch, as the loop sees it. */
    method HandleWith(fr: Frame, flags: Flags, tables: DumperStat.Tables, st: Tally, ghost handle: Handler)
      returns (res: Result<Tally>)
      requires IsHandle(handle, Ctx(flags, netPlayPlayers), tables)
      ensures res == handle(fr, st)
      ensures res.Ok? ==> res.value == st.(gameTime := res.value.gameTime, autorepair := res.value.autorepair)
    {
      res := HandleMessage(fr, flags, tables, st);
      assert HandlerContract(fr, st, res);
    }

    /** The framing at the head of the loop: the header, the REPLAY_ENDED
        check, and the copy of the payload. */
    static method ReadFrame(r: Reader) returns (res: Result<Option<Frame>>)
      requires r.Valid()
      modifies r
      ensures Replay.Stepped(r, FrameAt(old(r.Rest())), res)
    {
      var hd := ReadHeader(r);
      if hd.Err? {
        return Err(hd.error);
      }
      var (pPlayer, pType, l) := hd.value;
      if pType == REPLAY_ENDED {
        return Ok(None);
      }
      var data := Replay.ReadBytes(r, l);
      if data.Err? {
        return Err(Fatal(data.error));
      }
      res := Ok(Some(Frame(pPlayer, pType, l, data.value)));
    }

    /** One turn of the loop of readNetMessages with its variables at `st`:
        the variables after the message, None at REPLAY_ENDED, or the exit. */
    method NextMessage(r: Reader, flags: Flags, tables: DumperStat.Tables, st: Tally, ghost handle: Handler)
      returns (res: Result<Option<Tally>>)
      requires r.Valid() && IsHandle(handle, Ctx(flags, netPlayPlayers), tables)
      modifies r
      ensures r.Valid()
      ensures res.Err? ==> MessagesFrom(handle, old(r.Rest()), st) == Err(res.error)
      ensures res.Ok? && res.value.None? ==> MessagesFrom(handle, old(r.Rest()), st) == Ok(st)
      ensures res.Ok? && res.value.Some? ==> |r.Rest()| < |old(r.Rest())|
      ensures res.Ok? && res.value.Some? ==>
        MessagesFrom(handle, old(r.Rest()), st) == MessagesFrom(handle, r.Rest(), res.value.value)
    {
      ghost var s := r.Rest();
      var f := ReadFrame(r);
      if f.Err? {
        LoopStops(handle, s, st);
        res := Err(f.error);
      } else if f.value.None? {
        LoopStops(handle, s, st);
        res := Ok(None);
      } else {
        var fr := f.value.value;
        var msgid := MessageName(fr.t);
        var counted := st.(netsizes := Add(st.netsizes, msgid, fr.l), netcounts := Add(st.netcounts, msgid, 1));
        var h := HandleWith(fr, flags, tables, counted, handle);
        LoopTurns(handle, s, fr, r.Rest(), st, counted, h);
        if h.Err? {
          res := Err(h.error);
        } else {
          res := Ok(Some(h.value.(total := st.total + 1)));
        }
      }
    }

    /** readNetMessages: frames and handles messages until REPLAY_ENDED;
        the result is the variables it reports at the end.  `handle` is its
        switch under the flags, the players and the tables. */
    method ReadNetMessages(r: Reader, flags: Flags, tables: DumperStat.Tables, ghost handle: Handler)
      returns (res: Result<Tally>)
      requires r.Valid() && IsHandle(handle, Ctx(flags, netPlayPlayers), tables)
      modifies r
      ensures res == MessagesFrom(handle, old(r.Rest()), Start)
    {
      ghost var s0 := r.Rest();
      var total: nat := 0;
      var gameTime: u32 := 0;
      var netsizes: map<string, nat> := map[];
      var netcounts: map<string, nat> := map[];
      var playersautorepair: map<seq<byte>, u32> := map[];
      while true
        invariant r.Valid()
        invariant MessagesFrom(handle, r.Rest(), Tally(total, gameTime, netsizes, netcounts, playersautorepair))
          == MessagesFrom(handle, s0, Start)
        decreases |r.Rest()|
      {
        var next := NextMessage(r, flags, tables, Tally(total, gameTime, netsizes, netcounts, playersautorepair), handle);
        if next.Err? {
          return Err(next.error);
        }
        if next.value.None? {
          break;
        }
        total, gameTime, netsizes, netcounts, playersautorepair :=
          next.value.value.total, next.value.value.gameTime, next.value.value.netsizes,
          next.value.value.netcounts, next.value.value.autorepair;
      }
      res := Ok(Tally(total, gameTime, netsizes, netcounts, playersautorepair));
    }

    /** main's reads, in order; on success the program's globals hold what
        readSettings set. */
    method Dump(r: Reader, unmarshal: seq<byte> -> Option<Settings>, flags: Flags, tables: DumperStat.Tables)
      returns (res: Result<(Settings, Tally)>)
      requires r.Valid()
      modifies this, r
      ensures res == DumpAt(old(r.Rest()), unmarshal, flags, tables)
      ensures res.Ok? ==> netPlayPlayers == res.value.0.players
      ensures res.Ok? ==> namePadLength == PadAfter(old(namePadLength), res.value.0.players)
    {
      var m := ReadMagic(r);
      if m.Err? {
        return Err(m.error);
      }
      var st := ReadSettings(r, unmarshal);
      if st.Err? {
        return Err(st.error);
      }
      var em := ReadEmbeddedMap(r);
      if em.Err? {
        return Err(em.error);
      }
      var t := ReadNetMessages(r, flags, tables, HandlerOf(Ctx(flags, netPlayPlayers), tables));
      if t.Err? {
        return Err(t.error);
      }
      res := Ok((st.value, t.value));
    }
  }
}
