/** The replay container (replay/replay.go): the magic, the length-prefixed
    settings block, the versioned embedded map, the recorded net messages up
    to the REPLAY_ENDED sentinel, then the end chunk.

    Each stage has a pure specification on the bytes still unread, returning
    the value and the bytes it leaves (`Parsed`), or the error.  ReadReplay's
    outcome distinguishes the ordinary `(nil, err)` return, the recovered
    parser panic that hands back the replay read so far, and the runtime
    panic that escapes the deferred handler.  JSON decoding of the settings
    and of the end chunk is a parameter (`Json`), and so is the packet
    parser (`Parser`): every property below holds for any parser keeping
    ParsePacket's contract, and ReadReplay is proved for the one that
    computes ParsePacketAt. */
module Replay {
  import opened Wrappers
  import opened WzBytes
  import opened WzConstants
  import opened Packet
  import PacketCodec

  /** 'W', 'Z', 'r', 'p'. */
  const Magic: seq<byte> := [0x57, 0x5a, 0x72, 0x70]

  /** ReplayPacket: the sender and the decoded packet. */
  datatype ReplayPacket = ReplayPacket(player: byte, packet: Packet)

  /** Replay.  `embeddedMap` is None for Go's nil slice; `end` is None while
      the end chunk has not been read (Go's zero EndChunk). */
  datatype Replay<S, E> = Replay(settings: S, embeddedMap: Option<seq<byte>>,
                                 messages: seq<ReplayPacket>, end: Option<E>)

  /** What ReadReplay ends with:
      Failed  — it returned (nil, err);
      Partial — a parser panic was recovered: the replay so far and the error;
      Crash   — a runtime panic escaped (the deferred handler's pan.(string)
                fails on anything but a string);
      Done    — the whole replay. */
  datatype Outcome<S, E> =
    | Failed(err: Error)
    | Partial(replay: Replay<S, E>, err: Error)
    | Crash(cause: Error)
    | Done(replay: Replay<S, E>)

  /** json.Unmarshal into ReplaySettings and EndChunk, and the settings'
      ReplayFormatVer; None is a refused document. */
  datatype Json<!S, E> = Json(settings: seq<byte> -> Option<S>, formatVer: S -> int,
                             end: seq<byte> -> Option<E>)

  /** What ParsePacket promises its caller (ParsePacketAt's contract): an
      error and no reading for a code without a parser, only panics from a
      parser, a packet carrying the header it was asked for, never more bytes
      than it was given, and nothing read for REPLAY_ENDED. */
  predicate ParserContract(t: byte, l: u32, s: seq<byte>, r: Parsed<Packet>)
  {
    (!HasParser(t) ==> r == Err(NoParser(t))) &&
    (HasParser(t) && r.Err? ==> r.error.ParserPanic?) &&
    (r.Ok? ==> r.value.0.hdr == Header(t, l) && |r.value.1| <= |s|) &&
    (t == REPLAY_ENDED ==> r == Ok((Nothing(Header(t, l)), s)))
  }

  /** `parse` keeps ParsePacket's contract on every input. */
  ghost predicate KeepsContract(parse: (byte, u32, seq<byte>) -> Parsed<Packet>)
  {
    forall t, l, s :: ParserContract(t, l, s, parse(t, l, s))
  }

  /** A packet parser keeping ParsePacket's contract. */
  type Parser = parse: (byte, u32, seq<byte>) -> Parsed<Packet> | KeepsContract(parse)
    witness ParsePacketAt

  /** `parse` computes ParsePacketAt. */
  ghost predicate IsParsePacket(parse: Parser)
  {
    forall t, l, s {:trigger ParsePacketAt(t, l, s)} :: parse(t, l, s) == ParsePacketAt(t, l, s)
  }

  // ---------------------------------------------------------------------
  // Specifications of the stages
  // ---------------------------------------------------------------------

  /** A primitive read's value together with the bytes it leaves. */
  function Taking<T>(r: Result<(T, nat)>, s: seq<byte>): (p: Parsed<T>)
    requires r.Ok? ==> r.value.1 <= |s|
    ensures p.Ok? <==> r.Ok?
    ensures p.Ok? ==> p.value == (r.value.0, s[r.value.1..])
    ensures p.Err? ==> p.error == r.error
  {
    match r
    case Ok(vk) => Ok((vk.0, s[vk.1..]))
    case Err(e) => Err(e)
  }

  /** io.ReadFull (and io.ReadAtLeast with the buffer's own length): all `n`
      bytes, EOF when none is left, ErrUnexpectedEOF when some but too few are. */
  function FullAt(n: nat, s: seq<byte>): (r: Parsed<seq<byte>>)
    ensures r.Ok? <==> n <= |s|
    ensures r.Ok? ==> r.value.0 == s[..n] && r.value.1 == s[n..]
    ensures r.Err? ==> r.error == (if |s| == 0 then EOF else UnexpectedEOF)
  {
    if n == 0 then Ok(([], s))
    else if |s| == 0 then Err(EOF)
    else if |s| < n then Err(UnexpectedEOF)
    else Ok((s[..n], s[n..]))
  }

  /** readMagic. */
  function MagicAt(s: seq<byte>): Parsed<seq<byte>>
  {
    var m :- FullAt(4, s);
    if m.0 != Magic then Err(WrongMagic) else Ok(m)
  }

  /** readSettings: UBE32 length, that many bytes, the JSON document, and
      version 2 only. */
  function SettingsAt<S, E>(s: seq<byte>, js: Json<S, E>): Parsed<S>
  {
    var sl :- Taking(UBE32At(s), s);
    var sb :- Taking(BytesAt(sl.0, sl.1), sl.1);
    match js.settings(sb.0)
    case None => Err(JsonError)
    case Some(st) => if js.formatVer(st) != 2 then Err(WrongReplaySettingsVer) else Ok((st, sb.1))
  }

  /** readEmbeddedMap: UBE32 version, which must be 1, UBE32 length, and the
      bytes unless the length is 0. */
  function EmbeddedMapAt(s: seq<byte>): Parsed<Option<seq<byte>>>
  {
    var dv :- Taking(UBE32At(s), s);
    if dv.0 != 1 then Err(WrongReplayEmbeddedMapVersion)
    else
      var ml :- Taking(UBE32At(dv.1), dv.1);
      if ml.0 == 0 then Ok((None, ml.1))
      else
        var b :- Taking(BytesAt(ml.0, ml.1), ml.1);
        Ok((Some(b.0), b.1))
  }

  /** The bytes io.LimitReader(r, l) lets the parser see. */
  function Window(l: u32, s: seq<byte>): (w: seq<byte>)
    ensures |w| <= |s| && w == s[..|w|]
    ensures |w| == (if l <= |s| then l else |s|)
  {
    if l <= |s| then s[..l] else s
  }

  /** readNetMessage: sender and type bytes, the U32v length `l`, then the
      type's parser on at most `l` bytes.  What the parser leaves of its
      window is not skipped: it is where the next message is read from. */
  function NetMessageAt(parse: Parser, s: seq<byte>): (r: Parsed<ReplayPacket>)
    ensures r.Ok? ==> |r.value.1| + 3 <= |s|
  {
    var h :- FullAt(2, s);
    var l :- Taking(VarintAt(h.1), h.1);
    var p :- LimitedAt(parse, h.0[1], l.0, l.1);
    Ok((ReplayPacket(h.0[0], p.0), p.1))
  }

  /** ParsePacket(t, l, io.LimitReader(r, l)): the parser sees the window,
      and what it leaves of it comes back in front of the bytes after it. */
  function LimitedAt(parse: Parser, t: byte, l: u32, s: seq<byte>): (r: Parsed<Packet>)
    ensures r.Ok? ==> |r.value.1| <= |s|
  {
    var w := Window(l, s);
    var p :- parse(t, l, w);
    Ok((p.0, p.1 + s[|w|..]))
  }

  /** Messages `ms` read in front of what `run` read afterwards. */
  function Cons(ms: seq<ReplayPacket>, run: (seq<ReplayPacket>, Result<seq<byte>>)):
    (seq<ReplayPacket>, Result<seq<byte>>)
  {
    (ms + run.0, run.1)
  }

  /** The message loop: the messages read, up to and including the first
      REPLAY_ENDED, and then the bytes after it, or the error that stopped
      the loop (with the messages before it). */
  function MessagesAt(parse: Parser, s: seq<byte>): (r: (seq<ReplayPacket>, Result<seq<byte>>))
    ensures r.1.Ok? ==> |r.1.value| + 3 <= |s|
    decreases |s|
  {
    match NetMessageAt(parse, s)
    case Err(e) => ([], Err(e))
    case Ok(mr) =>
      if mr.0.packet.Type() == REPLAY_ENDED then ([mr.0], Ok(mr.1))
      else Cons([mr.0], MessagesAt(parse, mr.1))
  }

  /** readEndChunk: UBE32 length, that many bytes, the JSON document, then
      one more UBE32 whose value and error are dropped; when no byte is left
      for it, ReadUBE32 indexes an empty slice. */
  function EndChunkAt<S, E>(s: seq<byte>, js: Json<S, E>): Parsed<E>
  {
    var l :- Taking(UBE32At(s), s);
    var b :- FullAt(l.0, l.1);
    var tr :- Taking(UBE32At(b.1), b.1);
    match js.end(b.0)
    case None => Err(JsonError)
    case Some(e) => Ok((e, tr.1))
  }

  /** An error on ReadReplay's way out: runtime panics escape, everything
      else is returned. */
  function Abort<S, E>(e: Error): Outcome<S, E>
  {
    if e == IndexOutOfRange then Crash(e) else Failed(e)
  }

  /** ReadReplay on the bytes `s`, `parse` standing for ParsePacket. */
  function ReplayAt<S, E>(parse: Parser, s: seq<byte>, js: Json<S, E>): Outcome<S, E>
  {
    match MagicAt(s)
    case Err(e) => Failed(e)
    case Ok(m) => HeaderThen(parse, m.1, js)
  }

  /** After the magic: the settings and the embedded map, then the rest. */
  function HeaderThen<S, E>(parse: Parser, s: seq<byte>, js: Json<S, E>): Outcome<S, E>
  {
    match SettingsAt(s, js)
    case Err(e) => Abort(e)
    case Ok(st) =>
      match EmbeddedMapAt(st.1)
      case Err(e) => Abort(e)
      case Ok(em) => MessagesThen(parse, st.0, em.0, em.1, js)
  }

  /** After the header: the message loop (whose parser panic the deferred
      handler recovers), then the end chunk. */
  function MessagesThen<S, E>(parse: Parser, st: S, em: Option<seq<byte>>, s: seq<byte>, js: Json<S, E>):
    Outcome<S, E>
  {
    var run := MessagesAt(parse, s);
    match run.1
    case Err(e) =>
      if e.ParserPanic? then Partial(Replay(st, em, run.0, None), e) else Failed(e)
    case Ok(rest) =>
      match EndChunkAt(rest, js)
      case Err(e) => Abort(e)
      case Ok(ec) => Done(Replay(st, em, run.0, Some(ec.0)))
  }

  // ---------------------------------------------------------------------
  // Properties
  // ---------------------------------------------------------------------

  /** ParsePacketAt keeps the contract the reader relies on. */
  lemma ParsePacketIsParser(t: byte, l: u32, s: seq<byte>)
    ensures ParserContract(t, l, s, ParsePacketAt(t, l, s))
  {
  }

  /** Only the four bytes 'W','Z','r','p' open a replay: anything else fails
      before a byte of the settings is read. */
  lemma MagicRequired<S, E>(parse: Parser, s: seq<byte>, js: Json<S, E>)
    ensures |s| == 0 ==> ReplayAt(parse, s, js) == Failed(EOF)
    ensures 0 < |s| < 4 ==> ReplayAt(parse, s, js) == Failed(UnexpectedEOF)
    ensures |s| >= 4 && s[..4] != Magic ==> ReplayAt(parse, s, js) == Failed(WrongMagic)
    ensures !ReplayAt(parse, s, js).Failed? ==> |s| >= 4 && s[..4] == Magic
  {
  }

  /** The loop stops at the first REPLAY_ENDED, which is the last message:
      a message is the sentinel exactly when the loop ended normally and it
      is the last one read. */
  lemma {:induction false} OneSentinel(parse: Parser, s: seq<byte>)
    ensures MessagesAt(parse, s).1.Ok? ==> |MessagesAt(parse, s).0| > 0
    ensures forall i :: 0 <= i < |MessagesAt(parse, s).0| ==>
      (MessagesAt(parse, s).0[i].packet.Type() == REPLAY_ENDED <==>
       MessagesAt(parse, s).1.Ok? && i == |MessagesAt(parse, s).0| - 1)
    decreases |s|
  {
    match NetMessageAt(parse, s)
    case Err(e) =>
    case Ok(mr) =>
      if mr.0.packet.Type() != REPLAY_ENDED {
        OneSentinel(parse, mr.1);
        var run := MessagesAt(parse, mr.1);
        var ms := MessagesAt(parse, s);
        assert ms == ([mr.0] + run.0, run.1);
        forall i | 0 <= i < |ms.0|
          ensures ms.0[i].packet.Type() == REPLAY_ENDED <==> ms.1.Ok? && i == |ms.0| - 1
        {
          if i > 0 {
            assert ms.0[i] == run.0[i - 1];
          }
        }
      }
  }

  /** A message whose type code has no parser, registered or not, ends the
      loop with ParsePacket's error and no message. */
  lemma UnknownTypeAborts(parse: Parser, s: seq<byte>)
    requires |s| >= 2 && !HasParser(s[1]) && VarintAt(s[2..]).Ok?
    ensures MessagesAt(parse, s) == ([], Err(NoParser(s[1])))
  {
  }

  /** The sentinel message consumes its header and length only: the bytes
      after them come next, whatever length it declares. */
  lemma SentinelMessage(parse: Parser, player: byte, l: u32, t: seq<byte>)
    ensures NetMessageAt(parse, [player, REPLAY_ENDED] + PacketCodec.PutU32(l, t)) ==
      Ok((ReplayPacket(player, Nothing(Header(REPLAY_ENDED, l))), t))
  {
    var e := PacketCodec.PutU32(l, t);
    var s := [player, REPLAY_ENDED] + e;
    assert s[2..] == e;
    SentinelAt(parse, s, player, l, |e| - |t|, t);
  }

  lemma SentinelAt(parse: Parser, s: seq<byte>, player: byte, l: u32, k: nat, t: seq<byte>)
    requires |s| >= 2 && s[0] == player && s[1] == REPLAY_ENDED
    requires VarintAt(s[2..]) == Ok((l, k)) && s[2..][k..] == t
    ensures NetMessageAt(parse, s) == Ok((ReplayPacket(player, Nothing(Header(REPLAY_ENDED, l))), t))
  {
    var w := Window(l, t);
    assert w + t[|w|..] == t;
  }

  /** Settings are accepted only at version 2. */
  lemma SettingsVersion<S, E>(s: seq<byte>, js: Json<S, E>)
    ensures SettingsAt(s, js).Ok? ==> js.formatVer(SettingsAt(s, js).value.0) == 2
  {
  }

  /** readEmbeddedMap: no byte left for the version is a runtime panic; a
      version other than 1 is refused; a zero length gives no blob and
      reads nothing more; a length that fits gives exactly that many bytes. */
  lemma EmbeddedMapStages(s: seq<byte>)
    ensures |s| == 0 ==> EmbeddedMapAt(s) == Err(IndexOutOfRange)
    ensures |s| >= 4 && BigEndian32(s[..4]) != 1 ==> EmbeddedMapAt(s) == Err(WrongReplayEmbeddedMapVersion)
    ensures |s| >= 8 && BigEndian32(s[..4]) == 1 && BigEndian32(s[4..8]) == 0 ==>
      EmbeddedMapAt(s) == Ok((None, s[8..]))
    ensures |s| >= 8 && BigEndian32(s[..4]) == 1 && 0 < BigEndian32(s[4..8]) <= |s| - 8 ==>
      EmbeddedMapAt(s) == Ok((Some(s[8..8 + BigEndian32(s[4..8])]), s[8 + BigEndian32(s[4..8])..]))
  {
    if |s| >= 8 {
      assert s[4..][..4] == s[4..8];
      assert s[4..][4..] == s[8..];
      var n := BigEndian32(s[4..8]);
      if 0 < n <= |s| - 8 {
        assert s[8..][..n] == s[8..8 + n];
        assert s[8..][n..] == s[8 + n..];
      }
    }
  }

  /** readEndChunk reads the block its length announces, decodes it, and
      reads four more bytes whose value it drops: any four bytes there give
      the same result. */
  lemma EndChunkTrailer<S, E>(b: seq<byte>, v: seq<byte>, w: seq<byte>, t: seq<byte>, js: Json<S, E>)
    requires |b| >= 4 && BigEndian32(b[..4]) == |b| - 4 && |v| == 4 && |w| == 4
    ensures EndChunkAt(b + v + t, js) == EndChunkAt(b + w + t, js)
    ensures js.end(b[4..]).Some? ==> EndChunkAt(b + v + t, js) == Ok((js.end(b[4..]).value, t))
    ensures js.end(b[4..]).None? ==> EndChunkAt(b + v + t, js) == Err(JsonError)
  {
    EndChunkOf(b, v, t, js);
    EndChunkOf(b, w, t, js);
  }

  lemma EndChunkOf<S, E>(b: seq<byte>, v: seq<byte>, t: seq<byte>, js: Json<S, E>)
    requires |b| >= 4 && BigEndian32(b[..4]) == |b| - 4 && |v| == 4
    ensures js.end(b[4..]).Some? ==> EndChunkAt(b + v + t, js) == Ok((js.end(b[4..]).value, t))
    ensures js.end(b[4..]).None? ==> EndChunkAt(b + v + t, js) == Err(JsonError)
  {
    var s := b + v + t;
    assert s[..4] == b[..4];
    var rest := s[4..];
    assert rest == b[4..] + (v + t);
    assert rest[..|b| - 4] == b[4..] && rest[|b| - 4..] == v + t;
    assert (v + t)[..4] == v && (v + t)[4..] == t;
  }

  /** A finished replay opened with the magic, has settings of version 2,
      ends its messages with the single sentinel and has its end chunk. */
  lemma DoneShape<S, E>(parse: Parser, s: seq<byte>, js: Json<S, E>)
    requires ReplayAt(parse, s, js).Done?
    ensures |s| >= 4 && s[..4] == Magic
    ensures js.formatVer(ReplayAt(parse, s, js).replay.settings) == 2
    ensures var ms := ReplayAt(parse, s, js).replay.messages;
      |ms| > 0 && ms[|ms| - 1].packet.Type() == REPLAY_ENDED
    ensures ReplayAt(parse, s, js).replay.end.Some?
  {
    MagicRequired(parse, s, js);
    var rest := MagicAt(s).value.1;
    assert ReplayAt(parse, s, js) == HeaderThen(parse, rest, js);
    HeaderShape(parse, rest, js);
  }

  lemma HeaderShape<S, E>(parse: Parser, s: seq<byte>, js: Json<S, E>)
    ensures var o := HeaderThen(parse, s, js);
      (o.Done? || o.Partial?) ==> js.formatVer(o.replay.settings) == 2
    ensures var o := HeaderThen(parse, s, js);
      o.Done? ==> (|o.replay.messages| > 0 &&
        o.replay.messages[|o.replay.messages| - 1].packet.Type() == REPLAY_ENDED && o.replay.end.Some?)
    ensures var o := HeaderThen(parse, s, js);
      o.Partial? ==> (o.err.ParserPanic? && o.replay.end.None? &&
        forall m | m in o.replay.messages :: m.packet.Type() != REPLAY_ENDED)
    ensures HeaderThen(parse, s, js).Crash? ==> HeaderThen(parse, s, js).cause == IndexOutOfRange
  {
    var st := SettingsAt(s, js);
    SettingsVersion(s, js);
    if st.Ok? {
      var em := EmbeddedMapAt(st.value.1);
      if em.Ok? {
        MessagesShape(parse, st.value.0, em.value.0, em.value.1, js);
      }
    }
  }

  lemma MessagesShape<S, E>(parse: Parser, st: S, em: Option<seq<byte>>, s: seq<byte>, js: Json<S, E>)
    ensures var o := MessagesThen(parse, st, em, s, js);
      (o.Done? || o.Partial?) ==> o.replay.settings == st && o.replay.messages == MessagesAt(parse, s).0
    ensures var o := MessagesThen(parse, st, em, s, js);
      o.Done? ==> (|o.replay.messages| > 0 &&
        o.replay.messages[|o.replay.messages| - 1].packet.Type() == REPLAY_ENDED && o.replay.end.Some?)
    ensures var o := MessagesThen(parse, st, em, s, js);
      o.Partial? ==> (o.err.ParserPanic? && o.replay.end.None? &&
        forall m | m in o.replay.messages :: m.packet.Type() != REPLAY_ENDED)
    ensures MessagesThen(parse, st, em, s, js).Crash? ==> MessagesThen(parse, st, em, s, js).cause == IndexOutOfRange
  {
    OneSentinel(parse, s);
  }

  /** A partial replay comes only from a recovered parser panic; it has no
      end chunk and no sentinel among its messages. */
  lemma PartialShape<S, E>(parse: Parser, s: seq<byte>, js: Json<S, E>)
    requires ReplayAt(parse, s, js).Partial?
    ensures ReplayAt(parse, s, js).err.ParserPanic?
    ensures ReplayAt(parse, s, js).replay.end.None?
    ensures forall m | m in ReplayAt(parse, s, js).replay.messages :: m.packet.Type() != REPLAY_ENDED
  {
    HeaderShape(parse, MagicAt(s).value.1, js);
    assert ReplayAt(parse, s, js) == HeaderThen(parse, MagicAt(s).value.1, js);
  }

  /** Only a runtime panic (an exhausted ReadUBE32) escapes. */
  lemma CrashShape<S, E>(parse: Parser, s: seq<byte>, js: Json<S, E>)
    requires ReplayAt(parse, s, js).Crash?
    ensures ReplayAt(parse, s, js).cause == IndexOutOfRange
  {
    HeaderShape(parse, MagicAt(s).value.1, js);
    assert ReplayAt(parse, s, js) == HeaderThen(parse, MagicAt(s).value.1, js);
  }

  /** One turn of the message loop. */
  lemma MessagesStep(parse: Parser, s: seq<byte>)
    ensures NetMessageAt(parse, s).Err? ==> MessagesAt(parse, s) == ([], Err(NetMessageAt(parse, s).error))
    ensures NetMessageAt(parse, s).Ok? ==>
      var (m, rest) := NetMessageAt(parse, s).value;
      MessagesAt(parse, s) ==
        if m.packet.Type() == REPLAY_ENDED then ([m], Ok(rest)) else Cons([m], MessagesAt(parse, rest))
  {
  }

  lemma ConsCons(ms: seq<ReplayPacket>, ns: seq<ReplayPacket>, run: (seq<ReplayPacket>, Result<seq<byte>>))
    ensures Cons(ms, Cons(ns, run)) == Cons(ms + ns, run)
  {
    assert ms + (ns + run.0) == ms + ns + run.0;
  }

  // ---------------------------------------------------------------------
  // The reader side
  // ---------------------------------------------------------------------

  /** A stage moved the reader as its specification says; after an error the
      replay is abandoned, so where the reader stands does not matter. */
  ghost predicate Stepped<T>(r: Reader, spec: Parsed<T>, res: Result<T>)
    reads r
  {
    r.Valid() &&
    match spec
    case Ok(vr) => res == Ok(vr.0) && r.Rest() == vr.1
    case Err(e) => res == Err(e)
  }

  /** ReadUBE32 as the stages call it. */
  method ReadUBE32(r: Reader) returns (v: Result<u32>)
    requires r.Valid()
    modifies r
    ensures Stepped(r, Taking(UBE32At(old(r.Rest())), old(r.Rest())), v)
  {
    ghost var s := r.Rest();
    v := r.ReadUBE32();
    if v.Ok? {
      assert r.Rest() == s[UBE32At(s).value.1..];
    }
  }

  /** ReadBytes as the stages call it. */
  method ReadBytes(r: Reader, n: int) returns (v: Result<seq<byte>>)
    requires r.Valid()
    modifies r
    ensures Stepped(r, Taking(BytesAt(n, old(r.Rest())), old(r.Rest())), v)
  {
    ghost var s := r.Rest();
    v := r.ReadBytes(n);
    if v.Ok? {
      assert r.Rest() == s[BytesAt(n, s).value.1..];
    }
  }

  /** NETreadU32 as readNetMessage calls it. */
  method ReadU32(r: Reader) returns (v: Result<u32>)
    requires r.Valid()
    modifies r
    ensures Stepped(r, Taking(VarintAt(old(r.Rest())), old(r.Rest())), v)
  {
    ghost var s := r.Rest();
    v := r.NETreadU32();
    if v.Ok? {
      assert r.Rest() == s[VarintAt(s).value.1..];
    }
  }

  /** io.ReadFull(r, make([]byte, n)). */
  method ReadFull(r: Reader, n: nat) returns (v: Result<seq<byte>>)
    requires r.Valid()
    modifies r
    ensures Stepped(r, FullAt(n, old(r.Rest())), v)
  {
    if n == 0 {
      return Ok([]);
    }
    if r.pos == |r.data| {
      return Err(EOF);
    }
    if |r.data| - r.pos < n {
      r.pos := |r.data|;
      return Err(UnexpectedEOF);
    }
    ghost var s := r.Rest();
    v := Ok(r.data[r.pos..r.pos + n]);
    assert s[..n] == r.data[r.pos..r.pos + n];
    r.pos := r.pos + n;
    assert r.Rest() == s[n..];
  }

  method ReadMagic(r: Reader) returns (res: Result<seq<byte>>)
    requires r.Valid()
    modifies r
    ensures Stepped(r, MagicAt(old(r.Rest())), res)
  {
    var magic := ReadFull(r, 4);
    if magic.Err? {
      return magic;
    }
    if magic.value != Magic {
      return Err(WrongMagic);
    }
    res := magic;
  }

  method ReadSettings<S, E>(r: Reader, js: Json<S, E>) returns (res: Result<S>)
    requires r.Valid()
    modifies r
    ensures Stepped(r, SettingsAt(old(r.Rest()), js), res)
  {
    var sl := ReadUBE32(r);
    if sl.Err? {
      return Err(sl.error);
    }
    var sb := ReadBytes(r, sl.value);
    if sb.Err? {
      return Err(sb.error);
    }
    var st := js.settings(sb.value);
    if st.None? {
      return Err(JsonError);
    }
    if js.formatVer(st.value) != 2 {
      return Err(WrongReplaySettingsVer);
    }
    res := Ok(st.value);
  }

  method ReadEmbeddedMap(r: Reader) returns (res: Result<Option<seq<byte>>>)
    requires r.Valid()
    modifies r
    ensures Stepped(r, EmbeddedMapAt(old(r.Rest())), res)
  {
    var dv := ReadUBE32(r);
    if dv.Err? {
      return Err(dv.error);
    }
    if dv.value != 1 {
      return Err(WrongReplayEmbeddedMapVersion);
    }
    var ml := ReadUBE32(r);
    if ml.Err? {
      return Err(ml.error);
    }
    if ml.value == 0 {
      return Ok(None);
    }
    var b := ReadBytes(r, ml.value);
    if b.Err? {
      return Err(b.error);
    }
    res := Ok(Some(b.value));
  }

  /** readNetMessage. */
  method ReadNetMessage(r: Reader, ghost parse: Parser) returns (res: Result<ReplayPacket>)
    requires r.Valid() && IsParsePacket(parse)
    modifies r
    ensures Stepped(r, NetMessageAt(parse, old(r.Rest())), res)
  {
    var h := ReadFull(r, 2);
    if h.Err? {
      return Err(h.error);
    }
    var l := ReadU32(r);
    if l.Err? {
      return Err(l.error);
    }
    var p := ParseLimited(h.value[1], l.value, r, parse);
    if p.Err? {
      return Err(p.error);
    }
    res := Ok(ReplayPacket(h.value[0], p.value));
  }

  /** The parser reads from a reader limited to the window; the shared
      reader then stands where the parser stopped. */
  method ParseLimited(t: byte, l: u32, r: Reader, ghost parse: Parser) returns (res: Result<Packet>)
    requires r.Valid() && IsParsePacket(parse)
    modifies r
    ensures Stepped(r, LimitedAt(parse, t, l, old(r.Rest())), res)
  {
    ghost var s := r.Rest();
    ghost var p0 := r.pos;
    var m := if l <= |r.data| - r.pos then l else |r.data| - r.pos;
    var lr := new Reader(r.data[r.pos..r.pos + m]);
    assert lr.Rest() == Window(l, s);
    res := ParseWith(t, l, lr, parse);
    if res.Ok? {
      WindowRest(r.data, p0, m, lr.pos);
      r.pos := r.pos + lr.pos;
    }
  }

  /** ParsePacket, read as the parser `parse` it computes. */
  method ParseWith(t: byte, l: u32, r: Reader, ghost parse: Parser) returns (res: Result<Packet>)
    requires r.Valid() && IsParsePacket(parse)
    modifies r
    ensures Stepped(r, parse(t, l, old(r.Rest())), res)
  {
    res := ParsePacket(t, l, r);
  }

  /** The bytes after position `q` of the window `d[p..p+m]`, then the bytes
      after the window, are the bytes after position `p+q` of `d`. */
  lemma WindowRest(d: seq<byte>, p: nat, m: nat, q: nat)
    requires p + m <= |d| && q <= m
    ensures d[p + q..] == d[p..p + m][q..] + d[p + m..]
  {
  }

  /** readEndChunk. */
  method ReadEndChunk<S, E>(r: Reader, js: Json<S, E>) returns (res: Result<E>)
    requires r.Valid()
    modifies r
    ensures Stepped(r, EndChunkAt(old(r.Rest()), js), res)
  {
    var l := ReadUBE32(r);
    if l.Err? {
      return Err(l.error);
    }
    var b := ReadFull(r, l.value);
    if b.Err? {
      return Err(b.error);
    }
    var ec := js.end(b.value);
    var trailer := ReadUBE32(r);
    if trailer.Err? {
      return Err(trailer.error);
    }
    if ec.None? {
      return Err(JsonError);
    }
    res := Ok(ec.value);
  }

  /** ReadReplay: the stages in order.  The ghost `parse` names the packet
      parser the messages are read with, ParsePacket. */
  method ReadReplay<S, E>(r: Reader, js: Json<S, E>, ghost parse: Parser) returns (out: Outcome<S, E>)
    requires r.Valid() && IsParsePacket(parse)
    modifies r
    ensures out == ReplayAt(parse, old(r.Rest()), js)
  {
    var magic := ReadMagic(r);
    if magic.Err? {
      return Failed(magic.error);
    }
    var settings := ReadSettings(r, js);
    if settings.Err? {
      return Abort(settings.error);
    }
    var embeddedMap := ReadEmbeddedMap(r);
    if embeddedMap.Err? {
      return Abort(embeddedMap.error);
    }
    out := ReadMessagesThen(r, js, settings.value, embeddedMap.value, parse);
  }

  /** ReadReplay from its deferred handler on: the loop appending messages
      until the sentinel, then the end chunk. */
  method ReadMessagesThen<S, E>(r: Reader, js: Json<S, E>, settings: S, embeddedMap: Option<seq<byte>>,
                                ghost parse: Parser)
    returns (out: Outcome<S, E>)
    requires r.Valid() && IsParsePacket(parse)
    modifies r
    ensures out == MessagesThen(parse, settings, embeddedMap, old(r.Rest()), js)
  {
    ghost var s0 := r.Rest();
    var messages: seq<ReplayPacket> := [];
    assert [] + MessagesAt(parse, s0).0 == MessagesAt(parse, s0).0;
    while true
      invariant r.Valid()
      invariant MessagesAt(parse, s0) == Cons(messages, MessagesAt(parse, r.Rest()))
      decreases |r.Rest()|
    {
      ghost var s := r.Rest();
      var msg := ReadNetMessage(r, parse);
      MessagesStep(parse, s);
      if msg.Err? {
        assert messages + [] == messages;
        if msg.error.ParserPanic? {
          return Partial(Replay(settings, embeddedMap, messages, None), msg.error);
        }
        return Failed(msg.error);
      }
      ConsCons(messages, [msg.value], MessagesAt(parse, r.Rest()));
      messages := messages + [msg.value];
      if msg.value.packet.Type() == REPLAY_ENDED {
        break;
      }
    }
    var end := ReadEndChunk(r, js);
    if end.Err? {
      return Abort(end.error);
    }
    out := Done(Replay(settings, embeddedMap, messages, Some(end.value)));
  }
}
