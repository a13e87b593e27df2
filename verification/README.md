# go-wz replay decoding, modelled in Dafny

This project models the decoding core of go-wz, a Go library and command-line
dumper for Warzone 2100 replay files (`.wzrp`). A replay opens with the magic
`WZrp`. Then come:

- a length-prefixed JSON settings block;
- a versioned, optional embedded map;
- the recorded network messages, each a sender byte, a type byte, a
  variable-length length and a payload, up to the `REPLAY_ENDED` sentinel;
- a length-prefixed JSON end chunk.

The modules follow the Go packages:

| file | module | models |
|---|---|---|
| `wrappers.dfy` | `Wrappers` | `Option`, `Result` and the error values the program can end with (Go errors, `panic`, `log.Fatal`) |
| `wzbytes.dfy` | `WzBytes` | `wznet/wzbytes.go`: the protocol's own variable-length uint32, the signed mapping of `NETreadS32`, fixed-width and block reads, on a `Reader` class over the input bytes |
| `wzconstants.dfy` | `WzConstants` | `wznet/wzconstants.go`: the type-code blocks, the `NetMessageType` registry, the `DORDER`, sub-type, `STAT_*` and `STRUCTUREINFO_*` constants |
| `dss_string.dfy` | `DroidSecondaryState` | `wznet/droid_secondary_state_string.go`: `DROID_SECONDARY_STATE.String` over its packed name string |
| `stat.dfy` | `Stat` | `stat/stat.go`: `RefToComponent` |
| `packet.dfy` | `Packet` | `packet/game.go`: the parser table, `ParsePacket` and every decoder, as specification functions and as methods reading field by field |
| `packet_codec.dfy` | `PacketCodec` | encoders written for the proofs only, and the round-trip lemmas that pin each decoder down |
| `replay.dfy` | `Replay` | `replay/replay.go`: `ReadReplay` and its stages |
| `dumper_stat.dfy` | `DumperStat` | `replay-dumper/stat.go`: the stat tables, the key ordering of `loadDefaultData`, `typifyDroid`, `checkDroidIllegal`, `refToStructName` |
| `dumper.dfy` | `Dumper` | `replay-dumper/main.go`: the dumper's own pass over a replay, with its message loop and counters |

Every reading stage has two forms:

- a pure specification function `XAt(s)` on the bytes still to be read. It
  returns the value and the bytes left after it, or an error.
- a method that reads from the shared `Reader`, as the Go code does. It is
  proved to end exactly where the specification says.

The properties are then proved on the specification functions. These include
the round trips of every decoder, the framing of the message loop and the
counters of the dumper.

Failures are values:

- Go error returns are `Err(e)`.
- A read error inside a packet decoder is a panic (`panicerr`). It becomes
  `ParserPanic(e)`, which `ReadReplay` recovers into a partial replay.
- A runtime panic is `IndexOutOfRange`. `ReadUBE32` raises it when no byte
  is left.
- In the dumper, every `noerr`, `noerr2` and `must` that fails ends the
  program. That is `Fatal(e)`.

The input is an in-memory reader (`bytes.Buffer`, `bytes.Reader`,
`io.LimitReader`). A `Read` of k bytes returns min(k, remaining) bytes, and
returns EOF only when nothing is left. So a short `ReadBytes` gives the bytes
that are there followed by zeros, and a `ReadUBE32` with one to three bytes
left gives a value whose missing low bytes are zero.

Behaviour the code fixes and a reader could expect otherwise:

- A message whose type code has no parser stops `ReadReplay` with an error.
  This holds for codes inside the registry and for codes outside it
  (`Replay.UnknownTypeAborts`).
- Payload bytes that a decoder leaves unread are not skipped. The next
  message header is read right after what the decoder consumed
  (`Replay.LimitedAt`). The dumper does otherwise: it copies the whole
  payload before decoding it.
- An ordinary error returns no replay at all. Only a recovered parser panic
  keeps the messages read so far (`Replay.PartialShape`).
- Only `REPLAY_ENDED` (133) ends the message loop. `REPLAY_ENDED_2` (255)
  has no parser and no registry entry.
- `NETreadS32` maps an even v to v/2 and an odd v to -(v/2 - 1). This is
  not zig-zag decoding. The model keeps the mapping as written and proves
  where it collides (`WzBytes.SignedCollisions`).
- A droid with more than two weapons is only a warning in the dumper.

## Model

| member | source | states |
|---|---|---|
| WzBytes.BytesAt | wznet/wzbytes.go:9-25 | n <= 0 gives no bytes and reads nothing; it fails with EOF exactly when n > 0 and no byte is left; otherwise the result has exactly n bytes, the first n of the input or all that is left followed by zeros, and min(n, remaining) bytes are consumed |
| WzBytes.Reader.ReadBytes | wznet/wzbytes.go:9-25 | the reader moves by what BytesAt consumes and returns its bytes; after an error the reader is exhausted |
| WzBytes.Reader.ReadByte | wznet/wzbytes.go:26-36 | ok exactly when there is no error; at the end of the input it returns 0 and EOF without moving; otherwise it returns the next byte and moves by one |
| WzBytes.BigEndian32 | wznet/wzbytes.go:38-41 | the first byte is the value's top byte and the fourth its bottom byte |
| WzBytes.BigEndian32Bytes | wznet/wzbytes.go:38-41 | splitting the value into four bytes, top byte first, gives back exactly the four bytes it was read from |
| WzBytes.BigEndian32Injective | wznet/wzbytes.go:38-41 | two four-byte strings with the same big-endian value are the same bytes |
| WzBytes.UBE32At | wznet/wzbytes.go:38-41 | fails with an index panic exactly when no byte is left; with four or more bytes it gives their big-endian value and consumes 4; with one to three it consumes them and gives the big-endian value of those bytes followed by zero bytes up to four |
| WzBytes.Reader.ReadUBE32 | wznet/wzbytes.go:38-41 | reads and moves as UBE32At says |
| WzBytes.WeightsChain | wznet/wzbytes.go:44-45 | each weight m[n+1] is m[n]·a[n], and 255 at every position sums to exactly 2^32 - 1 |
| WzBytes.Wrap32Mod | wznet/wzbytes.go:52-54 | the uint32 addition of the step is reduction modulo 2^32 |
| WzBytes.UnitsBelow | wznet/wzbytes.go:52-54 | a digit of at most 255 times its weight never reaches 2^32 |
| WzBytes.Digit | wznet/wzbytes.go:49-55 | the digit a byte stands for is at most 255, and it is below 256 - a[n] exactly when the byte is final |
| WzBytes.DecodeStep | wznet/wzbytes.go:43-57 | a byte is final exactly when b < 256 - a[n]; every byte at position 4 is final |
| WzBytes.StepValue | wznet/wzbytes.go:43-57 | when the sum fits, the step adds digit·m[n] to the accumulator |
| WzBytes.LastDigitFits | wznet/wzbytes.go:44-55 | after any continuation bytes, adding one more digit keeps the accumulator below 2^32, so it never wraps |
| WzBytes.VarintFrom | wznet/wzbytes.go:69-80 | from position n, between 1 and 5 - n bytes are consumed; the only error is EOF, and only when fewer than 5 - n bytes are left |
| WzBytes.VarintAt | wznet/wzbytes.go:69-80 | NETreadU32 consumes 1 to 5 bytes; it fails only with EOF, only when fewer than 5 bytes are left, and returns no partial value |
| WzBytes.VarintFromStep | wznet/wzbytes.go:71-78 | one turn of NETreadU32's loop: a final byte ends the value with the new accumulator, any other byte continues from the next position |
| WzBytes.Reader.NETreadU32 | wznet/wzbytes.go:69-80 | the loop reads exactly what VarintAt specifies and returns its value |
| WzBytes.EncodeVarint | wznet/wzbytes.go:43-57 | the reference encoder: every uint32 has an encoding of 1 to 5 bytes |
| WzBytes.EncodeDecodeFrom | wznet/wzbytes.go:43-80 | decoding the encoding of any value from any position gives that value without wrapping, and consumes exactly the encoding, whatever follows it |
| WzBytes.DecodeCanonicalFrom | wznet/wzbytes.go:43-80 | every byte string the decoder accepts is the encoding of the value it returns |
| WzBytes.VarintRoundTrip | wznet/wzbytes.go:43-80 | decode(encode(v) + t) = (v, length of the encoding) for every v and t |
| WzBytes.VarintCanonical | wznet/wzbytes.go:43-80 | the bytes a successful read consumes are the canonical encoding of its value, so no value has two encodings |
| WzBytes.VarintPrefix | wznet/wzbytes.go:69-80 | the result depends only on the bytes consumed, and every shorter prefix fails |
| WzBytes.SignedFromU32 | wznet/wzbytes.go:82-92 | even v gives v/2 and odd v gives -(v/2 - 1); the result is never below -(2^31 - 2), so it never overflows an int32 |
| WzBytes.SignedCollisions | wznet/wzbytes.go:82-92 | the mapping is not injective: exactly 0 and 3 (both 0) and 1 and 2 (both 1) collide |
| WzBytes.SignedRange | wznet/wzbytes.go:82-92 | an int32 is produced exactly when it is at least -(2^31 - 2) |
| WzBytes.S32At | wznet/wzbytes.go:82-92 | NETreadS32 succeeds exactly when NETreadU32 does, maps its value and consumes the same bytes |
| WzBytes.Reader.NETreadS32 | wznet/wzbytes.go:82-92 | reads and moves as S32At says |
| WzBytes.U8At | wznet/wzbytes.go:59-62 | one byte, or EOF exactly when none is left |
| WzBytes.Reader.NETreadU8 | wznet/wzbytes.go:59-62 | reads and moves as U8At says |
| WzBytes.U16At | wznet/wzbytes.go:64-67 | two bytes, big-endian and fixed width; EOF with none left and UnexpectedEOF with one |
| WzBytes.Reader.NETreadU16 | wznet/wzbytes.go:64-67 | reads and moves as U16At says |
| WzBytes.U16sAt | packet/game.go:112 | count big-endian code units, consuming 2·count bytes, exactly when that many bytes are left |
| WzBytes.Reader.ReadUnits | packet/game.go:112 | the loop reads as U16sAt says |
| WzBytes.StringAt | packet/game.go:112 | NETstring: a varint unit count, then that many code units; the bytes consumed are the count's plus two per unit |
| WzBytes.Reader.NETstring | packet/game.go:112 | reads and moves as StringAt says |
| WzConstants.MessageName | wznet/wzconstants.go:81-145 | the registry name of a code, and "" (Go's zero value) for a code without an entry |
| WzConstants.BlockLayout | wznet/wzconstants.go:3-79 | the NET_ names run contiguously from NET_MIN_TYPE = 33 to NET_MAX_TYPE = 72; the GAME_ names from GAME_MIN_TYPE = 111 to GAME_MAX_TYPE = 132; REPLAY_ENDED = 133 comes right after them |
| WzConstants.RegistryDomain | wznet/wzconstants.go:81-145 | NetMessageType has an entry exactly for the codes in [33, 72] and [111, 133]; 255 has none |
| WzConstants.NamedCodes | wznet/wzconstants.go:47-79 | the codes the decoders use map to their own identifiers |
| WzConstants.GameCodeName | wznet/wzconstants.go:108-144 | every code from 111 to 133 maps to the GAME_ name at its offset in the block |
| WzConstants.BlockInitials | wznet/wzconstants.go:82-144 | NET_ names start with 'N', GAME_ and REPLAY_ names with 'G' or 'R', so the blocks share no name |
| WzConstants.NetNamesDistinct | wznet/wzconstants.go:82-107 | no two NET_ entries carry the same name |
| WzConstants.GameNamesDistinct | wznet/wzconstants.go:108-144 | no two GAME_ entries carry the same name |
| WzConstants.NamesDistinct | wznet/wzconstants.go:82-144 | distinct codes have distinct names |
| WzConstants.DorderValue | wznet/wzconstants.go:159-200 | the first 36 DORDER names take the values 0 to 35 in order, and the last two both take 40 |
| WzConstants.DorderSharedValue | wznet/wzconstants.go:198-199 | DORDER_CIRCLE and DORDER_HOLD are the only two orders that share a value |
| WzConstants.DorderNamedValues | wznet/wzconstants.go:161-199 | DORDER_BUILD = 4, DORDER_LINEBUILD = 6, DORDER_BUILDMODULE = 20, DORDER_CIRCLE = DORDER_HOLD = 40 |
| WzConstants.Masked | wznet/wzconstants.go:253-268 | ref & STAT_MASK is a multiple of 2^16 at most ref and within 2^16 of it |
| WzConstants.StatTagsShape | wznet/wzconstants.go:253-268 | every STAT_ tag has zero low 16 bits, and their high halves strictly increase, so they are distinct |
| WzConstants.MaskedIsTag | wznet/wzconstants.go:253-268 | a reference masks to a tag exactly when it lies in [tag, tag + 2^16) |
| DroidSecondaryState.KeysAreConstants | wznet/droid_secondary_state_string.go:7-35 | the keys of the map are the values of the DSS_ constants, in order |
| DroidSecondaryState.KeysIncrease | wznet/droid_secondary_state_string.go:39-64 | the 24 keys strictly increase, so they are distinct |
| DroidSecondaryState.BoundsPartition | wznet/droid_secondary_state_string.go:37-64 | the slice bounds run from 0 to 352, each slice starts where the one before ends, and slice k of the name string is the k-th DSS_ name |
| DroidSecondaryState.StateMap | wznet/droid_secondary_state_string.go:39-64 | the map has an entry exactly for the 24 keys |
| DroidSecondaryState.Entry | wznet/droid_secondary_state_string.go:39-64 | each entry is as long as its slice bounds say |
| DroidSecondaryState.StateMapEntry | wznet/droid_secondary_state_string.go:39-64 | key k maps to the slice between bounds k and k + 1 |
| DroidSecondaryState.String | wznet/droid_secondary_state_string.go:66-71 | a value without an entry gives "DROID_SECONDARY_STATE(", its decimal and ")" |
| DroidSecondaryState.StringOfConstant | wznet/droid_secondary_state_string.go:66-69 | each DSS_ constant gives its own name |
| DroidSecondaryState.StringOfOther | wznet/droid_secondary_state_string.go:70 | any other value gives the fallback, whose digits read back as the value |
| DroidSecondaryState.StringExampleNone | wznet/droid_secondary_state_string.go:40 | 0 gives "DSS_NONE" |
| DroidSecondaryState.StringExampleCircle | wznet/droid_secondary_state_string.go:62 | 4194560 gives "DSS_CIRCLE_SET" |
| DroidSecondaryState.StringExampleOther | wznet/droid_secondary_state_string.go:66-70 | 5 gives "DROID_SECONDARY_STATE(5)" |
| DroidSecondaryState.Decimal | wznet/droid_secondary_state_string.go:70 | the decimal is non-empty, all digits, and starts with '0' only for 0 |
| DroidSecondaryState.DecimalRoundTrip | wznet/droid_secondary_state_string.go:70 | reading the decimal back gives the number |
| Stat.RefToComponent | stat/stat.go:34-65 | the index is -1 exactly when the masked reference is not a tag, and the type is then COMP_NUMCOMPONENTS; otherwise the index is ref & 0xffff, in [0, 65535], and the type is a component or -1 |
| Stat.RefToComponentByTable | stat/stat.go:36-61 | a reference under tag k gives that tag's component (-1 for research, template, structure, function and feature) and the index ref - tag |
| Stat.CategoryFromMask | stat/stat.go:35 | two references with the same high half get the same type, and either neither has an index or both sit at the same offset from their tag |
| Stat.ComponentsTagged | stat/stat.go:5-15 | every component type below COMP_NUMCOMPONENTS is reached from some tag |
| Packet.Packet.Name | packet/game.go:53-55 | the registry name of the packet's type, "" for a code without one |
| Packet.GameTimeAt | packet/game.go:75-82 | a GameTime packet with the header it was given, after at least 6 bytes |
| Packet.DroidDefAt | packet/game.go:111-122 | the droid template consumes at least 9 bytes |
| Packet.VarintsAt | packet/game.go:123-126 | exactly n U32v values |
| Packet.StructInfoAt | packet/game.go:105-129 | a StructInfo packet with its header; the template and the weapons are read only for STRUCTUREINFO_MANUFACTURE and stay zero otherwise; fewer than 256 weapons; at least 3 bytes consumed |
| Packet.ResearchStatusAt | packet/game.go:139-148 | a ResearchStatus packet with its header, after at least 4 bytes |
| Packet.TargetAt | packet/game.go:179-185 | the Obj or Loc target fields, after at least 2 bytes |
| Packet.BuildAt | packet/game.go:186-189 | the build fields, which only build orders read |
| Packet.LineAt | packet/game.go:190-193 | the second coordinate pair, which only line-build orders read |
| Packet.ModuleAt | packet/game.go:194-196 | the module index, which only build-module orders read |
| Packet.ObjLocAt | packet/game.go:175-199 | the Obj and Loc branch consumes at least 4 bytes |
| Packet.OrderAt | packet/game.go:174-203 | the order fields chosen by the sub-type never read past the input |
| Packet.AddU32Mod | packet/game.go:207 | the running uint32 sum wraps modulo 2^32 |
| Packet.DeltasAt | packet/game.go:204-209 | exactly n droid ids |
| Packet.DroidInfoAt | packet/game.go:170-211 | a DroidInfo packet with its header, after at least 3 bytes |
| Packet.PlayerLeftAt | packet/game.go:218-222 | a PlayerLeft packet with its header, after exactly one byte |
| Packet.GiftAt | packet/game.go:232-239 | a Gift packet with its header, after at least 4 bytes |
| Packet.LasSatAt | packet/game.go:249-256 | a LasSat packet with its header, after at least 4 bytes |
| Packet.NothingAt | packet/game.go:63-65 | REPLAY_ENDED gives its header as the packet and reads nothing |
| Packet.ParserAt | packet/game.go:36-45 | the table's parser keeps the header, never reads past its input and produces its code's variant |
| Packet.ParserIs | packet/game.go:36-45 | the table maps each of the seven GAME_ codes to its decoder |
| Packet.Panicked | packet/game.go:258-264 | a value passes through, and a read error becomes a parser panic carrying it |
| Packet.ParsePacketAt | packet/game.go:19-31 | an error, never a packet, exactly for a code without a parser; otherwise only a panic or a packet of the right variant whose Type() and Length() are the header's, whatever it consumed; REPLAY_ENDED reads nothing |
| Packet.NoParserNamed | packet/game.go:21-27 | the error names a registry entry exactly when the code has one |
| Packet.ParsersRegistered | packet/game.go:36-45 | every code with a parser is a registered GAME_ code or REPLAY_ENDED; 255 gets the unknown-type error |
| Packet.ParseNothing | packet/game.go:63-65 | the reader does not move |
| Packet.ParseGameGameTime | packet/game.go:75-82 | the method reads and moves as GameTimeAt says |
| Packet.ReadDroidDef | packet/game.go:111-122 | the method reads and moves as DroidDefAt says |
| Packet.ReadVarints | packet/game.go:123-126 | the loop reads and moves as VarintsAt says |
| Packet.ParseGameStructInfo | packet/game.go:105-129 | the method reads and moves as StructInfoAt says |
| Packet.ParseGameResearchStatus | packet/game.go:139-148 | the method reads and moves as ResearchStatusAt says |
| Packet.ReadTarget | packet/game.go:179-185 | the method reads and moves as TargetAt says |
| Packet.ReadBuild | packet/game.go:186-189 | the method reads and moves as BuildAt says |
| Packet.ReadLine | packet/game.go:190-193 | the method reads and moves as LineAt says |
| Packet.ReadModule | packet/game.go:194-196 | the method reads and moves as ModuleAt says |
| Packet.ReadObjLoc | packet/game.go:175-199 | the method reads and moves as ObjLocAt says |
| Packet.ReadOrder | packet/game.go:174-203 | the method reads and moves as OrderAt says |
| Packet.ReadDroidIds | packet/game.go:204-209 | the loop with its running sum reads and moves as DeltasAt says |
| Packet.ParseGameDroidInfo | packet/game.go:170-211 | the method reads and moves as DroidInfoAt says |
| Packet.ParseGamePlayerLeft | packet/game.go:218-222 | the method reads and moves as PlayerLeftAt says |
| Packet.ParseGameGift | packet/game.go:232-239 | the method reads and moves as GiftAt says |
| Packet.ParseGameLasSat | packet/game.go:249-256 | the method reads and moves as LasSatAt says |
| Packet.ParsePacket | packet/game.go:19-31 | without a parser it returns the error and reads nothing; otherwise it reads and moves as ParsePacketAt says |
| PacketCodec.RunningSums | packet/game.go:204-209 | one id per delta |
| PacketCodec.DeltasAreRunningSums | packet/game.go:204-209 | the id list is the list of running sums of the U32v deltas |
| PacketCodec.RunningSumsAreSums | packet/game.go:204-209 | id i is (d0 + ... + di) mod 2^32 |
| PacketCodec.SubU32 | packet/game.go:207 | subtraction modulo 2^32 undoes the wrapping addition |
| PacketCodec.Deltas | packet/game.go:204-209 | one delta per id |
| PacketCodec.SumsOfDeltas | packet/game.go:204-209 | every id list is the running sums of its deltas, so every list can be sent |
| PacketCodec.DeltaExample | packet/game.go:204-209 | the deltas 5, 0, 3 give the ids 5, 5, 8 |
| PacketCodec.ReadsU8 | wznet/wzbytes.go:59-62 | a written byte reads back and leaves what follows |
| PacketCodec.ReadsU16 | wznet/wzbytes.go:64-67 | a written big-endian u16 reads back and leaves what follows |
| PacketCodec.PutU32Canonical | wznet/wzbytes.go:69-80 | the written varint is the canonical encoding |
| PacketCodec.ReadsU32 | wznet/wzbytes.go:69-80 | a written varint reads back and leaves what follows |
| PacketCodec.UnsignedOf | wznet/wzbytes.go:82-92 | every int32 NETreadS32 can produce has a uint32 that maps to it |
| PacketCodec.ReadsS32 | wznet/wzbytes.go:82-92 | a written signed value reads back and leaves what follows |
| PacketCodec.PutU16s | packet/game.go:112 | two bytes per code unit in front of what follows |
| PacketCodec.ReadsU16s | packet/game.go:112 | written code units read back |
| PacketCodec.ReadsString | packet/game.go:112 | a written string reads back and leaves what follows |
| PacketCodec.GameTimeRoundTrip | packet/game.go:75-82 | decoding an encoded GameTime packet gives it back and leaves what follows |
| PacketCodec.ReadsU32s | packet/game.go:123-126 | n written varints read back |
| PacketCodec.ReadsIds | packet/game.go:204-209 | an id list written as deltas reads back |
| PacketCodec.DroidDefRoundTrip | packet/game.go:111-122 | an encoded droid template decodes back |
| PacketCodec.StructInfoRoundTrip | packet/game.go:105-129 | an encoded StructInfo packet decodes back, with or without a template |
| PacketCodec.ResearchStatusRoundTrip | packet/game.go:139-148 | an encoded ResearchStatus packet decodes back, with Start as "byte nonzero" |
| PacketCodec.TargetRoundTrip | packet/game.go:179-185 | an encoded target decodes back into the fields its sub-type reads |
| PacketCodec.ObjTargetRoundTrip | packet/game.go:180-181 | Obj reads DestID and DestType |
| PacketCodec.LocTargetRoundTrip | packet/game.go:183-184 | Loc reads CoordX and CoordY as signed values |
| PacketCodec.BuildRoundTrip | packet/game.go:186-189 | build fields round-trip, and other orders read none |
| PacketCodec.BuildFieldsRoundTrip | packet/game.go:186-189 | BUILD and LINEBUILD read StructRef and a u16 Direction |
| PacketCodec.LineRoundTrip | packet/game.go:190-193 | the second pair round-trips, and only LINEBUILD reads it |
| PacketCodec.LineFieldsRoundTrip | packet/game.go:190-193 | LINEBUILD reads CoordX2 and CoordY2 |
| PacketCodec.ModuleRoundTrip | packet/game.go:194-196 | the module index round-trips, and only BUILDMODULE reads it |
| PacketCodec.ModuleFieldsRoundTrip | packet/game.go:194-196 | BUILDMODULE reads Index |
| PacketCodec.ObjLocFieldsComplete | packet/game.go:175-199 | a well-formed Obj or Loc order has nothing outside what its branch reads |
| PacketCodec.ObjLocRoundTrip | packet/game.go:175-199 | the Obj and Loc branch round-trips, ending with Add as "byte nonzero" |
| PacketCodec.OrderRoundTrip | packet/game.go:174-203 | the order fields of every well-formed sub-type round-trip: Obj and Loc through their branch, Sec through SecOrder and SecState, and the rest read nothing |
| PacketCodec.DroidInfoRoundTrip | packet/game.go:170-211 | an encoded DroidInfo packet decodes back |
| PacketCodec.GiftRoundTrip | packet/game.go:232-239 | an encoded Gift packet decodes back |
| PacketCodec.LasSatRoundTrip | packet/game.go:249-256 | an encoded LasSat packet decodes back |
| PacketCodec.EncodeRoundTrip | packet/game.go:19-45 | ParsePacket on any encoded packet of a registered kind gives that packet back and leaves what follows |
| Replay.Taking | replay/replay.go:92-112 | a read's value together with the bytes it leaves, or its error |
| Replay.FullAt | replay/replay.go:94-98 | io.ReadFull: all n bytes, or EOF with none left, or UnexpectedEOF with too few |
| Replay.ParsePacketIsParser | packet/game.go:19-31 | ParsePacket keeps the contract the replay reader relies on |
| Replay.MagicRequired | replay/replay.go:153-163 | an empty input fails with EOF, one to three bytes with UnexpectedEOF, other bytes than 'W','Z','r','p' with ErrWrongMagic; any other outcome starts with the magic |
| Replay.SettingsVersion | replay/replay.go:133-151 | accepted settings have ReplayFormatVer 2 |
| Replay.EmbeddedMapStages | replay/replay.go:114-131 | no version is an index panic, a version other than 1 is refused, length 0 gives no blob and reads nothing more, and a length that fits gives exactly that many bytes |
| Replay.EndChunkTrailer | replay/replay.go:71-85 | the end chunk is the decoded block, and the four bytes after it are read but do not change the result |
| Replay.Window | replay/replay.go:107 | the parser sees min(l, remaining) bytes, a prefix of the input |
| Replay.NetMessageAt | replay/replay.go:92-112 | a message consumes at least its two header bytes and one length byte |
| Replay.LimitedAt | replay/replay.go:107 | the parser never hands back more bytes than it was given |
| Replay.MessagesAt | replay/replay.go:52-61 | a loop that ends normally has consumed at least one message |
| Replay.MessagesStep | replay/replay.go:52-61 | one turn of the loop: an error stops it, REPLAY_ENDED is appended and stops it, any other message is appended and the loop goes on |
| Replay.OneSentinel | replay/replay.go:52-61 | a loop that ends normally has read at least one message; a message is REPLAY_ENDED exactly when the loop ended normally and it is the last |
| Replay.UnknownTypeAborts | replay/replay.go:107-110 | a type code without a parser, registered or not, ends the loop with ParsePacket's error |
| Replay.SentinelMessage | replay/replay.go:92-112 | the sentinel consumes its header and length only, whatever length it declares |
| Replay.MessagesShape | replay/replay.go:52-69 | after the header, the replay keeps the settings and the messages MessagesAt reads; a finished replay ends them with the sentinel and has an end chunk; a partial one comes from a parser panic and has neither; a crash is an index panic |
| Replay.HeaderShape | replay/replay.go:35-69 | a finished or partial replay has settings of version 2 |
| Replay.DoneShape | replay/replay.go:27-69 | a finished replay opens with the magic, has settings of version 2, its last message is REPLAY_ENDED, and it has its end chunk |
| Replay.PartialShape | replay/replay.go:45-50 | a partial replay comes only from a recovered parser panic; it has no end chunk and no REPLAY_ENDED message |
| Replay.CrashShape | replay/replay.go:45-50 | only a runtime panic escapes ReadReplay |
| Replay.ReadUBE32 | wznet/wzbytes.go:38-41 | the reader moves onto the bytes UBE32At leaves |
| Replay.ReadBytes | wznet/wzbytes.go:9-25 | the reader moves onto the bytes BytesAt leaves |
| Replay.ReadU32 | wznet/wzbytes.go:69-80 | the reader moves onto the bytes VarintAt leaves |
| Replay.ReadFull | replay/replay.go:94-98 | the reader moves as FullAt says |
| Replay.ReadMagic | replay/replay.go:153-163 | the method reads and moves as MagicAt says |
| Replay.ReadSettings | replay/replay.go:133-151 | the method reads and moves as SettingsAt says |
| Replay.ReadEmbeddedMap | replay/replay.go:114-131 | the method reads and moves as EmbeddedMapAt says |
| Replay.ReadNetMessage | replay/replay.go:92-112 | the method reads and moves as NetMessageAt says |
| Replay.ParseLimited | replay/replay.go:107 | the parser runs on a sub-reader over the window, and the shared reader moves by what it consumed |
| Replay.ParseWith | packet/game.go:19-31 | the reader moves as the packet parser says |
| Replay.ReadEndChunk | replay/replay.go:71-85 | the method reads and moves as EndChunkAt says |
| Replay.ReadReplay | replay/replay.go:27-69 | the outcome is ReplayAt on the input |
| Replay.ReadMessagesThen | replay/replay.go:52-69 | the loop and the end chunk give MessagesThen on the bytes after the header |
| DumperStat.BelowIrreflexive | replay-dumper/stat.go:44 | no key sorts before itself |
| DumperStat.BelowTransitive | replay-dumper/stat.go:44 | the order of sort.Strings is transitive |
| DumperStat.BelowTotal | replay-dumper/stat.go:44 | any two different keys are ordered one way |
| DumperStat.BelowAsymmetric | replay-dumper/stat.go:44 | never both ways |
| DumperStat.Insert | replay-dumper/stat.go:44 | inserting adds exactly the one element |
| DumperStat.SortStrings | replay-dumper/stat.go:44 | the result is ascending and a permutation of the input |
| DumperStat.InsertAscending | replay-dumper/stat.go:44 | inserting into an ascending list keeps it ascending |
| DumperStat.AscendingUnique | replay-dumper/stat.go:44 | two strictly ascending lists with the same elements are equal |
| DumperStat.DistinctPermutation | replay-dumper/stat.go:40-44 | sorting keeps distinct keys distinct and keeps the same set |
| DumperStat.KeyOrder | replay-dumper/stat.go:40-44 | the map's keys, strictly ascending, one per entry |
| DumperStat.SortedKeysInOrder | replay-dumper/stat.go:40-44 | sorting the keys collected in any map order gives KeyOrder |
| DumperStat.ValuesByKey | replay-dumper/stat.go:45-48 | one value per entry |
| DumperStat.ValuesByKeyRank | replay-dumper/stat.go:40-49 | index i holds the entry whose key has exactly i smaller keys |
| DumperStat.ValuesListed | replay-dumper/stat.go:45-48 | the values looked up along KeyOrder are ValuesByKey |
| DumperStat.MapKeys | replay-dumper/stat.go:40-43 | the loop collects each key of the map once |
| DumperStat.ValuesOf | replay-dumper/stat.go:45-48 | the loop collects r[k] for each sorted key, in order |
| DumperStat.StatTables.constructor | replay-dumper/stat.go:13-23 | every table starts empty |
| DumperStat.StatTables.Put | replay-dumper/stat.go:49 | the one table is replaced and the others are unchanged |
| DumperStat.StatTables.LoadDefaultData | replay-dumper/stat.go:30-50 | on an error the tables are untouched and the error is returned; otherwise the table becomes the values in key order and the others are unchanged |
| DumperStat.IsOf | replay-dumper/stat.go:113-120 | true exactly when v equals some element of the list |
| DumperStat.CheckDroidIllegal | replay-dumper/stat.go:122-130 | "Ba Ba prop" exactly for BaBa propulsion; "Cyborg with wrong body" exactly for other CyborgLegs droids without a cyborg body; "" otherwise |
| DumperStat.IdAt | replay-dumper/stat.go:138-152 | the table entry's id for an index inside the table, "" past its end |
| DumperStat.Tables.TypifyDroid | replay-dumper/stat.go:132-154 | name, id and type copied; body, propulsion, repair unit, ECM and sensor resolved through their tables; brain and construct always "" |
| DumperStat.Tables.RefToStructName | replay-dumper/stat.go:156-166 | "notastructure" unless the reference masks to STAT_STRUCTURE, "overflow" past the table's end, otherwise that entry's name |
| DumperStat.Tables.StructIndexAgrees | replay-dumper/stat.go:156-166 | the structure index used is the one RefToComponent computes |
| Dumper.Noerr | replay-dumper/errhandle.go:24-30 | a value passes through, and an error ends the program carrying it |
| Dumper.MagicAccepts | replay-dumper/main.go:459-468 | the dumper goes on exactly when the input starts with 'W','Z','r','p', and every other input ends the program |
| Dumper.ReadMagic | replay-dumper/main.go:459-468 | the method reads and moves as MagicAt says |
| Dumper.EmbeddedMapAnyVersion | replay-dumper/main.go:414-418 | the version is only logged: any four bytes there give the same result |
| Dumper.EmbeddedMapAsReplay | replay-dumper/main.go:414-429 | where the replay package reads the blob the dumper reads the same; the dumper also reads it with a version other than 1 |
| Dumper.ReadEmbeddedMap | replay-dumper/main.go:414-429 | the method reads and moves as EmbeddedMapAt says |
| Dumper.SettingsAsReplay | replay-dumper/main.go:431-437 | the dumper accepts every settings block the replay package accepts, and also those whose format version is not 2 |
| Dumper.PadAfterSnoc | replay-dumper/main.go:447-455 | one more player raises the pad to its name length when allocated and longer |
| Dumper.PadIsMaximum | replay-dumper/main.go:447-455 | namePadLength ends as the maximum of its old value and the name lengths of the allocated players |
| Dumper.Add | replay-dumper/main.go:184-196 | the counter map gains the key, that key's count grows by d, and every other key is unchanged |
| Dumper.HeaderAt | replay-dumper/main.go:159-174 | sender byte, type byte and a varint length; it fails, fatally with EOF, exactly when these bytes are not there |
| Dumper.FrameAt | replay-dumper/main.go:159-183 | REPLAY_ENDED ends right after its length; any other message carries exactly l payload bytes; every frame consumes at least one byte |
| Dumper.Print | replay-dumper/main.go:197-201 | printing looks the sender up in netPlayPlayers, and a sender past its end is an index panic |
| Dumper.Built | replay-dumper/main.go:230-287 | only a manufactured AutoRepair droid changes the tally: it records the current game time under the sender's name unless the name already has one; printing for an unknown sender is an index panic |
| Dumper.Handle | replay-dumper/main.go:202-398 | an unregistered code changes nothing; the counters stay; recorded AutoRepair times are kept; only GAME_GAME_TIME sets the game time, to the one its payload carries, and a bad payload there ends the program; no message but GAME_STRUCTUREINFO changes the AutoRepair times, and that one is fatal when its payload does not decode and otherwise does what Built says |
| Dumper.HandlerOf | replay-dumper/main.go:202-398 | the switch under given flags, players and tables is a handler |
| Dumper.Step | replay-dumper/main.go:184-399 | one message adds one to total, its length to netsizes and one to netcounts under its type name, keeps the AutoRepair times, and changes the game time only for GAME_GAME_TIME |
| Dumper.MessagesTurn | replay-dumper/main.go:159-399 | one turn of the loop on a message that is not the sentinel |
| Dumper.StepIs | replay-dumper/main.go:184-399 | the counters are updated before the switch, and total after it |
| Dumper.LoopStops | replay-dumper/main.go:159-182 | a bad header ends the program; REPLAY_ENDED ends the loop with the variables as they are |
| Dumper.LoopTurns | replay-dumper/main.go:184-399 | the switch's error ends the loop; otherwise the loop goes on from the next message with total one more than before the message |
| Dumper.Framed | replay-dumper/main.go:159-183 | a loop that ends normally has framed the input into messages, and its result depends on that framing alone |
| Dumper.TurnsCount | replay-dumper/main.go:184-199 | total and netcounts grow by the number of messages of each name, and netcounts gains a key exactly for the names that occur |
| Dumper.TurnsSize | replay-dumper/main.go:184-190 | netsizes grows by the declared lengths of the messages of each name, with a key exactly for the names that occur |
| Dumper.StepAutoRepair | replay-dumper/main.go:273-278 | a turn changes the AutoRepair times only on a decoded AutoRepair manufacture, whose sender is a known player, and then records the current game time under the sender's name unless it already has one |
| Dumper.TurnsSenders | replay-dumper/main.go:159-399 | every AutoRepair manufacture in a run that ends normally comes from a known player |
| Dumper.TurnsRepairKeys | replay-dumper/main.go:159-399 | after a run, a name has an AutoRepair time exactly when it had one before or some frame is an AutoRepair manufacture sent under that name |
| Dumper.TurnsRepairTime | replay-dumper/main.go:159-399 | a name without a time gets the game time in force at its first AutoRepair manufacture, and keeps it to the end |
| Dumper.AutoRepairTallied | replay-dumper/main.go:150-399 | over a whole message stream, the AutoRepair map's keys are exactly the senders of AutoRepair manufactures before REPLAY_ENDED, each with the game time in force at its first one |
| Dumper.TurnsTime | replay-dumper/main.go:208-212 | the game time is the last one carried, and no AutoRepair time is overwritten |
| Dumper.Tallied | replay-dumper/main.go:150-400 | after a normal end, total counts the messages before the sentinel, netcounts and netsizes count them and sum their lengths per type name with a key exactly for the names that occur, and gameTime is the last game time carried |
| Dumper.CountersIgnoreDecoding | replay-dumper/main.go:183-205 | the counters depend on the bytes alone: any flags, players and tables give the same counts when the loop ends normally |
| Dumper.UnknownCounted | replay-dumper/main.go:184-204 | a code without a registry entry is counted under "" and changes nothing else |
| Dumper.SentinelStops | replay-dumper/main.go:179-182 | REPLAY_ENDED ends the loop right after its length; nothing after it is read or counted |
| Dumper.DumpAt | replay-dumper/main.go:84-94 | the dump only gets past its first stage on input that starts with the magic |
| Dumper.Dumper.constructor | replay-dumper/main.go:51-52 | namePadLength starts at 2 and netPlayPlayers empty |
| Dumper.Dumper.ReadSettings | replay-dumper/main.go:431-457 | reads as SettingsAt says; on success netPlayPlayers is the settings' players and namePadLength is raised as PadAfter says; on failure both are unchanged |
| Dumper.Dumper.HandleMessage | replay-dumper/main.go:202-398 | the switch computes Handle with the current players |
| Dumper.Dumper.BuiltMessage | replay-dumper/main.go:230-287 | the structure-info branch computes Built with the current players |
| Dumper.Dumper.ReadHeader | replay-dumper/main.go:160-174 | the header loop reads and moves as HeaderAt says |
| Dumper.Dumper.HandleWith | replay-dumper/main.go:202-398 | the switch leaves everything but the game time and the AutoRepair times as it was |
| Dumper.Dumper.ReadFrame | replay-dumper/main.go:159-183 | the method reads and moves as FrameAt says |
| Dumper.Dumper.NextMessage | replay-dumper/main.go:159-399 | one turn of the loop: its error, the sentinel, or the next variables from which the rest of the loop gives the same result |
| Dumper.Dumper.ReadNetMessages | replay-dumper/main.go:150-400 | the loop ends with MessagesFrom on the input from the start values |
| Dumper.Dumper.Dump | replay-dumper/main.go:84-94 | magic, settings, embedded map and messages in that order give DumpAt, and the players and pad are those of the settings |

## Left out

- Logging and output formatting are not modelled: `log`, `spew`, `humanize`, `gameTimeToString`, `PrintNShort`, the contents of `rprint` and the final report of `readNetMessages` (replay-dumper/main.go:401-411). Only the failure that printing can raise is modelled: a sender byte past the end of `netPlayPlayers`.
- Heatmap and image rendering, the map preview fetches and the `clickHeatmap` samples are left out (replay-dumper/main.go:96-145, 311-317). They use floats and external libraries and feed nothing back into the decoding.
- `main`'s flag parsing, HTTP fetch and file reading are left out (replay-dumper/main.go:64-82). The replay bytes, the flags and the stat tables are parameters.
- `loadStatsData` only calls `loadDefaultData` once per table file; its file paths are not modelled. Reading a file and decoding its JSON are the `decoded` parameter of `LoadDefaultData`.
- JSON decoding is a function parameter that returns a record or a refusal. This covers the replay settings, the end chunk, the dumper's settings and the stat tables. Go's `encoding/json` behaviour is not modelled.
- Dumper.Dumper.ReadSettings: the identity hashing of allocated players (sha256 and base64) is not modelled (replay-dumper/main.go:449). Neither are the failures it can raise: an invalid base64 identity and fewer `Multistats` than players both end the program. `mapHash` and `replayOptions` are only used by the heatmap and are not modelled.
- The counters `netsizes` and `netcounts` are uint64 in Go and `total` is an int. They are modelled as unbounded naturals, because wrapping them would need more than 2^63 messages.
- The `!success` branch of `readNetMessages` is not modelled (replay-dumper/main.go:175-178). A failed `ReadByte` has already ended the program through `noerr2`, so the branch cannot run.
- Player names in the settings are modelled as their UTF-8 bytes, the unit Go's `len` counts. Droid names are the UTF-16 code units that `NETstring` reads.
- `NETstring`'s definition is not part of this model. `WzBytes.StringAt` follows the game protocol's string layout: a U32v count, then that many big-endian u16 code units.
- The `String()` methods of `DroidOrderSybType` and `DORDER` are not part of this model. The dumper only prints their results.
- `GIFT_TYPE` is read as a plain byte. Its constants are not stated (wznet/wzconstants.go:279-288).
- The dumper's unparsed-bytes check after a research status is not modelled (replay-dumper/main.go:387-390). It only logs. The research topic name lookup is not modelled either (replay-dumper/main.go:371-375), because it only feeds output.
- Reader behaviour beyond an in-memory buffer is not modelled: partial reads that stop before the data runs out, and reader errors other than EOF.
- The encoders in `PacketCodec` (`Put*`, `Encode`) are not part of the program. They exist to state the round trips.
- Dumper.Handle: the dumper's decoding of its DROIDINFO and RESEARCHSTATUS payloads is modelled by the same specification functions as the `packet` package. This is valid because the dumper's reads at replay-dumper/main.go:288-390 follow the same layouts.
