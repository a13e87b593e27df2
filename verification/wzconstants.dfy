/** The message-type registry and the protocol constants (wznet/wzconstants.go).

    Go's iota blocks are modelled as the list of their names in declaration
    order: the i-th name of a block has the block's first value plus i. */
module WzConstants {
  import opened WzBytes

  // ---------------------------------------------------------------------
  // Message type codes
  // ---------------------------------------------------------------------

  /** The NET_ block: NET_MIN_TYPE is 33, each following name one more. */
  const NetTypeNames: seq<string> := [
    "NET_MIN_TYPE", "NET_PING", "NET_PLAYER_STATS", "NET_TEXTMSG", "NET_PLAYERRESPONDING",
    "NET_OPTIONS", "NET_KICK", "NET_FIREUP", "NET_COLOURREQUEST", "NET_FACTIONREQUEST",
    "NET_AITEXTMSG", "NET_BEACONMSG", "NET_TEAMREQUEST", "NET_JOIN", "NET_ACCEPTED",
    "NET_PLAYER_INFO", "NET_PLAYER_JOINED", "NET_PLAYER_LEAVING", "NET_PLAYER_DROPPED",
    "NET_GAME_FLAGS", "NET_READY_REQUEST", "NET_REJECTED", "NET_POSITIONREQUEST", "NET_DATA_CHECK",
    "NET_HOST_DROPPED", "NET_SEND_TO_PLAYER", "NET_SHARE_GAME_QUEUE", "NET_FILE_REQUESTED",
    "NET_FILE_CANCELLED", "NET_FILE_PAYLOAD", "NET_DEBUG_SYNC", "NET_VOTE", "NET_VOTE_REQUEST",
    "NET_SPECTEXTMSG", "NET_PLAYERNAME_CHANGEREQUEST", "NET_PLAYER_SLOTTYPE_REQUEST",
    "NET_PLAYER_SWAP_INDEX", "NET_PLAYER_SWAP_INDEX_ACK", "NET_DATA_CHECK2", "NET_MAX_TYPE"
  ]

  const NET_MIN_TYPE: byte := 33
  const NET_MAX_TYPE: byte := 72

  /** The GAME_ block: GAME_MIN_TYPE is 111, each following name one more,
      up to REPLAY_ENDED (133). */
  const GameTypeNames: seq<string> := [
    "GAME_MIN_TYPE", "GAME_DROIDINFO", "GAME_STRUCTUREINFO", "GAME_RESEARCHSTATUS",
    "GAME_TEMPLATE", "GAME_TEMPLATEDEST", "GAME_ALLIANCE", "GAME_GIFT", "GAME_LASSAT",
    "GAME_GAME_TIME", "GAME_PLAYER_LEFT", "GAME_DROIDDISEMBARK", "GAME_SYNC_REQUEST",
    "GAME_DEBUG_MODE", "GAME_DEBUG_ADD_DROID", "GAME_DEBUG_ADD_STRUCTURE",
    "GAME_DEBUG_ADD_FEATURE", "GAME_DEBUG_REMOVE_DROID", "GAME_DEBUG_REMOVE_STRUCTURE",
    "GAME_DEBUG_REMOVE_FEATURE", "GAME_DEBUG_FINISH_RESEARCH", "GAME_MAX_TYPE", "REPLAY_ENDED"
  ]

  const GAME_MIN_TYPE: byte := 111
  const GAME_DROIDINFO: byte := 112
  const GAME_STRUCTUREINFO: byte := 113
  const GAME_RESEARCHSTATUS: byte := 114
  const GAME_GIFT: byte := 118
  const GAME_LASSAT: byte := 119
  const GAME_GAME_TIME: byte := 120
  const GAME_PLAYER_LEFT: byte := 121
  const GAME_DEBUG_MODE: byte := 124
  const GAME_DEBUG_ADD_DROID: byte := 125
  const GAME_DEBUG_ADD_STRUCTURE: byte := 126
  const GAME_DEBUG_ADD_FEATURE: byte := 127
  const GAME_DEBUG_REMOVE_DROID: byte := 128
  const GAME_DEBUG_REMOVE_STRUCTURE: byte := 129
  const GAME_DEBUG_REMOVE_FEATURE: byte := 130
  const GAME_DEBUG_FINISH_RESEARCH: byte := 131
  const GAME_MAX_TYPE: byte := 132
  const REPLAY_ENDED: byte := 133
  /** Given its value explicitly, outside both blocks. */
  const REPLAY_ENDED_2: byte := 255

  /** The codes that have an entry in NetMessageType. */
  predicate InRegistry(c: byte)
  {
    NET_MIN_TYPE <= c <= NET_MAX_TYPE || GAME_MIN_TYPE <= c <= REPLAY_ENDED
  }

  /** The identifier of a registered code, read off its block by position. */
  function CodeName(c: byte): string
    requires InRegistry(c)
  {
    if c <= NET_MAX_TYPE then NetTypeNames[c - NET_MIN_TYPE] else GameTypeNames[c - GAME_MIN_TYPE]
  }

  /** NetMessageType: each code of the two blocks mapped to its constant's identifier. */
  const NetMessageType: map<byte, string> := map c: byte | InRegistry(c) :: CodeName(c)

  /** `NetMessageType[c]` in Go: the name, or "" for a code without an entry. */
  function MessageName(c: byte): (name: string)
    ensures c in NetMessageType ==> name == NetMessageType[c]
    ensures c !in NetMessageType ==> name == ""
  {
    if c in NetMessageType then NetMessageType[c] else ""
  }

  /** The two blocks are contiguous: NET_MIN_TYPE..NET_MAX_TYPE and
      GAME_MIN_TYPE..GAME_MAX_TYPE, with REPLAY_ENDED right after GAME_MAX_TYPE. */
  lemma BlockLayout()
    ensures |NetTypeNames| == NET_MAX_TYPE - NET_MIN_TYPE + 1
    ensures NetTypeNames[0] == "NET_MIN_TYPE" && NetTypeNames[NET_MAX_TYPE - NET_MIN_TYPE] == "NET_MAX_TYPE"
    ensures GameTypeNames[0] == "GAME_MIN_TYPE" && GameTypeNames[GAME_MAX_TYPE - GAME_MIN_TYPE] == "GAME_MAX_TYPE"
    ensures REPLAY_ENDED == GAME_MAX_TYPE + 1 && |GameTypeNames| == REPLAY_ENDED - GAME_MIN_TYPE + 1
    ensures GameTypeNames[REPLAY_ENDED - GAME_MIN_TYPE] == "REPLAY_ENDED"
  {
  }

  /** The codes with a name are exactly 33..72 and 111..133; REPLAY_ENDED_2 has none. */
  lemma RegistryDomain(c: byte)
    ensures c in NetMessageType <==> NET_MIN_TYPE <= c <= NET_MAX_TYPE || GAME_MIN_TYPE <= c <= REPLAY_ENDED
    ensures REPLAY_ENDED_2 !in NetMessageType && MessageName(REPLAY_ENDED_2) == ""
  {
  }

  /** The named codes the decoders use are mapped to their own identifiers. */
  lemma NamedCodes()
    ensures MessageName(GAME_DROIDINFO) == "GAME_DROIDINFO"
    ensures MessageName(GAME_STRUCTUREINFO) == "GAME_STRUCTUREINFO"
    ensures MessageName(GAME_RESEARCHSTATUS) == "GAME_RESEARCHSTATUS"
    ensures MessageName(GAME_GIFT) == "GAME_GIFT"
    ensures MessageName(GAME_LASSAT) == "GAME_LASSAT"
    ensures MessageName(GAME_GAME_TIME) == "GAME_GAME_TIME"
    ensures MessageName(GAME_PLAYER_LEFT) == "GAME_PLAYER_LEFT"
    ensures MessageName(GAME_DEBUG_MODE) == "GAME_DEBUG_MODE"
    ensures MessageName(REPLAY_ENDED) == "REPLAY_ENDED"
  {
    GameCodeName(GAME_DROIDINFO);
    GameCodeName(GAME_STRUCTUREINFO);
    GameCodeName(GAME_RESEARCHSTATUS);
    GameCodeName(GAME_GIFT);
    GameCodeName(GAME_LASSAT);
    GameCodeName(GAME_GAME_TIME);
    GameCodeName(GAME_PLAYER_LEFT);
    GameCodeName(GAME_DEBUG_MODE);
    GameCodeName(REPLAY_ENDED);
  }

  lemma GameCodeName(c: byte)
    requires GAME_MIN_TYPE <= c <= REPLAY_ENDED
    ensures MessageName(c) == GameTypeNames[c - GAME_MIN_TYPE]
  {
    assert InRegistry(c);
  }

  /** Distinct codes have distinct names. */
  lemma NamesDistinct(c1: byte, c2: byte)
    requires c1 in NetMessageType && c2 in NetMessageType && c1 != c2
    ensures NetMessageType[c1] != NetMessageType[c2]
  {
    NetNamesDistinct();
    GameNamesDistinct();
    BlockInitials();
  }

  // The distinctness proof: names from different blocks differ in their
  // first letter; within a block the pairs are checked block by block.

  ghost predicate DistinctBetween(s: seq<string>, lo1: nat, hi1: nat, lo2: nat, hi2: nat)
  {
    forall i, j :: lo1 <= i < hi1 && lo2 <= j < hi2 && i < j && j < |s| ==> s[i] != s[j]
  }

  lemma BlockInitials()
    ensures forall i :: 0 <= i < |NetTypeNames| ==> NetTypeNames[i][0] == 'N'
    ensures forall i :: 0 <= i < |GameTypeNames| ==> GameTypeNames[i][0] in {'G', 'R'}
  {
  }

  lemma NetNamesDistinct()
    ensures forall i, j :: 0 <= i < j < |NetTypeNames| ==> NetTypeNames[i] != NetTypeNames[j]
  {
    NetNamesDistinct0_0();
    NetNamesDistinct0_5();
    NetNamesDistinct0_10();
    NetNamesDistinct0_15();
    NetNamesDistinct0_20();
    NetNamesDistinct0_25();
    NetNamesDistinct0_30();
    NetNamesDistinct0_35();
    NetNamesDistinct5_5();
    NetNamesDistinct5_10();
    NetNamesDistinct5_15();
    NetNamesDistinct5_20();
    NetNamesDistinct5_25();
    NetNamesDistinct5_30();
    NetNamesDistinct5_35();
    NetNamesDistinct10_10();
    NetNamesDistinct10_15();
    NetNamesDistinct10_20();
    NetNamesDistinct10_25();
    NetNamesDistinct10_30();
    NetNamesDistinct10_35();
    NetNamesDistinct15_15();
    NetNamesDistinct15_20();
    NetNamesDistinct15_25();
    NetNamesDistinct15_30();
    NetNamesDistinct15_35();
    NetNamesDistinct20_20();
    NetNamesDistinct20_25();
    NetNamesDistinct20_30();
    NetNamesDistinct20_35();
    NetNamesDistinct25_25();
    NetNamesDistinct25_30();
    NetNamesDistinct25_35();
    NetNamesDistinct30_30();
    NetNamesDistinct30_35();
    NetNamesDistinct35_35();
  }

  lemma GameNamesDistinct()
    ensures forall i, j :: 0 <= i < j < |GameTypeNames| ==> GameTypeNames[i] != GameTypeNames[j]
  {
    GameNamesDistinct0_0();
    GameNamesDistinct0_6();
    GameNamesDistinct0_12();
    GameNamesDistinct0_18();
    GameNamesDistinct6_6();
    GameNamesDistinct6_12();
    GameNamesDistinct6_18();
    GameNamesDistinct12_12();
    GameNamesDistinct12_18();
    GameNamesDistinct18_18();
  }

  lemma NetNamesDistinct0_0()
    ensures DistinctBetween(NetTypeNames, 0, 5, 0, 5)
  {
  }

  lemma NetNamesDistinct0_5()
    ensures DistinctBetween(NetTypeNames, 0, 5, 5, 10)
  {
  }

  lemma NetNamesDistinct0_10()
    ensures DistinctBetween(NetTypeNames, 0, 5, 10, 15)
  {
  }

  lemma NetNamesDistinct0_15()
    ensures DistinctBetween(NetTypeNames, 0, 5, 15, 20)
  {
  }

  lemma NetNamesDistinct0_20()
    ensures DistinctBetween(NetTypeNames, 0, 5, 20, 25)
  {
  }

  lemma NetNamesDistinct0_25()
    ensures DistinctBetween(NetTypeNames, 0, 5, 25, 30)
  {
  }

  lemma NetNamesDistinct0_30()
    ensures DistinctBetween(NetTypeNames, 0, 5, 30, 35)
  {
  }

  lemma NetNamesDistinct0_35()
    ensures DistinctBetween(NetTypeNames, 0, 5, 35, 40)
  {
  }

  lemma NetNamesDistinct5_5()
    ensures DistinctBetween(NetTypeNames, 5, 10, 5, 10)
  {
  }

  lemma NetNamesDistinct5_10()
    ensures DistinctBetween(NetTypeNames, 5, 10, 10, 15)
  {
  }

  lemma NetNamesDistinct5_15()
    ensures DistinctBetween(NetTypeNames, 5, 10, 15, 20)
  {
  }

  lemma NetNamesDistinct5_20()
    ensures DistinctBetween(NetTypeNames, 5, 10, 20, 25)
  {
  }

  lemma NetNamesDistinct5_25()
    ensures DistinctBetween(NetTypeNames, 5, 10, 25, 30)
  {
  }

  lemma NetNamesDistinct5_30()
    ensures DistinctBetween(NetTypeNames, 5, 10, 30, 35)
  {
  }

  lemma NetNamesDistinct5_35()
    ensures DistinctBetween(NetTypeNames, 5, 10, 35, 40)
  {
  }

  lemma NetNamesDistinct10_10()
    ensures DistinctBetween(NetTypeNames, 10, 15, 10, 15)
  {
  }

  lemma NetNamesDistinct10_15()
    ensures DistinctBetween(NetTypeNames, 10, 15, 15, 20)
  {
  }

  lemma NetNamesDistinct10_20()
    ensures DistinctBetween(NetTypeNames, 10, 15, 20, 25)
  {
  }

  lemma NetNamesDistinct10_25()
    ensures DistinctBetween(NetTypeNames, 10, 15, 25, 30)
  {
  }

  lemma NetNamesDistinct10_30()
    ensures DistinctBetween(NetTypeNames, 10, 15, 30, 35)
  {
  }

  lemma NetNamesDistinct10_35()
    ensures DistinctBetween(NetTypeNames, 10, 15, 35, 40)
  {
  }

  lemma NetNamesDistinct15_15()
    ensures DistinctBetween(NetTypeNames, 15, 20, 15, 20)
  {
  }

  lemma NetNamesDistinct15_20()
    ensures DistinctBetween(NetTypeNames, 15, 20, 20, 25)
  {
  }

  lemma NetNamesDistinct15_25()
    ensures DistinctBetween(NetTypeNames, 15, 20, 25, 30)
  {
  }

  lemma NetNamesDistinct15_30()
    ensures DistinctBetween(NetTypeNames, 15, 20, 30, 35)
  {
  }

  lemma NetNamesDistinct15_35()
    ensures DistinctBetween(NetTypeNames, 15, 20, 35, 40)
  {
  }

  lemma NetNamesDistinct20_20()
    ensures DistinctBetween(NetTypeNames, 20, 25, 20, 25)
  {
  }

  lemma NetNamesDistinct20_25()
    ensures DistinctBetween(NetTypeNames, 20, 25, 25, 30)
  {
  }

  lemma NetNamesDistinct20_30()
    ensures DistinctBetween(NetTypeNames, 20, 25, 30, 35)
  {
  }

  lemma NetNamesDistinct20_35()
    ensures DistinctBetween(NetTypeNames, 20, 25, 35, 40)
  {
  }

  lemma NetNamesDistinct25_25()
    ensures DistinctBetween(NetTypeNames, 25, 30, 25, 30)
  {
  }

  lemma NetNamesDistinct25_30()
    ensures DistinctBetween(NetTypeNames, 25, 30, 30, 35)
  {
  }

  lemma NetNamesDistinct25_35()
    ensures DistinctBetween(NetTypeNames, 25, 30, 35, 40)
  {
  }

  lemma NetNamesDistinct30_30()
    ensures DistinctBetween(NetTypeNames, 30, 35, 30, 35)
  {
  }

  lemma NetNamesDistinct30_35()
    ensures DistinctBetween(NetTypeNames, 30, 35, 35, 40)
  {
  }

  lemma NetNamesDistinct35_35()
    ensures DistinctBetween(NetTypeNames, 35, 40, 35, 40)
  {
  }

  lemma GameNamesDistinct0_0()
    ensures DistinctBetween(GameTypeNames, 0, 6, 0, 6)
  {
  }

  lemma GameNamesDistinct0_6()
    ensures DistinctBetween(GameTypeNames, 0, 6, 6, 12)
  {
  }

  lemma GameNamesDistinct0_12()
    ensures DistinctBetween(GameTypeNames, 0, 6, 12, 18)
  {
  }

  lemma GameNamesDistinct0_18()
    ensures DistinctBetween(GameTypeNames, 0, 6, 18, 23)
  {
  }

  lemma GameNamesDistinct6_6()
    ensures DistinctBetween(GameTypeNames, 6, 12, 6, 12)
  {
  }

  lemma GameNamesDistinct6_12()
    ensures DistinctBetween(GameTypeNames, 6, 12, 12, 18)
  {
  }

  lemma GameNamesDistinct6_18()
    ensures DistinctBetween(GameTypeNames, 6, 12, 18, 23)
  {
  }

  lemma GameNamesDistinct12_12()
    ensures DistinctBetween(GameTypeNames, 12, 18, 12, 18)
  {
  }

  lemma GameNamesDistinct12_18()
    ensures DistinctBetween(GameTypeNames, 12, 18, 18, 23)
  {
  }

  lemma GameNamesDistinct18_18()
    ensures DistinctBetween(GameTypeNames, 18, 23, 18, 23)
  {
  }

  // ---------------------------------------------------------------------
  // Droid orders
  // ---------------------------------------------------------------------

  /** DroidOrderSybType: how a droid-order message names its target. */
  const DroidOrderSybTypeObj: u32 := 0
  const DroidOrderSybTypeLoc: u32 := 1
  const DroidOrderSybTypeSec: u32 := 2

  /** The DORDER block in declaration order. */
  const DorderNames: seq<string> := [
    "DORDER_NONE", "DORDER_STOP", "DORDER_MOVE", "DORDER_ATTACK", "DORDER_BUILD",
    "DORDER_HELPBUILD", "DORDER_LINEBUILD", "DORDER_DEMOLISH", "DORDER_REPAIR", "DORDER_OBSERVE",
    "DORDER_FIRESUPPORT", "DORDER_UNUSED_4", "DORDER_UNUSED_2", "DORDER_RTB", "DORDER_RTR",
    "DORDER_UNUSED_5", "DORDER_EMBARK", "DORDER_DISEMBARK", "DORDER_ATTACKTARGET",
    "DORDER_COMMANDERSUPPORT", "DORDER_BUILDMODULE", "DORDER_RECYCLE", "DORDER_TRANSPORTOUT",
    "DORDER_TRANSPORTIN", "DORDER_TRANSPORTRETURN", "DORDER_GUARD", "DORDER_DROIDREPAIR",
    "DORDER_RESTORE", "DORDER_SCOUT", "DORDER_UNUSED_3", "DORDER_UNUSED", "DORDER_PATROL",
    "DORDER_REARM", "DORDER_RECOVER", "DORDER_UNUSED_6", "DORDER_RTR_SPECIFIED", "DORDER_CIRCLE",
    "DORDER_HOLD"
  ]

  /** The value of the i-th DORDER declaration: iota up to DORDER_RTR_SPECIFIED;
      DORDER_CIRCLE is set to 40 explicitly and DORDER_HOLD, declared without
      a value, repeats that expression, so it is 40 as well. */
  function DorderValue(i: nat): (v: u32)
    requires i < |DorderNames|
    ensures i < 36 ==> v == i
    ensures i >= 36 ==> v == 40
  {
    if i < 36 then i else 40
  }

  const DORDER_NONE: u32 := 0
  const DORDER_STOP: u32 := 1
  const DORDER_MOVE: u32 := 2
  const DORDER_ATTACK: u32 := 3
  const DORDER_BUILD: u32 := 4
  const DORDER_HELPBUILD: u32 := 5
  const DORDER_LINEBUILD: u32 := 6
  const DORDER_DEMOLISH: u32 := 7
  const DORDER_REPAIR: u32 := 8
  const DORDER_OBSERVE: u32 := 9
  const DORDER_FIRESUPPORT: u32 := 10
  const DORDER_UNUSED_4: u32 := 11
  const DORDER_UNUSED_2: u32 := 12
  const DORDER_RTB: u32 := 13
  const DORDER_RTR: u32 := 14
  const DORDER_UNUSED_5: u32 := 15
  const DORDER_EMBARK: u32 := 16
  const DORDER_DISEMBARK: u32 := 17
  const DORDER_ATTACKTARGET: u32 := 18
  const DORDER_COMMANDERSUPPORT: u32 := 19
  const DORDER_BUILDMODULE: u32 := 20
  const DORDER_RECYCLE: u32 := 21
  const DORDER_TRANSPORTOUT: u32 := 22
  const DORDER_TRANSPORTIN: u32 := 23
  const DORDER_TRANSPORTRETURN: u32 := 24
  const DORDER_GUARD: u32 := 25
  const DORDER_DROIDREPAIR: u32 := 26
  const DORDER_RESTORE: u32 := 27
  const DORDER_SCOUT: u32 := 28
  const DORDER_UNUSED_3: u32 := 29
  const DORDER_UNUSED: u32 := 30
  const DORDER_PATROL: u32 := 31
  const DORDER_REARM: u32 := 32
  const DORDER_RECOVER: u32 := 33
  const DORDER_UNUSED_6: u32 := 34
  const DORDER_RTR_SPECIFIED: u32 := 35
  const DORDER_CIRCLE: u32 := 40
  const DORDER_HOLD: u32 := 40

  /** The only two DORDER declarations with the same value are DORDER_CIRCLE and DORDER_HOLD. */
  lemma DorderSharedValue(i: nat, j: nat)
    requires i < j < |DorderNames|
    ensures DorderValue(i) == DorderValue(j) <==> i == 36 && j == 37
    ensures DorderNames[36] == "DORDER_CIRCLE" && DorderNames[37] == "DORDER_HOLD"
  {
  }

  /** The orders the droid-order decoder tests, by name and value. */
  lemma DorderNamedValues()
    ensures DorderNames[4] == "DORDER_BUILD" && DORDER_BUILD == DorderValue(4) == 4
    ensures DorderNames[6] == "DORDER_LINEBUILD" && DORDER_LINEBUILD == DorderValue(6) == 6
    ensures DorderNames[20] == "DORDER_BUILDMODULE" && DORDER_BUILDMODULE == DorderValue(20) == 20
    ensures DORDER_CIRCLE == DORDER_HOLD == 40
  {
  }

  // ---------------------------------------------------------------------
  // Stat references
  // ---------------------------------------------------------------------

  const STAT_BODY: u32 := 0x010000
  const STAT_BRAIN: u32 := 0x020000
  const STAT_PROPULSION: u32 := 0x040000
  const STAT_SENSOR: u32 := 0x050000
  const STAT_ECM: u32 := 0x060000
  const STAT_REPAIR: u32 := 0x080000
  const STAT_WEAPON: u32 := 0x0a0000
  const STAT_RESEARCH: u32 := 0x0b0000
  const STAT_TEMPLATE: u32 := 0x0c0000
  const STAT_STRUCTURE: u32 := 0x0d0000
  const STAT_FUNCTION: u32 := 0x0e0000
  const STAT_CONSTRUCT: u32 := 0x0f0000
  const STAT_FEATURE: u32 := 0x100000
  const STAT_MASK: u32 := 0xffff0000

  /** The STAT_ tags in declaration order. */
  const StatTags: seq<u32> := [STAT_BODY, STAT_BRAIN, STAT_PROPULSION, STAT_SENSOR, STAT_ECM,
    STAT_REPAIR, STAT_WEAPON, STAT_RESEARCH, STAT_TEMPLATE, STAT_STRUCTURE, STAT_FUNCTION,
    STAT_CONSTRUCT, STAT_FEATURE]

  /** `ref & STAT_MASK`: the high 16 bits of `ref`, low 16 bits cleared. */
  function Masked(ref: u32): (r: u32)
    ensures r % 0x1_0000 == 0 && r <= ref < r + 0x1_0000
  {
    ref / 0x1_0000 * 0x1_0000
  }

  /** Every tag has zero low 16 bits, and the high halves strictly increase,
      so no two tags share a high half. */
  lemma StatTagsShape()
    ensures forall i :: 0 <= i < |StatTags| ==> StatTags[i] % 0x1_0000 == 0 && Masked(StatTags[i]) == StatTags[i]
    ensures forall i, j :: 0 <= i < j < |StatTags| ==> StatTags[i] / 0x1_0000 < StatTags[j] / 0x1_0000
  {
  }

  /** A reference carries a tag exactly when it lies in the tag's 64K block. */
  lemma MaskedIsTag(ref: u32, tag: u32)
    requires tag % 0x1_0000 == 0
    ensures Masked(ref) == tag <==> tag <= ref < tag + 0x1_0000
  {
    var h := ref / 0x1_0000;
    assert Masked(ref) == h * 0x1_0000;
    if tag <= ref < tag + 0x1_0000 {
      assert h == tag / 0x1_0000;
    }
  }

  // ---------------------------------------------------------------------
  // Structure-info actions
  // ---------------------------------------------------------------------

  const STRUCTUREINFO_MANUFACTURE: byte := 0
  const STRUCTUREINFO_CANCELPRODUCTION: byte := 1
  const STRUCTUREINFO_HOLDPRODUCTION: byte := 2
  const STRUCTUREINFO_RELEASEPRODUCTION: byte := 3
  const STRUCTUREINFO_HOLDRESEARCH: byte := 4
  const STRUCTUREINFO_RELEASERESEARCH: byte := 5
}
