/** DROID_SECONDARY_STATE and its generated String method
    (wznet/wzconstants.go, wznet/droid_secondary_state_string.go). */
module DroidSecondaryState {
  import opened WzBytes

  // The DSS_ constants in declaration order.
  const DSS_NONE: u32 := 0x000000
  const DSS_ARANGE_SHORT: u32 := 0x000001
  const DSS_ARANGE_LONG: u32 := 0x000002
  const DSS_ARANGE_OPTIMUM: u32 := 0x000003
  const DSS_REPLEV_LOW: u32 := 0x000004
  const DSS_REPLEV_HIGH: u32 := 0x000008
  const DSS_REPLEV_NEVER: u32 := 0x00000c
  const DSS_ALEV_ALWAYS: u32 := 0x000010
  const DSS_ALEV_ATTACKED: u32 := 0x000020
  const DSS_ALEV_NEVER: u32 := 0x000030
  const DSS_HALT_HOLD: u32 := 0x000040
  const DSS_HALT_GUARD: u32 := 0x000080
  const DSS_HALT_PURSUE: u32 := 0x0000c0
  const DSS_RECYCLE_SET: u32 := 0x000100
  const DSS_ASSPROD_START: u32 := 0x000200
  const DSS_ACCREP_SET: u32 := 0x000400
  const DSS_ASSPROD_MID: u32 := 0x002000
  const DSS_ASSPROD_END: u32 := 0x040000
  const DSS_RTL_REPAIR: u32 := 0x080000
  const DSS_RTL_BASE: u32 := 0x100000
  const DSS_RTL_TRANSPORT: u32 := 0x200000
  const DSS_PATROL_SET: u32 := 0x400000
  const DSS_CIRCLE_SET: u32 := 0x400100
  const DSS_FIREDES_SET: u32 := 0x800000

  /** The identifiers of the DSS_ constants, in declaration order. */
  const DssNames: seq<string> := [
    "DSS_NONE", "DSS_ARANGE_SHORT", "DSS_ARANGE_LONG", "DSS_ARANGE_OPTIMUM", "DSS_REPLEV_LOW",
    "DSS_REPLEV_HIGH", "DSS_REPLEV_NEVER", "DSS_ALEV_ALWAYS", "DSS_ALEV_ATTACKED", "DSS_ALEV_NEVER",
    "DSS_HALT_HOLD", "DSS_HALT_GUARD", "DSS_HALT_PURSUE", "DSS_RECYCLE_SET", "DSS_ASSPROD_START",
    "DSS_ACCREP_SET", "DSS_ASSPROD_MID", "DSS_ASSPROD_END", "DSS_RTL_REPAIR", "DSS_RTL_BASE",
    "DSS_RTL_TRANSPORT", "DSS_PATROL_SET", "DSS_CIRCLE_SET", "DSS_FIREDES_SET"
  ]

  /** The values of the DSS_ constants, in the same order. */
  const DssValues: seq<u32> := [
    DSS_NONE, DSS_ARANGE_SHORT, DSS_ARANGE_LONG, DSS_ARANGE_OPTIMUM, DSS_REPLEV_LOW,
    DSS_REPLEV_HIGH, DSS_REPLEV_NEVER, DSS_ALEV_ALWAYS, DSS_ALEV_ATTACKED, DSS_ALEV_NEVER,
    DSS_HALT_HOLD, DSS_HALT_GUARD, DSS_HALT_PURSUE, DSS_RECYCLE_SET, DSS_ASSPROD_START,
    DSS_ACCREP_SET, DSS_ASSPROD_MID, DSS_ASSPROD_END, DSS_RTL_REPAIR, DSS_RTL_BASE,
    DSS_RTL_TRANSPORT, DSS_PATROL_SET, DSS_CIRCLE_SET, DSS_FIREDES_SET
  ]

  /** `_DROID_SECONDARY_STATE_name`: the 24 identifiers written back to back,
      352 characters in all. */
  const StateName: string := Concat(Pieces)

  /** All of DssNames; taken as a full-length prefix so that the solver does
      not evaluate `Concat` on the literal eagerly. */
  const Pieces: seq<string> := DssNames[..|DssNames|]

  /** The keys of `_DROID_SECONDARY_STATE_map`, as numeric literals, in order. */
  const Keys: seq<u32> := [
    0, 1, 2, 3, 4, 8, 12, 16, 32, 48, 64, 128, 192, 256, 512, 1024, 8192, 262144, 524288, 1048576,
    2097152, 4194304, 4194560, 8388608
  ]

  /** The slice bounds of the map's entries: key `Keys[k]` maps to
      `StateName[Bounds[k]..Bounds[k + 1]]`. */
  const Bounds: seq<nat> := [
    0, 8, 24, 39, 57, 71, 86, 102, 117, 134, 148, 161, 175, 190, 205, 222, 236, 251, 266, 280, 292,
    309, 323, 337, 352
  ]

  /** The sum of the lengths of the pieces. */
  function TotalLength(ss: seq<string>): nat
  {
    if ss == [] then 0 else |ss[0]| + TotalLength(ss[1..])
  }

  /** The pieces joined in order: as long as all of them together, and
      starting with the first. */
  function Concat(ss: seq<string>): (r: string)
    ensures |r| == TotalLength(ss)
    ensures |ss| > 0 ==> |ss[0]| <= |r| && r[..|ss[0]|] == ss[0]
  {
    if ss == [] then "" else ss[0] + Concat(ss[1..])
  }

  /** `_DROID_SECONDARY_STATE_map`. */
  function StateMap(): (m: map<u32, string>)
    ensures forall i :: i in m <==> i in Keys
  {
    map i | i in Keys :: Entry(IndexOf(Keys, i))
  }

  /** The name string's slice for the k-th key. */
  function Entry(k: nat): (s: string)
    requires k < |Keys|
    ensures |s| == Bounds[k + 1] - Bounds[k]
  {
    BoundsFit();
    StateName[Bounds[k]..Bounds[k + 1]]
  }

  /** The position of `i` in `xs`, the first if it occurs more than once. */
  function IndexOf(xs: seq<u32>, i: u32): (k: nat)
    requires i in xs
    ensures k < |xs| && xs[k] == i
  {
    if xs[0] == i then 0 else 1 + IndexOf(xs[1..], i)
  }

  /** `DROID_SECONDARY_STATE.String`: the mapped name, or the value in decimal
      inside "DROID_SECONDARY_STATE(" and ")". */
  function String(i: u32): (s: string)
    ensures i !in Keys ==> s == "DROID_SECONDARY_STATE(" + Decimal(i) + ")"
  {
    var m := StateMap();
    if i in m then m[i] else "DROID_SECONDARY_STATE(" + Decimal(i) + ")"
  }

  // ---------------------------------------------------------------------
  // The name table
  // ---------------------------------------------------------------------

  /** The map's keys are the values of the same-named constants. */
  lemma KeysAreConstants()
    ensures Keys == DssValues
  {
  }

  /** The bounds run from 0 to the end of the name string, each entry starting
      where the previous one ends, and cut out exactly the constants' identifiers. */
  lemma BoundsPartition()
    ensures |Bounds| == |DssNames| + 1 && Bounds[0] == 0 && Bounds[|DssNames|] == |StateName| == 352
    ensures forall k :: 0 <= k < |DssNames| ==>
      Bounds[k] + |DssNames[k]| == Bounds[k + 1] && Bounds[k] + |DssNames[k]| <= |StateName|
    ensures forall k :: 0 <= k < |DssNames| ==> StateName[Bounds[k]..Bounds[k + 1]] == DssNames[k]
  {
    BoundsCutNames();
    CutsPartition(Bounds, Pieces);
  }

  /** Each value of a DSS_ constant is printed as the constant's identifier. */
  lemma StringOfConstant(k: nat)
    requires k < |DssValues|
    ensures String(DssValues[k]) == DssNames[k]
  {
    KeysAreConstants();
    StateMapEntry(k);
    BoundsPartition();
  }

  /** The entry for the k-th key is the k-th slice. */
  lemma StateMapEntry(k: nat)
    requires k < |Keys|
    ensures Bounds[k] <= Bounds[k + 1] <= |StateName|
    ensures Keys[k] in StateMap() && StateMap()[Keys[k]] == StateName[Bounds[k]..Bounds[k + 1]]
  {
    BoundsFit();
    KeysIncrease();
    var j := IndexOf(Keys, Keys[k]);
    assert j == k;
  }

  /** Any other value is printed as its decimal inside the type's name, and
      the decimal reads back as the value. */
  lemma StringOfOther(i: u32)
    requires i !in DssValues
    ensures String(i) == "DROID_SECONDARY_STATE(" + Decimal(i) + ")"
    ensures ParseDecimal(Decimal(i)) == i
  {
    DecimalRoundTrip(i);
  }

  lemma StringExampleNone()
    ensures String(0) == "DSS_NONE"
  {
    StringOfConstant(0);
  }

  lemma StringExampleCircle()
    ensures String(4194560) == "DSS_CIRCLE_SET"
  {
    StringOfConstant(22);
  }

  lemma StringExampleOther()
    ensures String(5) == "DROID_SECONDARY_STATE(" + "5" + ")"
  {
    var five := Decimal(5);
    assert five == "5";
    assert 5 !in Keys;
    assert String(5) == "DROID_SECONDARY_STATE(" + five + ")";
  }

  // Helpers for the proofs above.

  lemma KeysIncrease()
    ensures |Keys| == |DssNames|
    ensures forall j, k :: 0 <= j < k < |Keys| ==> Keys[j] < Keys[k]
  {
    var ks := Keys;
    KeysSteps();
    forall j, k | 0 <= j < k < |ks|
      ensures ks[j] < ks[k]
    {
      StepsIncrease(ks, j, k);
    }
  }

  lemma KeysSteps()
    ensures |Keys| == |DssNames|
    ensures forall k :: 0 <= k < |Keys| - 1 ==> Keys[k] < Keys[k + 1]
  {
  }

  lemma {:induction false} StepsIncrease(ks: seq<u32>, j: nat, k: nat)
    requires j < k < |ks|
    requires forall i :: 0 <= i < |ks| - 1 ==> ks[i] < ks[i + 1]
    ensures ks[j] < ks[k]
  {
    if j + 1 < k {
      StepsIncrease(ks, j, k - 1);
    }
  }

  lemma BoundsCutNames()
    ensures Cuts(Bounds, Pieces)
    ensures forall k :: 0 <= k < |Pieces| ==> |Pieces[k]| > 0 && Pieces[k] == DssNames[k]
  {
    BoundsSteps();
  }

  lemma BoundsSteps()
    ensures |Bounds| == |DssNames| + 1 && Bounds[0] == 0
    ensures forall k :: 0 <= k < |DssNames| ==> |DssNames[k]| > 0 && Bounds[k + 1] == Bounds[k] + |DssNames[k]|
  {
  }

  lemma BoundsFit()
    ensures |Keys| + 1 == |Bounds| == |DssNames| + 1
    ensures forall k :: 0 <= k < |DssNames| ==>
      Bounds[k] + |DssNames[k]| == Bounds[k + 1] && Bounds[k] + |DssNames[k]| <= |StateName|
  {
    BoundsPartition();
    KeysIncrease();
  }

  /** `b` holds the running lengths of the pieces `ss`, starting from 0. */
  ghost predicate Cuts(b: seq<nat>, ss: seq<string>)
  {
    |b| == |ss| + 1 && b[0] == 0 && forall k :: 0 <= k < |ss| ==> b[k + 1] == b[k] + |ss[k]|
  }

  lemma {:induction false} CutsOffsets(b: seq<nat>, ss: seq<string>, k: nat)
    requires Cuts(b, ss) && k <= |ss|
    ensures b[k] == |Concat(ss[..k])|
  {
    if k > 0 {
      CutsOffsets(b, ss, k - 1);
      ConcatSnoc(ss[..k - 1], ss[k - 1]);
      assert ss[..k - 1] + [ss[k - 1]] == ss[..k];
    }
  }

  /** Bounds that cut `ss` into non-empty pieces partition the concatenation:
      the k-th slice is the k-th piece. */
  lemma CutsPartition(b: seq<nat>, ss: seq<string>)
    requires Cuts(b, ss) && forall k :: 0 <= k < |ss| ==> |ss[k]| > 0
    ensures b[|ss|] == |Concat(ss)|
    ensures forall k :: 0 <= k < |ss| ==>
      b[k] + |ss[k]| == b[k + 1] && b[k] + |ss[k]| <= |Concat(ss)| && Concat(ss)[b[k]..b[k + 1]] == ss[k]
  {
    CutsOffsets(b, ss, |ss|);
    assert ss[..|ss|] == ss;
    forall k | 0 <= k < |ss|
      ensures b[k] + |ss[k]| == b[k + 1] && b[k] + |ss[k]| <= |Concat(ss)| && Concat(ss)[b[k]..b[k + 1]] == ss[k]
    {
      CutsOffsets(b, ss, k);
      CutsOffsets(b, ss, k + 1);
      SliceOfConcat(ss, k);
    }
  }

  lemma {:induction false} ConcatSnoc(ss: seq<string>, s: string)
    ensures Concat(ss + [s]) == Concat(ss) + s
  {
    if ss == [] {
      assert ss + [s] == [s];
    } else {
      assert (ss + [s])[1..] == ss[1..] + [s];
      ConcatSnoc(ss[1..], s);
    }
  }

  lemma {:induction false} ConcatAppend(ss: seq<string>, ts: seq<string>)
    ensures Concat(ss + ts) == Concat(ss) + Concat(ts)
  {
    if ss == [] {
      assert ss + ts == ts;
    } else {
      assert (ss + ts)[1..] == ss[1..] + ts;
      ConcatAppend(ss[1..], ts);
    }
  }

  /** The k-th piece of a concatenation sits between the lengths of the
      concatenations of the first k and k + 1 pieces. */
  lemma SliceOfConcat(ss: seq<string>, k: nat)
    requires k < |ss|
    ensures |Concat(ss[..k])| + |ss[k]| == |Concat(ss[..k + 1])| <= |Concat(ss)|
    ensures Concat(ss)[|Concat(ss[..k])|..|Concat(ss[..k + 1])|] == ss[k]
  {
    var pre, post := ss[..k], ss[k + 1..];
    assert ss[..k + 1] == pre + [ss[k]];
    assert ss == (pre + [ss[k]]) + post;
    ConcatSnoc(pre, ss[k]);
    ConcatAppend(pre + [ss[k]], post);
    var a, b := Concat(pre), ss[k];
    assert Concat(ss) == (a + b) + Concat(post);
    assert Concat(ss)[|a|..|a| + |b|] == b;
  }

  // ---------------------------------------------------------------------
  // Decimal formatting: strconv.FormatInt(int64(i), 10) of a u32
  // ---------------------------------------------------------------------

  function DigitChar(d: nat): (c: char)
    requires d < 10
    ensures '0' <= c <= '9' && c as int - '0' as int == d
  {
    ('0' as int + d) as char
  }

  /** The decimal digits of n, most significant first, without leading zeros. */
  function Decimal(n: nat): (s: string)
    ensures 0 < |s|
    ensures forall i :: 0 <= i < |s| ==> '0' <= s[i] <= '9'
    ensures s[0] == '0' ==> n == 0
  {
    if n < 10 then [DigitChar(n)] else Decimal(n / 10) + [DigitChar(n % 10)]
  }

  /** Reads a string of decimal digits back as a number. */
  function ParseDecimal(s: string): nat
    requires forall i :: 0 <= i < |s| ==> '0' <= s[i] <= '9'
  {
    if s == [] then 0
    else ParseDecimal(s[..|s| - 1]) * 10 + (s[|s| - 1] as int - '0' as int)
  }

  lemma {:induction false} DecimalRoundTrip(n: nat)
    ensures ParseDecimal(Decimal(n)) == n
  {
    var s := Decimal(n);
    if n >= 10 {
      DecimalRoundTrip(n / 10);
      assert s[..|s| - 1] == Decimal(n / 10);
    }
  }
}
