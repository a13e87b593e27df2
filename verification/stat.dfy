/** Stat references (stat/stat.go): a 32-bit reference carries a category tag
    in its high 16 bits and an index within that category in its low 16 bits. */
module Stat {
  import opened WzBytes
  import opened WzConstants

  // COMPONENT_TYPE, an int32 enumeration.
  const COMP_BODY: int := 0
  const COMP_BRAIN: int := 1
  const COMP_PROPULSION: int := 2
  const COMP_REPAIRUNIT: int := 3
  const COMP_ECM: int := 4
  const COMP_SENSOR: int := 5
  const COMP_CONSTRUCT: int := 6
  const COMP_WEAPON: int := 7
  const COMP_NUMCOMPONENTS: int := 8

  /** The component type of each STAT_ tag, in the order of StatTags; -1 for
      the tags that name no component (research, template, structure,
      function, feature). */
  const TagComponents: seq<int> := [COMP_BODY, COMP_BRAIN, COMP_PROPULSION, COMP_SENSOR, COMP_ECM,
    COMP_REPAIRUNIT, COMP_WEAPON, -1, -1, -1, -1, COMP_CONSTRUCT, -1]

  /** RefToComponent: the component type and the index within the category,
      or (COMP_NUMCOMPONENTS, -1) for a reference with an unknown tag. */
  function RefToComponent(ref: u32): (r: (int, int))
    ensures -1 <= r.0 <= COMP_NUMCOMPONENTS
    ensures r.1 == -1 <==> Masked(ref) !in StatTags
    ensures r.1 == -1 ==> r.0 == COMP_NUMCOMPONENTS
    ensures r.1 != -1 ==> 0 <= r.1 < 0x1_0000 && r.1 == ref % 0x1_0000 && r.0 != COMP_NUMCOMPONENTS
  {
    var tag := Masked(ref);
    if tag == STAT_BODY then (COMP_BODY, ref - STAT_BODY)
    else if tag == STAT_BRAIN then (COMP_BRAIN, ref - STAT_BRAIN)
    else if tag == STAT_PROPULSION then (COMP_PROPULSION, ref - STAT_PROPULSION)
    else if tag == STAT_SENSOR then (COMP_SENSOR, ref - STAT_SENSOR)
    else if tag == STAT_ECM then (COMP_ECM, ref - STAT_ECM)
    else if tag == STAT_REPAIR then (COMP_REPAIRUNIT, ref - STAT_REPAIR)
    else if tag == STAT_WEAPON then (COMP_WEAPON, ref - STAT_WEAPON)
    else if tag == STAT_RESEARCH then (-1, ref - STAT_RESEARCH)
    else if tag == STAT_TEMPLATE then (-1, ref - STAT_TEMPLATE)
    else if tag == STAT_STRUCTURE then (-1, ref - STAT_STRUCTURE)
    else if tag == STAT_FUNCTION then (-1, ref - STAT_FUNCTION)
    else if tag == STAT_CONSTRUCT then (COMP_CONSTRUCT, ref - STAT_CONSTRUCT)
    else if tag == STAT_FEATURE then (-1, ref - STAT_FEATURE)
    else (COMP_NUMCOMPONENTS, -1)
  }

  /** The switch agrees with the tag table: a reference in the k-th tag's block
      has that tag's component type and its offset from the tag as index. */
  lemma RefToComponentByTable(ref: u32, k: nat)
    requires k < |StatTags| && StatTags[k] <= ref < StatTags[k] + 0x1_0000
    ensures RefToComponent(ref) == (TagComponents[k], ref - StatTags[k])
  {
    StatTagsShape();
    MaskedIsTag(ref, StatTags[k]);
  }

  /** The category depends only on the high half: references that agree in
      their high 16 bits get the same component type. */
  lemma CategoryFromMask(ref1: u32, ref2: u32)
    requires ref1 / 0x1_0000 == ref2 / 0x1_0000
    ensures RefToComponent(ref1).0 == RefToComponent(ref2).0
    ensures RefToComponent(ref1).1 - ref1 == RefToComponent(ref2).1 - ref2 || RefToComponent(ref1).1 == -1
  {
    assert Masked(ref1) == Masked(ref2);
  }

  /** COMPONENT_TYPE runs from 0 to COMP_NUMCOMPONENTS = 8, and every
      component but the count has a tag. */
  lemma ComponentsTagged(c: int)
    requires 0 <= c < COMP_NUMCOMPONENTS
    ensures exists k :: 0 <= k < |TagComponents| && TagComponents[k] == c
  {
    var k := if c == COMP_BODY then 0 else if c == COMP_BRAIN then 1 else if c == COMP_PROPULSION then 2
      else if c == COMP_SENSOR then 3 else if c == COMP_ECM then 4 else if c == COMP_REPAIRUNIT then 5
      else if c == COMP_WEAPON then 6 else 11;
    assert TagComponents[k] == c;
  }
}
