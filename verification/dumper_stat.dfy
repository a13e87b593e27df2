/** The replay dumper's stat tables (replay-dumper/stat.go): tables of
    (id, name) entries loaded from JSON objects in key order, and the lookups
    that turn a droid template's component indices into identifiers. */
module DumperStat {
  import opened Wrappers
  import opened WzBytes
  import opened WzConstants
  import Stat

  datatype IDNameObject = IDNameObject(id: string, name: string)

  /** A droid template as the packets carry it: component indices into the tables. */
  datatype DroidDef = DroidDef(name: seq<u16>, id: u32, droidType: int, body: byte, brain: byte,
    propulsion: byte, repairunit: byte, ecm: byte, sensor: byte, construct: byte)

  /** The same template with component identifiers; "" where none was found. */
  datatype DroidTyped = DroidTyped(name: seq<u16>, id: u32, droidType: int, body: string, brain: string,
    propulsion: string, repairunit: string, ecm: string, sensor: string, construct: string)

  /** Names the package-level tables aResearch, aBody, ... aWeapons. */
  datatype Table = Research | Body | Construction | ECM | Propulsion | Repair | Sensor | Structure | Weapons

  // ---------------------------------------------------------------------
  // Go's string order and sort.Strings
  // ---------------------------------------------------------------------

  /** `a < b` on Go strings: lexicographic, a proper prefix first. Characters
      are compared by code point, which is the order of their UTF-8 bytes. */
  predicate Below(a: string, b: string)
  {
    if |a| == 0 then |b| > 0
    else |b| > 0 && (a[0] < b[0] || (a[0] == b[0] && Below(a[1..], b[1..])))
  }

  lemma {:induction false} BelowIrreflexive(a: string)
    ensures !Below(a, a)
  {
    if |a| > 0 {
      BelowIrreflexive(a[1..]);
    }
  }

  lemma {:induction false} BelowTransitive(a: string, b: string, c: string)
    requires Below(a, b) && Below(b, c)
    ensures Below(a, c)
  {
    if |a| > 0 && a[0] == b[0] && b[0] == c[0] {
      BelowTransitive(a[1..], b[1..], c[1..]);
    }
  }

  lemma {:induction false} BelowTotal(a: string, b: string)
    ensures a == b || Below(a, b) || Below(b, a)
  {
    if |a| > 0 && |b| > 0 && a[0] == b[0] {
      BelowTotal(a[1..], b[1..]);
      if a[1..] == b[1..] {
        assert a == [a[0]] + a[1..] && b == [b[0]] + b[1..];
      }
    }
  }

  lemma BelowAsymmetric(a: string, b: string)
    requires Below(a, b)
    ensures !Below(b, a) && a != b
  {
    BelowIrreflexive(a);
    if Below(b, a) {
      BelowTransitive(a, b, a);
    }
  }

  /** Ascending, duplicates allowed: no later element is below an earlier one. */
  ghost predicate Ascending(s: seq<string>)
  {
    forall i, j :: 0 <= i < j < |s| ==> !Below(s[j], s[i])
  }

  /** Strictly ascending. */
  ghost predicate StrictlyAscending(s: seq<string>)
  {
    forall i, j :: 0 <= i < j < |s| ==> Below(s[i], s[j])
  }

  ghost predicate Distinct(s: seq<string>)
  {
    forall i, j :: 0 <= i < j < |s| ==> s[i] != s[j]
  }

  function Insert(x: string, s: seq<string>): (r: seq<string>)
    ensures multiset(r) == multiset(s) + multiset{x}
    ensures forall z :: z in r ==> z == x || z in s
  {
    if s == [] then [x]
    else if !Below(s[0], x) then [x] + s
    else
      assert s == [s[0]] + s[1..];
      [s[0]] + Insert(x, s[1..])
  }

  /** sort.Strings: the same strings, in ascending order. */
  function SortStrings(s: seq<string>): (r: seq<string>)
    ensures multiset(r) == multiset(s)
    ensures Ascending(r)
  {
    if s == [] then [] else
      assert s == [s[0]] + s[1..];
      var t := SortStrings(s[1..]);
      InsertAscending(s[0], t);
      Insert(s[0], t)
  }

  lemma {:induction false} InsertAscending(x: string, s: seq<string>)
    requires Ascending(s)
    ensures Ascending(Insert(x, s))
  {
    if s == [] {
    } else if !Below(s[0], x) {
      forall j | 0 <= j < |s|
        ensures !Below(s[j], x)
      {
        if j > 0 {
          NotBelowChain(s[j], s[0], x);
        }
      }
      ConsAscending(x, s);
    } else {
      var y, rest := s[0], s[1..];
      var t := Insert(x, rest);
      assert Ascending(rest) by {
        forall i, j | 0 <= i < j < |rest|
          ensures !Below(rest[j], rest[i])
        {
          assert rest[i] == s[i + 1] && rest[j] == s[j + 1];
        }
      }
      InsertAscending(x, rest);
      BelowAsymmetric(y, x);
      forall j | 0 <= j < |t|
        ensures !Below(t[j], y)
      {
        assert t[j] in t;
        if t[j] != x {
          var k :| 0 <= k < |rest| && rest[k] == t[j];
          assert s[k + 1] == t[j];
        }
      }
      ConsAscending(y, t);
    }
  }

  /** `c <= b <= a` gives `c <= a`. */
  lemma NotBelowChain(c: string, b: string, a: string)
    requires !Below(c, b) && !Below(b, a)
    ensures !Below(c, a)
  {
    BelowTotal(c, b);
    BelowTotal(b, a);
    if Below(c, a) {
      if Below(b, c) {
        BelowTransitive(b, c, a);
        BelowAsymmetric(b, a);
      } else if c == b {
      } else {
        BelowAsymmetric(c, b);
      }
    }
  }

  lemma ConsAscending(y: string, t: seq<string>)
    requires Ascending(t) && forall j :: 0 <= j < |t| ==> !Below(t[j], y)
    ensures Ascending([y] + t)
  {
    var r := [y] + t;
    forall i, j | 0 <= i < j < |r|
      ensures !Below(r[j], r[i])
    {
      assert r[j] == t[j - 1];
      if i > 0 {
        assert r[i] == t[i - 1];
      }
    }
  }

  /** The first element of a strictly ascending sequence is below every other one. */
  lemma FirstIsLeast(a: seq<string>, x: string)
    requires StrictlyAscending(a) && x in a
    ensures a != [] && (x == a[0] || Below(a[0], x))
  {
    var i :| 0 <= i < |a| && a[i] == x;
    if i > 0 {
      assert Below(a[0], a[i]);
    }
  }

  lemma SameElementsEmpty(a: seq<string>, b: seq<string>)
    requires forall x :: x in a <==> x in b
    ensures a == [] <==> b == []
  {
    if a != [] {
      assert a[0] in a;
    }
    if b != [] {
      assert b[0] in b;
    }
  }

  /** Two strictly ascending sequences with the same elements start alike. */
  lemma SameFirst(a: seq<string>, b: seq<string>)
    requires StrictlyAscending(a) && StrictlyAscending(b) && a != [] && b != []
    requires forall x :: x in a <==> x in b
    ensures a[0] == b[0]
  {
    assert a[0] in a && b[0] in b;
    FirstIsLeast(b, a[0]);
    FirstIsLeast(a, b[0]);
    if a[0] != b[0] {
      BelowAsymmetric(a[0], b[0]);
      assert false;
    }
  }

  /** Two strictly ascending sequences with the same elements are equal. */
  lemma {:induction false} AscendingUnique(a: seq<string>, b: seq<string>)
    requires StrictlyAscending(a) && StrictlyAscending(b)
    requires forall x :: x in a <==> x in b
    ensures a == b
  {
    SameElementsEmpty(a, b);
    if a != [] {
      SameFirst(a, b);
      forall x
        ensures x in a[1..] <==> x in b[1..]
      {
        if x in a[1..] {
          var i :| 1 <= i < |a| && a[i] == x;
          BelowAsymmetric(a[0], a[i]);
          assert x in a;
          assert x in b;
          var j :| 0 <= j < |b| && b[j] == x;
          assert j != 0 && b[1..][j - 1] == x;
        }
        if x in b[1..] {
          var i :| 1 <= i < |b| && b[i] == x;
          BelowAsymmetric(b[0], b[i]);
          assert x in b;
          assert x in a;
          var j :| 0 <= j < |a| && a[j] == x;
          assert j != 0 && a[1..][j - 1] == x;
        }
      }
      assert StrictlyAscending(a[1..]) && StrictlyAscending(b[1..]) by {
        forall i, j | 0 <= i < j < |a[1..]| ensures Below(a[1..][i], a[1..][j]) {
          assert a[1..][i] == a[i + 1] && a[1..][j] == a[j + 1];
        }
        forall i, j | 0 <= i < j < |b[1..]| ensures Below(b[1..][i], b[1..][j]) {
          assert b[1..][i] == b[i + 1] && b[1..][j] == b[j + 1];
        }
      }
      AscendingUnique(a[1..], b[1..]);
      assert a == [a[0]] + a[1..] && b == [b[0]] + b[1..];
    }
  }

  /** Distinct strings sorted ascending are strictly ascending. */
  lemma DistinctAscending(s: seq<string>)
    requires Ascending(s) && Distinct(s)
    ensures StrictlyAscending(s)
  {
    forall i, j | 0 <= i < j < |s|
      ensures Below(s[i], s[j])
    {
      BelowTotal(s[i], s[j]);
    }
  }

  lemma DistinctPermutation(a: seq<string>, b: seq<string>)
    requires multiset(a) == multiset(b) && Distinct(a)
    ensures Distinct(b)
    ensures forall x :: x in a <==> x in b
  {
    forall x
      ensures x in a <==> x in b
    {
      assert x in a <==> x in multiset(a);
      assert x in b <==> x in multiset(b);
    }
    forall i, j | 0 <= i < j < |b|
      ensures b[i] != b[j]
    {
      if b[i] == b[j] {
        var x := b[i];
        assert b == b[..i] + [x] + b[i + 1..j] + [x] + b[j + 1..];
        assert multiset(b)[x] >= 2;
        DistinctCount(a, x);
      }
    }
  }

  lemma {:induction false} DistinctCount(a: seq<string>, x: string)
    requires Distinct(a)
    ensures multiset(a)[x] <= 1
  {
    if a != [] {
      assert a == [a[0]] + a[1..];
      assert Distinct(a[1..]) by {
        forall i, j | 0 <= i < j < |a[1..]|
          ensures a[1..][i] != a[1..][j]
        {
          assert a[1..][i] == a[i + 1] && a[1..][j] == a[j + 1];
        }
      }
      DistinctCount(a[1..], x);
      if a[0] == x {
        assert x !in a[1..];
        assert multiset(a[1..])[x] == 0;
      }
    }
  }

  // ---------------------------------------------------------------------
  // The key order of a decoded table
  // ---------------------------------------------------------------------

  /** The keys of a set listed once each, in some order. */
  ghost function ListOf(s: set<string>): (r: seq<string>)
    ensures Distinct(r) && |r| == |s|
    ensures forall x :: x in r <==> x in s
  {
    if s == {} then []
    else
      var x :| x in s;
      var t := ListOf(s - {x});
      assert forall i :: 0 <= i < |t| ==> t[i] != x;
      [x] + t
  }

  /** The keys of `m` in ascending order: the order loadDefaultData fills a table in. */
  ghost function KeyOrder(m: map<string, IDNameObject>): (ks: seq<string>)
    ensures StrictlyAscending(ks) && |ks| == |m|
    ensures forall x :: x in ks <==> x in m
  {
    var l := ListOf(m.Keys);
    var ks := SortStrings(l);
    DistinctPermutation(l, ks);
    DistinctAscending(ks);
    ks
  }

  /** Sorting the keys, listed once each in whatever order, gives the key order. */
  lemma SortedKeysInOrder(m: map<string, IDNameObject>, keys: seq<string>, sorted: seq<string>)
    requires Distinct(keys) && (forall x :: x in keys <==> x in m) && sorted == SortStrings(keys)
    ensures sorted == KeyOrder(m)
  {
    DistinctPermutation(keys, sorted);
    DistinctAscending(sorted);
    AscendingUnique(sorted, KeyOrder(m));
  }

  /** The table loaded from the JSON object `m`: its values in ascending key order. */
  ghost function ValuesByKey(m: map<string, IDNameObject>): (r: seq<IDNameObject>)
    ensures |r| == |m|
  {
    var ks := KeyOrder(m);
    seq(|ks|, i requires 0 <= i < |ks| => m[ks[i]])
  }

  /** The keys of `keys` below `k`. */
  ghost function KeysBelow(keys: set<string>, k: string): set<string>
  {
    set x | x in keys && Below(x, k)
  }

  /** Entry i of a loaded table is the value of the key with exactly i smaller keys. */
  lemma ValuesByKeyRank(m: map<string, IDNameObject>, i: nat)
    requires i < |m|
    ensures exists k :: k in m && ValuesByKey(m)[i] == m[k] && |KeysBelow(m.Keys, k)| == i
  {
    var ks := KeyOrder(m);
    var k := ks[i];
    SmallerKeys(m.Keys, ks, i);
    DistinctCard(ks, i);
    assert |KeysBelow(m.Keys, k)| == i;
    assert k in m;
    assert ValuesByKey(m)[i] == m[k];
  }

  /** A sequence holding, position by position, the values of the keys in key order is the loaded table. */
  lemma ValuesListed(m: map<string, IDNameObject>, ks: seq<string>, vs: seq<IDNameObject>)
    requires ks == KeyOrder(m) && |vs| == |ks|
    requires forall j :: 0 <= j < |vs| ==> ks[j] in m && vs[j] == m[ks[j]]
    ensures vs == ValuesByKey(m)
  {
  }

  /** In a strictly ascending listing of a set, the members below the i-th
      element are the first i elements. */
  lemma SmallerKeys(keys: set<string>, ks: seq<string>, i: nat)
    requires StrictlyAscending(ks) && i < |ks| && forall x :: x in ks <==> x in keys
    ensures KeysBelow(keys, ks[i]) == Firsts(ks, i)
  {
    var k := ks[i];
    forall x | x in keys && Below(x, k)
      ensures x in Firsts(ks, i)
    {
      var j :| 0 <= j < |ks| && ks[j] == x;
      if j > i {
        BelowAsymmetric(ks[i], ks[j]);
      } else if j == i {
        BelowIrreflexive(k);
      }
    }
  }

  /** The first `n` elements of `ks`, as a set. */
  ghost function Firsts(ks: seq<string>, n: nat): set<string>
    requires n <= |ks|
  {
    set j | 0 <= j < n :: ks[j]
  }

  lemma FirstsSnoc(ks: seq<string>, n: nat)
    requires 0 < n <= |ks|
    ensures Firsts(ks, n) == Firsts(ks, n - 1) + {ks[n - 1]}
  {
  }

  lemma LastIsNew(ks: seq<string>, n: nat)
    requires 0 < n <= |ks| && StrictlyAscending(ks)
    ensures ks[n - 1] !in Firsts(ks, n - 1)
  {
    if ks[n - 1] in Firsts(ks, n - 1) {
      var j :| 0 <= j < n - 1 && ks[j] == ks[n - 1];
      BelowAsymmetric(ks[j], ks[n - 1]);
    }
  }

  lemma {:induction false} DistinctCard(ks: seq<string>, n: nat)
    requires n <= |ks| && StrictlyAscending(ks)
    ensures |Firsts(ks, n)| == n
  {
    if n > 0 {
      DistinctCard(ks, n - 1);
      FirstsSnoc(ks, n);
      LastIsNew(ks, n);
    }
  }

  // ---------------------------------------------------------------------
  // Lookups on the tables
  // ---------------------------------------------------------------------

  /** isOf(v, c...): whether v is one of c. */
  function IsOf(v: string, c: seq<string>): (b: bool)
    ensures b <==> exists i :: 0 <= i < |c| && c[i] == v
  {
    if c == [] then false
    else if c[0] == v then true
    else
      var b := IsOf(v, c[1..]);
      assert b <==> exists i :: 1 <= i < |c| && c[i] == v by {
        if b {
          var i :| 0 <= i < |c[1..]| && c[1..][i] == v;
          assert c[i + 1] == v;
        }
        if exists i :: 1 <= i < |c| && c[i] == v {
          var i :| 1 <= i < |c| && c[i] == v;
          assert c[1..][i - 1] == v;
        }
      }
      b
  }

  /** checkDroidIllegal: the first rule a typed droid breaks, or "". */
  function CheckDroidIllegal(d: DroidTyped): (r: string)
    ensures r == "Ba Ba prop" <==> d.propulsion in ["BaBaLegs", "BaBaProp"]
    ensures r == "Cyborg with wrong body" <==>
      d.propulsion == "CyborgLegs" && d.body !in ["CyborgHeavyBody", "CyborgLightBody"]
    ensures r == "" || r == "Ba Ba prop" || r == "Cyborg with wrong body"
  {
    if IsOf(d.propulsion, ["BaBaLegs", "BaBaProp"]) then "Ba Ba prop"
    else if d.propulsion == "CyborgLegs" && !IsOf(d.body, ["CyborgHeavyBody", "CyborgLightBody"]) then
      "Cyborg with wrong body"
    else ""
  }

  /** The identifier of entry `i` of `table`, or "" when the index is past its end. */
  function IdAt(table: seq<IDNameObject>, i: byte): (id: string)
    ensures i as int < |table| ==> id == table[i].id
    ensures i as int >= |table| ==> id == ""
  {
    if |table| > i as int then table[i].id else ""
  }

  /** The first loop of loadDefaultData: every key of the map, once each, in
      the map's iteration order (which the model leaves open). */
  method MapKeys(r: map<string, IDNameObject>) returns (keys: seq<string>)
    ensures Distinct(keys) && |keys| == |r|
    ensures forall x :: x in keys <==> x in r
  {
    keys := [];
    var rest := r.Keys;
    while rest != {}
      invariant rest <= r.Keys && Distinct(keys) && |keys| + |rest| == |r|
      invariant forall x :: x in keys <==> x in r && x !in rest
      decreases |rest|
    {
      var k :| k in rest;
      keys := keys + [k];
      rest := rest - {k};
    }
  }

  /** The second loop of loadDefaultData: the values of the sorted keys, in order. */
  method ValuesOf(r: map<string, IDNameObject>, sorted: seq<string>) returns (ret: seq<IDNameObject>)
    requires forall k :: k in sorted ==> k in r
    ensures |ret| == |sorted|
    ensures forall j :: 0 <= j < |sorted| ==> sorted[j] in r && ret[j] == r[sorted[j]]
  {
    ret := [];
    for i := 0 to |sorted|
      invariant |ret| == i
      invariant forall j :: 0 <= j < i ==> ret[j] == r[sorted[j]]
    {
      ret := ret + [r[sorted[i]]];
    }
  }

  /** The package-level tables aResearch, aBody, ... aWeapons, as values. */
  datatype Tables = Tables(research: seq<IDNameObject>, body: seq<IDNameObject>,
    construction: seq<IDNameObject>, ecm: seq<IDNameObject>, propulsion: seq<IDNameObject>,
    repair: seq<IDNameObject>, sensor: seq<IDNameObject>, structure: seq<IDNameObject>,
    weapons: seq<IDNameObject>)
  {
    function Get(t: Table): seq<IDNameObject>
    {
      match t
      case Research => research
      case Body => body
      case Construction => construction
      case ECM => ecm
      case Propulsion => propulsion
      case Repair => repair
      case Sensor => sensor
      case Structure => structure
      case Weapons => weapons
    }

    /** typifyDroid: copies the name, id and type, and looks the body,
        propulsion, repair unit, ECM and sensor indices up in their tables;
        brain and construct are never filled in. */
    function TypifyDroid(d: DroidDef): (r: DroidTyped)
      ensures r.name == d.name && r.id == d.id && r.droidType == d.droidType
      ensures r.brain == "" && r.construct == ""
      ensures r.body == IdAt(body, d.body) && r.propulsion == IdAt(propulsion, d.propulsion)
      ensures r.repairunit == IdAt(repair, d.repairunit) && r.ecm == IdAt(ecm, d.ecm)
      ensures r.sensor == IdAt(sensor, d.sensor)
    {
      DroidTyped(d.name, d.id, d.droidType, IdAt(body, d.body), "", IdAt(propulsion, d.propulsion),
        IdAt(repair, d.repairunit), IdAt(ecm, d.ecm), IdAt(sensor, d.sensor), "")
    }

    /** refToStructName: the name of a structure reference's entry,
        "overflow" past the table's end, "notastructure" for other tags. */
    function RefToStructName(ref: u32): (name: string)
      ensures Masked(ref) != STAT_STRUCTURE ==> name == "notastructure"
      ensures Masked(ref) == STAT_STRUCTURE && ref - STAT_STRUCTURE >= |structure| ==> name == "overflow"
      ensures Masked(ref) == STAT_STRUCTURE && ref - STAT_STRUCTURE < |structure| ==>
        name == structure[ref - STAT_STRUCTURE].name
    {
      if Masked(ref) == STAT_STRUCTURE then
        var structid := ref - STAT_STRUCTURE;
        if |structure| <= structid then "overflow" else structure[structid].name
      else "notastructure"
    }

    /** The structure index is the one RefToComponent reports for the reference. */
    lemma StructIndexAgrees(ref: u32)
      requires Masked(ref) == STAT_STRUCTURE
      ensures Stat.RefToComponent(ref) == (-1, ref - STAT_STRUCTURE)
      ensures ref - STAT_STRUCTURE < |structure| ==> RefToStructName(ref) == structure[Stat.RefToComponent(ref).1].name
    {
      StatTagsShape();
      assert StatTags[9] == STAT_STRUCTURE;
      MaskedIsTag(ref, STAT_STRUCTURE);
      Stat.RefToComponentByTable(ref, 9);
    }
  }

  /** The package variables holding the tables, which loadDefaultData overwrites. */
  class StatTables {
    var tables: Tables

    /** All tables start empty. */
    constructor ()
      ensures forall t :: tables.Get(t) == []
    {
      tables := Tables([], [], [], [], [], [], [], [], []);
    }

    /** Overwrites one table and leaves the others alone. */
    method Put(t: Table, v: seq<IDNameObject>)
      modifies this
      ensures tables.Get(t) == v
      ensures forall u :: u != t ==> tables.Get(u) == old(tables.Get(u))
    {
      match t
      case Research => tables := tables.(research := v);
      case Body => tables := tables.(body := v);
      case Construction => tables := tables.(construction := v);
      case ECM => tables := tables.(ecm := v);
      case Propulsion => tables := tables.(propulsion := v);
      case Repair => tables := tables.(repair := v);
      case Sensor => tables := tables.(sensor := v);
      case Structure => tables := tables.(structure := v);
      case Weapons => tables := tables.(weapons := v);
    }

    /** loadDefaultData: `decoded` is the outcome of reading the file and
        unmarshalling it into a map from key to entry. On failure the error is
        returned and no table changes; on success table `t` becomes the map's
        values in ascending key order. */
    method LoadDefaultData(decoded: Result<map<string, IDNameObject>>, t: Table) returns (err: Option<Error>)
      modifies this
      ensures decoded.Err? ==> err == Some(decoded.error) && tables == old(tables)
      ensures decoded.Ok? ==> err == None && tables.Get(t) == ValuesByKey(decoded.value)
      ensures decoded.Ok? ==> forall u :: u != t ==> tables.Get(u) == old(tables.Get(u))
    {
      if decoded.Err? {
        return Some(decoded.error);
      }
      var r := decoded.value;
      var keys := MapKeys(r);
      var sorted := SortStrings(keys);
      SortedKeysInOrder(r, keys, sorted);
      var ret := ValuesOf(r, sorted);
      ValuesListed(r, sorted, ret);
      Put(t, ret);
      return None;
    }
  }
}
