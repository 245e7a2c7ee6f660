/**
 The per-cell override table. The source fills a dictionary keyed by the
 cell coordinate (formatted as "a-b-c"; here the coordinate triple itself),
 whose values are dictionaries from group name to that group's phase and
 scale. Both levels are filled by plain assignment in list order, so a later
 entry with the same key replaces an earlier one.
 */
module Overrides {
  import opened Vectors
  import opened Configuration

  datatype Override = Override(phase: Vec3, scale: Vec3)

  type GroupOverrides = map<string, Override>

  type OverrideTable = map<CellKey, GroupOverrides>

  /** Phase and scale of a group with no override: those of a freshly built group. */
  const Default: Override := Override(Zero, Ones)

  /** `m = dict(); for (k, v) in kvs: m[k] = v`. */
  function FromPairs<K, V>(kvs: seq<(K, V)>): (m: map<K, V>)
    ensures m.Keys == set i | 0 <= i < |kvs| :: kvs[i].0
  {
    if |kvs| == 0 then map[]
    else
      var init := kvs[..|kvs| - 1];
      var m := FromPairs(init);
      assert forall i :: 0 <= i < |init| ==> init[i] == kvs[i];
      m[kvs[|kvs| - 1].0 := kvs[|kvs| - 1].1]
  }

  /** `kvs[i]` is the last pair whose key is `kvs[i].0`. */
  predicate LastWithKey<K(==), V>(kvs: seq<(K, V)>, i: int) {
    0 <= i < |kvs| && forall j :: i < j < |kvs| ==> kvs[j].0 != kvs[i].0
  }

  /** A later assignment to the same key overrides every earlier one. */
  lemma {:induction false} FromPairsLastWins<K, V>(kvs: seq<(K, V)>, i: int)
    requires LastWithKey(kvs, i)
    ensures kvs[i].0 in FromPairs(kvs)
    ensures FromPairs(kvs)[kvs[i].0] == kvs[i].1
  {
    if i < |kvs| - 1 {
      var init := kvs[..|kvs| - 1];
      assert forall j :: 0 <= j < |init| ==> init[j] == kvs[j];
      FromPairsLastWins(init, i);
    }
  }

  function GroupPairs(entries: seq<OverrideSpec>): seq<(string, Override)> {
    seq(|entries|, k requires 0 <= k < |entries| => (entries[k].name, Override(entries[k].phase, entries[k].scale)))
  }

  /** The dictionary of one `parameters` entry: group name to its override. */
  function GroupTable(entries: seq<OverrideSpec>): GroupOverrides {
    FromPairs(GroupPairs(entries))
  }

  function CellPairs(params: seq<CellParameters>): seq<(CellKey, GroupOverrides)> {
    seq(|params|, k requires 0 <= k < |params| => (params[k].supercellIndex, GroupTable(params[k].groups)))
  }

  /** The whole override table built from the `parameters` list. */
  function BuildTable(params: seq<CellParameters>): OverrideTable {
    FromPairs(CellPairs(params))
  }

  /** A group name has an entry iff some item of the list carries that name. */
  lemma GroupTableKeys(entries: seq<OverrideSpec>, name: string)
    ensures name in GroupTable(entries) <==> exists k :: 0 <= k < |entries| && entries[k].name == name
  {
    var ps := GroupPairs(entries);
    assert forall k :: 0 <= k < |entries| ==> ps[k].0 == entries[k].name;
  }

  /** Within one entry, the last item with a given name supplies that name's phase and scale. */
  lemma GroupTableLastWins(entries: seq<OverrideSpec>, k: int)
    requires 0 <= k < |entries|
    requires forall j :: k < j < |entries| ==> entries[j].name != entries[k].name
    ensures entries[k].name in GroupTable(entries)
    ensures GroupTable(entries)[entries[k].name] == Override(entries[k].phase, entries[k].scale)
  {
    FromPairsLastWins(GroupPairs(entries), k);
  }

  /** A cell has an entry iff some `parameters` item names that cell. */
  lemma BuildTableKeys(params: seq<CellParameters>, key: CellKey)
    ensures key in BuildTable(params) <==> exists k :: 0 <= k < |params| && params[k].supercellIndex == key
  {
    var ps := CellPairs(params);
    assert forall k :: 0 <= k < |params| ==> ps[k].0 == params[k].supercellIndex;
  }

  /**
   The last `parameters` item for a cell replaces earlier items for it wholesale:
   the cell's dictionary is built from that item's groups alone.
   */
  lemma BuildTableLastWins(params: seq<CellParameters>, k: int)
    requires 0 <= k < |params|
    requires forall j :: k < j < |params| ==> params[j].supercellIndex != params[k].supercellIndex
    ensures params[k].supercellIndex in BuildTable(params)
    ensures BuildTable(params)[params[k].supercellIndex] == GroupTable(params[k].groups)
  {
    FromPairsLastWins(CellPairs(params), k);
  }

  /** The phase and scale a group gets in a cell: the table's entry if there is one, else the defaults. */
  function Lookup(t: OverrideTable, key: CellKey, name: string): Override {
    if key in t && name in t[key] then t[key][name] else Default
  }
}
