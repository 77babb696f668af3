/** Which columns of the extended data a custody group holds. */
module CustodyGroups {
  import opened Results
  import opened Arithmetic
  import opened Sequences

  datatype Error = InvalidCustodyGroup

  function ColumnsPerGroup(columns: nat, groups: nat): (r: nat)
    requires groups > 0
  {
    columns / groups
  }

  /** The columns of a group are those with its index as remainder. */
  ghost predicate IsColumnOf(columns: nat, groups: nat, group: nat, c: nat)
    requires groups > 0
  {
    c < ColumnsPerGroup(columns, groups) * groups && c % groups == group
  }

  /** `compute_columns_for_custody_group`. */
  method ComputeColumnsForCustodyGroup(columns: nat, groups: nat, group: nat) returns (r: Result<seq<nat>, Error>)
    requires columns <= U64_MAX
    ensures r.Err? <==> group >= groups
    ensures r.Ok? ==>
      && StrictlyAscending(r.value) && |r.value| == ColumnsPerGroup(columns, groups)
      && forall c: nat :: c in r.value <==> IsColumnOf(columns, groups, group, c)
  {
    hide IsColumnOf, SaturatingMul, SaturatingAdd;
    if group >= groups {
      return Err(InvalidCustodyGroup);
    }
    var list := [];
    for i := 0 to ColumnsPerGroup(columns, groups)
      invariant |list| == i && forall j | 0 <= j < i :: list[j] == SaturatingAdd(SaturatingMul(groups, j), group)
    {
      list := list + [SaturatingAdd(SaturatingMul(groups, i), group)];
    }
    ColumnsAscend(columns, groups, group, list);
    forall c: nat ensures c in list <==> IsColumnOf(columns, groups, group, c) {
      ColumnsAreResidues(columns, groups, group, list, c);
    }
    r := Ok(list);
  }

  /** Nothing saturates, and the result is in range. */
  lemma ColumnAt(columns: nat, groups: nat, group: nat, i: nat)
    requires columns <= U64_MAX && group < groups && i < ColumnsPerGroup(columns, groups)
    ensures SaturatingAdd(SaturatingMul(groups, i), group) == i * groups + group
    ensures i * groups + group < ColumnsPerGroup(columns, groups) * groups
    ensures ColumnsPerGroup(columns, groups) * groups <= columns
  {
    DivBounds(columns, groups);
    MulMonotone(i + 1, columns / groups, groups);
    MulMonotone(0, i, groups);
    MulDistributes(i, 1, groups);
    assert groups * i == i * groups;
  }

  lemma ColumnsAscend(columns: nat, groups: nat, group: nat, list: seq<nat>)
    requires columns <= U64_MAX && group < groups && |list| == ColumnsPerGroup(columns, groups)
    requires forall j | 0 <= j < |list| :: list[j] == SaturatingAdd(SaturatingMul(groups, j), group)
    ensures StrictlyAscending(list)
  {
    hide SaturatingMul, SaturatingAdd;
    forall i, j | 0 <= i < j < |list| ensures list[i] < list[j] {
      ColumnAt(columns, groups, group, i);
      ColumnAt(columns, groups, group, j);
      MulMonotone(i + 1, j, groups);
      MulDistributes(i, 1, groups);
    }
  }

  lemma ColumnsAreResidues(columns: nat, groups: nat, group: nat, list: seq<nat>, c: nat)
    requires columns <= U64_MAX && group < groups && |list| == ColumnsPerGroup(columns, groups)
    requires forall j | 0 <= j < |list| :: list[j] == SaturatingAdd(SaturatingMul(groups, j), group)
    ensures c in list <==> IsColumnOf(columns, groups, group, c)
  {
    hide SaturatingMul, SaturatingAdd, ColumnsPerGroup;
    if c in list {
      var j :| 0 <= j < |list| && list[j] == c;
      ColumnAt(columns, groups, group, j);
      ModUnique(j, groups, group);
    }
    if IsColumnOf(columns, groups, group, c) {
      ResidueIsListed(groups, |list|, c);
      ColumnAt(columns, groups, group, c / groups);
      assert list[c / groups] == c;
    }
  }

  lemma ResidueIsListed(groups: nat, count: nat, c: nat)
    requires groups > 0 && c < count * groups
    ensures 0 <= c / groups < count && c == (c / groups) * groups + c % groups
  {
  }

  ghost predicate IsCovered(columns: nat, groups: nat, c: nat)
    requires groups > 0
  {
    exists g: nat :: g < groups && IsColumnOf(columns, groups, g, c)
  }

  /** No column is in two groups, and the groups cover exactly all columns if and only if they divide them evenly. */
  lemma GroupsPartitionColumns(columns: nat, groups: nat)
    requires groups > 0
    ensures forall c: nat, g: nat, h: nat ::
      IsColumnOf(columns, groups, g, c) && IsColumnOf(columns, groups, h, c) ==> g == h
    ensures (forall c: nat :: IsCovered(columns, groups, c) <==> c < columns) <==> columns % groups == 0
  {
    DivBounds(columns, groups);
    var covered := ColumnsPerGroup(columns, groups) * groups;
    assert columns == covered + columns % groups;
    forall c: nat ensures IsCovered(columns, groups, c) <==> c < covered {
      if c < covered {
        assert IsColumnOf(columns, groups, c % groups, c);
      }
    }
    if covered < columns {
      assert !IsCovered(columns, groups, covered);
    }
  }
}
