/**
 * The two-row header parse of `load_data`: the group-label row is read
 * alongside the field-name row; a usable group label opens a new group that
 * every later column inherits until the next label ("forward-fill").
 * Its outputs are `group_map` (field -> group, insertion order) and
 * `all_groups` (distinct groups in first-seen column order).
 */
module HeaderTaxonomy {
  import opened Cells
  import opened Text
  import opened Seqs
  import opened GroupMaps

  /** Group in effect before any label has been seen. */
  const DefaultGroup: string := "General Info"

  /** The group-row cell of column `i`: its text, or None when missing or past the end of the group row. */
  function GroupCell(groupRow: seq<Cell>, i: nat): Option<string> {
    if i < |groupRow| then groupRow[i] else None
  }

  /**
   * Column `i` carries a usable label: present, not blank once stripped, and
   * not "nan" ignoring case. The "nan" test is made on the unstripped text.
   */
  predicate OpensGroup(groupRow: seq<Cell>, i: nat) {
    var g := GroupCell(groupRow, i);
    g.Some? && UsableLabel(g.value)
  }

  /** The label test on a present cell: non-empty, not blank once stripped, not "nan" ignoring case. */
  predicate UsableLabel(g: string) {
    g != "" && Strip(g) != "" && Lower(g) != "nan"
  }

  /** The group name a usable label stands for: its stripped text. */
  function Label(groupRow: seq<Cell>, i: nat): string
    requires OpensGroup(groupRow, i)
  {
    Strip(GroupCell(groupRow, i).value)
  }

  /** `current_group` once the first `n` columns have been read. */
  function GroupAfter(groupRow: seq<Cell>, n: nat): string
    decreases n
  {
    if n == 0 then DefaultGroup
    else if OpensGroup(groupRow, n - 1) then Label(groupRow, n - 1)
    else GroupAfter(groupRow, n - 1)
  }

  /** The group that column `i` is filed under. */
  function ColumnGroup(groupRow: seq<Cell>, i: nat): string {
    GroupAfter(groupRow, i + 1)
  }

  /** The groups of the first `n` columns, one per column. */
  function ColumnGroups(groupRow: seq<Cell>, n: nat): (gs: seq<string>)
    ensures |gs| == n
  {
    if n == 0 then [] else ColumnGroups(groupRow, n - 1) + [ColumnGroup(groupRow, n - 1)]
  }

  /** Entry `i` of the column groups is column `i`'s group. */
  lemma {:induction false} ColumnGroupsAt(groupRow: seq<Cell>, n: nat, i: nat)
    requires i < n
    ensures ColumnGroups(groupRow, n)[i] == ColumnGroup(groupRow, i)
  {
    if i < n - 1 {
      ColumnGroupsAt(groupRow, n - 1, i);
    }
  }

  /** `all_groups` after `n` columns. */
  function AllGroups(groupRow: seq<Cell>, n: nat): seq<string> {
    Distinct(ColumnGroups(groupRow, n))
  }

  /** `str(h).strip()`. */
  function HeaderKey(h: Cell): string {
    Strip(Str(h))
  }

  /** A header that becomes a key of `group_map`: non-blank and not "nan" (case-sensitive, after stripping). */
  predicate IsFieldHeader(h: Cell) {
    UsableKey(HeaderKey(h))
  }

  /** The key test on a cleaned header. */
  predicate UsableKey(hClean: string) {
    hClean != "" && hClean != "nan"
  }

  /** The keys assigned by the first `n` columns, in column order, repeats included. */
  function AssignedKeys(headerRow: seq<Cell>, n: nat): seq<string>
    requires n <= |headerRow|
  {
    if n == 0 then []
    else if IsFieldHeader(headerRow[n - 1]) then AssignedKeys(headerRow, n - 1) + [HeaderKey(headerRow[n - 1])]
    else AssignedKeys(headerRow, n - 1)
  }

  /** `group_map` after `n` columns. */
  function GroupMapAfter(groupRow: seq<Cell>, headerRow: seq<Cell>, n: nat): GroupMap
    requires n <= |headerRow|
  {
    if n == 0 then []
    else
      var m := GroupMapAfter(groupRow, headerRow, n - 1);
      if IsFieldHeader(headerRow[n - 1]) then Put(m, HeaderKey(headerRow[n - 1]), ColumnGroup(groupRow, n - 1))
      else m
  }

  /** The group-row step of the parse loop: a usable label replaces the current group. */
  method ReadGroupCell(groupRow: seq<Cell>, i: nat, currentGroup: string) returns (next: string)
    ensures next == if OpensGroup(groupRow, i) then Label(groupRow, i) else currentGroup
  {
    var g: Option<string> := if i < |groupRow| && groupRow[i].Some? then Some(groupRow[i].value) else None;
    assert g == GroupCell(groupRow, i);
    next := currentGroup;
    if g.Some? && UsableLabel(g.value) {
      next := Strip(g.value);
    }
  }

  /** The header-row step of the parse loop: a usable header is filed under `group`. */
  method FileHeader(groupMap: GroupMap, h: Cell, group: string) returns (m: GroupMap)
    ensures m == if IsFieldHeader(h) then Put(groupMap, HeaderKey(h), group) else groupMap
    ensures KeysDistinct(groupMap) ==> KeysDistinct(m)
  {
    var hClean := Strip(Str(h));
    m := groupMap;
    if UsableKey(hClean) {
      m := Put(groupMap, hClean, group);
      if KeysDistinct(groupMap) && hClean !in Keys(groupMap) {
        NoDupAppend(Keys(groupMap), hClean);
      }
    }
  }

  /** The parse loop of `load_data`, one column per iteration. */
  method ParseHeaders(groupRow: seq<Cell>, headerRow: seq<Cell>) returns (groupMap: GroupMap, allGroups: seq<string>)
    ensures allGroups == AllGroups(groupRow, |headerRow|)
    ensures groupMap == GroupMapAfter(groupRow, headerRow, |headerRow|)
    ensures NoDup(allGroups) && KeysDistinct(groupMap)
    ensures forall e :: e in groupMap ==> e.1 in allGroups
  {
    var currentGroup := DefaultGroup;
    groupMap := [];
    allGroups := [];
    var i := 0;
    while i < |headerRow|
      invariant 0 <= i <= |headerRow|
      invariant currentGroup == GroupAfter(groupRow, i)
      invariant allGroups == AllGroups(groupRow, i)
      invariant groupMap == GroupMapAfter(groupRow, headerRow, i)
    {
      currentGroup := ReadGroupCell(groupRow, i, currentGroup);
      AllGroupsStep(groupRow, i);
      if currentGroup !in allGroups {
        allGroups := allGroups + [currentGroup];
      }
      GroupMapStep(groupRow, headerRow, i);
      groupMap := FileHeader(groupMap, headerRow[i], currentGroup);
      i := i + 1;
    }
    GroupMapKeysAreAssignedKeys(groupRow, headerRow, |headerRow|);
    GroupMapValuesAreListed(groupRow, headerRow, |headerRow|);
    DistinctSpec(ColumnGroups(groupRow, |headerRow|));
  }

  /** Reading one more column files its usable header under the column's group. */
  lemma GroupMapStep(groupRow: seq<Cell>, headerRow: seq<Cell>, i: nat)
    requires i < |headerRow|
    ensures GroupMapAfter(groupRow, headerRow, i + 1)
         == if IsFieldHeader(headerRow[i]) then Put(GroupMapAfter(groupRow, headerRow, i), HeaderKey(headerRow[i]), ColumnGroup(groupRow, i))
            else GroupMapAfter(groupRow, headerRow, i)
  {
  }

  /** Reading one more column adds its group to `all_groups` unless it is already listed. */
  lemma AllGroupsStep(groupRow: seq<Cell>, i: nat)
    ensures AllGroups(groupRow, i + 1)
         == if ColumnGroup(groupRow, i) in AllGroups(groupRow, i) then AllGroups(groupRow, i)
            else AllGroups(groupRow, i) + [ColumnGroup(groupRow, i)]
  {
    DistinctSnoc(ColumnGroups(groupRow, i), ColumnGroup(groupRow, i));
  }

  /** Forward-fill: a column takes the label of the last usable group cell at or before it. */
  lemma {:induction false} ForwardFillFromLabel(groupRow: seq<Cell>, i: nat, j: nat)
    requires j <= i && OpensGroup(groupRow, j)
    requires forall k :: j < k <= i ==> !OpensGroup(groupRow, k)
    ensures ColumnGroup(groupRow, i) == Label(groupRow, j)
  {
    if i > j {
      ForwardFillFromLabel(groupRow, i - 1, j);
    }
  }

  /** Forward-fill: with no usable group cell at or before a column, it falls back to the default group. */
  lemma {:induction false} ForwardFillDefault(groupRow: seq<Cell>, i: nat)
    requires forall k :: 0 <= k <= i ==> !OpensGroup(groupRow, k)
    ensures ColumnGroup(groupRow, i) == DefaultGroup
  {
    assert !OpensGroup(groupRow, i);
    assert ColumnGroup(groupRow, i) == GroupAfter(groupRow, i);
    if i > 0 {
      ForwardFillDefault(groupRow, i - 1);
      assert ColumnGroup(groupRow, i - 1) == GroupAfter(groupRow, i);
    }
  }

  /** Columns beyond the end of the group row inherit the group of the column before. */
  lemma PastGroupRowInherits(groupRow: seq<Cell>, i: nat)
    requires |groupRow| <= i && 0 < i
    ensures ColumnGroup(groupRow, i) == ColumnGroup(groupRow, i - 1)
  {
  }

  /** `all_groups`: no repeats, exactly the groups of the columns, non-empty iff there is a column, led by column 0's group. */
  lemma AllGroupsShape(groupRow: seq<Cell>, n: nat)
    ensures NoDup(AllGroups(groupRow, n))
    ensures forall g :: g in AllGroups(groupRow, n) <==> exists i :: 0 <= i < n && ColumnGroup(groupRow, i) == g
    ensures AllGroups(groupRow, n) != [] <==> n > 0
    ensures n > 0 ==> AllGroups(groupRow, n)[0] == ColumnGroup(groupRow, 0)
  {
    var cs := ColumnGroups(groupRow, n);
    DistinctSpec(cs);
    forall g | g in cs
      ensures exists i :: 0 <= i < n && ColumnGroup(groupRow, i) == g
    {
      var i :| 0 <= i < n && cs[i] == g;
      ColumnGroupsAt(groupRow, n, i);
    }
    forall i | 0 <= i < n
      ensures ColumnGroup(groupRow, i) in cs
    {
      ColumnGroupsAt(groupRow, n, i);
    }
    if n > 0 {
      DistinctHead(cs);
      ColumnGroupsAt(groupRow, n, 0);
    }
  }

  /** `all_groups` lists groups in the order their first column appears. */
  lemma AllGroupsFirstSeen(groupRow: seq<Cell>, n: nat, p: nat, q: nat)
    requires p < q < |AllGroups(groupRow, n)|
    ensures AllGroups(groupRow, n)[p] in ColumnGroups(groupRow, n) && AllGroups(groupRow, n)[q] in ColumnGroups(groupRow, n)
    ensures FirstIndex(ColumnGroups(groupRow, n), AllGroups(groupRow, n)[p])
          < FirstIndex(ColumnGroups(groupRow, n), AllGroups(groupRow, n)[q])
  {
    DistinctFirstSeenOrder(ColumnGroups(groupRow, n), p, q);
  }

  /** The keys of `group_map`, in dictionary order, are the assigned keys with repeats dropped at first sight. */
  lemma {:induction false} GroupMapKeysAreAssignedKeys(groupRow: seq<Cell>, headerRow: seq<Cell>, n: nat)
    requires n <= |headerRow|
    ensures Keys(GroupMapAfter(groupRow, headerRow, n)) == Distinct(AssignedKeys(headerRow, n))
    ensures KeysDistinct(GroupMapAfter(groupRow, headerRow, n))
  {
    DistinctSpec(AssignedKeys(headerRow, n));
    if n > 0 {
      GroupMapKeysAreAssignedKeys(groupRow, headerRow, n - 1);
      if IsFieldHeader(headerRow[n - 1]) {
        DistinctSnoc(AssignedKeys(headerRow, n - 1), HeaderKey(headerRow[n - 1]));
      }
    }
  }

  /** The keys of `group_map` are exactly the usable headers; blank and "nan" headers never are. */
  lemma GroupMapKeys(groupRow: seq<Cell>, headerRow: seq<Cell>, k: string)
    ensures k in Keys(GroupMapAfter(groupRow, headerRow, |headerRow|))
        <==> exists j :: 0 <= j < |headerRow| && IsFieldHeader(headerRow[j]) && HeaderKey(headerRow[j]) == k
    ensures k == "" || k == "nan" ==> k !in Keys(GroupMapAfter(groupRow, headerRow, |headerRow|))
  {
    GroupMapKeysAreAssignedKeys(groupRow, headerRow, |headerRow|);
    DistinctSpec(AssignedKeys(headerRow, |headerRow|));
    AssignedKeysListHeaders(headerRow, |headerRow|, k);
  }

  lemma {:induction false} AssignedKeysListHeaders(headerRow: seq<Cell>, n: nat, k: string)
    requires n <= |headerRow|
    ensures k in AssignedKeys(headerRow, n) <==> exists j :: 0 <= j < n && IsFieldHeader(headerRow[j]) && HeaderKey(headerRow[j]) == k
  {
    if n > 0 {
      var prev := AssignedKeys(headerRow, n - 1);
      AssignedKeysListHeaders(headerRow, n - 1, k);
      var here := IsFieldHeader(headerRow[n - 1]) && HeaderKey(headerRow[n - 1]) == k;
      assert k in AssignedKeys(headerRow, n) <==> k in prev || here;
      if here {
        assert 0 <= n - 1 < n && IsFieldHeader(headerRow[n - 1]) && HeaderKey(headerRow[n - 1]) == k;
      }
      if exists j :: 0 <= j < n && IsFieldHeader(headerRow[j]) && HeaderKey(headerRow[j]) == k {
        var j :| 0 <= j < n && IsFieldHeader(headerRow[j]) && HeaderKey(headerRow[j]) == k;
        assert j < n - 1 || here;
      }
    }
  }

  /** For a header that repeats, the group of its last column wins. */
  lemma {:induction false} GroupMapLastWins(groupRow: seq<Cell>, headerRow: seq<Cell>, n: nat, j: nat)
    requires j < n <= |headerRow| && IsFieldHeader(headerRow[j])
    requires forall k :: j < k < n ==> !(IsFieldHeader(headerRow[k]) && HeaderKey(headerRow[k]) == HeaderKey(headerRow[j]))
    ensures Lookup(GroupMapAfter(groupRow, headerRow, n), HeaderKey(headerRow[j])) == Some(ColumnGroup(groupRow, j))
  {
    GroupMapStep(groupRow, headerRow, n - 1);
    if j < n - 1 {
      GroupMapLastWins(groupRow, headerRow, n - 1, j);
      if IsFieldHeader(headerRow[n - 1]) {
        PutOthers(GroupMapAfter(groupRow, headerRow, n - 1), HeaderKey(headerRow[n - 1]), ColumnGroup(groupRow, n - 1), HeaderKey(headerRow[j]));
      }
    }
  }

  /** Every group a field is mapped to is listed in `all_groups`. */
  lemma GroupMapValuesAreListed(groupRow: seq<Cell>, headerRow: seq<Cell>, n: nat)
    requires n <= |headerRow|
    ensures forall e :: e in GroupMapAfter(groupRow, headerRow, n) ==> e.1 in AllGroups(groupRow, n)
  {
    forall e | e in GroupMapAfter(groupRow, headerRow, n)
      ensures e.1 in AllGroups(groupRow, n)
    {
      GroupMapValueListed(groupRow, headerRow, n, e);
    }
  }

  lemma {:induction false} GroupMapValueListed(groupRow: seq<Cell>, headerRow: seq<Cell>, n: nat, e: (string, string))
    requires n <= |headerRow| && e in GroupMapAfter(groupRow, headerRow, n)
    ensures e.1 in AllGroups(groupRow, n)
  {
    var m := GroupMapAfter(groupRow, headerRow, n - 1);
    var group := ColumnGroup(groupRow, n - 1);
    GroupMapStep(groupRow, headerRow, n - 1);
    AllGroupsGrow(groupRow, n - 1, e.1);
    if IsFieldHeader(headerRow[n - 1]) {
      PutEntries(m, HeaderKey(headerRow[n - 1]), group, e);
    }
    if e.1 != group {
      GroupMapValueListed(groupRow, headerRow, n - 1, e);
    }
  }

  /** `all_groups` only grows, and after a column it lists that column's group. */
  lemma AllGroupsGrow(groupRow: seq<Cell>, i: nat, g: string)
    ensures g in AllGroups(groupRow, i) || g == ColumnGroup(groupRow, i) ==> g in AllGroups(groupRow, i + 1)
  {
    AllGroupsStep(groupRow, i);
  }
}
