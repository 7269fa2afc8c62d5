/** The reshape stage of `convert` (wide2long/core.py:55-82): source columns are tagged
    with their `(element, variable)` pair, the frame is melted column by column, and the
    long rows are pivoted back into one row per `(id tuple, element)` with one column per
    variable, keeping the first non-missing value of each cell. */
module Reshaping {
  import opened Wrappers
  import opened Seqs
  import opened Model

  /** No cell of an id tuple is missing: the pivot's grouping drops every other tuple. */
  predicate AllPresent(t: seq<Cell>)
  {
    forall i :: 0 <= i < |t| ==> t[i].Some?
  }

  /** The id cells of one input row. */
  function IdTuple(row: map<string, Cell>, idCols: seq<string>): (t: seq<Cell>)
    ensures |t| == |idCols|
  {
    seq(|idCols|, i requires 0 <= i < |idCols| => Get(row, idCols[i]))
  }

  /** One row of the melted frame after the tag is split: the id tuple, the
      `(element, variable)` pair of the column it came from, and the cell. */
  datatype MeltRow = MeltRow(ids: seq<Cell>, target: Target, value: Cell)

  /** The melted rows of one source column tagged `t`, in row order. */
  function MeltColumn(rows: seq<map<string, Cell>>, idCols: seq<string>, k: string, t: Target): (ms: seq<MeltRow>)
    ensures |ms| == |rows|
  {
    if |rows| == 0 then []
    else MeltColumn(rows[..|rows| - 1], idCols, k, t)
         + [MeltRow(IdTuple(rows[|rows| - 1], idCols), t, Get(rows[|rows| - 1], k))]
  }

  /** `melt` over the tagged columns: column after column in the order `keys` lists them,
      each column row after row. */
  function Melt(rows: seq<map<string, Cell>>, keys: seq<string>, table: map<string, Target>, idCols: seq<string>): seq<MeltRow>
    requires forall k :: k in keys ==> k in table
  {
    if |keys| == 0 then []
    else Melt(rows, keys[..|keys| - 1], table, idCols)
         + MeltColumn(rows, idCols, keys[|keys| - 1], table[keys[|keys| - 1]])
  }

  /** A melted row the pivot aggregates: its id tuple is complete and its value present
      (`groupby` drops incomplete keys, `first` skips missing values). */
  predicate Useful(m: MeltRow)
  {
    AllPresent(m.ids) && m.value.Some?
  }

  /** `aggfunc="first"` for the group `(idt, t)`: the value of the first useful melted row
      of that group. */
  function FirstValue(ms: seq<MeltRow>, idt: seq<Cell>, t: Target): Cell
  {
    if |ms| == 0 then None
    else if Useful(ms[0]) && ms[0].ids == idt && ms[0].target == t then ms[0].value
    else FirstValue(ms[1..], idt, t)
  }

  /** The first useful row of a group in `a + b` is in `a` when `a` has one. */
  lemma {:induction false} FirstValueAppend(a: seq<MeltRow>, b: seq<MeltRow>, idt: seq<Cell>, t: Target)
    ensures FirstValue(a + b, idt, t) == if FirstValue(a, idt, t).Some? then FirstValue(a, idt, t) else FirstValue(b, idt, t)
  {
    if |a| > 0 {
      assert (a + b)[1..] == a[1..] + b;
      FirstValueAppend(a[1..], b, idt, t);
    } else {
      assert a + b == b;
    }
  }

  /** The group's value is present exactly when some useful melted row belongs to it, and
      then it is the value of the first such row. */
  lemma {:induction false} FirstValueMeaning(ms: seq<MeltRow>, idt: seq<Cell>, t: Target)
    ensures FirstValue(ms, idt, t).Some? <==>
              exists i :: 0 <= i < |ms| && Useful(ms[i]) && ms[i].ids == idt && ms[i].target == t
    ensures FirstValue(ms, idt, t).Some? ==>
              exists i :: 0 <= i < |ms| && Useful(ms[i]) && ms[i].ids == idt && ms[i].target == t
                          && ms[i].value == FirstValue(ms, idt, t)
  {
    if |ms| > 0 && !(Useful(ms[0]) && ms[0].ids == idt && ms[0].target == t) {
      var tail := ms[1..];
      FirstValueMeaning(tail, idt, t);
      if FirstValue(ms, idt, t).Some? {
        var i :| 0 <= i < |tail| && Useful(tail[i]) && tail[i].ids == idt && tail[i].target == t
                 && tail[i].value == FirstValue(ms, idt, t);
        assert ms[i + 1] == tail[i];
      } else {
        forall i | 0 <= i < |ms| ensures !(Useful(ms[i]) && ms[i].ids == idt && ms[i].target == t) {
          if i > 0 { assert ms[i] == tail[i - 1]; }
        }
      }
    }
  }

  /** Reference definition, in terms of the input frame: the first non-missing value in
      column `k` among the rows whose id tuple is `idt`. */
  function RowFirst(rows: seq<map<string, Cell>>, idCols: seq<string>, idt: seq<Cell>, k: string): Cell
  {
    if |rows| == 0 then None
    else
      var before := RowFirst(rows[..|rows| - 1], idCols, idt, k);
      var last := rows[|rows| - 1];
      if before.Some? then before
      else if AllPresent(idt) && IdTuple(last, idCols) == idt then Get(last, k)
      else None
  }

  /** Reference definition of a cell: the first source column in `keys` that is mapped
      to `t` and has a non-missing value for `idt`, read in row order. */
  function ColumnFirst(rows: seq<map<string, Cell>>, keys: seq<string>, table: map<string, Target>,
                       idCols: seq<string>, idt: seq<Cell>, t: Target): Cell
    requires forall k :: k in keys ==> k in table
  {
    if |keys| == 0 then None
    else
      var before := ColumnFirst(rows, keys[..|keys| - 1], table, idCols, idt, t);
      var k := keys[|keys| - 1];
      if before.Some? then before
      else if table[k] == t then RowFirst(rows, idCols, idt, k)
      else None
  }

  /** Within one melted column the group's first value is the column's first value for
      the id tuple, and nothing when the column carries another tag. */
  lemma {:induction false} MeltColumnFirst(rows: seq<map<string, Cell>>, idCols: seq<string>, k: string,
                                           tk: Target, idt: seq<Cell>, t: Target)
    ensures FirstValue(MeltColumn(rows, idCols, k, tk), idt, t)
            == if tk == t then RowFirst(rows, idCols, idt, k) else None
  {
    if |rows| > 0 {
      var init := rows[..|rows| - 1];
      var last := rows[|rows| - 1];
      var m := MeltRow(IdTuple(last, idCols), tk, Get(last, k));
      MeltColumnFirst(init, idCols, k, tk, idt, t);
      FirstValueAppend(MeltColumn(init, idCols, k, tk), [m], idt, t);
      assert FirstValue([m], idt, t) == if Useful(m) && m.ids == idt && m.target == t then m.value else None by {
        assert [m][1..] == [];
      }
    }
  }

  /** `aggfunc="first"` over the melted frame keeps the first non-missing value in
      column order, and within one source column in row order. */
  lemma {:induction false} MeltFirst(rows: seq<map<string, Cell>>, keys: seq<string>, table: map<string, Target>,
                                     idCols: seq<string>, idt: seq<Cell>, t: Target)
    requires forall k :: k in keys ==> k in table
    ensures FirstValue(Melt(rows, keys, table, idCols), idt, t) == ColumnFirst(rows, keys, table, idCols, idt, t)
  {
    if |keys| > 0 {
      var init := keys[..|keys| - 1];
      var k := keys[|keys| - 1];
      MeltFirst(rows, init, table, idCols, idt, t);
      FirstValueAppend(Melt(rows, init, table, idCols), MeltColumn(rows, idCols, k, table[k]), idt, t);
      MeltColumnFirst(rows, idCols, k, table[k], idt, t);
    }
  }

  /** The first value of a column for an id tuple: present exactly when the tuple is
      complete and some row with that tuple has a value in the column, and then it is the
      value of the first such row. */
  lemma {:induction false} RowFirstMeaning(rows: seq<map<string, Cell>>, idCols: seq<string>, idt: seq<Cell>, k: string)
    ensures RowFirst(rows, idCols, idt, k).Some? <==>
              AllPresent(idt) && exists j :: 0 <= j < |rows| && IdTuple(rows[j], idCols) == idt && Get(rows[j], k).Some?
    ensures RowFirst(rows, idCols, idt, k).Some? ==>
              exists j :: 0 <= j < |rows| && IdTuple(rows[j], idCols) == idt && Get(rows[j], k) == RowFirst(rows, idCols, idt, k)
                          && forall j' :: 0 <= j' < j && IdTuple(rows[j'], idCols) == idt ==> Get(rows[j'], k).None?
  {
    if |rows| > 0 {
      var init := rows[..|rows| - 1];
      RowFirstMeaning(init, idCols, idt, k);
      assert forall j :: 0 <= j < |init| ==> init[j] == rows[j];
    }
  }

  /** A cell is present exactly when some source column mapped to its pair has a value
      for the id tuple, and then it is the value of the first such column in `keys`. */
  lemma {:induction false} ColumnFirstMeaning(rows: seq<map<string, Cell>>, keys: seq<string>, table: map<string, Target>,
                                              idCols: seq<string>, idt: seq<Cell>, t: Target)
    requires forall k :: k in keys ==> k in table
    ensures ColumnFirst(rows, keys, table, idCols, idt, t).Some? <==>
              exists i :: 0 <= i < |keys| && table[keys[i]] == t && RowFirst(rows, idCols, idt, keys[i]).Some?
    ensures ColumnFirst(rows, keys, table, idCols, idt, t).Some? ==>
              exists i :: 0 <= i < |keys| && table[keys[i]] == t
                          && RowFirst(rows, idCols, idt, keys[i]) == ColumnFirst(rows, keys, table, idCols, idt, t)
                          && forall i' :: 0 <= i' < i && table[keys[i']] == t ==> RowFirst(rows, idCols, idt, keys[i']).None?
  {
    if |keys| > 0 {
      var init := keys[..|keys| - 1];
      ColumnFirstMeaning(rows, init, table, idCols, idt, t);
      assert forall i :: 0 <= i < |init| ==> init[i] == keys[i];
    }
  }

  /** When exactly one source column is mapped to `t`, a cell is that column's first value
      for the id tuple. */
  lemma {:induction false} CellUniqueSource(rows: seq<map<string, Cell>>, keys: seq<string>, table: map<string, Target>,
                                            idCols: seq<string>, idt: seq<Cell>, t: Target, i: nat)
    requires forall k :: k in keys ==> k in table
    requires i < |keys| && table[keys[i]] == t
    requires forall i' :: 0 <= i' < |keys| && table[keys[i']] == t ==> keys[i'] == keys[i]
    ensures ColumnFirst(rows, keys, table, idCols, idt, t) == RowFirst(rows, idCols, idt, keys[i])
  {
    ColumnFirstMeaning(rows, keys, table, idCols, idt, t);
    RowFirstMeaning(rows, idCols, idt, keys[i]);
  }

  /** When exactly one input row has the id tuple, a column's first value for it is that
      row's cell (nothing when the tuple has a missing id). */
  lemma {:induction false} CellUniqueRow(rows: seq<map<string, Cell>>, idCols: seq<string>, k: string, j: nat)
    requires j < |rows|
    requires forall j' :: 0 <= j' < |rows| && j' != j ==> IdTuple(rows[j'], idCols) != IdTuple(rows[j], idCols)
    ensures RowFirst(rows, idCols, IdTuple(rows[j], idCols), k)
            == if AllPresent(IdTuple(rows[j], idCols)) then Get(rows[j], k) else None
  {
    RowFirstMeaning(rows, idCols, IdTuple(rows[j], idCols), k);
  }

  /** A pair no source column is mapped to gives a missing cell everywhere. */
  lemma CellMissingWhenUnmapped(rows: seq<map<string, Cell>>, keys: seq<string>, table: map<string, Target>,
                                idCols: seq<string>, idt: seq<Cell>, t: Target)
    requires forall k :: k in keys ==> k in table
    requires forall k :: k in keys ==> table[k] != t
    ensures ColumnFirst(rows, keys, table, idCols, idt, t).None?
  {
    ColumnFirstMeaning(rows, keys, table, idCols, idt, t);
  }

  /** The `(id tuple, element)` keys of the useful melted rows, in melted order. */
  function GroupKeys(ms: seq<MeltRow>): seq<(seq<Cell>, string)>
  {
    if |ms| == 0 then []
    else
      var last := ms[|ms| - 1];
      GroupKeys(ms[..|ms| - 1]) + if Useful(last) then [(last.ids, last.target.element)] else []
  }

  /** The variables of the useful melted rows, in melted order. */
  function GroupVariables(ms: seq<MeltRow>): seq<string>
  {
    if |ms| == 0 then []
    else
      var last := ms[|ms| - 1];
      GroupVariables(ms[..|ms| - 1]) + if Useful(last) then [last.target.variable] else []
  }

  lemma {:induction false} GroupKeysMember(ms: seq<MeltRow>, key: (seq<Cell>, string))
    ensures key in GroupKeys(ms) <==> exists m :: m in ms && Useful(m) && (m.ids, m.target.element) == key
  {
    if |ms| > 0 {
      GroupKeysMember(ms[..|ms| - 1], key);
      assert forall m :: m in ms <==> m in ms[..|ms| - 1] || m == ms[|ms| - 1];
    }
  }

  lemma {:induction false} GroupVariablesMember(ms: seq<MeltRow>, v: string)
    ensures v in GroupVariables(ms) <==> exists m :: m in ms && Useful(m) && m.target.variable == v
  {
    if |ms| > 0 {
      GroupVariablesMember(ms[..|ms| - 1], v);
      assert forall m :: m in ms <==> m in ms[..|ms| - 1] || m == ms[|ms| - 1];
    }
  }

  /** `pivot_table(values="value", index=id_cols + ["element"], columns="__col",
      aggfunc="first")` followed by `reset_index`: one row per `(id tuple, element)` group
      that has a value, one column per variable that has a value, each cell the group's
      first value. */
  function Pivot(ms: seq<MeltRow>, idCols: seq<string>): LongTable
  {
    var keys := Distinct(GroupKeys(ms));
    var vars := Distinct(GroupVariables(ms));
    LongTable(idCols + ["element"] + vars,
              seq(|keys|, i requires 0 <= i < |keys| =>
                LongRow(keys[i].0, keys[i].1, map v | v in vars :: FirstValue(ms, keys[i].0, Target(keys[i].1, v)))))
  }

  /** The columns `melt` unpivots, in frame order: the frame's columns that `colmap` maps.
      `rename` skips a mapped column the frame lacks, and `melt` selects every column
      carrying one of the tags, so columns sharing a tag keep their frame order. */
  function TaggedColumns(columns: seq<string>, table: map<string, Target>): (keys: seq<string>)
    ensures forall k :: k in keys <==> k in columns && k in table
  {
    if |columns| == 0 then []
    else
      var c := columns[|columns| - 1];
      TaggedColumns(columns[..|columns| - 1], table) + if c in table then [c] else []
  }

  /** Mapping a label that is not a frame column leaves the melted columns as they were. */
  lemma {:induction false} TaggedColumnsIgnoreAbsent(columns: seq<string>, table: map<string, Target>, k: string, t: Target)
    requires k !in columns
    ensures TaggedColumns(columns, table[k := t]) == TaggedColumns(columns, table)
  {
    if |columns| > 0 {
      TaggedColumnsIgnoreAbsent(columns[..|columns| - 1], table, k, t);
    }
  }

  /** Melting reads the table only at the melted columns. */
  lemma {:induction false} MeltIgnoresUnlisted(rows: seq<map<string, Cell>>, keys: seq<string>, table: map<string, Target>,
                                               idCols: seq<string>, k: string, t: Target)
    requires forall c :: c in keys ==> c in table
    requires k !in keys
    ensures Melt(rows, keys, table[k := t], idCols) == Melt(rows, keys, table, idCols)
  {
    if |keys| > 0 {
      MeltIgnoresUnlisted(rows, keys[..|keys| - 1], table, idCols, k, t);
    }
  }

  /** The reshape stage: rename to tags, melt, split the tags and pivot. */
  function Reshape(f: Frame, cm: ColMap, idCols: seq<string>): LongTable
  {
    Pivot(Melt(f.rows, TaggedColumns(f.columns, cm.table), cm.table, idCols), idCols)
  }

  /** An extra `colmap` entry for a label that is not a frame column leaves the reshape
      unchanged: `rename` skips it, so no column carries its tag. */
  lemma ReshapeIgnoresAbsent(f: Frame, cm: ColMap, idCols: seq<string>, k: string, t: Target)
    requires k !in f.columns
    ensures Reshape(f, ColMap(cm.order + [k], cm.table[k := t]), idCols) == Reshape(f, cm, idCols)
  {
    TaggedColumnsIgnoreAbsent(f.columns, cm.table, k, t);
    MeltIgnoresUnlisted(f.rows, TaggedColumns(f.columns, cm.table), cm.table, idCols, k, t);
  }

  lemma {:induction false} MeltColumnMember(rows: seq<map<string, Cell>>, idCols: seq<string>, k: string, t: Target, m: MeltRow)
    ensures m in MeltColumn(rows, idCols, k, t) <==>
              exists b :: 0 <= b < |rows| && m == MeltRow(IdTuple(rows[b], idCols), t, Get(rows[b], k))
  {
    if |rows| > 0 {
      var init := rows[..|rows| - 1];
      MeltColumnMember(init, idCols, k, t, m);
      assert forall b :: 0 <= b < |init| ==> init[b] == rows[b];
    }
  }

  /** The melted frame holds one row per source column and input row, and nothing else. */
  lemma {:induction false} MeltMember(rows: seq<map<string, Cell>>, keys: seq<string>, table: map<string, Target>,
                                      idCols: seq<string>, m: MeltRow)
    requires forall k :: k in keys ==> k in table
    ensures m in Melt(rows, keys, table, idCols) <==>
              exists a, b :: 0 <= a < |keys| && 0 <= b < |rows|
                             && m == MeltRow(IdTuple(rows[b], idCols), table[keys[a]], Get(rows[b], keys[a]))
  {
    if |keys| > 0 {
      var init := keys[..|keys| - 1];
      var k := keys[|keys| - 1];
      MeltMember(rows, init, table, idCols, m);
      MeltColumnMember(rows, idCols, k, table[k], m);
      if m in Melt(rows, init, table, idCols) {
        var a, b :| 0 <= a < |init| && 0 <= b < |rows|
                    && m == MeltRow(IdTuple(rows[b], idCols), table[init[a]], Get(rows[b], init[a]));
        assert init[a] == keys[a];
      } else if m in MeltColumn(rows, idCols, k, table[k]) {
        var b :| 0 <= b < |rows| && m == MeltRow(IdTuple(rows[b], idCols), table[k], Get(rows[b], k));
        assert keys[|keys| - 1] == k;
      } else {
        forall a, b | 0 <= a < |keys| && 0 <= b < |rows|
          ensures m != MeltRow(IdTuple(rows[b], idCols), table[keys[a]], Get(rows[b], keys[a]))
        {
          if a < |init| {
            assert init[a] == keys[a];
          }
        }
      }
    }
  }

  /** Input row `b` contributes a value through source column `k`: its id tuple is
      complete and its cell in `k` is present. */
  predicate Contributes(f: Frame, idCols: seq<string>, b: int, k: string)
    requires 0 <= b < |f.rows|
  {
    AllPresent(IdTuple(f.rows[b], idCols)) && Get(f.rows[b], k).Some?
  }

  /** The output has a row for the id tuple `idt` and element `e`. */
  predicate HasRow(out: LongTable, idt: seq<Cell>, e: string)
  {
    exists i :: 0 <= i < |out.rows| && out.rows[i].ids == idt && out.rows[i].element == e
  }

  /** The output has a column for the variable `v` after the id columns and `element`. */
  predicate HasVariable(out: LongTable, idCols: seq<string>, v: string)
  {
    |out.columns| > |idCols| && v in out.columns[|idCols| + 1..]
  }

  /** Each mapped frame column melts each input row. */
  lemma MeltedFromColumn(f: Frame, cm: ColMap, idCols: seq<string>, k: string, b: nat)
    requires k in f.columns && k in cm.table && b < |f.rows|
    ensures MeltRow(IdTuple(f.rows[b], idCols), cm.table[k], Get(f.rows[b], k))
            in Melt(f.rows, TaggedColumns(f.columns, cm.table), cm.table, idCols)
  {
    var keys := TaggedColumns(f.columns, cm.table);
    var a :| 0 <= a < |keys| && keys[a] == k;
    MeltMember(f.rows, keys, cm.table, idCols, MeltRow(IdTuple(f.rows[b], idCols), cm.table[k], Get(f.rows[b], k)));
  }

  /** Each melted row comes from a mapped frame column and an input row. */
  lemma MeltedColumnOf(f: Frame, cm: ColMap, idCols: seq<string>, m: MeltRow)
    requires m in Melt(f.rows, TaggedColumns(f.columns, cm.table), cm.table, idCols)
    ensures exists k, b :: k in f.columns && k in cm.table && 0 <= b < |f.rows|
                           && m == MeltRow(IdTuple(f.rows[b], idCols), cm.table[k], Get(f.rows[b], k))
  {
    var keys := TaggedColumns(f.columns, cm.table);
    MeltMember(f.rows, keys, cm.table, idCols, m);
    var a, b :| 0 <= a < |keys| && 0 <= b < |f.rows|
                && m == MeltRow(IdTuple(f.rows[b], idCols), cm.table[keys[a]], Get(f.rows[b], keys[a]));
    assert keys[a] in keys;
  }

  /** The melted row of a contributing input row is useful. */
  lemma ContributionMelted(f: Frame, cm: ColMap, idCols: seq<string>, k: string, b: nat)
    requires k in f.columns && k in cm.table && b < |f.rows| && Contributes(f, idCols, b, k)
    ensures var m := MeltRow(IdTuple(f.rows[b], idCols), cm.table[k], Get(f.rows[b], k));
            m in Melt(f.rows, TaggedColumns(f.columns, cm.table), cm.table, idCols) && Useful(m)
  {
    MeltedFromColumn(f, cm, idCols, k, b);
  }

  /** A useful melted row comes from a contributing input row. */
  lemma MeltedContribution(f: Frame, cm: ColMap, idCols: seq<string>, m: MeltRow)
    requires m in Melt(f.rows, TaggedColumns(f.columns, cm.table), cm.table, idCols) && Useful(m)
    ensures exists k, b :: k in f.columns && k in cm.table && 0 <= b < |f.rows| && Contributes(f, idCols, b, k)
                           && m == MeltRow(IdTuple(f.rows[b], idCols), cm.table[k], Get(f.rows[b], k))
  {
    MeltedColumnOf(f, cm, idCols, m);
  }

  /** A useful melted row is an input row contributing through a mapped column of the frame. */
  lemma UsefulMelted(f: Frame, cm: ColMap, idCols: seq<string>, m: MeltRow)
    ensures (m in Melt(f.rows, TaggedColumns(f.columns, cm.table), cm.table, idCols) && Useful(m)) <==>
              exists k, b :: k in f.columns && k in cm.table && 0 <= b < |f.rows| && Contributes(f, idCols, b, k)
                             && m == MeltRow(IdTuple(f.rows[b], idCols), cm.table[k], Get(f.rows[b], k))
  {
    if m in Melt(f.rows, TaggedColumns(f.columns, cm.table), cm.table, idCols) && Useful(m) {
      MeltedContribution(f, cm, idCols, m);
    } else {
      forall k, b | k in f.columns && k in cm.table && 0 <= b < |f.rows| && Contributes(f, idCols, b, k)
        ensures m != MeltRow(IdTuple(f.rows[b], idCols), cm.table[k], Get(f.rows[b], k))
      {
        ContributionMelted(f, cm, idCols, k, b);
      }
    }
  }

  /** The pivot has a row for a key exactly when some useful melted row has that key,
      and never two rows for one key. */
  lemma PivotRows(ms: seq<MeltRow>, idCols: seq<string>, idt: seq<Cell>, e: string)
    ensures var out := Pivot(ms, idCols);
            forall i, j :: 0 <= i < j < |out.rows| ==>
              (out.rows[i].ids, out.rows[i].element) != (out.rows[j].ids, out.rows[j].element)
    ensures HasRow(Pivot(ms, idCols), idt, e) <==>
              exists m :: m in ms && Useful(m) && (m.ids, m.target.element) == (idt, e)
  {
    var keys := Distinct(GroupKeys(ms));
    GroupKeysMember(ms, (idt, e));
    if (idt, e) in keys {
      var i :| 0 <= i < |keys| && keys[i] == (idt, e);
      assert Pivot(ms, idCols).rows[i].ids == idt && Pivot(ms, idCols).rows[i].element == e;
    }
  }

  /** A contributing input row yields an output row for its id tuple and the element of
      the column. */
  lemma ContributionGivesRow(f: Frame, cm: ColMap, idCols: seq<string>, b: nat, k: string)
    requires b < |f.rows| && k in f.columns && k in cm.table && Contributes(f, idCols, b, k)
    ensures HasRow(Reshape(f, cm, idCols), IdTuple(f.rows[b], idCols), cm.table[k].element)
  {
    var ms := Melt(f.rows, TaggedColumns(f.columns, cm.table), cm.table, idCols);
    var idt := IdTuple(f.rows[b], idCols);
    var m := MeltRow(idt, cm.table[k], Get(f.rows[b], k));
    UsefulMelted(f, cm, idCols, m);
    PivotRows(ms, idCols, idt, cm.table[k].element);
  }

  /** Every output row comes from a contributing input row. */
  lemma RowHasContribution(f: Frame, cm: ColMap, idCols: seq<string>, idt: seq<Cell>, e: string)
    requires HasRow(Reshape(f, cm, idCols), idt, e)
    ensures exists b, k :: 0 <= b < |f.rows| && k in f.columns && k in cm.table && Contributes(f, idCols, b, k)
                           && IdTuple(f.rows[b], idCols) == idt && cm.table[k].element == e
  {
    var ms := Melt(f.rows, TaggedColumns(f.columns, cm.table), cm.table, idCols);
    PivotRows(ms, idCols, idt, e);
    var m :| m in ms && Useful(m) && (m.ids, m.target.element) == (idt, e);
    UsefulMelted(f, cm, idCols, m);
  }

  /** The output has a row for `(idt, e)` exactly when some input row with id tuple
      `idt`, complete, has a value in a column mapped to element `e`. */
  lemma ReshapeRow(f: Frame, cm: ColMap, idCols: seq<string>, idt: seq<Cell>, e: string)
    ensures HasRow(Reshape(f, cm, idCols), idt, e) <==>
              exists b, k :: 0 <= b < |f.rows| && k in f.columns && k in cm.table && Contributes(f, idCols, b, k)
                             && IdTuple(f.rows[b], idCols) == idt && cm.table[k].element == e
  {
    if HasRow(Reshape(f, cm, idCols), idt, e) {
      RowHasContribution(f, cm, idCols, idt, e);
    }
    if exists b, k :: 0 <= b < |f.rows| && k in f.columns && k in cm.table && Contributes(f, idCols, b, k)
                      && IdTuple(f.rows[b], idCols) == idt && cm.table[k].element == e {
      var b, k :| 0 <= b < |f.rows| && k in f.columns && k in cm.table && Contributes(f, idCols, b, k)
                  && IdTuple(f.rows[b], idCols) == idt && cm.table[k].element == e;
      ContributionGivesRow(f, cm, idCols, b, k);
    }
  }

  /** There is exactly one output row per `(id tuple, element)` for which some input row
      with a complete id tuple has a value in a column mapped to that element, and no
      other row. */
  lemma ReshapeRows(f: Frame, cm: ColMap, idCols: seq<string>)
    ensures var out := Reshape(f, cm, idCols);
            forall i, j :: 0 <= i < j < |out.rows| ==>
              (out.rows[i].ids, out.rows[i].element) != (out.rows[j].ids, out.rows[j].element)
    ensures forall idt, e :: HasRow(Reshape(f, cm, idCols), idt, e) <==>
              exists b, k :: 0 <= b < |f.rows| && k in f.columns && k in cm.table && Contributes(f, idCols, b, k)
                             && IdTuple(f.rows[b], idCols) == idt && cm.table[k].element == e
  {
    PivotRows(Melt(f.rows, TaggedColumns(f.columns, cm.table), cm.table, idCols), idCols, [], "");
    forall idt, e
      ensures HasRow(Reshape(f, cm, idCols), idt, e) <==>
              exists b, k :: 0 <= b < |f.rows| && k in f.columns && k in cm.table && Contributes(f, idCols, b, k)
                             && IdTuple(f.rows[b], idCols) == idt && cm.table[k].element == e
    {
      ReshapeRow(f, cm, idCols, idt, e);
    }
  }

  /** The variable columns of a pivot: each variable of a useful melted row, once. */
  lemma PivotVariables(ms: seq<MeltRow>, idCols: seq<string>, v: string)
    ensures var cols := Pivot(ms, idCols).columns;
            |cols| > |idCols| && cols[..|idCols| + 1] == idCols + ["element"]
            && NoDups(cols[|idCols| + 1..])
    ensures v in Pivot(ms, idCols).columns[|idCols| + 1..] <==>
              exists m :: m in ms && Useful(m) && m.target.variable == v
  {
    var cols := Pivot(ms, idCols).columns;
    assert cols[..|idCols| + 1] == idCols + ["element"];
    assert cols[|idCols| + 1..] == Distinct(GroupVariables(ms));
    GroupVariablesMember(ms, v);
  }

  /** A contributing input row puts the variable of its column among the output columns. */
  lemma ContributionGivesVariable(f: Frame, cm: ColMap, idCols: seq<string>, b: nat, k: string)
    requires b < |f.rows| && k in f.columns && k in cm.table && Contributes(f, idCols, b, k)
    ensures HasVariable(Reshape(f, cm, idCols), idCols, cm.table[k].variable)
  {
    var ms := Melt(f.rows, TaggedColumns(f.columns, cm.table), cm.table, idCols);
    var m := MeltRow(IdTuple(f.rows[b], idCols), cm.table[k], Get(f.rows[b], k));
    UsefulMelted(f, cm, idCols, m);
    PivotVariables(ms, idCols, cm.table[k].variable);
  }

  /** Every variable column comes from a contributing input row. */
  lemma VariableHasContribution(f: Frame, cm: ColMap, idCols: seq<string>, v: string)
    requires HasVariable(Reshape(f, cm, idCols), idCols, v)
    ensures exists b, k :: 0 <= b < |f.rows| && k in f.columns && k in cm.table && Contributes(f, idCols, b, k)
                           && cm.table[k].variable == v
  {
    var ms := Melt(f.rows, TaggedColumns(f.columns, cm.table), cm.table, idCols);
    PivotVariables(ms, idCols, v);
    var m :| m in ms && Useful(m) && m.target.variable == v;
    UsefulMelted(f, cm, idCols, m);
  }

  /** The output columns are the id columns, then `element`, then each variable once:
      exactly the variables of mapped columns in which some input row with a complete id
      tuple has a value. */
  lemma ReshapeColumns(f: Frame, cm: ColMap, idCols: seq<string>)
    ensures var cols := Reshape(f, cm, idCols).columns;
            |cols| > |idCols| && cols[..|idCols| + 1] == idCols + ["element"]
            && NoDups(cols[|idCols| + 1..])
    ensures forall v :: HasVariable(Reshape(f, cm, idCols), idCols, v) <==>
              exists b, k :: 0 <= b < |f.rows| && k in f.columns && k in cm.table && Contributes(f, idCols, b, k)
                             && cm.table[k].variable == v
  {
    PivotVariables(Melt(f.rows, TaggedColumns(f.columns, cm.table), cm.table, idCols), idCols, "");
    forall v
      ensures HasVariable(Reshape(f, cm, idCols), idCols, v) <==>
              exists b, k :: 0 <= b < |f.rows| && k in f.columns && k in cm.table && Contributes(f, idCols, b, k)
                             && cm.table[k].variable == v
    {
      if HasVariable(Reshape(f, cm, idCols), idCols, v) {
        VariableHasContribution(f, cm, idCols, v);
      }
      if exists b, k :: 0 <= b < |f.rows| && k in f.columns && k in cm.table && Contributes(f, idCols, b, k)
                        && cm.table[k].variable == v {
        var b, k :| 0 <= b < |f.rows| && k in f.columns && k in cm.table && Contributes(f, idCols, b, k)
                    && cm.table[k].variable == v;
        ContributionGivesVariable(f, cm, idCols, b, k);
      }
    }
  }

  /** Every output row has a cell for each variable column and no other; the cell is the
      first non-missing value, in frame column order and then row order, among the source
      columns mapped to its element and variable and the input rows with its id tuple. */
  lemma ReshapeCells(f: Frame, cm: ColMap, idCols: seq<string>)
    ensures var out := Reshape(f, cm, idCols);
            forall i, v :: 0 <= i < |out.rows| ==>
              (v in out.rows[i].values <==> HasVariable(out, idCols, v))
    ensures var out := Reshape(f, cm, idCols);
            forall i, v :: 0 <= i < |out.rows| && v in out.rows[i].values ==>
              out.rows[i].values[v]
              == ColumnFirst(f.rows, TaggedColumns(f.columns, cm.table), cm.table, idCols, out.rows[i].ids, Target(out.rows[i].element, v))
  {
    var ms := Melt(f.rows, TaggedColumns(f.columns, cm.table), cm.table, idCols);
    var out := Reshape(f, cm, idCols);
    PivotVariables(ms, idCols, "");
    forall i, v | 0 <= i < |out.rows| && v in out.rows[i].values
      ensures out.rows[i].values[v]
              == ColumnFirst(f.rows, TaggedColumns(f.columns, cm.table), cm.table, idCols, out.rows[i].ids, Target(out.rows[i].element, v))
    {
      MeltFirst(f.rows, TaggedColumns(f.columns, cm.table), cm.table, idCols, out.rows[i].ids, Target(out.rows[i].element, v));
    }
  }

  /** Every mapped column in the frame and every id cell and mapped cell present (the case
      the reshape is designed for): the variable columns are exactly the variables of `colmap`. */
  lemma CompleteInputVariables(f: Frame, cm: ColMap, idCols: seq<string>)
    requires |f.rows| > 0
    requires forall k :: k in cm.table ==> k in f.columns
    requires forall b, k :: 0 <= b < |f.rows| && k in cm.table ==> Contributes(f, idCols, b, k)
    ensures forall v :: HasVariable(Reshape(f, cm, idCols), idCols, v) <==>
              exists k :: k in cm.table && cm.table[k].variable == v
  {
    forall v ensures HasVariable(Reshape(f, cm, idCols), idCols, v) <==>
                     exists k :: k in cm.table && cm.table[k].variable == v
    {
      if HasVariable(Reshape(f, cm, idCols), idCols, v) {
        VariableHasContribution(f, cm, idCols, v);
      }
      if exists k :: k in cm.table && cm.table[k].variable == v {
        var k :| k in cm.table && cm.table[k].variable == v;
        ContributionGivesVariable(f, cm, idCols, 0, k);
      }
    }
  }

  /** With every id cell and every mapped cell present, the rows are exactly the input id
      tuples crossed with the elements of `colmap`. */
  lemma CompleteInputRows(f: Frame, cm: ColMap, idCols: seq<string>)
    requires forall k :: k in cm.table ==> k in f.columns
    requires forall b, k :: 0 <= b < |f.rows| && k in cm.table ==> Contributes(f, idCols, b, k)
    ensures forall idt, e :: HasRow(Reshape(f, cm, idCols), idt, e) <==>
              exists b, k :: 0 <= b < |f.rows| && k in cm.table
                             && IdTuple(f.rows[b], idCols) == idt && cm.table[k].element == e
  {
    forall idt, e ensures HasRow(Reshape(f, cm, idCols), idt, e) <==>
                          exists b, k :: 0 <= b < |f.rows| && k in cm.table
                                         && IdTuple(f.rows[b], idCols) == idt && cm.table[k].element == e
    {
      ReshapeRow(f, cm, idCols, idt, e);
    }
  }

  /** With every cell present, a column that is the only one mapped to `(e, v)` and an
      input row whose id tuple no other row shares, the output row for that tuple and `e`
      holds the row's value of that column under `v`. */
  lemma CompleteInputCell(f: Frame, cm: ColMap, idCols: seq<string>, b: nat, k: string, i: nat)
    requires forall k' :: k' in cm.table ==> k' in f.columns
    requires forall b', k' :: 0 <= b' < |f.rows| && k' in cm.table ==> Contributes(f, idCols, b', k')
    requires b < |f.rows| && k in cm.table
    requires forall b' :: 0 <= b' < |f.rows| && b' != b ==> IdTuple(f.rows[b'], idCols) != IdTuple(f.rows[b], idCols)
    requires forall k' :: k' in cm.table && k' != k ==> cm.table[k'] != cm.table[k]
    requires i < |Reshape(f, cm, idCols).rows|
    requires Reshape(f, cm, idCols).rows[i].ids == IdTuple(f.rows[b], idCols)
    requires Reshape(f, cm, idCols).rows[i].element == cm.table[k].element
    ensures cm.table[k].variable in Reshape(f, cm, idCols).rows[i].values
    ensures Reshape(f, cm, idCols).rows[i].values[cm.table[k].variable] == Get(f.rows[b], k)
  {
    var out := Reshape(f, cm, idCols);
    var t := cm.table[k];
    ReshapeCells(f, cm, idCols);
    ContributionGivesVariable(f, cm, idCols, b, k);
    var keys := TaggedColumns(f.columns, cm.table);
    var a :| 0 <= a < |keys| && keys[a] == k;
    CellUniqueSource(f.rows, keys, cm.table, idCols, out.rows[i].ids, t, a);
    CellUniqueRow(f.rows, idCols, k, b);
  }
}
