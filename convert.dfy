/** `convert` (wide2long/core.py:15-84): merge the selections, check them against the
    frame, and reshape the frame from wide to long. */
module Convert {
  import opened Wrappers
  import opened Seqs
  import opened Model
  import opened Merging
  import opened Reshaping

  /** `melt` refuses a frame that already has a column named like its `value_name`
      ("value"). After the rename, mapped columns carry tags, so only an unmapped column
      named "value" clashes. */
  predicate ValueColumnClash(f: Frame, cm: ColMap)
  {
    "value" in f.columns && "value" !in cm.table
  }

  /** Some mapped column of the frame is renamed to the tag of `t`. */
  predicate TagPresent(f: Frame, cm: ColMap, t: Target)
  {
    exists k :: k in f.columns && k in cm.table && cm.table[k] == t
  }

  /** `melt` raises a KeyError when a label it needs is not a column of the renamed frame.
      The label is either an id column that is absent or was renamed to a tag because it is
      itself mapped, or a tag in `value_vars` that no column of the frame was renamed to.
      `rename` skips an absent mapped column, so its tag is still found when another
      column of the frame is mapped to the same pair. */
  predicate MeltFails(f: Frame, cm: ColMap, idCols: seq<string>)
  {
    (exists c :: c in idCols && (c !in f.columns || c in cm.table))
    || (exists k :: k in cm.table && !TagPresent(f, cm, cm.table[k]))
  }

  /** The last of `idCols[..n]` that is also a variable column of `out`. */
  function LastIdVariable(out: LongTable, idCols: seq<string>, n: nat): (r: Option<string>)
    requires n <= |idCols|
    ensures r.None? <==> forall i :: 0 <= i < n ==> !HasVariable(out, idCols, idCols[i])
    ensures r.Some? ==> r.value in idCols[..n] && HasVariable(out, idCols, r.value)
    ensures r.Some? ==> exists i :: 0 <= i < n && idCols[i] == r.value
                                    && forall j :: i < j < n ==> !HasVariable(out, idCols, idCols[j])
  {
    if n == 0 then None
    else if HasVariable(out, idCols, idCols[n - 1]) then Some(idCols[n - 1])
    else LastIdVariable(out, idCols, n - 1)
  }

  /** `reset_index` inserts the index levels as columns, "element" first and then the id
      columns from last to first, and raises a ValueError at the first label that is
      already a variable column. */
  function ResetClash(out: LongTable, idCols: seq<string>): Option<string>
  {
    if HasVariable(out, idCols, "element") then Some("element")
    else LastIdVariable(out, idCols, |idCols|)
  }

  /** The reshape stage of `convert` once the mapping is merged and checked: `melt`,
      `pivot_table` and `reset_index`, each with the error it raises. A frame without rows
      melts to an empty "__h" column, whose `str.split(..., expand=True)` has no columns, so
      neither "element" nor "__col" exists and `pivot_table` raises a KeyError while
      grouping. An id column named "element" duplicates the split-off element column, and
      grouping by that label makes `pivot_table` raise a ValueError. */
  function Reshaped(f: Frame, cm: ColMap, idCols: seq<string>): (r: Result<LongTable, Error>)
    ensures r.Err? ==> r.error == FrameKeyError || r.error.NameClash?
    ensures r.Ok? ==> r.value == Reshape(f, cm, idCols)
  {
    if ValueColumnClash(f, cm) then Err(NameClash("value"))
    else if MeltFails(f, cm, idCols) then Err(FrameKeyError)
    else if |f.rows| == 0 then Err(FrameKeyError)
    else if "element" in idCols then Err(NameClash("element"))
    else
      var out := Reshape(f, cm, idCols);
      match ResetClash(out, idCols)
      case Some(c) => Err(NameClash(c))
      case None => Ok(out)
  }

  /** What `convert(df, id_cols, mapping, validate=validate)` returns or raises. */
  function ConvertSpec(f: Frame, idCols: seq<string>, mapping: seq<Selection>, validate: bool): Result<LongTable, Error>
  {
    match Merged(Flatten(mapping), validate)
    case Err(e) => Err(e)
    case Ok(cm) =>
      if |cm.order| == 0 then Err(NoColumnsSelected)
      else if validate && ColumnCheck(cm, f.columns, idCols).Some? then Err(ColumnCheck(cm, f.columns, idCols).value)
      else Reshaped(f, cm, idCols)
  }

  /** `convert`: the merge loop, the emptiness check, the sanity checks in validated mode,
      then the reshape. */
  method Convert(f: Frame, idCols: seq<string>, mapping: seq<Selection>, validate: bool) returns (r: Result<LongTable, Error>)
    ensures r == ConvertSpec(f, idCols, mapping, validate)
  {
    var merged := Merge(mapping, validate);
    if merged.Err? {
      return Err(merged.error);
    }
    var colmap := merged.value;
    if |colmap.order| == 0 {
      return Err(NoColumnsSelected);
    }
    if validate {
      var problem := CheckColumns(colmap, f.columns, idCols);
      if problem.Some? {
        return Err(problem.value);
      }
    }
    if ValueColumnClash(f, colmap) {
      return Err(NameClash("value"));
    }
    if MeltFails(f, colmap, idCols) {
      return Err(FrameKeyError);
    }
    if |f.rows| == 0 {
      return Err(FrameKeyError);
    }
    if "element" in idCols {
      return Err(NameClash("element"));
    }
    var out := Reshape(f, colmap, idCols);
    var clash := ResetClash(out, idCols);
    if clash.Some? {
      return Err(NameClash(clash.value));
    }
    r := Ok(out);
  }

  /** An empty merged mapping is an error whatever `validate` is, and it is the error
      exactly when no selection has an entry. */
  lemma {:induction false} ConvertEmptyFails(f: Frame, idCols: seq<string>, mapping: seq<Selection>, validate: bool)
    ensures ConvertSpec(f, idCols, mapping, validate) == Err(NoColumnsSelected) <==> |Flatten(mapping)| == 0
  {
    var s := Flatten(mapping);
    if Merged(s, validate).Ok? {
      MergedEmptyIff(s, validate);
    } else {
      MergedErrIsConflict(s, validate);
    }
  }

  /** Without validation `convert` raises only for an empty mapping, a name `melt`,
      `pivot_table` or `reset_index` cannot place, or a label `melt` cannot find: never a
      conflict or a sanity-check error. */
  lemma {:induction false} UnvalidatedErrors(f: Frame, idCols: seq<string>, mapping: seq<Selection>)
    ensures ConvertSpec(f, idCols, mapping, false).Err? ==>
              var e := ConvertSpec(f, idCols, mapping, false).error;
              e == NoColumnsSelected || e == FrameKeyError || e.NameClash?
  {
    UnvalidatedLastWriteWins(Flatten(mapping));
  }

  /** With validation, a conflicting pair of associations makes `convert` raise the
      conflict error for a column that two associations map to the two reported,
      different targets. */
  lemma {:induction false} ValidatedConflict(f: Frame, idCols: seq<string>, mapping: seq<Selection>)
    requires HasConflict(Flatten(mapping))
    ensures ConvertSpec(f, idCols, mapping, true).Err?
    ensures ConvertSpec(f, idCols, mapping, true).error.Conflict?
    ensures (var e := ConvertSpec(f, idCols, mapping, true).error;
             var s := Flatten(mapping);
             e.previous != e.incoming
             && exists i, j :: 0 <= i < j < |s| && s[i] == Association(e.column, e.previous)
                                && s[j] == Association(e.column, e.incoming))
  {
    ValidatedFailsIffConflict(Flatten(mapping));
    MergedErrIsConflict(Flatten(mapping), true);
    assert ConvertSpec(f, idCols, mapping, true) == Err(Merged(Flatten(mapping), true).error);
  }

  /** With validation and no conflict, a mapped column the frame lacks makes `convert`
      raise one error listing every such column, each once, and no other. */
  lemma {:induction false} ValidatedMissingColumns(f: Frame, idCols: seq<string>, mapping: seq<Selection>)
    requires !HasConflict(Flatten(mapping))
    requires exists i :: 0 <= i < |Flatten(mapping)| && Flatten(mapping)[i].source !in f.columns
    ensures ConvertSpec(f, idCols, mapping, true).Err?
    ensures ConvertSpec(f, idCols, mapping, true).error.MissingColumns?
    ensures forall c :: c in ConvertSpec(f, idCols, mapping, true).error.columns <==>
              c !in f.columns && exists i :: 0 <= i < |Flatten(mapping)| && Flatten(mapping)[i].source == c
    ensures NoDups(ConvertSpec(f, idCols, mapping, true).error.columns)
  {
    var s := Flatten(mapping);
    ValidatedFailsIffConflict(s);
    ValidatedRespectsAll(s);
    MergedValid(s, true);
    var cm := Merged(s, true).value;
    var i :| 0 <= i < |s| && s[i].source !in f.columns;
    assert s[i].source in cm.table;
    assert |cm.order| > 0 by {
      assert s[i].source in cm.order;
    }
    ColumnCheckMeaning(cm, f.columns, idCols);
    MergedKeys(s, true);
    AbsentFromNoDups(cm.order, f.columns);
  }

  /** `reset_index` succeeds exactly when neither "element" nor any id column is a
      variable column, and a clash it reports is one of those labels. */
  lemma {:induction false} ResetClashMeaning(out: LongTable, idCols: seq<string>)
    ensures ResetClash(out, idCols).None? <==>
              !HasVariable(out, idCols, "element") && forall c :: c in idCols ==> !HasVariable(out, idCols, c)
    ensures ResetClash(out, idCols).Some? ==>
              var c := ResetClash(out, idCols).value;
              HasVariable(out, idCols, c) && (c == "element" || c in idCols)
    ensures HasVariable(out, idCols, "element") ==> ResetClash(out, idCols) == Some("element")
    ensures !HasVariable(out, idCols, "element") && ResetClash(out, idCols).Some? ==>
              exists i :: 0 <= i < |idCols| && idCols[i] == ResetClash(out, idCols).value
                          && forall j :: i < j < |idCols| ==> !HasVariable(out, idCols, idCols[j])
  {
    assert idCols[..|idCols|] == idCols;
  }

  /** Once the validated checks pass, `melt` finds every label exactly when no id column
      is itself mapped. */
  lemma {:induction false} CheckedMeltFails(f: Frame, cm: ColMap, idCols: seq<string>)
    requires forall k :: k in cm.table ==> k in f.columns
    requires forall c :: c in idCols ==> c in f.columns
    ensures MeltFails(f, cm, idCols) <==> exists c :: c in idCols && c in cm.table
  {
    forall k | k in cm.table ensures TagPresent(f, cm, cm.table[k]) {
      assert k in f.columns && cm.table[k] == cm.table[k];
    }
  }

  /** After a successful validated merge of associations that all name frame columns, the
      variable columns are the variables of the associations whose column holds a value in
      an input row with a complete id tuple. */
  lemma {:induction false} VariablesFromAssociations(f: Frame, s: seq<Association>, idCols: seq<string>, v: string)
    requires Merged(s, true).Ok?
    requires forall i :: 0 <= i < |s| ==> s[i].source in f.columns
    ensures HasVariable(Reshape(f, Merged(s, true).value, idCols), idCols, v) <==>
              exists i, b :: 0 <= i < |s| && 0 <= b < |f.rows| && Contributes(f, idCols, b, s[i].source)
                             && s[i].target.variable == v
  {
    var cm := Merged(s, true).value;
    ValidatedRespectsAll(s);
    MergedKeys(s, true);
    if HasVariable(Reshape(f, cm, idCols), idCols, v) {
      VariableHasContribution(f, cm, idCols, v);
      var b, k :| 0 <= b < |f.rows| && k in f.columns && k in cm.table && Contributes(f, idCols, b, k)
                  && cm.table[k].variable == v;
      var i :| 0 <= i < |s| && s[i].source == k;
      assert s[i].target == cm.table[k];
    }
    if exists i, b :: 0 <= i < |s| && 0 <= b < |f.rows| && Contributes(f, idCols, b, s[i].source)
                      && s[i].target.variable == v {
      var i, b :| 0 <= i < |s| && 0 <= b < |f.rows| && Contributes(f, idCols, b, s[i].source)
                  && s[i].target.variable == v;
      ContributionGivesVariable(f, cm, idCols, b, s[i].source);
    }
  }

  /** No variable that receives a value is named "element" or like an id column. */
  predicate NoVariableClash(f: Frame, s: seq<Association>, idCols: seq<string>)
  {
    forall i, b :: 0 <= i < |s| && 0 <= b < |f.rows| && Contributes(f, idCols, b, s[i].source) ==>
      s[i].target.variable != "element" && s[i].target.variable !in idCols
  }

  /** After a successful validated merge of associations that all name frame columns,
      `reset_index` succeeds exactly when no variable that receives a value is named
      "element" or like an id column. */
  lemma {:induction false} CheckedResetClash(f: Frame, s: seq<Association>, idCols: seq<string>)
    requires Merged(s, true).Ok?
    requires forall i :: 0 <= i < |s| ==> s[i].source in f.columns
    ensures ResetClash(Reshape(f, Merged(s, true).value, idCols), idCols).None? <==> NoVariableClash(f, s, idCols)
  {
    var out := Reshape(f, Merged(s, true).value, idCols);
    ResetClashMeaning(out, idCols);
    VariablesFromAssociations(f, s, idCols, "element");
    forall c | c in idCols
      ensures HasVariable(out, idCols, c) <==>
                exists i, b :: 0 <= i < |s| && 0 <= b < |f.rows| && Contributes(f, idCols, b, s[i].source)
                               && s[i].target.variable == c
    {
      VariablesFromAssociations(f, s, idCols, c);
    }
  }

  /** Once the validated checks pass, the reshape stage succeeds exactly when the frame
      has a row, no id column is mapped, a frame column named "value" is mapped, no id column is named
      "element" and no variable that receives a value is named "element" or like an id
      column. */
  lemma {:induction false} CheckedReshaped(f: Frame, s: seq<Association>, idCols: seq<string>)
    requires Merged(s, true).Ok?
    requires forall i :: 0 <= i < |s| ==> s[i].source in f.columns
    requires forall c :: c in idCols ==> c in f.columns
    ensures Reshaped(f, Merged(s, true).value, idCols).Ok? <==>
              |f.rows| > 0
              && (forall i :: 0 <= i < |s| ==> s[i].source !in idCols)
              && ("value" in f.columns ==> exists i :: 0 <= i < |s| && s[i].source == "value")
              && "element" !in idCols
              && NoVariableClash(f, s, idCols)
  {
    var cm := Merged(s, true).value;
    MergedKeys(s, true);
    assert forall k :: k in cm.table ==> k in f.columns by {
      forall k | k in cm.table ensures k in f.columns {
        var i :| 0 <= i < |s| && s[i].source == k;
      }
    }
    CheckedMeltFails(f, cm, idCols);
    CheckedResetClash(f, s, idCols);
  }

  /** After a successful validated merge, the sanity checks pass exactly when every
      associated column and every id column is a column of the frame. */
  lemma {:induction false} ColumnCheckInFrame(f: Frame, s: seq<Association>, idCols: seq<string>)
    requires Merged(s, true).Ok?
    ensures ColumnCheck(Merged(s, true).value, f.columns, idCols).None? <==>
              (forall i :: 0 <= i < |s| ==> s[i].source in f.columns) && (forall c :: c in idCols ==> c in f.columns)
  {
    var cm := Merged(s, true).value;
    MergedValid(s, true);
    MergedKeys(s, true);
    ColumnCheckMeaning(cm, f.columns, idCols);
    assert (forall k :: k in cm.table ==> k in f.columns) <==> (forall i :: 0 <= i < |s| ==> s[i].source in f.columns) by {
      if forall k :: k in cm.table ==> k in f.columns {
        forall i | 0 <= i < |s| ensures s[i].source in f.columns {
          assert s[i].source in cm.table;
        }
      }
      if forall i :: 0 <= i < |s| ==> s[i].source in f.columns {
        forall k | k in cm.table ensures k in f.columns {
          var i :| 0 <= i < |s| && s[i].source == k;
        }
      }
    }
  }

  /** With validation, `convert` succeeds exactly when:
      - no column is mapped to two different targets and some column is mapped;
      - the frame has a row;
      - every mapped column and every id column is in the frame, and no id column is
        itself mapped;
      - a frame column named "value" is mapped, and no id column is named "element";
      - no variable that receives a value is named "element" or like an id column. */
  lemma {:induction false} ValidatedSucceedsIff(f: Frame, idCols: seq<string>, mapping: seq<Selection>)
    ensures ConvertSpec(f, idCols, mapping, true).Ok? <==>
              !HasConflict(Flatten(mapping)) && |Flatten(mapping)| > 0
              && |f.rows| > 0
              && (forall i :: 0 <= i < |Flatten(mapping)| ==>
                    Flatten(mapping)[i].source in f.columns && Flatten(mapping)[i].source !in idCols)
              && (forall c :: c in idCols ==> c in f.columns)
              && ("value" in f.columns ==> exists i :: 0 <= i < |Flatten(mapping)| && Flatten(mapping)[i].source == "value")
              && "element" !in idCols
              && NoVariableClash(f, Flatten(mapping), idCols)
  {
    var s := Flatten(mapping);
    ValidatedFailsIffConflict(s);
    if Merged(s, true).Err? {
      assert ConvertSpec(f, idCols, mapping, true).Err?;
      return;
    }
    var cm := Merged(s, true).value;
    MergedEmptyIff(s, true);
    if |s| == 0 {
      assert ConvertSpec(f, idCols, mapping, true).Err?;
      return;
    }
    ColumnCheckInFrame(f, s, idCols);
    if ColumnCheck(cm, f.columns, idCols).Some? {
      assert ConvertSpec(f, idCols, mapping, true).Err?;
      return;
    }
    assert ConvertSpec(f, idCols, mapping, true) == Reshaped(f, cm, idCols);
    CheckedReshaped(f, s, idCols);
  }

  /** A successful `convert` is the reshape of the frame by the merged mapping, whose
      entries are the targets the associations give (the last one for each column when
      not validating, the only one when validating). */
  lemma {:induction false} ConvertOk(f: Frame, idCols: seq<string>, mapping: seq<Selection>, validate: bool)
    requires ConvertSpec(f, idCols, mapping, validate).Ok?
    ensures Merged(Flatten(mapping), validate).Ok? && ValidColMap(Merged(Flatten(mapping), validate).value)
    ensures ConvertSpec(f, idCols, mapping, validate).value
            == Reshape(f, Merged(Flatten(mapping), validate).value, idCols)
  {
    MergedValid(Flatten(mapping), validate);
  }

  /** A frame with columns but no rows never converts: whatever survives the earlier
      checks ends in the `pivot_table` KeyError. */
  lemma {:induction false} NoRowsFails(columns: seq<string>, idCols: seq<string>, mapping: seq<Selection>, validate: bool)
    ensures ConvertSpec(Frame(columns, []), idCols, mapping, validate).Err?
  {
  }

  /** `melt` finds the same labels after an extra `colmap` entry for a label that is
      neither a frame column nor an id column, when its pair is already carried by a frame
      column. */
  lemma {:induction false} MeltFailsIgnoresAbsent(f: Frame, cm: ColMap, idCols: seq<string>, k: string, t: Target)
    requires k !in f.columns && k !in idCols && k !in cm.table
    requires TagPresent(f, cm, t)
    ensures MeltFails(f, ColMap(cm.order + [k], cm.table[k := t]), idCols) == MeltFails(f, cm, idCols)
  {
    var cm' := ColMap(cm.order + [k], cm.table[k := t]);
    forall u ensures TagPresent(f, cm', u) <==> TagPresent(f, cm, u) {
      if TagPresent(f, cm', u) {
        var c :| c in f.columns && c in cm'.table && cm'.table[c] == u;
        assert c != k;
      }
      if TagPresent(f, cm, u) {
        var c :| c in f.columns && c in cm.table && cm.table[c] == u;
        assert c in cm'.table && cm'.table[c] == u;
      }
    }
    assert (exists c :: c in idCols && (c !in f.columns || c in cm'.table))
           == (exists c :: c in idCols && (c !in f.columns || c in cm.table));
    if exists c :: c in cm'.table && !TagPresent(f, cm', cm'.table[c]) {
      var c :| c in cm'.table && !TagPresent(f, cm', cm'.table[c]);
      assert c != k && c in cm.table && !TagPresent(f, cm, cm.table[c]);
    }
    if exists c :: c in cm.table && !TagPresent(f, cm, cm.table[c]) {
      var c :| c in cm.table && !TagPresent(f, cm, cm.table[c]);
      assert c in cm'.table && !TagPresent(f, cm', cm'.table[c]);
    }
  }

  /** The reshape stage does not see an extra `colmap` entry for a label that is neither
      a frame column nor an id column when its pair is already carried by a frame column. */
  lemma {:induction false} ReshapedIgnoresAbsent(f: Frame, cm: ColMap, idCols: seq<string>, k: string, t: Target)
    requires k !in f.columns && k !in idCols && k !in cm.table
    requires TagPresent(f, cm, t)
    ensures Reshaped(f, ColMap(cm.order + [k], cm.table[k := t]), idCols) == Reshaped(f, cm, idCols)
  {
    MeltFailsIgnoresAbsent(f, cm, idCols, k, t);
    ReshapeIgnoresAbsent(f, cm, idCols, k, t);
  }

  /** Without validation, one more selection `{k: t}` for a column `k` that is neither a
      frame column, an id column nor already mapped changes nothing when a frame column is
      already mapped to `t`: `rename` skips `k`, and `melt` finds the tag of `t` through
      the other column. */
  lemma {:induction false} AbsentColumnSharingTag(f: Frame, idCols: seq<string>, mapping: seq<Selection>, k: string, t: Target)
    requires k !in f.columns && k !in idCols
    requires forall i :: 0 <= i < |Flatten(mapping)| ==> Flatten(mapping)[i].source != k
    requires exists i :: 0 <= i < |Flatten(mapping)| && Flatten(mapping)[i].source in f.columns
                         && LastFor(Flatten(mapping), i) && Flatten(mapping)[i].target == t
    ensures ConvertSpec(f, idCols, mapping + [[Association(k, t)]], false) == ConvertSpec(f, idCols, mapping, false)
  {
    var s := Flatten(mapping);
    var a := Association(k, t);
    assert Flatten(mapping + [[a]]) == s + [a] by {
      FlattenAppend(mapping, [[a]]);
      assert [[a]][..0] == [];
    }
    UnvalidatedLastWriteWins(s);
    var cm := Merged(s, false).value;
    MergedValid(s, false);
    MergedKeys(s, false);
    MergedSnoc(s, a, false);
    assert k !in cm.table;
    var j :| 0 <= j < |s| && s[j].source in f.columns && LastFor(s, j) && s[j].target == t;
    assert TagPresent(f, cm, t) && |cm.order| > 0 by {
      assert s[j].source in cm.table && s[j].source in cm.order;
    }
    ReshapedIgnoresAbsent(f, cm, idCols, k, t);
  }
}
