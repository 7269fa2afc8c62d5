/** The merge stage of `convert` (wide2long/core.py:35-52): folding the selection
    dictionaries into one `colmap`, and the validated-mode column checks. */
module Merging {
  import opened Wrappers
  import opened Seqs
  import opened Model

  /** The entries of all selections, in the order the nested merge loop visits them. */
  function Flatten(mapping: seq<Selection>): seq<Association>
  {
    if |mapping| == 0 then [] else Flatten(mapping[..|mapping| - 1]) + mapping[|mapping| - 1]
  }

  /** The source column of each association, in order. */
  function Sources(s: seq<Association>): seq<string>
  {
    if |s| == 0 then [] else Sources(s[..|s| - 1]) + [s[|s| - 1].source]
  }

  /** `colmap[k] = v` on an insertion-ordered dictionary: a new key goes to the end,
      an existing key keeps its position, every other key is unchanged. */
  function Put(cm: ColMap, a: Association): (r: ColMap)
    ensures ValidColMap(cm) ==> ValidColMap(r)
    ensures a.source in r.table && r.table[a.source] == a.target
    ensures forall k :: k != a.source ==> (k in r.table <==> k in cm.table)
    ensures forall k :: k != a.source && k in cm.table ==> r.table[k] == cm.table[k]
    ensures |cm.order| <= |r.order| && r.order[..|cm.order|] == cm.order
  {
    if a.source in cm.table then ColMap(cm.order, cm.table[a.source := a.target])
    else ColMap(cm.order + [a.source], cm.table[a.source := a.target])
  }

  /** One iteration of the merge loop: in validated mode a key seen before with a
      different target is a conflict; otherwise the entry is written. */
  function Step(cm: ColMap, a: Association, validate: bool): Result<ColMap, Error>
  {
    if validate && a.source in cm.table && cm.table[a.source] != a.target
    then Err(Conflict(a.source, cm.table[a.source], a.target))
    else Ok(Put(cm, a))
  }

  /** The outcome of merging the associations `s` in order. */
  function Merged(s: seq<Association>, validate: bool): Result<ColMap, Error>
  {
    if |s| == 0 then Ok(ColMap([], map[]))
    else
      match Merged(s[..|s| - 1], validate)
      case Err(e) => Err(e)
      case Ok(cm) => Step(cm, s[|s| - 1], validate)
  }

  /** A successful merge is a well-formed dictionary. */
  lemma {:induction false} MergedValid(s: seq<Association>, validate: bool)
    requires Merged(s, validate).Ok?
    ensures ValidColMap(Merged(s, validate).value)
  {
    if |s| > 0 {
      MergedValid(s[..|s| - 1], validate);
    }
  }

  lemma {:induction false} SourcesMember(s: seq<Association>, k: string)
    ensures k in Sources(s) <==> exists i :: 0 <= i < |s| && s[i].source == k
  {
    if |s| > 0 {
      var init := s[..|s| - 1];
      SourcesMember(init, k);
      assert forall i :: 0 <= i < |init| ==> init[i] == s[i];
    }
  }

  /** A successful merge has a key for exactly the source columns of `s`. */
  lemma MergedKeys(s: seq<Association>, validate: bool)
    requires Merged(s, validate).Ok?
    ensures forall k :: k in Merged(s, validate).value.table <==> exists i :: 0 <= i < |s| && s[i].source == k
  {
    MergedOrder(s, validate);
    MergedValid(s, validate);
    forall k ensures k in Merged(s, validate).value.table <==> exists i :: 0 <= i < |s| && s[i].source == k {
      SourcesMember(s, k);
    }
  }

  /** The merged keys are the sources of `s`, each once, in first-seen order: an
      overwritten key keeps its first insertion position. */
  lemma {:induction false} MergedOrder(s: seq<Association>, validate: bool)
    requires Merged(s, validate).Ok?
    ensures Merged(s, validate).value.order == Distinct(Sources(s))
  {
    if |s| > 0 {
      var init, last := s[..|s| - 1], s[|s| - 1];
      MergedOrder(init, validate);
      MergedValid(init, validate);
      var cm := Merged(init, validate).value;
      assert Merged(s, validate).value == Put(cm, last);
      assert last.source in cm.table <==> last.source in Sources(init);
      DistinctSnoc(Sources(init), last.source);
    }
  }

  /** Every merged value is the target of some association for its key. */
  lemma {:induction false} MergedValuesFromInput(s: seq<Association>, validate: bool)
    requires Merged(s, validate).Ok?
    ensures forall k :: k in Merged(s, validate).value.table ==>
              exists i :: 0 <= i < |s| && s[i] == Association(k, Merged(s, validate).value.table[k])
  {
    if |s| > 0 {
      var init := s[..|s| - 1];
      MergedValuesFromInput(init, validate);
      var cm := Merged(init, validate).value;
      forall k | k in Merged(s, validate).value.table
        ensures exists i :: 0 <= i < |s| && s[i] == Association(k, Merged(s, validate).value.table[k])
      {
        if k != s[|s| - 1].source {
          var i :| 0 <= i < |init| && init[i] == Association(k, cm.table[k]);
          assert s[i] == init[i];
        }
      }
    }
  }

  /** A merge fails only in validated mode, and only with a conflict error naming a
      column that two associations, in this order, map to the two reported targets. */
  lemma {:induction false} MergedErrIsConflict(s: seq<Association>, validate: bool)
    requires Merged(s, validate).Err?
    ensures validate
    ensures Merged(s, validate).error.Conflict?
    ensures (var e := Merged(s, validate).error;
             e.previous != e.incoming
             && exists i, j :: (0 <= i < j < |s|
                  && s[i] == Association(e.column, e.previous)
                  && s[j] == Association(e.column, e.incoming)))
  {
    var init := s[..|s| - 1];
    var e := Merged(s, validate).error;
    if Merged(init, validate).Err? {
      MergedErrIsConflict(init, validate);
      var i, j :| 0 <= i < j < |init| && init[i] == Association(e.column, e.previous)
                  && init[j] == Association(e.column, e.incoming);
      assert s[i] == init[i] && s[j] == init[j];
    } else {
      MergedValuesFromInput(init, validate);
      var cm := Merged(init, validate).value;
      var i :| 0 <= i < |init| && init[i] == Association(e.column, cm.table[e.column]);
      assert s[i] == init[i];
      assert s[|s| - 1] == Association(e.column, e.incoming);
    }
  }

  /** Two associations, the earlier one first, that map one column to different targets. */
  predicate HasConflict(s: seq<Association>)
  {
    exists i, j :: 0 <= i < j < |s| && s[i].source == s[j].source && s[i].target != s[j].target
  }

  /** Once the merge has failed, later entries do not change the outcome (the error is
      raised at the first conflict). */
  lemma {:induction false} MergedErrPersists(s: seq<Association>, t: seq<Association>, validate: bool)
    requires Merged(s, validate).Err?
    ensures Merged(s + t, validate) == Merged(s, validate)
    decreases |t|
  {
    if |t| == 0 {
      assert s + t == s;
    } else {
      MergedErrPersists(s, t[..|t| - 1], validate);
      assert (s + t)[..|s + t| - 1] == s + t[..|t| - 1];
    }
  }

  /** No association after position `j` is for the same source column. */
  predicate LastFor(s: seq<Association>, j: int)
    requires 0 <= j < |s|
  {
    forall j' :: j < j' < |s| ==> s[j'].source != s[j].source
  }

  /** Unvalidated mode never fails on conflicts, and every key holds the target of the
      last association for it (last write wins). */
  lemma {:induction false} UnvalidatedLastWriteWins(s: seq<Association>)
    ensures Merged(s, false).Ok?
    ensures forall j :: 0 <= j < |s| && LastFor(s, j) ==>
              s[j].source in Merged(s, false).value.table && Merged(s, false).value.table[s[j].source] == s[j].target
  {
    if |s| > 0 {
      var init, last := s[..|s| - 1], s[|s| - 1];
      UnvalidatedLastWriteWins(init);
      var cm := Merged(init, false).value;
      assert Merged(s, false).value == Put(cm, last);
      forall j | 0 <= j < |s| - 1 && LastFor(s, j)
        ensures s[j].source in Merged(s, false).value.table && Merged(s, false).value.table[s[j].source] == s[j].target
      {
        assert s[j] == init[j];
        assert LastFor(init, j);
        assert s[j].source != last.source;
      }
    }
  }

  /** A successful validated merge agrees with every association it was given. */
  lemma {:induction false} ValidatedRespectsAll(s: seq<Association>)
    requires Merged(s, true).Ok?
    ensures forall j :: 0 <= j < |s| ==>
              s[j].source in Merged(s, true).value.table && Merged(s, true).value.table[s[j].source] == s[j].target
  {
    if |s| > 0 {
      var init := s[..|s| - 1];
      ValidatedRespectsAll(init);
      forall j | 0 <= j < |s| - 1
        ensures s[j].source in Merged(s, true).value.table && Merged(s, true).value.table[s[j].source] == s[j].target
      {
        assert s[j] == init[j];
      }
    }
  }

  /** Validated mode fails exactly when some column is mapped to two different targets;
      repeated identical associations are accepted. */
  lemma ValidatedFailsIffConflict(s: seq<Association>)
    ensures Merged(s, true).Err? <==> HasConflict(s)
  {
    if Merged(s, true).Ok? {
      ValidatedRespectsAll(s);
    } else {
      MergedErrIsConflict(s, true);
    }
  }

  /** The merged dictionary is empty exactly when no association was supplied. */
  lemma MergedEmptyIff(s: seq<Association>, validate: bool)
    requires Merged(s, validate).Ok?
    ensures |Merged(s, validate).value.order| == 0 <==> |s| == 0
  {
    if |s| > 0 {
      assert Sources(s)[0] in Distinct(Sources(s));
    }
  }

  /** Merging one more association after a successful merge is one more step. */
  lemma MergedSnoc(s: seq<Association>, a: Association, validate: bool)
    requires Merged(s, validate).Ok?
    ensures Merged(s + [a], validate) == Step(Merged(s, validate).value, a, validate)
  {
    assert (s + [a])[..|s|] == s;
  }

  /** Merging one more entry of the current selection is one more loop iteration. */
  lemma MergedExtend(p: seq<Association>, m: Selection, j: nat, validate: bool)
    requires j < |m|
    requires Merged(p + m[..j], validate).Ok?
    ensures Merged(p + m[..j + 1], validate) == Step(Merged(p + m[..j], validate).value, m[j], validate)
  {
    assert p + m[..j + 1] == (p + m[..j]) + [m[j]] by {
      assert m[..j + 1] == m[..j] + [m[j]];
    }
    MergedSnoc(p + m[..j], m[j], validate);
  }

  /** A conflict at entry `j` of a selection is the outcome of merging all of it. */
  lemma ErrInSelection(done: seq<Association>, m: Selection, j: nat, validate: bool)
    requires j < |m|
    requires Merged(done + m[..j + 1], validate).Err?
    ensures Merged(done + m, validate) == Merged(done + m[..j + 1], validate)
  {
    assert m == m[..j + 1] + m[j + 1..];
    assert done + m == (done + m[..j + 1]) + m[j + 1..];
    MergedErrPersists(done + m[..j + 1], m[j + 1..], validate);
  }

  /** The merge loop of `convert` (wide2long/core.py:36-41): the dictionary is built in
      place over the selections and their entries, raising at the first conflict. */
  method Merge(mapping: seq<Selection>, validate: bool) returns (r: Result<ColMap, Error>)
    ensures r == Merged(Flatten(mapping), validate)
  {
    var colmap := ColMap([], map[]);
    var i := 0;
    while i < |mapping|
      invariant 0 <= i <= |mapping|
      invariant Merged(Flatten(mapping[..i]), validate) == Ok(colmap)
    {
      assert mapping[..i + 1][..i] == mapping[..i];
      var next := MergeSelection(colmap, Flatten(mapping[..i]), mapping[i], validate);
      if next.Err? {
        assert mapping == mapping[..i + 1] + mapping[i + 1..];
        FlattenAppend(mapping[..i + 1], mapping[i + 1..]);
        MergedErrPersists(Flatten(mapping[..i + 1]), Flatten(mapping[i + 1..]), validate);
        return next;
      }
      colmap := next.value;
      i := i + 1;
    }
    assert mapping[..|mapping|] == mapping;
    r := Ok(colmap);
  }

  /** The inner loop over one selection's entries: `colmap` holds the merge of the
      associations `done` seen so far, and the entries of `m` are written one by one. */
  method MergeSelection(colmap: ColMap, ghost done: seq<Association>, m: Selection, validate: bool)
    returns (r: Result<ColMap, Error>)
    requires Merged(done, validate) == Ok(colmap)
    ensures r == Merged(done + m, validate)
  {
    var order, table := colmap.order, colmap.table;
    var j := 0;
    assert done + m[..0] == done;
    while j < |m|
      invariant 0 <= j <= |m|
      invariant Merged(done + m[..j], validate) == Ok(ColMap(order, table))
    {
      var a := m[j];
      MergedExtend(done, m, j, validate);
      if validate && a.source in table && table[a.source] != a.target {
        r := Err(Conflict(a.source, table[a.source], a.target));
        ErrInSelection(done, m, j, validate);
        return;
      }
      if a.source !in table {
        order := order + [a.source];
      }
      table := table[a.source := a.target];
      j := j + 1;
    }
    assert m[..|m|] == m;
    r := Ok(ColMap(order, table));
  }

  /** Flattening distributes over concatenation of selection lists. */
  lemma {:induction false} FlattenAppend(a: seq<Selection>, b: seq<Selection>)
    ensures Flatten(a + b) == Flatten(a) + Flatten(b)
    decreases |b|
  {
    if |b| == 0 {
      assert a + b == a;
    } else {
      var init, last := b[..|b| - 1], b[|b| - 1];
      FlattenAppend(a, init);
      assert (a + b)[..|a + b| - 1] == a + init;
      assert (a + b)[|a + b| - 1] == last;
      calc {
        Flatten(a + b);
        Flatten(a + init) + last;
        (Flatten(a) + Flatten(init)) + last;
        { assert Flatten(b) == Flatten(init) + last; }
        Flatten(a) + Flatten(b);
      }
    }
  }

  /** The mapped columns absent from the frame's columns, in `colmap` order. */
  function AbsentFrom(keys: seq<string>, columns: seq<string>): (r: seq<string>)
    ensures forall c :: c in r <==> c in keys && c !in columns
    ensures |r| <= |keys|
  {
    if |keys| == 0 then []
    else
      var init := keys[..|keys| - 1];
      assert forall c :: c in keys <==> c in init || c == keys[|keys| - 1];
      AbsentFrom(init, columns) + if keys[|keys| - 1] in columns then [] else [keys[|keys| - 1]]
  }

  /** Filtering a list without duplicates keeps it without duplicates. */
  lemma {:induction false} AbsentFromNoDups(keys: seq<string>, columns: seq<string>)
    requires NoDups(keys)
    ensures NoDups(AbsentFrom(keys, columns))
  {
    if |keys| > 0 {
      var init := keys[..|keys| - 1];
      assert forall i :: 0 <= i < |init| ==> init[i] == keys[i];
      AbsentFromNoDups(init, columns);
      assert keys[|keys| - 1] !in init;
    }
  }

  /** The first id column absent from the frame's columns, if any. */
  function FirstAbsent(ids: seq<string>, columns: seq<string>): (r: Option<string>)
    ensures r.None? <==> forall c :: c in ids ==> c in columns
  {
    if |ids| == 0 then None
    else if ids[0] !in columns then Some(ids[0])
    else
      assert forall c :: c in ids <==> c == ids[0] || c in ids[1..];
      FirstAbsent(ids[1..], columns)
  }

  /** What `FirstAbsent` reports is an id column missing from the frame, and every id
      column before it is present. */
  lemma {:induction false} FirstAbsentIsFirst(ids: seq<string>, columns: seq<string>)
    requires FirstAbsent(ids, columns).Some?
    ensures exists i :: (0 <= i < |ids| && ids[i] == FirstAbsent(ids, columns).value
              && ids[i] !in columns && forall i' :: 0 <= i' < i ==> ids[i'] in columns)
  {
    if ids[0] in columns {
      var tail := ids[1..];
      FirstAbsentIsFirst(tail, columns);
      var i :| 0 <= i < |tail| && tail[i] == FirstAbsent(ids, columns).value
                && tail[i] !in columns && forall i' :: 0 <= i' < i ==> tail[i'] in columns;
      assert ids[i + 1] == tail[i];
      assert forall i' :: 0 <= i' < i + 1 ==> ids[i'] in columns by {
        forall i' | 0 <= i' < i + 1 ensures ids[i'] in columns {
          if i' > 0 { assert ids[i'] == tail[i' - 1]; }
        }
      }
    } else {
      assert ids[0] == FirstAbsent(ids, columns).value;
    }
  }

  /** The validated-mode sanity checks (wide2long/core.py:46-52): all mapped columns
      missing from the frame are reported together; only when there are none is the
      first missing id column reported. */
  function ColumnCheck(cm: ColMap, columns: seq<string>, idCols: seq<string>): Option<Error>
  {
    var missing := AbsentFrom(cm.order, columns);
    if |missing| > 0 then Some(MissingColumns(missing))
    else match FirstAbsent(idCols, columns)
      case Some(c) => Some(MissingIdColumn(c))
      case None => None
  }

  /** The checks pass exactly when every mapped column and every id column is a column
      of the frame; a missing-columns error names every absent mapped column and no other. */
  lemma ColumnCheckMeaning(cm: ColMap, columns: seq<string>, idCols: seq<string>)
    requires ValidColMap(cm)
    ensures ColumnCheck(cm, columns, idCols).None? <==>
              (forall k :: k in cm.table ==> k in columns) && (forall c :: c in idCols ==> c in columns)
    ensures forall c :: ColumnCheck(cm, columns, idCols) == Some(MissingIdColumn(c)) ==>
              (forall k :: k in cm.table ==> k in columns)
              && exists i :: (0 <= i < |idCols| && idCols[i] == c && c !in columns
                 && forall i' :: 0 <= i' < i ==> idCols[i'] in columns)
    ensures forall e :: ColumnCheck(cm, columns, idCols) == Some(e) && e.MissingColumns? ==>
              |e.columns| > 0 && forall c :: c in e.columns <==> c in cm.table && c !in columns
  {
    var missing := AbsentFrom(cm.order, columns);
    if FirstAbsent(idCols, columns).Some? {
      FirstAbsentIsFirst(idCols, columns);
    }
    if (exists k :: k in cm.table && k !in columns) {
      var k :| k in cm.table && k !in columns;
      assert k in missing;
    }
    assert (forall k :: k in cm.table ==> k in columns) ==> |missing| == 0 by {
      if |missing| > 0 {
        var c := missing[0];
        assert c in cm.order && c !in columns;
      }
    }
  }

  /** The sanity checks of `convert`: the list comprehension over `colmap`, then the loop
      over the id columns. */
  method CheckColumns(cm: ColMap, columns: seq<string>, idCols: seq<string>) returns (r: Option<Error>)
    ensures r == ColumnCheck(cm, columns, idCols)
  {
    var missing := MissingMapped(cm.order, columns);
    if |missing| > 0 {
      return Some(MissingColumns(missing));
    }
    var id := FirstMissingId(idCols, columns);
    r := if id.Some? then Some(MissingIdColumn(id.value)) else None;
  }

  /** `[c for c in colmap.keys() if c not in df.columns]`. */
  method MissingMapped(keys: seq<string>, columns: seq<string>) returns (missing: seq<string>)
    ensures missing == AbsentFrom(keys, columns)
  {
    missing := [];
    var i := 0;
    while i < |keys|
      invariant 0 <= i <= |keys|
      invariant missing == AbsentFrom(keys[..i], columns)
    {
      assert keys[..i + 1][..i] == keys[..i];
      if keys[i] !in columns {
        missing := missing + [keys[i]];
      }
      i := i + 1;
    }
    assert keys[..|keys|] == keys;
  }

  /** The loop over the id columns, stopping at the first one the frame lacks. */
  method FirstMissingId(ids: seq<string>, columns: seq<string>) returns (r: Option<string>)
    ensures r == FirstAbsent(ids, columns)
  {
    var j := 0;
    while j < |ids|
      invariant 0 <= j <= |ids|
      invariant FirstAbsent(ids, columns) == FirstAbsent(ids[j..], columns)
    {
      if ids[j] !in columns {
        return Some(ids[j]);
      }
      assert ids[j..][1..] == ids[j + 1..];
      j := j + 1;
    }
    r := None;
  }
}
