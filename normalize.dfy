/** The mapping normaliser of wide2long/core.py (`_is_block_style_named`,
    `_is_key_value_style`, `load_mapping`, `_check_row_keys`): three mapping encodings,
    already parsed, turned into one list of single-entry selections. */
module Normalize {
  import opened Wrappers
  import opened Model
  import opened Text

  /** A value as `json.loads` returns it. Objects keep their keys in document order;
      numbers are integers. */
  datatype Json =
    | JNull
    | JBool(b: bool)
    | JInt(i: int)
    | JStr(s: string)
    | JArr(items: seq<Json>)
    | JObj(entries: seq<(string, Json)>)

  /** A mapping CSV as `pd.read_csv` returns it: the header labels and, per row, the text
      under each label. A cell pandas read as missing is absent from its row. */
  datatype CsvTable = CsvTable(header: seq<string>, rows: seq<map<string, string>>)

  /** REQUIRED_KEYS, listed in ascending order. */
  const RequiredKeys: seq<string> := ["element_id", "source_col", "variable_col"]

  function Join(parts: seq<string>, sep: string): string
  {
    if |parts| == 0 then ""
    else if |parts| == 1 then parts[0]
    else parts[0] + sep + Join(parts[1..], sep)
  }

  /** Python's `str` of a JSON value: a list or dict shows its members by `repr`. */
  function Str(j: Json): string
    decreases j, 0
  {
    match j
    case JNull => "None"
    case JBool(b) => if b then "True" else "False"
    case JInt(i) => IntToString(i)
    case JStr(s) => s
    case JArr(items) =>
      "[" + Join(seq(|items|, k requires 0 <= k < |items| => Repr(items[k])), ", ") + "]"
    case JObj(es) =>
      "{" + Join(seq(|es|, k requires 0 <= k < |es| => "'" + es[k].0 + "': " + Repr(es[k].1)), ", ") + "}"
  }

  /** Python's `repr` of a JSON value: text is quoted, anything else shows as by `str`. */
  function Repr(j: Json): string
    decreases j, 1
  {
    if j.JStr? then "'" + j.s + "'" else Str(j)
  }

  /** `d.get(key)`: the value of the first entry under `key`, if there is one. */
  function Lookup(es: seq<(string, Json)>, key: string): Option<Json>
  {
    if |es| == 0 then None
    else if es[0].0 == key then Some(es[0].1)
    else Lookup(es[1..], key)
  }

  /** `key in d`. */
  predicate HasKey(es: seq<(string, Json)>, key: string)
  {
    Lookup(es, key).Some?
  }

  /** `Lookup` finds the first entry under `key`, and finds nothing exactly when no entry
      has that key. */
  lemma {:induction false} LookupMeaning(es: seq<(string, Json)>, key: string)
    ensures Lookup(es, key).None? <==> forall i :: 0 <= i < |es| ==> es[i].0 != key
    ensures Lookup(es, key).Some? ==>
              exists i :: 0 <= i < |es| && es[i] == (key, Lookup(es, key).value)
                          && forall j :: 0 <= j < i ==> es[j].0 != key
  {
    if |es| > 0 && es[0].0 != key {
      var tail := es[1..];
      LookupMeaning(tail, key);
      assert forall i :: 0 <= i < |tail| ==> tail[i] == es[i + 1];
      if Lookup(es, key).Some? {
        var i :| 0 <= i < |tail| && tail[i] == (key, Lookup(es, key).value)
                 && forall j :: 0 <= j < i ==> tail[j].0 != key;
        assert es[i + 1] == (key, Lookup(es, key).value);
        assert forall j :: 0 <= j < i + 1 ==> es[j].0 != key by {
          forall j | 0 <= j < i + 1 ensures es[j].0 != key {
            if j > 0 { assert es[j] == tail[j - 1]; }
          }
        }
      } else {
        forall i | 0 <= i < |es| ensures es[i].0 != key {
          if i > 0 { assert es[i] == tail[i - 1]; }
        }
      }
    } else if |es| > 0 {
      assert es[0] == (key, Lookup(es, key).value);
    }
  }

  /** `REQUIRED_KEYS.issubset(item)`. */
  predicate HasRequiredKeys(es: seq<(string, Json)>)
  {
    HasKey(es, "element_id") && HasKey(es, "source_col") && HasKey(es, "variable_col")
  }

  predicate IsBlockRow(v: Json)
  {
    v.JObj? && HasRequiredKeys(v.entries)
  }

  /** A block: a list whose every item is an object with the three required keys. */
  predicate IsBlock(v: Json)
  {
    v.JArr? && forall k :: 0 <= k < |v.items| ==> IsBlockRow(v.items[k])
  }

  /** `_is_block_style_named`: a non-empty object whose every value is a block. */
  predicate IsBlockStyle(d: Json)
  {
    d.JObj? && |d.entries| > 0 && forall k :: 0 <= k < |d.entries| ==> IsBlock(d.entries[k].1)
  }

  predicate IsPair(v: Json)
  {
    v.JArr? && |v.items| == 2
  }

  /** `_is_key_value_style`: a non-empty object whose every value is a two-element list. */
  predicate IsKeyValueStyle(d: Json)
  {
    d.JObj? && |d.entries| > 0 && forall k :: 0 <= k < |d.entries| ==> IsPair(d.entries[k].1)
  }

  /** The entries of an object; nothing for any other value. */
  function Entries(v: Json): seq<(string, Json)>
  {
    if v.JObj? then v.entries else []
  }

  /** The items of a list; nothing for any other value. */
  function Items(v: Json): seq<Json>
  {
    if v.JArr? then v.items else []
  }

  /** `str(row[key]).strip()`. The block branch reads only rows that have all three keys
      (`IsBlockRow`), so the empty text standing in for an absent key is never used there. */
  function Field(row: Json, key: string): string
  {
    match Lookup(Entries(row), key)
    case Some(v) => Strip(Str(v))
    case None => ""
  }

  /** The association one block row declares. */
  function RowAssociation(row: Json): Association
  {
    Association(Field(row, "source_col"), Target(Field(row, "element_id"), Field(row, "variable_col")))
  }

  predicate AllBlocks(es: seq<(string, Json)>)
  {
    forall k :: 0 <= k < |es| ==> IsBlock(es[k].1)
  }

  /** The selections of the rows of one block. */
  function RowSelections(items: seq<Json>): (r: seq<Selection>)
    ensures |r| == |items|
  {
    if |items| == 0 then [] else RowSelections(items[..|items| - 1]) + [[RowAssociation(items[|items| - 1])]]
  }

  /** One single-entry selection per row of one block, in row order. */
  lemma {:induction false} RowSelectionsPerRow(items: seq<Json>)
    ensures forall k :: 0 <= k < |items| ==> RowSelections(items)[k] == [RowAssociation(items[k])]
  {
    if |items| > 0 {
      var init := items[..|items| - 1];
      RowSelectionsPerRow(init);
      assert forall k :: 0 <= k < |init| ==> init[k] == items[k];
    }
  }

  /** One more row of a block is one more selection at the end. */
  lemma RowSelectionsSnoc(items: seq<Json>, k: nat)
    requires k < |items|
    ensures RowSelections(items[..k + 1]) == RowSelections(items[..k]) + [[RowAssociation(items[k])]]
  {
    assert items[..k + 1][..k] == items[..k];
  }

  /** One loop step of `AppendRows` extends the result by the next row's selection. */
  lemma AppendRowStep(selections: seq<Selection>, block: seq<Json>, k: nat, r: seq<Selection>)
    requires k < |block| && r == selections + RowSelections(block[..k])
    ensures r + [[RowAssociation(block[k])]] == selections + RowSelections(block[..k + 1])
  {
    RowSelectionsSnoc(block, k);
  }

  /** The selections of a named-block mapping: the blocks' rows, block after block. */
  function BlockSelections(es: seq<(string, Json)>): seq<Selection>
  {
    if |es| == 0 then [] else BlockSelections(es[..|es| - 1]) + RowSelections(Items(es[|es| - 1].1))
  }

  /** The rows of all blocks, flattened in order; block names play no part. */
  function AllRows(es: seq<(string, Json)>): (rows: seq<Json>)
    ensures AllBlocks(es) ==> forall k :: 0 <= k < |rows| ==> IsBlockRow(rows[k])
  {
    if |es| == 0 then [] else AllRows(es[..|es| - 1]) + Items(es[|es| - 1].1)
  }

  /** Each block row yields exactly one single-entry selection, in input order. */
  lemma {:induction false} BlockSelectionsPerRow(es: seq<(string, Json)>)
    ensures |BlockSelections(es)| == |AllRows(es)|
    ensures forall k :: 0 <= k < |AllRows(es)| ==> BlockSelections(es)[k] == [RowAssociation(AllRows(es)[k])]
  {
    if |es| > 0 {
      var init := es[..|es| - 1];
      var block := Items(es[|es| - 1].1);
      BlockSelectionsPerRow(init);
      RowSelectionsPerRow(block);
      var n := |AllRows(init)|;
      forall k | 0 <= k < |AllRows(es)|
        ensures BlockSelections(es)[k] == [RowAssociation(AllRows(es)[k])]
      {
        if k >= n {
          assert BlockSelections(es)[k] == RowSelections(block)[k - n];
          assert AllRows(es)[k] == block[k - n];
        }
      }
    }
  }

  /** Renaming the blocks does not change the selections: block names do not reach the output. */
  lemma {:induction false} BlockNamesIgnored(es: seq<(string, Json)>, renamed: seq<(string, Json)>)
    requires AllBlocks(es)
    requires |renamed| == |es| && forall k :: 0 <= k < |es| ==> renamed[k].1 == es[k].1
    ensures AllBlocks(renamed)
    ensures BlockSelections(renamed) == BlockSelections(es)
  {
    if |es| > 0 {
      BlockNamesIgnored(es[..|es| - 1], renamed[..|renamed| - 1]);
    }
  }

  /** The block branch of `load_mapping` (wide2long/core.py:146-153): for each block in
      turn, one selection per row appended to the result. */
  method LoadBlocks(es: seq<(string, Json)>) returns (selections: seq<Selection>)
    requires AllBlocks(es)
    ensures selections == BlockSelections(es)
  {
    selections := [];
    var b := 0;
    while b < |es|
      invariant 0 <= b <= |es|
      invariant selections == BlockSelections(es[..b])
    {
      assert IsBlock(es[b].1);
      selections := AppendRows(selections, Items(es[b].1));
      assert es[..b + 1][..b] == es[..b];
      b := b + 1;
    }
    assert es[..|es|] == es;
  }

  /** The inner loop of the block branch (wide2long/core.py:150-153): the rows of one
      block appended, one single-entry selection each, to what is already loaded. */
  method AppendRows(selections: seq<Selection>, block: seq<Json>) returns (r: seq<Selection>)
    requires forall k :: 0 <= k < |block| ==> IsBlockRow(block[k])
    ensures r == selections + RowSelections(block)
  {
    r := selections;
    var k := 0;
    while k < |block|
      invariant 0 <= k <= |block|
      invariant r == selections + RowSelections(block[..k])
    {
      var next := [RowAssociation(block[k])];
      AppendRowStep(selections, block, k, r);
      r := r + [next];
      k := k + 1;
    }
    assert block[..|block|] == block;
  }

  /** The member at `i` of a list; `null` where there is none. */
  function Item(v: Json, i: nat): Json
  {
    if v.JArr? && i < |v.items| then v.items[i] else JNull
  }

  /** The association one key-value entry declares: the key is the source column, the
      value's two members the element and the variable. */
  function PairAssociation(key: string, v: Json): Association
  {
    Association(Strip(key), Target(Strip(Str(Item(v, 0))), Strip(Str(Item(v, 1)))))
  }

  /** The selections of a key-value mapping, failing at the first value that is not a
      two-element list. */
  function KeyValueSelections(es: seq<(string, Json)>): Result<seq<Selection>, Error>
  {
    if |es| == 0 then Ok([])
    else match KeyValueSelections(es[..|es| - 1])
      case Err(e) => Err(e)
      case Ok(sel) =>
        var entry := es[|es| - 1];
        if IsPair(entry.1) then Ok(sel + [[PairAssociation(entry.0, entry.1)]]) else Err(KeyValueShape)
  }

  /** A failure on a prefix is the outcome for the whole object. */
  lemma {:induction false} KeyValueErrPersists(es: seq<(string, Json)>, n: nat)
    requires n <= |es| && KeyValueSelections(es[..n]).Err?
    ensures KeyValueSelections(es) == KeyValueSelections(es[..n])
    decreases |es|
  {
    if n == |es| {
      assert es[..n] == es;
    } else {
      assert es[..|es| - 1][..n] == es[..n];
      KeyValueErrPersists(es[..|es| - 1], n);
    }
  }

  /** One more entry: the branch still succeeds exactly when it did before and the new
      value is a two-element list. */
  lemma KeyValueStep(es: seq<(string, Json)>)
    requires |es| > 0
    ensures KeyValueSelections(es).Ok? <==>
              KeyValueSelections(es[..|es| - 1]).Ok? && IsPair(es[|es| - 1].1)
    ensures KeyValueSelections(es).Ok? ==>
              KeyValueSelections(es).value ==
                KeyValueSelections(es[..|es| - 1]).value + [[PairAssociation(es[|es| - 1].0, es[|es| - 1].1)]]
  {
  }

  /** The key-value branch fails exactly when some value is not a two-element list. */
  lemma {:induction false} KeyValueFailsIff(es: seq<(string, Json)>)
    ensures KeyValueSelections(es).Err? <==> exists k :: 0 <= k < |es| && !IsPair(es[k].1)
  {
    if |es| > 0 {
      var init := es[..|es| - 1];
      var last := |es| - 1;
      KeyValueFailsIff(init);
      KeyValueStep(es);
      if KeyValueSelections(es).Err? {
        if KeyValueSelections(init).Err? {
          var k :| 0 <= k < |init| && !IsPair(init[k].1);
          assert es[k] == init[k];
        } else {
          assert !IsPair(es[last].1);
        }
      } else {
        forall k | 0 <= k < |es| ensures IsPair(es[k].1) {
          if k < last {
            assert es[k] == init[k];
            assert IsPair(init[k].1);
            assert IsPair(es[k].1);
          } else {
            assert k == last;
            assert IsPair(es[last].1);
          }
        }
      }
    }
  }

  /** When every value is a two-element list, each entry yields one single-entry selection,
      in input order. */
  lemma {:induction false} KeyValuePerEntry(es: seq<(string, Json)>)
    requires forall k :: 0 <= k < |es| ==> IsPair(es[k].1)
    ensures KeyValueSelections(es).Ok?
    ensures |KeyValueSelections(es).value| == |es|
    ensures forall k :: 0 <= k < |es| ==> KeyValueSelections(es).value[k] == [PairAssociation(es[k].0, es[k].1)]
  {
    if |es| > 0 {
      var init := es[..|es| - 1];
      assert forall k :: 0 <= k < |init| ==> init[k] == es[k];
      KeyValuePerEntry(init);
      KeyValueStep(es);
      PerEntrySnoc(es, KeyValueSelections(init).value, KeyValueSelections(es).value);
    }
  }

  /** Appending the last entry's selection to per-entry selections of the other entries
      gives per-entry selections of all of them. */
  lemma PerEntrySnoc(es: seq<(string, Json)>, sel: seq<Selection>, all: seq<Selection>)
    requires |es| > 0 && |sel| == |es| - 1
    requires forall k :: 0 <= k < |sel| ==> sel[k] == [PairAssociation(es[k].0, es[k].1)]
    requires all == sel + [[PairAssociation(es[|es| - 1].0, es[|es| - 1].1)]]
    ensures |all| == |es|
    ensures forall k :: 0 <= k < |es| ==> all[k] == [PairAssociation(es[k].0, es[k].1)]
  {
  }

  /** The key-value branch of `load_mapping` (wide2long/core.py:156-164), including its
      per-entry shape check. */
  method LoadKeyValue(es: seq<(string, Json)>) returns (r: Result<seq<Selection>, Error>)
    ensures r == KeyValueSelections(es)
  {
    var selections: seq<Selection> := [];
    var k := 0;
    while k < |es|
      invariant 0 <= k <= |es|
      invariant KeyValueSelections(es[..k]) == Ok(selections)
    {
      var (key, v) := es[k];
      assert es[..k + 1][..k] == es[..k];
      if !(v.JArr? && |v.items| == 2) {
        KeyValueErrPersists(es, k + 1);
        return Err(KeyValueShape);
      }
      selections := selections + [[PairAssociation(key, v)]];
      k := k + 1;
    }
    assert es[..|es|] == es;
    r := Ok(selections);
  }

  /** The text of a CSV cell after `astype(str)`: a missing cell renders as "nan". */
  function CsvField(row: map<string, string>, column: string): string
  {
    if column in row then row[column] else "nan"
  }

  /** The association one CSV row declares, its three fields stripped. */
  function CsvAssociation(row: map<string, string>): Association
  {
    Association(Strip(CsvField(row, "source_col")),
                Target(Strip(CsvField(row, "element_id")), Strip(CsvField(row, "variable_col"))))
  }

  /** The tabular branch of `load_mapping` (wide2long/core.py:129-137). */
  function CsvSelections(t: CsvTable): Result<seq<Selection>, Error>
  {
    if forall key :: key in RequiredKeys ==> key in t.header
    then Ok(seq(|t.rows|, i requires 0 <= i < |t.rows| => [CsvAssociation(t.rows[i])]))
    else Err(CsvMissingRequired)
  }

  /** What `load_mapping` returns for a file at `path`: `csv` stands for what
      `pd.read_csv` reads from it and `json` for what `json.loads` reads from it; only
      the one the suffix selects is consulted. */
  function LoadMappingSpec(path: string, csv: CsvTable, json: Json): Result<seq<Selection>, Error>
  {
    LoadBySuffix(Lower(Suffix(path)), csv, json)
  }

  /** The reader `load_mapping` picks for a lower-cased file suffix. */
  function LoadBySuffix(suffix: string, csv: CsvTable, json: Json): Result<seq<Selection>, Error>
  {
    if suffix == ".csv" then CsvSelections(csv)
    else if suffix == ".json" then
      if IsBlockStyle(json) then Ok(BlockSelections(json.entries))
      else if IsKeyValueStyle(json) then KeyValueSelections(json.entries)
      else Err(UnrecognizedJson)
    else Err(UnsupportedMappingSuffix)
  }

  /** `load_mapping` (wide2long/core.py:111-172) over already-parsed file contents. */
  method LoadMapping(path: string, csv: CsvTable, json: Json) returns (r: Result<seq<Selection>, Error>)
    ensures r == LoadMappingSpec(path, csv, json)
  {
    var suffix := Lower(Suffix(path));
    if suffix == ".csv" {
      return CsvSelections(csv);
    }
    if suffix == ".json" {
      if IsBlockStyle(json) {
        var selections := LoadBlocks(json.entries);
        return Ok(selections);
      }
      if IsKeyValueStyle(json) {
        r := LoadKeyValue(json.entries);
        return;
      }
      return Err(UnrecognizedJson);
    }
    r := Err(UnsupportedMappingSuffix);
  }

  /** The suffix alone chooses the reader, case-insensitively; a JSON mapping fails exactly
      when it has neither recognised shape (the key-value check inside the loop can then
      never fire), and a CSV mapping fails exactly when it lacks a required column. */
  lemma LoadMappingDispatch(path: string, csv: CsvTable, json: Json)
    ensures LoadMappingSpec(path, csv, json) == Err(UnsupportedMappingSuffix) <==>
              Lower(Suffix(path)) != ".csv" && Lower(Suffix(path)) != ".json"
    ensures Lower(Suffix(path)) == ".json" ==>
              (LoadMappingSpec(path, csv, json).Err? <==> !IsBlockStyle(json) && !IsKeyValueStyle(json))
    ensures Lower(Suffix(path)) == ".json" && LoadMappingSpec(path, csv, json).Err? ==>
              LoadMappingSpec(path, csv, json).error == UnrecognizedJson
    ensures Lower(Suffix(path)) == ".csv" ==>
              (LoadMappingSpec(path, csv, json).Err? <==> exists key :: key in RequiredKeys && key !in csv.header)
  {
    if Lower(Suffix(path)) == ".json" && !IsBlockStyle(json) && IsKeyValueStyle(json) {
      KeyValueFailsIff(json.entries);
    }
  }

  /** Every selection has one entry, whose source, element and variable have no
      whitespace at either end. */
  predicate AllStripped(sels: seq<Selection>)
  {
    forall i :: 0 <= i < |sels| ==>
      |sels[i]| == 1 && Stripped(sels[i][0].source)
      && Stripped(sels[i][0].target.element) && Stripped(sels[i][0].target.variable)
  }

  lemma CsvSelectionsStripped(t: CsvTable)
    requires CsvSelections(t).Ok?
    ensures AllStripped(CsvSelections(t).value)
  {
  }

  lemma BlockSelectionsStripped(es: seq<(string, Json)>)
    ensures AllStripped(BlockSelections(es))
  {
    BlockSelectionsPerRow(es);
  }

  lemma KeyValueSelectionsStripped(es: seq<(string, Json)>)
    requires KeyValueSelections(es).Ok?
    ensures AllStripped(KeyValueSelections(es).value)
  {
    KeyValueFailsIff(es);
    KeyValuePerEntry(es);
  }

  /** Every path of `load_mapping` yields single-entry selections whose source, element
      and variable strings are stripped of surrounding whitespace. */
  lemma LoadedSelectionsStripped(path: string, csv: CsvTable, json: Json)
    requires LoadMappingSpec(path, csv, json).Ok?
    ensures AllStripped(LoadMappingSpec(path, csv, json).value)
  {
    var suffix := Lower(Suffix(path));
    assert LoadMappingSpec(path, csv, json) == LoadBySuffix(suffix, csv, json);
    if suffix == ".csv" {
      CsvSelectionsStripped(csv);
    } else if IsBlockStyle(json) {
      BlockSelectionsStripped(json.entries);
    } else {
      KeyValueSelectionsStripped(json.entries);
    }
  }

  /** A CSV row and a key-value entry holding the same texts declare the same association. */
  lemma CsvRowMatchesPair(row: map<string, string>, key: string, v: Json)
    requires IsPair(v)
    requires CsvField(row, "source_col") == key
    requires CsvField(row, "element_id") == Str(v.items[0])
    requires CsvField(row, "variable_col") == Str(v.items[1])
    ensures CsvAssociation(row) == PairAssociation(key, v)
  {
  }

  /** CSV rows and key-value entries holding the same texts, row for row, give the same
      selections: both readers strip the same three fields. */
  lemma CsvAndPairSelectionsAgree(csv: CsvTable, pairs: seq<(string, Json)>)
    requires forall key :: key in RequiredKeys ==> key in csv.header
    requires |csv.rows| == |pairs|
    requires forall i :: 0 <= i < |pairs| ==> IsPair(pairs[i].1)
    requires forall i :: 0 <= i < |pairs| ==> CsvAssociation(csv.rows[i]) == PairAssociation(pairs[i].0, pairs[i].1)
    ensures CsvSelections(csv) == KeyValueSelections(pairs)
  {
    CsvSelectionsPerRow(csv);
    KeyValuePerEntry(pairs);
    SameSelections(CsvSelections(csv), KeyValueSelections(pairs), csv.rows, pairs);
  }

  /** With the required columns present, each CSV row yields one single-entry selection. */
  lemma CsvSelectionsPerRow(csv: CsvTable)
    requires forall key :: key in RequiredKeys ==> key in csv.header
    ensures CsvSelections(csv).Ok? && |CsvSelections(csv).value| == |csv.rows|
    ensures forall i :: 0 <= i < |csv.rows| ==> CsvSelections(csv).value[i] == [CsvAssociation(csv.rows[i])]
  {
  }

  /** Two successful loads of single-entry selections agree when their associations agree
      row by row. */
  lemma SameSelections(cs: Result<seq<Selection>, Error>, kv: Result<seq<Selection>, Error>,
                       rows: seq<map<string, string>>, pairs: seq<(string, Json)>)
    requires cs.Ok? && kv.Ok? && |cs.value| == |rows| == |pairs| == |kv.value|
    requires forall i :: 0 <= i < |rows| ==> cs.value[i] == [CsvAssociation(rows[i])]
    requires forall i :: 0 <= i < |pairs| ==> kv.value[i] == [PairAssociation(pairs[i].0, pairs[i].1)]
    requires forall i :: 0 <= i < |pairs| ==> CsvAssociation(rows[i]) == PairAssociation(pairs[i].0, pairs[i].1)
    ensures cs == kv
  {
    assert cs.value == kv.value;
  }

  /** A key-value mapping and a CSV mapping listing the same entries row for row load to
      the same selections. */
  lemma CsvMatchesKeyValue(csvPath: string, jsonPath: string, csv: CsvTable, json: Json)
    requires Lower(Suffix(csvPath)) == ".csv" && Lower(Suffix(jsonPath)) == ".json"
    requires forall key :: key in RequiredKeys ==> key in csv.header
    requires IsKeyValueStyle(json) && !IsBlockStyle(json)
    requires |csv.rows| == |json.entries|
    requires forall i :: 0 <= i < |csv.rows| ==>
               CsvField(csv.rows[i], "source_col") == json.entries[i].0
               && CsvField(csv.rows[i], "element_id") == Str(json.entries[i].1.items[0])
               && CsvField(csv.rows[i], "variable_col") == Str(json.entries[i].1.items[1])
    ensures LoadMappingSpec(csvPath, csv, json) == LoadMappingSpec(jsonPath, csv, json)
  {
    forall i | 0 <= i < |json.entries|
      ensures CsvAssociation(csv.rows[i]) == PairAssociation(json.entries[i].0, json.entries[i].1)
    {
      CsvRowMatchesPair(csv.rows[i], json.entries[i].0, json.entries[i].1);
    }
    CsvAndPairSelectionsAgree(csv, json.entries);
  }

  /** Blocks and key-value entries declaring the same associations in the same order give
      the same selections. */
  lemma BlockAndPairSelectionsAgree(blocks: seq<(string, Json)>, pairs: seq<(string, Json)>)
    requires forall k :: 0 <= k < |pairs| ==> IsPair(pairs[k].1)
    requires |AllRows(blocks)| == |pairs|
    requires forall i :: 0 <= i < |pairs| ==>
               RowAssociation(AllRows(blocks)[i]) == PairAssociation(pairs[i].0, pairs[i].1)
    ensures KeyValueSelections(pairs) == Ok(BlockSelections(blocks))
  {
    BlockSelectionsPerRow(blocks);
    KeyValuePerEntry(pairs);
    var bs := BlockSelections(blocks);
    var kv := KeyValueSelections(pairs).value;
    forall i | 0 <= i < |bs| ensures bs[i] == kv[i] {
      assert bs[i] == [RowAssociation(AllRows(blocks)[i])];
      assert kv[i] == [PairAssociation(pairs[i].0, pairs[i].1)];
    }
    assert bs == kv;
  }

  /** A named-block mapping and a key-value mapping declaring the same associations in the
      same order load to the same selections. */
  lemma BlocksMatchKeyValue(path: string, csv: CsvTable, blocks: Json, pairs: Json)
    requires Lower(Suffix(path)) == ".json"
    requires IsBlockStyle(blocks) && IsKeyValueStyle(pairs) && !IsBlockStyle(pairs)
    requires |AllRows(blocks.entries)| == |pairs.entries|
    requires forall i :: 0 <= i < |pairs.entries| ==>
               RowAssociation(AllRows(blocks.entries)[i]) == PairAssociation(pairs.entries[i].0, pairs.entries[i].1)
    ensures LoadMappingSpec(path, csv, blocks) == LoadMappingSpec(path, csv, pairs)
  {
    BlockAndPairSelectionsAgree(blocks.entries, pairs.entries);
  }

  /** The required keys a row lacks, in ascending order. */
  function MissingKeys(es: seq<(string, Json)>): (r: seq<string>)
    ensures forall key :: key in r <==> key in RequiredKeys && !HasKey(es, key)
  {
    (if HasKey(es, "element_id") then [] else ["element_id"])
    + (if HasKey(es, "source_col") then [] else ["source_col"])
    + (if HasKey(es, "variable_col") then [] else ["variable_col"])
  }

  /** `_check_row_keys` (wide2long/core.py:175-179): a row passes exactly when it has all
      three required keys; otherwise the error names the block and every missing key. */
  function CheckRowKeys(row: seq<(string, Json)>, blockName: string): (r: Option<Error>)
    ensures r.None? <==> HasRequiredKeys(row)
    ensures r.Some? ==> r.value.RowMissingKeys? && r.value.block == blockName && |r.value.missing| > 0
    ensures r.Some? ==> forall key :: key in r.value.missing <==> key in RequiredKeys && !HasKey(row, key)
  {
    var missing := MissingKeys(row);
    if |missing| == 0 then None else Some(RowMissingKeys(blockName, missing))
  }
}
