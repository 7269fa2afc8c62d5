/** The entities shared by the mapping normaliser, the merger and the reshape stage
    of wide2long/core.py. */
module Model {
  import opened Wrappers
  import opened Seqs

  /** The `(element, variable)` pair a source column is mapped to (a ColMap value). */
  datatype Target = Target(element: string, variable: string)

  /** One `src: (element, variable)` entry of a selection dictionary. */
  datatype Association = Association(source: string, target: Target)

  /** One selection dictionary, as its entries in insertion order.
      `load_mapping` only produces dictionaries with a single entry. */
  type Selection = seq<Association>

  /** The errors `convert` and `load_mapping` raise. */
  datatype Error =
    | Conflict(column: string, previous: Target, incoming: Target)  // ValueError: mapped to different targets
    | NoColumnsSelected                                             // ValueError: the merged mapping is empty
    | MissingColumns(columns: seq<string>)                          // KeyError: mapped columns not in the frame
    | MissingIdColumn(column: string)                               // KeyError: an id column not in the frame
    | FrameKeyError                                                 // KeyError raised by melt on an absent column
    | NameClash(name: string)                                       // ValueError: a label melt, pivot_table or reset_index needs is taken
    | CsvMissingRequired                                            // ValueError: mapping CSV lacks a required column
    | KeyValueShape                                                 // ValueError: a key-value entry is not a pair
    | UnrecognizedJson                                              // ValueError: JSON matches neither shape
    | UnsupportedMappingSuffix                                      // ValueError: suffix neither .csv nor .json
    | RowMissingKeys(block: string, missing: seq<string>)           // ValueError of the row-key helper

  /** A value of the input frame; the engine never inspects it. */
  datatype Value = Num(n: int) | Text(s: string) | Flag(b: bool)

  /** A cell: `None` is pandas' missing value (NaN/NA), distinct from 0, "" and false. */
  type Cell = Option<Value>

  /** The input DataFrame: its column labels and, per row, the cell under each label. */
  datatype Frame = Frame(columns: seq<string>, rows: seq<map<string, Cell>>)

  /** The merged `colmap` dictionary: its keys in insertion order and its entries. */
  datatype ColMap = ColMap(order: seq<string>, table: map<string, Target>)

  /** The dictionary invariant: every key once, in `order` exactly when in `table`. */
  predicate ValidColMap(cm: ColMap)
  {
    && NoDups(cm.order)
    && (forall k :: k in cm.order ==> k in cm.table)
    && (forall k :: k in cm.table ==> k in cm.order)
  }

  /** One output row: the id tuple, the element label and the variable cells. */
  datatype LongRow = LongRow(ids: seq<Cell>, element: string, values: map<string, Cell>)

  /** The output DataFrame: its column labels and its rows. */
  datatype LongTable = LongTable(columns: seq<string>, rows: seq<LongRow>)

  /** Looks a column up in a row; a label the row lacks reads as missing. */
  function Get(row: map<string, Cell>, c: string): Cell
  {
    if c in row then row[c] else None
  }
}
