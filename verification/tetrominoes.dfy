/** The fixed table of seven piece templates and the spawn function. */
module Tetrominoes {
  import opened Types

  /** Number of filled cells in one row of a shape. */
  function CountRow(row: seq<bool>): nat {
    if |row| == 0 then 0 else (if row[0] then 1 else 0) + CountRow(row[1..])
  }

  /** Number of filled cells in a shape. */
  function CountFilled(shape: Shape): nat {
    if |shape| == 0 then 0 else CountRow(shape[0]) + CountFilled(shape[1..])
  }

  /** The shape table, keyed by piece name. */
  const Table: map<string, Template> := map[
    "I" := Template([[false, false, false, false],
                     [true,  true,  true,  true ],
                     [false, false, false, false],
                     [false, false, false, false]], "#00f5ff"),
    "O" := Template([[true, true],
                     [true, true]], "#ffff00"),
    "T" := Template([[false, true,  false],
                     [true,  true,  true ],
                     [false, false, false]], "#a000f0"),
    "S" := Template([[false, true,  true ],
                     [true,  true,  false],
                     [false, false, false]], "#00f000"),
    "Z" := Template([[true,  true,  false],
                     [false, true,  true ],
                     [false, false, false]], "#f00000"),
    "J" := Template([[true,  false, false],
                     [true,  true,  true ],
                     [false, false, false]], "#0000f0"),
    "L" := Template([[false, false, true ],
                     [true,  true,  true ],
                     [false, false, false]], "#ff8000")
  ]

  /** The table's keys in insertion order. */
  const Names: seq<string> := ["I", "O", "T", "S", "Z", "J", "L"]

  /** Where every piece spawns. */
  const SpawnPosition: Position := Position(3, 0)

  /** The names are exactly the table's keys, seven of them, each listed once. */
  lemma NamesAreTheKeys()
    ensures |Names| == 7
    ensures forall i :: 0 <= i < |Names| ==> Names[i] in Table
    ensures forall k :: k in Table <==> k in Names
    ensures forall i, j :: 0 <= i < j < |Names| ==> Names[i] != Names[j]
  {
  }

  /** The template stored under the `index`-th name. */
  function TemplateAt(index: nat): (t: Template)
    requires index < |Names|
    ensures Names[index] in Table && t == Table[Names[index]]
  {
    NamesAreTheKeys();
    Table[Names[index]]
  }

  /** Different indices select different templates: the seven colours are
      pairwise distinct. */
  lemma TemplatesDistinct(i: nat, j: nat)
    requires i < |Names| && j < |Names| && i != j
    ensures TemplateAt(i).color != TemplateAt(j).color
  {
  }

  /** Spawns the `index`-th piece: a copy of its template's shape and colour at
      the spawn position. The source draws `index` uniformly from 0..6. */
  function GetTetromino(index: nat): (p: Piece)
    requires index < |Names|
    ensures p.shape == TemplateAt(index).shape && p.color == TemplateAt(index).color
    ensures p.position == Position(3, 0)
  {
    var t := TemplateAt(index);
    Piece(t.shape, t.color, SpawnPosition)
  }

  /** An n-by-n shape with exactly four filled cells, one of them at (1, 1). */
  predicate Tetromino(shape: Shape, n: nat) {
    IsRect(shape, n, n) && CountFilled(shape) == 4 && Filled(shape, 1, 1)
  }

  /** One lemma per template keeps every literal computation small. */
  lemma TetrominoI() ensures Tetromino(Table["I"].shape, 4) {}
  lemma TetrominoO() ensures Tetromino(Table["O"].shape, 2) {}
  lemma TetrominoT() ensures Tetromino(Table["T"].shape, 3) {}
  lemma TetrominoS() ensures Tetromino(Table["S"].shape, 3) {}
  lemma TetrominoZ() ensures Tetromino(Table["Z"].shape, 3) {}
  lemma TetrominoJ() ensures Tetromino(Table["J"].shape, 3) {}
  lemma TetrominoL() ensures Tetromino(Table["L"].shape, 3) {}

  /** Every template is square (I is 4x4, O is 2x2, the rest 3x3), has exactly
      four filled cells, and fills its cell (1, 1). */
  lemma TemplatesAreTetrominoes(index: nat)
    requires index < |Names|
    ensures var s := TemplateAt(index).shape;
      var n := if Names[index] == "I" then 4 else if Names[index] == "O" then 2 else 3;
      && IsRect(s, n, n)
      && CountFilled(s) == 4
      && Filled(s, 1, 1)
  {
    if index == 0 { TetrominoI(); }
    else if index == 1 { TetrominoO(); }
    else if index == 2 { TetrominoT(); }
    else if index == 3 { TetrominoS(); }
    else if index == 4 { TetrominoZ(); }
    else if index == 5 { TetrominoJ(); }
    else { TetrominoL(); }
  }

  /** Every spawned piece has a shape the game can hold. */
  lemma SpawnedPiecesAreWellShaped(index: nat)
    requires index < |Names|
    ensures WellShaped(GetTetromino(index).shape)
  {
    TemplatesAreTetrominoes(index);
  }
}
