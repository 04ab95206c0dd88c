/** Vocabulary shared by both widget variants: a row of N cells, each holding
    a string that is `""` when the cell is cleared, and what a key press asks for. */
module Widget {

  /** What the key handler does with a key, once its name has been looked up
      in the variant's key-name table. */
  datatype KeyAction = Erase | MoveBack | MoveForward | Typed

  function Min(a: int, b: int): int { if a <= b then a else b }

  function Max(a: int, b: int): int { if a >= b then a else b }

  /** `Array<string>(n).fill('')` */
  function Blank(n: nat): seq<string> {
    seq(n, _ => "")
  }

  /** The array a paste leaves before it is checked: starting at `index`, each
      clipboard unit in turn overwrites one cell, and units that would land past
      the last cell are dropped. Written the way the paste loop walks the text. */
  function Pasted(cells: seq<string>, index: nat, text: string): seq<string>
    decreases |text|
  {
    if text == [] || index >= |cells| then cells
    else Pasted(cells[index := [text[0]]], index + 1, text[1..])
  }

  /** Pointwise, a paste writes unit `j - index` to every cell `j` from `index`
      up to the shorter of the text and the row, keeps every other cell, and
      keeps the row's length. */
  lemma {:induction false} PastedAt(cells: seq<string>, index: nat, text: string)
    ensures |Pasted(cells, index, text)| == |cells|
    ensures forall j :: 0 <= j < |cells| ==>
      Pasted(cells, index, text)[j] ==
        if index <= j < index + |text| then [text[j - index]] else cells[j]
    decreases |text|
  {
    if text != [] && index < |cells| {
      var next := cells[index := [text[0]]];
      PastedAt(next, index + 1, text[1..]);
      forall j | 0 <= j < |cells|
        ensures Pasted(cells, index, text)[j] ==
          if index <= j < index + |text| then [text[j - index]] else cells[j]
      {
        if index + 1 <= j < index + |text| {
          assert text[1..][j - (index + 1)] == text[j - index];
        }
      }
    }
  }

  /** How many cells a paste writes: the text's length, cut at the last cell. */
  lemma PastedCount(cells: seq<string>, index: nat, text: string)
    requires index < |cells|
    ensures |Pasted(cells, index, text)| == |cells|
    ensures forall j :: 0 <= j < |cells| && Pasted(cells, index, text)[j] != cells[j] ==>
      index <= j < Min(index + |text|, |cells|)
  {
    PastedAt(cells, index, text);
  }
}
