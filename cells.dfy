/** The kinds of level cell and their one-letter symbols (LevelCellComponent.java). */
module Cells {
  import opened Wrappers

  datatype Cell = Empty | SmallDot | BigDot | Wall | GhostStart | PacManStart

  /** The enum's values() in declaration order. */
  const AllCells: seq<Cell> := [Empty, SmallDot, BigDot, Wall, GhostStart, PacManStart]

  /** The cellValue string of each kind, as written in a level file. */
  function CellValue(c: Cell): (s: string)
    ensures |s| == 1
  {
    match c
    case Empty => "E"
    case SmallDot => "S"
    case BigDot => "B"
    case Wall => "W"
    case GhostStart => "G"
    case PacManStart => "P"
  }

  datatype CellError = InvalidCellValue(value: string)

  /** The first kind of `cs` whose cellValue equals `s` (the stream filter + findFirst). */
  function FirstWithValue(cs: seq<Cell>, s: string): (r: Option<Cell>)
    ensures r.Some? ==> r.value in cs && CellValue(r.value) == s
    ensures r.None? <==> forall c :: c in cs ==> CellValue(c) != s
  {
    if cs == [] then None
    else if CellValue(cs[0]) == s then Some(cs[0])
    else FirstWithValue(cs[1..], s)
  }

  lemma AllCellsComplete(c: Cell)
    ensures c in AllCells
  {
  }

  /**
   * fromCellValue: decodes a symbol string, failing for anything that is not one of the
   * six symbols. The kinds are tried in declaration order (FromCellValueIsFirstMatch).
   */
  function FromCellValue(s: string): (r: Result<Cell, CellError>)
    ensures r.Ok? ==> CellValue(r.value) == s
    ensures r.Err? ==> r.error == InvalidCellValue(s) && forall c: Cell :: CellValue(c) != s
  {
    if s == "E" then Ok(Empty)
    else if s == "S" then Ok(SmallDot)
    else if s == "B" then Ok(BigDot)
    else if s == "W" then Ok(Wall)
    else if s == "G" then Ok(GhostStart)
    else if s == "P" then Ok(PacManStart)
    else Err(InvalidCellValue(s))
  }

  /** Decoding is the stream's search: the first kind, in declaration order, whose symbol is `s`. */
  lemma FromCellValueIsFirstMatch(s: string)
    ensures FromCellValue(s) == match FirstWithValue(AllCells, s)
                                case Some(c) => Ok(c)
                                case None => Err(InvalidCellValue(s))
  {
    assert AllCells[1..] == [SmallDot, BigDot, Wall, GhostStart, PacManStart];
    assert AllCells[2..] == [BigDot, Wall, GhostStart, PacManStart];
    assert AllCells[3..] == [Wall, GhostStart, PacManStart];
    assert AllCells[4..] == [GhostStart, PacManStart];
    assert AllCells[5..] == [PacManStart];
  }

  /** The six symbols are distinct, so a symbol names exactly one kind. */
  lemma {:induction false} CellValueInjective(c1: Cell, c2: Cell)
    ensures CellValue(c1) == CellValue(c2) ==> c1 == c2
  {
  }

  /** Decoding the symbol of a kind gives that kind back. */
  lemma CellValueRoundTrip(c: Cell)
    ensures FromCellValue(CellValue(c)) == Ok(c)
  {
    var r := FromCellValue(CellValue(c));
    AllCellsComplete(c);
    assert r.Ok?;
    CellValueInjective(r.value, c);
  }

  /** Every symbol has exactly one character, so the empty string and longer strings are rejected. */
  lemma FromCellValueRejectsLength(s: string)
    requires |s| != 1
    ensures FromCellValue(s) == Err(InvalidCellValue(s))
  {
  }

  /** getValidStringComponents: the first character of every cellValue. */
  function ValidStringComponents(): (r: set<char>)
    ensures r == {'E', 'S', 'B', 'W', 'G', 'P'}
  {
    var r := set c | c in AllCells :: CellValue(c)[0];
    forall x | x in r
      ensures x in {'E', 'S', 'B', 'W', 'G', 'P'}
    {
      var c :| c in AllCells && CellValue(c)[0] == x;
    }
    assert CellValue(AllCells[0])[0] in r && CellValue(AllCells[1])[0] in r && CellValue(AllCells[2])[0] in r;
    assert CellValue(AllCells[3])[0] in r && CellValue(AllCells[4])[0] in r && CellValue(AllCells[5])[0] in r;
    r
  }

  /** A character is a valid component exactly when the one-character string it forms decodes. */
  lemma ValidComponentDecodes(ch: char)
    ensures ch in ValidStringComponents() <==> FromCellValue([ch]).Ok?
  {
    if ch in ValidStringComponents() {
      assert [ch] in {"E", "S", "B", "W", "G", "P"};
    }
    if FromCellValue([ch]).Ok? {
      var c := FromCellValue([ch]).value;
      assert CellValue(c)[0] == ch;
      AllCellsComplete(c);
    }
  }
}
