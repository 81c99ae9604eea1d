/**
 * The level layout descriptor (LevelLayout.java): cleaning of the level file's lines,
 * validation of the level format and bounds-checked cell lookup. The layout is never
 * changed after it has been built, so it is a value.
 */
module Levels {
  import opened Wrappers
  import opened Cells

  /** Minimum width and height of a level. */
  const MinimumLevelDimension := 10
  /** Number of Pac-Men a level must define. */
  const NumOfPacMen := 1

  // ---------------------------------------------------------------------------
  // Line cleaning: the map/filter pipeline applied to the lines of the file
  // ---------------------------------------------------------------------------

  /** Helper: a non-empty sequence is its head before its tail, and concatenation is associative. */
  lemma SplitFirst<T>(a: seq<T>, b: seq<T>)
    requires a != []
    ensures a == [a[0]] + a[1..] && a + b == [a[0]] + (a[1..] + b)
  {
  }

  lemma AppendAssociates<T>(p: seq<T>, q: seq<T>, r: seq<T>)
    ensures p + (q + r) == (p + q) + r
  {
  }

  /** replaceAll(" ", ""). */
  function RemoveSpaces(s: string): (r: string)
    ensures ' ' !in r
    ensures forall ch :: ch != ' ' ==> (ch in r <==> ch in s)
    ensures ' ' !in s ==> r == s
  {
    if s == [] then [] else (if s[0] == ' ' then [] else [s[0]]) + RemoveSpaces(s[1..])
  }

  /** Removing spaces looks at the first character and goes on with the rest. */
  lemma RemoveSpacesCons(c: char, s: string)
    ensures RemoveSpaces([c] + s) == (if c == ' ' then [] else [c]) + RemoveSpaces(s)
  {
    var t := [c] + s;
    assert t[0] == c && t[1..] == s;
  }

  /** Removing spaces works character by character: the other characters keep their order and number. */
  lemma {:induction false} RemoveSpacesAppend(a: string, b: string)
    ensures RemoveSpaces(a + b) == RemoveSpaces(a) + RemoveSpaces(b)
    ensures RemoveSpaces([' ']) == [] && forall ch :: ch != ' ' ==> RemoveSpaces([ch]) == [ch]
    decreases |a|
  {
    if a == [] {
      assert a + b == b;
    } else {
      var c, tail := a[0], a[1..];
      SplitFirst(a, b);
      RemoveSpacesCons(c, tail + b);
      RemoveSpacesCons(c, tail);
      RemoveSpacesAppend(tail, b);
      AppendAssociates(if c == ' ' then [] else [c], RemoveSpaces(tail), RemoveSpaces(b));
    }
    forall ch: char
      ensures RemoveSpaces([ch]) == if ch == ' ' then [] else [ch]
    {
      RemoveSpacesCons(ch, []);
      assert [ch] + [] == [ch];
    }
  }

  /** The characters at which the regular expression '.' stops: Java's line terminators. */
  predicate IsLineTerminator(ch: char) {
    ch == '\n' || ch == '\r' || ch == '\U{85}' || ch == '\U{2028}' || ch == '\U{2029}'
  }

  /** What is left after ".*" has consumed the longest run of non-terminator characters. */
  function SkipToLineTerminator(s: string): (r: string)
    ensures |r| <= |s| && r == s[|s| - |r|..]
    ensures r == [] || IsLineTerminator(r[0])
    ensures forall i :: 0 <= i < |s| - |r| ==> !IsLineTerminator(s[i])
  {
    if s == [] || IsLineTerminator(s[0]) then s else SkipToLineTerminator(s[1..])
  }

  /** replaceAll("#.*", ""): every '#' and the rest of its line are removed. */
  function StripComments(s: string): (r: string)
    ensures '#' !in r
    ensures forall ch :: ch in r ==> ch in s
    ensures '#' !in s ==> r == s
    decreases |s|
  {
    if s == [] then []
    else if s[0] == '#' then StripComments(SkipToLineTerminator(s[1..]))
    else [s[0]] + StripComments(s[1..])
  }

  /** A character other than '#' is kept, and a '#' drops itself and the rest of its line. */
  lemma StripCommentsCons(c: char, s: string)
    ensures StripComments([c] + s) == if c == '#' then StripComments(SkipToLineTerminator(s)) else [c] + StripComments(s)
  {
    var t := [c] + s;
    assert t[0] == c && t[1..] == s;
  }

  /** Text before the first '#' is kept as it is. */
  lemma {:induction false} StripCommentsKeepsPrefix(a: string, b: string)
    requires '#' !in a
    ensures StripComments(a + b) == a + StripComments(b)
    decreases |a|
  {
    if a != [] {
      var c, tail := a[0], a[1..];
      SplitFirst(a, b);
      assert c != '#' && '#' !in tail;
      StripCommentsCons(c, tail + b);
      StripCommentsKeepsPrefix(tail, b);
      AppendAssociates([c], tail, StripComments(b));
    } else {
      assert a + b == b;
    }
  }

  /** A '#' removes itself and the rest of its line, and what comes after a line terminator is kept. */
  lemma StripCommentsDropsComment(a: string, b: string)
    requires '#' !in a
    ensures StripComments(a + ['#'] + b) == a + StripComments(SkipToLineTerminator(b))
    ensures (forall i :: 0 <= i < |b| ==> !IsLineTerminator(b[i])) ==> StripComments(a + ['#'] + b) == a
  {
    AppendAssociates(a, ['#'], b);
    StripCommentsKeepsPrefix(a, ['#'] + b);
    StripCommentsCons('#', b);
    if forall i :: 0 <= i < |b| ==> !IsLineTerminator(b[i]) {
      SkipWholeLine(b);
      assert a + [] == a;
    }
  }

  /** With no line terminator in the text, ".*" consumes all of it. */
  lemma {:induction false} SkipWholeLine(b: string)
    requires forall i :: 0 <= i < |b| ==> !IsLineTerminator(b[i])
    ensures SkipToLineTerminator(b) == []
    decreases |b|
  {
    if b != [] {
      assert forall i :: 0 <= i < |b| - 1 ==> b[1..][i] == b[i + 1];
      SkipWholeLine(b[1..]);
    }
  }

  /** String.trim() removes every character up to U+0020 at either end. */
  predicate IsTrimmed(ch: char) {
    ch <= ' '
  }

  function TrimStart(s: string): (r: string)
    ensures r == [] || !IsTrimmed(r[0])
    ensures |r| <= |s| && r == s[|s| - |r|..]
    ensures forall k :: 0 <= k < |s| - |r| ==> IsTrimmed(s[k])
  {
    if s != [] && IsTrimmed(s[0]) then TrimStart(s[1..]) else s
  }

  function TrimEnd(s: string): (r: string)
    ensures r == [] || !IsTrimmed(r[|r| - 1])
    ensures |r| <= |s| && r == s[..|r|]
    ensures forall k :: |r| <= k < |s| ==> IsTrimmed(s[k])
  {
    if s != [] && IsTrimmed(s[|s| - 1]) then TrimEnd(s[..|s| - 1]) else s
  }

  lemma SliceKeepsMembers(s: string, lo: int, hi: int)
    requires 0 <= lo <= hi <= |s|
    ensures forall ch :: ch in s[lo..hi] ==> ch in s
  {
    forall ch | ch in s[lo..hi]
      ensures ch in s
    {
      var i :| 0 <= i < hi - lo && s[lo..hi][i] == ch;
      assert s[lo + i] == ch;
    }
  }

  /** String.trim(). */
  function Trim(s: string): (r: string)
    ensures r == [] || (!IsTrimmed(r[0]) && !IsTrimmed(r[|r| - 1]))
    ensures forall ch :: ch in r ==> ch in s
  {
    var t := TrimStart(s);
    var r := TrimEnd(t);
    SliceKeepsMembers(t, 0, |r|);
    SliceKeepsMembers(s, |s| - |t|, |s|);
    r
  }

  /** Where the slice that Trim keeps starts. */
  function TrimOffset(s: string): (i: nat)
    ensures i <= |s|
  {
    |s| - |TrimStart(s)|
  }

  /**
   * Trim cuts off a run of characters up to U+0020 at either end and keeps the slice
   * between them; a string with no such character at its ends is kept as it is.
   */
  lemma TrimMeaning(s: string)
    ensures TrimOffset(s) + |Trim(s)| <= |s|
    ensures Trim(s) == s[TrimOffset(s)..TrimOffset(s) + |Trim(s)|]
    ensures forall k :: 0 <= k < TrimOffset(s) ==> IsTrimmed(s[k])
    ensures forall k :: TrimOffset(s) + |Trim(s)| <= k < |s| ==> IsTrimmed(s[k])
    ensures s == [] || (!IsTrimmed(s[0]) && !IsTrimmed(s[|s| - 1])) ==> Trim(s) == s
  {
    TrimSlice(s);
    TrimCutsEnd(s);
    if s != [] && !IsTrimmed(s[0]) && !IsTrimmed(s[|s| - 1]) {
      TrimKeepsTidy(s);
    }
  }

  /** Helper: the slice that Trim keeps. */
  lemma TrimSlice(s: string)
    ensures TrimOffset(s) + |Trim(s)| <= |s|
    ensures Trim(s) == s[TrimOffset(s)..TrimOffset(s) + |Trim(s)|]
  {
    var t := TrimStart(s);
    var r := TrimEnd(t);
    var i := |s| - |t|;
    assert Trim(s) == r && TrimOffset(s) == i;
    SliceOfSuffix(s, i, |r|);
    assert t == s[i..] && r == t[..|r|];
  }

  /** Helper: what Trim cuts off after the slice it keeps. */
  lemma TrimCutsEnd(s: string)
    ensures forall k :: TrimOffset(s) + |Trim(s)| <= k < |s| ==> IsTrimmed(s[k])
  {
    var t := TrimStart(s);
    var r := TrimEnd(t);
    var i := |s| - |t|;
    assert Trim(s) == r && TrimOffset(s) == i;
    forall k | i + |r| <= k < |s|
      ensures IsTrimmed(s[k])
    {
      var j := k - i;
      assert |r| <= j < |t| && t[j] == s[k];
      assert IsTrimmed(t[j]);
    }
  }

  /** Helper: a non-empty line whose ends are above U+0020 is kept by Trim. */
  lemma TrimKeepsTidy(s: string)
    requires s != [] && !IsTrimmed(s[0]) && !IsTrimmed(s[|s| - 1])
    ensures Trim(s) == s
  {
    assert TrimStart(s) == s;
    assert TrimEnd(s) == s;
  }

  /** Helper: a prefix of a suffix is a slice. */
  lemma SliceOfSuffix<T>(s: seq<T>, i: int, n: int)
    requires 0 <= i && 0 <= n && i + n <= |s|
    ensures s[i..][..n] == s[i..i + n]
  {
  }

  /** One line after the three map steps of the pipeline. */
  function CleanLine(s: string): (r: string)
    ensures ' ' !in r && '#' !in r
    ensures r == [] || (!IsTrimmed(r[0]) && !IsTrimmed(r[|r| - 1]))
  {
    Trim(StripComments(RemoveSpaces(s)))
  }

  /** A line already without spaces and comments, and trimmed, is kept as it is. */
  lemma CleanLineKeepsCleanLine(s: string)
    requires ' ' !in s && '#' !in s && (s == [] || IsTidy(s))
    ensures CleanLine(s) == s
  {
    TrimMeaning(s);
  }

  /** A comment is dropped up to the end of the line: the line reads as its text before '#'. */
  lemma CleanLineDropsComment(a: string, b: string)
    requires '#' !in a && forall i :: 0 <= i < |b| ==> !IsLineTerminator(b[i])
    ensures CleanLine(a + ['#'] + b) == CleanLine(a)
  {
    RemoveSpacesAppend(a + ['#'], b);
    RemoveSpacesAppend(a, ['#']);
    var ra, rb := RemoveSpaces(a), RemoveSpaces(b);
    assert RemoveSpaces(a + ['#'] + b) == ra + ['#'] + rb;
    forall i | 0 <= i < |rb|
      ensures !IsLineTerminator(rb[i])
    {
      assert rb[i] in rb;
      var j :| 0 <= j < |b| && b[j] == rb[i];
    }
    StripCommentsDropsComment(ra, rb);
  }

  /** A line the pipeline drops: nothing is left of it once it is cleaned. */
  predicate Blank(s: string) {
    CleanLine(s) == []
  }

  /** A non-empty line that starts and ends with a printable character. */
  predicate IsTidy(s: string) {
    s != [] && !IsTrimmed(s[0]) && !IsTrimmed(s[|s| - 1])
  }

  /** Lines of which nothing is left once they are cleaned. */
  predicate AllBlank(raw: seq<string>) {
    forall i :: 0 <= i < |raw| ==> Blank(raw[i])
  }

  /** A line that survives the pipeline: not empty, without spaces and comments. */
  predicate IsCleanLine(s: string) {
    s != [] && ' ' !in s && '#' !in s
  }

  /** The cleaned lines that are not empty, in file order. */
  function CleanNonEmpty(raw: seq<string>): (r: seq<string>)
    ensures |r| <= |raw|
    ensures forall i :: 0 <= i < |r| ==> IsCleanLine(r[i])
    ensures r == [] <==> AllBlank(raw)
  {
    if raw == [] then []
    else
      var line := CleanLine(raw[0]);
      var rest := CleanNonEmpty(raw[1..]);
      assert forall i :: 0 < i < |raw| ==> raw[1..][i - 1] == raw[i];
      if line == [] then rest
      else
        assert forall i :: 0 < i <= |rest| ==> ([line] + rest)[i] == rest[i - 1];
        [line] + rest
  }

  /** The first line is cleaned, and kept when something is left of it, before the rest. */
  lemma CleanNonEmptyCons(x: string, rest: seq<string>)
    ensures CleanNonEmpty([x] + rest) == (if Blank(x) then [] else [CleanLine(x)]) + CleanNonEmpty(rest)
  {
    var raw := [x] + rest;
    assert raw[0] == x && raw[1..] == rest;
  }

  /** Lines are cleaned one by one, and the cleaned lines keep the file's order. */
  lemma {:induction false} CleanNonEmptyAppend(a: seq<string>, b: seq<string>)
    ensures CleanNonEmpty(a + b) == CleanNonEmpty(a) + CleanNonEmpty(b)
    decreases |a|
  {
    if a == [] {
      assert a + b == b;
    } else {
      var x, tail := a[0], a[1..];
      var h := if Blank(x) then [] else [CleanLine(x)];
      SplitFirst(a, b);
      CleanNonEmptyCons(x, tail + b);
      CleanNonEmptyCons(x, tail);
      CleanNonEmptyAppend(tail, b);
      AppendAssociates(h, CleanNonEmpty(tail), CleanNonEmpty(b));
    }
  }

  /** A single line is kept, cleaned, exactly when something is left of it. */
  lemma CleanNonEmptyOne(x: string)
    ensures CleanNonEmpty([x]) == if Blank(x) then [] else [CleanLine(x)]
  {
    assert [x][1..] == [];
  }

  /**
   * The level lines obtained from the lines of the file: every line cleaned, empty
   * lines dropped. The cleaned lines are joined with "\n" and split again on "\r?\n".
   * The lines of the file are taken to be split at line breaks already, so no line holds
   * a '\n', and trim removes a final '\r': the second split is the identity, except
   * that splitting the empty text yields one empty line.
   */
  function CleanLines(raw: seq<string>): (r: seq<string>)
    ensures |r| >= 1
    ensures r == [""] || forall i :: 0 <= i < |r| ==> IsCleanLine(r[i])
    ensures r == [""] <==> AllBlank(raw)
    ensures r != [""] ==> r == CleanNonEmpty(raw)
  {
    var kept := CleanNonEmpty(raw);
    if kept == [] then [""]
    else
      assert IsCleanLine(kept[0]) && kept[0] != [];
      assert [""][0] == [] && kept[0] != [""][0];
      kept
  }

  /** A file whose lines are already clean and trimmed is read line for line. */
  lemma {:induction false} CleanLinesKeepsCleanFile(raw: seq<string>)
    requires raw != []
    requires forall i :: 0 <= i < |raw| ==> IsCleanLine(raw[i]) && IsTidy(raw[i])
    ensures CleanLines(raw) == raw
  {
    CleanNonEmptyKeepsClean(raw);
  }

  lemma {:induction false} CleanNonEmptyKeepsClean(raw: seq<string>)
    requires forall i :: 0 <= i < |raw| ==> IsCleanLine(raw[i]) && IsTidy(raw[i])
    ensures CleanNonEmpty(raw) == raw
    decreases |raw|
  {
    if raw != [] {
      var head, tail := raw[0], raw[1..];
      assert raw == [head] + tail;
      assert forall i :: 0 <= i < |tail| ==> tail[i] == raw[i + 1];
      CleanNonEmptyKeepsClean(tail);
      assert IsCleanLine(head) && IsTidy(head);
      CleanLineKeepsCleanLine(head);
      CleanNonEmptyCons(head, tail);
    }
  }

  // ---------------------------------------------------------------------------
  // Validation of the level format
  // ---------------------------------------------------------------------------

  datatype LevelError =
    | HeightTooSmall
    | WidthTooSmall
    | NotRectangular
    | InvalidSymbol(value: string)
    | TooManyPacMen
    | NoPacMan
    | NoSmallDot
    | NoGhost

  const HeightMessage := "Level height cannot be less than 10!"
  const WidthMessage := "Level width cannot be less than 10!"
  const RectangularMessage := "Level must be rectangular!"
  const InvalidSymbolSuffix := " is not a valid level cell component value."
  const OnePacManMessage := "There can only be one Pac-Man!"
  const NoPacManMessage := "Level must define one Pac-Man!"
  const SmallDotMessage := "Level must define at least one small dot!"
  const GhostMessage := "Level must define at least one ghost!"

  /** The message of the IllegalArgumentException that reports each failure. */
  function Message(e: LevelError): string {
    match e
    case HeightTooSmall => HeightMessage
    case WidthTooSmall => WidthMessage
    case NotRectangular => RectangularMessage
    case InvalidSymbol(v) => v + InvalidSymbolSuffix
    case TooManyPacMen => OnePacManMessage
    case NoPacMan => NoPacManMessage
    case NoSmallDot => SmallDotMessage
    case NoGhost => GhostMessage
  }

  /**
   * Every failure has its own message: the message names the failed check, and for an
   * invalid symbol it starts with that symbol.
   */
  lemma MessageIdentifiesError(e1: LevelError, e2: LevelError)
    ensures Message(e1) == Message(e2) <==> e1 == e2
    ensures e1.InvalidSymbol? ==> |e1.value| < |Message(e1)| && Message(e1)[..|e1.value|] == e1.value
  {
    MessageEnd(e1);
    MessageEnd(e2);
    if e1.InvalidSymbol? {
      SymbolMessage(e1.value);
      if e2.InvalidSymbol? {
        SymbolMessage(e2.value);
      }
    } else if !e2.InvalidSymbol? && e1 != e2 {
      FixedMessagesDiffer(e1, e2);
    }
  }

  /** Helper: the message of an invalid symbol is the symbol followed by a fixed text. */
  lemma SymbolMessage(v: string)
    ensures var m := Message(InvalidSymbol(v));
      |m| == |v| + |InvalidSymbolSuffix| && m[..|v|] == v
  {
    assert Message(InvalidSymbol(v)) == v + InvalidSymbolSuffix;
  }

  /** Helper: an invalid symbol is reported with a '.', every other failure with a '!'. */
  lemma MessageEnd(e: LevelError)
    ensures |Message(e)| > 0 && Message(e)[|Message(e)| - 1] == if e.InvalidSymbol? then '.' else '!'
  {
    match e
    case InvalidSymbol(v) =>
      assert Message(e) == v + InvalidSymbolSuffix && InvalidSymbolSuffix[|InvalidSymbolSuffix| - 1] == '.';
    case _ =>
  }

  /** Helper: the fixed messages differ in their length or in their first character. */
  lemma FixedMessagesDiffer(e1: LevelError, e2: LevelError)
    requires !e1.InvalidSymbol? && !e2.InvalidSymbol? && e1 != e2
    ensures |Message(e1)| != |Message(e2)| || Message(e1)[0] != Message(e2)[0]
  {
  }

  /** The counters kept while the symbols are scanned. */
  datatype Tally = Tally(pacMen: int, smallDots: int, bigDots: int, ghosts: int)

  const NoTally := Tally(0, 0, 0, 0)

  function Counted(t: Tally, c: Cell): Tally {
    match c
    case PacManStart => t.(pacMen := t.pacMen + 1)
    case SmallDot => t.(smallDots := t.smallDots + 1)
    case BigDot => t.(bigDots := t.bigDots + 1)
    case GhostStart => t.(ghosts := t.ghosts + 1)
    case _ => t
  }

  /** The scan of one row's symbols, in order, from the counters `t`. */
  function ScanRow(row: string, t: Tally): Result<Tally, LevelError>
    decreases |row|
  {
    if row == [] then Ok(t)
    else match FromCellValue([row[0]])
      case Err(_) => Err(InvalidSymbol([row[0]]))
      case Ok(c) =>
        var t' := Counted(t, c);
        if c == PacManStart && t'.pacMen > NumOfPacMen then Err(TooManyPacMen)
        else ScanRow(row[1..], t')
  }

  /** The scan of the rows, in order: each row's length is checked before its symbols. */
  function ScanRows(rows: seq<string>, width: int, t: Tally): Result<Tally, LevelError>
    decreases |rows|
  {
    if rows == [] then Ok(t)
    else if |rows[0]| != width then Err(NotRectangular)
    else match ScanRow(rows[0], t)
      case Err(e) => Err(e)
      case Ok(t') => ScanRows(rows[1..], width, t')
  }

  /** The outcome of verifyLevelFormat, failure by failure in the order the source checks them. */
  function CheckLevel(lines: seq<string>): Result<Tally, LevelError> {
    if |lines| < MinimumLevelDimension then Err(HeightTooSmall)
    else if |lines[0]| < MinimumLevelDimension then Err(WidthTooSmall)
    else match ScanRows(lines, |lines[0]|, NoTally)
      case Err(e) => Err(e)
      case Ok(t) =>
        if t.pacMen != NumOfPacMen then Err(NoPacMan)
        else if t.smallDots == 0 then Err(NoSmallDot)
        else if t.ghosts == 0 then Err(NoGhost)
        else Ok(t)
  }

  /**
   * verifyLevelFormat: checks the size, then every row's length and symbols while
   * counting Pac-Men, dots and ghosts, then the counts.
   */
  method VerifyLevelFormat(levelLines: seq<string>) returns (r: Result<Tally, LevelError>)
    ensures r == CheckLevel(levelLines)
  {
    if |levelLines| < MinimumLevelDimension {
      return Err(HeightTooSmall);
    }
    var levelHeight := |levelLines|;
    var levelWidth := |levelLines[0]|;
    if levelWidth < MinimumLevelDimension {
      return Err(WidthTooSmall);
    }
    var numOfPacMen, numOfSmallDots, numOfBigDots, numOfGhosts := 0, 0, 0, 0;
    var i := 0;
    while i < levelHeight
      invariant 0 <= i <= levelHeight
      invariant ScanRows(levelLines, levelWidth, NoTally)
             == ScanRows(levelLines[i..], levelWidth, Tally(numOfPacMen, numOfSmallDots, numOfBigDots, numOfGhosts))
    {
      if |levelLines[i]| != levelWidth {
        return Err(NotRectangular);
      }
      var scanned := CheckRowSymbols(levelLines[i], Tally(numOfPacMen, numOfSmallDots, numOfBigDots, numOfGhosts));
      if scanned.Err? {
        return Err(scanned.error);
      }
      numOfPacMen, numOfSmallDots, numOfBigDots, numOfGhosts :=
        scanned.value.pacMen, scanned.value.smallDots, scanned.value.bigDots, scanned.value.ghosts;
      assert levelLines[i..][1..] == levelLines[i + 1..];
      i := i + 1;
    }
    if numOfPacMen != NumOfPacMen {
      return Err(NoPacMan);
    }
    if numOfSmallDots == 0 {
      return Err(NoSmallDot);
    }
    if numOfGhosts == 0 {
      return Err(NoGhost);
    }
    return Ok(Tally(numOfPacMen, numOfSmallDots, numOfBigDots, numOfGhosts));
  }

  /** The inner loop of verifyLevelFormat: the symbols of one row, counted from `t`. */
  method CheckRowSymbols(row: string, t: Tally) returns (r: Result<Tally, LevelError>)
    ensures r == ScanRow(row, t)
  {
    var numOfPacMen, numOfSmallDots, numOfBigDots, numOfGhosts := t.pacMen, t.smallDots, t.bigDots, t.ghosts;
    var j := 0;
    while j < |row|
      invariant 0 <= j <= |row|
      invariant ScanRow(row, t) == ScanRow(row[j..], Tally(numOfPacMen, numOfSmallDots, numOfBigDots, numOfGhosts))
    {
      var symbol := FromCellValue([row[j]]);
      ScanRowAt(row, j, Tally(numOfPacMen, numOfSmallDots, numOfBigDots, numOfGhosts));
      if symbol.Err? {
        return Err(InvalidSymbol([row[j]]));
      }
      match symbol.value {
        case PacManStart =>
          numOfPacMen := numOfPacMen + 1;
          if numOfPacMen > NumOfPacMen {
            return Err(TooManyPacMen);
          }
        case SmallDot =>
          numOfSmallDots := numOfSmallDots + 1;
        case BigDot =>
          numOfBigDots := numOfBigDots + 1;
        case GhostStart =>
          numOfGhosts := numOfGhosts + 1;
        case _ =>
      }
      j := j + 1;
    }
    return Ok(Tally(numOfPacMen, numOfSmallDots, numOfBigDots, numOfGhosts));
  }

  /** One step of the scan of a row, at position `j`. */
  lemma ScanRowAt(row: string, j: nat, t: Tally)
    requires j < |row|
    ensures FromCellValue([row[j]]).Err? ==> ScanRow(row[j..], t) == Err(InvalidSymbol([row[j]]))
    ensures FromCellValue([row[j]]).Ok? ==>
      var c := FromCellValue([row[j]]).value;
      ScanRow(row[j..], t)
        == if c == PacManStart && t.pacMen + 1 > NumOfPacMen then Err(TooManyPacMen)
           else ScanRow(row[j + 1..], Counted(t, c))
  {
    assert row[j..][0] == row[j] && row[j..][1..] == row[j + 1..];
  }

  // ---------------------------------------------------------------------------
  // What a successful check means, stated without the scan
  // ---------------------------------------------------------------------------

  /** One of the six symbols a cell kind is written as. */
  predicate IsValidSymbol(ch: char) {
    ch == 'E' || ch == 'S' || ch == 'B' || ch == 'W' || ch == 'G' || ch == 'P'
  }

  /** The six symbols are exactly the one-character strings a cell kind decodes from. */
  lemma ValidSymbolDecodes(ch: char)
    ensures IsValidSymbol(ch) <==> FromCellValue([ch]).Ok?
  {
  }

  /** Occurrences of `ch` in one row. */
  function RowCount(row: string, ch: char): nat {
    if row == [] then 0 else (if row[0] == ch then 1 else 0) + RowCount(row[1..], ch)
  }

  /** Occurrences of `ch` in the whole level. */
  function SymbolCount(lines: seq<string>, ch: char): nat {
    if lines == [] then 0 else RowCount(lines[0], ch) + SymbolCount(lines[1..], ch)
  }

  predicate RowValid(row: string) {
    forall j :: 0 <= j < |row| ==> IsValidSymbol(row[j])
  }

  predicate Rectangular(lines: seq<string>, width: int) {
    forall i :: 0 <= i < |lines| ==> |lines[i]| == width
  }

  predicate SymbolsValid(lines: seq<string>) {
    forall i :: 0 <= i < |lines| ==> RowValid(lines[i])
  }

  /** Every rule of the level format. */
  predicate WellFormedLevel(lines: seq<string>) {
    && |lines| >= MinimumLevelDimension
    && |lines[0]| >= MinimumLevelDimension
    && Rectangular(lines, |lines[0]|)
    && SymbolsValid(lines)
    && SymbolCount(lines, 'P') == NumOfPacMen
    && SymbolCount(lines, 'S') >= 1
    && SymbolCount(lines, 'G') >= 1
  }

  function AddRow(t: Tally, row: string): Tally {
    Tally(t.pacMen + RowCount(row, 'P'), t.smallDots + RowCount(row, 'S'),
          t.bigDots + RowCount(row, 'B'), t.ghosts + RowCount(row, 'G'))
  }

  function AddRows(t: Tally, rows: seq<string>): Tally {
    Tally(t.pacMen + SymbolCount(rows, 'P'), t.smallDots + SymbolCount(rows, 'S'),
          t.bigDots + SymbolCount(rows, 'B'), t.ghosts + SymbolCount(rows, 'G'))
  }

  lemma DecodedSymbol(ch: char, c: Cell)
    requires FromCellValue([ch]) == Ok(c)
    ensures ch == CellValue(c)[0]
    ensures Counted(NoTally, c) == Tally(if ch == 'P' then 1 else 0, if ch == 'S' then 1 else 0,
                                         if ch == 'B' then 1 else 0, if ch == 'G' then 1 else 0)
  {
  }

  /** A row scans without error exactly when its symbols are valid and it adds no second Pac-Man. */
  lemma {:induction false} ScanRowMeaning(row: string, t: Tally)
    requires t.pacMen <= NumOfPacMen
    ensures ScanRow(row, t).Ok? <==> RowValid(row) && t.pacMen + RowCount(row, 'P') <= NumOfPacMen
    ensures ScanRow(row, t).Ok? ==> ScanRow(row, t).value == AddRow(t, row)
    decreases |row|
  {
    if row != [] {
      var d := FromCellValue([row[0]]);
      ValidSymbolDecodes(row[0]);
      if d.Ok? {
        DecodedSymbol(row[0], d.value);
        var t' := Counted(t, d.value);
        if !(d.value == PacManStart && t'.pacMen > NumOfPacMen) {
          ScanRowMeaning(row[1..], t');
          assert RowValid(row) <==> RowValid(row[1..]) by {
            assert forall j :: 0 < j < |row| ==> row[j] == row[1..][j - 1];
          }
        }
      } else {
        assert !RowValid(row);
      }
    }
  }

  /** The rows scan without error exactly when they are rectangular, valid and hold at most one Pac-Man. */
  lemma {:induction false} ScanRowsMeaning(rows: seq<string>, width: int, t: Tally)
    requires t.pacMen <= NumOfPacMen
    ensures ScanRows(rows, width, t).Ok?
        <==> Rectangular(rows, width) && SymbolsValid(rows) && t.pacMen + SymbolCount(rows, 'P') <= NumOfPacMen
    ensures ScanRows(rows, width, t).Ok? ==> ScanRows(rows, width, t).value == AddRows(t, rows)
    decreases |rows|
  {
    if rows != [] {
      assert Rectangular(rows, width) <==> |rows[0]| == width && Rectangular(rows[1..], width) by {
        assert forall i :: 0 < i < |rows| ==> rows[i] == rows[1..][i - 1];
      }
      assert SymbolsValid(rows) <==> RowValid(rows[0]) && SymbolsValid(rows[1..]) by {
        assert forall i :: 0 < i < |rows| ==> rows[i] == rows[1..][i - 1];
      }
      if |rows[0]| == width {
        ScanRowMeaning(rows[0], t);
        if ScanRow(rows[0], t).Ok? {
          ScanRowsMeaning(rows[1..], width, AddRow(t, rows[0]));
        }
      }
    }
  }

  /** verifyLevelFormat accepts exactly the well-formed levels, and then reports their exact counts. */
  lemma CheckLevelMeaning(lines: seq<string>)
    ensures CheckLevel(lines).Ok? <==> WellFormedLevel(lines)
    ensures CheckLevel(lines).Ok? ==>
      CheckLevel(lines).value == Tally(1, SymbolCount(lines, 'S'), SymbolCount(lines, 'B'), SymbolCount(lines, 'G'))
  {
    if |lines| >= MinimumLevelDimension && |lines[0]| >= MinimumLevelDimension {
      ScanRowsMeaning(lines, |lines[0]|, NoTally);
    }
  }

  /**
   * The count failures come in a fixed order: a second Pac-Man, then no Pac-Man,
   * then no small dot, then no ghost.
   */
  lemma CountFailureOrder(lines: seq<string>)
    requires |lines| >= MinimumLevelDimension && |lines[0]| >= MinimumLevelDimension
    requires Rectangular(lines, |lines[0]|) && SymbolsValid(lines)
    ensures SymbolCount(lines, 'P') > 1 ==> CheckLevel(lines) == Err(TooManyPacMen)
    ensures SymbolCount(lines, 'P') == 0 ==> CheckLevel(lines) == Err(NoPacMan)
    ensures SymbolCount(lines, 'P') == 1 && SymbolCount(lines, 'S') == 0 ==> CheckLevel(lines) == Err(NoSmallDot)
    ensures SymbolCount(lines, 'P') == 1 && SymbolCount(lines, 'S') > 0 && SymbolCount(lines, 'G') == 0
        ==> CheckLevel(lines) == Err(NoGhost)
  {
    ScanRowsMeaning(lines, |lines[0]|, NoTally);
    if SymbolCount(lines, 'P') > 1 {
      TooManyPacMenReported(lines, |lines[0]|, NoTally);
    }
  }

  /** With rectangular rows of valid symbols, more than one Pac-Man in all is reported as such. */
  lemma {:induction false} TooManyPacMenReported(rows: seq<string>, width: int, t: Tally)
    requires t.pacMen <= NumOfPacMen
    requires Rectangular(rows, width) && SymbolsValid(rows)
    requires t.pacMen + SymbolCount(rows, 'P') > NumOfPacMen
    ensures ScanRows(rows, width, t) == Err(TooManyPacMen)
    decreases |rows|
  {
    assert rows != [];
    assert RowValid(rows[0]);
    ScanRowMeaning(rows[0], t);
    if ScanRow(rows[0], t).Ok? {
      assert Rectangular(rows[1..], width) && SymbolsValid(rows[1..]) by {
        assert forall i :: 0 < i < |rows| ==> rows[i] == rows[1..][i - 1];
      }
      TooManyPacMenReported(rows[1..], width, AddRow(t, rows[0]));
    } else {
      TooManyPacMenInRow(rows[0], t);
    }
  }

  lemma {:induction false} TooManyPacMenInRow(row: string, t: Tally)
    requires t.pacMen <= NumOfPacMen
    requires RowValid(row)
    requires t.pacMen + RowCount(row, 'P') > NumOfPacMen
    ensures ScanRow(row, t) == Err(TooManyPacMen)
    decreases |row|
  {
    assert row != [];
    var c := FromCellValue([row[0]]).value;
    DecodedSymbol(row[0], c);
    var t' := Counted(t, c);
    if !(c == PacManStart && t'.pacMen > NumOfPacMen) {
      assert RowValid(row[1..]) by {
        assert forall j :: 0 < j < |row| ==> row[j] == row[1..][j - 1];
      }
      TooManyPacMenInRow(row[1..], t');
    }
  }

  /**
   * Rows are checked in order and each row's length before its symbols: when every
   * earlier row is well formed, a row of the wrong length is reported as not
   * rectangular, whatever it or the later rows contain.
   */
  lemma {:induction false} NotRectangularAt(lines: seq<string>, i: nat)
    requires |lines| >= MinimumLevelDimension && |lines[0]| >= MinimumLevelDimension
    requires i < |lines| && |lines[i]| != |lines[0]|
    requires Rectangular(lines[..i], |lines[0]|) && SymbolsValid(lines[..i])
    requires SymbolCount(lines[..i], 'P') <= NumOfPacMen
    ensures CheckLevel(lines) == Err(NotRectangular)
  {
    ScanRowsPrefix(lines, |lines[0]|, NoTally, i);
  }

  /** Scanning well-formed leading rows only adds their counts. */
  lemma {:induction false} ScanRowsPrefix(rows: seq<string>, width: int, t: Tally, i: nat)
    requires t.pacMen <= NumOfPacMen && i <= |rows|
    requires Rectangular(rows[..i], width) && SymbolsValid(rows[..i])
    requires t.pacMen + SymbolCount(rows[..i], 'P') <= NumOfPacMen
    ensures ScanRows(rows, width, t) == ScanRows(rows[i..], width, AddRows(t, rows[..i]))
    decreases i
  {
    if i == 0 {
      assert rows[..0] == [] && rows[0..] == rows;
    } else {
      var head := rows[..i];
      assert head[0] == rows[0] && head[1..] == rows[1..][..i - 1];
      assert |rows[0]| == width && RowValid(rows[0]);
      assert Rectangular(rows[1..][..i - 1], width) && SymbolsValid(rows[1..][..i - 1]);
      ScanRowMeaning(rows[0], t);
      var t' := AddRow(t, rows[0]);
      ScanRowsPrefix(rows[1..], width, t', i - 1);
      assert rows[1..][i - 1..] == rows[i..];
    }
  }

  // ---------------------------------------------------------------------------
  // The layout value
  // ---------------------------------------------------------------------------

  datatype BoundsError = RowOutOfBounds | ColumnOutOfBounds

  /** A constructed LevelLayout: its name, its lines and the figures its getters return. */
  datatype Layout = Layout(name: string, lines: seq<string>, width: int, height: int,
                           numOfGhosts: int, numOfSmallDots: int, numOfBigDots: int)
  {
    /** The shape the constructor guarantees of every layout it returns. */
    predicate Valid() {
      && |lines| >= MinimumLevelDimension && |lines[0]| >= MinimumLevelDimension
      && Rectangular(lines, |lines[0]|) && SymbolsValid(lines)
      && height == |lines| && width == |lines[0]|
    }

    /** The symbol counts the constructor guarantees of every layout it returns. */
    predicate WellCounted() {
      && SymbolCount(lines, 'P') == NumOfPacMen
      && SymbolCount(lines, 'S') >= 1
      && SymbolCount(lines, 'G') >= 1
      && numOfGhosts == SymbolCount(lines, 'G')
      && numOfSmallDots == SymbolCount(lines, 'S')
      && numOfBigDots == SymbolCount(lines, 'B')
    }

    predicate InBounds(row: int, col: int) {
      0 <= row < height && 0 <= col < width
    }

    /** The decoded symbol at [row][col]. */
    function CellAt(row: int, col: int): (c: Cell)
      requires Valid() && InBounds(row, col)
      ensures CellValue(c) == [lines[row][col]]
    {
      assert RowValid(lines[row]);
      ValidSymbolDecodes(lines[row][col]);
      FromCellValue([lines[row][col]]).value
    }

    /** getComponent: the row bound is checked before the column bound. */
    function GetComponent(row: int, col: int): (r: Result<Cell, BoundsError>)
      requires Valid()
      ensures !(0 <= row < height) ==> r == Err(RowOutOfBounds)
      ensures 0 <= row < height && !(0 <= col < width) ==> r == Err(ColumnOutOfBounds)
      ensures InBounds(row, col) ==> r.Ok? && CellValue(r.value) == [lines[row][col]]
    {
      if row < 0 || row >= height then Err(RowOutOfBounds)
      else if col < 0 || col >= width then Err(ColumnOutOfBounds)
      else Ok(CellAt(row, col))
    }

    /** The whole grid of decoded cells, row by row. */
    function Grid(): (g: seq<seq<Cell>>)
      requires Valid()
      ensures |g| == height
      ensures forall i :: 0 <= i < height ==> |g[i]| == width
      ensures forall i, j :: 0 <= i < height && 0 <= j < width ==> g[i][j] == CellAt(i, j)
    {
      seq(height, i requires 0 <= i < height => seq(width, j requires 0 <= j < width => CellAt(i, j)))
    }
  }

  /**
   * The LevelLayout constructor after the file has been read: the lines are cleaned and
   * verified; a level that breaks a rule is refused with the first failure found.
   */
  method NewLevelLayout(name: string, raw: seq<string>) returns (r: Result<Layout, LevelError>)
    ensures r.Ok? <==> WellFormedLevel(CleanLines(raw))
    ensures r.Err? ==> CheckLevel(CleanLines(raw)) == Err(r.error)
    ensures r.Ok? ==> r.value.Valid() && r.value.WellCounted() && r.value.name == name && r.value.lines == CleanLines(raw)
  {
    var levelLines := CleanLines(raw);
    var check := VerifyLevelFormat(levelLines);
    CheckLevelMeaning(levelLines);
    match check {
      case Err(e) =>
        r := Err(e);
      case Ok(t) =>
        r := Ok(Layout(name, levelLines, |levelLines[0]|, |levelLines|, t.ghosts, t.smallDots, t.bigDots));
    }
  }
}
