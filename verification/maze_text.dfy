/** The text side of the grid (src/maze.rs): `Maze::read` and the `Debug` writer. */
module MazeText {
  import opened Wrappers
  import opened Coords
  import opened Mazes

  /** Why `Maze::read` gives no maze. `SizeMismatch` is raised only by `ReadChecked`. */
  datatype ParseError = EmptyInput | UnexpectedChar(ch: char) | SizeMismatch

  // ---------------------------------------------------------------------------
  // Characters
  // ---------------------------------------------------------------------------

  /** Rust's `char::is_whitespace` (the Unicode White_Space property), used by `trim`. */
  predicate IsWhitespace(ch: char)
  {
    var n := ch as int;
    || n == 0x20 || 0x09 <= n <= 0x0D || n == 0x85 || n == 0xA0 || n == 0x1680
    || 0x2000 <= n <= 0x200A || n == 0x2028 || n == 0x2029 || n == 0x202F
    || n == 0x205F || n == 0x3000
  }

  predicate IsTileChar(ch: char)
  {
    ch == '-' || ch == '#'
  }

  /** Characters the reader accepts: tiles, and the separators it skips. */
  predicate Accepted(ch: char)
  {
    IsTileChar(ch) || ch == '\n' || ch == '\r' || ch == ' '
  }

  function TileOf(ch: char): Tile
    requires IsTileChar(ch)
  {
    if ch == '-' then Path else Wall
  }

  function TileChar(t: Tile): (ch: char)
    ensures IsTileChar(ch) && TileOf(ch) == t
  {
    match t
    case Wall => '#'
    case Path => '-'
  }

  function TileChars(ts: seq<Tile>): (s: string)
    ensures |s| == |ts|
    ensures forall i :: 0 <= i < |ts| ==> s[i] == TileChar(ts[i])
  {
    seq(|ts|, i requires 0 <= i < |ts| => TileChar(ts[i]))
  }

  /** The `-` and `#` characters of `text`, in text order. */
  function MazeChars(text: string): string
  {
    if |text| == 0 then []
    else (if IsTileChar(text[0]) then [text[0]] else []) + MazeChars(text[1..])
  }

  // ---------------------------------------------------------------------------
  // The string operations `read` uses
  // ---------------------------------------------------------------------------

  /** `trim_start`. */
  function TrimStart(s: string): (r: string)
    ensures |r| <= |s| && r == s[|s| - |r|..]
    ensures |r| == 0 || !IsWhitespace(r[0])
    ensures forall i :: 0 <= i < |s| - |r| ==> IsWhitespace(s[i])
  {
    if |s| > 0 && IsWhitespace(s[0]) then TrimStart(s[1..]) else s
  }

  /** `trim_end`. */
  function TrimEnd(s: string): (r: string)
    ensures |r| <= |s| && r == s[..|r|]
    ensures |r| == 0 || !IsWhitespace(r[|r| - 1])
    ensures forall i :: |r| <= i < |s| ==> IsWhitespace(s[i])
  {
    if |s| > 0 && IsWhitespace(s[|s| - 1]) then TrimEnd(s[..|s| - 1]) else s
  }

  /** `trim`. */
  function Trim(s: string): string
  {
    TrimEnd(TrimStart(s))
  }

  /** `replace(' ', "")`. */
  function RemoveSpaces(s: string): (r: string)
    ensures ' ' !in r
  {
    if |s| == 0 then []
    else (if s[0] == ' ' then [] else [s[0]]) + RemoveSpaces(s[1..])
  }

  /** `lines().next()` on a non-empty text: everything before the first newline.
      A trailing `'\r'` that `lines` would drop is removed by the later `trim`. */
  function FirstLine(s: string): (r: string)
    ensures '\n' !in r
  {
    match IndexOf(s, '\n')
    case None => s
    case Some(k) => s[..k]
  }

  function CountChar(s: string, ch: char): nat
  {
    if |s| == 0 then 0
    else CountChar(s[..|s| - 1], ch) + (if s[|s| - 1] == ch then 1 else 0)
  }

  /** `lines().count()`: a final newline does not open another line. */
  function LineCount(s: string): nat
  {
    if |s| == 0 then 0
    else CountChar(s, '\n') + (if s[|s| - 1] == '\n' then 0 else 1)
  }

  // ---------------------------------------------------------------------------
  // Maze::read
  // ---------------------------------------------------------------------------

  /** The character loop of `read`: `-` is a path, `#` a wall, newline, carriage
      return and space are skipped, and the first other character is an error. */
  function ScanTiles(text: string): Result<seq<Tile>, ParseError>
  {
    if |text| == 0 then Ok([])
    else
      var ch := text[0];
      if IsTileChar(ch) then
        match ScanTiles(text[1..])
        case Ok(rest) => Ok([TileOf(ch)] + rest)
        case Err(e) => Err(e)
      else if ch == '\n' || ch == '\r' || ch == ' ' then ScanTiles(text[1..])
      else Err(UnexpectedChar(ch))
  }

  /** The scan succeeds exactly on texts of accepted characters, and then holds
      one tile per `-` or `#` in text order; otherwise it reports the first
      character it does not accept. */
  lemma {:induction false} ScanTilesMeaning(text: string)
    ensures ScanTiles(text).Ok? <==> forall i :: 0 <= i < |text| ==> Accepted(text[i])
    ensures ScanTiles(text).Ok? ==> TileChars(ScanTiles(text).value) == MazeChars(text)
    ensures ScanTiles(text).Err? ==>
              exists i :: 0 <= i < |text| && ScanTiles(text).error == UnexpectedChar(text[i])
                          && !Accepted(text[i])
                          && forall j :: 0 <= j < i ==> Accepted(text[j])
    decreases |text|
  {
    if |text| > 0 {
      var ch := text[0];
      var tail := text[1..];
      ScanTilesMeaning(tail);
      assert forall i :: 0 < i < |text| ==> text[i] == tail[i - 1];
      if ScanTiles(text).Err? && Accepted(ch) {
        var i :| 0 <= i < |tail| && ScanTiles(tail).error == UnexpectedChar(tail[i])
                 && !Accepted(tail[i]) && forall j :: 0 <= j < i ==> Accepted(tail[j]);
        assert text[i + 1] == tail[i];
        assert forall j :: 0 < j < i + 1 ==> text[j] == tail[j - 1];
      }
      if IsTileChar(ch) && ScanTiles(tail).Ok? {
        var rest := ScanTiles(tail).value;
        assert TileChars([TileOf(ch)] + rest) == [ch] + TileChars(rest);
      }
    }
  }

  /** `Maze::read`. The height is the line count of the trimmed text and the
      width the length of the first line without spaces, trimmed; neither is
      compared with the number of tiles. */
  function Read(text: string): (r: Result<Maze, ParseError>)
    ensures r == Err(EmptyInput) <==> |text| == 0
    ensures r.Ok? <==> |text| > 0 && forall i :: 0 <= i < |text| ==> Accepted(text[i])
    ensures r.Ok? ==> TileChars(r.value.data) == MazeChars(text)
    ensures r.Err? && |text| > 0 ==>
              exists i :: 0 <= i < |text| && r.error == UnexpectedChar(text[i])
                          && !Accepted(text[i])
                          && forall j :: 0 <= j < i ==> Accepted(text[j])
  {
    ScanTilesMeaning(text);
    if |text| == 0 then Err(EmptyInput)
    else
      var height := LineCount(Trim(text));
      var width := |Trim(RemoveSpaces(FirstLine(text)))|;
      match ScanTiles(text)
      case Err(e) => Err(e)
      case Ok(data) => Ok(Maze(width, height, data))
  }

  /** `read` with the missing size check: a text whose tile count is not
      `width * height` is rejected instead of producing an unusable maze. */
  function ReadChecked(text: string): (r: Result<Maze, ParseError>)
    ensures r.Ok? ==> Valid(r.value) && Read(text) == r
    ensures r.Ok? <==> Read(text).Ok? && Valid(Read(text).value)
    ensures Read(text).Err? ==> r == Read(text)
  {
    match Read(text)
    case Err(e) => Err(e)
    case Ok(m) => if Valid(m) then Ok(m) else Err(SizeMismatch)
  }

  lemma RaggedScan()
    ensures ScanTiles("--\n-") == Ok([Path, Path, Path])
  {
    assert "--\n-"[1..] == "-\n-" && "-\n-"[1..] == "\n-" && "\n-"[1..] == "-";
    assert "-"[1..] == [];
    assert ScanTiles([]) == Ok([]);
    assert TileOf('-') == Path;
    assert [Path] + [] == [Path];
    assert ScanTiles("-") == Ok([Path]);
    assert ScanTiles("\n-") == Ok([Path]);
    assert [Path] + [Path] == [Path, Path];
    assert ScanTiles("-\n-") == Ok([Path, Path]);
    assert [Path] + [Path, Path] == [Path, Path, Path];
  }

  lemma RaggedTrim()
    ensures Trim("--\n-") == "--\n-"
  {
    var text := "--\n-";
    assert !IsWhitespace(text[0]);
    assert TrimStart(text) == text;
    assert !IsWhitespace(text[3]);
    assert TrimEnd(text) == text;
  }

  lemma RaggedCount()
    ensures CountChar("--\n-", '\n') == 1
  {
    var text := "--\n-";
    assert text[..3] == "--\n" && "--\n"[..2] == "--" && "--"[..1] == "-" && "-"[..0] == [];
    assert CountChar("-", '\n') == 0;
    assert CountChar("--", '\n') == 0;
    assert CountChar("--\n", '\n') == 1;
  }

  lemma RaggedHeight()
    ensures LineCount(Trim("--\n-")) == 2
  {
    RaggedTrim();
    RaggedCount();
  }

  lemma RaggedWidth()
    ensures |Trim(RemoveSpaces(FirstLine("--\n-")))| == 2
  {
    var text := "--\n-";
    assert IndexOf(text, '\n') == Some(2) by {
      assert text[0] != '\n' && text[1] != '\n' && text[2] == '\n';
    }
    assert FirstLine(text) == "--";
    assert "--"[1..] == "-" && "-"[1..] == [];
    assert RemoveSpaces("--") == "--";
    assert TrimStart("--") == "--";
    assert TrimEnd("--") == "--";
  }

  /** As written, `read` accepts a text whose rows differ in width: the result
      claims two full rows but holds three tiles, so `get((1, 1))` would index
      past the end of `data`. */
  lemma ReadAcceptsRaggedRows()
    ensures Read("--\n-") == Ok(Maze(2, 2, [Path, Path, Path]))
    ensures !Valid(Maze(2, 2, [Path, Path, Path]))
    ensures ReadChecked("--\n-") == Err(SizeMismatch)
  {
    RaggedScan();
    RaggedHeight();
    RaggedWidth();
  }

  // ---------------------------------------------------------------------------
  // Rows of text
  // ---------------------------------------------------------------------------

  /** Rows, each followed by a newline. */
  function Lines(rows: seq<string>): string
  {
    if |rows| == 0 then [] else Lines(rows[..|rows| - 1]) + rows[|rows| - 1] + "\n"
  }

  /** Each tile row as its `-`/`#` characters. */
  function RenderRows(rows: seq<seq<Tile>>): (r: seq<string>)
    ensures |r| == |rows|
    ensures forall i :: 0 <= i < |rows| ==> r[i] == TileChars(rows[i])
  {
    seq(|rows|, i requires 0 <= i < |rows| => TileChars(rows[i]))
  }

  function Flatten(rows: seq<seq<Tile>>): seq<Tile>
  {
    if |rows| == 0 then [] else Flatten(rows[..|rows| - 1]) + rows[|rows| - 1]
  }

  lemma {:induction false} ScanAppend(a: string, b: string)
    requires ScanTiles(a).Ok? && ScanTiles(b).Ok?
    ensures ScanTiles(a + b) == Ok(ScanTiles(a).value + ScanTiles(b).value)
    decreases |a|
  {
    if |a| == 0 {
      assert a + b == b;
      assert ScanTiles(a) == Ok([]);
      assert [] + ScanTiles(b).value == ScanTiles(b).value;
    } else {
      assert (a + b)[0] == a[0];
      assert (a + b)[1..] == a[1..] + b;
      ScanAppend(a[1..], b);
      if IsTileChar(a[0]) {
        var x, y := ScanTiles(a[1..]).value, ScanTiles(b).value;
        assert [TileOf(a[0])] + (x + y) == ([TileOf(a[0])] + x) + y;
      }
    }
  }

  lemma {:induction false} ScanTileChars(ts: seq<Tile>)
    ensures ScanTiles(TileChars(ts)) == Ok(ts)
    decreases |ts|
  {
    if |ts| > 0 {
      assert TileChars(ts)[1..] == TileChars(ts[1..]);
      ScanTileChars(ts[1..]);
      assert [ts[0]] + ts[1..] == ts;
    }
  }

  lemma {:induction false} ScanLines(rows: seq<seq<Tile>>)
    ensures ScanTiles(Lines(RenderRows(rows))) == Ok(Flatten(rows))
    decreases |rows|
  {
    if |rows| > 0 {
      var n := |rows|;
      var r := RenderRows(rows);
      assert r[..n - 1] == RenderRows(rows[..n - 1]);
      ScanLines(rows[..n - 1]);
      ScanTileChars(rows[n - 1]);
      assert "\n"[1..] == [];
      assert ScanTiles("\n") == Ok([]);
      ScanAppend(Lines(r[..n - 1]), r[n - 1]);
      ScanAppend(Lines(r[..n - 1]) + r[n - 1], "\n");
      assert Flatten(rows[..n - 1]) + rows[n - 1] + [] == Flatten(rows);
    }
  }

  /** The first row comes first. */
  lemma {:induction false} LinesFront(rows: seq<string>)
    requires |rows| >= 1
    ensures Lines(rows) == rows[0] + "\n" + Lines(rows[1..])
    decreases |rows|
  {
    var n := |rows|;
    if n == 1 {
      assert rows[1..] == [];
      assert rows[..0] == [];
    } else {
      var init := rows[..n - 1];
      LinesFront(init);
      assert rows[1..][..n - 2] == init[1..];
      assert rows[1..][n - 2] == rows[n - 1];
      assert init[0] == rows[0];
    }
  }

  lemma {:induction false} CountAppend(a: string, b: string, ch: char)
    ensures CountChar(a + b, ch) == CountChar(a, ch) + CountChar(b, ch)
    decreases |b|
  {
    if |b| == 0 {
      assert a + b == a;
    } else {
      assert (a + b)[..|a + b| - 1] == a + b[..|b| - 1];
      CountAppend(a, b[..|b| - 1], ch);
    }
  }

  lemma {:induction false} CountAbsent(s: string, ch: char)
    requires ch !in s
    ensures CountChar(s, ch) == 0
    decreases |s|
  {
    if |s| > 0 {
      assert ch !in s[..|s| - 1];
      CountAbsent(s[..|s| - 1], ch);
    }
  }

  lemma {:induction false} CountLines(rows: seq<string>)
    requires forall i :: 0 <= i < |rows| ==> '\n' !in rows[i]
    ensures CountChar(Lines(rows), '\n') == |rows|
    decreases |rows|
  {
    if |rows| > 0 {
      var n := |rows|;
      CountLines(rows[..n - 1]);
      CountAbsent(rows[n - 1], '\n');
      CountAppend(Lines(rows[..n - 1]), rows[n - 1], '\n');
      CountAppend(Lines(rows[..n - 1]) + rows[n - 1], "\n", '\n');
      assert "\n"[..0] == [];
    }
  }

  lemma {:induction false} RemoveSpacesKeeps(s: string)
    requires ' ' !in s
    ensures RemoveSpaces(s) == s
    decreases |s|
  {
    if |s| > 0 {
      assert ' ' !in s[1..];
      RemoveSpacesKeeps(s[1..]);
      assert [s[0]] + s[1..] == s;
    }
  }

  lemma TileCharsPlain(ts: seq<Tile>)
    ensures '\n' !in TileChars(ts) && ' ' !in TileChars(ts)
    ensures forall i :: 0 <= i < |ts| ==> !IsWhitespace(TileChars(ts)[i])
  {
  }

  /** Rendered rows contain neither newlines, spaces nor other whitespace. */
  lemma RenderedPlain(rows: seq<seq<Tile>>)
    ensures forall i :: 0 <= i < |rows| ==> '\n' !in RenderRows(rows)[i] && ' ' !in RenderRows(rows)[i]
    ensures forall i, k :: 0 <= i < |rows| && 0 <= k < |RenderRows(rows)[i]| ==> !IsWhitespace(RenderRows(rows)[i][k])
  {
    forall i | 0 <= i < |rows|
      ensures '\n' !in RenderRows(rows)[i] && ' ' !in RenderRows(rows)[i]
      ensures forall k :: 0 <= k < |RenderRows(rows)[i]| ==> !IsWhitespace(RenderRows(rows)[i][k])
    {
      TileCharsPlain(rows[i]);
    }
  }

  /** The width `read` measures is the length of the first row. */
  lemma RowsWidth(rows: seq<seq<Tile>>, w: nat)
    requires |rows| >= 1 && w >= 1
    requires forall i :: 0 <= i < |rows| ==> |rows[i]| == w
    ensures |Trim(RemoveSpaces(FirstLine(Lines(RenderRows(rows)))))| == w
  {
    var r := RenderRows(rows);
    RenderedPlain(rows);
    LinesFront(r);
    IndexOfAfterPrefix(r[0], '\n', Lines(r[1..]));
    assert FirstLine(Lines(r)) == r[0];
    RemoveSpacesKeeps(r[0]);
    assert TrimStart(r[0]) == r[0];
    assert TrimEnd(r[0]) == r[0];
  }

  /** The height `read` measures is the number of rows: trimming drops only the final newline. */
  lemma RowsHeight(rows: seq<seq<Tile>>, w: nat)
    requires |rows| >= 1 && w >= 1
    requires forall i :: 0 <= i < |rows| ==> |rows[i]| == w
    ensures LineCount(Trim(Lines(RenderRows(rows)))) == |rows|
  {
    var n := |rows|;
    var r := RenderRows(rows);
    var text := Lines(r);
    RenderedPlain(rows);
    var body := Lines(r[..n - 1]) + r[n - 1];
    assert text == body + "\n";
    LinesFront(r);
    assert text[0] == r[0][0];
    assert TrimStart(text) == text;
    assert text[..|text| - 1] == body;
    assert body[|body| - 1] == r[n - 1][w - 1];
    assert TrimEnd(body) == body;
    assert Trim(text) == body;
    CountLines(r[..n - 1]);
    CountAbsent(r[n - 1], '\n');
    CountAppend(Lines(r[..n - 1]), r[n - 1], '\n');
  }

  /** A text of one or more rows of `w >= 1` tiles, each row ended by a newline,
      reads back as a `w` by `|rows|` maze holding those tiles row after row. */
  lemma ReadRows(rows: seq<seq<Tile>>, w: nat)
    requires |rows| >= 1 && w >= 1
    requires forall i :: 0 <= i < |rows| ==> |rows[i]| == w
    ensures Read(Lines(RenderRows(rows))) == Ok(Maze(w, |rows|, Flatten(rows)))
  {
    ScanLines(rows);
    RowsWidth(rows, w);
    RowsHeight(rows, w);
  }

  // ---------------------------------------------------------------------------
  // The Debug writer
  // ---------------------------------------------------------------------------

  /** Row `y` as the writer prints it after the row label: one character per
      cell, read through `get`. */
  function RowText(m: Maze, y: nat): (s: string)
    requires Valid(m) && y < m.height
    ensures |s| == m.width
    ensures forall x :: 0 <= x < m.width ==> IsTileChar(s[x]) && Get(m, Coord(x, y)) == Some(TileOf(s[x]))
  {
    seq(m.width, x requires 0 <= x < m.width => TileChar(Get(m, Coord(x, y)).value))
  }

  /** The column ruler: `x % 10` for every column. */
  function Ruler(n: nat): string
  {
    seq(n, i requires 0 <= i < n => DigitChar(i % 10))
  }

  /** The printed rows: the label `y % 10`, then the row's tiles. */
  function DebugRows(m: Maze): (rows: seq<string>)
    requires Valid(m)
    ensures |rows| == m.height
    ensures forall y :: 0 <= y < m.height ==>
              && |rows[y]| == m.width + 1 && rows[y][0] == DigitChar(y % 10)
              && forall x :: 0 <= x < m.width ==>
                   IsTileChar(rows[y][x + 1]) && Get(m, Coord(x, y)) == Some(TileOf(rows[y][x + 1]))
  {
    seq(m.height, y requires 0 <= y < m.height => [DigitChar(y % 10)] + RowText(m, y))
  }

  /** `impl Debug for Maze`. */
  function DebugText(m: Maze): string
    requires Valid(m)
  {
    "Maze with width: " + Decimal(m.width) + " and height: " + Decimal(m.height) + "\n\n"
    + " " + Ruler(m.width) + "\n"
    + Lines(DebugRows(m))
  }

  /** Every row with its first character dropped. */
  function Unlabel(rows: seq<string>): (r: seq<string>)
    ensures |r| == |rows|
    ensures forall i :: 0 <= i < |rows| && |rows[i]| > 0 ==> r[i] == rows[i][1..]
  {
    seq(|rows|, i requires 0 <= i < |rows| => if |rows[i]| == 0 then [] else rows[i][1..])
  }

  /** Row `y` of `data`. */
  function Chunk(m: Maze, y: nat): (r: seq<Tile>)
    requires Valid(m) && y < m.height
    ensures |r| == m.width
    ensures forall x :: 0 <= x < m.width ==> Get(m, Coord(x, y)) == Some(r[x])
  {
    ChunkBounds(m, y);
    m.data[y * m.width..(y + 1) * m.width]
  }

  lemma ChunkBounds(m: Maze, y: nat)
    requires Valid(m) && y < m.height
    ensures y * m.width + m.width == (y + 1) * m.width <= |m.data|
  {
    MulLe(y + 1, m.height, m.width);
  }

  function Chunks(m: Maze): (r: seq<seq<Tile>>)
    requires Valid(m)
    ensures |r| == m.height
    ensures forall y :: 0 <= y < m.height ==> r[y] == Chunk(m, y)
  {
    seq(m.height, y requires 0 <= y < m.height => Chunk(m, y))
  }

  lemma {:induction false} FlattenChunks(m: Maze, k: nat)
    requires Valid(m) && k <= m.height
    ensures k * m.width <= |m.data|
    ensures Flatten(Chunks(m)[..k]) == m.data[..k * m.width]
    decreases k
  {
    MulLe(k, m.height, m.width);
    if k > 0 {
      var cs := Chunks(m);
      var lo, hi := (k - 1) * m.width, k * m.width;
      ChunkBounds(m, k - 1);
      assert cs[k - 1] == m.data[lo..hi];
      FlattenChunks(m, k - 1);
      assert cs[..k][..k - 1] == cs[..k - 1];
      assert Flatten(cs[..k]) == m.data[..lo] + m.data[lo..hi];
      assert m.data[..lo] + m.data[lo..hi] == m.data[..hi];
    }
  }

  /** Dropping the labels leaves the rows of `data`, as characters. */
  lemma UnlabelDebugRows(m: Maze)
    requires Valid(m)
    ensures Unlabel(DebugRows(m)) == RenderRows(Chunks(m))
  {
    var rows := DebugRows(m);
    var chunks := Chunks(m);
    forall y | 0 <= y < m.height
      ensures Unlabel(rows)[y] == RenderRows(chunks)[y]
    {
      assert rows[y][1..] == RowText(m, y);
      forall x | 0 <= x < m.width
        ensures RowText(m, y)[x] == TileChars(chunks[y])[x]
      {
        assert TileOf(RowText(m, y)[x]) == chunks[y][x];
      }
    }
  }

  /** The rows of `data`, printed as text, read back as the maze. */
  lemma ReadChunks(m: Maze)
    requires Valid(m) && m.width >= 1 && m.height >= 1
    ensures Read(Lines(RenderRows(Chunks(m)))) == Ok(m)
  {
    ReadRows(Chunks(m), m.width);
    FlattenAllChunks(m);
  }

  lemma FlattenAllChunks(m: Maze)
    requires Valid(m)
    ensures Flatten(Chunks(m)) == m.data
  {
    FlattenChunks(m, m.height);
    assert Chunks(m)[..m.height] == Chunks(m);
  }

  /** The `Debug` writer prints `height` rows, each the label `y % 10` and then
      `width` tile characters; with the labels dropped those rows read back as
      the same maze. */
  lemma DebugRoundTrip(m: Maze)
    requires Valid(m) && m.width >= 1 && m.height >= 1
    ensures |DebugRows(m)| == m.height
    ensures forall y :: 0 <= y < m.height ==>
              |DebugRows(m)[y]| == m.width + 1 && DebugRows(m)[y][0] == DigitChar(y % 10)
    ensures ReadChecked(Lines(Unlabel(DebugRows(m)))) == Ok(m)
  {
    UnlabelDebugRows(m);
    ReadChunks(m);
  }
}
