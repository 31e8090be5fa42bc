/** The console as a window on an unbounded roll of paper.

    The paper is a stack of cells cut into rows of 80: putc pushes, a line break
    pads the row with blanks, erase_char pops. The screen is the 25 rows from `top`. */
module Paper {
  import opened Bytes
  import opened Console
  import Memory

  datatype Paper = Paper(text: seq<Byte>, top: nat)

  /** Cell `i` of the paper; everything from the cursor on is blank. */
  function CellOf(text: seq<Byte>, i: nat): Byte {
    if i < |text| then text[i] else SPACE
  }

  /** Cell `i` of the window that starts at row `top`. */
  function WindowCell(text: seq<Byte>, top: nat, i: nat): Byte {
    CellOf(text, COLS * top + i)
  }

  ghost predicate Depicts(video: seq<Byte>, text: seq<Byte>, top: nat)
    requires |video| == VID_MEM_SIZE
  {
    forall i: nat :: i < CELLS ==> Char(video, i) == WindowCell(text, top, i) && Attr(video, i) == ATTRIB
  }

  /** The screen shows the paper from row `top` on, with the cursor at its end. */
  ghost predicate Shows(s: Screen, p: Paper) {
    && s.Valid()
    && COLS * (p.top + s.y) + s.x == |p.text|
    && Depicts(s.video, p.text, p.top)
  }

  // ----- the unbounded text -----

  function PutText(text: seq<Byte>, c: Byte): (r: seq<Byte>)
    ensures |r| == if IsBreak(c) then COLS * (|text| / COLS + 1) else |text| + 1
  {
    if IsBreak(c) then text + Repeat(SPACE, COLS - |text| % COLS) else text + [c]
  }

  function PutTexts(text: seq<Byte>, cs: seq<Byte>): seq<Byte> {
    if cs == [] then text else PutText(PutTexts(text, cs[..|cs| - 1]), cs[|cs| - 1])
  }

  /** The window moves down one row when the cursor would leave it. */
  function Follow(text: seq<Byte>, top: nat): Paper {
    Paper(text, if |text| >= COLS * (top + ROWS) then top + 1 else top)
  }

  function Put(p: Paper, c: Byte): Paper {
    Follow(PutText(p.text, c), p.top)
  }

  function Puts(p: Paper, cs: seq<Byte>): Paper {
    if cs == [] then p else Put(Puts(p, cs[..|cs| - 1]), cs[|cs| - 1])
  }

  function Pop(p: Paper): Paper {
    if |p.text| > COLS * p.top then p.(text := p.text[..|p.text| - 1]) else p
  }

  const EMPTY := Paper([], 0)

  // ----- the console refines the paper -----

  lemma DepictsScrolled(video: seq<Byte>, text: seq<Byte>, top: nat)
    requires |video| == VID_MEM_SIZE && Depicts(video, text, top) && |text| <= COLS * (top + ROWS)
    ensures Depicts(Scrolled(video), text, top + 1)
  {
    assert Memory.ByteOf(BLANK_WORD, 0) == SPACE && Memory.ByteOf(BLANK_WORD, 1) == ATTRIB;
    forall i: nat | i < CELLS
      ensures Char(Scrolled(video), i) == WindowCell(text, top + 1, i) && Attr(Scrolled(video), i) == ATTRIB
    {
      if i < CELLS - COLS {
        assert Char(Scrolled(video), i) == Char(video, i + COLS);
        assert Attr(Scrolled(video), i) == Attr(video, i + COLS);
      }
    }
  }

  lemma DepictsPoke(video: seq<Byte>, text: seq<Byte>, top: nat, loc: nat, c: Byte, text': seq<Byte>)
    requires |video| == VID_MEM_SIZE && Depicts(video, text, top) && loc < CELLS
    requires forall i: nat :: i < CELLS ==>
      WindowCell(text', top, i) == if i == loc then c else WindowCell(text, top, i)
    ensures Depicts(Poke(video, loc, c), text', top)
  {
    forall i: nat | i < CELLS
      ensures Char(Poke(video, loc, c), i) == WindowCell(text', top, i) && Attr(Poke(video, loc, c), i) == ATTRIB
    {
      assert i != loc ==> Char(Poke(video, loc, c), i) == Char(video, i);
      assert i != loc ==> Attr(Poke(video, loc, c), i) == Attr(video, i);
    }
  }

  lemma FeedShows(video: seq<Byte>, y: int, text: seq<Byte>, top: nat)
    requires |video| == VID_MEM_SIZE && 0 <= y < ROWS && Depicts(video, text, top)
    requires |text| == COLS * (top + y + 1)
    ensures Shows(Feed(video, y), Follow(text, top))
  {
    if y + 1 >= ROWS {
      DepictsScrolled(video, text, top);
    }
  }

  /** putc pushes one character. */
  lemma PutcShows(s: Screen, p: Paper, c: Byte)
    requires Shows(s, p)
    ensures Shows(Putc(s, c), Put(p, c))
  {
    var text := PutText(p.text, c);
    if IsBreak(c) {
      assert |p.text| / COLS == p.top + s.y;
      assert Depicts(s.video, text, p.top);
      FeedShows(s.video, s.y, text, p.top);
    } else {
      var loc := COLS * s.y + s.x;
      DepictsPoke(s.video, p.text, p.top, loc, c, text);
      if s.x + 1 >= COLS {
        FeedShows(Poke(s.video, loc, c), s.y, text, p.top);
      }
    }
  }

  /** erase_char pops one cell, and never one above the window. */
  lemma EraseShows(s: Screen, p: Paper)
    requires Shows(s, p)
    ensures Shows(EraseChar(s), Pop(p))
  {
    var r := EraseChar(s);
    DepictsPoke(s.video, p.text, p.top, COLS * r.y + r.x, SPACE, Pop(p).text);
  }

  /** A newline or a return, and nothing else, moves to the start of the next row. */
  lemma BreakStartsRow(text: seq<Byte>, c: Byte)
    ensures c == 10 || c == 13 ==> |PutText(text, c)| % COLS == 0 && PutText(text, c)[..|text|] == text
    ensures c != 10 && c != 13 ==> PutText(text, c) == text + [c]
  {
  }

  lemma {:induction false} PutAllShows(s: Screen, p: Paper, cs: seq<Byte>)
    requires Shows(s, p)
    ensures Shows(PutAll(s, cs), Puts(p, cs))
  {
    if cs != [] {
      PutAllShows(s, p, cs[..|cs| - 1]);
      PutcShows(PutAll(s, cs[..|cs| - 1]), Puts(p, cs[..|cs| - 1]), cs[|cs| - 1]);
    }
  }

  lemma ClearedShows(video: seq<Byte>)
    requires |video| == VID_MEM_SIZE
    ensures Shows(Screen(Cleared(video), 0, 0), EMPTY)
  {
  }

  // ----- the layout of a character stream, defined without a cursor -----

  /** Characters before the first line break, at most one row of them. */
  function RowLen(cs: seq<Byte>): (k: nat)
    ensures k <= |cs| && k <= COLS
    ensures forall j :: 0 <= j < k ==> !IsBreak(cs[j])
    ensures k == |cs| || k == COLS || IsBreak(cs[k])
  {
    RowLenFrom(cs, 0)
  }

  function RowLenFrom(cs: seq<Byte>, from: nat): (k: nat)
    requires from <= |cs| && from <= COLS
    ensures from <= k <= |cs| && k <= COLS
    ensures forall j :: from <= j < k ==> !IsBreak(cs[j])
    ensures k == |cs| || k == COLS || IsBreak(cs[k])
    decreases |cs| - from
  {
    if from == |cs| || from == COLS || IsBreak(cs[from]) then from else RowLenFrom(cs, from + 1)
  }

  /** The rows of a text: broken at line breaks and after every 80th character of a line. */
  function Layout(cs: seq<Byte>): (rows: seq<seq<Byte>>)
    ensures |rows| > 0
    decreases |cs|
  {
    var k := RowLen(cs);
    if k == COLS then [cs[..k]] + Layout(cs[k..])
    else if k == |cs| then [cs]
    else [cs[..k]] + Layout(cs[k + 1..])
  }

  /** The rows with one more character. */
  function Push(rows: seq<seq<Byte>>, c: Byte): seq<seq<Byte>>
    requires |rows| > 0
  {
    var last := rows[|rows| - 1];
    if IsBreak(c) then rows + [[]]
    else if |last| + 1 == COLS then rows[..|rows| - 1] + [last + [c], []]
    else rows[..|rows| - 1] + [last + [c]]
  }

  lemma RowLenUnique(cs: seq<Byte>, k: nat)
    requires k <= |cs| && k <= COLS
    requires forall j :: 0 <= j < k ==> !IsBreak(cs[j])
    requires k == |cs| || k == COLS || IsBreak(cs[k])
    ensures RowLen(cs) == k
  {
  }

  lemma PushBehind(row: seq<Byte>, rows: seq<seq<Byte>>, c: Byte)
    requires |rows| > 0
    ensures Push([row] + rows, c) == [row] + Push(rows, c)
  {
    var all := [row] + rows;
    assert all[|all| - 1] == rows[|rows| - 1];
    assert all[..|all| - 1] == [row] + rows[..|rows| - 1];
  }

  lemma LayoutEmpty(cs: seq<Byte>)
    requires cs == []
    ensures Layout(cs) == [[]]
  {
    assert RowLen(cs) == 0;
  }

  /** The stream is still inside its first row, which is closed, filled or grows. */
  lemma LayoutFirstBreak(cs: seq<Byte>, c: Byte)
    requires RowLen(cs) == |cs| < COLS && IsBreak(c)
    ensures Layout(cs + [c]) == [cs, []]
  {
    var ds := cs + [c];
    RowLenUnique(ds, |cs|);
    assert ds[..|cs|] == cs;
    LayoutEmpty(ds[|cs| + 1..]);
  }

  lemma LayoutFirstFull(cs: seq<Byte>, c: Byte)
    requires RowLen(cs) == |cs| == COLS - 1 && !IsBreak(c)
    ensures Layout(cs + [c]) == [cs + [c], []]
  {
    var ds := cs + [c];
    RowLenUnique(ds, COLS);
    assert ds[..COLS] == ds;
    LayoutEmpty(ds[COLS..]);
  }

  lemma LayoutFirstChar(cs: seq<Byte>, c: Byte)
    requires RowLen(cs) == |cs| < COLS - 1 && !IsBreak(c)
    ensures Layout(cs + [c]) == [cs + [c]]
  {
    RowLenUnique(cs + [c], |cs| + 1);
  }

  lemma LayoutPushFirst(cs: seq<Byte>, c: Byte)
    requires RowLen(cs) == |cs| < COLS
    ensures Layout(cs + [c]) == Push([cs], c)
  {
    assert [cs][..0] == [];
    if IsBreak(c) {
      LayoutFirstBreak(cs, c);
    } else if |cs| + 1 == COLS {
      LayoutFirstFull(cs, c);
    } else {
      LayoutFirstChar(cs, c);
    }
  }

  lemma {:induction false} LayoutPush(cs: seq<Byte>, c: Byte)
    ensures Layout(cs + [c]) == Push(Layout(cs), c)
    decreases |cs|
  {
    var k := RowLen(cs);
    var ds := cs + [c];
    if k < COLS && k == |cs| {
      LayoutPushFirst(cs, c);
    } else {
      var rest := if k == COLS then k else k + 1;
      RowLenUnique(ds, k);
      assert ds[..k] == cs[..k] && ds[rest..] == cs[rest..] + [c];
      LayoutPush(cs[rest..], c);
      PushBehind(cs[..k], Layout(cs[rest..]), c);
    }
  }

  // ----- rows on paper -----

  function Padded(rows: seq<seq<Byte>>): (r: seq<Byte>)
    requires forall row :: row in rows ==> |row| <= COLS
    ensures |r| == COLS * |rows|
  {
    if rows == [] then []
    else
      var last := rows[|rows| - 1];
      Padded(rows[..|rows| - 1]) + last + Repeat(SPACE, COLS - |last|)
  }

  /** Every row is at most 80 long and the last, unfinished one is shorter. */
  ghost predicate Fits(rows: seq<seq<Byte>>) {
    |rows| > 0 && (forall row :: row in rows ==> |row| <= COLS) && |rows[|rows| - 1]| < COLS
  }

  function Flat(rows: seq<seq<Byte>>): (r: seq<Byte>)
    requires Fits(rows)
    ensures |r| == COLS * (|rows| - 1) + |rows[|rows| - 1]|
  {
    Padded(rows[..|rows| - 1]) + rows[|rows| - 1]
  }

  lemma PaddedAppend(rows: seq<seq<Byte>>, row: seq<Byte>)
    requires (forall r :: r in rows ==> |r| <= COLS) && |row| <= COLS
    ensures forall r :: r in rows + [row] ==> |r| <= COLS
    ensures Padded(rows + [row]) == Padded(rows) + row + Repeat(SPACE, COLS - |row|)
  {
    assert (rows + [row])[..|rows|] == rows;
  }

  lemma FlatBreak(rows: seq<seq<Byte>>, c: Byte)
    requires Fits(rows) && IsBreak(c)
    ensures Fits(rows + [[]]) && Flat(rows + [[]]) == PutText(Flat(rows), c)
  {
    var n := |rows| - 1;
    assert rows == rows[..n] + [rows[n]];
    PaddedAppend(rows[..n], rows[n]);
    assert (rows + [[]])[..n + 1] == rows;
    assert |Flat(rows)| % COLS == |rows[n]|;
  }

  lemma FlatChar(done: seq<seq<Byte>>, last: seq<Byte>, c: Byte)
    requires Fits(done + [last]) && |last| + 1 < COLS && !IsBreak(c)
    ensures Fits(done + [last + [c]]) && Flat(done + [last + [c]]) == PutText(Flat(done + [last]), c)
  {
    assert (done + [last])[..|done|] == done == (done + [last + [c]])[..|done|];
    assert forall row :: row in done ==> row in done + [last];
  }

  lemma FlatWrap(done: seq<seq<Byte>>, last: seq<Byte>, c: Byte)
    requires Fits(done + [last]) && |last| + 1 == COLS && !IsBreak(c)
    ensures Fits(done + [last + [c], []]) && Flat(done + [last + [c], []]) == PutText(Flat(done + [last]), c)
  {
    assert (done + [last])[..|done|] == done;
    assert forall row :: row in done ==> row in done + [last];
    PaddedAppend(done, last + [c]);
    assert (done + [last + [c], []])[..|done| + 1] == done + [last + [c]];
    assert Repeat(SPACE, 0) == [];
  }

  lemma FlatPush(rows: seq<seq<Byte>>, c: Byte)
    requires Fits(rows)
    ensures Fits(Push(rows, c)) && Flat(Push(rows, c)) == PutText(Flat(rows), c)
  {
    var done, last := rows[..|rows| - 1], rows[|rows| - 1];
    assert rows == done + [last];
    if IsBreak(c) {
      FlatBreak(rows, c);
    } else if |last| + 1 == COLS {
      FlatWrap(done, last, c);
    } else {
      FlatChar(done, last, c);
    }
  }

  lemma {:induction false} PaddedCell(rows: seq<seq<Byte>>, r: nat, col: nat)
    requires forall row :: row in rows ==> |row| <= COLS
    requires r < |rows| && col < COLS
    ensures Padded(rows)[COLS * r + col] == CellOf(rows[r], col)
  {
    var n := |rows| - 1;
    if r < n {
      PaddedCell(rows[..n], r, col);
    }
  }

  lemma FlatCell(rows: seq<seq<Byte>>, r: nat, col: nat)
    requires Fits(rows) && col < COLS
    ensures CellOf(Flat(rows), COLS * r + col) == if r < |rows| then CellOf(rows[r], col) else SPACE
  {
    if r < |rows| - 1 {
      PaddedCell(rows[..|rows| - 1], r, col);
    }
  }

  /** The text after a stream is exactly its rows, and the window is the last 25 of them. */
  lemma {:induction false} StreamOnPaper(cs: seq<Byte>)
    ensures Fits(Layout(cs))
    ensures Puts(EMPTY, cs) == Paper(Flat(Layout(cs)), TopRow(|Layout(cs)|))
  {
    if cs == [] {
      LayoutEmpty(cs);
    } else {
      var ds, c := cs[..|cs| - 1], cs[|cs| - 1];
      assert cs == ds + [c];
      StreamOnPaper(ds);
      LayoutPush(ds, c);
      FlatPush(Layout(ds), c);
    }
  }

  /** The first row of the window on `n` rows of text. */
  function TopRow(n: nat): nat {
    if n <= ROWS then 0 else n - ROWS
  }

  lemma StreamShows(video: seq<Byte>, cs: seq<Byte>)
    requires |video| == VID_MEM_SIZE
    ensures Fits(Layout(cs))
    ensures Shows(PutAll(Screen(Cleared(video), 0, 0), cs), Paper(Flat(Layout(cs)), TopRow(|Layout(cs)|)))
  {
    ClearedShows(video);
    PutAllShows(Screen(Cleared(video), 0, 0), EMPTY, cs);
    StreamOnPaper(cs);
  }

  /** Row `r`, column `col` of a screen. */
  function ScreenCell(s: Screen, r: nat, col: nat): Byte
    requires s.Valid() && r < ROWS && col < COLS
  {
    Char(s.video, COLS * r + col)
  }

  /** After any stream sent to a cleared screen, row `r` of the screen is row `top + r`
      of the laid-out text, blank-padded, and the cursor is the end of that text. */
  lemma ScreenIsLastRows(video: seq<Byte>, cs: seq<Byte>, r: nat, col: nat)
    requires |video| == VID_MEM_SIZE && r < ROWS && col < COLS
    ensures
      var s, rows := PutAll(Screen(Cleared(video), 0, 0), cs), Layout(cs);
      var top := TopRow(|rows|);
      && ScreenCell(s, r, col) == (if top + r < |rows| then CellOf(rows[top + r], col) else SPACE)
      && Attr(s.video, COLS * r + col) == ATTRIB
      && s.y == |rows| - 1 - top && s.x == |rows[|rows| - 1]|
  {
    hide PutAll, Layout, Flat, Shows, Fits, CellOf;
    StreamShows(video, cs);
    var s, rows := PutAll(Screen(Cleared(video), 0, 0), cs), Layout(cs);
    RowsShown(s, rows, TopRow(|rows|), r, col);
  }

  lemma RowsShown(s: Screen, rows: seq<seq<Byte>>, top: nat, r: nat, col: nat)
    requires Fits(rows) && Shows(s, Paper(Flat(rows), top)) && r < ROWS && col < COLS
    ensures ScreenCell(s, r, col) == if top + r < |rows| then CellOf(rows[top + r], col) else SPACE
    ensures Attr(s.video, COLS * r + col) == ATTRIB
    ensures s.y == |rows| - 1 - top && s.x == |rows[|rows| - 1]|
  {
    assert ScreenCell(s, r, col) == WindowCell(Flat(rows), top, COLS * r + col);
    FlatCell(rows, top + r, col);
  }
}
