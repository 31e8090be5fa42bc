/** The text console of lib.c: video memory, cursor, putc, erase_char, scroll, clear. */
module Console {
  import opened Bytes
  import opened Memory

  const COLS := 80
  const ROWS := 25
  const CELLS := 2000
  const VISIBLE := 4000
  const VID_MEM_SIZE := 4096
  const ATTRIB: Byte := 7

  /** The attribute byte above a blank: the word that scroll stores. */
  const BLANK_WORD := 0x720

  /** What clear_screen prints: "391OS> ". */
  const PROMPT: seq<Byte> := [51, 57, 49, 79, 83, 62, 32]

  /** The page at 0xB8000 and the cursor. */
  datatype Screen = Screen(video: seq<Byte>, x: int, y: int) {
    ghost predicate Valid() {
      |video| == VID_MEM_SIZE && 0 <= x < COLS && 0 <= y < ROWS
    }
  }

  function Char(video: seq<Byte>, i: nat): Byte
    requires i < CELLS && |video| == VID_MEM_SIZE
  {
    video[2 * i]
  }

  function Attr(video: seq<Byte>, i: nat): Byte
    requires i < CELLS && |video| == VID_MEM_SIZE
  {
    video[2 * i + 1]
  }

  function BlankByte(k: nat): Byte {
    if k % 2 == 0 then SPACE else ATTRIB
  }

  // ----- what each operation leaves on the screen -----

  function Cleared(video: seq<Byte>): (r: seq<Byte>)
    requires |video| == VID_MEM_SIZE
    ensures |r| == VID_MEM_SIZE
  {
    seq(VISIBLE, k requires 0 <= k => BlankByte(k)) + video[VISIBLE..]
  }

  function Scrolled(video: seq<Byte>): (r: seq<Byte>)
    requires |video| == VID_MEM_SIZE
    ensures |r| == VID_MEM_SIZE
  {
    video[2 * COLS..VISIBLE] + Words(BLANK_WORD, COLS) + video[VISIBLE..]
  }

  function Poke(video: seq<Byte>, loc: nat, c: Byte): (r: seq<Byte>)
    requires |video| == VID_MEM_SIZE && loc < CELLS
    ensures |r| == VID_MEM_SIZE
  {
    video[2 * loc := c][2 * loc + 1 := ATTRIB]
  }

  predicate IsBreak(c: Byte) {
    c == NEWLINE || c == RETURN
  }

  /** The cursor goes to the next row, scrolling when there is none. */
  function Feed(video: seq<Byte>, y: int): (r: Screen)
    requires |video| == VID_MEM_SIZE && 0 <= y < ROWS
    ensures r.Valid()
  {
    if y + 1 >= ROWS then Screen(Scrolled(video), 0, ROWS - 1) else Screen(video, 0, y + 1)
  }

  function Putc(s: Screen, c: Byte): (r: Screen)
    requires s.Valid()
    ensures r.Valid()
  {
    if IsBreak(c) then Feed(s.video, s.y)
    else
      var video := Poke(s.video, COLS * s.y + s.x, c);
      if s.x + 1 >= COLS then Feed(video, s.y) else Screen(video, s.x + 1, s.y)
  }

  function PutAll(s: Screen, cs: seq<Byte>): (r: Screen)
    requires s.Valid()
    ensures r.Valid()
  {
    if cs == [] then s else Putc(PutAll(s, cs[..|cs| - 1]), cs[|cs| - 1])
  }

  function EraseChar(s: Screen): (r: Screen)
    requires s.Valid()
    ensures r.Valid()
  {
    var (x, y) :=
      if s.x == 0 then (if s.y > 0 then (COLS - 1, s.y - 1) else (0, 0)) else (s.x - 1, s.y);
    Screen(Poke(s.video, COLS * y + x, SPACE), x, y)
  }

  function ClearScreen(s: Screen): (r: Screen)
    requires s.Valid()
    ensures r.Valid()
  {
    PutAll(Screen(Cleared(s.video), 0, 0), PROMPT)
  }

  /** The mutable console: the video page and the static screen_x and screen_y. */
  class TextConsole {
    const video: array<Byte>
    var screenX: int
    var screenY: int

    ghost predicate Valid()
      reads this, video
    {
      video.Length == VID_MEM_SIZE && 0 <= screenX < COLS && 0 <= screenY < ROWS
    }

    ghost function Value(): (s: Screen)
      reads this, video
    {
      Screen(video[..], screenX, screenY)
    }

    /** Power-on: the page holds whatever it held and both statics are zero. */
    constructor (page: array<Byte>)
      requires page.Length == VID_MEM_SIZE
      ensures Valid() && video == page && Value() == Screen(page[..], 0, 0)
    {
      video := page;
      screenX, screenY := 0, 0;
    }

    method Clear()
      requires Valid()
      modifies video
      ensures Valid() && Value() == old(Value()).(video := Cleared(old(video[..])))
    {
      ghost var was := video[..];
      for i := 0 to ROWS * COLS
        invariant forall k :: 0 <= k < 2 * i ==> video[k] == BlankByte(k)
        invariant forall k :: 2 * i <= k < VID_MEM_SIZE ==> video[k] == was[k]
      {
        video[2 * i] := SPACE;
        video[2 * i + 1] := ATTRIB;
      }
      assert video[..] == Cleared(was);
    }

    method Scroll()
      requires video.Length == VID_MEM_SIZE
      modifies video
      ensures video[..] == Scrolled(old(video[..]))
    {
      MemMove(video, 0, 2 * COLS, (ROWS - 1) * COLS * 2);
      MemSetWord(video, 2 * (COLS * (ROWS - 1)), BLANK_WORD, COLS);
      assert video[..] == Scrolled(old(video[..]));
    }

    method PutChar(c: Byte)
      requires Valid()
      modifies this, video
      ensures Valid() && Value() == Putc(old(Value()), c)
    {
      if c == NEWLINE || c == RETURN {
        screenY := screenY + 1;
        screenX := 0;
        if screenY >= ROWS {
          Scroll();
          screenY := ROWS - 1;
        }
      } else {
        video[2 * (COLS * screenY + screenX)] := c;
        video[2 * (COLS * screenY + screenX) + 1] := ATTRIB;
        assert video[..] == Poke(old(video[..]), COLS * screenY + screenX, c);
        screenX := screenX + 1;
        if screenX >= COLS {
          screenY := screenY + 1;
          screenX := 0;
          if screenY >= ROWS {
            Scroll();
            screenY := ROWS - 1;
          }
        }
      }
    }

    /** puts, on a NUL-terminated string held in `s`. */
    method Puts(s: seq<Byte>) returns (index: nat)
      requires Valid() && NUL in s
      modifies this, video
      ensures Valid() && index == StrLen(s) && Value() == PutAll(old(Value()), CStr(s))
    {
      index := 0;
      while s[index] != NUL
        invariant Valid() && index < |s|
        invariant NUL !in s[..index] && NUL in s[index..]
        invariant Value() == PutAll(old(Value()), s[..index])
        decreases |s| - index
      {
        assert s[index..] == [s[index]] + s[index + 1..];
        assert s[..index + 1][..index] == s[..index];
        PutChar(s[index]);
        index := index + 1;
      }
      StrLenUnique(s, index);
    }

    method Erase()
      requires Valid()
      modifies this, video
      ensures Valid() && Value() == EraseChar(old(Value()))
    {
      if screenX == 0 {
        if screenY > 0 {
          screenX := COLS - 1;
          screenY := screenY - 1;
        }
      } else {
        screenX := screenX - 1;
      }
      video[2 * (COLS * screenY + screenX)] := SPACE;
      video[2 * (COLS * screenY + screenX) + 1] := ATTRIB;
    }

    method ClearAndPrompt()
      requires Valid()
      modifies this, video
      ensures Valid() && Value() == ClearScreen(old(Value()))
    {
      Clear();
      screenX, screenY := 0, 0;
      var s := PROMPT + [NUL];
      StrLenUnique(s, |PROMPT|);
      var _ := Puts(s);
      assert CStr(s) == PROMPT;
    }
  }
}
