/** The line editor of dev_kbd.c: insert_op and remove_op on one terminal and the screen. */
module LineEditor {
  import opened Bytes
  import opened Console
  import opened Limits
  import opened Paper

  /** A terminal's record: line buffer and count, output buffer and ready flag, saved
      screen and cursor, activation flag. */
  datatype Term = Term(cnt: int, line: seq<Byte>, out: seq<Byte>, ready: bool,
                       vid: seq<Byte>, x: int, y: int, activated: bool) {
    ghost predicate Valid() {
      && 0 <= cnt < KBD_BUF_SIZE && |line| == KBD_BUF_SIZE && |out| == KBD_BUF_SIZE
      && |vid| == VID_MEM_SIZE && 0 <= x < COLS && 0 <= y < ROWS
    }
  }

  // ----- what the two operations do -----

  function Insert(t: Term, c: Byte): (r: Term)
    requires t.Valid()
    ensures r.Valid()
  {
    if t.cnt >= KBD_BUF_SIZE - 1 && c != NEWLINE then t.(line := t.line[KBD_BUF_SIZE - 1 := NEWLINE])
    else if c == TAB || c == NUL then t
    else if c == NEWLINE then
      t.(cnt := 0, line := Repeat(NUL, KBD_BUF_SIZE), out := t.line[t.cnt := NEWLINE], ready := true)
    else t.(cnt := t.cnt + 1, line := t.line[t.cnt := c], ready := false)
  }

  /** The echo of insert_op. */
  function InsertEcho(t: Term, s: Screen, c: Byte): (r: Screen)
    requires t.Valid() && s.Valid()
    ensures r.Valid()
  {
    if (t.cnt >= KBD_BUF_SIZE - 1 && c != NEWLINE) || c == TAB || c == NUL then s else Putc(s, c)
  }

  function Remove(t: Term): (r: Term)
    requires t.Valid()
    ensures r.Valid()
  {
    if t.cnt > 0 then t.(cnt := t.cnt - 1, line := t.line[t.cnt - 1 := NEWLINE], ready := false)
    else t.(ready := false)
  }

  function RemoveEcho(t: Term, s: Screen): (r: Screen)
    requires t.Valid() && s.Valid()
    ensures r.Valid()
  {
    if t.cnt > 0 then EraseChar(s) else s
  }

  // ----- the editor without buffers -----

  /** The unfinished line, the last finished one, and whether it is there to be read. */
  datatype Editor = Editor(line: seq<Byte>, last: seq<Byte>, ready: bool)

  const FRESH := Editor([], [], false)

  function Key(e: Editor, c: Byte): Editor {
    if c == BACKSPACE then Editor(if e.line == [] then [] else e.line[..|e.line| - 1], e.last, false)
    else if c == NEWLINE then Editor([], e.line, true)
    else if |e.line| >= KBD_BUF_SIZE - 1 || c == TAB || c == NUL then e
    else Editor(e.line + [c], e.last, false)
  }

  /** One key on the buffers, as the interrupt handler dispatches it. */
  function TermKey(t: Term, c: Byte): (r: Term)
    requires t.Valid()
    ensures r.Valid()
  {
    if c == BACKSPACE then Remove(t) else Insert(t, c)
  }

  function TermEcho(t: Term, s: Screen, c: Byte): (r: Screen)
    requires t.Valid() && s.Valid()
    ensures r.Valid()
  {
    if c == BACKSPACE then RemoveEcho(t, s) else InsertEcho(t, s, c)
  }

  /** The buffers hold the editor's lines. A line is ready only while nothing has been
      typed after it, and then a newline ends it within the buffer. */
  ghost predicate Holds(t: Term, e: Editor) {
    && t.Valid() && t.line[..t.cnt] == e.line && NEWLINE !in e.line
    && t.ready == e.ready
    && (e.ready ==> e.line == [] && Completed(t, e.last))
  }

  ghost predicate Completed(t: Term, last: seq<Byte>) {
    |last| < |t.out| && t.out[..|last|] == last && NEWLINE !in last && t.out[|last|] == NEWLINE
  }

  lemma KeyHolds(t: Term, e: Editor, c: Byte)
    requires Holds(t, e)
    ensures Holds(TermKey(t, c), Key(e, c))
  {
    if c == NEWLINE {
      var out := t.line[t.cnt := NEWLINE];
      assert out[..t.cnt] == t.line[..t.cnt];
    } else if c == BACKSPACE {
      if t.cnt > 0 {
        assert t.line[t.cnt - 1 := NEWLINE][..t.cnt - 1] == t.line[..t.cnt][..t.cnt - 1];
      }
    } else if t.cnt >= KBD_BUF_SIZE - 1 {
      assert t.line[KBD_BUF_SIZE - 1 := NEWLINE][..t.cnt] == t.line[..t.cnt];
    } else if c != TAB && c != NUL {
      assert t.line[t.cnt := c][..t.cnt + 1] == t.line[..t.cnt] + [c];
    }
  }

  // ----- editor and screen together -----

  /** Keys the editor can be given: the tables have no carriage return. */
  ghost predicate Keys(ks: seq<Byte>) {
    RETURN !in ks
  }

  function EditAll(e: Editor, ks: seq<Byte>): Editor {
    if ks == [] then e else Key(EditAll(e, ks[..|ks| - 1]), ks[|ks| - 1])
  }

  function TermAll(t: Term, ks: seq<Byte>): (r: Term)
    requires t.Valid()
    ensures r.Valid()
  {
    if ks == [] then t else TermKey(TermAll(t, ks[..|ks| - 1]), ks[|ks| - 1])
  }

  function EchoAll(t: Term, s: Screen, ks: seq<Byte>): (r: Screen)
    requires t.Valid() && s.Valid()
    ensures r.Valid()
  {
    if ks == [] then s
    else TermEcho(TermAll(t, ks[..|ks| - 1]), EchoAll(t, s, ks[..|ks| - 1]), ks[|ks| - 1])
  }

  /** Keys that only put their character into the line. */
  ghost predicate Plain(ks: seq<Byte>) {
    forall c :: c in ks ==> c != BACKSPACE && c != NEWLINE && c != TAB && c != NUL
  }

  /** The first 127 characters. */
  function Cut(ks: seq<Byte>): seq<Byte> {
    if |ks| < KBD_BUF_SIZE then ks else ks[..KBD_BUF_SIZE - 1]
  }

  lemma CutStep(ks: seq<Byte>, n: nat)
    requires |ks| == n + 1
    ensures Cut(ks) == if |Cut(ks[..n])| >= KBD_BUF_SIZE - 1 then Cut(ks[..n]) else Cut(ks[..n]) + [ks[n]]
  {
    assert ks[..n] + [ks[n]] == ks;
  }

  /** Typing a text and Enter leaves the first 127 characters of it to be read. */
  lemma {:induction false} TypedLine(e: Editor, ks: seq<Byte>)
    requires e.line == [] && Plain(ks)
    ensures EditAll(e, ks).line == Cut(ks)
    ensures Key(EditAll(e, ks), NEWLINE) == Editor([], EditAll(e, ks).line, true)
  {
    if ks != [] {
      var n := |ks| - 1;
      assert ks[n] in ks && forall c :: c in ks[..n] ==> c in ks;
      TypedLine(e, ks[..n]);
      CutStep(ks, n);
    }
  }

  /** Backspace takes back the key before it, but on a full line the last key that was
      accepted; on an empty line there is nothing to take; a tab is dropped. */
  lemma BackspaceTakesBack(e: Editor, c: Byte)
    requires Plain([c]) && |e.line| < KBD_BUF_SIZE
    ensures Key(Key(e, c), BACKSPACE).line ==
            if |e.line| < KBD_BUF_SIZE - 1 then e.line else e.line[..KBD_BUF_SIZE - 2]
    ensures e.line == [] ==> Key(e, BACKSPACE).line == []
    ensures Key(e, TAB) == e
  {
    assert c in [c];
  }

  /** The finished lines of a key sequence, each with its newline: everything typed that
      was neither rubbed out nor refused, up to the current line. */
  function Finished(e: Editor, ks: seq<Byte>): seq<Byte> {
    if ks == [] then []
    else
      var before := ks[..|ks| - 1];
      Finished(e, before) + if ks[|ks| - 1] == NEWLINE then EditAll(e, before).line + [NEWLINE] else []
  }

  lemma PutTextsAppend(text: seq<Byte>, cs: seq<Byte>, ds: seq<Byte>)
    ensures PutTexts(text, cs + ds) == PutTexts(PutTexts(text, cs), ds)
  {
    if ds == [] {
      assert cs + ds == cs;
    } else {
      assert (cs + ds)[..|cs + ds| - 1] == cs + ds[..|ds| - 1];
      PutTextsAppend(text, cs, ds[..|ds| - 1]);
    }
  }

  /** Characters without line breaks are simply appended. */
  lemma {:induction false} PutTextsPlain(text: seq<Byte>, cs: seq<Byte>)
    requires forall c :: c in cs ==> !IsBreak(c)
    ensures PutTexts(text, cs) == text + cs
  {
    if cs != [] {
      var n := |cs| - 1;
      assert forall c :: c in cs[..n] ==> c in cs;
      PutTextsPlain(text, cs[..n]);
      assert text + cs[..n] + [cs[n]] == text + cs;
      assert cs[n] in cs;
    } else {
      assert text + cs == text;
    }
  }

  /** The screen shows `base` followed by the current line, and no cell of that line has
      scrolled away. */
  ghost predicate Echoed(s: Screen, base: seq<Byte>, e: Editor, top: nat) {
    && Shows(s, Paper(base + e.line, top)) && |base| >= COLS * top
    && |e.line| < KBD_BUF_SIZE && forall c :: c in e.line ==> !IsBreak(c)
  }

  /** One key: the base grows by a finished line or stays, and the screen still shows it. */
  lemma EchoStep(t: Term, e: Editor, s: Screen, base: seq<Byte>, top: nat, c: Byte) returns (top': nat)
    requires Holds(t, e) && Echoed(s, base, e, top) && c != RETURN
    ensures Echoed(TermEcho(t, s, c), if c == NEWLINE then PutText(base + e.line, NEWLINE) else base, Key(e, c), top')
    ensures top <= top'
  {
    var p := Paper(base + e.line, top);
    assert |e.line| == t.cnt;
    if c == BACKSPACE {
      top' := top;
      if t.cnt > 0 {
        EraseShows(s, p);
        assert (base + e.line)[..|base + e.line| - 1] == base + e.line[..|e.line| - 1];
      }
    } else if c == NEWLINE {
      PutcShows(s, p, c);
      top' := Put(p, c).top;
      assert PutText(base + e.line, NEWLINE) + [] == PutText(base + e.line, NEWLINE);
    } else if |e.line| >= KBD_BUF_SIZE - 1 || c == TAB || c == NUL {
      top' := top;
    } else {
      PutcShows(s, p, c);
      top' := Put(p, c).top;
      assert base + e.line + [c] == base + (e.line + [c]);
    }
  }

  /** After any keys the screen shows exactly the text that typing the surviving
      characters directly would have put there, and the line buffer is its last line. */
  lemma {:induction false} EditedScreen(t: Term, e: Editor, s: Screen, base: seq<Byte>, top: nat, ks: seq<Byte>)
    returns (top': nat)
    requires Holds(t, e) && Echoed(s, base, e, top) && e.line == [] && Keys(ks)
    ensures Holds(TermAll(t, ks), EditAll(e, ks)) && top <= top'
    ensures Echoed(EchoAll(t, s, ks), PutTexts(base, Finished(e, ks)), EditAll(e, ks), top')
  {
    if ks == [] {
      top' := top;
    } else {
      var n := |ks| - 1;
      var before, c := ks[..n], ks[n];
      assert c in ks && forall k :: k in before ==> k in ks;
      var mid := EditedScreen(t, e, s, base, top, before);
      var e', base' := EditAll(e, before), PutTexts(base, Finished(e, before));
      KeyHolds(TermAll(t, before), e', c);
      top' := EchoStep(TermAll(t, before), e', EchoAll(t, s, before), base', mid, c);
      if c == NEWLINE {
        PutTextsAppend(base, Finished(e, before), e'.line + [NEWLINE]);
        PutTextsPlain(base', e'.line);
        assert (e'.line + [NEWLINE])[..|e'.line|] == e'.line;
        assert PutTexts(base', e'.line + [NEWLINE]) == PutText(base' + e'.line, NEWLINE);
      } else {
        assert Finished(e, ks) == Finished(e, before);
      }
    }
  }

  /** Hence the cells just before the cursor spell the line buffer. */
  lemma CellsSpellTheLine(t: Term, e: Editor, s: Screen, base: seq<Byte>, top: nat, k: nat)
    requires Holds(t, e) && Echoed(s, base, e, top) && k < t.cnt
    ensures var loc := COLS * s.y + s.x - t.cnt + k; 0 <= loc && Char(s.video, loc) == t.line[k]
  {
    var loc := COLS * s.y + s.x - t.cnt + k;
    assert t.line[k] == t.line[..t.cnt][k] == (base + e.line)[|base| + k];
    assert Char(s.video, loc) == WindowCell(base + e.line, top, loc);
  }
}
