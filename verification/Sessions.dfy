/** Whole sessions on the three terminals: what each of them shows, visible or saved, and
    which finished lines can still be read. */
module Sessions {
  import opened Bytes
  import opened Console
  import opened Limits
  import opened LineEditor
  import opened Paper
  import opened Scancodes
  import opened Terminals

  // ----- each terminal shows its own text -----

  /** The screen of terminal `t`, on display or in its record. */
  function ScreenOf(d: Driver, t: int): (s: Screen)
    requires d.Valid() && 0 <= t < TERMS
    ensures s.Valid()
  {
    if t == d.front then d.screen else Screen(d.terms[t].vid, d.terms[t].x, d.terms[t].y)
  }

  /** It shows `base`, followed by the line being edited. */
  ghost predicate Shown(s: Screen, base: seq<Byte>, e: Editor) {
    exists top: nat :: Echoed(s, base, e, top)
  }

  /** What an event adds to the finished text of terminal `t`: a finished line, the complaint
      about a key, the output of a program; Ctrl-L starts it over. */
  function BaseStep(f: Focus, t: int, base: seq<Byte>, e: Editor, ev: Event): seq<Byte> {
    match ev
    case Scancode(sc) =>
      var g := FocusStep(f, ev);
      var c := Decode(g.mods, sc);
      if g.front != t then base
      else if g.mods.ctrl then if c == 76 || c == 108 then PROMPT else base
      else if c == 1 then PutTexts(base, UNSUPPORTED)
      else if c == NEWLINE then PutText(base + e.line, NEWLINE)
      else base
    case Read => base
    case Print(cs) => if f.front == t then PutTexts(base, cs) else base
  }

  function BaseAll(f: Focus, t: int, base: seq<Byte>, e: Editor, evs: seq<Event>): seq<Byte> {
    if evs == [] then base
    else
      var before := evs[..|evs| - 1];
      BaseStep(FocusAll(f, before), t, BaseAll(f, t, base, e, before), SeenAll(f, t, e, before), evs[|evs| - 1])
  }

  /** The event puts nothing but the echo of a key on the screen of terminal `t` while a
      line is unfinished there, and never a zero byte. */
  ghost predicate Polite(f: Focus, t: int, e: Editor, ev: Event) {
    match ev
    case Scancode(sc) =>
      var g := FocusStep(f, ev);
      var c := Decode(g.mods, sc);
      g.front == t && (if g.mods.ctrl then c == 76 || c == 108 else c == 1) ==> e.line == []
    case Read => true
    case Print(cs) => NUL !in cs && (f.front == t ==> e.line == [])
  }

  ghost predicate AllPolite(f: Focus, t: int, e: Editor, evs: seq<Event>) {
    forall n :: 0 <= n < |evs| ==> PoliteAt(f, t, e, evs, n)
  }

  ghost predicate PoliteAt(f: Focus, t: int, e: Editor, evs: seq<Event>, n: nat)
    requires n < |evs|
  {
    Polite(FocusAll(f, evs[..n]), t, SeenAll(f, t, e, evs[..n]), evs[n])
  }

  /** Only the visible bytes and the cursor matter. */
  lemma SameVisible(s: Screen, r: Screen, base: seq<Byte>, e: Editor)
    requires Shown(s, base, e) && s.Valid() && r.Valid() && r.x == s.x && r.y == s.y
    requires r.video[..VISIBLE] == s.video[..VISIBLE]
    ensures Shown(r, base, e)
  {
    var top: nat :| Echoed(s, base, e, top);
    var text := base + e.line;
    forall i: nat | i < CELLS
      ensures Char(r.video, i) == WindowCell(text, top, i) && Attr(r.video, i) == ATTRIB
    {
      assert r.video[2 * i] == r.video[..VISIBLE][2 * i] && r.video[2 * i + 1] == r.video[..VISIBLE][2 * i + 1];
      assert Char(s.video, i) == WindowCell(text, top, i);
    }
    assert Echoed(r, base, e, top);
  }

  lemma SavedVisible(video: seq<Byte>)
    requires |video| == VID_MEM_SIZE && ZeroFree(video)
    ensures Saved(video)[..VISIBLE] == video[..VISIBLE]
  {
    FirstZero(video);
  }

  lemma RestoredVisible(video: seq<Byte>, vid: seq<Byte>)
    requires |video| == VID_MEM_SIZE == |vid| && ZeroFree(vid)
    ensures Restored(video, vid)[..VISIBLE] == vid[..VISIBLE]
  {
    FirstZero(vid);
  }

  /** A switch moves screens to and from the records and leaves every one as it was. */
  lemma SwitchShown(d: Driver, to: int, t: int, base: seq<Byte>, e: Editor)
    requires NoZeros(d) && 0 <= to < TERMS && 0 <= t < TERMS && Shown(ScreenOf(d, t), base, e)
    ensures Shown(ScreenOf(SwitchTo(d, to), t), base, e)
  {
    if to != d.front {
      var s, r := ScreenOf(d, t), ScreenOf(SwitchTo(d, to), t);
      if t == d.front {
        SavedVisible(d.screen.video);
        SameVisible(s, r, base, e);
      } else if t == to {
        RestoredVisible(ClearScreen(d.screen).video, d.terms[to].vid);
        SameVisible(s, r, base, e);
      }
    }
  }

  /** Output while no line is unfinished becomes part of the finished text. */
  lemma OutputShown(s: Screen, base: seq<Byte>, e: Editor, cs: seq<Byte>)
    requires Shown(s, base, e) && e.line == []
    ensures s.Valid() && Shown(PutAll(s, cs), PutTexts(base, cs), e)
  {
    var top: nat :| Echoed(s, base, e, top);
    assert base + e.line == base && PutTexts(base, cs) + e.line == PutTexts(base, cs);
    PutAllShows(s, Paper(base, top), cs);
    PutsText(Paper(base, top), cs);
    assert Echoed(PutAll(s, cs), PutTexts(base, cs), e, Puts(Paper(base, top), cs).top);
  }

  lemma {:induction false} PutsText(p: Paper, cs: seq<Byte>)
    ensures Puts(p, cs).text == PutTexts(p.text, cs)
  {
    if cs != [] {
      PutsText(p, cs[..|cs| - 1]);
    }
  }

  lemma ClearShown(s: Screen, e: Editor)
    requires s.Valid() && e.line == []
    ensures Shown(ClearScreen(s), PROMPT, e)
  {
    var blank := Screen(Cleared(s.video), 0, 0);
    ClearedShows(s.video);
    assert [] + e.line == [] && Echoed(blank, [], e, 0);
    OutputShown(blank, [], e, PROMPT);
    PutTextsPlain([], PROMPT);
    assert [] + PROMPT == PROMPT;
  }

  /** Ctrl-L in the middle of a line does not bring the line back: it stays in the buffer and
      the screen no longer shows it. */
  lemma ClearForgetsLine(s: Screen, e: Editor)
    requires s.Valid()
    ensures Shown(ClearScreen(s), PROMPT, e) <==> e.line == []
  {
    var r := ClearScreen(s);
    ClearShown(s, FRESH);
    var top: nat :| Echoed(r, PROMPT, FRESH, top);
    assert COLS * (top + r.y) + r.x == |PROMPT|;
    if e.line == [] {
      ClearShown(s, e);
    }
  }

  // ----- output in the middle of a line -----

  /** The cells before the cursor spell the line. */
  ghost predicate Spells(s: Screen, line: seq<Byte>)
    requires s.Valid()
  {
    var from := COLS * s.y + s.x - |line|;
    0 <= from && forall k :: 0 <= k < |line| ==> Char(s.video, from + k) == line[k]
  }

  ghost predicate EndsWith(text: seq<Byte>, line: seq<Byte>) {
    |line| <= |text| && text[|text| - |line|..] == line
  }

  /** A line that is inside the window stays inside when more is put behind it. */
  lemma {:induction false} PutsKeepInside(p: Paper, cs: seq<Byte>, n: nat)
    requires n <= COLS * (ROWS - 1) && COLS * p.top + n <= |p.text|
    ensures COLS * Puts(p, cs).top + n <= |Puts(p, cs).text|
  {
    if cs != [] {
      PutsKeepInside(p, cs[..|cs| - 1], n);
    }
  }

  lemma SpellsExactly(s: Screen, p: Paper, line: seq<Byte>)
    requires Shows(s, p) && COLS * p.top + |line| <= |p.text|
    ensures Spells(s, line) <==> EndsWith(p.text, line)
  {
    var at := |p.text| - |line|;
    var from := COLS * s.y + s.x - |line|;
    forall k | 0 <= k < |line|
      ensures Char(s.video, from + k) == p.text[at..][k]
    {
      assert Char(s.video, from + k) == WindowCell(p.text, p.top, from + k) == p.text[at + k];
    }
    if Spells(s, line) {
      assert forall k :: 0 <= k < |line| ==> p.text[at..][k] == line[k];
    }
  }

  /** After output in the middle of a line the cells before the cursor still spell the line
      exactly when the text on the paper happens to end with it. */
  lemma OutputOverLine(s: Screen, base: seq<Byte>, e: Editor, cs: seq<Byte>)
    requires Shown(s, base, e)
    ensures s.Valid()
    ensures Spells(PutAll(s, cs), e.line) <==> EndsWith(PutTexts(base + e.line, cs), e.line)
  {
    var top: nat :| Echoed(s, base, e, top);
    var p := Paper(base + e.line, top);
    PutAllShows(s, p, cs);
    PutsText(p, cs);
    PutsKeepInside(p, cs, |e.line|);
    SpellsExactly(PutAll(s, cs), Puts(p, cs), e.line);
  }

  /** For output without line breaks: when the line followed by it ends with the line. */
  lemma PlainOutputOverLine(s: Screen, base: seq<Byte>, e: Editor, cs: seq<Byte>)
    requires Shown(s, base, e) && forall c :: c in cs ==> !IsBreak(c)
    ensures s.Valid() && (Spells(PutAll(s, cs), e.line) <==> EndsWith(e.line + cs, e.line))
  {
    hide Shown, Spells, EndsWith;
    OutputOverLine(s, base, e, cs);
    PutTextsPlain(base + e.line, cs);
    EndsBehind(base, e.line, cs);
  }

  lemma EndsBehind(base: seq<Byte>, line: seq<Byte>, cs: seq<Byte>)
    ensures EndsWith(base + line + cs, line) <==> EndsWith(line + cs, line)
  {
    var text := base + line + cs;
    assert text[|text| - |line|..] == (line + cs)[|cs|..];
  }

  const BACKSPACE_KEY: Byte := 14

  /** Backspace then takes the last character off the line, and the last character of the
      output off the screen: the line that is left in the buffer is followed on the screen by
      its erased character and the rest of the output. */
  lemma BackspaceErasesOutput(d: Driver, base: seq<Byte>, e: Editor, cs: seq<Byte>)
    requires d.Valid() && !d.mods.ctrl && Holds(d.terms[d.front], e) && Shown(d.screen, base, e)
    requires e.line != [] && cs != [] && forall c :: c in cs ==> !IsBreak(c)
    ensures
      var r := Step(Step(d, Print(cs)), Scancode(BACKSPACE_KEY));
      && r.front == d.front && Holds(r.terms[d.front], Key(e, BACKSPACE))
      && Key(e, BACKSPACE).line == e.line[..|e.line| - 1]
      && Shown(r.screen, base + e.line + cs[..|cs| - 1], FRESH)
  {
    var d1 := Step(d, Print(cs));
    assert Press(d.mods, BACKSPACE_KEY) == d.mods && Decode(d.mods, BACKSPACE_KEY) == BACKSPACE;
    KeyHolds(d.terms[d.front], e, BACKSPACE);
    EraseOutput(d.screen, base, e, cs);
  }

  lemma EraseOutput(s: Screen, base: seq<Byte>, e: Editor, cs: seq<Byte>)
    requires Shown(s, base, e) && e.line != [] && cs != [] && forall c :: c in cs ==> !IsBreak(c)
    ensures s.Valid() && Shown(EraseChar(PutAll(s, cs)), base + e.line + cs[..|cs| - 1], FRESH)
  {
    var top: nat :| Echoed(s, base, e, top);
    var p := Paper(base + e.line, top);
    PutAllShows(s, p, cs);
    PutsText(p, cs);
    PutTextsPlain(base + e.line, cs);
    PutsKeepInside(p, cs, 1);
    var q := Puts(p, cs);
    EraseShows(PutAll(s, cs), q);
    var left := base + e.line + cs[..|cs| - 1];
    assert q.text[..|q.text| - 1] == left && left + FRESH.line == left;
    assert Echoed(EraseChar(PutAll(s, cs)), left, FRESH, q.top);
  }

  lemma KeyShown(t: Term, s: Screen, base: seq<Byte>, e: Editor, c: Byte)
    requires Holds(t, e) && Shown(s, base, e) && c != RETURN
    ensures s.Valid() &&
      Shown(TermEcho(t, s, c), if c == NEWLINE then PutText(base + e.line, NEWLINE) else base, Key(e, c))
  {
    var top: nat :| Echoed(s, base, e, top);
    var _ := EchoStep(t, e, s, base, top, c);
  }

  /** The handler after decoding, on the terminal in front. */
  lemma DispatchShown(d: Driver, c: Byte, t: int, base: seq<Byte>, e: Editor)
    requires NoZeros(d) && 0 <= t < TERMS && Holds(d.terms[t], e) && Shown(ScreenOf(d, t), base, e) && c != RETURN
    requires t == d.front && (if d.mods.ctrl then c == 76 || c == 108 else c == 1) ==> e.line == []
    ensures
      var s := ScreenOf(Dispatch(d, c), t);
      if t != d.front then Shown(s, base, e)
      else if d.mods.ctrl then Shown(s, if c == 76 || c == 108 then PROMPT else base, e)
      else if c == 1 then Shown(s, PutTexts(base, UNSUPPORTED), e)
      else if c == NUL then Shown(s, base, e)
      else Shown(s, if c == NEWLINE then PutText(base + e.line, NEWLINE) else base, Key(e, c))
  {
    if t == d.front {
      if d.mods.ctrl {
        if c == 76 || c == 108 {
          ClearShown(d.screen, e);
        }
      } else if c == 1 {
        OutputShown(d.screen, base, e, UNSUPPORTED);
      } else if c != NUL {
        KeyShown(d.terms[t], d.screen, base, e, c);
      }
    }
  }

  lemma ScanShown(d: Driver, sc: Byte, t: int, base: seq<Byte>, e: Editor)
    requires NoZeros(d) && 0 <= t < TERMS && Holds(d.terms[t], e) && Shown(ScreenOf(d, t), base, e)
    requires Polite(Focus(d.mods, d.front), t, e, Scancode(sc))
    ensures
      var f := Focus(d.mods, d.front);
      Shown(ScreenOf(Scan(d, sc), t), BaseStep(f, t, base, e, Scancode(sc)), Seen(f, t, e, Scancode(sc)))
  {
    var m := Press(d.mods, sc);
    var to := Target(m, d.front, sc);
    var d1 := SwitchTo(d.(mods := m), to);
    assert ScreenOf(d.(mods := m), t) == ScreenOf(d, t);
    SwitchKeepsEditor(d.(mods := m), to, t, e);
    SwitchNoZeros(d.(mods := m), to);
    SwitchShown(d.(mods := m), to, t, base, e);
    DecodeCase(m, sc);
    DispatchShown(d1, Decode(m, sc), t, base, e);
  }

  lemma StepShown(d: Driver, ev: Event, t: int, base: seq<Byte>, e: Editor)
    requires NoZeros(d) && 0 <= t < TERMS && Holds(d.terms[t], e) && Shown(ScreenOf(d, t), base, e)
    requires Polite(Focus(d.mods, d.front), t, e, ev)
    ensures
      var f := Focus(d.mods, d.front);
      Shown(ScreenOf(Step(d, ev), t), BaseStep(f, t, base, e, ev), Seen(f, t, e, ev))
  {
    match ev
    case Scancode(sc) => ScanShown(d, sc, t, base, e);
    case Read =>
      var top: nat :| Echoed(ScreenOf(d, t), base, e, top);
      assert Echoed(ScreenOf(d, t), base, e.(ready := false), top);
    case Print(cs) =>
      if d.front == t {
        OutputShown(d.screen, base, e, cs);
      }
  }

  lemma AllPoliteBefore(f: Focus, t: int, e: Editor, evs: seq<Event>, n: nat)
    requires AllPolite(f, t, e, evs) && n <= |evs|
    ensures AllPolite(f, t, e, evs[..n])
  {
    forall k | 0 <= k < n
      ensures PoliteAt(f, t, e, evs[..n], k)
    {
      assert PoliteAt(f, t, e, evs, k) && evs[..n][..k] == evs[..k];
    }
  }

  lemma PoliteHasNoZeros(f: Focus, t: int, e: Editor, evs: seq<Event>)
    requires AllPolite(f, t, e, evs)
    ensures forall n :: 0 <= n < |evs| && evs[n].Print? ==> NUL !in evs[n].cs
  {
    forall n | 0 <= n < |evs| && evs[n].Print?
      ensures NUL !in evs[n].cs
    {
      assert PoliteAt(f, t, e, evs, n);
    }
  }

  /** From a state without zero bytes, every interleaving of keys, switches, reads and output
      keeps each terminal, on display or in the background, showing its own finished text
      and the line being edited on it, and its buffers holding that line. */
  lemma {:induction false} EachTerminalShowsItsText(d: Driver, evs: seq<Event>, t: int, base: seq<Byte>, e: Editor)
    requires NoZeros(d) && 0 <= t < TERMS && Holds(d.terms[t], e) && Shown(ScreenOf(d, t), base, e)
    requires AllPolite(Focus(d.mods, d.front), t, e, evs)
    ensures
      var f := Focus(d.mods, d.front);
      && Holds(Run(d, evs).terms[t], SeenAll(f, t, e, evs))
      && Shown(ScreenOf(Run(d, evs), t), BaseAll(f, t, base, e, evs), SeenAll(f, t, e, evs))
  {
    hide Step, Shown, Holds, Seen, BaseStep, Polite, FocusStep, ScreenOf;
    var f := Focus(d.mods, d.front);
    EachTerminalAlone(d, evs, t, e);
    if evs != [] {
      var n := |evs| - 1;
      AllPoliteBefore(f, t, e, evs, n);
      EachTerminalShowsItsText(d, evs[..n], t, base, e);
      EachTerminalAlone(d, evs[..n], t, e);
      PoliteHasNoZeros(f, t, e, evs[..n]);
      NoZerosForever(d, evs[..n]);
      assert PoliteAt(f, t, e, evs, n);
      StepShown(Run(d, evs[..n]), evs[n], t, BaseAll(f, t, base, e, evs[..n]), SeenAll(f, t, e, evs[..n]));
    }
  }

  // ----- such a state can be reached from boot -----

  const L_KEY: Byte := 38

  const BOTH := NO_MODS.(ctrl := true, alt := true)

  /** Terminal `t` shows the prompt without a zero byte, and nothing has been typed on it. */
  ghost predicate Clean(d: Driver, t: int) {
    && d.Valid() && 0 <= t < TERMS && Holds(d.terms[t], FRESH)
    && ZeroFree(ScreenOf(d, t).video) && Shown(ScreenOf(d, t), PROMPT, FRESH)
  }

  /** Ctrl-L cleans the terminal in front and leaves the others alone. */
  lemma ClearKey(d: Driver)
    requires d.Valid() && d.mods == BOTH && Holds(d.terms[d.front], FRESH)
    ensures
      var r := Scan(d, L_KEY);
      r.mods == BOTH && r.front == d.front && r.terms == d.terms && Clean(r, d.front)
  {
    assert Press(BOTH, L_KEY) == BOTH && Decode(BOTH, L_KEY) == 108;
    ClearShown(d.screen, FRESH);
    ClearScreenZeroFree(d.screen);
  }

  /** Alt with a function key keeps a clean terminal clean. */
  lemma LeaveClean(d: Driver, sc: Byte)
    requires d.Valid() && d.mods == BOTH && F1 <= sc <= F3 && sc - F1 != d.front && Clean(d, d.front)
    ensures
      var r := Scan(d, sc);
      && r.mods == BOTH && r.front == sc - F1 && Clean(r, d.front)
      && r.terms[r.front] == d.terms[r.front].(activated := true)
      && r.terms[3 - d.front - r.front] == d.terms[3 - d.front - r.front]
  {
    FunctionKeyIsSilent(d.mods, sc);
    SwitchKey(d, sc);
    SavedVisible(d.screen.video);
    SavedZeroFree(d.screen.video);
    SameVisible(d.screen, ScreenOf(Scan(d, sc), d.front), PROMPT, FRESH);
  }

  /** A key event that switches nothing and decodes to nothing changes the flags alone. */
  lemma QuietKey(d: Driver, sc: Byte)
    requires d.Valid() && sc in {CTRL_DOWN, CTRL_UP, ALT_DOWN, ALT_UP}
    ensures Scan(d, sc) == d.(mods := Press(d.mods, sc))
  {
    assert Decode(Press(d.mods, sc), sc) == NUL;
  }

  lemma ZeroTermFresh(t: Term)
    requires t == ZERO_TERM || t == ZERO_TERM.(activated := true)
    ensures Holds(t, FRESH)
  {
    assert t.line[..0] == [];
  }

  /** A terminal that is neither left nor brought up stays as it is. */
  lemma StaysClean(d: Driver, r: Driver, t: int)
    requires Clean(d, t) && r.Valid() && r.terms[t] == d.terms[t]
    requires if t == d.front then r.front == t && r.screen == d.screen else r.front != t
    ensures Clean(r, t)
  {
  }

  lemma AllClean(d: Driver)
    requires forall t :: 0 <= t < TERMS ==> Clean(d, t)
    ensures NoZeros(d)
  {
    assert Clean(d, 0);
    assert Clean(d, d.front) && ScreenOf(d, d.front) == d.screen;
    forall t | 0 <= t < TERMS && t != d.front
      ensures ZeroFree(d.terms[t].vid)
    {
      assert Clean(d, t);
    }
  }

  lemma RunPress(d: Driver, evs: seq<Event>, sc: Byte)
    requires d.Valid()
    ensures Run(d, evs + [Scancode(sc)]) == Scan(Run(d, evs), sc)
  {
    assert (evs + [Scancode(sc)])[..|evs|] == evs;
  }

  /** Ctrl and Alt held: L, F2, L. */
  const VISIT_TWO: seq<Event> := [Scancode(CTRL_DOWN)] + [Scancode(ALT_DOWN)] + [Scancode(L_KEY)] +
                                 [Scancode(F1 + 1)] + [Scancode(L_KEY)]

  /** Then F3, L, and both released. */
  const VISIT_ALL: seq<Event> := VISIT_TWO + [Scancode(F1 + 2)] + [Scancode(L_KEY)] +
                                 [Scancode(ALT_UP)] + [Scancode(CTRL_UP)]

  lemma VisitTwoCleans(s: Screen)
    requires s.Valid()
    ensures
      var d := Run(Boot(s), VISIT_TWO);
      d.mods == BOTH && d.front == 1 && Clean(d, 0) && Clean(d, 1) && d.terms[2] == ZERO_TERM
  {
    hide Scan, Clean, Run;
    var d0 := Boot(s);
    ZeroTermFresh(ZERO_TERM);
    ZeroTermFresh(ZERO_TERM.(activated := true));
    QuietKey(d0, CTRL_DOWN);
    var d1 := Scan(d0, CTRL_DOWN);
    QuietKey(d1, ALT_DOWN);
    var d2 := Scan(d1, ALT_DOWN);
    ClearKey(d2);
    var d3 := Scan(d2, L_KEY);
    LeaveClean(d3, F1 + 1);
    var d4 := Scan(d3, F1 + 1);
    ClearKey(d4);
    var d5 := Scan(d4, L_KEY);
    StaysClean(d4, d5, 0);
    VisitTwoRuns(d0);
  }

  lemma VisitTwoRuns(d: Driver)
    requires d.Valid()
    ensures Run(d, VISIT_TWO) == Scan(Scan(Scan(Scan(Scan(d, CTRL_DOWN), ALT_DOWN), L_KEY), F1 + 1), L_KEY)
  {
    hide Scan;
    var e1 := [] + [Scancode(CTRL_DOWN)];
    var e2 := e1 + [Scancode(ALT_DOWN)];
    var e3 := e2 + [Scancode(L_KEY)];
    var e4 := e3 + [Scancode(F1 + 1)];
    RunPress(d, [], CTRL_DOWN);
    RunPress(d, e1, ALT_DOWN);
    RunPress(d, e2, L_KEY);
    RunPress(d, e3, F1 + 1);
    RunPress(d, e4, L_KEY);
    assert e4 + [Scancode(L_KEY)] == VISIT_TWO;
  }

  /** From boot, visiting each terminal and clearing it there leads to a state without zero
      bytes in which all three show the prompt, whatever was on the screen. */
  lemma VisitAllCleans(s: Screen)
    requires s.Valid()
    ensures
      var d := Run(Boot(s), VISIT_ALL);
      NoZeros(d) && Focus(d.mods, d.front) == Focus(NO_MODS, 2) && forall t :: 0 <= t < TERMS ==> Clean(d, t)
  {
    hide Scan, Clean, Run, NoZeros;
    var d5 := Run(Boot(s), VISIT_TWO);
    VisitTwoCleans(s);
    ZeroTermFresh(ZERO_TERM.(activated := true));
    LeaveClean(d5, F1 + 2);
    var d6 := Scan(d5, F1 + 2);
    StaysClean(d5, d6, 0);
    ClearKey(d6);
    var d7 := Scan(d6, L_KEY);
    QuietKey(d7, ALT_UP);
    var d8 := Scan(d7, ALT_UP);
    QuietKey(d8, CTRL_UP);
    var d9 := Scan(d8, CTRL_UP);
    StaysClean(d6, d7, 0);
    StaysClean(d6, d7, 1);
    forall t | 0 <= t < TERMS
      ensures Clean(d9, t)
    {
      StaysClean(d7, d9, t);
    }
    AllClean(d9);
    VisitAllRuns(Boot(s));
  }

  lemma VisitAllRuns(d: Driver)
    requires d.Valid()
    ensures Run(d, VISIT_ALL) == Scan(Scan(Scan(Scan(Run(d, VISIT_TWO), F1 + 2), L_KEY), ALT_UP), CTRL_UP)
  {
    hide Scan;
    var e6 := VISIT_TWO + [Scancode(F1 + 2)];
    var e7 := e6 + [Scancode(L_KEY)];
    var e8 := e7 + [Scancode(ALT_UP)];
    RunPress(d, VISIT_TWO, F1 + 2);
    RunPress(d, e6, L_KEY);
    RunPress(d, e7, ALT_UP);
    RunPress(d, e8, CTRL_UP);
  }

  /** So every terminal shows its own text over every polite session that starts with such a
      visit from boot. */
  lemma SessionFromBoot(s: Screen, evs: seq<Event>, t: int)
    requires s.Valid() && 0 <= t < TERMS
    requires AllPolite(Focus(NO_MODS, 2), t, FRESH, evs)
    ensures
      var d, f := Run(Run(Boot(s), VISIT_ALL), evs), Focus(NO_MODS, 2);
      && Holds(d.terms[t], SeenAll(f, t, FRESH, evs))
      && Shown(ScreenOf(d, t), BaseAll(f, t, PROMPT, FRESH, evs), SeenAll(f, t, FRESH, evs))
  {
    hide Run, Shown, Holds, NoZeros, ScreenOf, SeenAll, BaseAll, AllPolite;
    VisitAllCleans(s);
    var d := Run(Boot(s), VISIT_ALL);
    assert Clean(d, t);
    EachTerminalShowsItsText(d, evs, t, PROMPT, FRESH);
  }

  // ----- what is typed is what is read -----

  /** A key that gives the terminal in front a plain character and leaves the flags alone. */
  ghost predicate Letter(f: Focus, sc: Byte) {
    FocusStep(f, Scancode(sc)) == f && Decode(f.mods, sc) != 1 && Plain([Decode(f.mods, sc)])
  }

  function Typing(scs: seq<Byte>): (evs: seq<Event>)
    ensures |evs| == |scs|
  {
    seq(|scs|, (i: nat) requires i < |scs| => Scancode(scs[i]))
  }

  function Text(m: Mods, scs: seq<Byte>): (r: seq<Byte>)
    ensures |r| == |scs|
  {
    seq(|scs|, (i: nat) requires i < |scs| => Decode(m, scs[i]))
  }

  lemma {:induction false} TypingIsSeen(f: Focus, e: Editor, scs: seq<Byte>)
    requires !f.mods.ctrl && forall sc :: sc in scs ==> Letter(f, sc)
    ensures FocusAll(f, Typing(scs)) == f && SeenAll(f, f.front, e, Typing(scs)) == EditAll(e, Text(f.mods, scs))
    decreases |scs|
  {
    if scs != [] {
      hide FocusStep, Decode, Key, Seen, Letter, Typing, Text, FocusAll, SeenAll, EditAll;
      var n := |scs| - 1;
      assert scs[n] in scs && forall sc :: sc in scs[..n] ==> sc in scs;
      TypingIsSeen(f, e, scs[..n]);
      TypingStep(f, e, scs, n);
      LetterSeen(f, EditAll(e, Text(f.mods, scs[..n])), scs[n]);
    } else {
      TypingNothing(f, e);
    }
  }

  lemma TypingNothing(f: Focus, e: Editor)
    ensures FocusAll(f, Typing([])) == f && SeenAll(f, f.front, e, Typing([])) == EditAll(e, Text(f.mods, []))
  {
  }

  /** One more key. */
  lemma {:induction false} TypingStep(f: Focus, e: Editor, scs: seq<Byte>, n: nat)
    requires |scs| == n + 1
    ensures FocusAll(f, Typing(scs)) == FocusStep(FocusAll(f, Typing(scs[..n])), Scancode(scs[n]))
    ensures SeenAll(f, f.front, e, Typing(scs)) ==
            Seen(FocusAll(f, Typing(scs[..n])), f.front, SeenAll(f, f.front, e, Typing(scs[..n])), Scancode(scs[n]))
    ensures EditAll(e, Text(f.mods, scs)) == Key(EditAll(e, Text(f.mods, scs[..n])), Decode(f.mods, scs[n]))
  {
    hide FocusStep, Decode, Key, Seen;
    assert Typing(scs)[..n] == Typing(scs[..n]) && Text(f.mods, scs)[..n] == Text(f.mods, scs[..n]);
  }

  lemma LetterSeen(f: Focus, e: Editor, sc: Byte)
    requires !f.mods.ctrl && Letter(f, sc)
    ensures FocusStep(f, Scancode(sc)) == f
    ensures Seen(f, f.front, e, Scancode(sc)) == Key(e, Decode(f.mods, sc))
  {
    hide Decode, Key;
    var c := Decode(f.mods, sc);
    assert c in [c];
  }

  const ENTER: Byte := 28

  /** Typing a text on the terminal in front and Enter makes the terminal ready with the first
      127 characters of that text in its output buffer, ended by a newline. */
  lemma TypedTextIsRead(d: Driver, e: Editor, scs: seq<Byte>)
    requires d.Valid() && !d.mods.ctrl && Holds(d.terms[d.front], e) && e.line == []
    requires forall sc :: sc in scs ==> Letter(Focus(d.mods, d.front), sc)
    ensures
      var term := Run(d, Typing(scs) + [Scancode(ENTER)]).terms[d.front];
      term.ready && Completed(term, Cut(Text(d.mods, scs)))
  {
    hide Run, EditAll, FocusStep;
    var f, evs := Focus(d.mods, d.front), Typing(scs) + [Scancode(ENTER)];
    assert evs[..|scs|] == Typing(scs);
    TypingIsSeen(f, e, scs);
    LetterText(f, scs);
    TypedLine(e, Text(d.mods, scs));
    EnterSeen(f, EditAll(e, Text(d.mods, scs)));
    EachTerminalAlone(d, evs, d.front, e);
  }

  lemma EnterSeen(f: Focus, e: Editor)
    requires !f.mods.ctrl
    ensures Seen(f, f.front, e, Scancode(ENTER)) == Key(e, NEWLINE)
  {
  }

  lemma LetterText(f: Focus, scs: seq<Byte>)
    requires forall sc :: sc in scs ==> Letter(f, sc)
    ensures Plain(Text(f.mods, scs))
  {
    hide Decode, FocusStep;
    forall c | c in Text(f.mods, scs)
      ensures c != BACKSPACE && c != NEWLINE && c != TAB && c != NUL
    {
      var i :| 0 <= i < |scs| && Text(f.mods, scs)[i] == c;
      assert scs[i] in scs && Letter(f, scs[i]) && c in [c];
    }
  }

  // ----- how long a finished line can be read -----

  /** The event is a key that reaches the editor of terminal `t`, and which one. */
  function Reaches(f: Focus, t: int, ev: Event): (c: Byte) {
    match ev
    case Scancode(sc) =>
      var g := FocusStep(f, ev);
      if g.front == t && !g.mods.ctrl && Decode(g.mods, sc) != 1 then Decode(g.mods, sc) else NUL
    case _ => NUL
  }

  /** It takes the line away: a character, backspace or Enter that reaches the terminal, or a
      read of it. Tabs are dropped. */
  ghost predicate Takes(f: Focus, t: int, ev: Event) {
    (ev.Read? && f.front == t) || Reaches(f, t, ev) !in {NUL, TAB}
  }

  ghost predicate Untouched(f: Focus, t: int, evs: seq<Event>) {
    forall n :: 0 <= n < |evs| ==> !TakesAt(f, t, evs, n)
  }

  ghost predicate TakesAt(f: Focus, t: int, evs: seq<Event>, n: nat)
    requires n < |evs|
  {
    Takes(FocusAll(f, evs[..n]), t, evs[n])
  }

  /** Lines finished on terminal `t`. */
  function Enters(f: Focus, t: int, evs: seq<Event>): nat {
    if evs == [] then 0
    else
      var before := evs[..|evs| - 1];
      Enters(f, t, before) + if Reaches(FocusAll(f, before), t, evs[|evs| - 1]) == NEWLINE then 1 else 0
  }

  lemma UntouchedStep(f: Focus, t: int, evs: seq<Event>, n: nat)
    requires |evs| == n + 1
    ensures Untouched(f, t, evs) <==> Untouched(f, t, evs[..n]) && !TakesAt(f, t, evs, n)
  {
    forall k | 0 <= k < n
      ensures TakesAt(f, t, evs, k) <==> TakesAt(f, t, evs[..n], k)
    {
      assert evs[..n][..k] == evs[..k];
    }
    if Untouched(f, t, evs) {
      forall k | 0 <= k < n
        ensures !TakesAt(f, t, evs[..n], k)
      {
        assert !TakesAt(f, t, evs, k);
      }
    }
  }

  /** One event on the editor: what takes a line clears the ready flag, but for Enter; only
      Enter sets it. */
  lemma SeenReady(f: Focus, t: int, e: Editor, ev: Event)
    ensures !Takes(f, t, ev) ==> Seen(f, t, e, ev) == e
    ensures Seen(f, t, e, ev).ready ==> e.ready || Reaches(f, t, ev) == NEWLINE
    ensures e.line == [] && Takes(f, t, ev) && Reaches(f, t, ev) != NEWLINE ==> !Seen(f, t, e, ev).ready
  {
  }

  /** A line finished on a terminal is still there to be read, and no later one is, exactly
      when no character, backspace or Enter has reached the terminal since and it has not
      been read: over every interleaving of events. */
  lemma {:induction false} LineStaysReadable(f: Focus, t: int, e: Editor, evs: seq<Event>)
    requires e.ready && e.line == []
    ensures SeenAll(f, t, e, evs).ready && Enters(f, t, evs) == 0 <==> Untouched(f, t, evs)
    ensures Untouched(f, t, evs) ==> SeenAll(f, t, e, evs) == e
  {
    if evs != [] {
      hide Seen, Reaches, Takes;
      var n := |evs| - 1;
      LineStaysReadable(f, t, e, evs[..n]);
      UntouchedStep(f, t, evs, n);
      SeenReady(FocusAll(f, evs[..n]), t, SeenAll(f, t, e, evs[..n]), evs[n]);
      TakesIfEnter(FocusAll(f, evs[..n]), t, evs[n]);
    }
  }

  lemma TakesIfEnter(f: Focus, t: int, ev: Event)
    ensures Reaches(f, t, ev) == NEWLINE ==> Takes(f, t, ev)
  {
  }

  /** The same of the driver: while the line is untouched the ready flag stays set and the
      output buffer keeps the line; afterwards the flag is clear until the next Enter. */
  lemma ReadyExactlyWhileUntouched(d: Driver, evs: seq<Event>, t: int, e: Editor)
    requires d.Valid() && 0 <= t < TERMS && Holds(d.terms[t], e) && e.ready
    ensures
      var f, term := Focus(d.mods, d.front), Run(d, evs).terms[t];
      && (term.ready && Enters(f, t, evs) == 0 <==> Untouched(f, t, evs))
      && (Untouched(f, t, evs) ==> Completed(term, e.last))
  {
    EachTerminalAlone(d, evs, t, e);
    LineStaysReadable(Focus(d.mods, d.front), t, e, evs);
  }
}
