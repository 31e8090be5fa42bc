/** The keyboard interrupt handler over three terminals: dev_kbd.c with the save, switch
    and read of dev_term.c. */
module Terminals {
  import opened Bytes
  import opened Console
  import opened Limits
  import opened LineEditor
  import opened Scancodes
  import Memory
  import Paper

  /** "Key Code Not Supported\n391OS> " */
  const UNSUPPORTED: seq<Byte> :=
    [75, 101, 121, 32, 67, 111, 100, 101, 32, 78, 111, 116, 32, 83, 117, 112, 112, 111, 114, 116, 101, 100, 10] + PROMPT

  /** The driver: modifier flags, term_flag, term_arr and the screen. */
  datatype Driver = Driver(mods: Mods, front: int, terms: seq<Term>, screen: Screen) {
    ghost predicate Valid() {
      && 0 <= front < TERMS && |terms| == TERMS && screen.Valid()
      && forall t :: 0 <= t < TERMS ==> terms[t].Valid()
    }
  }

  // ----- saving and restoring a screen -----

  /** save_term copies up to the first zero byte over a zeroed buffer. */
  function Saved(video: seq<Byte>): (r: seq<Byte>)
    requires |video| == VID_MEM_SIZE
    ensures |r| == VID_MEM_SIZE
  {
    CStr(video) + Repeat(NUL, VID_MEM_SIZE - StrLen(video))
  }

  function SaveTerm(t: Term, s: Screen): (r: Term)
    requires t.Valid() && s.Valid()
    ensures r.Valid()
  {
    t.(vid := Saved(s.video), x := s.x, y := s.y)
  }

  /** switch_term copies up to and including the first zero byte over a cleared screen. */
  function Restored(video: seq<Byte>, vid: seq<Byte>): (r: seq<Byte>)
    requires |video| == VID_MEM_SIZE == |vid|
    ensures |r| == VID_MEM_SIZE
  {
    var z := StrLen(vid);
    if z == VID_MEM_SIZE then vid else vid[..z + 1] + video[z + 1..]
  }

  function SwitchTerm(t: Term, s: Screen): (r: Screen)
    requires t.Valid() && s.Valid()
    ensures r.Valid()
  {
    Screen(Restored(ClearScreen(s).video, t.vid), t.x, t.y)
  }

  // ----- the handler -----

  /** The terminal that Alt with F1, F2 or F3 brings to the front; otherwise the one there. */
  function Target(m: Mods, front: int, sc: Byte): int {
    if m.alt && F1 <= sc <= F3 then sc - F1 else front
  }

  function SwitchTo(d: Driver, to: int): (r: Driver)
    requires d.Valid() && 0 <= to < TERMS
    ensures r.Valid()
  {
    if to == d.front then d
    else
      var terms := d.terms[d.front := SaveTerm(d.terms[d.front], d.screen)];
      d.(front := to, screen := SwitchTerm(terms[to], d.screen), terms := terms[to := terms[to].(activated := true)])
  }

  /** The part of kbd_intr_handler after decoding. */
  function Dispatch(d: Driver, c: Byte): (r: Driver)
    requires d.Valid()
    ensures r.Valid()
  {
    var t := d.terms[d.front];
    if d.mods.ctrl then
      if c == 76 || c == 108 then d.(screen := ClearScreen(d.screen)) else d
    else if c == 1 then d.(screen := PutAll(d.screen, UNSUPPORTED))
    else if c == NUL then d
    else d.(terms := d.terms[d.front := TermKey(t, c)], screen := TermEcho(t, d.screen, c))
  }

  function Scan(d: Driver, sc: Byte): (r: Driver)
    requires d.Valid()
    ensures r.Valid()
  {
    var m := Press(d.mods, sc);
    Dispatch(SwitchTo(d.(mods := m), Target(m, d.front, sc)), Decode(m, sc))
  }

  /** What happens to the driver: a key event, a term_read by the program in front, or
      output of a program, which goes to the screen whichever terminal is in front. */
  datatype Event = Scancode(sc: Byte) | Read | Print(cs: seq<Byte>)

  /** term_read spins while the ready flag is clear, which changes nothing. */
  function TermRead(t: Term): Term {
    t.(ready := false)
  }

  function Step(d: Driver, ev: Event): (r: Driver)
    requires d.Valid()
    ensures r.Valid()
  {
    match ev
    case Scancode(sc) => Scan(d, sc)
    case Read => d.(terms := d.terms[d.front := TermRead(d.terms[d.front])])
    case Print(cs) => d.(screen := PutAll(d.screen, cs))
  }

  function Run(d: Driver, evs: seq<Event>): (r: Driver)
    requires d.Valid()
    ensures r.Valid()
  {
    if evs == [] then d else Step(Run(d, evs[..|evs| - 1]), evs[|evs| - 1])
  }

  // ----- each terminal sees its own keys only -----

  /** Which terminal is in front, computed from the scancodes alone. */
  datatype Focus = Focus(mods: Mods, front: int)

  function FocusStep(f: Focus, ev: Event): Focus {
    match ev
    case Scancode(sc) => var m := Press(f.mods, sc); Focus(m, Target(m, f.front, sc))
    case _ => f
  }

  function FocusAll(f: Focus, evs: seq<Event>): Focus {
    if evs == [] then f else FocusStep(FocusAll(f, evs[..|evs| - 1]), evs[|evs| - 1])
  }

  /** What one event means to the editor of terminal `t`. */
  function Seen(f: Focus, t: int, e: Editor, ev: Event): Editor {
    match ev
    case Scancode(sc) =>
      var g := FocusStep(f, ev);
      var c := Decode(g.mods, sc);
      if g.front == t && !g.mods.ctrl && c != 1 && c != NUL then Key(e, c) else e
    case Read => if f.front == t then e.(ready := false) else e
    case Print(_) => e
  }

  function SeenAll(f: Focus, t: int, e: Editor, evs: seq<Event>): Editor {
    if evs == [] then e
    else Seen(FocusAll(f, evs[..|evs| - 1]), t, SeenAll(f, t, e, evs[..|evs| - 1]), evs[|evs| - 1])
  }

  lemma SwitchKeepsEditor(d: Driver, to: int, t: int, e: Editor)
    requires d.Valid() && 0 <= to < TERMS && 0 <= t < TERMS && Holds(d.terms[t], e)
    ensures Holds(SwitchTo(d, to).terms[t], e) && SwitchTo(d, to).front == to && SwitchTo(d, to).mods == d.mods
  {
  }

  lemma ScanSeen(d: Driver, sc: Byte, t: int, e: Editor)
    requires d.Valid() && 0 <= t < TERMS && Holds(d.terms[t], e)
    ensures Holds(Scan(d, sc).terms[t], Seen(Focus(d.mods, d.front), t, e, Scancode(sc)))
  {
    var m := Press(d.mods, sc);
    var to := Target(m, d.front, sc);
    var d1 := SwitchTo(d.(mods := m), to);
    SwitchKeepsEditor(d.(mods := m), to, t, e);
    var c := Decode(m, sc);
    if to == t && !m.ctrl && c != 1 && c != NUL {
      KeyHolds(d1.terms[t], e, c);
    }
  }

  /** For every interleaving of keys, switches, reads and output, each terminal's buffers
      hold exactly what its own keys make of them. */
  lemma {:induction false} EachTerminalAlone(d: Driver, evs: seq<Event>, t: int, e: Editor)
    requires d.Valid() && 0 <= t < TERMS && Holds(d.terms[t], e)
    ensures Holds(Run(d, evs).terms[t], SeenAll(Focus(d.mods, d.front), t, e, evs))
    ensures Focus(Run(d, evs).mods, Run(d, evs).front) == FocusAll(Focus(d.mods, d.front), evs)
  {
    if evs != [] {
      var n := |evs| - 1;
      EachTerminalAlone(d, evs[..n], t, e);
      var d1, e1 := Run(d, evs[..n]), SeenAll(Focus(d.mods, d.front), t, e, evs[..n]);
      match evs[n]
      case Scancode(sc) => ScanSeen(d1, sc, t, e1);
      case Read =>
      case Print(cs) =>
    }
  }

  /** At boot all records are zero. */
  const ZERO_TERM := Term(0, Repeat(NUL, KBD_BUF_SIZE), Repeat(NUL, KBD_BUF_SIZE), false,
                          Repeat(NUL, VID_MEM_SIZE), 0, 0, false)

  function Boot(s: Screen): (d: Driver)
    requires s.Valid()
    ensures d.Valid()
  {
    Driver(NO_MODS, 0, [ZERO_TERM, ZERO_TERM, ZERO_TERM], s)
  }

  /** The scancodes among the events. */
  function Codes(evs: seq<Event>): seq<Byte> {
    if evs == [] then []
    else Codes(evs[..|evs| - 1]) + if evs[|evs| - 1].Scancode? then [evs[|evs| - 1].sc] else []
  }

  /** Scancode `i` is that of F1, F2 or F3 and comes while Alt is held down. */
  ghost predicate Summons(scs: seq<Byte>, i: nat) {
    i < |scs| && 0x3B <= scs[i] <= 0x3D && Held(scs[..i], IsAltDown, IsAltUp)
  }

  /** Scancode `i` is the last of that kind. */
  ghost predicate LastSummons(scs: seq<Byte>, i: nat) {
    Summons(scs, i) && forall j: nat :: i < j ==> !Summons(scs, j)
  }

  /** The terminal that the last of them names, and terminal 0 when there is none. */
  ghost predicate Fronts(scs: seq<Byte>, front: int) {
    && ((forall i: nat :: !Summons(scs, i)) ==> front == 0)
    && forall i: nat :: LastSummons(scs, i) ==> front == scs[i] - 0x3B
  }

  lemma SummonsPrefix(scs: seq<Byte>, sc: Byte, i: nat)
    ensures Summons(scs + [sc], i) <==>
            if i == |scs| then 0x3B <= sc <= 0x3D && Held(scs, IsAltDown, IsAltUp) else Summons(scs, i)
  {
    if i < |scs| {
      assert (scs + [sc])[..i] == scs[..i];
    } else if i == |scs| {
      assert (scs + [sc])[..i] == scs;
    }
  }

  lemma FrontsStep(scs: seq<Byte>, sc: Byte, front: int)
    requires Fronts(scs, front)
    ensures Fronts(scs + [sc], if 0x3B <= sc <= 0x3D && Held(scs, IsAltDown, IsAltUp) then sc - 0x3B else front)
  {
    var more := scs + [sc];
    forall i: nat
      ensures Summons(more, i) <==>
              if i == |scs| then 0x3B <= sc <= 0x3D && Held(scs, IsAltDown, IsAltUp) else Summons(scs, i)
    {
      SummonsPrefix(scs, sc, i);
    }
    if Summons(more, |scs|) {
      assert !(forall i: nat :: !Summons(more, i));
    } else {
      assert forall i: nat :: LastSummons(more, i) ==> LastSummons(scs, i);
    }
  }

  lemma {:induction false} PressOneMore(scs: seq<Byte>, sc: Byte)
    ensures PressAll(NO_MODS, scs + [sc]) == Press(PressAll(NO_MODS, scs), sc)
  {
    assert (scs + [sc])[..|scs|] == scs;
  }

  lemma TargetByHistory(scs: seq<Byte>, sc: Byte, front: int)
    ensures Target(Press(PressAll(NO_MODS, scs), sc), front, sc) ==
            if 0x3B <= sc <= 0x3D && Held(scs, IsAltDown, IsAltUp) then sc - 0x3B else front
  {
    FlagsFromBoot(scs);
  }

  lemma {:induction false} CodesStep(evs: seq<Event>, n: nat)
    requires |evs| == n + 1
    ensures Codes(evs) == if evs[n].Scancode? then Codes(evs[..n]) + [evs[n].sc] else Codes(evs[..n])
  {
  }

  lemma NoCodes()
    ensures Codes([]) == [] && PressAll(NO_MODS, []) == NO_MODS && Fronts([], 0)
  {
  }

  lemma {:induction false} FocusFromBoot(f: Focus, evs: seq<Event>)
    requires f == Focus(NO_MODS, 0)
    ensures FocusAll(f, evs).mods == PressAll(NO_MODS, Codes(evs)) && Fronts(Codes(evs), FocusAll(f, evs).front)
  {
    hide Fronts, Press, Target, PressAll, Codes;
    if evs == [] {
      NoCodes();
    } else {
      var n := |evs| - 1;
      FocusFromBoot(f, evs[..n]);
      CodesStep(evs, n);
      if evs[n].Scancode? {
        var scs, sc, g := Codes(evs[..n]), evs[n].sc, FocusAll(f, evs[..n]);
        PressOneMore(scs, sc);
        TargetByHistory(scs, sc, g.front);
        FrontsStep(scs, sc, g.front);
      }
    }
  }

  /** From boot, for every interleaving of events, the terminal in front is the one named by
      the last F1, F2 or F3 that came while Alt was held down, and terminal 0 if there was
      none. */
  lemma FrontFromBoot(s: Screen, evs: seq<Event>)
    requires s.Valid()
    ensures Fronts(Codes(evs), Run(Boot(s), evs).front)
  {
    EachTerminalAlone(Boot(s), evs, 0, FRESH);
    FocusFromBoot(Focus(NO_MODS, 0), evs);
  }

  /** Over every run from boot, a ready flag means that the output buffer holds the last
      line finished on that terminal, ended by a newline inside the buffer. */
  lemma ReadyHoldsLastLine(s: Screen, evs: seq<Event>, t: int)
    requires s.Valid() && 0 <= t < TERMS
    ensures var e := SeenAll(Focus(NO_MODS, 0), t, FRESH, evs);
      var term := Run(Boot(s), evs).terms[t];
      && term.line[..term.cnt] == e.line && term.ready == e.ready
      && (term.ready ==> Completed(term, e.last) && term.cnt == 0)
  {
    EachTerminalAlone(Boot(s), evs, t, FRESH);
  }

  // ----- leaving a terminal and coming back -----

  /** No zero byte in what is visible. */
  ghost predicate ZeroFree(video: seq<Byte>) {
    VISIBLE <= |video| && forall k :: 0 <= k < VISIBLE ==> video[k] != NUL
  }

  /** What a saved screen comes back as, over the cleared screen `base`: its bytes up to
      the first zero, and the bytes of `base` behind that. */
  lemma SaveRestore(video: seq<Byte>, base: seq<Byte>)
    requires |video| == VID_MEM_SIZE == |base|
    ensures Restored(base, Saved(video)) ==
            if StrLen(video) == VID_MEM_SIZE then video
            else CStr(video) + [NUL] + base[StrLen(video) + 1..]
  {
    SavedLen(video);
    var z := StrLen(video);
    if z < VID_MEM_SIZE {
      SavedPrefix(video, z);
    } else {
      SavedWhole(video);
    }
  }

  lemma SavedLen(video: seq<Byte>)
    requires |video| == VID_MEM_SIZE
    ensures StrLen(Saved(video)) == StrLen(video)
  {
    var z, saved := StrLen(video), Saved(video);
    assert forall k :: 0 <= k < z ==> saved[k] == video[k];
    StrLenUnique(saved, z);
  }

  lemma SavedPrefix(video: seq<Byte>, z: nat)
    requires |video| == VID_MEM_SIZE && z == StrLen(video) < VID_MEM_SIZE
    ensures Saved(video)[..z + 1] == CStr(video) + [NUL]
  {
  }

  lemma SavedWhole(video: seq<Byte>)
    requires |video| == VID_MEM_SIZE == StrLen(video)
    ensures Saved(video) == video
  {
    assert video[..VID_MEM_SIZE] == video;
    assert Repeat(NUL, 0) == [];
  }

  /** No visible byte is zero, or all that is visible behind the first zero is what the
      cleared screen has there. */
  ghost predicate ComesBack(video: seq<Byte>, base: seq<Byte>) {
    && |video| == VID_MEM_SIZE == |base|
    && (ZeroFree(video) || var z := StrLen(video); z < VISIBLE && video[z + 1..VISIBLE] == base[z + 1..VISIBLE])
  }

  lemma FirstZero(video: seq<Byte>)
    requires |video| == VID_MEM_SIZE
    ensures ZeroFree(video) <==> StrLen(video) >= VISIBLE
  {
    var z := StrLen(video);
    assert z < |video| ==> video[z] == NUL;
  }

  /** The visible screen survives a save and a restore exactly when it comes back. */
  lemma RestoredExactly(video: seq<Byte>, base: seq<Byte>)
    requires |video| == VID_MEM_SIZE == |base|
    ensures Restored(base, Saved(video))[..VISIBLE] == video[..VISIBLE] <==> ComesBack(video, base)
  {
    SaveRestore(video, base);
    FirstZero(video);
    var z := StrLen(video);
    if z < VID_MEM_SIZE {
      SplitAtZero(video, base, z);
    }
  }

  lemma SplitAtZero(video: seq<Byte>, base: seq<Byte>, z: nat)
    requires |video| == VID_MEM_SIZE == |base| && z < VID_MEM_SIZE && video[z] == NUL
    ensures (video[..z] + [NUL] + base[z + 1..])[..VISIBLE] == video[..VISIBLE] <==>
            z >= VISIBLE || video[z + 1..VISIBLE] == base[z + 1..VISIBLE]
  {
    var r := video[..z] + [NUL] + base[z + 1..];
    assert |r| == VID_MEM_SIZE;
    if z < VISIBLE {
      assert r[..VISIBLE] == video[..z + 1] + base[z + 1..VISIBLE];
      assert video[..VISIBLE] == video[..z + 1] + video[z + 1..VISIBLE];
      assert r[..VISIBLE][z + 1..] == base[z + 1..VISIBLE];
      assert video[..VISIBLE][z + 1..] == video[z + 1..VISIBLE];
    } else {
      assert r[..VISIBLE] == video[..VISIBLE];
    }
  }

  /** Terminal `t` is in the background from here on, through all of `evs`. */
  ghost predicate Away(f: Focus, evs: seq<Event>, t: int) {
    forall n :: 0 <= n <= |evs| ==> FocusAll(f, evs[..n]).front != t
  }

  lemma AwayEnd(f: Focus, evs: seq<Event>, t: int)
    requires Away(f, evs, t)
    ensures FocusAll(f, evs).front != t
  {
    assert evs[..|evs|] == evs;
  }

  lemma AwayPrefix(f: Focus, evs: seq<Event>, t: int, n: nat)
    requires Away(f, evs, t) && n <= |evs|
    ensures Away(f, evs[..n], t)
  {
    forall k | 0 <= k <= n
      ensures FocusAll(f, evs[..n][..k]).front != t
    {
      assert evs[..n][..k] == evs[..k];
    }
  }

  /** The saved record of a terminal that stays in the background does not change. */
  lemma {:induction false} BackgroundUntouched(d: Driver, evs: seq<Event>, t: int)
    requires d.Valid() && 0 <= t < TERMS
    requires Away(Focus(d.mods, d.front), evs, t)
    ensures Run(d, evs).terms[t] == d.terms[t]
    ensures Focus(Run(d, evs).mods, Run(d, evs).front) == FocusAll(Focus(d.mods, d.front), evs)
  {
    if evs != [] {
      var n := |evs| - 1;
      AwayPrefix(Focus(d.mods, d.front), evs, t, n);
      AwayEnd(Focus(d.mods, d.front), evs, t);
      AwayEnd(Focus(d.mods, d.front), evs[..n], t);
      BackgroundUntouched(d, evs[..n], t);
      StepElsewhere(Run(d, evs[..n]), evs[n], t);
    }
  }

  lemma StepElsewhere(d: Driver, ev: Event, t: int)
    requires d.Valid() && 0 <= t < TERMS && d.front != t && FocusStep(Focus(d.mods, d.front), ev).front != t
    ensures Step(d, ev).terms[t] == d.terms[t]
    ensures Focus(Step(d, ev).mods, Step(d, ev).front) == FocusStep(Focus(d.mods, d.front), ev)
  {
  }

  /** Alt-Fn away from terminal `t`, anything at all in the others, and Alt-Fn back: the
      cursor returns, and so does every visible byte up to the first zero; behind it comes
      the cleared screen with its prompt. */
  lemma LeaveAndReturn(d: Driver, away: Byte, evs: seq<Event>, back: Byte)
    requires d.Valid() && d.mods.alt && F1 <= away <= F3 && away - F1 != d.front
    requires
      var t, f := d.front, Focus(Press(d.mods, away), away - F1);
      Away(f, evs, t) && FocusAll(f, evs).mods.alt && back == F1 + t
    ensures
      var d1 := Run(Scan(d, away), evs);
      var d2 := Scan(d1, back);
      var base := ClearScreen(d1.screen).video;
      && d2.front == d.front && d2.screen.x == d.screen.x && d2.screen.y == d.screen.y
      && d2.screen.video == Restored(base, Saved(d.screen.video))
      && (d2.screen.video[..VISIBLE] == d.screen.video[..VISIBLE] <==> ComesBack(d.screen.video, base))
  {
    var t, f := d.front, Focus(Press(d.mods, away), away - F1);
    var d0 := Scan(d, away);
    SwitchKey(d, away);
    assert Focus(d0.mods, d0.front) == f;
    BackgroundUntouched(d0, evs, t);
    AwayEnd(f, evs, t);
    var d1 := Run(d0, evs);
    SwitchKey(d1, back);
    RestoredExactly(d.screen.video, ClearScreen(d1.screen).video);
  }

  /** Alt with a function key saves the terminal in front and brings up the other one. */
  lemma SwitchKey(d: Driver, sc: Byte)
    requires d.Valid() && d.mods.alt && F1 <= sc <= F3 && sc - F1 != d.front
    ensures
      var d' := Scan(d, sc);
      && d'.mods == Press(d.mods, sc) == d.mods && d'.front == sc - F1
      && d'.terms[d.front] == SaveTerm(d.terms[d.front], d.screen)
      && d'.screen == SwitchTerm(d.terms[sc - F1], d.screen)
      && d'.terms[sc - F1] == d.terms[sc - F1].(activated := true)
  {
    FunctionKeyIsSilent(d.mods, sc);
  }

  /** F1, F2 and F3 change no flag and decode to nothing. */
  lemma FunctionKeyIsSilent(m: Mods, sc: Byte)
    requires F1 <= sc <= F3
    ensures Press(m, sc) == m && Decode(m, sc) == NUL
  {
  }

  // ----- screens without zero bytes stay without them -----

  lemma PutcZeroFree(s: Screen, c: Byte)
    requires s.Valid() && ZeroFree(s.video) && c != NUL
    ensures ZeroFree(Putc(s, c).video)
  {
    if !IsBreak(c) {
      ScrolledZeroFree(Poke(s.video, COLS * s.y + s.x, c));
    }
    ScrolledZeroFree(s.video);
  }

  lemma ScrolledZeroFree(video: seq<Byte>)
    requires |video| == VID_MEM_SIZE && ZeroFree(video)
    ensures ZeroFree(Scrolled(video))
  {
    assert Memory.ByteOf(BLANK_WORD, 0) == SPACE && Memory.ByteOf(BLANK_WORD, 1) == ATTRIB;
  }

  lemma {:induction false} PutAllZeroFree(s: Screen, cs: seq<Byte>)
    requires s.Valid() && ZeroFree(s.video) && NUL !in cs
    ensures ZeroFree(PutAll(s, cs).video)
  {
    if cs != [] {
      PutAllZeroFree(s, cs[..|cs| - 1]);
      PutcZeroFree(PutAll(s, cs[..|cs| - 1]), cs[|cs| - 1]);
    }
  }

  lemma ClearScreenZeroFree(s: Screen)
    requires s.Valid()
    ensures ZeroFree(ClearScreen(s).video)
  {
    PutAllZeroFree(Screen(Cleared(s.video), 0, 0), PROMPT);
  }

  /** Neither the screen nor the saved screen of a background terminal has a zero byte. */
  ghost predicate NoZeros(d: Driver) {
    && d.Valid() && ZeroFree(d.screen.video)
    && forall t :: 0 <= t < TERMS && t != d.front ==> ZeroFree(d.terms[t].vid)
  }

  lemma SwitchNoZeros(d: Driver, to: int)
    requires NoZeros(d) && 0 <= to < TERMS
    ensures NoZeros(SwitchTo(d, to))
  {
    if to != d.front {
      SavedZeroFree(d.screen.video);
      RestoredZeroFree(ClearScreen(d.screen).video, d.terms[to].vid);
    }
  }

  lemma SavedZeroFree(video: seq<Byte>)
    requires |video| == VID_MEM_SIZE && ZeroFree(video)
    ensures ZeroFree(Saved(video))
  {
    FirstZero(video);
  }

  lemma RestoredZeroFree(video: seq<Byte>, vid: seq<Byte>)
    requires |video| == VID_MEM_SIZE == |vid| && ZeroFree(vid)
    ensures ZeroFree(Restored(video, vid))
  {
    FirstZero(vid);
  }

  lemma DispatchNoZeros(d: Driver, c: Byte)
    requires NoZeros(d)
    ensures NoZeros(Dispatch(d, c))
  {
    var t := d.terms[d.front];
    if d.mods.ctrl {
      ClearScreenZeroFree(d.screen);
    } else if c == 1 {
      PutAllZeroFree(d.screen, UNSUPPORTED);
    } else if c != NUL {
      PutcZeroFree(d.screen, c);
    }
  }

  /** Once every terminal has been visited and overwritten, no run of keys, switches,
      reads and output brings a zero byte back, so no switch loses anything. */
  lemma {:induction false} NoZerosForever(d: Driver, evs: seq<Event>)
    requires NoZeros(d) && forall n :: 0 <= n < |evs| && evs[n].Print? ==> NUL !in evs[n].cs
    ensures NoZeros(Run(d, evs))
  {
    if evs != [] {
      var n := |evs| - 1;
      NoZerosForever(d, evs[..n]);
      var d1 := Run(d, evs[..n]);
      match evs[n]
      case Scancode(sc) =>
        var m := Press(d1.mods, sc);
        SwitchNoZeros(d1.(mods := m), Target(m, d1.front, sc));
        DispatchNoZeros(SwitchTo(d1.(mods := m), Target(m, d1.front, sc)), Decode(m, sc));
      case Read =>
      case Print(cs) => PutAllZeroFree(d1.screen, cs);
    }
  }

  // ----- the first visit to a terminal -----

  lemma ShortLayout(cs: seq<Byte>)
    requires |cs| < COLS && forall c :: c in cs ==> !IsBreak(c)
    ensures Paper.Layout(cs) == [cs]
  {
    Paper.RowLenUnique(cs, |cs|);
  }

  /** The prompt is all there is on a cleared screen: row 1 is blank. */
  lemma PromptIsShort(s: Screen)
    requires s.Valid()
    ensures Char(ClearScreen(s).video, COLS) == SPACE
  {
    var cs := PROMPT;
    assert forall k :: 0 <= k < |cs| ==> !IsBreak(cs[k]);
    ShortLayout(cs);
    Paper.ScreenIsLastRows(s.video, cs, 1, 0);
    assert Paper.ScreenCell(ClearScreen(s), 1, 0) == SPACE;
  }

  /** A terminal that was never left has a zeroed record: the first visit puts a zero byte
      in the first cell, under the cursor. */
  lemma FirstVisit(d: Driver, sc: Byte)
    requires d.Valid() && d.mods.alt && F1 <= sc <= F3 && sc - F1 != d.front && d.terms[sc - F1] == ZERO_TERM
    ensures var s := Scan(d, sc).screen; s.video[0] == NUL && s.x == 0 && s.y == 0
  {
    SwitchKey(d, sc);
    StrLenUnique(ZERO_TERM.vid, 0);
  }

  const ENTER_KEY: Byte := 28
  const A_KEY: Byte := 30

  /** The loss is reachable from boot: Alt-F2, Enter, a, Alt-F1, Alt-F2 and the letter is
      gone from the screen, though it is still in the line buffer. */
  lemma FirstVisitLosesText(s: Screen)
    requires s.Valid()
    ensures
      var d2 := Scan(Scan(Boot(s), ALT_DOWN), F1 + 1);
      var d4 := Scan(Scan(d2, ENTER_KEY), A_KEY);
      var d6 := Scan(Scan(d4, F1), F1 + 1);
      && Char(d4.screen.video, COLS) == 97 && d4.terms[1].line[..d4.terms[1].cnt] == [97]
      && Char(d6.screen.video, COLS) == SPACE && d6.terms[1].line[..d6.terms[1].cnt] == [97]
  {
    var d1 := Scan(Boot(s), ALT_DOWN);
    assert Decode(Press(NO_MODS, ALT_DOWN), ALT_DOWN) == NUL;
    var d2 := Scan(d1, F1 + 1);
    FirstVisit(d1, F1 + 1);
    SwitchKey(d1, F1 + 1);
    TypeOnSecondRow(d2);
    var d4 := Scan(Scan(d2, ENTER_KEY), A_KEY);
    var d5 := Scan(d4, F1);
    ReturnLosesRow(d4);
  }

  lemma TypeOnSecondRow(d: Driver)
    requires d.Valid() && d.mods == NO_MODS.(alt := true) && d.front == 1
    requires d.screen.video[0] == NUL && d.screen.x == 0 && d.screen.y == 0 && d.terms[1].cnt == 0
    ensures
      var d' := Scan(Scan(d, ENTER_KEY), A_KEY);
      && d'.mods == d.mods && d'.front == 1 && d'.screen.video[0] == NUL && Char(d'.screen.video, COLS) == 97
      && d'.terms[1].line[..d'.terms[1].cnt] == [97]
  {
    var m := d.mods;
    assert Press(m, ENTER_KEY) == m && Decode(m, ENTER_KEY) == NEWLINE;
    assert Press(m, A_KEY) == m && Decode(m, A_KEY) == 97;
    var d1 := Scan(d, ENTER_KEY);
    assert d1.screen == Screen(d.screen.video, 0, 1) && d1.terms[1].cnt == 0 && d1.mods == m && d1.front == 1;
    var d2 := Scan(d1, A_KEY);
    assert d2.terms[1].line[0] == 97 && d2.terms[1].cnt == 1;
    assert d2.screen == Screen(Poke(d1.screen.video, COLS, 97), 1, 1);
  }

  lemma ReturnLosesRow(d: Driver)
    requires d.Valid() && d.mods.alt && d.front == 1 && d.screen.video[0] == NUL
    ensures
      var d' := Scan(Scan(d, F1), F1 + 1);
      && Char(d'.screen.video, COLS) == SPACE
      && d'.terms[1].line == d.terms[1].line && d'.terms[1].cnt == d.terms[1].cnt
  {
    var d1 := Scan(d, F1);
    SwitchKey(d, F1);
    SwitchKey(d1, F1 + 1);
    var base := ClearScreen(d1.screen).video;
    SaveRestore(d.screen.video, base);
    StrLenUnique(d.screen.video, 0);
    PromptIsShort(d1.screen);
  }
}
