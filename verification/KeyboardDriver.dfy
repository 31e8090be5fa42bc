/** The code of dev_kbd.c and dev_term.c on mutable terminal records. */
module KeyboardDriver {
  import opened Bytes
  import opened Memory
  import opened Console
  import opened Limits
  import opened LineEditor
  import opened Scancodes
  import opened Terminals

  /** A screen that was overwritten up to and including the first zero byte of `vid`. */
  lemma RestoredTo(base: seq<Byte>, vid: seq<Byte>, now: seq<Byte>, z: nat)
    requires |base| == |vid| == |now| == VID_MEM_SIZE && z <= VID_MEM_SIZE
    requires forall k :: 0 <= k < z ==> now[k] == vid[k] != NUL
    requires z < VID_MEM_SIZE ==> now[z] == vid[z] == NUL
    requires forall k :: z < k < VID_MEM_SIZE ==> now[k] == base[k]
    ensures now == Restored(base, vid)
  {
    StrLenUnique(vid, z);
  }

  class Terminal {
    var cnt: int
    var ready: bool
    var activated: bool
    var cursorX: int
    var cursorY: int
    const lineBuf: array<Byte>
    const outBuf: array<Byte>
    const vidBuf: array<Byte>

    ghost function Footprint(): set<object> {
      {this, lineBuf, outBuf, vidBuf}
    }

    ghost function Value(): Term
      reads this, lineBuf, outBuf, vidBuf
    {
      Term(cnt, lineBuf[..], outBuf[..], ready, vidBuf[..], cursorX, cursorY, activated)
    }

    ghost predicate Valid()
      reads this, lineBuf, outBuf, vidBuf
    {
      Value().Valid() && lineBuf != outBuf && lineBuf != vidBuf && outBuf != vidBuf
    }

    /** A record of the zero-initialised term_arr. */
    constructor ()
      ensures Valid() && fresh(Footprint()) && Value() == ZERO_TERM
    {
      cnt, ready, activated, cursorX, cursorY := 0, false, false, 0, 0;
      lineBuf := new Byte[KBD_BUF_SIZE](_ => NUL);
      outBuf := new Byte[KBD_BUF_SIZE](_ => NUL);
      vidBuf := new Byte[VID_MEM_SIZE](_ => NUL);
      new;
      assert lineBuf[..] == Repeat(NUL, KBD_BUF_SIZE) == outBuf[..] && vidBuf[..] == Repeat(NUL, VID_MEM_SIZE);
    }

    /** insert_op's newline branch: the line goes to the output buffer and is cleared. */
    method FinishLine()
      requires Valid()
      modifies this, lineBuf, outBuf
      ensures Valid() && Value() == Insert(old(Value()), NEWLINE)
    {
      lineBuf[cnt] := NEWLINE;
      cnt := cnt + 1;
      ghost var line := lineBuf[..];
      MemCpy(outBuf, 0, 0, lineBuf, 0, KBD_BUF_SIZE);
      assert outBuf[..] == line;
      ready := true;
      MemSet(lineBuf, 0, 0, NUL, KBD_BUF_SIZE);
      assert lineBuf[..] == Repeat(NUL, KBD_BUF_SIZE);
      cnt := 0;
    }

    method InsertOp(c: Byte, con: TextConsole)
      requires Valid() && con.Valid() && con.video !in Footprint()
      modifies this, lineBuf, outBuf, con, con.video
      ensures Valid() && con.Valid()
      ensures Value() == Insert(old(Value()), c) && con.Value() == InsertEcho(old(Value()), old(con.Value()), c)
    {
      if cnt >= KBD_BUF_SIZE - 1 && c != NEWLINE {
        lineBuf[KBD_BUF_SIZE - 1] := NEWLINE;
      } else if c == TAB || c == NUL {
      } else if c == NEWLINE {
        FinishLine();
        con.PutChar(c);
      } else {
        ready := false;
        lineBuf[cnt] := c;
        cnt := cnt + 1;
        con.PutChar(c);
      }
    }

    method RemoveOp(con: TextConsole)
      requires Valid() && con.Valid() && con.video !in Footprint()
      modifies this, lineBuf, con, con.video
      ensures Valid() && con.Valid()
      ensures Value() == Remove(old(Value())) && con.Value() == RemoveEcho(old(Value()), old(con.Value()))
    {
      ready := false;
      if cnt > 0 {
        cnt := cnt - 1;
        lineBuf[cnt] := NEWLINE;
        con.Erase();
      }
    }

    /** The handler's choice between the two operations. */
    method KeyOp(c: Byte, con: TextConsole)
      requires Valid() && con.Valid() && con.video !in Footprint()
      modifies this, lineBuf, outBuf, con, con.video
      ensures Valid() && con.Valid()
      ensures Value() == TermKey(old(Value()), c) && con.Value() == TermEcho(old(Value()), old(con.Value()), c)
    {
      if c == BACKSPACE {
        RemoveOp(con);
      } else {
        InsertOp(c, con);
      }
    }

    /** save_term: cursor, then the screen up to its first zero byte. */
    method Save(con: TextConsole)
      requires Valid() && con.Valid() && con.video !in Footprint()
      modifies this, vidBuf
      ensures Valid() && con.Valid() && con.Value() == old(con.Value())
      ensures Value() == SaveTerm(old(Value()), con.Value())
    {
      cursorX, cursorY := con.screenX, con.screenY;
      MemSet(vidBuf, 0, 0, NUL, VID_MEM_SIZE);
      var i := 0;
      while i < VID_MEM_SIZE
        invariant 0 <= i <= VID_MEM_SIZE
        invariant forall k :: 0 <= k < i ==> vidBuf[k] == con.video[k] != NUL
        invariant forall k :: i <= k < VID_MEM_SIZE ==> vidBuf[k] == NUL
        modifies vidBuf
      {
        vidBuf[i] := con.video[i];
        if vidBuf[i] == NUL {
          break;
        }
        i := i + 1;
      }
      StrLenUnique(con.video[..], i);
      assert vidBuf[..] == Saved(con.video[..]);
    }

    /** switch_term: clear, cursor, then the saved screen up to its first zero byte. */
    method Show(con: TextConsole)
      requires Valid() && con.Valid() && con.video !in Footprint()
      modifies this, con, con.video
      ensures Valid() && con.Valid()
      ensures Value() == old(Value()).(activated := true)
      ensures con.Value() == SwitchTerm(old(Value()), old(con.Value()))
    {
      con.ClearAndPrompt();
      ghost var base := con.video[..];
      if !activated {
        activated := true;
      }
      con.screenX, con.screenY := cursorX, cursorY;
      var i := 0;
      while i < VID_MEM_SIZE
        invariant 0 <= i <= VID_MEM_SIZE
        invariant forall k :: 0 <= k < i ==> con.video[k] == vidBuf[k] != NUL
        invariant forall k :: i <= k < VID_MEM_SIZE ==> con.video[k] == base[k]
        modifies con.video
      {
        con.video[i] := vidBuf[i];
        if vidBuf[i] == NUL {
          break;
        }
        i := i + 1;
      }
      RestoredTo(base, vidBuf[..], con.video[..], i);
    }

    /** term_read once the ready flag is up: the line without its newline, over a zeroed
        128-byte buffer. */
    method Read(buf: array<Byte>, ghost last: seq<Byte>) returns (i: nat)
      requires Valid() && ready && Completed(Value(), last)
      requires buf !in Footprint() && buf.Length >= KBD_BUF_SIZE
      modifies this, buf
      ensures Valid() && Value() == TermRead(old(Value()))
      ensures i == |last| && buf[..] == Patch(old(buf[..]), 0, last + Repeat(NUL, KBD_BUF_SIZE - |last|))
    {
      ready := false;
      ghost var was := buf[..];
      MemSet(buf, 0, 0, NUL, KBD_BUF_SIZE);
      i := 0;
      while outBuf[i] != NEWLINE
        invariant i <= |last|
        invariant forall k :: 0 <= k < i ==> buf[k] == last[k]
        invariant forall k :: i <= k < KBD_BUF_SIZE ==> buf[k] == NUL
        invariant forall k :: KBD_BUF_SIZE <= k < buf.Length ==> buf[k] == was[k]
        decreases |last| - i
        modifies buf
      {
        assert outBuf[i] == outBuf[..][..|last|][i] == last[i];
        buf[i] := outBuf[i];
        i := i + 1;
      }
    }
  }

  /** Two terminals share no storage. */
  ghost predicate Separate(a: Terminal, b: Terminal) {
    && a != b
    && a.lineBuf != b.lineBuf && a.lineBuf != b.outBuf && a.lineBuf != b.vidBuf
    && a.outBuf != b.lineBuf && a.outBuf != b.outBuf && a.outBuf != b.vidBuf
    && a.vidBuf != b.lineBuf && a.vidBuf != b.outBuf && a.vidBuf != b.vidBuf
  }

  /** save_term of one terminal and switch_term of another. */
  method Exchange(cur: Terminal, next: Terminal, con: TextConsole)
    requires cur.Valid() && next.Valid() && con.Valid() && Separate(cur, next)
    requires con.video !in cur.Footprint() && con.video !in next.Footprint()
    modifies cur, cur.vidBuf, next, con, con.video
    ensures cur.Valid() && next.Valid() && con.Valid()
    ensures cur.Value() == SaveTerm(old(cur.Value()), old(con.Value()))
    ensures next.Value() == old(next.Value()).(activated := true)
    ensures con.Value() == SwitchTerm(old(next.Value()), old(con.Value()))
  {
    cur.Save(con);
    assert next.Value() == old(next.Value());
    next.Show(con);
  }

  lemma SwitchedDriver(d: Driver, to: int, r: Driver)
    requires d.Valid() && 0 <= to < TERMS && to != d.front && |r.terms| == TERMS
    requires r.mods == d.mods && r.front == to && r.screen == SwitchTerm(d.terms[to], d.screen)
    requires r.terms[d.front] == SaveTerm(d.terms[d.front], d.screen)
    requires r.terms[to] == d.terms[to].(activated := true)
    requires r.terms[3 - d.front - to] == d.terms[3 - d.front - to]
    ensures r == SwitchTo(d, to)
  {
    assert r.terms == SwitchTo(d, to).terms;
  }

  lemma EditedDriver(d: Driver, c: Byte, r: Driver)
    requires d.Valid() && !d.mods.ctrl && c != NUL && c != 1 && |r.terms| == TERMS
    requires r.mods == d.mods && r.front == d.front
    requires r.screen == TermEcho(d.terms[d.front], d.screen, c)
    requires r.terms[d.front] == TermKey(d.terms[d.front], c)
    requires r.terms[(d.front + 1) % 3] == d.terms[(d.front + 1) % 3]
    requires r.terms[(d.front + 2) % 3] == d.terms[(d.front + 2) % 3]
    ensures r == Dispatch(d, c)
  {
    assert r.terms == Dispatch(d, c).terms;
  }

  class Keyboard {
    var shift: bool
    var caps: bool
    var ctrl: bool
    var alt: bool
    var termFlag: int
    const t0: Terminal
    const t1: Terminal
    const t2: Terminal
    const console: TextConsole

    function At(i: int): Terminal {
      if i == 0 then t0 else if i == 1 then t1 else t2
    }

    ghost predicate Apart() {
      && Separate(t0, t1) && Separate(t0, t2) && Separate(t1, t2)
      && console.video !in t0.Footprint() && console.video !in t1.Footprint() && console.video !in t2.Footprint()
    }

    ghost function Value(): Driver
      reads this, t0, t0.lineBuf, t0.outBuf, t0.vidBuf, t1, t1.lineBuf, t1.outBuf, t1.vidBuf,
            t2, t2.lineBuf, t2.outBuf, t2.vidBuf, console, console.video
    {
      Driver(Mods(shift, caps, ctrl, alt), termFlag, [t0.Value(), t1.Value(), t2.Value()], console.Value())
    }

    ghost predicate Valid()
      reads this, t0, t0.lineBuf, t0.outBuf, t0.vidBuf, t1, t1.lineBuf, t1.outBuf, t1.vidBuf,
            t2, t2.lineBuf, t2.outBuf, t2.vidBuf, console, console.video
    {
      Apart() && 0 <= termFlag < TERMS && console.Valid() && t0.Valid() && t1.Valid() && t2.Valid()
    }

    /** Static storage of the driver at power-on. */
    constructor (con: TextConsole)
      requires con.Valid()
      ensures Valid() && Value() == Boot(con.Value()) && console == con
    {
      shift, caps, ctrl, alt, termFlag := false, false, false, false, 0;
      console := con;
      t0 := new Terminal();
      t1 := new Terminal();
      t2 := new Terminal();
    }

    /** The body of each of the three switching branches, terminal by terminal. */
    method SwitchTerminals(to: int)
      requires Valid() && 0 <= to < TERMS && to != termFlag
      modifies this`termFlag, At(termFlag), At(termFlag).vidBuf, At(to), console, console.video
      ensures Valid() && termFlag == to
      ensures At(old(termFlag)).Value() == SaveTerm(old(At(termFlag).Value()), old(console.Value()))
      ensures At(to).Value() == old(At(to).Value()).(activated := true)
      ensures At(3 - old(termFlag) - to).Value() == old(At(3 - termFlag - to).Value())
      ensures console.Value() == SwitchTerm(old(At(to).Value()), old(console.Value()))
    {
      hide SaveTerm, SwitchTerm;
      var oldFlag := termFlag;
      SeparateAt(oldFlag, to);
      SeparateAt(oldFlag, 3 - oldFlag - to);
      SeparateAt(to, 3 - oldFlag - to);
      termFlag := to;
      Exchange(At(oldFlag), At(to), console);
    }

    method Switch(to: int)
      requires Valid() && 0 <= to < TERMS && to != termFlag
      modifies this`termFlag, At(termFlag), At(termFlag).vidBuf, At(to), console, console.video
      ensures Valid() && Value() == SwitchTo(old(Value()), to)
    {
      hide SaveTerm, SwitchTerm;
      ghost var d := Value();
      SwitchTerminals(to);
      SwitchedDriver(d, to, Value());
    }

    lemma SeparateAt(i: int, j: int)
      requires Apart() && 0 <= i < TERMS && 0 <= j < TERMS && i != j
      ensures Separate(At(i), At(j)) && Separate(At(j), At(i))
      ensures console.video !in At(i).Footprint()
    {
    }

    /** The flag updates of scancode_decoder. */
    method UpdateFlags(sc: Byte)
      modifies this`shift, this`caps, this`ctrl, this`alt
      ensures Mods(shift, caps, ctrl, alt) == Press(old(Mods(shift, caps, ctrl, alt)), sc)
    {
      if sc == CTRL_DOWN {
        ctrl := true;
      } else if sc == CTRL_UP {
        ctrl := false;
      }
      if sc == ALT_DOWN {
        alt := true;
      } else if sc == ALT_UP {
        alt := false;
      }
      if sc == 0x2A || sc == 0x36 {
        shift := true;
      } else if sc == 0xAA || sc == 0xB6 {
        shift := false;
      }
      if sc == CAPS_DOWN && !caps {
        caps := true;
      } else if sc == CAPS_DOWN && caps {
        caps := false;
      }
    }

    /** The character table that the flags choose. */
    method LookUp(sc: Byte) returns (c: Byte)
      ensures c == Decode(Mods(shift, caps, ctrl, alt), sc)
    {
      hide Table;
      if sc < KBD_TABLE_SIZE {
        if !shift && !caps {
          c := Table(sc).lower;
        } else if shift && !caps {
          c := Table(sc).upshift;
        } else if !shift && caps {
          c := Table(sc).upper;
        } else {
          c := Table(sc).lowshift;
        }
      } else {
        c := NUL;
      }
    }

    /** The three switching branches, whose bodies differ only in the terminal they name. */
    method SwitchKeys(sc: Byte)
      requires Valid()
      modifies this`termFlag, t0, t0.vidBuf, t1, t1.vidBuf, t2, t2.vidBuf, console, console.video
      ensures Valid() && Value() == SwitchTo(old(Value()), Target(old(Value()).mods, old(termFlag), sc))
    {
      hide SaveTerm, SwitchTerm;
      if termFlag != 0 && alt && sc == 0x3B {
        Switch(0);
      } else if termFlag != 1 && alt && sc == 0x3C {
        Switch(1);
      } else if termFlag != 2 && alt && sc == 0x3D {
        Switch(2);
      }
    }

    /** scancode_decoder: flags, terminal switch, character. */
    method ScancodeDecoder(sc: Byte) returns (c: Byte)
      requires Valid()
      modifies this, t0, t0.vidBuf, t1, t1.vidBuf, t2, t2.vidBuf, console, console.video
      ensures Valid() && c == Decode(Press(old(Mods(shift, caps, ctrl, alt)), sc), sc)
      ensures
        var m := Press(old(Mods(shift, caps, ctrl, alt)), sc);
        Value() == SwitchTo(old(Value()).(mods := m), Target(m, old(termFlag), sc))
    {
      hide SwitchTo, Target, Decode, Table, Press;
      UpdateFlags(sc);
      assert Value() == old(Value()).(mods := Press(old(Mods(shift, caps, ctrl, alt)), sc));
      SwitchKeys(sc);
      c := LookUp(sc);
    }

    /** The key goes to the editor of the terminal in front; the others stay as they are. */
    method KeyToFront(c: Byte)
      requires Valid()
      modifies At(termFlag), At(termFlag).lineBuf, At(termFlag).outBuf, console, console.video
      ensures Valid()
      ensures At(termFlag).Value() == TermKey(old(At(termFlag).Value()), c)
      ensures At((termFlag + 1) % 3).Value() == old(At((termFlag + 1) % 3).Value())
      ensures At((termFlag + 2) % 3).Value() == old(At((termFlag + 2) % 3).Value())
      ensures console.Value() == TermEcho(old(At(termFlag).Value()), old(console.Value()), c)
    {
      hide TermKey, TermEcho;
      SeparateAt(termFlag, (termFlag + 1) % 3);
      SeparateAt(termFlag, (termFlag + 2) % 3);
      At(termFlag).KeyOp(c, console);
    }

    method EditorKey(c: Byte)
      requires Valid() && !ctrl && c != NUL && c != 1
      modifies At(termFlag), At(termFlag).lineBuf, At(termFlag).outBuf, console, console.video
      ensures Valid() && Value() == Dispatch(old(Value()), c)
    {
      hide TermKey, TermEcho;
      ghost var d := Value();
      KeyToFront(c);
      EditedDriver(d, c, Value());
    }

    /** kbd_intr_handler after decoding. */
    method DispatchKey(c: Byte)
      requires Valid()
      modifies t0.Footprint(), t1.Footprint(), t2.Footprint(), console, console.video
      ensures Valid() && Value() == Dispatch(old(Value()), c)
    {
      if ctrl {
        if c == 76 || c == 108 {
          console.ClearAndPrompt();
        }
      } else if c != NUL && c != 1 {
        EditorKey(c);
      } else if c == 1 {
        var s := UNSUPPORTED + [NUL];
        StrLenUnique(s, |UNSUPPORTED|);
        var _ := console.Puts(s);
        assert CStr(s) == UNSUPPORTED;
      }
    }

    /** kbd_intr_handler on a scancode from the port. */
    method Handle(sc: Byte)
      requires Valid()
      modifies this, t0.Footprint(), t1.Footprint(), t2.Footprint(), console, console.video
      ensures Valid() && Value() == Scan(old(Value()), sc)
    {
      var c := ScancodeDecoder(sc);
      DispatchKey(c);
    }
  }
}
