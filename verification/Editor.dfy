/** The boot loader's command line: a text and a cursor, kept in a buffer and mirrored on the
    text screen. */
module Editor {
  import opened Bytes

  const CMDLEN: nat := 160
  const CELLS: nat := 2000
  const NEWLINE: byte := 10
  const BACKSPACE: byte := 8
  const SPACE: byte := 32
  const KEY_L_ARROW: byte := 145
  const KEY_R_ARROW: byte := 146

  /** A text cell: the character below, white on black above. */
  function Cell(c: byte): (r: u16)
    ensures r % 0x100 == c && r / 0x100 == 15
  {
    c + 0x100 * 0x0f
  }

  predicate IsPrint(c: byte)
  {
    32 <= c <= 126
  }

  // ----- the line being edited -----

  datatype Line = Line(text: seq<byte>, off: nat)

  predicate WellFormed(l: Line)
  {
    l.off <= |l.text| < CMDLEN && forall i :: 0 <= i < |l.text| ==> IsPrint(l.text[i])
  }

  /** One key that is not the newline. */
  function Press(l: Line, key: byte): (r: Line)
    requires WellFormed(l)
    ensures WellFormed(r)
  {
    if IsPrint(key) && |l.text| < CMDLEN - 1 then
      Line(l.text[..l.off] + [key] + l.text[l.off..], l.off + 1)
    else if key == KEY_L_ARROW && l.off > 0 then l.(off := l.off - 1)
    else if key == KEY_R_ARROW && l.off < |l.text| then l.(off := l.off + 1)
    else if key == BACKSPACE && l.off > 0 then
      Line(l.text[..l.off - 1] + l.text[l.off..], l.off - 1)
    else l
  }

  function PressAll(l: Line, keys: seq<byte>): (r: Line)
    requires WellFormed(l)
    ensures WellFormed(r)
    decreases |keys|
  {
    if keys == [] then l else PressAll(Press(l, keys[0]), keys[1..])
  }

  lemma {:induction false} PressAppend(l: Line, keys: seq<byte>, key: byte)
    requires WellFormed(l)
    ensures PressAll(l, keys + [key]) == Press(PressAll(l, keys), key)
    decreases |keys|
  {
    if keys == [] {
      assert keys + [key] == [key];
    } else {
      assert (keys + [key])[1..] == keys[1..] + [key];
      PressAppend(Press(l, keys[0]), keys[1..], key);
    }
  }

  predicate Printable(keys: seq<byte>)
  {
    forall i :: 0 <= i < |keys| ==> IsPrint(keys[i])
  }

  /** Typing printable keys puts them at the cursor, in order, wherever it is. */
  lemma {:induction false} TypeText(l: Line, keys: seq<byte>)
    requires WellFormed(l) && Printable(keys) && |l.text| + |keys| < CMDLEN
    ensures PressAll(l, keys) == Line(l.text[..l.off] + keys + l.text[l.off..], l.off + |keys|)
    decreases |keys|
  {
    if keys == [] {
      assert l.text[..l.off] + keys + l.text[l.off..] == l.text;
    } else {
      var first, last := keys[..|keys| - 1], keys[|keys| - 1];
      assert keys == first + [last];
      TypeText(l, first);
      PressAppend(l, first, last);
      var m := PressAll(l, first);
      assert m.text[..m.off] == l.text[..l.off] + first && m.text[m.off..] == l.text[l.off..];
    }
  }

  function Backspaces(n: nat): (keys: seq<byte>)
    ensures |keys| == n
  {
    seq(n, _ => BACKSPACE)
  }

  /** As many backspaces as keys were typed give back the line, wherever the cursor was. */
  lemma {:induction false} BackspacesUndo(l: Line, keys: seq<byte>)
    requires WellFormed(l) && Printable(keys) && |l.text| + |keys| < CMDLEN
    ensures PressAll(PressAll(l, keys), Backspaces(|keys|)) == l
    decreases |keys|
  {
    if keys != [] {
      var first, last := keys[..|keys| - 1], keys[|keys| - 1];
      assert keys == first + [last];
      PressAppend(l, first, last);
      var m := PressAll(l, first);
      TypeText(l, first);
      assert Press(Press(m, last), BACKSPACE) == m by { BackspaceUndoes(m, last); }
      assert Backspaces(|keys|)[1..] == Backspaces(|first|);
      BackspacesUndo(l, first);
    }
  }

  /** Backspace undoes a key that was inserted, wherever the cursor is. */
  lemma BackspaceUndoes(l: Line, key: byte)
    requires WellFormed(l) && IsPrint(key) && |l.text| < CMDLEN - 1
    ensures Press(Press(l, key), BACKSPACE) == l
  {
    var m := Press(l, key);
    assert m.text[..m.off - 1] == l.text[..l.off] && m.text[m.off..] == l.text[l.off..];
  }

  lemma {:induction false} PressAllAppend(l: Line, a: seq<byte>, b: seq<byte>)
    requires WellFormed(l)
    ensures PressAll(l, a + b) == PressAll(PressAll(l, a), b)
    decreases |a|
  {
    if a == [] {
      assert a + b == b;
    } else {
      assert (a + b)[1..] == a[1..] + b;
      PressAllAppend(Press(l, a[0]), a[1..], b);
    }
  }

  function Lefts(n: nat): (keys: seq<byte>)
    ensures |keys| == n
  {
    seq(n, _ => KEY_L_ARROW)
  }

  function Rights(n: nat): (keys: seq<byte>)
    ensures |keys| == n
  {
    seq(n, _ => KEY_R_ARROW)
  }

  /** Left arrows move the cursor to the left, as far as the start of the text. */
  lemma {:induction false} LeftsMove(l: Line, n: nat)
    requires WellFormed(l)
    ensures PressAll(l, Lefts(n)) == Line(l.text, if n <= l.off then l.off - n else 0)
    decreases n
  {
    if n > 0 {
      assert Lefts(n)[1..] == Lefts(n - 1);
      LeftsMove(Press(l, KEY_L_ARROW), n - 1);
    }
  }

  /** Right arrows move it to the right, as far as the end. */
  lemma {:induction false} RightsMove(l: Line, n: nat)
    requires WellFormed(l)
    ensures PressAll(l, Rights(n)) == Line(l.text, if l.off + n <= |l.text| then l.off + n else |l.text|)
    decreases n
  {
    if n > 0 {
      assert Rights(n)[1..] == Rights(n - 1);
      RightsMove(Press(l, KEY_R_ARROW), n - 1);
    }
  }

  /** Backspaces take the characters before the cursor, as many as there are. */
  lemma {:induction false} BackspacesDelete(l: Line, n: nat)
    requires WellFormed(l)
    ensures PressAll(l, Backspaces(n)) ==
      var k := if n <= l.off then l.off - n else 0;
      Line(l.text[..k] + l.text[l.off..], k)
    decreases n
  {
    if n > 0 {
      assert Backspaces(n)[1..] == Backspaces(n - 1);
      var m := Press(l, BACKSPACE);
      BackspacesDelete(m, n - 1);
      if l.off > 0 {
        assert m.text[m.off..] == l.text[l.off..];
        var k := if n <= l.off then l.off - n else 0;
        assert m.text[..k] == l.text[..k];
      }
    } else {
      assert l.text[..l.off] + l.text[l.off..] == l.text;
    }
  }

  /** Keys with codes from 32 to 126. */
  predicate Characters(keys: seq<byte>)
  {
    forall i :: 0 <= i < |keys| ==> 32 <= keys[i] <= 126
  }

  /** Characters typed after k left arrows stand k places before the old cursor, or at the start. */
  lemma TypeAfterLefts(l: Line, k: nat, keys: seq<byte>)
    requires WellFormed(l) && Characters(keys) && |l.text| + |keys| <= 159
    ensures var at := if k <= l.off then l.off - k else 0;
      PressAll(l, Lefts(k) + keys) == Line(l.text[..at] + keys + l.text[at..], at + |keys|)
  {
    hide Press, PressAll;
    PressAllAppend(l, Lefts(k), keys);
    LeftsMove(l, k);
    TypeText(PressAll(l, Lefts(k)), keys);
  }

  /** Characters typed after k right arrows stand k places behind it, or at the end. */
  lemma TypeAfterRights(l: Line, k: nat, keys: seq<byte>)
    requires WellFormed(l) && Characters(keys) && |l.text| + |keys| <= 159
    ensures var at := if l.off + k <= |l.text| then l.off + k else |l.text|;
      PressAll(l, Rights(k) + keys) == Line(l.text[..at] + keys + l.text[at..], at + |keys|)
  {
    hide Press, PressAll;
    PressAllAppend(l, Rights(k), keys);
    RightsMove(l, k);
    TypeText(PressAll(l, Rights(k)), keys);
  }

  /** The keys a, b, left arrow, x give "axb" with the cursor before the b. */
  lemma TypeExample()
    ensures PressAll(Line([], 0), [97, 98] + Lefts(1) + [120]) == Line([97, 120, 98], 2)
  {
    hide Press, PressAll;
    var l := Line([], 0);
    TypeText(l, [97, 98]);
    var m := Line([97, 98], 2);
    assert PressAll(l, [97, 98]) == m;
    assert [97, 98] + Lefts(1) + [120] == [97, 98] + (Lefts(1) + [120]);
    PressAllAppend(l, [97, 98], Lefts(1) + [120]);
    TypeAfterLefts(m, 1, [120]);
  }

  /** A full line of 159 characters takes no more; every other key that is neither an arrow nor
      backspace does nothing at all. */
  lemma PressIgnored(l: Line, key: byte)
    requires WellFormed(l)
    requires if 32 <= key <= 126 then |l.text| == 159 else key != 8 && key != KEY_L_ARROW && key != KEY_R_ARROW
    ensures Press(l, key) == l
  {
  }

  /** The arrow keys move over the text and give back the cursor. */
  lemma ArrowsUndo(l: Line)
    requires WellFormed(l)
    ensures l.off > 0 ==> Press(Press(l, KEY_L_ARROW), KEY_R_ARROW) == l
    ensures l.off < |l.text| ==> Press(Press(l, KEY_R_ARROW), KEY_L_ARROW) == l
  {
  }

  /** The first len characters of the buffer are printable and stand on the screen from start on. */
  predicate Shown(b: seq<byte>, scr: seq<u16>, start: nat, len: nat)
    requires len <= |b| && start + len <= |scr|
  {
    forall i :: 0 <= i < len ==> IsPrint(b[i]) && scr[start + i] == Cell(b[i])
  }

  lemma InsertedText(b: seq<byte>, scr: seq<u16>, b': seq<byte>, scr': seq<u16>,
                     start: nat, len: nat, off: nat, data: byte)
    requires off <= len < |b| == |b'| && start + len < |scr| == |scr'| && Shown(b, scr, start, len)
    requires IsPrint(data) && b'[off] == data && scr'[start + off] == Cell(data)
    requires forall k :: 0 <= k < off ==> b'[k] == b[k]
    requires forall k :: off < k <= len ==> b'[k] == b[k - 1] && scr'[start + k] == Cell(b'[k])
    requires forall k :: 0 <= k < |scr| && !(start + off <= k <= start + len) ==> scr'[k] == scr[k]
    ensures Shown(b', scr', start, len + 1)
    ensures b'[..len + 1] == b[..len][..off] + [data] + b[..len][off..]
  {
  }

  lemma DeletedShown(b: seq<byte>, scr: seq<u16>, b': seq<byte>, scr': seq<u16>, start: nat, len: nat, off: nat)
    requires 0 < off <= len < |b| == |b'| && start + len <= |scr| == |scr'| && Shown(b, scr, start, len)
    requires forall k :: 0 <= k < off - 1 ==> b'[k] == b[k] && scr'[start + k] == scr[start + k]
    requires forall k :: off - 1 <= k < len - 1 ==> b'[k] == b[k + 1] && scr'[start + k] == Cell(b'[k])
    ensures Shown(b', scr', start, len - 1)
    ensures b'[..len - 1] == b[..len][..off - 1] + b[..len][off..]
  {
    hide Cell;
    DeletedText(b[..len], b'[..len - 1], off);
  }

  lemma DeletedText(a: seq<byte>, b: seq<byte>, off: nat)
    requires 0 < off <= |a| && |b| == |a| - 1
    requires forall k :: 0 <= k < off - 1 ==> b[k] == a[k]
    requires forall k :: off - 1 <= k < |b| ==> b[k] == a[k + 1]
    ensures b == a[..off - 1] + a[off..]
  {
  }

  // ----- the editor -----

  class Shell {
    const screen: array<u16>
    const buf: array<byte>
    var cursor: nat
    var start: nat
    var off: nat
    var len: nat

    /** An empty command at the hardware cursor, with room for a whole command on the screen. */
    constructor (screen: array<u16>, cursor: nat)
      requires screen.Length == CELLS && cursor + CMDLEN <= CELLS
      ensures Valid() && Value() == Line([], 0)
      ensures this.screen == screen && start == cursor && fresh(buf)
    {
      this.screen := screen;
      this.buf := new byte[CMDLEN](_ => 0);
      this.cursor := cursor;
      start := cursor;
      off := 0;
      len := 0;
    }

    ghost predicate Valid()
      reads this, buf, screen
    {
      && screen.Length == CELLS && buf.Length == CMDLEN && buf as object != screen
      && start + CMDLEN <= CELLS
      && off <= len < CMDLEN
      && Shown(buf[..], screen[..], start, len)
      && cursor == start + off
    }

    ghost function Value(): Line
      requires Valid()
      reads this, buf, screen
    {
      Line(buf[..len], off)
    }

    /** `vga_putchar` */
    method Putchar(at: nat, c: byte)
      requires at < screen.Length
      modifies screen
      ensures screen[..] == old(screen[..])[at := Cell(c)]
    {
      screen[at] := Cell(c);
    }

    /** `vga_set_cursor(vga_scroll(at))`: on the screen nothing scrolls. */
    method MoveCursor(at: nat)
      requires at < CELLS
      modifies this`cursor
      ensures cursor == at
    {
      cursor := at;
    }

    /** Move the text from the cursor on one place to the right, in the buffer and on the screen. */
    method ShiftRight()
      requires Valid() && len < CMDLEN - 1
      modifies buf, screen
      ensures forall k :: 0 <= k <= off && k < len ==> buf[k] == old(buf[k])
      ensures forall k :: off < k <= len ==> buf[k] == old(buf[k - 1]) && screen[start + k] == Cell(buf[k])
      ensures forall k :: 0 <= k < CELLS && !(start + off < k <= start + len) ==> screen[k] == old(screen[k])
    {
      var i := len;
      while i > off
        invariant off <= i <= len
        invariant forall k :: 0 <= k <= i && k < len ==> buf[k] == old(buf[k])
        invariant forall k :: i < k <= len ==> buf[k] == old(buf[k - 1]) && screen[start + k] == Cell(buf[k])
        invariant forall k :: 0 <= k < CELLS && !(start + i < k <= start + len) ==> screen[k] == old(screen[k])
      {
        Putchar(start + i, buf[i - 1]);
        buf[i] := buf[i - 1];
        i := i - 1;
      }
    }

    method Insert(data: byte)
      requires Valid() && IsPrint(data) && len < CMDLEN - 1
      modifies this`off, this`len, this`cursor, buf, screen
      ensures Valid() && Value() == Press(old(Value()), data)
      ensures forall k :: 0 <= k < CELLS && !(start <= k < start + CMDLEN) ==> screen[k] == old(screen[k])
    {
      ghost var b, scr := buf[..], screen[..];
      ShiftRight();
      Place(data);
      InsertedText(b, scr, buf[..], screen[..], start, len, off, data);
      hide Shown;
      MoveCursor(cursor + 1);
      off := off + 1;
      len := len + 1;
    }

    /** Put a character at the cursor, in the buffer and on the screen. */
    method Place(data: byte)
      requires screen.Length == CELLS && buf.Length == CMDLEN && off < CMDLEN && start + off < CELLS
      requires buf as object != screen
      modifies buf, screen
      ensures buf[..] == old(buf[..])[off := data]
      ensures screen[..] == old(screen[..])[start + off := Cell(data)]
    {
      buf[off] := data;
      Putchar(start + off, data);
    }

    /** Move the text behind the cursor one place to the left, over the character before it. */
    method ShiftLeft()
      requires Valid() && off > 0
      modifies buf, screen
      ensures forall k :: 0 <= k < off - 1 ==> buf[k] == old(buf[k])
      ensures forall k :: off - 1 <= k < len - 1 ==> buf[k] == old(buf[k + 1]) && screen[start + k] == Cell(buf[k])
      ensures forall k :: 0 <= k < CELLS && !(start + off - 1 <= k < start + len) ==> screen[k] == old(screen[k])
    {
      var i := off - 1;
      while i < len
        invariant off - 1 <= i <= len
        invariant forall k :: 0 <= k < off - 1 || i <= k < CMDLEN ==> buf[k] == old(buf[k])
        invariant forall k :: off - 1 <= k < i ==> buf[k] == old(buf[k + 1]) && screen[start + k] == Cell(buf[k])
        invariant forall k :: 0 <= k < CELLS && !(start + off - 1 <= k < start + i) ==> screen[k] == old(screen[k])
      {
        Putchar(start + i, buf[i + 1]);
        buf[i] := buf[i + 1];
        i := i + 1;
      }
    }

    method Delete()
      requires Valid() && off > 0
      modifies this`off, this`len, this`cursor, buf, screen
      ensures Valid() && Value() == Press(old(Value()), BACKSPACE)
      ensures screen[start + len] == Cell(SPACE)
      ensures forall k :: 0 <= k < CELLS && !(start <= k < start + CMDLEN) ==> screen[k] == old(screen[k])
    {
      ghost var b, scr := buf[..], screen[..];
      ShiftLeft();
      Putchar(start + len - 1, SPACE);
      DeletedShown(b, scr, buf[..], screen[..], start, len, off);
      hide Shown;
      MoveCursor(cursor - 1);
      off := off - 1;
      len := len - 1;
    }

    /** One turn of the loop of `shell` for a key other than the newline. */
    method Key(data: byte)
      requires Valid()
      modifies this`off, this`len, this`cursor, buf, screen
      ensures Valid() && Value() == Press(old(Value()), data)
      ensures data == 145 ==> len == old(len) && off == (if old(off) > 0 then old(off) - 1 else 0)
      ensures data == 146 ==> len == old(len) && off == (if old(off) < len then old(off) + 1 else len)
      ensures forall k :: 0 <= k < CELLS && !(start <= k < start + CMDLEN) ==> screen[k] == old(screen[k])
    {
      if IsPrint(data) && len < CMDLEN - 1 {
        Insert(data);
      } else if data == KEY_L_ARROW && off > 0 {
        off := off - 1;
        MoveCursor(cursor - 1);
      } else if data == KEY_R_ARROW && off < len {
        off := off + 1;
        MoveCursor(cursor + 1);
      } else if data == BACKSPACE && off > 0 {
        Delete();
      }
    }

    /** The keys of one command, up to a newline if there is one: the finished command is the
        edited text and a zero. */
    method Command(keys: seq<byte>) returns (n: nat, done: bool)
      requires Valid() && len == 0
      modifies this`off, this`len, this`cursor, buf, screen
      ensures Valid() && n <= |keys| && 10 !in keys[..n]
      ensures Value() == PressAll(Line([], 0), keys[..n])
      ensures done <==> 10 in keys
      ensures done ==> n < |keys| && keys[n] == 10 && buf[..len + 1] == Value().text + [0]
      ensures !done ==> n == |keys|
      ensures forall k :: 0 <= k < CELLS && !(start <= k < start + CMDLEN) ==> screen[k] == old(screen[k])
    {
      n := 0;
      done := false;
      while n < |keys|
        invariant n <= |keys| && Valid() && NEWLINE !in keys[..n]
        invariant Value() == PressAll(Line([], 0), keys[..n])
        invariant forall k :: 0 <= k < CELLS && !(start <= k < start + CMDLEN) ==> screen[k] == old(screen[k])
      {
        if keys[n] == NEWLINE {
          ghost var t := buf[..len];
          buf[len] := 0;
          assert buf[..len] == t && buf[..len + 1] == buf[..len] + [0];
          done := true;
          return;
        }
        assert keys[..n + 1] == keys[..n] + [keys[n]];
        PressAppend(Line([], 0), keys[..n], keys[n]);
        Key(keys[n]);
        n := n + 1;
      }
      assert keys[..n] == keys;
    }
  }
}
