// The PS/2 keyboard: the scancode machine, the ring between the interrupt handler and the
// reader, and the reader's sleep, interleaved with interrupts instruction by instruction.

module Keyboard {
  import opened Common

  const LSHIFT: Byte := 0x2A
  const RSHIFT: Byte := 0x36
  const CAPS: Byte := 0x3A
  const LCTRL: Byte := 0x1D
  const LALT: Byte := 0x38
  const EXT: Byte := 0xE0
  const BUF_SIZE := 256

  // ---------------------------------------------------------------- the layout

  // US QWERTY by scancode; the entries past the last one shown are zero.
  const PLAIN: string :=
    "\0\U{1B}" + "1234567890-=" + "\U{8}\t" + "qwertyuiop" + "[]" + "\n\0" + "asdfghjkl" + ";'`" + "\0\\"
    + "zxcvbnm" + ",./" + "\0*\0 "
  const SHIFTED: string :=
    "\0\U{1B}" + "!@#$%^&*()_+" + "\U{8}\t" + "QWERTYUIOP" + "{}" + "\n\0" + "ASDFGHJKL" + ":\"~" + "\0|"
    + "ZXCVBNM" + "<>?" + "\0*\0 "

  function Entry(table: string, scancode: Byte): char {
    if scancode < |table| then table[scancode] else '\0'
  }

  predicate IsLetter(scancode: Byte) {
    || 0x10 <= scancode <= 0x19
    || 0x1E <= scancode <= 0x26
    || 0x2C <= scancode <= 0x32
  }

  predicate IsModifier(scancode: Byte) {
    scancode == LSHIFT || scancode == RSHIFT || scancode == CAPS || scancode == LCTRL || scancode == LALT
  }

  // scancode_to_ascii, from the state of the modifiers.
  function Lookup(shift: bool, caps: bool, scancode: Byte): char {
    if scancode >= 128 then '\0'
    else if IsLetter(scancode) then Entry(if shift != caps then SHIFTED else PLAIN, scancode)
    else Entry(if shift then SHIFTED else PLAIN, scancode)
  }

  function Capital(c: char): char {
    if 'a' <= c <= 'z' then c - 'a' + 'A' else c
  }

  // The rows of the layout, in both tables.
  lemma LetterRows()
    ensures |PLAIN| == |SHIFTED| == 0x3A
    ensures PLAIN[0x10..0x1A] == "qwertyuiop" && SHIFTED[0x10..0x1A] == "QWERTYUIOP"
    ensures PLAIN[0x1E..0x27] == "asdfghjkl" && SHIFTED[0x1E..0x27] == "ASDFGHJKL"
    ensures PLAIN[0x2C..0x33] == "zxcvbnm" && SHIFTED[0x2C..0x33] == "ZXCVBNM"
  {
  }

  lemma OtherRows()
    ensures PLAIN[0x02..0x0E] == "1234567890-=" && PLAIN[0x0E..0x10] == "\U{8}\t"
    ensures PLAIN[0x1A..0x1C] == "[]" && PLAIN[0x27..0x2A] == ";'`" && PLAIN[0x33..0x36] == ",./"
    ensures |PLAIN| == 0x3A
  {
  }

  lemma OtherShiftedRows()
    ensures SHIFTED[0x02..0x0E] == "!@#$%^&*()_+" && SHIFTED[0x0E..0x10] == "\U{8}\t"
    ensures SHIFTED[0x1A..0x1C] == "{}" && SHIFTED[0x27..0x2A] == ":\"~" && SHIFTED[0x33..0x36] == "<>?"
    ensures |SHIFTED| == 0x3A
  {
  }

  lemma SingleKeys()
    ensures |PLAIN| == |SHIFTED| == 0x3A
    ensures PLAIN[0x01..0x02] == SHIFTED[0x01..0x02] == "\U{1B}"
    ensures PLAIN[0x1C..0x1D] == SHIFTED[0x1C..0x1D] == "\n"
    ensures PLAIN[0x2B..0x2C] == "\\" && SHIFTED[0x2B..0x2C] == "|"
    ensures PLAIN[0x37..0x38] == SHIFTED[0x37..0x38] == "*" && PLAIN[0x39..0x3A] == SHIFTED[0x39..0x3A] == " "
  {
    assert PLAIN[0x01] == SHIFTED[0x01] == '\U{1B}' && PLAIN[0x1C] == SHIFTED[0x1C] == '\n';
    assert PLAIN[0x2B] == '\\' && SHIFTED[0x2B] == '|';
    assert PLAIN[0x37] == SHIFTED[0x37] == '*' && PLAIN[0x39] == SHIFTED[0x39] == ' ';
  }

  lemma OnlyLettersAreLetters(scancode: Byte)
    ensures 'a' <= Entry(PLAIN, scancode) <= 'z' ==> IsLetter(scancode)
  {
  }

  // A row of small letters and the same row of capitals.
  lemma LetterRow(plain: string, shifted: string, i: nat)
    requires || (plain == "qwertyuiop" && shifted == "QWERTYUIOP")
             || (plain == "asdfghjkl" && shifted == "ASDFGHJKL") || (plain == "zxcvbnm" && shifted == "ZXCVBNM")
    requires i < |plain|
    ensures 'a' <= plain[i] <= 'z' && shifted[i] == Capital(plain[i])
  {
  }

  lemma CapitalEntry(scancode: Byte)
    requires IsLetter(scancode)
    ensures 'a' <= Entry(PLAIN, scancode) <= 'z' && Entry(SHIFTED, scancode) == Capital(Entry(PLAIN, scancode))
  {
    hide Capital;
    LetterRows();
    if scancode < 0x1A {
      LetterRow(PLAIN[0x10..0x1A], SHIFTED[0x10..0x1A], scancode - 0x10);
    } else if scancode < 0x27 {
      LetterRow(PLAIN[0x1E..0x27], SHIFTED[0x1E..0x27], scancode - 0x1E);
    } else {
      LetterRow(PLAIN[0x2C..0x33], SHIFTED[0x2C..0x33], scancode - 0x2C);
    }
  }

  // The letter keys are exactly the ones whose plain entry is a letter, and shift XOR Caps
  // Lock gives its capital.
  lemma LettersAreCapitalised(shift: bool, caps: bool, scancode: Byte)
    ensures IsLetter(scancode) <==> 'a' <= Entry(PLAIN, scancode) <= 'z'
    ensures IsLetter(scancode) ==>
              Lookup(shift, caps, scancode)
              == if shift != caps then Capital(Entry(PLAIN, scancode)) else Entry(PLAIN, scancode)
    ensures !IsLetter(scancode) ==> Lookup(shift, caps, scancode) == Lookup(shift, !caps, scancode)
  {
    hide Entry, Capital;
    OnlyLettersAreLetters(scancode);
    if IsLetter(scancode) {
      CapitalEntry(scancode);
    }
  }

  // ---------------------------------------------------------------- the scancode machine

  datatype Modifiers = Modifiers(left: bool, right: bool, caps: bool, extended: bool)

  const NO_MODIFIERS := Modifiers(false, false, false, false)

  // What one byte does to the flags of the handler.
  function AfterByte(m: Modifiers, b: Byte): Modifiers {
    if b == EXT then m.(extended := true)
    else if b >= 0x80 then
      m.(left := m.left && b - 0x80 != LSHIFT, right := m.right && b - 0x80 != RSHIFT, extended := false)
    else if m.extended then m.(extended := false)
    else if b == LSHIFT then m.(left := true)
    else if b == RSHIFT then m.(right := true)
    else if b == CAPS then m.(caps := !m.caps)
    else m
  }

  // The character that one byte types, if any.
  function Types(m: Modifiers, b: Byte): Option<char> {
    if b >= 0x80 || m.extended || IsModifier(b) then None
    else
      var c := Lookup(m.left || m.right, m.caps, b);
      if c == '\0' then None else Some(c)
  }

  // The keys from `first` on type these characters.
  ghost predicate Row(m: Modifiers, first: nat, chars: string) {
    forall b: Byte :: first <= b < first + |chars| ==> Types(m, b) == Some(chars[b - first])
  }

  // The keys of one row of a table: no letters, or letters only.
  lemma RowTypes(m: Modifiers, first: nat, n: nat, letters: bool)
    requires !m.extended && first + n <= |PLAIN| == |SHIFTED| == 0x3A
    requires forall b: Byte :: first <= b < first + n ==> IsLetter(b) == letters && !IsModifier(b)
    requires '\0' !in PLAIN[first..first + n] && '\0' !in SHIFTED[first..first + n]
    ensures var second := if letters then (m.left || m.right) != m.caps else m.left || m.right;
            Row(m, first, if second then SHIFTED[first..first + n] else PLAIN[first..first + n])
  {
    hide IsLetter, IsModifier;
    var second := if letters then (m.left || m.right) != m.caps else m.left || m.right;
    var table := if second then SHIFTED else PLAIN;
    forall b: Byte | first <= b < first + n ensures Types(m, b) == Some(table[first..first + n][b - first]) {
      assert table[first..first + n][b - first] == table[b];
    }
  }

  // The US layout, row by row: shift takes the second column, for letters shift XOR Caps Lock.
  lemma LetterLayout(m: Modifiers)
    requires !m.extended
    ensures var capital := (m.left || m.right) != m.caps;
            && Row(m, 0x10, if capital then "QWERTYUIOP" else "qwertyuiop")
            && Row(m, 0x1E, if capital then "ASDFGHJKL" else "asdfghjkl")
            && Row(m, 0x2C, if capital then "ZXCVBNM" else "zxcvbnm")
  {
    hide Row;
    LetterRows();
    RowTypes(m, 0x10, 10, true);
    RowTypes(m, 0x1E, 9, true);
    RowTypes(m, 0x2C, 7, true);
  }

  lemma OtherLayout(m: Modifiers)
    requires !m.extended
    ensures var shift := m.left || m.right;
            && Row(m, 0x02, if shift then "!@#$%^&*()_+" else "1234567890-=")
            && Row(m, 0x1A, if shift then "{}" else "[]")
            && Row(m, 0x27, if shift then ":\"~" else ";'`")
            && Row(m, 0x33, if shift then "<>?" else ",./")
            && Row(m, 0x0E, "\U{8}\t")
  {
    hide Row;
    OtherRows();
    OtherShiftedRows();
    RowTypes(m, 0x02, 12, false);
    RowTypes(m, 0x0E, 2, false);
    RowTypes(m, 0x1A, 2, false);
    RowTypes(m, 0x27, 3, false);
    RowTypes(m, 0x33, 3, false);
  }

  lemma SingleKeyLayout(m: Modifiers)
    requires !m.extended
    ensures var shift := m.left || m.right;
            && Row(m, 0x01, "\U{1B}") && Row(m, 0x1C, "\n")
            && Row(m, 0x2B, if shift then "|" else "\\")
            && Row(m, 0x37, "*") && Row(m, 0x39, " ")
  {
    hide Row;
    SingleKeys();
    RowTypes(m, 0x01, 1, false);
    RowTypes(m, 0x1C, 1, false);
    RowTypes(m, 0x2B, 1, false);
    RowTypes(m, 0x37, 1, false);
    RowTypes(m, 0x39, 1, false);
  }

  // No other byte types anything, and none does after the prefix.
  lemma OtherKeys(m: Modifiers, b: Byte)
    requires m.extended || b in {0x00, 0x1D, 0x2A, 0x36, 0x38} || b >= 0x3A
    ensures Types(m, b) == None
  {
  }

  function AfterBytes(bytes: seq<Byte>): Modifiers {
    if bytes == [] then NO_MODIFIERS
    else AfterByte(AfterBytes(bytes[..|bytes| - 1]), bytes[|bytes| - 1])
  }

  // ---------------------------------------------------------------- the same, as history

  // Byte i is a press of `code` that no 0xE0 precedes.
  ghost predicate Pressed(bytes: seq<Byte>, i: nat, code: Byte)
    requires i < |bytes|
  {
    bytes[i] == code && (i == 0 || bytes[i - 1] != 0xE0)
  }

  // The key was pressed and has not been released since.
  ghost predicate Held(bytes: seq<Byte>, code: Byte) {
    exists i: nat :: i < |bytes| && Pressed(bytes, i, code) && forall j :: i < j < |bytes| ==> bytes[j] != code + 0x80
  }

  ghost function Presses(bytes: seq<Byte>, code: Byte): nat {
    if bytes == [] then 0
    else Presses(bytes[..|bytes| - 1], code) + if Pressed(bytes, |bytes| - 1, code) then 1 else 0
  }

  ghost predicate JustExtended(bytes: seq<Byte>) {
    bytes != [] && bytes[|bytes| - 1] == 0xE0
  }

  lemma HeldStep(bytes: seq<Byte>, b: Byte, code: Byte)
    requires code < 0x60
    ensures Held(bytes + [b], code)
       <==> b != code + 0x80 && ((b == code && !JustExtended(bytes)) || Held(bytes, code))
  {
    var all := bytes + [b];
    assert all[|bytes|] == b && (bytes != [] ==> all[|bytes| - 1] == bytes[|bytes| - 1]);
    if Held(all, code) {
      var i: nat :| i < |all| && Pressed(all, i, code) && forall j :: i < j < |all| ==> all[j] != code + 0x80;
      if i < |bytes| {
        assert Pressed(bytes, i, code);
        assert forall j :: i < j < |bytes| ==> bytes[j] == all[j];
      }
    }
    if b == code && !JustExtended(bytes) {
      assert Pressed(all, |bytes|, code);
    }
    if b != code + 0x80 && Held(bytes, code) {
      var i: nat :| i < |bytes| && Pressed(bytes, i, code) && forall j :: i < j < |bytes| ==> bytes[j] != code + 0x80;
      assert Pressed(all, i, code);
      assert forall j :: i < j < |bytes| ==> all[j] == bytes[j];
      assert forall j :: i < j < |all| ==> all[j] != code + 0x80;
    }
  }

  // After any bytes whatever, the flags say exactly what the history says.
  lemma {:induction false} FlagsAreHistory(bytes: seq<Byte>)
    ensures var m := AfterBytes(bytes);
            && m.extended == JustExtended(bytes)
            && m.left == Held(bytes, 0x2A) && m.right == Held(bytes, 0x36)
            && m.caps == (Presses(bytes, 0x3A) % 2 == 1)
  {
    if bytes != [] {
      var front, b := bytes[..|bytes| - 1], bytes[|bytes| - 1];
      assert bytes == front + [b];
      FlagsAreHistory(front);
      HeldStep(front, b, LSHIFT);
      HeldStep(front, b, RSHIFT);
    }
  }

  // The characters typed, key press by key press.
  function Typed(bytes: seq<Byte>): seq<char> {
    if bytes == [] then []
    else
      var front := bytes[..|bytes| - 1];
      Typed(front) + match Types(AfterBytes(front), bytes[|bytes| - 1]) case Some(c) => [c] case None => []
  }

  // A byte types a character exactly when it presses an unprefixed printing key, and the
  // character is the table's, for the shift and Caps Lock of the history.
  lemma TypedByHistory(front: seq<Byte>, b: Byte)
    ensures var shift, caps := Held(front, 0x2A) || Held(front, 0x36), Presses(front, 0x3A) % 2 == 1;
            Typed(front + [b]) == Typed(front)
              + if b < 0x80 && !JustExtended(front) && !IsModifier(b) && Lookup(shift, caps, b) != '\0'
                then [Lookup(shift, caps, b)] else []
  {
    FlagsAreHistory(front);
    assert (front + [b])[..|front|] == front;
  }

  lemma TypedStep(front: seq<Byte>, b: Byte)
    ensures Typed(front + [b]) == Typed(front) + match Types(AfterBytes(front), b) case Some(c) => [c] case None => []
    ensures AfterBytes(front + [b]) == AfterByte(AfterBytes(front), b)
  {
    assert (front + [b])[..|front|] == front;
  }

  // The characters that were kept.
  function Select(chars: seq<char>, kept: seq<bool>): seq<char>
    requires |chars| == |kept|
  {
    if chars == [] then []
    else
      var n := |chars| - 1;
      Select(chars[..n], kept[..n]) + if kept[n] then [chars[n]] else []
  }

  lemma SelectStep(chars: seq<char>, kept: seq<bool>, c: char, k: bool)
    requires |chars| == |kept|
    ensures Select(chars + [c], kept + [k]) == Select(chars, kept) + if k then [c] else []
  {
    assert (chars + [c])[..|chars|] == chars && (kept + [k])[..|kept|] == kept;
  }

  lemma {:induction false} SelectAll(chars: seq<char>, kept: seq<bool>)
    requires |chars| == |kept| && forall i :: 0 <= i < |kept| ==> kept[i]
    ensures Select(chars, kept) == chars
    decreases |chars|
  {
    if chars != [] {
      var n := |chars| - 1;
      SelectAll(chars[..n], kept[..n]);
      assert chars == chars[..n] + [chars[n]];
    }
  }

  // What has been accepted of what was typed, when one more byte comes: a character that finds
  // 255 others waiting is dropped.
  ghost predicate Recorded(seen: seq<Byte>, kept: seq<bool>, accepted: seq<char>) {
    |kept| == |Typed(seen)| && accepted == Select(Typed(seen), kept)
  }

  lemma RecordedStep(seen: seq<Byte>, kept: seq<bool>, accepted: seq<char>, b: Byte, roomy: bool)
    requires Recorded(seen, kept, accepted)
    ensures match Types(AfterBytes(seen), b)
            case Some(c) => Recorded(seen + [b], kept + [roomy], if roomy then accepted + [c] else accepted)
            case None => Recorded(seen + [b], kept, accepted)
  {
    hide Typed, Types, AfterBytes, AfterByte;
    TypedStep(seen, b);
    match Types(AfterBytes(seen), b) {
      case Some(c) =>
        SelectStep(Typed(seen), kept, c, roomy);
        assert accepted + [] == accepted;
      case None => assert Typed(seen + [b]) == Typed(seen);
    }
  }

  // ---------------------------------------------------------------- the ring

  datatype Ring = Ring(buf: seq<char>, r: nat, w: nat)

  predicate RingOk(q: Ring) {
    |q.buf| == BUF_SIZE && q.r < BUF_SIZE && q.w < BUF_SIZE
  }

  function Succ(p: nat): nat {
    (p + 1) % 256
  }

  // What is waiting, oldest first.
  function Waiting(q: Ring): (s: seq<char>)
    requires RingOk(q)
    ensures |s| <= 255 && (s == [] <==> q.r == q.w)
  {
    if q.r <= q.w then q.buf[q.r..q.w] else q.buf[q.r..] + q.buf[..q.w]
  }

  // kbd_buffer_push: a character that finds no room is dropped.
  function Push(q: Ring, c: char): (p: Ring)
    requires RingOk(q)
    ensures RingOk(p)
  {
    if Succ(q.w) == q.r then q else Ring(q.buf[q.w := c], q.r, Succ(q.w))
  }

  function Pop(q: Ring): (p: Ring)
    requires RingOk(q)
    ensures RingOk(p)
  {
    Ring(q.buf, Succ(q.r), q.w)
  }

  lemma PushAppends(q: Ring, c: char)
    requires RingOk(q)
    ensures Succ(q.w) == q.r <==> |Waiting(q)| == 255
    ensures Waiting(Push(q, c)) == if |Waiting(q)| < 255 then Waiting(q) + [c] else Waiting(q)
  {
    var p := Push(q, c);
    if Succ(q.w) != q.r {
      if q.r <= q.w && q.w == 255 {
        assert Waiting(p) == Waiting(q) + [c];
      } else if q.r <= q.w {
        assert Waiting(p) == Waiting(q) + [c];
      } else {
        assert q.buf[q.r..] == p.buf[q.r..];
      }
    }
  }

  lemma PopRemoves(q: Ring)
    requires RingOk(q) && Waiting(q) != []
    ensures q.buf[q.r] == Waiting(q)[0] && Waiting(Pop(q)) == Waiting(q)[1..]
  {
    if q.r < q.w {
      WithoutFirst(q.buf, q.r, q.w, []);
      assert Succ(q.r) == q.r + 1;
    } else {
      WithoutFirst(q.buf, q.r, 256, q.buf[..q.w]);
      assert Succ(q.r) == if q.r < 255 then q.r + 1 else 0;
    }
  }

  lemma WithoutFirst(s: seq<char>, i: nat, j: nat, t: seq<char>)
    requires i < j <= |s|
    ensures (s[i..j] + t)[0] == s[i] && (s[i..j] + t)[1..] == s[i + 1..j] + t
    ensures t == [] ==> s[i..j] + t == s[i..j]
    ensures j == |s| ==> s[i..j] == s[i..] && s[i + 1..j] == s[i + 1..] && (i + 1 == j ==> s[i + 1..j] + t == t)
  {
  }

  // ---------------------------------------------------------------- the driver

  class Driver {
    const buffer: array<char>
    var readPos: nat
    var writePos: nat
    var leftShift: bool
    var rightShift: bool
    var capsLock: bool
    var extended: bool

    // What the handler has seen, what it put into the ring, and what the reader took out.
    ghost var seen: seq<Byte>
    ghost var accepted: seq<char>
    ghost var taken: seq<char>
    ghost var kept: seq<bool>        // which of the typed characters it put there

    ghost function Contents(): Ring
      reads this, buffer
    {
      Ring(buffer[..], readPos, writePos)
    }

    ghost function Flags(): Modifiers
      reads this
    {
      Modifiers(leftShift, rightShift, capsLock, extended)
    }

    ghost predicate Valid()
      reads this, buffer
    {
      && RingOk(Contents())
      && accepted == taken + Waiting(Contents())
      && Flags() == AfterBytes(seen) && Recorded(seen, kept, accepted)
    }

    // keyboard_init
    constructor ()
      ensures Valid() && fresh(buffer) && seen == [] && accepted == [] && taken == [] && kept == []
    {
      buffer := new char[BUF_SIZE](_ => '\0');
      readPos, writePos := 0, 0;
      leftShift, rightShift, capsLock, extended := false, false, false, false;
      seen, accepted, taken, kept := [], [], [], [];
    }

    method BufferPush(c: char)
      requires RingOk(Contents())
      modifies this`writePos, buffer
      ensures Contents() == Push(old(Contents()), c)
    {
      var next := (writePos + 1) % BUF_SIZE;
      if next == readPos {
        return;
      }
      buffer[writePos] := c;
      writePos := next;
    }

    method ScancodeToAscii(scancode: Byte) returns (c: char)
      ensures c == Lookup(leftShift || rightShift, capsLock, scancode)
    {
      var table := PLAIN;
      var shift := leftShift || rightShift;
      if scancode >= 128 {
        return '\0';
      }
      if IsLetter(scancode) {
        if shift != capsLock {
          table := SHIFTED;
        }
      } else if shift {
        table := SHIFTED;
      }
      c := Entry(table, scancode);
    }

    // The end of keyboard_irq_handler: an unprefixed press.
    method PressKey(byte: Byte)
      requires RingOk(Contents()) && byte < 0x80 && !extended
      requires taken + Waiting(Contents()) == accepted
      modifies this`leftShift, this`rightShift, this`capsLock, this`accepted, this`writePos, buffer
      ensures Flags() == AfterByte(old(Flags()), byte)
      ensures RingOk(Contents()) && taken + Waiting(Contents()) == accepted
      ensures accepted == match Types(old(Flags()), byte)
                          case Some(c) => if old(|Waiting(Contents())|) < 255 then old(accepted) + [c]
                                          else old(accepted)
                          case None => old(accepted)
      ensures Contents() == match Types(old(Flags()), byte)
                            case Some(c) => Push(old(Contents()), c)
                            case None => old(Contents())
    {
      hide Waiting, Push, Lookup, Entry, RingOk;
      if byte == LSHIFT {
        leftShift := true;
      } else if byte == RSHIFT {
        rightShift := true;
      } else if byte == CAPS {
        capsLock := !capsLock;
      } else if byte == LCTRL || byte == LALT {
      } else {
        var c := ScancodeToAscii(byte);
        if c != '\0' {
          PushAppends(Contents(), c);
          accepted := if |Waiting(Contents())| < 255 then accepted + [c] else accepted;
          BufferPush(c);
        }
      }
    }

    // keyboard_irq_handler, with the byte that the controller delivers.
    method IrqHandler(byte: Byte)
      requires Valid()
      modifies this, buffer
      ensures Valid() && seen == old(seen) + [byte] && taken == old(taken)
      ensures kept == if Types(old(Flags()), byte).Some? then old(kept) + [old(|Waiting(Contents())|) < 255]
                      else old(kept)
      ensures Contents() == match Types(old(Flags()), byte)
                            case Some(c) => Push(old(Contents()), c)
                            case None => old(Contents())
    {
      hide Waiting, Push, Lookup, Entry, AfterBytes, RingOk, Recorded;
      SeenStep(byte);
      RecordedStep(seen, kept, accepted, byte, |Waiting(Contents())| < 255);
      if Types(Flags(), byte).Some? {
        kept := kept + [|Waiting(Contents())| < 255];
      }
      seen := seen + [byte];
      if byte == EXT {
        extended := true;
        return;
      }
      if byte >= 0x80 {
        var code := byte - 0x80;
        if code == LSHIFT {
          leftShift := false;
        } else if code == RSHIFT {
          rightShift := false;
        }
        extended := false;
        return;
      }
      if extended {
        extended := false;
        return;
      }
      PressKey(byte);
    }

    lemma SeenStep(byte: Byte)
      requires Flags() == AfterBytes(seen)
      ensures AfterBytes(seen + [byte]) == AfterByte(Flags(), byte)
    {
      assert (seen + [byte])[..|seen|] == seen;
    }

    method HasKey() returns (has: bool)
      requires Valid()
      ensures has <==> Waiting(Contents()) != []
    {
      has := readPos != writePos;
    }

    // The two statements of keyboard_getchar between cli and sti, when a key is waiting.
    method TakeKey() returns (c: char)
      requires Valid() && Waiting(Contents()) != []
      modifies this`readPos, this`taken
      ensures Valid() && Contents() == Pop(old(Contents()))
      ensures taken == old(taken) + [c] && taken <= accepted
    {
      PopRemoves(Contents());
      c := buffer[readPos];
      readPos := (readPos + 1) % BUF_SIZE;
      taken := taken + [c];
    }
  }

  // ---------------------------------------------------------------- reader and interrupts

  // Where the reader is in keyboard_getchar.
  datatype Pc =
    | Cli          // about to disable interrupts
    | Test         // about to compare the positions
    | Read         // about to read the character
    | Advance      // about to move the read position
    | StiReturn    // about to enable interrupts and return
    | Return       // about to return
    | StiWait      // about to enable interrupts and sleep
    | Hlt          // about to halt
    | Halted       // asleep until an interrupt

  // `shadow`: interrupts are held off until the instruction after STI has run. `line`: bytes
  // that the controller holds. `got`: the character in the reader's register. `seen` and
  // `kept`: the bytes handled, and which of the characters they typed found room.
  datatype Machine = Machine(ring: Ring, flags: Modifiers, line: seq<Byte>, pc: Pc, interrupts: bool, shadow: bool,
                             got: char, accepted: seq<char>, returned: seq<char>, seen: seq<Byte>, kept: seq<bool>)

  datatype Event = KeyByte(byte: Byte) | Interrupt | Reader

  ghost predicate Interruptible(s: Machine) {
    s.line != [] && s.interrupts && !s.shadow
  }

  ghost function Handle(s: Machine): Machine
    requires RingOk(s.ring) && s.line != []
  {
    var typed := Types(s.flags, s.line[0]);
    var roomy := |Waiting(s.ring)| < 255;
    s.(flags := AfterByte(s.flags, s.line[0]),
       line := s.line[1..],
       ring := if typed.Some? then Push(s.ring, typed.value) else s.ring,
       accepted := if typed.Some? && roomy then s.accepted + [typed.value] else s.accepted,
       seen := s.seen + [s.line[0]],
       kept := if typed.Some? then s.kept + [roomy] else s.kept,
       pc := if s.pc == Halted then Cli else s.pc)
  }

  // One instruction of the reader. `delayed` tells whether STI takes effect after the next
  // instruction, as the processor does.
  ghost function Execute(s: Machine, delayed: bool): Machine
    requires RingOk(s.ring)
  {
    match s.pc
    case Cli => s.(interrupts := false, shadow := false, pc := Test)
    case Test => s.(pc := if s.ring.r != s.ring.w then Read else StiWait)
    case Read => s.(got := s.ring.buf[s.ring.r], pc := Advance)
    case Advance => s.(ring := Pop(s.ring), pc := StiReturn)
    case StiReturn => s.(interrupts := true, shadow := delayed, pc := Return)
    case Return => s.(returned := s.returned + [s.got], shadow := false, pc := Cli)
    case StiWait => s.(interrupts := true, shadow := delayed, pc := Hlt)
    case Hlt => s.(shadow := false, pc := Halted)
    case Halted => s
  }

  ghost function Happens(s: Machine, e: Event, delayed: bool): Machine
    requires RingOk(s.ring)
  {
    match e
    case KeyByte(b) => s.(line := s.line + [b])
    case Interrupt => if Interruptible(s) then Handle(s) else s
    case Reader => Execute(s, delayed)
  }

  // The character that has left the ring but not yet the function.
  ghost function InFlight(s: Machine): seq<char> {
    if s.pc == StiReturn || s.pc == Return then [s.got] else []
  }

  ghost predicate Safe(s: Machine) {
    && RingOk(s.ring)
    && s.accepted == s.returned + InFlight(s) + Waiting(s.ring)
    && s.flags == AfterBytes(s.seen) && Recorded(s.seen, s.kept, s.accepted)
    && (s.pc != Cli && s.pc != Return && s.pc != Hlt && s.pc != Halted ==> !s.interrupts)
    && (s.pc == Return || s.pc == Hlt ==> s.interrupts && s.shadow)
    && (s.pc == Read || s.pc == Advance ==> Waiting(s.ring) != [])
    && (s.pc == Advance ==> s.got == Waiting(s.ring)[0])
    && (s.pc == StiWait || s.pc == Hlt || s.pc == Halted ==> Waiting(s.ring) == [])
    && (s.pc == Halted ==> s.interrupts && !s.shadow)
  }

  lemma HandleRecords(s: Machine)
    requires Safe(s) && Interruptible(s)
    ensures var t := Handle(s); t.flags == AfterBytes(t.seen) && Recorded(t.seen, t.kept, t.accepted)
  {
    hide Waiting, Push, Types, AfterByte, AfterBytes, Recorded;
    RecordedStep(s.seen, s.kept, s.accepted, s.line[0], |Waiting(s.ring)| < 255);
    TypedStep(s.seen, s.line[0]);
  }

  lemma HandleIsSafe(s: Machine)
    requires Safe(s) && Interruptible(s)
    ensures Safe(Handle(s))
  {
    hide Waiting, Push, Types, AfterByte, AfterBytes, Recorded;
    HandleRecords(s);
    match Types(s.flags, s.line[0]) {
      case Some(c) => PushAppends(s.ring, c);
      case None =>
    }
  }

  lemma ReaderIsSafe(s: Machine)
    requires Safe(s)
    ensures Safe(Execute(s, true))
  {
    hide Waiting, Pop, AfterBytes, Recorded;
    if s.pc == Advance || s.pc == Read {
      PopRemoves(s.ring);
    }
  }

  lemma StepIsSafe(s: Machine, e: Event)
    requires Safe(s)
    ensures Safe(Happens(s, e, true))
  {
    hide Waiting, AfterBytes, Recorded, Handle, Execute;
    match e
    case KeyByte(b) =>
    case Interrupt =>
      if Interruptible(s) {
        HandleIsSafe(s);
      }
    case Reader => ReaderIsSafe(s);
  }

  ghost function Runs(s: Machine, es: seq<Event>, delayed: bool): (end: Machine)
    requires RingOk(s.ring)
    ensures RingOk(end.ring)
  {
    if es == [] then s else Happens(Runs(s, es[..|es| - 1], delayed), es[|es| - 1], delayed)
  }

  ghost predicate Started(s: Machine) {
    && RingOk(s.ring) && s.ring.r == s.ring.w && s.flags == NO_MODIFIERS && s.line == []
    && s.pc == Cli && s.accepted == [] && s.returned == [] && s.seen == [] && s.kept == []
  }

  // The bytes that the keyboard has sent.
  ghost function Sent(es: seq<Event>): seq<Byte> {
    if es == [] then []
    else Sent(es[..|es| - 1]) + match es[|es| - 1] case KeyByte(b) => [b] case _ => []
  }

  lemma {:induction false} RunIsSafe(s: Machine, es: seq<Event>)
    requires Started(s)
    ensures Safe(Runs(s, es, true)) && Runs(s, es, true).seen + Runs(s, es, true).line == Sent(es)
  {
    hide Safe, Handle, Execute;
    if es == [] {
      StartIsSafe(s);
    } else {
      RunIsSafe(s, es[..|es| - 1]);
      StepIsSafe(Runs(s, es[..|es| - 1], true), es[|es| - 1]);
      StepKeepsBytes(Runs(s, es[..|es| - 1], true), es[|es| - 1]);
    }
  }

  lemma StartIsSafe(s: Machine)
    requires Started(s)
    ensures Safe(s)
  {
    assert Waiting(s.ring) == [];
  }

  lemma StepKeepsBytes(s: Machine, e: Event)
    requires RingOk(s.ring)
    ensures var t := Happens(s, e, true);
            t.seen + t.line == s.seen + s.line + match e case KeyByte(b) => [b] case _ => []
  {
  }

  // In every interleaving the characters returned are those accepted, in order, short of the
  // ones in flight and in the ring; the accepted ones are those typed by the bytes that were
  // handled, short of the ones dropped; and a sleeping reader has an empty ring and wakes at
  // the next byte.
  lemma ReaderNeverMissesAKey(s: Machine, es: seq<Event>)
    requires Started(s)
    ensures var end := Runs(s, es, true);
            && end.returned <= end.accepted
            && end.accepted == end.returned + InFlight(end) + Waiting(end.ring)
            && end.seen + end.line == Sent(es)
            && |end.kept| == |Typed(end.seen)| && end.accepted == Select(Typed(end.seen), end.kept)
            && |Waiting(end.ring)| <= 255
            && (end.pc == Halted ==> Waiting(end.ring) == [])
            && (end.pc == Halted && end.line != [] ==> Interruptible(end) && Handle(end).pc == Cli)
  {
    RunIsSafe(s, es);
  }

  // With room for it, what is typed is kept.
  lemma StepKeeps(s: Machine, e: Event)
    requires RingOk(s.ring) && |Waiting(s.ring)| < 255
    ensures var t := Happens(s, e, true);
            |s.kept| <= |t.kept| && t.kept[..|s.kept|] == s.kept && forall i :: |s.kept| <= i < |t.kept| ==> t.kept[i]
  {
    hide Waiting, Types, AfterByte, Push, Pop;
  }

  lemma {:induction false} AllKept(s: Machine, es: seq<Event>)
    requires Started(s)
    requires forall n :: 0 <= n < |es| ==> |Waiting(Runs(s, es[..n], true).ring)| < 255
    ensures forall i :: 0 <= i < |Runs(s, es, true).kept| ==> Runs(s, es, true).kept[i]
  {
    hide Waiting, Happens;
    if es != [] {
      var n := |es| - 1;
      forall m | 0 <= m < n ensures |Waiting(Runs(s, es[..n][..m], true).ring)| < 255 {
        assert es[..n][..m] == es[..m];
      }
      AllKept(s, es[..n]);
      StepKeeps(Runs(s, es[..n], true), es[n]);
      var before, after := Runs(s, es[..n], true).kept, Runs(s, es, true).kept;
      forall i | 0 <= i < |after| ensures after[i] {
        assert i < |before| ==> after[i] == before[i];
      }
    }
  }

  // While fewer than 255 characters wait, no character is lost: what is returned, in flight
  // and waiting is what the handled bytes type.
  lemma NothingLostWithRoom(s: Machine, es: seq<Event>)
    requires Started(s)
    requires forall n :: 0 <= n < |es| ==> |Waiting(Runs(s, es[..n], true).ring)| < 255
    ensures var end := Runs(s, es, true);
            end.returned + InFlight(end) + Waiting(end.ring) == Typed(end.seen)
  {
    hide Typed, Runs, Waiting;
    ReaderNeverMissesAKey(s, es);
    AllKept(s, es);
    SelectAll(Typed(Runs(s, es, true).seen), Runs(s, es, true).kept);
  }

  // ---------------------------------------------------------------- progress

  function Readers(es: seq<Event>): nat {
    if es == [] then 0 else Readers(es[..|es| - 1]) + if es[|es| - 1] == Reader then 1 else 0
  }

  // Where the reader is after i of the six steps that return a character.
  function PcAfter(i: nat): Pc {
    match i
    case 0 => Cli
    case 1 => Test
    case 2 => Read
    case 3 => Advance
    case 4 => StiReturn
    case _ => Return
  }

  // Of the characters `waiting`, n have been returned, and the next is on its way: i of its six
  // steps are done.
  ghost predicate Returning(s: Machine, returned: seq<char>, waiting: seq<char>, n: nat, i: nat) {
    && RingOk(s.ring) && i < 6 && n <= |waiting| && (i > 0 ==> n < |waiting|)
    && s.pc == PcAfter(i) && s.returned == returned + waiting[..n]
    && (i >= 3 ==> s.got == waiting[n])
    && (if i <= 3 then waiting[n..] else waiting[n + 1..]) <= Waiting(s.ring)
  }

  lemma InterruptLeavesReader(s: Machine, e: Event, returned: seq<char>, waiting: seq<char>, n: nat, i: nat)
    requires Returning(s, returned, waiting, n, i) && e != Reader
    ensures Returning(Happens(s, e, true), returned, waiting, n, i)
  {
    hide Waiting, Push, AfterByte, Types;
    if e == Interrupt && Interruptible(s) {
      match Types(s.flags, s.line[0]) {
        case Some(c) => PushAppends(s.ring, c);
        case None =>
      }
    }
  }

  lemma ReaderStep(s: Machine, returned: seq<char>, waiting: seq<char>, n: nat, i: nat)
    requires Returning(s, returned, waiting, n, i) && n < |waiting|
    ensures Returning(Execute(s, true), returned, waiting, if i < 5 then n else n + 1, if i < 5 then i + 1 else 0)
  {
    var rest := Waiting(s.ring);
    if i <= 3 {
      assert rest[0] == waiting[n..][0] == waiting[n];
      PopRemoves(s.ring);
      assert waiting[n..][1..] == waiting[n + 1..];
    }
    if i == 3 {
      PrefixTail(waiting[n..], rest);
    }
    if i == 5 {
      assert waiting[..n + 1] == waiting[..n] + [waiting[n]];
    }
    hide Waiting, Pop;
  }

  lemma PrefixTail(a: seq<char>, b: seq<char>)
    requires a != [] && a <= b
    ensures a[1..] <= b[1..]
  {
  }

  lemma {:induction false} ReturningAfter(s: Machine, es: seq<Event>)
    requires RingOk(s.ring) && s.pc == Cli && Readers(es) <= 6 * |Waiting(s.ring)|
    ensures Returning(Runs(s, es, true), s.returned, Waiting(s.ring), Readers(es) / 6, Readers(es) % 6)
  {
    hide Waiting, Execute, Returning;
    if es == [] {
      StartsReturning(s);
    } else {
      var front, e := es[..|es| - 1], es[|es| - 1];
      ReturningAfter(s, front);
      var r := Readers(front);
      if e == Reader {
        ReaderStep(Runs(s, front, true), s.returned, Waiting(s.ring), r / 6, r % 6);
        assert (r + 1) / 6 == if r % 6 < 5 then r / 6 else r / 6 + 1;
        assert (r + 1) % 6 == if r % 6 < 5 then r % 6 + 1 else 0;
      } else {
        InterruptLeavesReader(Runs(s, front, true), e, s.returned, Waiting(s.ring), r / 6, r % 6);
      }
    }
  }

  lemma StartsReturning(s: Machine)
    requires RingOk(s.ring) && s.pc == Cli
    ensures Returning(s, s.returned, Waiting(s.ring), 0, 0)
  {
    hide Waiting;
  }

  // Whatever bytes and interrupts come between, every six instructions of the reader return one
  // waiting character, the oldest first, and the reader is then where it was.
  lemma WaitingIsReturned(s: Machine, es: seq<Event>, n: nat)
    requires RingOk(s.ring) && s.pc == Cli && n <= |Waiting(s.ring)| && Readers(es) == 6 * n
    ensures Runs(s, es, true).returned == s.returned + Waiting(s.ring)[..n] && Runs(s, es, true).pc == Cli
  {
    hide Waiting, Runs, Readers;
    ReturningAfter(s, es);
    assert Readers(es) / 6 == n && Readers(es) % 6 == 0;
  }

  // A sleeping reader returns the next character that is typed, in six instructions from the
  // interrupt on.
  lemma SleeperReturnsKey(s: Machine, c: char, es: seq<Event>)
    requires Safe(s) && s.pc == Halted && s.line != [] && Types(s.flags, s.line[0]) == Some(c) && Readers(es) == 6
    ensures Runs(s, [Interrupt] + es, true).returned == s.returned + [c]
    ensures Runs(s, [Interrupt] + es, true).pc == Cli
  {
    hide Runs, Waiting, Types, AfterByte, Push, AfterBytes, Recorded;
    var t := Handle(s);
    PushAppends(s.ring, c);
    assert Waiting(t.ring) == [c] && t.pc == Cli && Interruptible(s);
    RunsAfter(s, Interrupt, es);
    WaitingIsReturned(t, es, 1);
    assert [c][..1] == [c];
  }

  lemma {:induction false} RunsAfter(s: Machine, e: Event, es: seq<Event>)
    requires RingOk(s.ring)
    ensures Runs(s, [e] + es, true) == Runs(Happens(s, e, true), es, true)
  {
    hide Happens;
    var n := |es|;
    if es == [] {
      assert [e] + es == [e] && [e][..0] == [];
      assert Runs(s, [], true) == s;
    } else {
      assert ([e] + es)[..n] == [e] + es[..n - 1] && ([e] + es)[n] == es[n - 1];
      RunsAfter(s, e, es[..n - 1]);
    }
  }

  // With nothing waiting and no interrupt the reader is asleep after four instructions.
  lemma {:induction false} EmptySleeps(s: Machine, es: seq<Event>)
    requires RingOk(s.ring) && s.pc == Cli && Waiting(s.ring) == [] && Interrupt !in es
    ensures var t := Runs(s, es, true);
            && t.ring == s.ring && t.returned == s.returned
            && t.pc == (match Readers(es)
                        case 0 => Cli
                        case 1 => Test
                        case 2 => StiWait
                        case 3 => Hlt
                        case _ => Halted)
  {
    if es != [] {
      EmptySleeps(s, es[..|es| - 1]);
    }
  }

  // Were interrupts recognised right after STI, a key could arrive before HLT and the reader
  // would sleep on a full ring with nothing to wake it.
  lemma SleepWithoutTheDelay(s: Machine)
    requires Started(s) && s.ring.r == 0 && |s.ring.buf| == BUF_SIZE
    ensures exists es :: var end := Runs(s, es, false);
                         end.pc == Halted && Waiting(end.ring) != [] && end.line == []
  {
    hide Runs, AfterByte, Lookup, Waiting, Push;
    var es := [Reader, Reader, Reader, KeyByte(0x1E), Interrupt, Reader];
    KeyATypes();
    assert Waiting(s.ring) == [];
    PushAppends(s.ring, 'a');
    var m := s;
    var k := 0;
    RunsNothing(s);
    while k < 6
      invariant 0 <= k <= 6 && RingOk(m.ring) && m == Runs(s, es[..k], false)
      invariant k <= 2 ==> m.ring == s.ring && m.flags == s.flags && m.line == [] && m.pc == [Cli, Test, StiWait][k]
      invariant k == 3 || k == 4 ==> m.ring == s.ring && m.flags == s.flags && m.pc == Hlt && m.interrupts && !m.shadow
      invariant k == 3 ==> m.line == []
      invariant k == 4 ==> m.line == [0x1E]
      invariant k == 5 ==> m.ring == Push(s.ring, 'a') && m.line == [] && m.pc == Hlt
      invariant k == 6 ==> m.ring == Push(s.ring, 'a') && m.line == [] && m.pc == Halted
    {
      assert es[..k + 1] == es[..k] + [es[k]];
      RunsAppend(s, es[..k], es[k]);
      m := Happens(m, es[k], false);
      k := k + 1;
    }
    assert es[..6] == es;
  }

  lemma RunsNothing(s: Machine)
    requires RingOk(s.ring)
    ensures Runs(s, [], false) == s
  {
  }

  lemma KeyATypes()
    ensures Types(NO_MODIFIERS, 0x1E) == Some('a')
  {
    assert PLAIN[0x1E] == 'a';
  }

  lemma RunsAppend(s: Machine, es: seq<Event>, e: Event)
    requires RingOk(s.ring)
    ensures Runs(s, es + [e], false) == Happens(Runs(s, es, false), e, false)
  {
    assert (es + [e])[..|es|] == es;
  }
}
