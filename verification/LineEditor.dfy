/** The console line editor (common/console.c) as a value: a bounded text with a cursor, an
    escape-sequence state, and a ring of earlier lines. */
module LineEditor {
  import opened Octets

  const NUL: Byte := 0
  const NEWLINE: Byte := 10
  const CR: Byte := 13
  const ESC: Byte := 0x1B

  predicate IsPrint(c: Byte) {
    ' ' as int <= c <= '~' as int
  }

  predicate IsAlpha(c: Byte) {
    'A' as int <= c <= 'Z' as int || 'a' as int <= c <= 'z' as int
  }

  datatype EscState = Outside | Start | Bad | Bracket | Bracket1 | Bracket3 | Bracket4 | SawO

  datatype Key = Char(c: Byte) | Up | Down | Right | Left | End | Home | Del | Eaten

  datatype Option<T> = None | Some(value: T)

  /** handle_esc (lines 324-390): the next state, and the key once the sequence is complete. */
  function EscStep(esc: EscState, c: Byte): (EscState, Key) {
    if esc == Start && c == '[' as int then (Bracket, Eaten)
    else if esc == Start && c == 'O' as int then (SawO, Eaten)
    else if esc == Bracket && c == '1' as int then (Bracket1, Eaten)
    else if esc == Bracket && c == '3' as int then (Bracket3, Eaten)
    else if esc == Bracket && c == '4' as int then (Bracket4, Eaten)
    else if esc == Bracket && c == 'A' as int then (Outside, Up)
    else if esc == Bracket && c == 'B' as int then (Outside, Down)
    else if esc == Bracket && c == 'C' as int then (Outside, Right)
    else if esc == Bracket && c == 'D' as int then (Outside, Left)
    else if esc == SawO && c == 'F' as int then (Outside, End)
    else if esc == Bracket1 && c == '~' as int then (Outside, Home)
    else if esc == Bracket3 && c == '~' as int then (Outside, Del)
    else if esc == Bracket4 && c == '~' as int then (Outside, End)
    else if IsAlpha(c) || c == '~' as int then (Outside, Eaten)
    else (Bad, Eaten)
  }

  /** Lines 405-413. */
  function Decode(esc: EscState, c: Byte): (EscState, Key) {
    if c == ESC then (Start, Eaten)
    else if esc != Outside then EscStep(esc, c)
    else (Outside, Char(c))
  }

  datatype Editor = Editor(text: seq<Byte>, cursor: nat, esc: EscState, lastCr: bool,
                           history: seq<seq<Byte>>, next: nat, pos: nat)

  ghost predicate IsText(text: seq<Byte>, size: nat) {
    |text| < size && forall i | 0 <= i < |text| :: IsPrint(text[i])
  }

  ghost predicate Valid(e: Editor, size: nat) {
    && IsText(e.text, size) && e.cursor <= |e.text|
    && e.next < |e.history| && e.pos < |e.history|
    && forall i | 0 <= i < |e.history| :: IsText(e.history[i], size)
  }

  // ----- The operations -----

  function Insert(e: Editor, c: Byte): Editor
    requires e.cursor <= |e.text|
  {
    e.(text := e.text[..e.cursor] + [c] + e.text[e.cursor..], cursor := e.cursor + 1)
  }

  function Backspace(e: Editor): Editor
    requires e.cursor <= |e.text|
  {
    if e.cursor == 0 then e
    else e.(text := e.text[..e.cursor - 1] + e.text[e.cursor..], cursor := e.cursor - 1)
  }

  function Delete(e: Editor): Editor
    requires e.cursor <= |e.text|
  {
    if e.cursor == |e.text| then e else Backspace(e.(cursor := e.cursor + 1))
  }

  function MoveLeft(e: Editor): Editor {
    if e.cursor == 0 then e else e.(cursor := e.cursor - 1)
  }

  function MoveRight(e: Editor): Editor {
    if e.cursor == |e.text| then e else e.(cursor := e.cursor + 1)
  }

  /** The line in progress is kept in the free slot when browsing starts from it. */
  function Save(e: Editor): Editor
    requires e.next < |e.history|
  {
    if e.pos == e.next then e.(history := e.history[e.next := e.text]) else e
  }

  function Load(e: Editor, i: nat): Editor
    requires i < |e.history|
  {
    e.(text := e.history[i], cursor := |e.history[i]|, pos := i)
  }

  function Previous(e: Editor): Editor
    requires e.next < |e.history| && e.pos < |e.history|
  {
    Load(Save(e), if e.pos == 0 then |e.history| - 1 else e.pos - 1)
  }

  function Following(e: Editor): Editor
    requires e.next < |e.history| && e.pos < |e.history|
  {
    Load(Save(e), if e.pos + 1 == |e.history| then 0 else e.pos + 1)
  }

  function Clear(e: Editor): Editor {
    e.(text := [], cursor := 0)
  }

  function Enter(e: Editor): Editor
    requires e.next < |e.history|
  {
    if e.text == [] then Clear(e)
    else
      var next := if e.next + 1 == |e.history| then 0 else e.next + 1;
      Clear(e).(history := e.history[e.next := e.text], next := next, pos := next)
  }

  /** The switch of console_handle_char (lines 415-556). */
  function Press(e: Editor, key: Key, size: nat): Editor
    requires Valid(e, size)
  {
    match key
    case Eaten => e
    case Up => Previous(e)
    case Down => Following(e)
    case Left => MoveLeft(e)
    case Right => MoveRight(e)
    case Home => e.(cursor := 0)
    case End => e.(cursor := |e.text|)
    case Del => Delete(e)
    case Char(c) =>
      if c == 8 || c == 0x7F then Backspace(e)
      else if c == 3 then Clear(e)
      else if c == NEWLINE then Enter(e)
      else if c == 1 then e.(cursor := 0)
      else if c == 2 then MoveLeft(e)
      else if c == 5 then e.(cursor := |e.text|)
      else if c == 6 then MoveRight(e)
      else if c == 11 then e.(text := e.text[..e.cursor])
      else if c == 16 then Previous(e)
      else if c == 14 then Following(e)
      else if IsPrint(c) && |e.text| < size - 1 then Insert(e, c)
      else e
  }

  /** console_handle_char (lines 392-557): the new state, and the line to be executed, if any. */
  function Handle(e: Editor, c: Byte, size: nat): (Editor, Option<seq<Byte>>)
    requires Valid(e, size)
  {
    if c == NEWLINE && e.lastCr then (e.(lastCr := false), None)
    else
      var c' := if c == CR then NEWLINE else c;
      var (esc, key) := Decode(e.esc, c');
      (Press(e.(lastCr := c == CR, esc := esc), key, size), if key == Char(NEWLINE) then Some(e.text) else None)
  }

  // ----- What every character keeps -----

  lemma EditsKeepValid(e: Editor, c: Byte, size: nat)
    requires Valid(e, size)
    ensures IsPrint(c) && |e.text| < size - 1 ==> Valid(Insert(e, c), size)
    ensures Valid(Backspace(e), size) && Valid(Delete(e), size)
  {}

  lemma HistoryKeepsValid(e: Editor, size: nat)
    requires Valid(e, size)
    ensures Valid(Previous(e), size) && Valid(Following(e), size) && Valid(Enter(e), size)
  {}

  lemma PressKeepsValid(e: Editor, key: Key, size: nat)
    requires Valid(e, size)
    ensures Valid(Press(e, key, size), size)
  {
    hide Insert, Backspace, Delete, Previous, Following, Enter;
    EditsKeepValid(e, if key.Char? then key.c else 0, size);
    HistoryKeepsValid(e, size);
  }

  lemma HandleKeepsValid(e: Editor, c: Byte, size: nat)
    requires Valid(e, size)
    ensures Valid(Handle(e, c, size).0, size)
  {
    hide Press, EscStep;
    if !(c == NEWLINE && e.lastCr) {
      var (esc, key) := Decode(e.esc, if c == CR then NEWLINE else c);
      PressKeepsValid(e.(lastCr := c == CR, esc := esc), key, size);
    }
  }

  function Appended(lines: seq<seq<Byte>>, line: Option<seq<Byte>>): seq<seq<Byte>> {
    if line.Some? then lines + [line.value] else lines
  }

  /** The state after a stream, and the lines it made the console execute. Over every input the
      text fits with its terminator, is printable, and holds the cursor. */
  function Run(e: Editor, input: seq<Byte>, size: nat): (r: (Editor, seq<seq<Byte>>))
    requires Valid(e, size)
    ensures Valid(r.0, size)
    ensures forall i | 0 <= i < |r.1| :: IsText(r.1[i], size)
  {
    if input == [] then (e, [])
    else
      var n := |input| - 1;
      var (before, lines) := Run(e, input[..n], size);
      HandleKeepsValid(before, input[n], size);
      var (after, line) := Handle(before, input[n], size);
      (after, Appended(lines, line))
  }

  lemma RunNone(e: Editor, size: nat)
    requires Valid(e, size)
    ensures Run(e, [], size) == (e, [])
  {}

  lemma RunNext(e: Editor, s: seq<Byte>, c: Byte, size: nat)
    requires Valid(e, size)
    ensures var (before, lines) := Run(e, s, size);
      var (after, line) := Handle(before, c, size);
      Run(e, s + [c], size) == (after, Appended(lines, line))
  {
    hide Handle, Valid;
    assert (s + [c])[..|s|] == s;
  }

  lemma RunOne(e: Editor, c: Byte, size: nat)
    requires Valid(e, size)
    ensures var (after, line) := Handle(e, c, size);
      Run(e, [c], size) == (after, Appended([], line))
  {
    hide Handle, Valid, Run;
    RunNone(e, size);
    RunNext(e, [], c, size);
    assert [] + [c] == [c];
  }

  lemma {:induction false} RunAppend(e: Editor, a: seq<Byte>, b: seq<Byte>, size: nat)
    requires Valid(e, size)
    ensures var (mid, first) := Run(e, a, size);
      var (end, second) := Run(mid, b, size);
      Run(e, a + b, size) == (end, first + second)
    decreases |b|
  {
    hide Handle, Valid, Run;
    var (mid, first) := Run(e, a, size);
    if b == [] {
      assert a + b == a && first + [] == first;
      RunNone(mid, size);
    } else {
      var n := |b| - 1;
      assert a + b == (a + b[..n]) + [b[n]];
      assert b == b[..n] + [b[n]];
      RunAppend(e, a, b[..n], size);
      RunNext(e, a + b[..n], b[n], size);
      RunNext(mid, b[..n], b[n], size);
      var (before, second) := Run(mid, b[..n], size);
      var line := Handle(before, b[n], size).1;
      assert Appended(first + second, line) == first + Appended(second, line);
    }
  }

  // ----- Typing -----

  /** Printable characters typed outside an escape sequence appear at the cursor, in order, as
      far as there is room. */
  lemma {:induction false} TypedText(e: Editor, s: seq<Byte>, size: nat)
    requires Valid(e, size) && e.esc == Outside && forall i | 0 <= i < |s| :: IsPrint(s[i])
    ensures var k := if |e.text| + |s| < size then |s| else size - 1 - |e.text|;
      Run(e, s, size) == (e.(text := e.text[..e.cursor] + s[..k] + e.text[e.cursor..], cursor := e.cursor + k,
                             lastCr := s == [] && e.lastCr), [])
  {
    hide Run, Handle, Valid;
    TextAround(e, [], size);
    if s == [] {
      RunNone(e, size);
    } else {
      var n := |s| - 1;
      assert s == s[..n] + [s[n]];
      TypedText(e, s[..n], size);
      RunNext(e, s[..n], s[n], size);
      var k := if |e.text| + n < size then n else size - 1 - |e.text|;
      TextAround(e, s[..n][..k], size);
      assert s[..n][..k] == s[..k];
      Typed(e, Run(e, s[..n], size).0, s[..k], s[n], size);
      if |e.text| + n < size - 1 {
        assert s[..k] + [s[n]] == s[..|s|];
      }
    }
  }

  lemma TextAround(e: Editor, typed: seq<Byte>, size: nat)
    requires Valid(e, size)
    ensures e.cursor <= |e.text| < size
    ensures |e.text[..e.cursor] + typed + e.text[e.cursor..]| == |e.text| + |typed|
    ensures typed == [] ==> e.text[..e.cursor] + typed + e.text[e.cursor..] == e.text
  {}

  /** One more character behind those already typed. */
  lemma Typed(e: Editor, now: Editor, typed: seq<Byte>, c: Byte, size: nat)
    requires Valid(e, size) && Valid(now, size) && e.esc == Outside && IsPrint(c)
    requires now == e.(text := e.text[..e.cursor] + typed + e.text[e.cursor..], cursor := e.cursor + |typed|,
                       lastCr := now.lastCr)
    ensures Handle(now, c, size) ==
      (now.(text := if |now.text| < size - 1 then e.text[..e.cursor] + (typed + [c]) + e.text[e.cursor..] else now.text,
            cursor := if |now.text| < size - 1 then now.cursor + 1 else now.cursor, lastCr := false), None)
  {
    var a, b := e.text[..e.cursor], e.text[e.cursor..];
    assert now.text[..now.cursor] == a + typed;
    assert now.text[now.cursor..] == b;
    assert (a + typed) + [c] + b == a + (typed + [c]) + b;
  }

  /** A line typed into an empty editor and ended is executed as typed, and kept in history. */
  lemma TypedLine(e: Editor, s: seq<Byte>, size: nat)
    requires Valid(e, size) && e.esc == Outside && e.text == []
    requires 0 < |s| < size && forall i | 0 <= i < |s| :: IsPrint(s[i])
    ensures var (after, lines) := Run(e, s + [CR], size);
      && lines == [s] && after.text == [] && s in after.history
      && Valid(after, size) && (|e.history| > 1 ==> Previous(after).text == s)
  {
    hide Run, Enter, Previous;
    TypedText(e, s, size);
    var mid := Run(e, s, size).0;
    assert s[..|s|] == s && e.text[..0] + s + e.text[0..] == s;
    RunNext(e, s, CR, size);
    EnterThenPrevious(mid.(lastCr := true), size);
  }

  /** After a line was entered, one step back in history brings it back. */
  lemma EnterThenPrevious(e: Editor, size: nat)
    requires Valid(e, size) && e.text != []
    ensures Enter(e).text == [] && e.text in Enter(e).history
    ensures Valid(Enter(e), size) && (|e.history| > 1 ==> Previous(Enter(e)).text == e.text)
  {
    HistoryKeepsValid(e, size);
    assert Enter(e).history[e.next] == e.text;
  }

  lemma EndsAlike(e: Editor, size: nat)
    requires Valid(e, size) && !e.lastCr
    ensures var (lf, line) := Handle(e, NEWLINE, size);
      && !lf.lastCr && Handle(e, CR, size) == (lf.(lastCr := true), line)
      && Valid(lf.(lastCr := true), size) && Handle(lf.(lastCr := true), NEWLINE, size) == (lf, None)
  {
    HandleKeepsValid(e, NEWLINE, size);
  }

  /** CR, LF and CR LF end a line alike. */
  lemma LineEndings(e: Editor, size: nat)
    requires Valid(e, size) && !e.lastCr
    ensures var lf := Run(e, [NEWLINE], size);
      && Run(e, [CR], size) == (lf.0.(lastCr := true), lf.1)
      && Run(e, [CR, NEWLINE], size) == lf
  {
    hide Run, Handle;
    EndsAlike(e, size);
    RunOne(e, NEWLINE, size);
    RunOne(e, CR, size);
    RunNext(e, [CR], NEWLINE, size);
    assert [CR] + [NEWLINE] == [CR, NEWLINE];
  }

  // ----- Editing -----

  lemma InsertThenBackspace(e: Editor, c: Byte)
    requires e.cursor <= |e.text|
    ensures Backspace(Insert(e, c)) == e
  {
    var t := Insert(e, c).text;
    assert t[..e.cursor] + t[e.cursor + 1..] == e.text;
  }

  /** Backspace undoes itself by retyping what it took. */
  lemma BackspaceThenInsert(e: Editor)
    requires 0 < e.cursor <= |e.text|
    ensures Insert(Backspace(e), e.text[e.cursor - 1]) == e
  {
    var n := e.cursor - 1;
    var t := Backspace(e).text;
    assert t[..n] == e.text[..n] && t[n..] == e.text[e.cursor..];
    assert e.text == e.text[..n] + [e.text[n]] + e.text[n + 1..];
  }

  // ----- Escape sequences -----

  /** No byte of an escape sequence enters the text, and none executes a line: the text stays,
      or loses the character at the cursor, or is a line out of history. */
  lemma EscapeNeverTyped(e: Editor, c: Byte, size: nat)
    requires Valid(e, size) && (c == ESC || e.esc != Outside)
    ensures var (after, line) := Handle(e, c, size);
      && line == None
      && (after.text == e.text || after.text == Delete(e).text || after.text in Save(e).history)
  {
    hide Delete, Valid, Previous, Following, Save;
    EscapeIgnored(e, Decode(e.esc, if c == CR then NEWLINE else c).0, c == CR, size);
  }

  lemma EscapeIgnored(e: Editor, esc: EscState, cr: bool, size: nat)
    requires Valid(e, size)
    ensures var at := e.(lastCr := cr, esc := esc);
      && Delete(at).text == Delete(e).text
      && Previous(at).text in Save(e).history && Following(at).text in Save(e).history
  {
    var at := e.(lastCr := cr, esc := esc);
    assert Save(at).history == Save(e).history;
  }

  /** What a terminal sends for a key; there are two sequences for End. */
  function Sequences(key: Key): set<seq<Byte>>
    requires !key.Char? && key != Eaten
  {
    match key
    case Up => {[ESC, 0x5B, 0x41]}
    case Down => {[ESC, 0x5B, 0x42]}
    case Right => {[ESC, 0x5B, 0x43]}
    case Left => {[ESC, 0x5B, 0x44]}
    case End => {[ESC, 0x4F, 0x46], [ESC, 0x5B, 0x34, 0x7E]}
    case Home => {[ESC, 0x5B, 0x31, 0x7E]}
    case Del => {[ESC, 0x5B, 0x33, 0x7E]}
  }

  /** Each complete sequence presses its key, in whatever state it starts. */
  lemma KeySequence(e: Editor, key: Key, s: seq<Byte>, size: nat)
    requires Valid(e, size) && !key.Char? && key != Eaten && s in Sequences(key)
    ensures Valid(e.(esc := Outside, lastCr := false), size)
    ensures Run(e, s, size) == (Press(e.(esc := Outside, lastCr := false), key, size), [])
  {
    hide Run, Press, Valid;
    StateIgnored(e, Outside, false, size);
    if key == Up {
      ShortSequence(e, 0x5B, Bracket, 0x41, key, size);
    } else if key == Down {
      ShortSequence(e, 0x5B, Bracket, 0x42, key, size);
    } else if key == Right {
      ShortSequence(e, 0x5B, Bracket, 0x43, key, size);
    } else if key == Left {
      ShortSequence(e, 0x5B, Bracket, 0x44, key, size);
    } else if key == End {
      ShortSequence(e, 0x4F, SawO, 0x46, key, size);
      LongSequence(e, 0x34, Bracket4, key, size);
    } else if key == Home {
      LongSequence(e, 0x31, Bracket1, key, size);
    } else {
      LongSequence(e, 0x33, Bracket3, key, size);
    }
  }

  /** And there are no others: a key comes out only where one of them ends. */
  lemma OnlyTheseSequences(esc: EscState, c: Byte)
    requires EscStep(esc, c).1 != Eaten
    ensures var key := EscStep(esc, c).1;
      !key.Char? && exists s :: s in Sequences(key) && s[|s| - 1] == c && StateAfter(s[..|s| - 1]) == esc
  {
    var key := EscStep(esc, c).1;
    var s: seq<Byte> :=
      if key == Up then [ESC, 0x5B, 0x41]
      else if key == Down then [ESC, 0x5B, 0x42]
      else if key == Right then [ESC, 0x5B, 0x43]
      else if key == Left then [ESC, 0x5B, 0x44]
      else if key == Home then [ESC, 0x5B, 0x31, 0x7E]
      else if key == Del then [ESC, 0x5B, 0x33, 0x7E]
      else if c == 0x46 then [ESC, 0x4F, 0x46]
      else [ESC, 0x5B, 0x34, 0x7E];
    assert s in Sequences(key);
    var n := |s| - 1;
    assert StateAfter([]) == Outside;
    assert s[..1][..0] == [] && s[..2][..1] == s[..1];
    assert StateAfter(s[..1]) == Start;
    assert StateAfter(s[..2]) == Decode(Start, s[1]).0;
    if n == 3 {
      assert s[..3][..2] == s[..2];
      assert StateAfter(s[..3]) == Decode(StateAfter(s[..2]), s[2]).0;
    }
    assert StateAfter(s[..n]) == esc;
  }

  /** The escape state after some bytes. */
  function StateAfter(s: seq<Byte>): EscState {
    if s == [] then Outside else Decode(StateAfter(s[..|s| - 1]), s[|s| - 1]).0
  }

  lemma ShortSequence(e: Editor, b: Byte, esc: EscState, c: Byte, key: Key, size: nat)
    requires Valid(e, size) && EscStep(Start, b) == (esc, Eaten) && b !in {ESC, CR, NEWLINE}
    requires esc != Outside && EscStep(esc, c) == (Outside, key) && !key.Char? && c !in {ESC, CR, NEWLINE}
    ensures Valid(e.(esc := Outside, lastCr := false), size)
    ensures Run(e, [ESC, b, c], size) == (Press(e.(esc := Outside, lastCr := false), key, size), [])
  {
    hide Run, Press, Valid, EscStep;
    StateIgnored(e, Outside, false, size);
    Starts(e, size);
    Eats(e, [ESC], Start, b, esc, size);
    Completes(e, [ESC] + [b], esc, c, key, size);
    assert [ESC] + [b] + [c] == [ESC, b, c];
  }

  lemma LongSequence(e: Editor, d: Byte, esc: EscState, key: Key, size: nat)
    requires Valid(e, size) && EscStep(Bracket, d) == (esc, Eaten) && d !in {ESC, CR, NEWLINE}
    requires esc != Outside && EscStep(esc, 0x7E) == (Outside, key) && !key.Char?
    ensures Valid(e.(esc := Outside, lastCr := false), size)
    ensures Run(e, [ESC, 0x5B, d, 0x7E], size) == (Press(e.(esc := Outside, lastCr := false), key, size), [])
  {
    hide Run, Press, Valid;
    StateIgnored(e, Outside, false, size);
    Starts(e, size);
    Eats(e, [ESC], Start, 0x5B, Bracket, size);
    Eats(e, [ESC] + [0x5B], Bracket, d, esc, size);
    Completes(e, [ESC] + [0x5B] + [d], esc, 0x7E, key, size);
    assert [ESC] + [0x5B] + [d] + [0x7E] == [ESC, 0x5B, d, 0x7E];
  }

  lemma Starts(e: Editor, size: nat)
    requires Valid(e, size)
    ensures Run(e, [ESC], size) == (e.(esc := Start, lastCr := false), [])
  {
    hide Run;
    RunOne(e, ESC, size);
  }

  lemma Eats(e: Editor, p: seq<Byte>, esc: EscState, b: Byte, next: EscState, size: nat)
    requires Valid(e, size) && Run(e, p, size) == (e.(esc := esc, lastCr := false), [])
    requires esc != Outside && EscStep(esc, b) == (next, Eaten) && b !in {ESC, CR, NEWLINE}
    ensures Run(e, p + [b], size) == (e.(esc := next, lastCr := false), [])
  {
    hide Run, EscStep;
    RunNext(e, p, b, size);
  }

  lemma Completes(e: Editor, p: seq<Byte>, esc: EscState, c: Byte, key: Key, size: nat)
    requires Valid(e, size) && Run(e, p, size) == (e.(esc := esc, lastCr := false), [])
    requires esc != Outside && EscStep(esc, c) == (Outside, key) && !key.Char? && c !in {ESC, CR, NEWLINE}
    ensures Valid(e.(esc := Outside, lastCr := false), size)
    ensures Run(e, p + [c], size) == (Press(e.(esc := Outside, lastCr := false), key, size), [])
  {
    StateIgnored(e, Outside, false, size);
    hide Run, EscStep, Press, Valid;
    RunNext(e, p, c, size);
  }

  lemma StateIgnored(e: Editor, esc: EscState, cr: bool, size: nat)
    requires Valid(e, size)
    ensures Valid(e.(esc := esc, lastCr := cr), size)
  {}

  /** An unknown sequence is swallowed up to the letter or tilde that ends it, line ends included. */
  lemma {:induction false} BadIsSwallowed(e: Editor, s: seq<Byte>, size: nat)
    requires Valid(e, size) && e.esc == Bad
    requires forall i | 0 <= i < |s| ::
      s[i] != 0x1B && !(0x41 <= s[i] <= 0x5A) && !(0x61 <= s[i] <= 0x7A) && s[i] != 0x7E
    ensures var (after, lines) := Run(e, s, size);
      after == e.(lastCr := after.lastCr) && lines == []
  {
    hide Valid, Run;
    if s == [] {
      RunNone(e, size);
    } else {
      var n := |s| - 1;
      assert s == s[..n] + [s[n]];
      BadIsSwallowed(e, s[..n], size);
      RunNext(e, s[..n], s[n], size);
    }
  }

  /** Whatever is no part of a known sequence makes it an unknown one, which a letter or a tilde ends;
      nothing else changes. */
  lemma UnknownSequence(e: Editor, c: Byte, size: nat)
    requires Valid(e, size) && e.esc != Outside && c != 0x1B && !(c == 10 && e.lastCr)
    requires !(e.esc == Start && (c == 0x5B || c == 0x4F)) && !(e.esc == SawO && c == 0x46)
    requires !(e.esc == Bracket && (c == 0x31 || c == 0x33 || c == 0x34 || 0x41 <= c <= 0x44))
    requires !(e.esc in {Bracket1, Bracket3, Bracket4} && c == 0x7E)
    ensures Run(e, [c], size) ==
      (e.(esc := if 0x41 <= c <= 0x5A || 0x61 <= c <= 0x7A || c == 0x7E then Outside else Bad, lastCr := c == 13), [])
  {
    hide Run;
    RunOne(e, c, size);
  }

  // ----- History -----

  function Steps(e: Editor, ups: nat, downs: nat, size: nat): (r: Editor)
    requires Valid(e, size)
    ensures Valid(r, size)
    decreases ups + downs
  {
    if downs > 0 then
      var before := Steps(e, ups, downs - 1, size);
      HistoryKeepsValid(before, size);
      Following(before)
    else if ups > 0 then
      var before := Steps(e, ups - 1, 0, size);
      HistoryKeepsValid(before, size);
      Previous(before)
    else Save(e)
  }

  function Back(pos: nat, n: nat, size: nat): (r: nat)
    requires pos < size
    ensures r < size
  {
    if n == 0 then pos else var p := Back(pos, n - 1, size); if p == 0 then size - 1 else p - 1
  }

  /** Browsing shows the line of each slot and changes none. */
  lemma {:induction false} Browsing(e: Editor, ups: nat, downs: nat, size: nat)
    requires Valid(e, size) && e.pos == e.next && downs <= ups
    ensures var r := Steps(e, ups, downs, size);
      && r.history == e.history[e.next := e.text] && r.next == e.next
      && r.pos == Back(e.next, ups - downs, |e.history|) && r.text == r.history[r.pos]
    decreases ups + downs
  {
    hide Valid, Save;
    BrowsingStarts(e, size);
    if downs > 0 {
      Browsing(e, ups, downs - 1, size);
      BrowsingStep(Steps(e, ups, downs - 1, size), size);
    } else if ups > 0 {
      Browsing(e, ups - 1, 0, size);
      BrowsingStep(Steps(e, ups - 1, 0, size), size);
    }
  }

  lemma BrowsingStarts(e: Editor, size: nat)
    requires Valid(e, size) && e.pos == e.next
    ensures Save(e) == e.(history := e.history[e.next := e.text])
    ensures e.next < |e.history| && Save(e).history[e.next] == e.text
  {}

  lemma BrowsingStep(e: Editor, size: nat)
    requires Valid(e, size) && e.pos < |e.history| && e.text == e.history[e.pos]
    ensures Previous(e) == Load(e, if e.pos == 0 then |e.history| - 1 else e.pos - 1)
    ensures Following(e) == Load(e, if e.pos + 1 == |e.history| then 0 else e.pos + 1)
  {
    assert e.next < |e.history| && e.history[e.pos := e.text] == e.history;
  }

  /** However far one goes back, going forth as far brings back the line in progress. */
  lemma ThereAndBack(e: Editor, n: nat, size: nat)
    requires Valid(e, size) && e.pos == e.next
    ensures Steps(e, n, n, size).text == e.text
  {
    Browsing(e, n, n, size);
  }

  // ----- The keys in plain terms -----

  /** A single character outside an escape sequence. */
  lemma PlainByte(e: Editor, c: Byte, size: nat)
    requires Valid(e, size) && e.esc == Outside && !(c == 10 && e.lastCr) && c != 0x1B
    ensures Handle(e, c, size).0 == Press(e.(lastCr := c == 13), Char(if c == 13 then 10 else c), size)
    ensures Run(e, [c], size).0 == Handle(e, c, size).0
    ensures Run(e, [c], size).1 == if c == 10 || c == 13 then [e.text] else []
  {
    hide Run, Press;
    RunOne(e, c, size);
  }

  /** Ctrl-A, Ctrl-B, Ctrl-E and Ctrl-F move the cursor to the beginning, back, to the end and on. */
  lemma CursorControls(e: Editor, size: nat)
    requires Valid(e, size) && e.esc == Outside
    ensures Run(e, [1], size) == (e.(cursor := 0, lastCr := false), [])
    ensures Run(e, [2], size) == (e.(cursor := if e.cursor > 0 then e.cursor - 1 else 0, lastCr := false), [])
    ensures Run(e, [5], size) == (e.(cursor := |e.text|, lastCr := false), [])
    ensures Run(e, [6], size)
         == (e.(cursor := if e.cursor < |e.text| then e.cursor + 1 else |e.text|, lastCr := false), [])
  {
    hide Run, Handle;
    PlainByte(e, 1, size);
    PlainByte(e, 2, size);
    PlainByte(e, 5, size);
    PlainByte(e, 6, size);
  }

  /** Backspace and Delete take out the character in front of the cursor, Ctrl-K everything behind it,
      and Ctrl-C the whole line. */
  lemma ErasingControls(e: Editor, size: nat)
    requires Valid(e, size) && e.esc == Outside
    ensures forall c | c == 8 || c == 0x7F ::
      Run(e, [c], size) ==
        (if e.cursor == 0 then e.(lastCr := false)
         else e.(text := e.text[..e.cursor - 1] + e.text[e.cursor..], cursor := e.cursor - 1, lastCr := false), [])
    ensures Run(e, [11], size) == (e.(text := e.text[..e.cursor], lastCr := false), [])
    ensures Run(e, [3], size) == (e.(text := [], cursor := 0, lastCr := false), [])
  {
    hide Run, Handle;
    PlainByte(e, 8, size);
    PlainByte(e, 0x7F, size);
    PlainByte(e, 11, size);
    PlainByte(e, 3, size);
  }

  /** The history after the line in progress was saved, if browsing starts from it. */
  function Saved(e: Editor): (h: seq<seq<Byte>>)
    requires e.next < |e.history|
    ensures |h| == |e.history|
  {
    if e.pos == e.next then e.history[e.next := e.text] else e.history
  }

  /** Ctrl-P shows the line one slot back, Ctrl-N the one a slot on, round the ring. */
  lemma HistoryControls(e: Editor, size: nat)
    requires Valid(e, size) && e.esc == Outside
    ensures var h, p := Saved(e), if e.pos > 0 then e.pos - 1 else |e.history| - 1;
      Run(e, [16], size) == (e.(history := h, text := h[p], cursor := |h[p]|, pos := p, lastCr := false), [])
    ensures var h, p := Saved(e), if e.pos + 1 < |e.history| then e.pos + 1 else 0;
      Run(e, [14], size) == (e.(history := h, text := h[p], cursor := |h[p]|, pos := p, lastCr := false), [])
  {
    hide Run, Handle;
    PlainByte(e, 16, size);
    PlainByte(e, 14, size);
  }

  /** A line end hands the line out, keeps it unless it is empty, and starts an empty one; a printable
      character goes in at the cursor while there is room; any other character does nothing. */
  lemma OtherCharacters(e: Editor, c: Byte, size: nat)
    requires Valid(e, size) && e.esc == Outside && !(c == 10 && e.lastCr) && c != 0x1B
    ensures c == 10 || c == 13 ==>
      var next := if e.next + 1 < |e.history| then e.next + 1 else 0;
      Run(e, [c], size) ==
        (if e.text == [] then e.(cursor := 0, lastCr := c == 13)
         else e.(text := [], cursor := 0, history := e.history[e.next := e.text], next := next, pos := next,
                 lastCr := c == 13), [e.text])
    ensures 32 <= c < 127 ==>
      Run(e, [c], size) ==
        (if |e.text| + 1 < size then
           e.(text := e.text[..e.cursor] + [c] + e.text[e.cursor..], cursor := e.cursor + 1, lastCr := false)
         else e.(lastCr := false), [])
    ensures (c < 32 || c >= 127) && c !in {1, 2, 3, 5, 6, 8, 10, 11, 13, 14, 16, 0x7F} ==>
      Run(e, [c], size) == (e.(lastCr := false), [])
  {
    hide Run, Handle;
    PlainByte(e, c, size);
  }

  /** Home, End, Left and Right, as a terminal sends them. */
  lemma CursorKeys(e: Editor, size: nat)
    requires Valid(e, size)
    ensures Run(e, [0x1B, 0x5B, 0x31, 0x7E], size) == (e.(cursor := 0, esc := Outside, lastCr := false), [])
    ensures Run(e, [0x1B, 0x5B, 0x34, 0x7E], size) == (e.(cursor := |e.text|, esc := Outside, lastCr := false), [])
    ensures Run(e, [0x1B, 0x4F, 0x46], size) == (e.(cursor := |e.text|, esc := Outside, lastCr := false), [])
    ensures Run(e, [0x1B, 0x5B, 0x44], size)
         == (e.(cursor := if e.cursor > 0 then e.cursor - 1 else 0, esc := Outside, lastCr := false), [])
    ensures Run(e, [0x1B, 0x5B, 0x43], size)
         == (e.(cursor := if e.cursor < |e.text| then e.cursor + 1 else |e.text|, esc := Outside, lastCr := false), [])
  {
    hide Run, Valid;
    KeySequence(e, Home, [0x1B, 0x5B, 0x31, 0x7E], size);
    KeySequence(e, End, [0x1B, 0x5B, 0x34, 0x7E], size);
    KeySequence(e, End, [0x1B, 0x4F, 0x46], size);
    KeySequence(e, Left, [0x1B, 0x5B, 0x44], size);
    KeySequence(e, Right, [0x1B, 0x5B, 0x43], size);
    InText(e, size);
  }

  lemma InText(e: Editor, size: nat)
    requires Valid(e, size)
    ensures e.cursor <= |e.text| < size && e.next < |e.history| && e.pos < |e.history|
  {}

  /** Del takes out the character at the cursor; Up and Down show the line a slot back and on. */
  lemma OtherKeys(e: Editor, size: nat)
    requires Valid(e, size)
    ensures Run(e, [0x1B, 0x5B, 0x33, 0x7E], size) ==
      (e.(text := if e.cursor < |e.text| then e.text[..e.cursor] + e.text[e.cursor + 1..] else e.text,
          esc := Outside, lastCr := false), [])
    ensures var h, p := Saved(e), if e.pos > 0 then e.pos - 1 else |e.history| - 1;
      Run(e, [0x1B, 0x5B, 0x41], size) ==
        (e.(history := h, text := h[p], cursor := |h[p]|, pos := p, esc := Outside, lastCr := false), [])
    ensures var h, p := Saved(e), if e.pos + 1 < |e.history| then e.pos + 1 else 0;
      Run(e, [0x1B, 0x5B, 0x42], size) ==
        (e.(history := h, text := h[p], cursor := |h[p]|, pos := p, esc := Outside, lastCr := false), [])
  {
    hide Run;
    KeySequence(e, Del, [0x1B, 0x5B, 0x33, 0x7E], size);
    KeySequence(e, Up, [0x1B, 0x5B, 0x41], size);
    KeySequence(e, Down, [0x1B, 0x5B, 0x42], size);
  }

  // ----- Recalling lines -----

  /** The bytes of a key, n times. */
  function Presses(key: seq<Byte>, n: nat): seq<Byte> {
    if n == 0 then [] else Presses(key, n - 1) + key
  }

  lemma BackIs(pos: nat, n: nat, size: nat)
    requires pos < size && n <= size
    ensures Back(pos, n, size) == if n <= pos then pos - n else pos - n + size
  {}

  /** The lines typed one after the other, each ended by CR. */
  function Typing(lines: seq<seq<Byte>>): seq<Byte> {
    if lines == [] then [] else Typing(lines[..|lines| - 1]) + (lines[|lines| - 1] + [13])
  }

  predicate IsLine(line: seq<Byte>, size: nat) {
    0 < |line| < size && forall i | 0 <= i < |line| :: 32 <= line[i] < 127
  }

  /** Nothing is being typed, and the last slots of the ring are the last of these lines. */
  ghost predicate Keeps(e: Editor, lines: seq<seq<Byte>>) {
    && e.text == [] && e.cursor == 0 && e.esc == Outside && e.pos == e.next < |e.history|
    && forall i: nat | 1 <= i <= |lines| && i <= |e.history| ::
         e.history[Back(e.next, i, |e.history|)] == lines[|lines| - i]
  }

  /** One more line. */
  lemma TypeLine(e: Editor, lines: seq<seq<Byte>>, line: seq<Byte>, size: nat)
    requires Valid(e, size) && Keeps(e, lines) && IsLine(line, size)
    ensures Keeps(Run(e, line + [13], size).0, lines + [line])
    ensures |Run(e, line + [13], size).0.history| == |e.history|
  {
    hide Run;
    TypedText(e, line, size);
    var typed := Run(e, line, size).0;
    assert line[..|line|] == line && e.text[..0] + line + e.text[0..] == line;
    RunAppend(e, line, [13], size);
    OtherCharacters(typed, 13, size);
    var r := Run(e, line + [13], size).0;
    var h := |e.history|;
    forall i: nat | 1 <= i <= |lines| + 1 && i <= h
      ensures r.history[Back(r.next, i, h)] == (lines + [line])[|lines| + 1 - i]
    {
      BackIs(r.next, i, h);
      BackIs(e.next, i - 1, h);
    }
  }

  /** The last lines typed are in the last slots. */
  lemma {:induction false} TypeLines(e: Editor, lines: seq<seq<Byte>>, size: nat)
    requires Valid(e, size) && Keeps(e, []) && forall i | 0 <= i < |lines| :: IsLine(lines[i], size)
    ensures Keeps(Run(e, Typing(lines), size).0, lines)
    ensures |Run(e, Typing(lines), size).0.history| == |e.history|
    decreases |lines|
  {
    hide Run, Keeps, IsLine, Valid;
    if lines == [] {
      RunNone(e, size);
    } else {
      var n := |lines| - 1;
      TypeLines(e, lines[..n], size);
      RunAppend(e, Typing(lines[..n]), lines[n] + [13], size);
      TypeLine(Run(e, Typing(lines[..n]), size).0, lines[..n], lines[n], size);
      assert lines == lines[..n] + [lines[n]];
    }
  }

  /** Up, n times, from the line in progress. */
  lemma {:induction false} Ups(e: Editor, n: nat, size: nat)
    requires Valid(e, size) && e.pos == e.next
    ensures var r := Run(e, Presses([0x1B, 0x5B, 0x41], n), size).0;
      && r.next == e.next && |r.history| == |e.history| && r.pos == Back(e.next, n, |e.history|)
      && Saved(r) == Saved(e) && r.text == Saved(e)[r.pos]
  {
    hide Run;
    if n == 0 {
      RunNone(e, size);
    } else {
      Ups(e, n - 1, size);
      var mid := Run(e, Presses([0x1B, 0x5B, 0x41], n - 1), size).0;
      RunAppend(e, Presses([0x1B, 0x5B, 0x41], n - 1), [0x1B, 0x5B, 0x41], size);
      OtherKeys(mid, size);
      UpStep(e, mid, Run(mid, [0x1B, 0x5B, 0x41], size).0);
    }
  }

  lemma UpStep(e: Editor, mid: Editor, r: Editor)
    requires e.pos == e.next < |e.history| && mid.next == e.next && |mid.history| == |e.history|
    requires Saved(mid) == Saved(e) && mid.pos < |e.history| && mid.text == Saved(e)[mid.pos]
    requires r.next == mid.next && r.history == Saved(mid) && r.pos < |e.history| && r.text == Saved(mid)[r.pos]
    ensures Saved(r) == Saved(e) && r.text == Saved(e)[r.pos]
  {}

  /** And Down, as far as m times. */
  lemma {:induction false} UpsAndDowns(e: Editor, n: nat, m: nat, size: nat)
    requires Valid(e, size) && e.pos == e.next && m <= n < |e.history|
    ensures var r := Run(e, Presses([0x1B, 0x5B, 0x41], n) + Presses([0x1B, 0x5B, 0x42], m), size).0;
      && r.next == e.next && |r.history| == |e.history| && r.pos == Back(e.next, n - m, |e.history|)
      && Saved(r) == Saved(e) && r.text == Saved(e)[r.pos]
    decreases m
  {
    hide Run;
    var up, down := Presses([0x1B, 0x5B, 0x41], n), [0x1B, 0x5B, 0x42];
    if m == 0 {
      Ups(e, n, size);
      assert up + [] == up;
    } else {
      UpsAndDowns(e, n, m - 1, size);
      var mid := Run(e, up + Presses(down, m - 1), size).0;
      assert up + Presses(down, m) == (up + Presses(down, m - 1)) + down;
      RunAppend(e, up + Presses(down, m - 1), down, size);
      OtherKeys(mid, size);
      BackIs(e.next, n - m, |e.history|);
      BackIs(e.next, n - m + 1, |e.history|);
      UpStep(e, mid, Run(mid, down, size).0);
    }
  }

  /** After any lines were typed, n times Up shows the n-th last of them, as far as the ring reaches,
      and each Down from there one later, down to the empty line in progress. */
  lemma Recall(e: Editor, lines: seq<seq<Byte>>, n: nat, m: nat, size: nat)
    requires Valid(e, size) && Keeps(e, []) && forall i | 0 <= i < |lines| :: IsLine(lines[i], size)
    requires m <= n <= |lines| && n < |e.history|
    ensures Run(e, Typing(lines) + (Presses([0x1B, 0x5B, 0x41], n) + Presses([0x1B, 0x5B, 0x42], m)), size).0.text
         == if m == n then [] else lines[|lines| - (n - m)]
  {
    hide Run, Valid;
    var keys := Presses([0x1B, 0x5B, 0x41], n) + Presses([0x1B, 0x5B, 0x42], m);
    TypeLines(e, lines, size);
    var typed := Run(e, Typing(lines), size).0;
    RunAppend(e, Typing(lines), keys, size);
    UpsAndDowns(typed, n, m, size);
    BackIs(typed.next, n - m, |typed.history|);
  }
}
