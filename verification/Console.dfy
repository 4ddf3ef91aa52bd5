/** The input buffer of the console (common/console.c): a NUL-terminated array edited in place,
    proved to be the line editor. Echoing to the terminal is not part of the model. */
module Console {
  import opened Octets
  import opened LineEditor
  import Memory

  class Console {
    const buf: array<Byte>
    var len: nat
    var pos: nat
    var esc: EscState
    var lastRxWasCr: bool
    var history: seq<seq<Byte>>
    var historyNext: nat
    var historyPos: nat

    ghost function Abs(): Editor
      reads this, buf
      requires len <= buf.Length
    {
      Editor(buf[..len], pos, esc, lastRxWasCr, history, historyNext, historyPos)
    }

    /** The text is NUL-terminated, with no NUL in it. */
    ghost predicate Valid()
      reads this, buf
    {
      len < buf.Length <= Memory.SPACE - 4 && buf[len] == NUL && LineEditor.Valid(Abs(), buf.Length)
    }

    constructor (size: nat, lines: nat)
      requires 0 < size <= Memory.SPACE - 4 && lines > 0
      ensures Valid() && fresh(buf) && buf.Length == size
      ensures Abs() == Editor([], 0, Outside, false, seq(lines, _ => []), 0, 0)
    {
      buf := new Byte[size](_ => NUL);
      len, pos, esc, lastRxWasCr := 0, 0, Outside, false;
      history, historyNext, historyPos := seq(lines, _ => []), 0, 0;
    }

    /** Lines 302-308: closes the gap left of the cursor. */
    method CloseGap()
      requires 0 < pos <= len < buf.Length <= Memory.SPACE - 4 && buf[len] == NUL
      modifies buf
      ensures buf[..len - 1] == old(buf[..len])[..pos - 1] + old(buf[..len])[pos..] && buf[len - 1] == NUL
    {
      hide Memory.Copied;
      ghost var before := buf[..];
      if pos != len {
        var r := Memory.Memmove(buf, pos - 1, pos, len - pos + 1);
        BackspacedImage(before, buf[..], len, pos);
        assert buf[..len - 1] == buf[..][..len - 1];
      } else {
        buf[len - 1] := NUL;
        assert buf[..len - 1] == before[..len][..pos - 1] + before[..len][pos..];
      }
    }

    /** handle_backspace (lines 293-316). */
    method HandleBackspace()
      requires Valid()
      modifies buf, this`len, this`pos
      ensures Valid() && Abs() == Backspace(old(Abs()))
    {
      if pos == 0 {
        return;
      }
      EditsKeepValid(Abs(), 0, buf.Length);
      BrowsingInRange(Abs(), buf.Length);
      hide LineEditor.Valid;
      CloseGap();
      len := len - 1;
      pos := pos - 1;
    }

    /** Lines 544-555: makes room at the cursor, stores the character, terminates the line. */
    method StoreChar(c: Byte)
      requires pos <= len < buf.Length - 1 && buf.Length <= Memory.SPACE - 4 && buf[len] == NUL
      modifies buf, this`len, this`pos
      ensures pos == old(pos) + 1 && len == old(len) + 1 && buf[len] == NUL
      ensures buf[..len] == old(buf[..len])[..old(pos)] + [c] + old(buf[..len])[old(pos)..]
    {
      hide Memory.Copied;
      ghost var before, moved := buf[..], buf[..];
      if pos != len {
        var r := Memory.Memmove(buf, pos + 1, pos, len - pos + 1);
        moved := buf[..];
      }
      buf[pos] := c;
      pos := pos + 1;
      len := len + 1;
      buf[len] := NUL;
      InsertedImage(before, moved, buf[..], len - 1, pos - 1, c);
      assert buf[..len] == buf[..][..len];
    }

    /** A printable character (lines 532-555). */
    method InsertChar(c: Byte)
      requires Valid()
      modifies buf, this`len, this`pos
      ensures Valid()
      ensures Abs() == if IsPrint(c) && |old(Abs()).text| < buf.Length - 1 then Insert(old(Abs()), c) else old(Abs())
    {
      if !IsPrint(c) {
        return;
      }
      if len >= buf.Length - 1 {
        return;
      }
      EditsKeepValid(Abs(), c, buf.Length);
      BrowsingInRange(Abs(), buf.Length);
      hide LineEditor.Valid;
      StoreChar(c);
    }

    /** strzcpy from a history line, then strlen (lines 264-280). */
    method LoadHistory(i: nat)
      requires Valid() && i < |history|
      modifies buf, this`len, this`pos, this`historyPos
      ensures Valid() && Abs() == Load(old(Abs()), i)
    {
      var row := history[i];
      ghost var size := buf.Length;
      var n := 0;
      while n < buf.Length - 1 && n < |row|
        modifies buf
        invariant n <= |row| < buf.Length
        invariant forall k | 0 <= k < n :: buf[k] == row[k]
      {
        buf[n] := row[n];
        n := n + 1;
      }
      buf[n] := NUL;
      pos := 0;
      while buf[pos] != NUL
        invariant pos <= |row|
        invariant forall k | 0 <= k < |row| :: buf[k] == row[k]
        invariant buf[|row|] == NUL && history == old(history) && row == history[i]
        invariant LineEditor.IsText(row, buf.Length)
        invariant esc == old(esc) && lastRxWasCr == old(lastRxWasCr) && historyNext == old(historyNext)
        invariant LineEditor.Valid(old(Abs()), buf.Length)
        decreases |row| - pos
      {
        pos := pos + 1;
      }
      len := pos;
      historyPos := i;
      assert buf[..len] == row;
    }

    method SaveHistory()
      requires Valid()
      modifies this`history
      ensures Valid() && history == old(history)[historyNext := buf[..len]]
    {
      history := history[historyNext := buf[..len]];
    }

    /** Lines 506-528. */
    method Browse(backwards: bool)
      requires Valid()
      modifies buf, this`len, this`pos, this`history, this`historyPos
      ensures Valid() && Abs() == if backwards then Previous(old(Abs())) else Following(old(Abs()))
    {
      hide LineEditor.Valid;
      if historyPos == historyNext {
        BrowsingInRange(Abs(), buf.Length);
        SaveHistory();
      }
      BrowsingInRange(Abs(), buf.Length);
      var i;
      if backwards {
        i := if historyPos == 0 then |history| - 1 else historyPos - 1;
      } else {
        i := if historyPos + 1 == |history| then 0 else historyPos + 1;
      }
      LoadHistory(i);
    }

    /** The line ends (lines 441-464). */
    method EndLine() returns (line: seq<Byte>)
      requires Valid()
      modifies buf, this`len, this`pos, this`history, this`historyNext, this`historyPos
      ensures Valid() && Abs() == Enter(old(Abs())) && line == old(Abs()).text
    {
      hide LineEditor.Valid;
      BrowsingInRange(Abs(), buf.Length);
      HistoryKeepsValid(Abs(), buf.Length);
      line := buf[..len];
      if len != 0 {
        SaveHistory();
        historyNext := if historyNext + 1 == |history| then 0 else historyNext + 1;
        historyPos := historyNext;
      }
      pos, len := 0, 0;
      buf[0] := NUL;
    }

    /** The switch on the key (lines 415-556). */
    method PressKey(key: Key) returns (line: Option<seq<Byte>>)
      requires Valid()
      modifies buf, this`len, this`pos, this`history, this`historyNext, this`historyPos
      ensures Valid() && Abs() == Press(old(Abs()), key, buf.Length)
      ensures line == if key == Char(NEWLINE) then Some(old(Abs()).text) else None
    {
      hide LineEditor.Valid, Insert, Backspace, Previous, Following, Enter, Load;
      PressKeepsValid(Abs(), key, buf.Length);
      BrowsingInRange(Abs(), buf.Length);
      line := None;
      if key == Del {
        if pos != len {
          MoveRightKeepsValid(Abs(), buf.Length);
          pos := pos + 1;
          HandleBackspace();
        }
      } else if key == Char(8) || key == Char(0x7F) {
        HandleBackspace();
      } else if key == Char(3) {
        pos, len := 0, 0;
        buf[0] := NUL;
      } else if key == Char(NEWLINE) {
        var text := EndLine();
        line := Some(text);
      } else if key == Char(1) || key == Home {
        pos := 0;
      } else if key == Char(2) || key == Left {
        if pos != 0 {
          pos := pos - 1;
        }
      } else if key == Char(5) || key == End {
        pos := len;
      } else if key == Char(6) || key == Right {
        if pos != len {
          pos := pos + 1;
        }
      } else if key == Char(11) {
        assert buf[..pos] == buf[..len][..pos];
        len := pos;
        buf[len] := NUL;
      } else if key == Char(16) || key == Up {
        Browse(true);
      } else if key == Char(14) || key == Down {
        Browse(false);
      } else if key.Char? {
        InsertChar(key.c);
      }
    }

    /** console_handle_char (lines 392-557). */
    method HandleChar(received: Byte) returns (line: Option<seq<Byte>>)
      requires Valid()
      modifies this, buf
      ensures Valid() && (Abs(), line) == Handle(old(Abs()), received, buf.Length)
    {
      hide Press, LineEditor.Valid;
      var c := received;
      if c == CR {
        lastRxWasCr := true;
        c := NEWLINE;
      } else if c == NEWLINE && lastRxWasCr {
        StateIgnored(Abs(), esc, false, buf.Length);
        lastRxWasCr := false;
        return None;
      } else {
        lastRxWasCr := false;
      }
      if c == ESC {
        StateIgnored(old(Abs()), Start, false, buf.Length);
        esc := Start;
        PressEaten(Abs(), buf.Length);
        return None;
      }
      var key := Char(c);
      if esc != Outside {
        var next, k := EscStep(esc, c).0, EscStep(esc, c).1;
        esc, key := next, k;
      }
      StateIgnored(old(Abs()), esc, lastRxWasCr, buf.Length);
      line := PressKey(key);
    }
  }

  lemma PressEaten(e: Editor, size: nat)
    requires LineEditor.Valid(e, size)
    ensures Press(e, Eaten, size) == e
  {}

  lemma BrowsingInRange(e: Editor, size: nat)
    requires LineEditor.Valid(e, size)
    ensures e.next < |e.history| && e.pos < |e.history| && e.cursor <= |e.text|
  {}

  lemma MoveRightKeepsValid(e: Editor, size: nat)
    requires LineEditor.Valid(e, size) && e.cursor < |e.text|
    ensures LineEditor.Valid(e.(cursor := e.cursor + 1), size)
  {}

  /** What moving the tail with its terminator down by one leaves. */
  lemma BackspacedImage(before: seq<Byte>, after: seq<Byte>, len: nat, pos: nat)
    requires 0 < pos < len < |before| && after == Memory.Copied(before, pos - 1, pos, len - pos + 1)
    ensures |after| == |before| && after[len - 1] == before[len]
    ensures after[..len - 1] == before[..len][..pos - 1] + before[..len][pos..]
  {
    hide Memory.Copied;
    var want := before[..len][..pos - 1] + before[..len][pos..];
    Memory.CopiedAt(before, pos - 1, pos, len - pos + 1, len - 1);
    forall k: nat | k < len - 1 ensures after[k] == want[k] {
      Memory.CopiedAt(before, pos - 1, pos, len - pos + 1, k);
    }
  }

  /** What moving it up by one and storing the character leaves. */
  lemma InsertedImage(before: seq<Byte>, moved: seq<Byte>, after: seq<Byte>, len: nat, pos: nat, c: Byte)
    requires pos <= len < |before| - 1
    requires moved == if pos == len then before else Memory.Copied(before, pos + 1, pos, len - pos + 1)
    requires after == moved[pos := c][len + 1 := NUL]
    ensures after[..len + 1] == before[..len][..pos] + [c] + before[..len][pos..]
  {
    hide Memory.Copied;
    var want := before[..len][..pos] + [c] + before[..len][pos..];
    forall k: nat | k < len + 1 ensures after[k] == want[k] {
      if pos < len {
        Memory.CopiedAt(before, pos + 1, pos, len - pos + 1, k);
      }
    }
  }
}
