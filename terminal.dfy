/** What the client does to its controlling terminal. The exact ANSI bytes
    are not modelled; each write is one value, in the order it is made. */
module Terminal {

  /** The backspace control character. */
  const Bs: char := '\U{8}'

  datatype Io =
    | Print(text: string)   // literal text
    | ColumnZero            // cursor to the first column
    | CursorBack(n: nat)    // ESC [ n D
    | CursorDown(n: nat)    // ESC [ n B
    | SaveCursor            // ESC 7
    | RestoreCursor         // ESC 8
    | EraseLine             // erase the whole current line
    | EraseLineBackward     // erase from the line start to the cursor
    | ClearScreen           // erase the screen and home the cursor
    | SetRaw(on: bool)      // `stty raw` (true) or `stty cooked` (false)
    | Exit                  // the process ends

  /** RawConsole.println: column 0, the text and a newline, column 0. */
  function Println(s: string): seq<Io> {
    [ColumnZero, Print(s + "\n"), ColumnZero]
  }

  /** How many of the writes switch raw mode off. */
  function Disables(ios: seq<Io>): nat {
    if ios == [] then 0
    else (if ios[0] == SetRaw(false) then 1 else 0) + Disables(ios[1..])
  }

  lemma {:induction false} DisablesAppend(a: seq<Io>, b: seq<Io>)
    ensures Disables(a + b) == Disables(a) + Disables(b)
    decreases |a|
  {
    if a == [] {
      assert a + b == b;
    } else {
      assert (a + b)[1..] == a[1..] + b;
      DisablesAppend(a[1..], b);
    }
  }

  /** The input line as the user sees it: the characters on it and the
      cursor column. Only the writes the line editor makes move it. */
  datatype Display = Display(cells: string, cursor: nat)

  function Put(d: Display, ch: char): Display {
    if ch == Bs then Display(d.cells, if d.cursor == 0 then 0 else d.cursor - 1)
    else if d.cursor < |d.cells| then Display(d.cells[d.cursor := ch], d.cursor + 1)
    else Display(d.cells + [ch], |d.cells| + 1)
  }

  function PutAll(d: Display, s: string): Display
    decreases |s|
  {
    if s == [] then d else PutAll(Put(d, s[0]), s[1..])
  }

  function Apply(d: Display, io: Io): Display {
    match io
    case Print(t) => PutAll(d, t)
    case CursorBack(n) => Display(d.cells, if d.cursor < n then 0 else d.cursor - n)
    case _ => d
  }

  function ApplyAll(d: Display, ios: seq<Io>): Display
    decreases |ios|
  {
    if ios == [] then d else ApplyAll(Apply(d, ios[0]), ios[1..])
  }

  lemma {:induction false} ApplyAllAppend(d: Display, a: seq<Io>, b: seq<Io>)
    ensures ApplyAll(d, a + b) == ApplyAll(ApplyAll(d, a), b)
    decreases |a|
  {
    if a == [] {
      assert a + b == b;
    } else {
      assert (a + b)[1..] == a[1..] + b;
      ApplyAllAppend(Apply(d, a[0]), a[1..], b);
    }
  }
}
