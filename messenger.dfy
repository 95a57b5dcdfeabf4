/** Messenger: one conversation session. The list of messages (newest
    first) and the .convo file (oldest first) change together; the input
    and receive worker threads become two step methods, run one at a time. */
module Messenger {
  import opened Wrappers
  import opened JavaString
  import opened Terminal
  import RawConsole
  import opened EmailUtils

  datatype Direction = Sent | Received

  function Tag(d: Direction): string {
    match d
    case Sent => "sent"
    case Received => "received"
  }

  /** What follows the text of a log line, up to the timestamp. */
  function Tail(d: Direction): string {
    "  -  [" + Tag(d) + "] "
  }

  /** A log line: the text, the direction tag and the bracketed timestamp;
      `stamp` is the formatted date and time, taken as given. */
  function Entry(text: string, d: Direction, stamp: string): string {
    text + Tail(d) + "[" + stamp + "]"
  }

  /** The text, direction and timestamp of a log line, read from its end. */
  function ParseEntry(line: string): Option<(string, Direction, string)> {
    if line == [] || line[|line| - 1] != ']' then None
    else
      var body := line[..|line| - 1];
      var open := LastIndexOf(body, '[');
      if open < 0 then None
      else
        var head, stamp := body[..open], body[open + 1..];
        if EndsWith(head, Tail(Sent)) then Some((head[..|head| - |Tail(Sent)|], Sent, stamp))
        else if EndsWith(head, Tail(Received)) then Some((head[..|head| - |Tail(Received)|], Received, stamp))
        else None
  }

  /** Which tail a text followed by a tail ends with. */
  lemma TailOf(text: string, d: Direction)
    ensures EndsWith(text + Tail(d), Tail(Sent)) <==> d == Sent
    ensures d == Received ==> EndsWith(text + Tail(d), Tail(Received))
  {
    var h := text + Tail(d);
    assert h[|text|..] == Tail(d);
    if d == Received {
      assert h[|h| - 6] == Tail(Received)[|Tail(Received)| - 6] == 'i';
      assert Tail(Sent)[|Tail(Sent)| - 6] == 's';
      assert h[|h| - |Tail(Received)|..] == Tail(Received);
    } else {
      assert h[|h| - |Tail(Sent)|..] == Tail(Sent);
    }
  }

  /** Every log line gives back its text, direction and timestamp, as long
      as the timestamp has no '[' (the formatted date and time has none). */
  lemma ParseEntryOfEntry(text: string, d: Direction, stamp: string)
    requires '[' !in stamp
    ensures ParseEntry(Entry(text, d, stamp)) == Some((text, d, stamp))
  {
    var head := text + Tail(d);
    var line := Entry(text, d, stamp);
    var body := head + ['['] + stamp;
    assert line == body + [']'];
    assert line[..|line| - 1] == body;
    LastIndexOfBefore(head, '[', stamp);
    assert body[..|head|] == head;
    assert body[|head| + 1..] == stamp;
    TailOf(text, d);
    assert head[..|head| - |Tail(d)|] == text;
  }

  function Reverse<T>(s: seq<T>): (r: seq<T>)
    ensures |r| == |s|
    decreases |s|
  {
    if s == [] then [] else [s[|s| - 1]] + Reverse(s[..|s| - 1])
  }

  /** The list holds the file's lines last first: the last line at index 0. */
  lemma {:induction false} ReverseAt<T>(s: seq<T>, k: nat)
    requires k < |s|
    ensures Reverse(s)[k] == s[|s| - 1 - k]
    decreases |s|
  {
    if k > 0 {
      ReverseAt(s[..|s| - 1], k - 1);
    }
  }

  /** The list the constructor builds, with `entries` then added in turn at
      the front as messages are sent and received. */
  function PrependAll(list: seq<string>, entries: seq<string>): seq<string>
    decreases |entries|
  {
    if entries == [] then list else PrependAll([entries[0]] + list, entries[1..])
  }

  /** Loading the file after any run of appends gives the list in memory:
      prepending each new entry to the loaded list is loading the file with
      the entries appended. */
  lemma {:induction false} ReloadMatchesMemory(file: seq<string>, entries: seq<string>)
    ensures PrependAll(Reverse(file), entries) == Reverse(file + entries)
    decreases |entries|
  {
    if entries == [] {
      assert file + entries == file;
    } else {
      var file' := file + [entries[0]];
      assert file'[..|file'| - 1] == file;
      assert Reverse(file') == [entries[0]] + Reverse(file);
      ReloadMatchesMemory(file', entries[1..]);
      assert file' + entries[1..] == file + entries;
    }
  }

  /** The text of a .convo file whose lines were written by `println`, one
      line terminator after each. */
  function Text(lines: seq<string>): string
    decreases |lines|
  {
    if lines == [] then "" else lines[0] + "\n" + Text(lines[1..])
  }

  /** `Scanner.nextLine` over a file's text: the pieces between line
      terminators, with no empty piece after a final terminator. */
  function Lines(text: string): seq<string>
    decreases |text|
  {
    if text == [] then []
    else
      var i := IndexOf(text, '\n');
      if i < 0 then [text] else [text[..i]] + Lines(text[i + 1..])
  }

  /** Appending lines to the file appends their text. */
  lemma {:induction false} TextAppend(a: seq<string>, b: seq<string>)
    ensures Text(a + b) == Text(a) + Text(b)
    decreases |a|
  {
    if a == [] {
      assert a + b == b;
    } else {
      assert (a + b)[1..] == a[1..] + b;
      TextAppend(a[1..], b);
    }
  }

  /** A line without a terminator, then a terminator, is read as that line. */
  lemma LinesCons(line: string, rest: string)
    requires '\n' !in line
    ensures Lines(line + "\n" + rest) == [line] + Lines(rest)
  {
    var t := line + "\n" + rest;
    assert t == line + ['\n'] + rest;
    IndexOfAfter(line, '\n', rest);
    assert t[..|line|] == line;
    assert t[|line| + 1..] == rest;
  }

  /** Lines without a line terminator are read back one for one. */
  lemma {:induction false} LinesOfText(lines: seq<string>)
    requires forall k :: 0 <= k < |lines| ==> '\n' !in lines[k]
    ensures Lines(Text(lines)) == lines
    decreases |lines|
  {
    if lines != [] {
      LinesCons(lines[0], Text(lines[1..]));
      LinesOfText(lines[1..]);
    }
  }

  /** While no entry holds a line terminator, loading the file after any
      run of appends gives the list the session built in memory. */
  lemma ReloadFromText(file: seq<string>, entries: seq<string>)
    requires forall k :: 0 <= k < |file| ==> '\n' !in file[k]
    requires forall k :: 0 <= k < |entries| ==> '\n' !in entries[k]
    ensures Reverse(Lines(Text(file) + Text(entries))) == PrependAll(Reverse(file), entries)
  {
    TextAppend(file, entries);
    var all := file + entries;
    assert forall k :: 0 <= k < |all| ==> '\n' !in all[k] by {
      forall k | 0 <= k < |all|
        ensures '\n' !in all[k]
      {
        if k < |file| { assert all[k] == file[k]; } else { assert all[k] == entries[k - |file|]; }
      }
    }
    LinesOfText(all);
    ReloadMatchesMemory(file, entries);
  }

  /** A received text with a line break is one entry in memory but comes
      back as two after a reload: "hi\nthere" is written by one `println`
      and read by two `nextLine` calls. */
  lemma ReceivedBreakSplitsOnReload(stamp: string)
    requires '\n' !in stamp
    ensures var e := Entry("hi\nthere", Received, stamp);
      Lines(Text([e])) == ["hi", "there" + Tail(Received) + "[" + stamp + "]"]
      && Reverse(Lines(Text([e]))) != [e]
  {
    var e := Entry("hi\nthere", Received, stamp);
    var second := "there" + Tail(Received) + "[" + stamp + "]";
    assert '\n' !in Tail(Received);
    assert '\n' !in second;
    assert Text([e]) == "hi" + "\n" + (second + "\n" + "");
    LinesCons("hi", second + "\n" + "");
    LinesCons(second, "");
  }

  /** The phone number in a conversation's file name: between the last '-'
      and the last '.'; `None` where the substring call throws. */
  function ConvoNumber(filename: string): Option<string> {
    Substring(filename, LastIndexOf(filename, '-') + 1, LastIndexOf(filename, '.'))
  }

  /** The receive worker's counterpart number: the recipient address up to
      its first '@'; `None` where Java throws (a null recipient, no '@'). */
  function Counterpart(recipient: Option<string>): Option<string> {
    match recipient
    case None => None
    case Some(a) => Substring(a, 0, IndexOf(a, '@'))
  }

  /** The counterpart number taken from a gateway address is the number the
      address was made for. */
  lemma GatewayGivesNumberBack(number: string, lookup: CarrierLookup)
    requires '@' !in number
    requires GetEmail(number, lookup).Some?
    ensures Counterpart(GetEmail(number, lookup)) == Some(number)
  {
    GetEmailMeaning(number, lookup);
    var d := Domain(lookup(Split(number).value).value).value;
    IndexOfAfter(number, '@', d);
    assert number + "@" + d == number + ['@'] + d;
    assert (number + ['@'] + d)[..|number|] == number;
  }

  /** One line of the rendered list: erase the line, then the message. */
  function Row(m: string): seq<Io> {
    [ColumnZero, EraseLine, Print(m + "\n"), ColumnZero]
  }

  function Rows(ms: seq<string>): seq<Io>
    decreases |ms|
  {
    if ms == [] then [] else Rows(ms[..|ms| - 1]) + Row(ms[|ms| - 1])
  }

  /** dispMessages: save the cursor, move down past the header, write every
      message, restore the cursor. */
  function Render(ms: seq<string>): seq<Io> {
    [SaveCursor, CursorDown(2)] + Rows(ms) + [RestoreCursor]
  }

  lemma {:induction false} RowsShape(ms: seq<string>)
    ensures |Rows(ms)| == 4 * |ms|
    ensures forall k :: 0 <= k < |ms| ==> Rows(ms)[4 * k .. 4 * k + 4] == Row(ms[k])
    decreases |ms|
  {
    if ms != [] {
      var init := ms[..|ms| - 1];
      RowsShape(init);
      forall k | 0 <= k < |ms|
        ensures Rows(ms)[4 * k .. 4 * k + 4] == Row(ms[k])
      {
        if k < |init| {
          assert Rows(ms)[4 * k .. 4 * k + 4] == Rows(init)[4 * k .. 4 * k + 4];
        }
      }
    }
  }

  /** Rendering writes exactly one erased line per message, in list order
      (newest first), between a cursor save and a cursor restore. */
  lemma RenderShape(ms: seq<string>)
    ensures |Render(ms)| == 4 * |ms| + 3
    ensures Render(ms)[0] == SaveCursor && Render(ms)[1] == CursorDown(2)
    ensures Render(ms)[|Render(ms)| - 1] == RestoreCursor
    ensures forall k :: 0 <= k < |ms| ==> Render(ms)[4 * k + 2 .. 4 * k + 6] == Row(ms[k])
  {
    RowsShape(ms);
    var r := Render(ms);
    forall k | 0 <= k < |ms|
      ensures r[4 * k + 2 .. 4 * k + 6] == Row(ms[k])
    {
      assert r[4 * k + 2 .. 4 * k + 6] == Rows(ms)[4 * k .. 4 * k + 4];
    }
  }

  /** A send handed to the detached sender thread. */
  datatype SendRequest = SendRequest(to: Option<string>, text: string)

  /** error(): raw mode off, screen cleared, the report, the process exits. */
  const ErrorEffects: seq<Io> := [SetRaw(false), ClearScreen, Print("An error occurred:\n"), Exit]

  class Messenger {
    /** The gateway address messages go to; `None` for Java's null. */
    var recipient: Option<string>
    /** The conversation in memory, newest first. */
    var messages: seq<string>
    /** What the .convo file holds, oldest first: the lines it was loaded
        with, then one string per `println` since (its text is `Text(file)`). */
    var file: seq<string>
    /** Every send handed to a sender thread, in order. */
    var outbox: seq<SendRequest>
    /** Everything written to the terminal, in order. */
    var screen: seq<Io>
    /** The terminal is in raw mode. */
    var raw: bool
    /** The process has not exited. */
    var running: bool

    ghost predicate Valid()
      reads this
    {
      messages == Reverse(file)
    }

    /** The constructor after the number is parsed: reads the file's lines,
        each to the front of the list. */
    constructor (recipient: Option<string>, lines: seq<string>)
      ensures Valid() && file == lines && this.recipient == recipient
      ensures outbox == [] && screen == [Print("Connecting...")] && !raw && running
    {
      this.recipient := recipient;
      messages := [];
      file := lines;
      outbox := [];
      screen := [Print("Connecting...")];
      raw, running := false, true;
      new;
      var i := 0;
      while i < |lines|
        invariant 0 <= i <= |lines|
        invariant messages == Reverse(lines[..i])
        modifies this`messages
      {
        assert lines[..i + 1][..i] == lines[..i];
        messages := [lines[i]] + messages;
        i := i + 1;
      }
      assert lines[..i] == lines;
    }

    /** dispMessages. */
    method DispMessages()
      modifies this`screen
      ensures screen == old(screen) + Render(messages)
    {
      screen := screen + [SaveCursor, CursorDown(2)];
      for k := 0 to |messages|
        invariant screen == old(screen) + [SaveCursor, CursorDown(2)] + Rows(messages[..k])
      {
        assert messages[..k + 1][..k] == messages[..k];
        screen := screen + Row(messages[k]);
      }
      assert messages[..|messages|] == messages;
      screen := screen + [RestoreCursor];
    }

    /** start(), up to launching the two workers. */
    method Start()
      requires Valid() && running
      modifies this`screen, this`raw
      ensures raw
      ensures screen == old(screen) + [SetRaw(true), ClearScreen]
        + Println("Press CTRL + C to exit.") + Println("Type a message and press ENTER to send:\n")
        + Render(messages)
    {
      raw := true;
      screen := screen + [SetRaw(true), ClearScreen];
      screen := screen + Println("Press CTRL + C to exit.");
      screen := screen + Println("Type a message and press ENTER to send:\n");
      DispMessages();
    }

    /** sendMessage: hands the text to a detached sender thread. */
    method SendMessage(message: string)
      modifies this`outbox
      ensures outbox == old(outbox) + [SendRequest(recipient, message)]
    {
      outbox := outbox + [SendRequest(recipient, message)];
    }

    /** error(): the one teardown of every failure in a worker. */
    method Error()
      modifies this`screen, this`raw, this`running
      ensures !raw && !running && screen == old(screen) + ErrorEffects
    {
      raw := false;
      screen := screen + ErrorEffects;
      running := false;
    }

    /** One pass of the input worker on the keystroke codes `codes`, with
        `stamp` the time a line is completed. */
    method SendStep(codes: seq<int>, stamp: string) returns (consumed: nat)
      requires Valid() && running
      modifies this`messages, this`file, this`outbox, this`screen, this`raw, this`running
      ensures Valid()
      ensures var rd := RawConsole.Run(codes, "");
        consumed == rd.consumed &&
        match rd.outcome
        case Submitted(text) =>
          var e := Entry(text, Sent, stamp);
          messages == [e] + old(messages) && file == old(file) + [e]
          && outbox == old(outbox) + [SendRequest(recipient, text)]
          && screen == old(screen) + [Print(">")] + rd.effects + Render(messages) + [EraseLineBackward, ColumnZero]
          && raw == old(raw) && running
        case Cancelled =>
          messages == old(messages) && file == old(file) && outbox == old(outbox)
          && screen == old(screen) + [Print(">")] + rd.effects && !raw && !running
        case Waiting(_) =>
          messages == old(messages) && file == old(file) && outbox == old(outbox)
          && screen == old(screen) + [Print(">")] + rd.effects && raw == old(raw) && running
    {
      screen := screen + [Print(">")];
      var r, n, effects := RawConsole.GetInput(codes);
      consumed := n;
      screen := screen + effects;
      match r {
        case Submitted(message) =>
          var e := Entry(message, Sent, stamp);
          messages := [e] + messages;
          DispMessages();
          file := file + [e];
          assert file[..|file| - 1] == old(file);
          SendMessage(message);
          screen := screen + [EraseLineBackward, ColumnZero];
        case Cancelled =>
          raw, running := false, false;
        case Waiting(_) =>
      }
    }

    /** One pass of the receive worker over the inbox's unseen messages,
        with `stamp` the time a message is taken. */
    method ReceiveStep(unseen: array<Mail>, stamp: string)
      requires Valid() && running
      modifies this`messages, this`file, this`screen, this`raw, this`running, unseen
      ensures Valid() && outbox == old(outbox)
      ensures match Counterpart(recipient)
        case None =>
          messages == old(messages) && file == old(file) && screen == old(screen)
          && raw == old(raw) && running && unseen[..] == old(unseen[..])
        case Some(number) =>
          unseen[..] == AfterPoll(old(unseen[..]), number) &&
          match PollResult(old(unseen[..]), number)
          case Got(text) =>
            var e := Entry(text, Received, stamp);
            messages == [e] + old(messages) && file == old(file) + [e]
            && screen == old(screen) + Render(messages) && raw == old(raw) && running
          case NoMail =>
            messages == old(messages) && file == old(file) && screen == old(screen)
            && raw == old(raw) && running
          case Failed =>
            messages == old(messages) && file == old(file)
            && screen == old(screen) + ErrorEffects && !raw && !running
    {
      var number := Counterpart(recipient);
      if number.None? {
        // the worker thread dies on its first statement
        return;
      }
      var message := RecEmail(unseen, number.value);
      match message {
        case Got(text) =>
          var e := Entry(text, Received, stamp);
          messages := [e] + messages;
          DispMessages();
          file := file + [e];
          assert file[..|file| - 1] == old(file);
        case NoMail =>
        case Failed =>
          Error();
      }
    }
  }

  /** The constructor: `None` where parsing the number out of `filename`
      throws; `lines` are the file's lines and `lookup` the carrier lookup. */
  method Open(filename: string, lines: seq<string>, lookup: CarrierLookup) returns (m: Option<Messenger>)
    ensures m.None? <==> ConvoNumber(filename).None?
    ensures m.Some? ==>
      (fresh(m.value) && m.value.Valid() && m.value.file == lines
       && m.value.recipient == GetEmail(ConvoNumber(filename).value, lookup)
       && m.value.outbox == [] && m.value.running && !m.value.raw)
  {
    var number := ConvoNumber(filename);
    if number.None? {
      return None;
    }
    var messenger := new Messenger(GetEmail(number.value, lookup), lines);
    return Some(messenger);
  }
}
