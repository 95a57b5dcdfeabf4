/** The raw-mode line editor (RawConsole.getInput): keystroke codes in, a
    submitted line or a cancellation out, with everything it writes to the
    terminal on the way. */
module RawConsole {
  import opened Terminal

  const Enter := 13
  const Backspace := 127
  const CtrlC := 3

  predicate Printable(code: int) { 32 <= code <= 126 }

  predicate AllPrintable(s: string) {
    forall i :: 0 <= i < |s| ==> Printable(s[i] as int)
  }

  /** How a call ends: a submitted line, a Ctrl-C cancellation (the process
      exits), or, when the codes given run out first, still reading with
      `partial` in the buffer. */
  datatype Outcome = Submitted(line: string) | Cancelled | Waiting(partial: string)

  /** What a call did: how it ended, how many codes it read, what it wrote. */
  datatype Read = Read(outcome: Outcome, consumed: nat, effects: seq<Io>)

  /** Enter submits only a non-empty buffer. */
  predicate Submits(buf: string, code: int) { code == Enter && buf != [] }

  /** The buffer after a key that neither submits nor cancels. */
  function Edit(buf: string, code: int): string {
    if code == Backspace && buf != [] then buf[..|buf| - 1]
    else if Printable(code) then buf + [code as char]
    else buf
  }

  /** Backspace on a non-empty buffer removes exactly its last character and
      keeps the rest; a printable key appends itself; every other key,
      Backspace on an empty buffer included, leaves the buffer unchanged. */
  lemma EditMeaning(buf: string, code: int)
    ensures code == Backspace && buf != [] ==>
      |Edit(buf, code)| == |buf| - 1 && Edit(buf, code) + [buf[|buf| - 1]] == buf
    ensures Printable(code) ==> Edit(buf, code) == buf + [code as char]
    ensures !Printable(code) && (code != Backspace || buf == []) ==> Edit(buf, code) == buf
  {
    if code == Backspace && buf != [] {
      assert buf[..|buf| - 1] + [buf[|buf| - 1]] == buf;
    }
  }

  /** What such a key writes: the character itself, or for an effective
      backspace "\b " and one column back. */
  function Echo(buf: string, code: int): seq<Io> {
    if code == Backspace && buf != [] then [Print([Bs, ' ']), CursorBack(1)]
    else if Printable(code) then [Print([code as char])]
    else []
  }

  /** Ctrl-C: raw mode off, screen cleared, the process exits. */
  const CancelEffects: seq<Io> := [SetRaw(false), ClearScreen, Exit]

  /** The specification of getInput, one code at a time, from buffer `buf`. */
  function Run(codes: seq<int>, buf: string): (r: Read)
    ensures r.consumed <= |codes|
    ensures r.outcome.Waiting? ==> r.consumed == |codes|
    ensures r.outcome.Submitted? ==> r.outcome.line != []
    ensures r.outcome.Submitted? && AllPrintable(buf) ==> AllPrintable(r.outcome.line)
    decreases |codes|
  {
    if codes == [] then Read(Waiting(buf), 0, [])
    else if Submits(buf, codes[0]) then Read(Submitted(buf), 1, [])
    else if codes[0] == CtrlC then Read(Cancelled, 1, CancelEffects)
    else
      var rest := Run(codes[1..], Edit(buf, codes[0]));
      Read(rest.outcome, rest.consumed + 1, Echo(buf, codes[0]) + rest.effects)
  }

  /** getInput: reads codes until Enter on a non-empty buffer or Ctrl-C. */
  method GetInput(codes: seq<int>) returns (r: Outcome, consumed: nat, effects: seq<Io>)
    ensures Read(r, consumed, effects) == Run(codes, "")
    ensures r.Submitted? ==> r.line != [] && AllPrintable(r.line)
  {
    var ret := "";
    var i := 0;
    effects := [];
    while i < |codes|
      invariant 0 <= i <= |codes|
      invariant AllPrintable(ret)
      invariant Run(codes, "") == Shift(i, effects, Run(codes[i..], ret))
    {
      var ascii := codes[i];
      RunUnfold(codes, i, ret);
      ghost var written, buf := effects, ret;
      i := i + 1;
      if ascii == Enter && ret != [] {
        return Submitted(ret), i, effects;
      } else if ascii == Backspace && ret != [] {
        effects := effects + [Print([Bs, ' ']), CursorBack(1)];
        ret := ret[..|ret| - 1];
      } else if ascii == CtrlC {
        effects := effects + [SetRaw(false), ClearScreen, Exit];
        return Cancelled, i, effects;
      } else if Printable(ascii) {
        effects := effects + [Print([ascii as char])];
        ret := ret + [ascii as char];
      }
      assert effects == written + Echo(buf, ascii) && ret == Edit(buf, ascii);
      ShiftTwice(i - 1, written, Echo(buf, ascii), Run(codes[i..], ret));
    }
    assert codes[i..] == [];
    r, consumed := Waiting(ret), i;
  }

  /** One step of Run on the codes from position `i` on. */
  lemma RunUnfold(codes: seq<int>, i: nat, buf: string)
    requires i < |codes|
    ensures Run(codes[i..], buf) ==
      if Submits(buf, codes[i]) then Read(Submitted(buf), 1, [])
      else if codes[i] == CtrlC then Read(Cancelled, 1, CancelEffects)
      else Shift(1, Echo(buf, codes[i]), Run(codes[i + 1..], Edit(buf, codes[i])))
  {
    assert codes[i..][0] == codes[i];
    assert codes[i..][1..] == codes[i + 1..];
  }

  lemma ShiftTwice(n: nat, pre: seq<Io>, more: seq<Io>, rd: Read)
    ensures Shift(n, pre, Shift(1, more, rd)) == Shift(n + 1, pre + more, rd)
  {
    assert pre + (more + rd.effects) == (pre + more) + rd.effects;
  }

  /** A call's result after `n` codes already read and `pre` already written. */
  function Shift(n: nat, pre: seq<Io>, rd: Read): Read {
    Read(rd.outcome, rd.consumed + n, pre + rd.effects)
  }

  /** The buffer after editing with each code in turn, setting aside
      submission and cancellation. */
  function Fold(codes: seq<int>, buf: string): string
    decreases |codes|
  {
    if codes == [] then buf else Fold(codes[1..], Edit(buf, codes[0]))
  }

  /** What editing with each code in turn writes to the terminal. */
  function EchoTrace(codes: seq<int>, buf: string): seq<Io>
    decreases |codes|
  {
    if codes == [] then [] else Echo(buf, codes[0]) + EchoTrace(codes[1..], Edit(buf, codes[0]))
  }

  /** Code `k` ends the read: Ctrl-C, or Enter once the codes before it have
      left a non-empty buffer. */
  predicate Stops(codes: seq<int>, buf: string, k: nat)
    requires k < |codes|
  {
    codes[k] == CtrlC || Submits(Fold(codes[..k], buf), codes[k])
  }

  predicate NoStopBefore(codes: seq<int>, buf: string, i: nat)
    requires i <= |codes|
  {
    forall k :: 0 <= k < i ==> !Stops(codes, buf, k)
  }

  lemma PrefixShift(codes: seq<int>, buf: string, m: nat)
    requires 1 <= m <= |codes|
    ensures Fold(codes[..m], buf) == Fold(codes[1..][..m - 1], Edit(buf, codes[0]))
    ensures EchoTrace(codes[..m], buf) == Echo(buf, codes[0]) + EchoTrace(codes[1..][..m - 1], Edit(buf, codes[0]))
  {
    assert codes[..m][1..] == codes[1..][..m - 1];
  }

  lemma StopsShift(codes: seq<int>, buf: string)
    requires codes != []
    ensures forall k :: 1 <= k < |codes| ==>
      Stops(codes, buf, k) == Stops(codes[1..], Edit(buf, codes[0]), k - 1)
  {
    forall k | 1 <= k < |codes|
      ensures Stops(codes, buf, k) == Stops(codes[1..], Edit(buf, codes[0]), k - 1)
    {
      PrefixShift(codes, buf, k);
    }
  }

  /** A submitted line is the edit-fold of the codes before the first
      Enter that found a non-empty buffer, with no Ctrl-C before it; what
      was written is the echo of exactly those codes. */
  lemma {:induction false} SubmittedMeaning(codes: seq<int>, buf: string)
    requires Run(codes, buf).outcome.Submitted?
    ensures var r := Run(codes, buf);
      1 <= r.consumed && codes[r.consumed - 1] == Enter
      && r.outcome.line == Fold(codes[..r.consumed - 1], buf)
      && r.effects == EchoTrace(codes[..r.consumed - 1], buf)
      && NoStopBefore(codes, buf, r.consumed - 1)
    decreases |codes|
  {
    assert codes[..0] == [];
    if !Submits(buf, codes[0]) {
      var next := Edit(buf, codes[0]);
      var rest := Run(codes[1..], next);
      SubmittedMeaning(codes[1..], next);
      StopsShift(codes, buf);
      assert !Stops(codes, buf, 0);
      PrefixShift(codes, buf, rest.consumed);
    }
  }

  /** A cancellation comes at the first Ctrl-C that no submitting Enter
      precedes; what was written is the echo of the codes before it, then
      the teardown. */
  lemma {:induction false} CancelledMeaning(codes: seq<int>, buf: string)
    requires Run(codes, buf).outcome.Cancelled?
    ensures var r := Run(codes, buf);
      1 <= r.consumed && codes[r.consumed - 1] == CtrlC
      && r.effects == EchoTrace(codes[..r.consumed - 1], buf) + CancelEffects
      && NoStopBefore(codes, buf, r.consumed - 1)
    decreases |codes|
  {
    assert codes[..0] == [];
    if codes[0] != CtrlC {
      var next := Edit(buf, codes[0]);
      var rest := Run(codes[1..], next);
      CancelledMeaning(codes[1..], next);
      StopsShift(codes, buf);
      assert !Stops(codes, buf, 0);
      PrefixShift(codes, buf, rest.consumed);
    }
  }

  /** A read still waiting has read every code, met no Enter on a non-empty
      buffer and no Ctrl-C, and holds the edit-fold of them all. */
  lemma {:induction false} WaitingMeaning(codes: seq<int>, buf: string)
    requires Run(codes, buf).outcome.Waiting?
    ensures var r := Run(codes, buf);
      r.consumed == |codes| && r.outcome.partial == Fold(codes, buf)
      && r.effects == EchoTrace(codes, buf)
      && NoStopBefore(codes, buf, |codes|)
    decreases |codes|
  {
    if codes != [] {
      var next := Edit(buf, codes[0]);
      WaitingMeaning(codes[1..], next);
      StopsShift(codes, buf);
      assert codes[..0] == [];
      assert !Stops(codes, buf, 0);
    }
  }

  /** Conversely, the first code that stops the read decides it: Ctrl-C
      cancels whatever the buffer holds, Enter on a non-empty buffer submits
      it, and the call reads nothing after that code. */
  lemma FirstStopDecides(codes: seq<int>, buf: string, i: nat)
    requires i < |codes| && Stops(codes, buf, i) && NoStopBefore(codes, buf, i)
    ensures Run(codes, buf) ==
      if codes[i] == CtrlC then Read(Cancelled, i + 1, EchoTrace(codes[..i], buf) + CancelEffects)
      else Read(Submitted(Fold(codes[..i], buf)), i + 1, EchoTrace(codes[..i], buf))
  {
    var r := Run(codes, buf);
    match r.outcome
    case Submitted(line) =>
      SubmittedMeaning(codes, buf);
      assert Stops(codes, buf, r.consumed - 1);
      assert r.consumed - 1 == i;
    case Cancelled =>
      CancelledMeaning(codes, buf);
      assert Stops(codes, buf, r.consumed - 1);
      assert r.consumed - 1 == i;
    case Waiting(_) =>
      WaitingMeaning(codes, buf);
  }

  /** Once a read has ended, codes that arrive later change nothing. */
  lemma {:induction false} LaterCodesIgnored(codes: seq<int>, more: seq<int>, buf: string)
    requires !Run(codes, buf).outcome.Waiting?
    ensures Run(codes + more, buf) == Run(codes, buf)
    decreases |codes|
  {
    assert (codes + more)[0] == codes[0];
    if !Submits(buf, codes[0]) && codes[0] != CtrlC {
      assert (codes + more)[1..] == codes[1..] + more;
      LaterCodesIgnored(codes[1..], more, Edit(buf, codes[0]));
    }
  }

  /** Raw mode is switched off exactly once by a cancelled read, as its
      last writes, and never by any other read. */
  lemma {:induction false} DisablesOnlyOnCancel(codes: seq<int>, buf: string)
    ensures var r := Run(codes, buf);
      Disables(r.effects) == (if r.outcome.Cancelled? then 1 else 0)
      && (r.outcome.Cancelled? ==> |r.effects| >= 3 && r.effects[|r.effects| - 3..] == CancelEffects)
    decreases |codes|
  {
    if codes == [] {
    } else if Submits(buf, codes[0]) {
    } else if codes[0] == CtrlC {
      assert [ClearScreen, Exit][1..] == [Exit];
      assert Disables([Exit]) == 0;
      assert CancelEffects[1..] == [ClearScreen, Exit];
    } else {
      var e := Echo(buf, codes[0]);
      var rest := Run(codes[1..], Edit(buf, codes[0]));
      DisablesOnlyOnCancel(codes[1..], Edit(buf, codes[0]));
      DisablesAppend(e, rest.effects);
      assert Disables(e) == 0 by {
        if e != [] { assert e[1..] == [] || e[1..][1..] == []; }
      }
      if rest.outcome.Cancelled? {
        var all := e + rest.effects;
        assert all[|all| - 3..] == rest.effects[|rest.effects| - 3..];
      }
    }
  }

  /** The input line shows `buf` with the cursor just after it, and only
      blanks beyond. */
  predicate Shows(d: Display, buf: string) {
    d.cursor == |buf| <= |d.cells| && d.cells[..|buf|] == buf
    && forall i :: |buf| <= i < |d.cells| ==> d.cells[i] == ' '
  }

  /** Each key's echo turns the display of the buffer into the display of
      the edited buffer: a printable key shows its character once, and an
      effective backspace blanks exactly the last character and moves back
      over it. */
  lemma KeyShowsEdit(d: Display, buf: string, code: int)
    requires Shows(d, buf)
    ensures Shows(ApplyAll(d, Echo(buf, code)), Edit(buf, code))
  {
    var e := Echo(buf, code);
    if code == Backspace && buf != [] {
      var n := |buf|;
      var d0 := Put(d, Bs);
      var d1 := Put(d0, ' ');
      assert [Bs, ' '][1..] == [' '];
      assert [' '][1..] == [];
      assert PutAll(d0, [' ']) == d1;
      assert PutAll(d, [Bs, ' ']) == d1;
      assert d1.cells == d.cells[n - 1 := ' '] && d1.cursor == n;
      var d2 := Display(d1.cells, n - 1);
      assert e[1..] == [CursorBack(1)];
      assert ApplyAll(d1, [CursorBack(1)]) == d2 by {
        assert [CursorBack(1)][1..] == [];
      }
      assert ApplyAll(d, e) == d2;
    } else if Printable(code) {
      var c := code as char;
      assert [c][1..] == [];
      assert PutAll(d, [c]) == Put(d, c);
      assert e[1..] == [];
      var d1 := Put(d, c);
      assert d1.cells[..|buf| + 1] == buf + [c];
    }
  }

  /** The echoes of a run of keys leave the edit-fold of them on screen. */
  lemma {:induction false} TraceShowsFold(d: Display, codes: seq<int>, buf: string)
    requires Shows(d, buf)
    ensures Shows(ApplyAll(d, EchoTrace(codes, buf)), Fold(codes, buf))
    decreases |codes|
  {
    if codes != [] {
      var e := Echo(buf, codes[0]);
      KeyShowsEdit(d, buf, codes[0]);
      ApplyAllAppend(d, e, EchoTrace(codes[1..], Edit(buf, codes[0])));
      TraceShowsFold(ApplyAll(d, e), codes[1..], Edit(buf, codes[0]));
    }
  }

  /** When getInput returns a line, the echo it wrote shows exactly that
      line on an empty input line, cursor at its end. */
  lemma SubmittedLineOnScreen(codes: seq<int>)
    requires Run(codes, "").outcome.Submitted?
    ensures Shows(ApplyAll(Display([], 0), Run(codes, "").effects), Run(codes, "").outcome.line)
  {
    var r := Run(codes, "");
    SubmittedMeaning(codes, "");
    TraceShowsFold(Display([], 0), codes[..r.consumed - 1], "");
  }
}
