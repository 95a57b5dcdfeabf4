/** CLImessage: the menu and setup flow around a session. It checks what the
    user types, numbers the conversations, acts on the choice and names a
    new conversation's file. */
module CLImessage {
  import opened Wrappers
  import opened JavaString
  import opened EmailUtils
  import Messenger

  /** Whether an address and password log in to the mail server (checkCreds). */
  type CredentialCheck = (string, string) -> bool

  /** getInput's acceptance rule for a reply to a prompt of kind `kind`. */
  predicate Accepts(kind: string, reply: string, lookup: CarrierLookup, creds: CredentialCheck) {
    if reply == [] then false
    else if StartsWith(kind, "op") && (!Contains(kind[2..], reply) || |reply| != 1) then false
    else if kind == "address" && !EndsWith(reply, "@gmail.com") then false
    else if StartsWith(kind, "password") && !creds(kind[IndexOf(kind, ':') + 1..], reply) then false
    else if kind == "number" && GetEmail(reply, lookup).None? then false
    else true
  }

  /** An option prompt accepts exactly the one-character replies that are
      among its options. */
  lemma OptionReplies(options: string, reply: string, lookup: CarrierLookup, creds: CredentialCheck)
    ensures Accepts("op" + options, reply, lookup, creds) <==> |reply| == 1 && reply[0] in options
  {
    var kind := "op" + options;
    assert StartsWith(kind, "op") && kind[2..] == options;
    assert !StartsWith(kind, "password") by { assert kind[0] != "password"[0]; }
    if |reply| == 1 {
      ContainsChar(options, reply[0]);
      assert reply == [reply[0]];
    }
  }

  /** The address prompt accepts exactly the G-Mail addresses, and the
      number prompt exactly the numbers that have a gateway address. */
  lemma AddressAndNumberReplies(reply: string, lookup: CarrierLookup, creds: CredentialCheck)
    ensures Accepts("address", reply, lookup, creds) <==> EndsWith(reply, "@gmail.com")
    ensures Accepts("number", reply, lookup, creds) <==> GetEmail(reply, lookup).Some?
  {
    assert !StartsWith("address", "op") && !StartsWith("address", "password") by {
      assert "address"[0] == 'a';
    }
    assert !StartsWith("number", "op") && !StartsWith("number", "password") by {
      assert "number"[0] == 'n';
    }
    if EndsWith(reply, "@gmail.com") {
      assert |reply| >= 10;
    }
    if GetEmail(reply, lookup).Some? {
      GetEmailMeaning(reply, lookup);
    }
  }

  /** A name prompt (kind "") accepts exactly the non-empty replies. */
  lemma NameReplies(reply: string, lookup: CarrierLookup, creds: CredentialCheck)
    ensures Accepts("", reply, lookup, creds) <==> reply != []
  {
  }

  /** The index of the first reply getInput accepts, if any. */
  function FirstAccepted(kind: string, replies: seq<string>, lookup: CarrierLookup, creds: CredentialCheck): (r: Option<nat>)
    ensures r.Some? ==> r.value < |replies| && Accepts(kind, replies[r.value], lookup, creds)
    ensures r.Some? ==> forall j :: 0 <= j < r.value ==> !Accepts(kind, replies[j], lookup, creds)
    ensures r.None? ==> forall j :: 0 <= j < |replies| ==> !Accepts(kind, replies[j], lookup, creds)
    decreases |replies|
  {
    if replies == [] then None
    else if Accepts(kind, replies[0], lookup, creds) then Some(0)
    else match FirstAccepted(kind, replies[1..], lookup, creds)
      case None => None
      case Some(i) => Some(i + 1)
  }

  /** getInput, with the retry on an invalid reply as a loop over the
      replies typed: the first acceptable one, or `None` while none is. */
  method GetInput(kind: string, replies: seq<string>, lookup: CarrierLookup, creds: CredentialCheck)
    returns (r: Option<string>, used: nat)
    ensures used <= |replies|
    ensures r.Some? ==> 1 <= used && r.value == replies[used - 1] && Accepts(kind, r.value, lookup, creds)
    ensures r.None? ==> used == |replies|
    ensures forall j :: 0 <= j < used && (r.None? || j < used - 1) ==> !Accepts(kind, replies[j], lookup, creds)
    ensures r.Some? <==> FirstAccepted(kind, replies, lookup, creds).Some?
    ensures r.Some? ==> used == FirstAccepted(kind, replies, lookup, creds).value + 1
  {
    used := 0;
    while used < |replies|
      invariant used <= |replies|
      invariant forall j :: 0 <= j < used ==> !Accepts(kind, replies[j], lookup, creds)
    {
      var reply := replies[used];
      used := used + 1;
      if Accepts(kind, reply, lookup, creds) {
        return Some(reply), used;
      }
    }
    return None, used;
  }

  /** The digits of the conversation numbers 1 to n, written one after another. */
  function Numbering(n: nat): string
    decreases n
  {
    if n == 0 then "" else Numbering(n - 1) + IntToString(n)
  }

  /** The display name of a conversation file: the name before its last '-';
      `None` where the substring call throws. */
  function DisplayName(fileName: string): Option<string> {
    Substring(fileName, 0, LastIndexOf(fileName, '-'))
  }

  function MenuLine(k: nat, name: string): string {
    "[" + IntToString(k) + "] " + name
  }

  /** main's loop over the conversation files: the menu lines and the
      numbers that make up the option prompt; `None` where a file name has
      no '-' and the substring call throws. */
  method ListConversations(files: seq<string>) returns (lines: seq<string>, numbers: Option<string>)
    ensures numbers.Some? <==> forall k :: 0 <= k < |files| ==> DisplayName(files[k]).Some?
    ensures numbers.Some? ==>
      (numbers.value == Numbering(|files|) && |lines| == |files|
       && forall k :: 0 <= k < |files| ==> lines[k] == MenuLine(k + 1, DisplayName(files[k]).value))
  {
    lines := [];
    var consecutive := "";
    for k := 0 to |files|
      invariant consecutive == Numbering(k) && |lines| == k
      invariant forall j :: 0 <= j < k ==> DisplayName(files[j]).Some? && lines[j] == MenuLine(j + 1, DisplayName(files[j]).value)
    {
      var name := DisplayName(files[k]);
      if name.None? {
        return lines, None;
      }
      lines := lines + [MenuLine(k + 1, name.value)];
      consecutive := consecutive + IntToString(k + 1);
    }
    numbers := Some(consecutive);
  }

  /** What main does with the choice. */
  datatype Choice = NewConversation | OpenConversation(index: nat) | Failure

  function Dispatch(choice: string, count: nat): Choice {
    if choice == "+" then NewConversation
    else match ParseInt(choice)
      case None => Failure
      case Some(v) => if 1 <= v <= count then OpenConversation(v - 1) else Failure
  }

  lemma {:induction false} NumberingIsDigits(n: nat)
    ensures forall i :: 0 <= i < |Numbering(n)| ==> IsDigit(Numbering(n)[i])
    decreases n
  {
    if n > 0 {
      NumberingIsDigits(n - 1);
    }
  }

  /** The numbers 1 to 9, as far as there are conversations, are in the
      option string. */
  lemma {:induction false} SmallNumbersListed(n: nat, k: nat)
    requires 1 <= k <= n && k <= 9
    ensures DigitChar(k) in Numbering(n)
    decreases n
  {
    if k == n {
      assert Numbering(n)[|Numbering(n)| - 1] == DigitChar(k);
    } else {
      SmallNumbersListed(n - 1, k);
      assert Numbering(n) == Numbering(n - 1) + IntToString(n);
    }
  }

  /** From ten conversations on, the option string holds a '0' (from "10"). */
  lemma {:induction false} ZeroListedFromTen(n: nat)
    requires n >= 10
    ensures '0' in Numbering(n)
    decreases n
  {
    if n == 10 {
      assert IntToString(10) == IntToString(1) + [DigitChar(0)];
      assert Numbering(10)[|Numbering(10)| - 1] == '0';
    } else {
      ZeroListedFromTen(n - 1);
      assert Numbering(n) == Numbering(n - 1) + IntToString(n);
    }
  }

  lemma ParseDigit(d: char)
    requires IsDigit(d)
    ensures ParseInt([d]) == Some(d as int - '0' as int)
  {
    assert [d][..0] == [];
    assert DigitsValue([d]) == d as int - '0' as int;
  }

  /** Every reply the menu accepts is "+", which starts a new conversation,
      or a single digit; so no conversation past the ninth can be opened. */
  lemma AcceptedChoices(n: nat, reply: string, lookup: CarrierLookup, creds: CredentialCheck)
    requires Accepts("op+" + Numbering(n), reply, lookup, creds)
    ensures reply == "+" ==> Dispatch(reply, n) == NewConversation
    ensures reply != "+" ==> |reply| == 1 && IsDigit(reply[0])
    ensures Dispatch(reply, n).OpenConversation? ==> Dispatch(reply, n).index < 9
  {
    assert "op+" + Numbering(n) == "op" + ("+" + Numbering(n));
    OptionReplies("+" + Numbering(n), reply, lookup, creds);
    NumberingIsDigits(n);
    if reply != "+" {
      assert reply == [reply[0]];
      assert reply[0] != '+';
      assert reply[0] in Numbering(n);
      ParseDigit(reply[0]);
    }
  }

  /** Conversations 1 to 9 can each be opened by typing their number. */
  lemma SmallChoicesOpen(n: nat, k: nat, lookup: CarrierLookup, creds: CredentialCheck)
    requires 1 <= k <= n && k <= 9
    ensures Accepts("op+" + Numbering(n), [DigitChar(k)], lookup, creds)
    ensures Dispatch([DigitChar(k)], n) == OpenConversation(k - 1)
  {
    assert "op+" + Numbering(n) == "op" + ("+" + Numbering(n));
    SmallNumbersListed(n, k);
    OptionReplies("+" + Numbering(n), [DigitChar(k)], lookup, creds);
    ParseDigit(DigitChar(k));
  }

  /** With ten or more conversations the reply "0" passes the check, and
      main then indexes the file array at -1 and fails. */
  lemma ZeroSlipsThrough(n: nat, lookup: CarrierLookup, creds: CredentialCheck)
    requires n >= 10
    ensures Accepts("op+" + Numbering(n), "0", lookup, creds)
    ensures Dispatch("0", n) == Failure
  {
    assert "op+" + Numbering(n) == "op" + ("+" + Numbering(n));
    ZeroListedFromTen(n);
    OptionReplies("+" + Numbering(n), "0", lookup, creds);
    ParseDigit('0');
  }

  /** The directory that holds the conversation files, and the separator. */
  const Dir := "userdata"
  const Sep := '/'

  function ConvoFileName(name: string, number: string): string {
    name + "-" + number + ".convo"
  }

  function ConvoPath(name: string, number: string): string {
    Dir + [Sep] + ConvoFileName(name, number)
  }

  /** The name and number newConvo reads: the first non-empty reply, then
      the first reply after it that has a gateway address. */
  function NewConvoReplies(replies: seq<string>, lookup: CarrierLookup, creds: CredentialCheck): Option<(string, string)> {
    match FirstAccepted("", replies, lookup, creds)
    case None => None
    case Some(i) =>
      match FirstAccepted("number", replies[i + 1..], lookup, creds)
      case None => None
      case Some(j) => Some((replies[i], replies[i + 1 + j]))
  }

  /** The replies a number prompt rejects are those without a gateway address. */
  lemma NumberRepliesFrom(replies: seq<string>, i: nat, lookup: CarrierLookup, creds: CredentialCheck)
    requires i <= |replies|
    ensures forall k :: i <= k < |replies| ==>
      (Accepts("number", replies[i..][k - i], lookup, creds) <==> GetEmail(replies[k], lookup).Some?)
  {
    forall k | i <= k < |replies|
      ensures Accepts("number", replies[i..][k - i], lookup, creds) <==> GetEmail(replies[k], lookup).Some?
    {
      assert replies[i..][k - i] == replies[k];
      AddressAndNumberReplies(replies[k], lookup, creds);
    }
  }

  /** A created conversation's name is the first non-empty reply; its number
      is the first later reply with a gateway address, and the replies in
      between have none. */
  lemma NewConvoRepliesSome(replies: seq<string>, lookup: CarrierLookup, creds: CredentialCheck)
    requires NewConvoReplies(replies, lookup, creds).Some?
    ensures var i := FirstAccepted("", replies, lookup, creds).value;
      var j := FirstAccepted("number", replies[i + 1..], lookup, creds).value;
      replies[i] != [] && (forall k :: 0 <= k < i ==> replies[k] == [])
      && i + 1 + j < |replies|
      && GetEmail(replies[i + 1 + j], lookup).Some?
      && (forall k :: i < k < i + 1 + j ==> GetEmail(replies[k], lookup).None?)
      && NewConvoReplies(replies, lookup, creds).value == (replies[i], replies[i + 1 + j])
  {
    var i := FirstAccepted("", replies, lookup, creds).value;
    NameReplies(replies[i], lookup, creds);
    forall k | 0 <= k < i
      ensures replies[k] == []
    {
      NameReplies(replies[k], lookup, creds);
    }
    NumberRepliesFrom(replies, i + 1, lookup, creds);
  }

  /** No conversation is created exactly when every reply is empty, or no
      reply after the first non-empty one has a gateway address. */
  lemma NewConvoRepliesNone(replies: seq<string>, lookup: CarrierLookup, creds: CredentialCheck)
    ensures NewConvoReplies(replies, lookup, creds).None? <==>
      match FirstAccepted("", replies, lookup, creds)
      case None => true
      case Some(i) => forall k :: i < k < |replies| ==> GetEmail(replies[k], lookup).None?
    ensures FirstAccepted("", replies, lookup, creds).None? <==> forall k :: 0 <= k < |replies| ==> replies[k] == []
  {
    forall k | 0 <= k < |replies|
      ensures Accepts("", replies[k], lookup, creds) <==> replies[k] != []
    {
      NameReplies(replies[k], lookup, creds);
    }
    match FirstAccepted("", replies, lookup, creds)
    case None =>
    case Some(i) =>
      NumberRepliesFrom(replies, i + 1, lookup, creds);
  }

  /** newConvo: asks for a name and a number, and names the new file. */
  method NewConvo(replies: seq<string>, lookup: CarrierLookup, creds: CredentialCheck)
    returns (name: string, number: string, path: Option<string>)
    ensures path.Some? <==> NewConvoReplies(replies, lookup, creds).Some?
    ensures path.Some? ==>
      ((name, number) == NewConvoReplies(replies, lookup, creds).value
       && name != [] && Accepts("number", number, lookup, creds) && path.value == ConvoPath(name, number))
  {
    var n, used := GetInput("", replies, lookup, creds);
    if n.None? {
      return "", "", None;
    }
    var m, _ := GetInput("number", replies[used..], lookup, creds);
    if m.None? {
      return n.value, "", None;
    }
    name, number := n.value, m.value;
    path := Some(ConvoPath(name, number));
  }

  /** The session finds the number again in the path of the file created
      for it, as long as the number has no '-' and no '.'. */
  lemma NumberFromPath(name: string, number: string)
    requires '-' !in number && '.' !in number
    ensures Messenger.ConvoNumber(ConvoPath(name, number)) == Some(number)
  {
    var path := ConvoPath(name, number);
    var before := Dir + [Sep] + name;
    assert path == before + ['-'] + (number + ".convo");
    LastIndexOfBefore(before, '-', number + ".convo");
    var upto := before + "-" + number;
    assert path == upto + ['.'] + "convo";
    LastIndexOfBefore(upto, '.', "convo");
    assert path[|before| + 1..|upto|] == number;
  }

  /** The menu shows the name again for the file created for it, as long as
      the number has no '-'. */
  lemma NameFromFileName(name: string, number: string)
    requires '-' !in number
    ensures DisplayName(ConvoFileName(name, number)) == Some(name)
  {
    var file := ConvoFileName(name, number);
    assert file == name + ['-'] + (number + ".convo");
    LastIndexOfBefore(name, '-', number + ".convo");
    assert file[..|name|] == name;
  }

  /** A new conversation reaches its counterpart: the number accepted at
      the prompt is parsed back from the file path, has a gateway address,
      and that address gives the receive worker the same number. */
  lemma NewConversationReachesNumber(name: string, number: string, lookup: CarrierLookup, creds: CredentialCheck)
    requires Accepts("number", number, lookup, creds)
    requires '-' !in number && '.' !in number && '@' !in number
    ensures Messenger.ConvoNumber(ConvoPath(name, number)) == Some(number)
    ensures GetEmail(number, lookup).Some?
    ensures Messenger.Counterpart(GetEmail(number, lookup)) == Some(number)
  {
    NumberFromPath(name, number);
    Messenger.GatewayGivesNumberBack(number, lookup);
  }
}
