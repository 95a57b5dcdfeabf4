/** EmailUtils: the SMS-gateway address of a phone number, and the scan of
    the inbox for the first message from the counterpart among the last
    eleven unseen, oldest first. The mail protocols and
    the carrier web page are outside the model: the carrier lookup is a
    parameter, the inbox's unseen messages an array. */
module EmailUtils {
  import opened Wrappers
  import opened JavaString

  /** The three query parameters of the carrier lookup. */
  datatype Query = Query(npa: string, nxx: string, block: string)

  /** The carrier name the lookup page gives for a query, or `None` when
      the fetch or the scrape fails. */
  type CarrierLookup = Query -> Option<string>

  /** The number's area code, exchange and remaining digits; `None` when the
      number is too short for the substrings taken. */
  function Split(number: string): (q: Option<Query>)
    ensures q.Some? <==> |number| >= 6
    ensures q.Some? ==> |q.value.npa| == 3 && |q.value.nxx| == 3
    ensures q.Some? ==> q.value.npa + q.value.nxx + q.value.block == number
  {
    if |number| < 6 then None
    else
      assert number == number[..3] + number[3..6] + number[6..];
      Some(Query(number[..3], number[3..6], number[6..]))
  }

  /** The seven supported carriers and their SMS-gateway domains. */
  const Carriers: seq<string> :=
    ["att", "tmobile", "verizon", "sprint", "metropcs", "boostmobile", "cricket"]

  function Domain(carrier: string): Option<string> {
    if carrier == "att" then Some("txt.att.net")
    else if carrier == "tmobile" then Some("tmomail.net")
    else if carrier == "verizon" then Some("vtext.com")
    else if carrier == "sprint" then Some("messaging.sprintpcs.com")
    else if carrier == "metropcs" then Some("mymetropcs.com")
    else if carrier == "boostmobile" then Some("sms.myboostmobile.com")
    else if carrier == "cricket" then Some("sms.cricketwireless.net")
    else None
  }

  /** getEmail: the address that forwards to `number` as SMS, or `None`
      (Java's null) for an unknown carrier or any failure on the way. */
  function GetEmail(number: string, lookup: CarrierLookup): Option<string> {
    match Split(number)
    case None => None
    case Some(q) =>
      match lookup(q)
      case None => None
      case Some(carrier) =>
        match Domain(carrier)
        case None => None
        case Some(d) => Some(number + "@" + d)
  }

  /** Only the seven carriers have a gateway, and no two share one. */
  lemma DomainTable(carrier: string, other: string)
    ensures Domain(carrier).Some? <==> carrier in Carriers
    ensures Domain(carrier).Some? && Domain(carrier) == Domain(other) ==> carrier == other
  {
  }

  /** A gateway address exists exactly when the number splits and the
      lookup names a supported carrier, and it is the number, "@" and that
      carrier's domain. */
  lemma GetEmailMeaning(number: string, lookup: CarrierLookup)
    ensures GetEmail(number, lookup).Some? <==>
      |number| >= 6 && lookup(Split(number).value).Some?
      && lookup(Split(number).value).value in Carriers
    ensures GetEmail(number, lookup).Some? ==>
      GetEmail(number, lookup).value == number + "@" + Domain(lookup(Split(number).value).value).value
  {
    if Split(number).Some? && lookup(Split(number).value).Some? {
      DomainTable(lookup(Split(number).value).value, "");
    }
  }

  /** How many unseen messages, counted from the newest, are searched. */
  const Window := 11

  datatype Body = Plain(text: string) | Multipart(parts: seq<string>) | OtherContent

  /** An unseen message: its sender address, its content and its DELETED flag. */
  datatype Mail = Mail(from: string, body: Body, deleted: bool)

  /** The result of one poll: the call threw, nothing to return (null), or a body. */
  datatype Poll = Failed | NoMail | Got(text: string)

  /** The parts of a multipart body joined in order. */
  function Concat(parts: seq<string>): string
    decreases |parts|
  {
    if parts == [] then "" else Concat(parts[..|parts| - 1]) + parts[|parts| - 1]
  }

  /** The text a message's content gives: a plain body as it is, a multipart
      body its parts joined; any other content gives none. */
  function Content(b: Body): Option<string> {
    match b
    case Plain(t) => Some(t)
    case Multipart(ps) => Some(Concat(ps))
    case OtherContent => None
  }

  /** The first index from `k` on whose sender contains `sender`. */
  function FirstFrom(s: seq<Mail>, sender: string, k: nat): (r: Option<nat>)
    requires k <= |s|
    ensures r.Some? ==> k <= r.value < |s| && Contains(s[r.value].from, sender)
    ensures r.Some? ==> forall j :: k <= j < r.value ==> !Contains(s[j].from, sender)
    ensures r.None? ==> forall j :: k <= j < |s| ==> !Contains(s[j].from, sender)
    decreases |s| - k
  {
    if k == |s| then None
    else if Contains(s[k].from, sender) then Some(k)
    else FirstFrom(s, sender, k + 1)
  }

  /** What recEmail returns for the unseen messages `s`. */
  function PollResult(s: seq<Mail>, sender: string): Poll {
    if |s| < Window then Failed
    else match FirstFrom(s, sender, |s| - Window)
      case None => NoMail
      case Some(j) =>
        match Content(s[j].body)
        case Some(t) => Got(t)
        case None => NoMail
  }

  /** The unseen messages after recEmail: the chosen one flagged DELETED. */
  function AfterPoll(s: seq<Mail>, sender: string): seq<Mail> {
    if |s| < Window then s
    else match FirstFrom(s, sender, |s| - Window)
      case None => s
      case Some(j) => s[j := s[j].(deleted := true)]
  }

  /** The body of a multipart message, built part by part. */
  method JoinParts(parts: seq<string>) returns (body: string)
    ensures body == Concat(parts)
  {
    body := "";
    for i := 0 to |parts|
      invariant body == Concat(parts[..i])
    {
      assert parts[..i + 1][..i] == parts[..i];
      body := body + parts[i];
    }
    assert parts[..|parts|] == parts;
  }

  /** recEmail over the unseen messages of the inbox, oldest first. */
  method RecEmail(unseen: array<Mail>, sender: string) returns (r: Poll)
    modifies unseen
    ensures r == PollResult(old(unseen[..]), sender)
    ensures unseen[..] == AfterPoll(old(unseen[..]), sender)
  {
    if unseen.Length < Window {
      // the first index, unseen.Length - 11, is negative: the access throws
      return Failed;
    }
    r := NoMail;
    var k := unseen.Length - Window;
    while k < unseen.Length
      invariant unseen.Length - Window <= k <= unseen.Length
      invariant unseen[..] == old(unseen[..])
      invariant FirstFrom(unseen[..], sender, unseen.Length - Window) == FirstFrom(unseen[..], sender, k)
    {
      var message := unseen[k];
      if Contains(message.from, sender) {
        match message.body {
          case Plain(text) =>
            r := Got(text);
          case Multipart(parts) =>
            var body := JoinParts(parts);
            r := Got(body);
          case OtherContent =>
        }
        unseen[k] := message.(deleted := true);
        return;
      }
      k := k + 1;
    }
  }

  /** Searching from `k` in `s` is searching from `k - off` in `s[off..]`. */
  lemma {:induction false} FirstFromDrop(s: seq<Mail>, sender: string, off: nat, k: nat)
    requires off <= k <= |s|
    ensures FirstFrom(s, sender, k) ==
      match FirstFrom(s[off..], sender, k - off)
      case None => None
      case Some(j) => Some(j + off)
    decreases |s| - k
  {
    if k < |s| {
      assert s[off..][k - off] == s[k];
      if !Contains(s[k].from, sender) {
        FirstFromDrop(s, sender, off, k + 1);
      }
    }
  }

  /** recEmail looks at nothing older than the last eleven unseen messages:
      with at least eleven, its result is that for the last eleven alone and
      the older ones are left as they were. */
  lemma PollSeesOnlyWindow(s: seq<Mail>, sender: string)
    requires |s| >= Window
    ensures var w := s[|s| - Window..];
      PollResult(s, sender) == PollResult(w, sender)
      && AfterPoll(s, sender) == s[..|s| - Window] + AfterPoll(w, sender)
  {
    var off := |s| - Window;
    var w := s[off..];
    FirstFromDrop(s, sender, off, off);
    assert s == s[..off] + w;
    match FirstFrom(w, sender, 0)
    case None =>
    case Some(j) =>
      assert w[j] == s[j + off];
      assert s[j + off := s[j + off].(deleted := true)] == s[..off] + w[j := w[j].(deleted := true)];
  }

  /** recEmail flags at most one message, the first in the window from the
      sender, and changes nothing else about any message; that message is
      flagged, and the poll returns its content, or null where the content
      is neither text nor multipart. */
  lemma PollFlagsOnlyFirstMatch(s: seq<Mail>, sender: string)
    ensures |AfterPoll(s, sender)| == |s|
    ensures forall i :: 0 <= i < |s| && AfterPoll(s, sender)[i] != s[i] ==>
      AfterPoll(s, sender)[i] == s[i].(deleted := true)
      && |s| - Window <= i && Contains(s[i].from, sender)
      && forall j :: |s| - Window <= j < i ==> !Contains(s[j].from, sender)
    ensures |s| >= Window && FirstFrom(s, sender, |s| - Window).Some? ==>
      var j := FirstFrom(s, sender, |s| - Window).value;
      AfterPoll(s, sender)[j] == s[j].(deleted := true)
      && PollResult(s, sender) == (if Content(s[j].body).Some? then Got(Content(s[j].body).value) else NoMail)
  {
  }

  /** When no message in the window comes from the sender, the poll returns
      null and flags nothing. */
  lemma PollWithoutMatch(s: seq<Mail>, sender: string)
    requires |s| >= Window
    requires forall j :: |s| - Window <= j < |s| ==> !Contains(s[j].from, sender)
    ensures PollResult(s, sender) == NoMail && AfterPoll(s, sender) == s
  {
  }
}
