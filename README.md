# CLImessage in Dafny

CLImessage is a terminal client for SMS text messages. It sends and receives
through a G-Mail account and the carriers' SMS gateways. This project models
its four pieces of sequential logic:

- **RawConsole** (`raw_console.dfy`): the raw-mode line editor. It turns
  keystroke codes into a submitted line or a Ctrl-C cancellation, and records
  everything it writes to the terminal.
- **Messenger** (`messenger.dfy`): one conversation session, as a class. The
  list of messages in memory (newest first) and the strings written to the
  `.convo` file (oldest first) always satisfy `messages == Reverse(file)`.
  Reading the file back splits its text at line terminators (`Lines`), so a
  reload gives the same list only while no entry holds a line break
  (`ReloadFromText`, `ReceivedBreakSplitsOnReload`). The two worker threads
  become the step methods `SendStep` and `ReceiveStep`, run one at a time.
  Rendering and the outbound send queue are modelled too.
- **EmailUtils** (`email_utils.dfy`):
  - the SMS-gateway address of a phone number, with the carrier lookup taken
    as a parameter;
  - the inbox scan over the last eleven unseen messages. It flags in place
    (an `array<Mail>`) the one message it takes.
- **CLImessage** (`climessage.dfy`):
  - the reply-acceptance rule of the prompts and their retry loop;
  - the conversation menu and its option string;
  - the dispatch of the chosen option;
  - the file name of a new conversation.

Supporting modules:

- `java_string.dfy`: Java's `String` operations as the source uses them.
  `indexOf` and `lastIndexOf` give -1 when the character is missing, a
  `substring` that would throw gives `None`, and `Integer.parseInt` includes
  its 32-bit range but reads only the ASCII digits '0' to '9'.
- `terminal.dfy`: terminal output as a sequence of `Io` events, plus a small
  interpretation (`Display`) of what the input line shows.
- `wrappers.dfy`: `Option`.

Java's `null` is `None` throughout. A thrown exception is `None`, `Failed` or
`Failure`, depending on where it is caught.

## Source behaviour the model keeps

- Loading a conversation does not parse its lines. The constructor stores
  each line as it is; nothing checks the entry format on load.
  `ParseEntryOfEntry` shows that the entry format can be parsed back.
- A failed inbox poll is fatal. The receive worker's catch calls `error()`,
  which exits the process. `ReceiveStep` models this, with `Failed` leading
  to `Error()`.
- With fewer than eleven unseen messages, the first index of the scan is
  negative and `recEmail` throws. `RecEmail` returns `Failed` there, and by
  the previous point that ends the session.
- The eleven-message window is the fixed constant `Window`, as at EmailUtils.java:106.
- A `null` recipient, from a number whose carrier is unknown, ends the
  receive thread on its first statement, outside the try block. `error()` is
  not called (the JVM prints the exception's stack trace), and the session
  goes on without receiving. `ReceiveStep` changes nothing in that case.
- With ten or more conversations, the option string contains the digit `0`
  (from "10"). So the reply `0` is accepted, and `main` then indexes the
  array at -1. `ZeroSlipsThrough` states this: the choice is accepted and
  `Dispatch` gives `Failure`.

## Model

| member | source | states |
|---|---|---|
| RawConsole.GetInput | src/main/java/com/github/thatcherdev/climessage/RawConsole.java:47-67 | the keystroke loop computes exactly the outcome, codes read and terminal writes of the specification `Run`; a submitted line is non-empty and all printable |
| RawConsole.Run | src/main/java/com/github/thatcherdev/climessage/RawConsole.java:49-65 | never reads more codes than given; still waiting only when every code was read; a submitted line is non-empty and keeps the buffer printable |
| RawConsole.Edit | src/main/java/com/github/thatcherdev/climessage/RawConsole.java:53-63 | the buffer after a key that neither submits nor cancels |
| RawConsole.Echo | src/main/java/com/github/thatcherdev/climessage/RawConsole.java:53-63 | what such a key writes: "\b " and one column back for an effective backspace, the character for a printable key, nothing otherwise |
| RawConsole.EditMeaning | src/main/java/com/github/thatcherdev/climessage/RawConsole.java:53-63 | backspace on a non-empty buffer removes exactly the last character; a printable code appends itself; every other code, backspace on an empty buffer included, leaves the buffer unchanged |
| RawConsole.SubmittedMeaning | src/main/java/com/github/thatcherdev/climessage/RawConsole.java:49-52 | a submitted line is the edit-fold of the codes before the first Enter on a non-empty buffer; that Enter is the last code read; no Ctrl-C comes before it; the writes are the echo of those codes |
| RawConsole.CancelledMeaning | src/main/java/com/github/thatcherdev/climessage/RawConsole.java:57-60 | a cancellation happens at the first Ctrl-C before any submitting Enter; it writes the echo of the earlier codes, then raw mode off, clear screen and exit |
| RawConsole.WaitingMeaning | src/main/java/com/github/thatcherdev/climessage/RawConsole.java:49-65 | a read that has not ended has read every code, met no stop, and holds the edit-fold of all of them |
| RawConsole.FirstStopDecides | src/main/java/com/github/thatcherdev/climessage/RawConsole.java:49-60 | the converse: the first stopping code decides the call whatever the buffer holds; Ctrl-C cancels and Enter submits the fold; nothing after it is read |
| RawConsole.LaterCodesIgnored | src/main/java/com/github/thatcherdev/climessage/RawConsole.java:51-52 | once a read has ended, codes that come later change nothing |
| RawConsole.DisablesOnlyOnCancel | src/main/java/com/github/thatcherdev/climessage/RawConsole.java:57-60 | raw mode is switched off exactly once by a cancelled read, as part of its last three writes, and never by any other read |
| RawConsole.KeyShowsEdit | src/main/java/com/github/thatcherdev/climessage/RawConsole.java:53-63 | the echo of one key (the character, or "\b " and one column back) turns the screen of the old buffer into the screen of the new buffer |
| RawConsole.TraceShowsFold | src/main/java/com/github/thatcherdev/climessage/RawConsole.java:49-65 | the echo of a sequence of keys leaves the input line showing the edit-fold of those keys |
| RawConsole.SubmittedLineOnScreen | src/main/java/com/github/thatcherdev/climessage/RawConsole.java:47-67 | when a line is submitted, the input line shows exactly that line, with the cursor after it |
| Terminal.Println | src/main/java/com/github/thatcherdev/climessage/RawConsole.java:35-37 | RawConsole.println: column zero, the text and a line terminator, column zero |
| Terminal.DisablesAppend | src/main/java/com/github/thatcherdev/climessage/RawConsole.java:25-27 | raw-mode switch-offs in consecutive writes add up |
| Terminal.ApplyAllAppend | src/main/java/com/github/thatcherdev/climessage/RawConsole.java:54-62 | applying consecutive writes to the screen is applying one after the other |
| Messenger.Messenger.constructor | src/main/java/com/github/thatcherdev/climessage/Messenger.java:42-54 | loading pushes each file line to the front, so the list is the file reversed; no sends, raw mode off |
| Messenger.Open | src/main/java/com/github/thatcherdev/climessage/Messenger.java:48 | a session opens exactly when the number can be cut from the file name; its recipient is that number's gateway address and its list is the file's lines reversed |
| Messenger.Messenger.DispMessages | src/main/java/com/github/thatcherdev/climessage/Messenger.java:125-131 | appends to the terminal exactly the rendering of the current list |
| Messenger.RenderShape | src/main/java/com/github/thatcherdev/climessage/Messenger.java:125-131 | the rendering is cursor save, two lines down, one erase-and-print row per message in list order (newest first), then cursor restore |
| Messenger.RowsShape | src/main/java/com/github/thatcherdev/climessage/Messenger.java:128-129 | the k-th group of four writes is the row of the k-th message |
| Messenger.Messenger.Start | src/main/java/com/github/thatcherdev/climessage/Messenger.java:68-73 | raw mode on, screen cleared, the two header lines, then the list |
| Messenger.Messenger.SendMessage | src/main/java/com/github/thatcherdev/climessage/Messenger.java:139-151 | records exactly one send of the text to the recipient |
| Messenger.Messenger.Error | src/main/java/com/github/thatcherdev/climessage/Messenger.java:175-183 | raw mode off, screen cleared, the report written, the process ended |
| Messenger.Messenger.SendStep | src/main/java/com/github/thatcherdev/climessage/Messenger.java:77-91 | a submitted line adds the sent entry at the front of the list and as the last file line, renders the list, and records one send of exactly the typed text; a cancellation changes no log and ends the process; the invariant list == reversed file is kept |
| Messenger.Messenger.ReceiveStep | src/main/java/com/github/thatcherdev/climessage/Messenger.java:97-113 | a polled message adds the received entry at the front of the list and as the last file line; no message changes nothing; a failed poll ends the session; the invariant is kept and no send is recorded |
| Messenger.ReloadMatchesMemory | src/main/java/com/github/thatcherdev/climessage/Messenger.java:49-51 | the list the constructor builds from the file's strings, with each new entry then put at the front, is the reversal of the file's strings with the entries appended |
| Messenger.Text | src/main/java/com/github/thatcherdev/climessage/Messenger.java:85 | the text a run of `println` calls writes: each string followed by a line terminator |
| Messenger.Lines | src/main/java/com/github/thatcherdev/climessage/Messenger.java:50-51 | the lines `nextLine` reads from a file's text: the pieces between line terminators |
| Messenger.TextAppend | src/main/java/com/github/thatcherdev/climessage/Messenger.java:85 | appending strings to the file appends their text |
| Messenger.LinesCons | src/main/java/com/github/thatcherdev/climessage/Messenger.java:50-51 | a string without a line break, then a terminator, is read back as that one line |
| Messenger.LinesOfText | src/main/java/com/github/thatcherdev/climessage/Messenger.java:50-51 | strings without line breaks are read back one for one |
| Messenger.ReloadFromText | src/main/java/com/github/thatcherdev/climessage/Messenger.java:49-51 | while no stored or appended entry holds a line break, reloading the file's text after any appends gives the list the session built in memory |
| Messenger.ReceivedBreakSplitsOnReload | src/main/java/com/github/thatcherdev/climessage/Messenger.java:107 | a received text "hi\nthere" is one entry in memory but two lines after a reload, so the reloaded list differs |
| Messenger.ReverseAt | src/main/java/com/github/thatcherdev/climessage/Messenger.java:50-51 | after loading, index k of the list holds the k-th file line counted from the end |
| Messenger.Reverse | src/main/java/com/github/thatcherdev/climessage/Messenger.java:50-51 | reversal keeps the length |
| Messenger.Entry | src/main/java/com/github/thatcherdev/climessage/Messenger.java:83 | the stored form of a message: text, "  -  [sent] " or "  -  [received] ", then the stamp in brackets |
| Messenger.ConvoNumber | src/main/java/com/github/thatcherdev/climessage/Messenger.java:48 | the file name between its last '-' and its last '.', or none where the substring throws |
| Messenger.Counterpart | src/main/java/com/github/thatcherdev/climessage/Messenger.java:97 | the recipient address before its first '@', or none for a null recipient or no '@' |
| Messenger.Row | src/main/java/com/github/thatcherdev/climessage/Messenger.java:129 | one rendered message: column zero, erase the line, the message and a line terminator, column zero |
| Messenger.Render | src/main/java/com/github/thatcherdev/climessage/Messenger.java:125-131 | cursor save, two lines down, the rows of the list in order, cursor restore |
| Messenger.ParseEntryOfEntry | src/main/java/com/github/thatcherdev/climessage/Messenger.java:83 | an entry text + "  -  [sent] " or "  -  [received] " + "[" stamp "]" can be parsed back into its text, direction and stamp |
| Messenger.TailOf | src/main/java/com/github/thatcherdev/climessage/Messenger.java:105 | an entry ends in the sent tag exactly when it was sent |
| Messenger.GatewayGivesNumberBack | src/main/java/com/github/thatcherdev/climessage/Messenger.java:97 | the counterpart cut from a gateway address before its first '@' is the number the address was made for |
| EmailUtils.Split | src/main/java/dev/thatcherclough/climessage/EmailUtils.java:136-137 | the query exists exactly for numbers of six or more characters; area code and exchange have three characters each; the three parts join back to the number |
| EmailUtils.Domain | src/main/java/dev/thatcherclough/climessage/EmailUtils.java:142-157 | the carrier table: att, tmobile, verizon, sprint, metropcs, boostmobile and cricket to their gateway domains, anything else to none |
| EmailUtils.GetEmail | src/main/java/dev/thatcherclough/climessage/EmailUtils.java:134-161 | number + "@" + the domain of the carrier the lookup names, or none when the split, the lookup or the table fails |
| EmailUtils.DomainTable | src/main/java/dev/thatcherclough/climessage/EmailUtils.java:142-157 | exactly the seven carriers have a gateway domain, and no two share one |
| EmailUtils.GetEmailMeaning | src/main/java/dev/thatcherclough/climessage/EmailUtils.java:134-161 | an address exists exactly when the number splits and the lookup names one of the seven carriers; it is number + "@" + that carrier's domain |
| EmailUtils.FirstFrom | src/main/java/dev/thatcherclough/climessage/EmailUtils.java:106-108 | the first index from k on whose sender contains the number, or none when no such index exists |
| EmailUtils.Concat | src/main/java/dev/thatcherclough/climessage/EmailUtils.java:114-116 | the parts of a multipart body joined in index order |
| EmailUtils.Content | src/main/java/dev/thatcherclough/climessage/EmailUtils.java:109-118 | a plain body as it is, a multipart body its parts joined, any other content none |
| EmailUtils.JoinParts | src/main/java/dev/thatcherclough/climessage/EmailUtils.java:114-116 | the body-building loop gives the parts concatenated in index order |
| EmailUtils.PollResult | src/main/java/dev/thatcherclough/climessage/EmailUtils.java:104-125 | fails with fewer than eleven unseen messages; otherwise the content of the first message in the window from the sender, or none |
| EmailUtils.AfterPoll | src/main/java/dev/thatcherclough/climessage/EmailUtils.java:104-125 | the unseen messages with that first match, and only it, flagged deleted |
| EmailUtils.RecEmail | src/main/java/dev/thatcherclough/climessage/EmailUtils.java:89-126 | returns the poll result of the unseen messages and leaves the array as `AfterPoll` describes; fails with fewer than eleven unseen messages |
| EmailUtils.PollSeesOnlyWindow | src/main/java/dev/thatcherclough/climessage/EmailUtils.java:104-107 | the result depends only on the last eleven unseen messages, and older ones are left untouched |
| EmailUtils.PollFlagsOnlyFirstMatch | src/main/java/dev/thatcherclough/climessage/EmailUtils.java:108-120 | at most one message changes, only by being flagged deleted, and it is the first one in the window from the sender; when there is such a message it is flagged, and the poll returns its content (null for content that is neither text nor multipart) |
| EmailUtils.PollWithoutMatch | src/main/java/dev/thatcherclough/climessage/EmailUtils.java:106-125 | with no message from the sender in the window, the poll returns null and flags nothing |
| EmailUtils.FirstFromDrop | src/main/java/dev/thatcherclough/climessage/EmailUtils.java:106 | searching from an offset is searching the suffix, with indices shifted |
| CLImessage.GetInput | src/main/java/com/github/thatcherdev/climessage/CLImessage.java:122-143 | the retry loop returns the first acceptable reply and how many replies it read; every earlier reply was rejected; none when no reply is acceptable; the reply is the one `FirstAccepted` finds |
| CLImessage.FirstAccepted | src/main/java/com/github/thatcherdev/climessage/CLImessage.java:122-143 | the index of the first reply the rule accepts, with every earlier reply rejected, or none when no reply is accepted |
| CLImessage.NameReplies | src/main/java/com/github/thatcherdev/climessage/CLImessage.java:125-126 | the name prompt accepts exactly the non-empty replies |
| CLImessage.Accepts | src/main/java/com/github/thatcherdev/climessage/CLImessage.java:125-139 | getInput's checks in order: empty rejected; an option prompt needs one character among its options; an address must end in "@gmail.com"; a password must pass the credential check; a number must have a gateway address |
| CLImessage.OptionReplies | src/main/java/com/github/thatcherdev/climessage/CLImessage.java:127-128 | an option prompt accepts a reply exactly when it is one character that occurs among the options |
| CLImessage.AddressAndNumberReplies | src/main/java/com/github/thatcherdev/climessage/CLImessage.java:125-139 | the address prompt accepts exactly replies ending in "@gmail.com"; the number prompt accepts exactly numbers with a gateway address; neither accepts the empty reply |
| CLImessage.ListConversations | src/main/java/com/github/thatcherdev/climessage/CLImessage.java:42-47 | the menu loop gives "[k] name" for each file and the option string Numbering(n); it fails exactly when some file name has no '-' |
| CLImessage.Numbering | src/main/java/com/github/thatcherdev/climessage/CLImessage.java:43-47 | the decimal numbers 1 to n written one after another |
| CLImessage.DisplayName | src/main/java/com/github/thatcherdev/climessage/CLImessage.java:45 | the file name before its last '-', or none where the substring throws |
| CLImessage.Dispatch | src/main/java/com/github/thatcherdev/climessage/CLImessage.java:49-52 | "+" starts a new conversation; otherwise parseInt(choice) - 1 opens that conversation when in range, and anything else fails |
| CLImessage.MenuLine | src/main/java/com/github/thatcherdev/climessage/CLImessage.java:45 | the menu line "[" + k + "] " + name |
| CLImessage.NumberingIsDigits | src/main/java/com/github/thatcherdev/climessage/CLImessage.java:46 | the option string after "+" holds only digits |
| CLImessage.SmallNumbersListed | src/main/java/com/github/thatcherdev/climessage/CLImessage.java:43-47 | each of the numbers 1 to 9, up to the count, is in the option string |
| CLImessage.ZeroListedFromTen | src/main/java/com/github/thatcherdev/climessage/CLImessage.java:43-47 | from ten conversations on, the option string contains '0' |
| CLImessage.ParseDigit | src/main/java/com/github/thatcherdev/climessage/CLImessage.java:52 | parseInt of one digit is its value |
| CLImessage.AcceptedChoices | src/main/java/com/github/thatcherdev/climessage/CLImessage.java:48-52 | an accepted choice is "+", which starts a new conversation, or one digit; no conversation past the ninth can ever be opened |
| CLImessage.SmallChoicesOpen | src/main/java/com/github/thatcherdev/climessage/CLImessage.java:48-52 | typing k, for k from 1 to 9 and up to the count, is accepted and opens the conversation at index k - 1 |
| CLImessage.ZeroSlipsThrough | src/main/java/com/github/thatcherdev/climessage/CLImessage.java:48-52 | with ten or more conversations the reply "0" is accepted and the dispatch fails |
| CLImessage.NewConvo | src/main/java/com/github/thatcherdev/climessage/CLImessage.java:90-98 | a path is created exactly when both prompts get an accepted reply; name and number are the replies `NewConvoReplies` picks, and the path is "userdata/" + name + "-" + number + ".convo" |
| CLImessage.NumberRepliesFrom | src/main/java/com/github/thatcherdev/climessage/CLImessage.java:136-139 | from any point on, the number prompt rejects exactly the replies without a gateway address |
| CLImessage.NewConvoRepliesSome | src/main/java/com/github/thatcherdev/climessage/CLImessage.java:90-95 | the name is the first non-empty reply; the number is the first later reply with a gateway address; the replies in between have none |
| CLImessage.NewConvoRepliesNone | src/main/java/com/github/thatcherdev/climessage/CLImessage.java:90-95 | no conversation is created exactly when every reply is empty, or no reply after the first non-empty one has a gateway address |
| CLImessage.ConvoPath | src/main/java/com/github/thatcherdev/climessage/CLImessage.java:95 | "userdata" + separator + name + "-" + number + ".convo" |
| CLImessage.NewConvoReplies | src/main/java/com/github/thatcherdev/climessage/CLImessage.java:90-95 | the name is the first non-empty reply, and the number the first reply after it with a gateway address |
| CLImessage.NumberFromPath | src/main/java/com/github/thatcherdev/climessage/CLImessage.java:95 | the session parses back the number from a new conversation's path when the number has no '-' or '.' |
| CLImessage.NameFromFileName | src/main/java/com/github/thatcherdev/climessage/CLImessage.java:45 | the menu shows back the name from a new conversation's file name when the number has no '-' |
| CLImessage.NewConversationReachesNumber | src/main/java/com/github/thatcherdev/climessage/CLImessage.java:90-98 | the path parses back to the number; if the constructor's carrier lookup gives the same answer as the prompt's did, the session has a gateway address and the receive worker's counterpart is that same number |
| JavaString.LastIndexOf | src/main/java/com/github/thatcherdev/climessage/Messenger.java:48 | -1 exactly when the character is missing, otherwise its last position |
| JavaString.IndexOf | src/main/java/com/github/thatcherdev/climessage/Messenger.java:97 | -1 exactly when the character is missing, otherwise its first position |
| JavaString.ContainsChar | src/main/java/com/github/thatcherdev/climessage/CLImessage.java:127 | a one-character string occurs in s exactly when its character does |
| JavaString.IntToString | src/main/java/com/github/thatcherdev/climessage/CLImessage.java:46 | the decimal form of n is all digits and has one digit exactly when n < 10 |
| JavaString.DigitsValueOfIntToString | src/main/java/com/github/thatcherdev/climessage/CLImessage.java:46 | the digits of n read back as n |
| JavaString.ParseInt | src/main/java/com/github/thatcherdev/climessage/CLImessage.java:52 | Integer.parseInt: an optional sign, then one or more digits whose value lies in the 32-bit range; none otherwise |
| JavaString.ParseIntOfIntToString | src/main/java/com/github/thatcherdev/climessage/CLImessage.java:52 | parseInt of a menu number gives the number back |
| JavaString.DigitChar | src/main/java/com/github/thatcherdev/climessage/CLImessage.java:46 | the digit character of d has value d |
| JavaString.LastIndexOfBefore | src/main/java/com/github/thatcherdev/climessage/Messenger.java:48 | the last c in a + [c] + b is at the length of a when b has no c |
| JavaString.IndexOfAfter | src/main/java/com/github/thatcherdev/climessage/Messenger.java:97 | the first c in a + [c] + b is at the length of a when a has no c |

## Left out

- Threads: the input, receive and send threads run concurrently in the source. Here they are step methods run one at a time, so interleavings and the lack of locking are not modelled.
- `Thread.sleep` before each poll and each send: wall-clock timing only.
- Timestamps: the `MM/dd/YYYY HH:mm:ss` formatting of the clock is a library call; the stamp is a string parameter.
- JavaMail: `checkCreds`, `sendEmail`, and the IMAP connect, search, `getContent` and close. The credential check is a function parameter, a send is a recorded `SendRequest`, and the unseen messages are an array given to `RecEmail`. Expunging on close, and the SEEN flag that fetching sets on the messages read, are not modelled.
- EmailUtils.RecEmail: a multipart part whose content is not a string (a ClassCastException in the source) is not modelled; parts are strings. A body that is neither a string nor multipart gives null and still flags the message, which `OtherContent` models.
- The fonefinder web page fetch and its scrape: the carrier name is the `lookup` parameter, and any failure there is `None`.
- `stty raw` and `stty cooked`: only the raw-mode flag (`SetRaw`, `Messenger.raw`) is modelled.
- Exact ANSI bytes and Jansi calls: terminal output is a sequence of `Io` events.
- The notification sound: an audio library whose failures are ignored.
- The credentials file: loaded in the constructor and written by the setup branch of `main`. The setup branch's prompts are covered by `Accepts` for the "address" and "password:" kinds, but the file writing, the restart and the waits for ENTER are not modelled.
- The directory listing, its filter on ".convo" and its order, the banner and the menu headings: the file names are the input of `ListConversations`.
- The text of `error()`'s report after "An error occurred:", and the messages printed before a retry in `getInput`.
- Messenger.Messenger.SendStep: a failure of the detached send thread ends the process through `Error()`; that later failure is not part of the step.
- RawConsole.GetInput: the source reads until Enter or Ctrl-C; here the codes are a finite sequence, and running out of them is the `Waiting` outcome.
- Messenger.Messenger.ReceiveStep: a received text is written by one `println` and recorded as one entry of `file`. If the text holds a line terminator (a CRLF-ended plain body, or multipart parts joined with line breaks), the file gets several lines, and the next load reads them as several entries in reverse order. `ReceivedBreakSplitsOnReload` shows this; the reload equality `ReloadFromText` is proved only for entries without '\n'.
- Messenger.Lines: splits at '\n' only; `Scanner.nextLine` also ends a line at '\r', "\r\n" and the Unicode line separators.
- Messenger.Messenger.constructor: a file whose last line has no terminator gets the first appended entry joined onto that line; the model's file text always ends each line with a terminator.
- CLImessage.NewConversationReachesNumber: the number prompt and the constructor each call getEmail, and each call is a separate web fetch. The model gives both the same `lookup`, so it assumes the second fetch names the same carrier as the first. If the second fails, the source's recipient is null and the session cannot receive.
- JavaString.ParseInt: reads only the ASCII digits; `Integer.parseInt` also accepts other Unicode decimal digits. The menu's options are ASCII digits, so the menu is not affected.
- CLImessage.NewConvo: creating the file and opening the session are not part of it; `Messenger.Open` models the opening.
