# Swirc, verified

A Dafny model of the parts of Swirc, a terminal IRC and ICB client, that can be stated exactly, with
proofs of what they promise. `dafny verify dfyconfig.toml` checks all of it.

The model keeps the shape of the C and C++ code: what works on a buffer in place works on an array,
what rewires nodes is a class with `next` and `prev` fields, what is carried between calls is a field.
Every such method is proved against a specification function, and the lemmas beside it say what that
function means.

- **Text.** `TextDecoration` is the grammar of the mIRC formatting codes. `SqueezeTextDeco` strips them
  in place with an index that it moves back; `PrintText` decodes them with a different automaton and
  wraps words into rows (`WordWrap`, `LookAhead`, `Layout`, `LongWords`). `ColorCodes` says which
  colours a code sets and what vanishes with it, and `Indentation` where the indent stands. `Utf8` and
  `Rendering` show that both see the same text, although one works on bytes and the other on wide
  characters; `WideText` takes wide text through the stripper and its two buffers.
- **IRC.** `IrcStream` says what a byte stream means as messages and exactly which chunks the receiver
  handles; `IrcRuns` does so for whole connections, `IrcReceiver` is the code, and `MessageCompo` splits
  each message into its tags and components.
- **Passwords.** `Base64` and `Base64Codec` are the codec (section 4 of RFC 4648), its measuring pass
  and its buffer sizes; `Crypt` is the pipeline of cipher, base64 and rot13.
- **Input.** `Readline` is the line editor and `TabCompletion` the circulation through matches.
- **Windows.** `TextBuffer` is the doubly linked list behind a window. `Chains` is the chained hash
  table on the heap; `WindowModel`, `WindowRuns` and `WindowTable` are the window table on it.
- **Settings.** `ConfigTable` is the settings table on `Chains`, `ConfigFile` the parser of a line, and
  `ConfigSave` the file.
- **Connections.** `HostMatch` is the wildcard rule for certificate names (section 6.4.3 of RFC 6125)
  and `Wildcards` what it accepts of names put together from labels; `DccRequest` and `DccTransfer` are
  DCC file transfers, `Reconnect` is the back-off.

Where the code does less than one would expect, the model keeps the code and a lemma says exactly when
it does what is expected:

- A receive chunk is handled faithfully exactly when `IrcStream.Handled` holds of it
  (`IrcStream.FaithfulExactly`). A chunk that begins with a lone separator while a message is carried
  over never is (`IrcStream.UnfaithfulSeparatorFirst`), nor is one without a separator
  (`UnfaithfulWithoutSeparator`), with a line equal to its own tail (`LineEqualToTailFails`), or with a
  tail behind a lone CR (`TailBehindCrFails`).
- A text that ends inside a colour code is not safe to strip or to render without scrolling; a line
  feed at its end is enough (`SqueezeTextDeco.NewlineTerminatedIsSafe`).
- A text decodes exactly when it is, apart from white space, a canonical encoding
  (`Base64.DecodesExactly`). Decoding needs one byte more than it returns unless the length is a
  multiple of three (`Base64Codec.PassesAgree`), and the size computed for encoding is right below a
  quarter of the 32-bit range and only there (`Base64Codec.EncodeLengthExact`).
- A word that fits an indented row stays whole when the look-ahead sees all of it
  (`Layout.WordsStayWhole`): when it has no codes, cannot be converted, or has at most 6143 bytes. A
  longer word with codes can be torn (`LongWords.LongWordIsTorn`). In a text of fewer than 6143 bytes
  every look-ahead is safe and sees its word (`LookAhead.ShortTextIsSafe`).
- Tab finds the first match exactly when the searched text has fewer than 64 bytes and the match can be
  shown (`TabCompletion.FirstTabShowsFirstMatch`); a longer text is not searched for
  (`LongSearchFails`).
- Tab shows the next match exactly when the input line is not full, the match with the texts around it
  has at most 2000 cells, and the match is ASCII (`TabCompletion.NextTabShowsNextMatch`). A full line
  is emptied instead (`FullLineFails`), a longer match is written past the end of the buffer
  (`LongMatchFails`), and other bytes are typed as WEOF (`NonAsciiMatchFails`).
- The settings survive being saved and read exactly when every value written has no quote, no line feed
  and at most 478 characters; a SASL password that is stored decrypted is written in its encrypted form
  (`ConfigSave.SaveRoundTrip`).
- A message is split into components without parameters exactly when it is a form of AWAY
  (`MessageCompo.SortedWithoutParams`).

## Model

| member | source | states |
|---|---|---|
| TextDecoration.VisibleHasNoFormat | src/squeeze_text_deco.cpp:161-184 | none of the six formatting bytes is left in the visible text |
| TextDecoration.CodesAre | src/squeeze_text_deco.cpp:161-184 | these are the bytes 0x02, 0x03, 0x0F, 0x16, 0x1D and 0x1F; all but the colour byte stand alone |
| TextDecoration.VisibleIsIdempotent | src/squeeze_text_deco.cpp:161-184 | stripping a second time changes nothing |
| TextDecoration.VisibleIsSubsequence | src/squeeze_text_deco.cpp:161-184 | the visible text is a subsequence of the input |
| TextDecoration.CodeHoldsNoColor | src/squeeze_text_deco.cpp:142-159 | no colour code begins inside another one, so that codes next to each other are read one by one, and none holds a space or a line feed |
| TextDecoration.PlainEndIsOutsideCode | src/printtext.cpp:1565-1568 | a text whose last character is no digit, comma or colour byte ends outside any colour code |
| SqueezeTextDeco.HandleFooSituation | src/squeeze_text_deco.cpp:49-58 | the push-back of one index leaves the automaton at the character behind the code, whatever that character is |
| SqueezeTextDeco.Check1 | src/squeeze_text_deco.cpp:63-71 | the first character behind the colour byte: goes on exactly for a digit |
| SqueezeTextDeco.Check2 | src/squeeze_text_deco.cpp:76-84 | the second: goes on exactly for a digit or a comma |
| SqueezeTextDeco.Check3 | src/squeeze_text_deco.cpp:89-105 | the third: goes on exactly when a background may still follow, and otherwise resumes at the end of the code |
| SqueezeTextDeco.Check4 | src/squeeze_text_deco.cpp:110-127 | the fourth, with dangling commas given back |
| SqueezeTextDeco.Check5 | src/squeeze_text_deco.cpp:132-140 | the fifth, where a full code ends |
| SqueezeTextDeco.Color | src/squeeze_text_deco.cpp:142-159 | from a colour byte on, exactly the code is skipped and nothing of what was already written is lost |
| SqueezeTextDeco.StripOne | src/squeeze_text_deco.cpp:168-180 | one round of the loop: the read index advances in spite of the decrements, the write index never passes it, and what is written is the visible text so far |
| SqueezeTextDeco.SqueezeTextDeco | src/squeeze_text_deco.cpp:161-184 | whatever stands behind the terminator, the buffer ends up with exactly the visible text and its terminator; the scan stays in the text if and only if the text does not end inside a code or a second terminator follows the first |
| SqueezeTextDeco.NewlineTerminatedIsSafe | src/printtext.cpp:1565-1568 | a text with a line feed at its end never ends inside a code |
| Utf8.EncodeAligned | src/printtext.cpp:398-437 | in the encoded text every ASCII byte stands for itself and no byte of a longer character can be taken for one |
| Utf8.BytesOfCharacter | src/printtext.cpp:398-437 | one to four bytes by the range of the character, whose bits stand in the low bits of the bytes |
| Utf8.BytesOfExamples | src/printtext.cpp:398-437 | the examples of section 7 of RFC 3629 |
| Utf8.StripCommutes | src/squeeze_text_deco.cpp:234-265 | stripping the bytes of a text and stripping its characters give the same text |
| Utf8.SameOpen | src/squeeze_text_deco.cpp:234-265 | the bytes end inside a colour code exactly when the characters do |
| WideText.StoreMbs | src/squeeze_text_deco.cpp:186-206 | the bytes of as many characters as fit, or failure at one that cannot be converted |
| WideText.StoreTmp | src/squeeze_text_deco.cpp:208-228 | the characters of the bytes, at most 4095, or failure at bytes that are no character |
| WideText.DecodedEncoding | src/squeeze_text_deco.cpp:186-228 | converting to bytes and back gives the text, as far as there is room |
| WideText.FitsExactly | src/squeeze_text_deco.cpp:186-206 | a text that can be converted is converted to its end if and only if it has fewer than 6144 bytes |
| WideText.FittingIsStripped | src/squeeze_text_deco.cpp:234-265 | then the wide stripper leaves exactly its visible text |
| WideText.SqueezeTextDecoWide | src/squeeze_text_deco.cpp:234-265 | in place, through both buffers: what is left of every wide text; reading stays within the first buffer if and only if it is not full or its text does not end inside a code |
| PrintText.CheckForPart1 | src/printtext.cpp:451-472 | the renderer's first step: where it goes, where it stops, where the text ends |
| PrintText.CheckForPart2 | src/printtext.cpp:479-505 | the second step, with the pointer given back when the code ends early |
| PrintText.CheckForPart3 | src/printtext.cpp:512-546 | the third step: a comma or a second digit, a background digit, or the end of the code |
| PrintText.CheckForPart4 | src/printtext.cpp:553-577 | the fourth step, with dangling commas given back |
| PrintText.CheckForPart5 | src/printtext.cpp:584-604 | the fifth step |
| PrintText.CaseColor | src/printtext.cpp:697-736 | the pointer ends on the last character of the same code that the stripper skips, and the colours are the numbers written in it; at a code that the text cuts off nothing is set. Which numbers these are is said by `ColorCodes` |
| ColorCodes.BothAreRead | src/printtext.cpp:675-736 | for all foregrounds and backgrounds below 100, written with one or two digits: the code with a comma between them sets exactly these two |
| ColorCodes.ForegroundIsRead | src/printtext.cpp:675-736 | a code with a foreground only sets it and the default background |
| ColorCodes.NothingIsRead | src/printtext.cpp:675-736 | a colour byte without digits behind it sets nothing |
| ColorCodes.RejectVanishes | src/squeeze_text_deco.cpp:161-184 | behind plain text, a code of one character vanishes and nothing else does |
| ColorCodes.BothVanish | src/squeeze_text_deco.cpp:142-159 | so does a colour code with both numbers written out |
| ColorCodes.ForegroundVanishes | src/squeeze_text_deco.cpp:142-159 | so does one with a foreground; a comma that no digit follows stays visible |
| PrintText.DoIndent | src/printtext.cpp:741-759 | exactly `indent` blanks are emitted and counted |
| PrintText.NewRow | src/printtext.cpp:761-769 | a break, and behind it the indent unless the line limit is reached |
| PrintText.CaseDefault | src/printtext.cpp:789-851 | one visible character: breaks, dropped spaces and the counts of columns, lines and breaks stay what the emitted cells say |
| PrintText.PutsScrolling | src/printtext.cpp:1570-1658 | the loop emits the reference layout, cut at the line limit, and returns the number of breaks emitted; every row behind a break is indented by exactly the indent, and blanks stand nowhere else; without a limit it is safe if and only if every look-ahead is |
| PrintText.MeasureAhead | src/printtext.cpp:1598-1631 | the columns asked for at a space, measured on a copy that is stripped in place when it holds codes; safe exactly when that is |
| PrintText.PutsPlain | src/printtext.cpp:1570-1658 | without scrolling the glyphs of the visible text are emitted, safely exactly when the text does not end inside a code or its comma |
| PrintText.PrinttextPuts | src/printtext.cpp:1538-1658 | both modes, the empty text, what happens to earlier output, rows that are indented and stay so, and when reading stays within its buffers |
| PrintText.LimitedStep | src/printtext.cpp:789-851 | the line limit cuts the layout exactly at the break that reaches it |
| PrintText.CutIsIndented | src/printtext.cpp:741-769 | a layout that is cut at the break that reaches the limit keeps its rows indented |
| Layout.StepEffect | src/printtext.cpp:789-851 | one character adds itself to the unwrapped text, breaks exactly at a line feed or when the word does not fit, and never overfills a row |
| Layout.SpaceBreaksExactly | src/printtext.cpp:1598-1640 | at a space with another one behind it: it stays on the row exactly when it, all that is visible up to the next one and one more column fit, and otherwise becomes a break with its indent |
| Layout.CharacterBreaksExactly | src/printtext.cpp:789-851 | at every other character, and at the last space: which cells it adds, and that it breaks exactly when one column more than it needs is not there |
| Layout.RenderUnwraps | src/printtext.cpp:1573-1640 | undoing breaks and indents gives back the shown characters of the visible text |
| Indentation.RenderIsIndented | src/printtext.cpp:741-851 | in the layout of every text, each break but one at the very end is followed by exactly the columns of the indent and then a glyph, and no blank stands anywhere else |
| Layout.RenderFits | src/printtext.cpp:1573-1640 | with the indent at least two columns short of the width, no row is wider than the window |
| Layout.RenderExtends | src/printtext.cpp:1573-1640 | nothing that was emitted is taken back |
| Layout.WordOnOneRow | src/printtext.cpp:1598-1631 | a word that fits the rest of the row is not broken |
| Layout.WordsStayWhole | src/printtext.cpp:1598-1631 | a word that the look-ahead sees whole and that fits an indented row is never broken, wherever the row stands when its space is reached |
| LookAhead.MeasuredIsEnough | src/printtext.cpp:1610-1630 | what is measured of a text that is seen whole is never less than what is visible of it, also when it cannot be converted |
| LookAhead.ShortTextIsSafe | src/printtext.cpp:1598-1631 | in a text of fewer than 6143 bytes every look-ahead stays within its buffers, and every part is seen whole |
| LongWords.MarkedWordIsCut | src/printtext.cpp:1598-1631 | bold, 2048 combining characters and two letters: the look-ahead measures one column instead of three |
| LongWords.LongWordIsTorn | src/printtext.cpp:1598-1640 | that word is torn between its letters although it would fit the next row |
| Rendering.PrintedText | src/printtext.cpp:1538-1658 | what is printed is a prefix of the visible text, all of it without a line limit, at most `max_lines` breaks with one, and no row too wide |
| Rendering.StripperMatchesRenderer | src/squeeze_text_deco.cpp:161-265 | for every text: the renderer shows what is visible; when the text can be converted, the bytes that the stripper leaves are those of the same text; the wide stripper leaves that text when its buffers are large enough, and everything when the text cannot be converted |
| IrcStream.FeedToken | src/irc.c:738-780 | reading token by token is reading character by character |
| IrcStream.FeedTail | src/irc.c:692-707 | the unterminated tail is what stands behind the last separator |
| IrcStream.LoopFaithful | src/irc.c:738-780 | the token loop is right on an unterminated chunk exactly when the last separator is a line feed and no complete line equals the tail |
| IrcStream.FaithfulWithoutCarry | src/irc.c:712-782 | for a chunk that meets no carried message, the exact condition |
| IrcStream.FaithfulAfterFlush | src/irc.c:712-782 | for a chunk whose CR LF completes the carried message, the exact condition |
| IrcStream.FaithfulOnContinuation | src/irc.c:712-782 | for a chunk that goes on with the carried message, the exact condition |
| IrcStream.UnfaithfulSeparatorFirst | src/irc.c:712-782 | a lone separator in front, with a message carried over, is always mishandled |
| IrcStream.UnfaithfulWithoutSeparator | src/irc.c:712-719 | a chunk without a separator is always mishandled: its bytes are lost |
| IrcStream.LineEqualToTailFails | src/irc.c:745-758 | the chunk `a CR LF b CR LF a`, with a line equal to its own tail: neither of its complete lines is processed |
| IrcStream.TailBehindCrFails | src/irc.c:734-758 | a tail behind a lone CR is processed as if it were a complete message |
| IrcStream.FaithfulExactly | src/irc.c:712-782 | the messages processed and the carry are those of the stream if and only if the chunk is one that the code handles |
| IrcRuns.ChunkIndependence | src/irc.c:712-782 | over a whole run, however it is cut, up to where the code gives the connection up: after every chunk the messages are the stream's, once each and in order, and the carry is its tail, if and only if every chunk is handled |
| IrcRuns.PairedChunkHandled | src/irc.c:712-782 | in a stream where every CR stands before an LF and every LF behind a CR, a chunk with an LF and no line equal to its own tail is handled |
| IrcRuns.WireStream | src/irc.c:712-782 | a list of messages written with CR LF means that list |
| IrcRuns.MessagesArrive | src/irc.c:712-782 | messages written with CR LF arrive, whatever the chunks that meet the two conditions |
| IrcReceiver.StrtokR | src/irc.c:738-780 | strtok_r in place, for any delimiters: the next token, with a terminator written behind it, and the rest of the string untouched |
| IrcReceiver.CrLfToken | src/irc.c:720-745 | with CR and LF as delimiters its tokens are those of the stream |
| IrcReceiver.GetLastToken | src/irc.c:687-701 | what stands behind the last line feed, or nothing without one |
| IrcReceiver.DestroyNullBytes | src/network.cpp:216-231 | in place: zero bytes at the end of a buffer are dropped, every other one becomes an X, nothing else changes |
| IrcReceiver.Receiver.HandleInterpretEvents | src/irc.c:712-782 | one chunk through the code, with the carry buffer and its two states, does what the specification says |
| IrcReceiver.Receiver.Listen | src/network.cpp:769-875 | a whole connection through the code, zero bytes included, until the connection ends or is given up, does what the specification of a run says, so that the results about runs are results about it |
| MessageCompo.StrFeed | src/strHand.c:191-205 | the first spaces become line feeds in place, and their number is returned |
| MessageCompo.CompoTokenize | src/irc.c:482-523 | the tokens between line feeds end up as prefix, command and parameters |
| MessageCompo.SortMsgCompo | src/irc.c:528-570 | every message through the code: its tags, its account, and its components, the missing parameters of AWAY included, and which messages are refused |
| MessageCompo.MsgtagsGet | src/messagetags.c:66-93 | the value behind the first place where each of the three names stands, unless it is empty or has 250 characters or more |
| MessageCompo.HandleExtension | src/irc.c:429-466 | where the tags end, and which are refused: more than 900 bytes, none of the three, or a batch |
| MessageCompo.TagsRead | src/messagetags.c:66-93 | an account and a time, written as tags, are read back as they are, and nothing is taken for a batch |
| MessageCompo.TaggedMessages | src/irc.c:429-570 | `@account=`, `@time=` and both, written out in front of a message: it is split into its components, with that account or none |
| MessageCompo.RefusedExactly | src/irc.c:429-466 | a message with tags is refused if and only if they have more than 900 bytes, hold a batch, or hold neither an account nor a time |
| MessageCompo.HasTagExactly | src/messagetags.c:66-93 | the tags hold a name if and only if a value of 1 to 249 characters stands behind the first place where the name stands |
| MessageCompo.SentIsSorted | src/irc.c:429-570 | a message sent with supported tags, or without, is split into the components sent |
| MessageCompo.PrivmsgIsSorted | src/irc.c:429-570 | a message to a channel, bare and with only a time in front of it |
| MessageCompo.SortedExactly | src/irc.c:482-570 | a message is split into components with parameters if and only if it is, behind tags that are supported and the spaces there, the text of exactly these components |
| MessageCompo.SortedWithoutParams | src/irc.c:482-570 | a message is split into components without parameters if and only if it is, behind its tags and the spaces there, one of the forms of AWAY that end too early for parameters, and then it is AWAY with the prefix that stands before it |
| MessageCompo.ComponentsArrive | src/irc.c:429-782 | from the socket to the components, with and without tags: what was sent is what is split, in order, and every account is the one in the tags |
| Base64.EncodeDecode | src/b64_encode.c:121-179 | decoding an encoding gives back the bytes, for every byte string |
| Base64.DecodedIsCanonical | src/b64_decode.c:162-276 | every accepted input is, without its white space, the encoding of its output: padding is canonical and slop bits are zero |
| Base64.DecodesExactly | src/b64_decode.c:162-276 | a text decodes to given bytes if and only if it is, without its white space, their encoding |
| Base64.SpaceIs | src/b64_decode.c:135-160 | what white space is |
| Base64.OrFillsIn | src/b64_decode.c:189-225 | or-ing the halves of a byte in is adding them |
| Base64.DigitIsInAlphabet | src/b64_encode.c:48-49 | the 64 digits are the characters of the alphabet, in its order |
| Base64.QuantumCarries | src/b64_encode.c:128-149 | three bytes stand in four characters of the alphabet as one number of 24 bits, the first byte highest |
| Base64.EndCarries | src/b64_encode.c:151-176 | one or two bytes at the end stand in two or three characters with clear low bits, and `=` fills up the four |
| Base64Codec.InitializeRmap | src/b64_decode.c:135-160 | the reverse map classifies every byte as digit, space, padding or bad |
| Base64Codec.DecodeDo | src/b64_decode.c:162-276 | the decoding pass returns the specified bytes, or the specified failure, and touches nothing behind them but the byte in progress |
| Base64Codec.DecodeLen | src/b64_decode.c:279-369 | the measuring pass returns the specified length or failure |
| Base64Codec.PassesAgree | src/b64_decode.c:162-369 | both passes accept the same inputs up to slop bits and return the same length; the exact size from which decoding succeeds |
| Base64Codec.B64Encode | src/b64_encode.c:121-179 | the encoding with its terminator, and failure exactly when the target is too small |
| Base64Codec.EncodeLengthExact | src/crypt.cpp:286-290 | the computed size is the smallest that works, if and only if the 32-bit arithmetic does not wrap |
| Crypt.Rot13Twice | src/libUtils.c:161-187 | rot13 is its own inverse |
| Crypt.Rot13Moves | src/libUtils.c:161-187 | letters move by thirteen places and stay letters of their case; nothing else changes |
| Crypt.Rot13Str | src/libUtils.c:189-195 | the string is rotated in place up to its terminator |
| Crypt.XorTwice | src/crypt.cpp:87-265 | applying the key stream twice is applying it not at all |
| Crypt.XorBits | src/crypt.cpp:191-265 | a bit of the exclusive or is set exactly when the two bits differ |
| Crypt.BitOfNumber | src/crypt.cpp:191-265 | what the bits of a number are |
| Crypt.StoredIsEnciphered | src/crypt.cpp:191-265 | what is stored decodes, behind the optional layer, to the password and its terminator with every bit flipped exactly where the key stream has one |
| Crypt.EncryptStr | src/crypt.cpp:191-265 | cipher, encoding and the optional layer, with the failures for lengths that wrap; the password stands in the result with the bits flipped that the key stream says, and no others |
| Crypt.DecryptStr | src/crypt.cpp:87-180 | the way back, with one byte more decrypted than was encrypted |
| Crypt.PasswordRoundTrip | src/crypt.cpp:87-265 | decrypting with the same key gives back the C string, with and without the rot13 layer |
| Readline.EditsAgree | src/readline.c:256-570 | each key does to the text around the cursor what it says in terms of positions in the line |
| Readline.SessionsAgree | src/readline.c:671-868 | so does every run of keys, in what is submitted, and in the text and the cursor that it leaves |
| Readline.SubmittedFits | src/readline.c:674-675 | no run of keys submits an empty line or one longer than the buffer holds with its terminator |
| Readline.UndoKeys | src/readline.c:256-570 | exactly when backspace undoes typing and left and right undo each other; delete is right and backspace |
| Readline.TypingSpells | src/readline.c:512-570 | typing puts the typed text before the cursor, cut off where the line is full, and keeps both sides |
| Readline.SessionContext.CloseGap | src/readline.c:272-276 | a move without the terminator and one cleared cell remove exactly one character |
| Readline.SessionContext.OpenGap | src/readline.c:527-533 | a move without the terminator makes room for exactly one character |
| Readline.SessionContext.CaseKeyBackspace | src/readline.c:256-323 | the cell array with count, cursor and visual column takes the step of the zipper; at the beginning it beeps |
| Readline.SessionContext.CaseKeyDc | src/readline.c:328-359 | the same for delete |
| Readline.SessionContext.CaseKeyLeft | src/readline.c:364-391 | the same for left |
| Readline.SessionContext.CaseKeyRight | src/readline.c:396-423 | the same for right |
| Readline.SessionContext.HandleKey | src/readline.c:512-570 | the same for a character, unless the line was full when the key loop last looked |
| Readline.SessionContext.MoveToBeginning | src/readline.c:703-714 | left until the beginning ends, and keeps the text |
| Readline.SessionContext.MoveToEnd | src/readline.c:715-726 | right until the end ends, and keeps the text |
| Readline.SessionContext.Process | src/readline.c:663-883 | for every run of keys the session ends as the zipper session does, and one that goes on has its text and cursor; the cells behind the count are zero, and the visual column is the width of the text before the cursor |
| TabCompletion.DoWork | src/readlineTabCompletion.c:62-280 | backspacing ends with an empty line, and the new line is the match with the texts around it, unless the line was full; the line keeps its terminator if and only if it was full or the new text has at most 2000 cells |
| TabCompletion.Completion.AcDoit | src/readlineTabCompletion.c:1028-1035 | the next match, or the end of the circulation behind the last, for matches of every length |
| TabCompletion.Completion.InitMode | src/readlineTabCompletion.c:423-1026 | the first match of a search, or nothing, for matches of every length |
| TabCompletion.FinalizeOutString | src/readline.c:435-454 | the multibyte form of the line, or nothing when some character cannot be converted |
| TabCompletion.DecoratedExactly | src/readlineTabCompletion.c:281-289 | a line is refused for its codes if and only if it can be converted and holds one |
| TabCompletion.Completion.StoreSearchVar | src/readlineTabCompletion.c:320-331 | the multibyte form of the line is stored with its terminator if and only if it has fewer than 64 bytes, and otherwise nothing is |
| TabCompletion.Completion.HandleTab | src/readlineTabCompletion.c:1044-1111 | one Tab takes the specified step of the circulation and of the line, and is safe exactly when the specification says so; what a new search looks for is in the search variable |
| TabCompletion.FirstTabTypes | src/readlineTabCompletion.c:320-1111 | the first Tab on an ASCII line, in plain numbers: it stays without a match or from 64 characters on, and otherwise the match is typed between the texts of its mode, if that makes at most 2000 cells |
| TabCompletion.NextTabTypes | src/readlineTabCompletion.c:62-1111 | every other Tab: the circulation ends behind the last match, from 1999 characters on the line is emptied, and otherwise the next match is typed |
| TabCompletion.TabIsRefused | src/readlineTabCompletion.c:1044-1052 | on an empty line, inside the line, or on a line with codes, a Tab only ends the circulation |
| TabCompletion.StorableExactly | src/readlineTabCompletion.c:320-331 | what the search variable takes: fewer than 64 bytes, or a line that cannot be converted |
| TabCompletion.CirculationShowsEachMatch | src/readlineTabCompletion.c:926-1111 | the k-th Tab shows the k-th match with the cursor behind it, each once and in order, if and only if the searched text has fewer than 64 bytes, every match is ASCII and fits the line, and nothing before the last fills the line or holds formatting codes |
| TabCompletion.FirstTabShowsFirstMatch | src/readlineTabCompletion.c:1106-1111 | the first match appears if and only if the searched text has fewer than 64 bytes, the line is not full, the match with the texts around it has at most 2000 cells, and it is ASCII; a longer text stays as it is |
| TabCompletion.NextTabShowsNextMatch | src/readlineTabCompletion.c:62-76 | the next match appears if and only if the line is not full, the match with the texts around it has at most 2000 cells, and it is ASCII |
| TabCompletion.CirculationEnds | src/readlineTabCompletion.c:1028-1035 | when all matches were shown, the Tab behind the last one ends the circulation and keeps the line |
| TabCompletion.LongSearchFails | src/readlineTabCompletion.c:320-331 | `/msg #` and 58 letters: whatever matches, nothing is shown |
| TabCompletion.FullLineFails | src/readlineTabCompletion.c:62-76 | 1999 letters: the next Tab empties the line |
| TabCompletion.LongMatchFails | src/readlineTabCompletion.c:62-76 | a match of 2001 letters runs past the end of the line |
| TabCompletion.NonAsciiMatchFails | src/readlineTabCompletion.c:62-76 | the channel `#größe`, in UTF-8: what the line holds then is not the match |
| TextBuffer.SpliceIn | src/textBuffer.c:81-141 | linking one element in leaves a chain in both directions, with one line more in its place |
| TextBuffer.SpliceOut | src/textBuffer.c:143-170 | bridging one element over leaves a chain in both directions without its line |
| TextBuffer.TextBuf.WalksAgree | src/textBuffer.c:59-201 | walking from the head and walking from the tail meet the same elements in opposite order and end after `size` of them |
| TextBuffer.TextBuf.GetElementByPos | src/textBuffer.c:59-79 | the element at a position, null outside |
| TextBuffer.TextBuf.InsNext | src/textBuffer.c:81-110 | the lines with one inserted behind an element; EINVAL exactly for a null element of a non-empty buffer |
| TextBuffer.TextBuf.InsPrev | src/textBuffer.c:112-141 | the lines with one inserted before an element |
| TextBuffer.TextBuf.Remove | src/textBuffer.c:143-170 | the lines without the element's |
| TextBuffer.TextBuf.EmplaceBack | src/textBuffer.c:183-194 | one line more at the end |
| TextBuffer.TextBuf.PopHead | src/textBuffer.c:196-201 | the lines without the first |
| TextBuffer.TextBuf.Destroy | src/textBuffer.c:172-181 | removing from the tail ends with nothing left |
| TextBuffer.TextBuf.Print | src/printtext.cpp:1700-1725 | one printed line into a buffer with a cap |
| TextBuffer.BufferIsNewest | src/printtext.cpp:1700-1725 | whatever the caps on the way, the buffer is the newest part of everything printed |
| TextBuffer.FixedCap | src/printtext.cpp:1700-1725 | with a fixed cap it is exactly the last min(n, cap) messages |
| Chains.Buckets.Push | src/window.c:283-287 | a new entry in front of one bucket; every other bucket is as it was |
| Chains.Buckets.Unlink | src/window.c:295-302 | removal through a pointer to the pointer takes out exactly one entry |
| WindowModel.LabelsUnique | src/window.c:605-624 | no two windows anywhere have labels that are alike: of the same length, with the same character or the two cases of one ASCII letter at every place |
| WindowModel.LookupIsComplete | src/window.c:605-624 | looking into the label's own bucket finds a window if and only if there is one anywhere with a label that is alike |
| WindowModel.SameIsAlike | src/window.c:605-624 | comparing lower-case forms is comparing character by character, the two cases of a letter being alike |
| WindowModel.SwircIsOneLabel | src/window.c:605-624 | `#SWIRC` finds the window `#swirc` |
| WindowModel.InstallKeeps | src/window.c:239-291 | opening under a new label keeps labels unique and numbers dense |
| WindowModel.UndefPlaced | src/window.c:293-317 | closing keeps every other window in its bucket, and the label is gone |
| WindowModel.RenumberRestores | src/window.c:322-344 | renumbering gives 1..n with the status window at 1, whatever the numbers of the others were, and moves nothing |
| WindowRuns.RefnumsResolve | src/window.c:630-648 | a number is found if and only if it is in 1..n, and names one window |
| WindowRuns.StepKeepsGood | src/window.c:719-806 | one operation keeps the invariant and does to the labels, and returns, what it would on a plain set of labels |
| WindowRuns.SpawnIgnoresCase | src/window.c:761-806 | opening a window whose label is alike to an open one's opens none |
| WindowRuns.SpawnKeepsWindows | src/window.c:761-806 | opening leaves every window that is there with its label and its number |
| WindowRuns.LabelIsActivated | src/window.c:718-722 | changing by label activates the window whose label is alike, and without one does nothing |
| WindowRuns.NumberIsActivated | src/window.c:727-731 | changing by number activates the window with this number, and does nothing outside 1..n |
| WindowRuns.DestroyActivatesLast | src/window.c:736-756 | after closing, the window with the last number is the active one |
| WindowRuns.DestroyNumbersInOrder | src/window.c:719-756 | after closing, the chats are numbered in the order of the table |
| WindowRuns.RunsStayGood | src/window.c:495-806 | after every sequence of operations from the start: unique labels, numbers exactly 1..n, the status window at 1, the active window in the table, and the labels of a plain set |
| WindowRuns.RunsInPlainTerms | src/window.c:495-806 | the same window by window: every number is within 1..n and used once, labels that are alike belong to one window, and number 1 is the status window |
| WindowRuns.RunsHaveEveryNumber | src/window.c:495-806 | every number up to n is there, and the active window is one of the table |
| WindowRuns.CloseAllLeavesKept | src/window.c:828-865 | closing all private conversations leaves exactly the status window and the kept ones |
| WindowTable.HashDjb | src/libUtils.c:337-353 | the bucket of a label, ignoring case when asked to, with characters sign-extended |
| WindowModel.BucketOfSwirc | src/libUtils.c:337-353 | the bucket of `#swirc` and of `#SWIRC` |
| WindowTable.WindowSystem.WindowByLabel | src/window.c:605-624 | the walk along one chain ends where the specification says, and a window is found if and only if one has a label that is alike |
| WindowTable.WindowSystem.WindowByRefnum | src/window.c:630-648 | the walk over all chains ends where the specification says |
| WindowTable.WindowSystem.HInstall | src/window.c:239-291 | the heap takes the step of the model |
| WindowTable.WindowSystem.HUndef | src/window.c:293-317 | the heap takes the step of the model |
| WindowTable.WindowSystem.ReassignWindowRefnums | src/window.c:322-344 | every window gets its number, and the assertion at the end holds |
| WindowTable.WindowSystem.constructor | src/window.c:495-533 | the table with the status window only |
| WindowTable.WindowSystem.ChangeWindowByLabel | src/window.c:123-156 | the window becomes active, or ENOENT; EPERM exactly when another window cannot be put on top |
| WindowTable.WindowSystem.DestroyChatWindow | src/window.c:736-756 | closing with its errors, on the heap; the active window is never left dangling |
| WindowTable.WindowSystem.SpawnChatWindow | src/window.c:761-806 | opening with its errors, on the heap; a label that is alike to an open one's opens no second window |
| WindowTable.WindowSystem.CollectPrivConv | src/window.c:828-853 | the labels in table order; the array of 800 never fills up |
| WindowTable.WindowSystem.WindowCloseAllPrivConv | src/window.c:828-865 | closing one after the other is the specified run |
| PjwBits.StepIsSmall | src/libUtils.c:355-380 | after every character the accumulator is below 2^28 |
| PjwBits.StepFolds | src/libUtils.c:355-380 | each character is added to sixteen times the accumulator, whose top four bits are then folded onto the bits 4 to 7 |
| ConfigTable.HashPjw | src/libUtils.c:355-380 | the bucket index, always within the table, with characters sign-extended |
| ConfigTable.BucketOfDcc | src/libUtils.c:355-380 | the bucket of the setting `dcc` |
| ConfigTable.InstallIsUpdate | src/config.cpp:226-241 | installing a new name is adding it to a finite map |
| ConfigTable.UndefIsRemoval | src/config.cpp:243-260 | unlinking an entry is removing its name from the map, and no other |
| ConfigTable.Config.GetHashTableEntry | src/config.cpp:176-193 | found exactly when the map has the name, with its value |
| ConfigTable.Config.ConfigItemInstall | src/config.cpp:596-606 | EBUSY for a known name, otherwise the map with one entry more |
| ConfigTable.Config.ConfigItemUndef | src/config.cpp:608-618 | ENOENT for an unknown name, otherwise the map without it |
| ConfigTable.Config.Value | src/config.cpp:571-594 | the value of a setting, nothing for an unknown one, and a SASL password without the symbol in front of it |
| ConfigTable.DefaultsFillIn | src/config.cpp:262-269 | with distinct names, every known setting that was missing has its own default afterwards, and every other keeps its value |
| ConfigTable.Config.InitMissingToDefs | src/config.cpp:262-269 | every missing known setting gets its own default, and no other changes |
| ConfigFile.CopyIdentifier | src/interpreter.cpp:42-60 | the identifier, refused from 49 characters on |
| ConfigFile.CopyArgument | src/interpreter.cpp:62-95 | the argument up to the quote, refused from 479 characters on or without a closing quote |
| ConfigFile.Interpreter | src/interpreter.cpp:104-180 | the first fault of a line, or its setting |
| ConfigFile.ShapeParses | src/interpreter.cpp:104-180 | every line of the grammar is accepted with its name and value |
| ConfigFile.ParsedHasShape | src/interpreter.cpp:104-180 | nothing else is accepted |
| ConfigFile.WordCharacters | src/interpreter.cpp:42-60 | the characters of an identifier and white space, spelled out |
| ConfigSave.WriteSetting | src/libUtils.c:405-415 | the line written for a setting |
| ConfigSave.WrittenPieces | src/libUtils.c:405-415 | name, tabs, `= "`, value and `";`, in this order and nothing else |
| ConfigSave.ConfigDoSave | src/config.cpp:694-741 | the whole file, with the SASL password written under its symbol and never decrypted |
| ConfigSave.ProcessLine | src/interpreter.cpp:182-212 | one line of the file on the settings table |
| ConfigSave.LineIs | src/interpreter.cpp:182-212 | white space around a line does not matter; a line of nothing else, or one that begins with `#` behind it, is passed over |
| ConfigSave.EffectOfLine | src/interpreter.cpp:182-212 | an unknown name is passed over, a known one is installed, one that is there already or a line that is no setting ends the program |
| ConfigSave.ConfigReadit | src/config.cpp:743-762 | the whole file on the settings table, then the defaults; it fails exactly at a fault in a line or an error in reading |
| ConfigSave.ReadAllIsPlain | src/interpreter.cpp:42-212 | no file whatever makes the parser install a value with a quote, a line feed, or more than 478 characters |
| ConfigSave.TableIsGood | src/config.cpp:81-172 | any table of distinct identifiers of at most 48 characters is one that the round trip holds for |
| ConfigSave.HeaderTextAdds | src/config.cpp:436-447 | a header is its lines, each with its line feed |
| ConfigSave.SaveRoundTrip | src/config.cpp:694-762 | reading the file into an empty table gives back what was written for every known setting, and only these, if and only if all of it is plain; what was written is what was set, except for a SASL password under neither of the two symbols that are saved, and to a reader of the settings that is the same unless it was decrypted |
| HostMatch.AcceptsPatterns | src/x509_check_host.c:97-156 | the automaton accepts exactly the wildcard patterns of the grammar, and finds their star |
| HostMatch.ValidStar | src/x509_check_host.c:97-156 | the loop returns that star, or none |
| HostMatch.EqualNocase | src/x509_check_host.c:69-95 | the same length, and at every place the same byte or the two cases of one ASCII letter, without NUL in the pattern |
| HostMatch.SameIsAlike | src/x509_check_host.c:69-95 | comparing lower-case forms is comparing byte by byte, the two cases of a letter being alike |
| HostMatch.IdnaIsAlike | src/x509_check_host.c:97-156 | an IDNA label begins with `xn--` in whatever case |
| HostMatch.WildcardMatch | src/x509_check_host.c:162-211 | prefix, suffix and middle |
| HostMatch.MatchesByLabels | src/x509_check_host.c:158-211 | splitting at the star is matching label by label: the star covers part of the first label only, all other labels are equal |
| HostMatch.LabelCountAgrees | src/x509_check_host.c:158-211 | a subject accepted through a wildcard has as many labels as the pattern |
| HostMatch.EqualWildcard | src/x509_check_host.c:213-232 | exactly what is accepted, for every pattern and subject |
| Wildcards.WildcardAccepts | src/x509_check_host.c:158-232 | a pattern put together from what stands before the star, what stands behind it in its label, and at least two more labels accepts exactly the subjects that fill in the star: with all else alike, and legal characters of one label in its place |
| Wildcards.TopLevelStarAcceptsItself | src/x509_check_host.c:97-156 | with one label behind the star there is no wildcard: only the pattern itself is accepted |
| Wildcards.NoStarAcceptsItself | src/x509_check_host.c:213-232 | a pattern without a star accepts only itself, in whatever case |
| DccRequest.FrameRoundTrip | src/commands/dcc.cpp:530-577 | a valid nick and file name fit the 130 bytes and read back as themselves |
| DccRequest.FrameCells | src/commands/dcc.cpp:530-543 | the 130 cells: nick, CR, LF, file name, and zeros; none if they do not fit |
| DccRequest.AcceptedExactly | src/commands/dcc.cpp:1950-1961 | a frame is taken for a request if and only if it holds a C string that names, between CRs and LFs, a valid nick and a valid file |
| DccRequest.WriteAll | src/commands/dcc.cpp:545-576 | partial writes add up: all of it, or a prefix when the connection gives out |
| DccRequest.RequestFile | src/commands/dcc.cpp:530-577 | the frame is written, unless it does not fit or the connection gives out |
| DccRequest.ParseFrame | src/commands/dcc.cpp:1950-1961 | a frame cut up in place names what the specification says, or is refused |
| DccRequest.ReadRequest | src/commands/dcc.cpp:1908-1961 | a request is taken exactly when a whole frame arrived that names a valid nick and file |
| DccRequest.IsValidFilename | src/dataClassify.c:161-180 | length, characters and no two dots in a row |
| DccRequest.IsValidNickname | src/dataClassify.c:200-217 | length and characters |
| DccRequest.NickIsTaken | src/dataClassify.c:200-217 | a nick is valid if and only if it has 1 to 45 characters, all of them among the legal ones, which are spelled out |
| DccRequest.FileIsTaken | src/dataClassify.c:161-180 | a file name is valid if and only if it has 1 to 80 characters, all of them among the legal ones, and two dots stand side by side nowhere in it |
| DccTransfer.SendBytes | src/commands/dcc.cpp:1963-2000 | the count goes down by exactly what was written, also on failure |
| DccTransfer.SendDoit | src/commands/dcc.cpp:2037-2065 | what was written is a prefix of the file, the count is what is missing from it, and what the loop did is a run of the transition system that ends in exactly that state |
| DccTransfer.ReadAndWrite | src/commands/dcc.cpp:211-251 | what was read is what arrived, in order, and never more than announced; what the loop did is a run of the transition system |
| DccTransfer.SendChunk | src/commands/dcc.cpp:2040-2064 | one round writes a piece of the file that starts where the last one ended, as a run of one read and the partial writes |
| DccTransfer.ChunkIsNextPiece | src/commands/dcc.cpp:2040-2064 | a read takes the next piece of the file, at most 2048 bytes |
| DccTransfer.WritesAreRun | src/commands/dcc.cpp:1963-2000 | partial writes of any sizes, one after the other, are a run that moves exactly their bytes |
| DccTransfer.RequestWritesAreRun | src/commands/dcc.cpp:545-576 | so are the partial writes of the request |
| DccTransfer.RequestReadsAreRun | src/commands/dcc.cpp:1908-1949 | so are the partial reads of the request |
| DccTransfer.TransferIsFaithful | src/commands/dcc.cpp:1963-2065 | over every interleaving of partial reads and writes: bytes moved plus the count is the size on each side, counts never go below zero, what was received is a prefix of the file, and all of it exactly when both sides are done and the announced size was right |
| DccTransfer.MaximalRunDelivers | src/commands/dcc.cpp:1908-2065 | a run for a valid request that cannot go on has delivered the whole file, and no run takes more than 261 actions and three for each byte |
| Reconnect.NextDelay | src/network.cpp:370-404 | adding the back-off and clamping gives the closed form of the next delay |
| Reconnect.FirstDelay | src/network.cpp:370-404 | the first delay is the configured one, within the maximum |
| Reconnect.DelaysAscend | src/network.cpp:370-404 | delays never get shorter and stay within the maximum |
| Reconnect.TotalIsBounded | src/network.cpp:370-404 | the waiting time in all is bounded |
| Reconnect.Network.HandleConnErr | src/network.cpp:370-404 | the n-th failure schedules the n-th retry with its delay, or cleans up |
| Reconnect.Network.NetConnect | src/network.cpp:572-661 | one attempt, with the first initialisation of the context |
| Reconnect.Network.DoConnect | src/commands/connect.c:501-541 | at most `retries + 1` attempts, exactly so many when all fail; the delays are the formula; giving up ends the waiting in the second it happens; the counter is zero at every exit |

## Left out

- Curses, panels, colours on the screen, bold and the other attributes: what is drawn is a sequence of glyphs, blanks and breaks; the colour numbers of a code are modelled, their terminal pairs are not.
- Locale tables: character widths and printability are parameters, and widths in `Rendering` are at most two as in `xwcwidth`.
- PrintText.PrinttextPuts: the text is the wide text behind its conversion from bytes, every character of it converts back, and the attributes are not modelled.
- PrintText.PutsScrolling: under a line limit it is safe when every look-ahead of the text is, although those behind the cut do not matter.
- Readline.SessionContext.Process: does not model the two scrolling panels, history, spell checking and mouse; the keys for them are `Other` or end the session, and Tab is modelled apart in `TabCompletion`. What is submitted is the wide text, before its conversion to multibyte characters.
- TabCompletion.Completion.InitMode: the searches for matches and the choice of the mode from the search text are parameters, and 27 mode flags are one value, because at most one of them is ever set.
- TabCompletion.DoWork: `btowc` is the one of a UTF-8 locale; once a match has run past the end of the line, nothing more is said about the session.
- MessageCompo.SortMsgCompo: the numbers in a server time are not read out, and what becomes of a message with a batch tag, which is kept for later, is not part of it.
- IrcReceiver.Receiver.Listen: ICB connections, the check of an idle connection and the netsplit task are not modelled.
- IrcReceiver.Receiver.HandleInterpretEvents: what is done with a processed message is not part of it; threads and the global connection flags are not modelled.
- WindowTable.HashDjb: `char` is signed; on platforms where it is not, a name that is not ASCII has another bucket, here and in `ConfigTable.HashPjw`, but nothing else that is proved changes.
- WindowTable.WindowSystem.SpawnChatWindow: titles, nick lists and the WHOIS request are not modelled, and its assertion that the new window gets on top is taken to hold.
- WindowTable.WindowSystem.WindowCloseAllPrivConv: being a channel or a log window is a function of the label.
- ConfigSave.ConfigDoSave: the table of known settings and the encrypted form of the SASL password are parameters.
- ConfigSave.ConfigReadit: files are texts without zero bytes; a fault ends the program, so nothing is said about the settings then.
- HostMatch.EqualWildcard: no flags are set; reading names out of certificates is not modelled.
- Crypt.PasswordRoundTrip: the cipher is a key stream applied byte by byte; OpenSSL, key derivation and its failures are not modelled.
- DccTransfer.SendDoit: one connection for one file that does not change while it is sent; file system errors are left out.
- DccTransfer.TransferIsFaithful: TLS is a byte channel in each direction that keeps order and loses nothing.
- Reconnect.Network.DoConnect: an attempt is its outcome; name resolution, sockets, SOCKS, identd and the registration commands are left out.
- ICB, including the splitting of long ICB messages into packets.
- Themes, netsplits, the nick list, the command dispatcher and the server list: tables and comparators of the same kind, or branch-by-branch input and output.
