# Remote-session protocol and user record, modelled in Dafny

This project models two pieces of the book-library system.

The first is the control-code protocol of `TeaSession`/`TeaClient` in `net/old/teasocket.py`:

- **Codec.** Twelve three-character control codes (`CtrlCode`). A frame is the marker character U+0011 followed by a code (`_sendcmd`).
- **Server side.** The characters each `TeaSession` operation writes (`print`, `close`, the prompts, the challenge). It also checks the peer's `signature,nonce` reply in `challnge`/`auth`.
- **Client side.** The receive loop of `TeaClient.connect`. It pops characters from each received chunk. A marker makes it take the next three characters as a code, and the code drives the `ClientState` machine (NOP, CLOSE, TEXT, KEYWAIT, CMD). Any other character is literal text.

The second is the user record `UserEntry` in `core/user_entry.py`:

- its `UserType` codes;
- the `new`, `load` and `load_dict` constructors;
- identity and order by user id;
- the lending list with its append and remove-if-present updates;
- `set_user_type`.

Everything is pure. The client is a function from a `Client.Machine` to a `Client.Outcome`. The machine holds:

- the state;
- what has been shown on standard output;
- the replies sent back;
- the chunks still to be received;
- the lines the user will still type.

The outcome is one of:

- `Ok`: the loop ended in CLOSE;
- `Failed`: the exception that ended the loop;
- `Blocked`: the loop waits in a receive that no further chunk will satisfy. The end of the chunk sequence stands for a peer that stays connected and sends nothing more; see "## Left out" for a peer that disconnects.

Modules: `Wrappers`, `Strings` (Python's `join`, `split` and `in` on strings), `CtrlCodes`, `Lexer`, `Session`, `Client`, `Protocol` (server output read by the client, end to end), `Users`, `UserKeys`.

`Lexer.Lex` classifies a stream into literal and control tokens. It is an independent reading of the protocol. `Client.ScanIsLexThenFeed` proves that the character-by-character scanner of `connect` behaves like this reading followed by applying the tokens in order.

Behaviour of the code that the model keeps as written:

- The outer loop tests for CLOSE only between chunks. The rest of a chunk after an EDT frame is still processed, and can reopen the session (`Client.CloseThenTextInOneChunk`).
- ACK and NAK match no branch of the dispatch, so they change nothing.
- A frame split across two received chunks fails: `msg.pop(0)` runs out (`Client.SplitFrameFails`).
- On KAU the client takes the nonce from the NEXT receive, not from the rest of the current chunk. If the server's frame and nonce arrive together, the client signs whatever comes next (`Protocol.CoalescedChallengeSignsNextChunk`).
- A literal character inside a command block reaches `ext_cmd += c`. `ext_cmd` is never assigned, so this raises. The model reports `LiteralInCommand` and invents no command buffer.
- In `auth`, a wrong echoed nonce makes `challnge` return `None`. The unpacking at line 87 then raises before `return False` is reached. See Findings.
- The model counts each `"> "` prompt of KSH as shown output, one per line read, including the attempt that meets the end of input. Where `input` writes its prompt depends on the terminal; this is a modelling choice. The password prompt of `getpass` is not counted as shown output.

## Model

| member | source | states |
|---|---|---|
| CtrlCodes.Value | net/old/teasocket.py:30-42 | every control code is written as three characters, none of them the marker |
| CtrlCodes.ValueInjective | net/old/teasocket.py:30-42 | the twelve code texts are pairwise distinct |
| CtrlCodes.Decode | net/old/teasocket.py:168-171 | looking a code up by its text succeeds exactly on the twelve code texts and yields the code with that text; any other text has no code |
| CtrlCodes.DecodeValue | net/old/teasocket.py:30-42 | decoding the text of a code gives the code back |
| CtrlCodes.Frame | net/old/teasocket.py:49-50 | a frame is four characters: the marker, then text that decodes to the code sent |
| Lexer.Lex | net/old/teasocket.py:162-171 | reading a stream into tokens spells out a prefix of it, and the whole stream when no malformed frame stops the reading; no literal token is a marker |
| Lexer.LexUnlex | net/old/teasocket.py:162-171 | spelling out tokens without a literal marker and reading them back gives the same tokens and no fault |
| Lexer.LexPlainText | net/old/teasocket.py:240-244 | text without a marker reads as literal characters only, one per character |
| Lexer.LexFault | net/old/teasocket.py:164-171 | a reading that stops early stops right after the characters its tokens spell, at a marker; the fault is `Truncated` exactly when fewer than three characters follow it, and otherwise names those three characters, which are no code |
| Lexer.LexFrame | net/old/teasocket.py:49-50 | the characters `_sendcmd` writes read back as exactly one control token |
| Session.SendCmd | net/old/teasocket.py:49-50 | the frame written for a code starts with the marker and its text decodes to that code |
| Session.SendTextLn | net/old/teasocket.py:63-65 | `sendtextln` writes the text followed by one newline |
| Protocol.SendTextKeepsState | net/old/teasocket.py:60-61 | `sendtext` writes no frame: marker-free text keeps the client's state, is shown inside a text block, dropped outside one, and fails at its first character inside a command block |
| Protocol.SendTextLnShowsLine | net/old/teasocket.py:63-65 | the client reads what `sendtextln` writes as the text and a newline: both shown inside a text block that stays open, both dropped in NOP, KEYWAIT or CLOSE, a failure at the first character in CMD |
| Session.CloseSession | net/old/teasocket.py:57-58 | `close` writes one frame: the marker, then text that decodes to EDT |
| Session.Prompt | net/old/teasocket.py:73-83 | `keywait`, `shellwait` and `passwait` each write one frame: the marker, then text that decodes to their own code |
| Protocol.ScanPrompt | net/old/teasocket.py:73-83 | the client reads what `keywait`, `shellwait` and `passwait` write as their own code: it takes effect, then the rest of the chunk is scanned |
| Session.Print | net/old/teasocket.py:67-71 | `print` writes an STX frame, then the parts joined by `sep` followed by `end`, then an ETX frame; `sep` and `end` are explicit parameters, so the defaults `" "` and `"\n"` are the call `Print(parts, " ", "\n")` |
| Session.Challenge | net/old/teasocket.py:92-95 | the challenge is a KAU frame followed by the nonce |
| Session.ParseReply | net/old/teasocket.py:96-97 | `split(",")` into two names succeeds exactly when the reply holds one comma; the two comma-free parts joined by a comma give the reply back; otherwise the error reports the number of parts |
| Strings.Split | net/old/teasocket.py:97 | `split` yields one part more than there are separators, no part holds the separator, and joining the parts with the separator gives the input |
| Strings.SplitJoin | net/old/teasocket.py:97 | splitting a separator-joined list of separator-free parts recovers the parts |
| Strings.JoinAvoids | net/old/teasocket.py:69 | `sep.join(parts)` holds a character only if a part or the separator does |
| Session.ParseReplyRoundTrip | net/old/teasocket.py:96-97 | the reply `sig,nonce` parses back into `(sig, nonce)` exactly when neither holds a comma |
| Session.EchoDecides | net/old/teasocket.py:97-99 | for a reply that parses, the echoed nonce equals the issued one exactly when the reply ends with a comma and that nonce |
| Session.Auth | net/old/teasocket.py:85-99 | a reply without exactly one comma fails to unpack; a reply with one comma that does not end in `,nonce` fails on the `None` from `challnge`; only a correct echo reaches `verify`, and its verdict on the signature part is the answer |
| Session.AuthAcceptsOnlyIssuedNonce | net/old/teasocket.py:85-99 | `auth` answers true only for a reply echoing the issued nonce, with a signature that `verify` accepts for that nonce |
| Session.AuthOfHonestReply | net/old/teasocket.py:85-99 | for the reply a client builds from comma-free signature and nonce, `auth` answers exactly whether the signature verifies |
| Session.MismatchRaises | net/old/teasocket.py:87-99 | on the reply `sig,abd` to the nonce `abc`, the code as written fails to unpack, while the intended code answers false |
| Session.AuthIntended | net/old/teasocket.py:85-90 | with mismatches answered by false, only a reply with one comma can fail; the answer is true exactly for a correct echo with a verifying signature |
| Client.ReadLine | net/old/teasocket.py:189-192 | the input loop returns the first non-empty line, after reading only empty lines before it; it finds none exactly when every remaining line is empty |
| Client.AwaitLine | net/old/teasocket.py:186-205 | KEY and KSH succeed exactly when some remaining typed line is non-empty; they then send the first non-empty line, consume the lines up to it, show one `"> "` per line read for KSH only, and return to NOP; otherwise the terminal runs out with every line consumed |
| Client.AwaitPassword | net/old/teasocket.py:207-217 | KPS succeeds exactly when a non-empty password is typed, sends the digest of the first one, consumes the lines up to it and returns to NOP; otherwise the terminal runs out |
| Client.AwaitAuth | net/old/teasocket.py:219-232 | KAU blocks exactly when no chunk is left; otherwise it takes the next chunk as the nonce, and with a non-empty password typed it sends `sign(password, nonce),nonce` for the first such password and returns to NOP |
| Client.Literal | net/old/teasocket.py:240-244 | a literal character is shown in TEXT and dropped in every other state except CMD, where it fails; nothing else about the machine changes |
| Client.Apply | net/old/teasocket.py:173-238 | a control code only ever consumes further chunks; it blocks only when no chunk is left to receive |
| Client.Step | net/old/teasocket.py:162-244 | one token consumes chunks only, and blocks only once none is left |
| Client.Scan | net/old/teasocket.py:162-244 | scanning one chunk only ever consumes further chunks and blocks only once none is left |
| Client.Run | net/old/teasocket.py:159-162 | the receive loop ends normally only in CLOSE, and blocks only once every chunk has been received |
| Client.Connect | net/old/teasocket.py:157-162 | `connect` on a fresh client ends normally only in CLOSE, blocks only once every chunk has been received, and never sends an empty text reply |
| Client.RunStep | net/old/teasocket.py:159-162 | while not in CLOSE, the loop receives the next chunk, scans all of it, and continues from there |
| Client.ScanIsLexThenFeed | net/old/teasocket.py:162-244 | the scanner equals reading the chunk into tokens and applying them in order; a malformed frame fails the chunk after the tokens before it have taken effect |
| Client.ApplyFollowsTable | net/old/teasocket.py:173-238 | STX leads to TEXT, ETX to NOP, SVC to CMD, EVC to NOP, EDT to CLOSE; FTX, ACK and NAK keep the state; every code other than KEY, KSH, KPS and KAU always completes and changes nothing but the state; KEY, KSH, KPS and KAU end in NOP; only these four can fail or block, and they leave KEYWAIT behind when they do |
| Client.ScanFrame | net/old/teasocket.py:164-172 | a frame at the head of a chunk takes effect, then the rest of the chunk is scanned |
| Client.MalformedFrameFails | net/old/teasocket.py:164-171 | a marker followed by three characters that are not a code fails with that text, and a marker with fewer than three characters after it fails as truncated; neither is skipped or changes the machine |
| Client.SplitFrameFails | net/old/teasocket.py:159-168 | a frame cut across two received chunks fails the loop as truncated |
| Client.ScanPlainText | net/old/teasocket.py:240-244 | a chunk without a marker keeps the state: it is shown in TEXT, dropped in NOP, KEYWAIT and CLOSE, and fails at its first character in CMD |
| Client.RunPlainChunks | net/old/teasocket.py:159-244 | a stream without a marker never changes the state from NOP or TEXT: all of it is shown in TEXT, none of it in NOP, and the loop then waits |
| Client.ScanAppend | net/old/teasocket.py:162-244 | after a chunk that scans completely, more characters continue from the state it left |
| Client.CloseTakesEffectBetweenChunks | net/old/teasocket.py:159-184 | after an EDT frame the rest of the chunk is still processed, and the loop stops only if that leaves the client in CLOSE |
| Client.CloseThenTextInOneChunk | net/old/teasocket.py:159-184 | EDT then STX and `hi` in one chunk show `hi` and leave the loop receiving in TEXT |
| Client.ApplyRepliesNonEmpty | net/old/teasocket.py:186-232 | a control code appends at most one reply and keeps the earlier ones; every interactive code that completes appends exactly one; no text reply is empty |
| Client.ScanRepliesNonEmpty | net/old/teasocket.py:162-232 | scanning a chunk never sends an empty text reply |
| Client.RunRepliesNonEmpty | net/old/teasocket.py:159-232 | a whole session never sends an empty text reply |
| Client.PromptSendsFirstNonEmptyLine | net/old/teasocket.py:186-217 | KEY and KSH send the first non-empty typed line, KPS the digest of the first non-empty password; each consumes the lines read and returns to NOP |
| Protocol.PayloadIsPlain | net/old/teasocket.py:67-71 | the text inside a `print` block holds no marker when no part, separator or end does |
| Protocol.PrintDisplaysText | net/old/teasocket.py:67-71 | in any state, the characters `print(*parts, sep, end)` writes make the client show exactly `sep.join(parts) + end` and end in NOP, when no piece holds the marker |
| Protocol.PrintThenClose | net/old/teasocket.py:57-71 | a session that prints and then closes shows the printed text and ends in CLOSE, with nothing sent and no terminal line read |
| Protocol.Handshake | net/old/teasocket.py:219-232 | on KAU with the nonce as the next chunk, the client replies `sign(password, nonce),nonce` using the first non-empty password; for comma-free parts, `auth` on that reply answers whether the signature verifies |
| Protocol.CoalescedChallengeSignsNextChunk | net/old/teasocket.py:219-232 | when the frame and the nonce arrive in one chunk, the client signs the next chunk, and the nonce characters are dropped as literals in NOP |
| Protocol.CoalescedChallengeBlocks | net/old/teasocket.py:219-222 | with nothing further to receive, the coalesced challenge leaves the client blocked in KEYWAIT |
| Strings.ContainsIffOccurs | core/user_entry.py:33 | `p in s` holds exactly when `p` occurs at some offset of `s` |
| Users.TypeOf | core/user_entry.py:6-10 | `UserType(code)` finds the type with that code, and none exists for any other integer |
| Users.TypeCodes | core/user_entry.py:6-10 | exactly 1000, 2000, 3000 and 4000 name a user type, and each type is found again from its code |
| Users.New | core/user_entry.py:22-24 | `new` builds a plain user with an empty lending list, keeping id, name, key and note; the note is an explicit parameter, so the default `note=None` is the call `New(uid, name, pubkey, Null)` |
| Users.Load | core/user_entry.py:26-28 | `load` succeeds exactly for the four type codes, keeping every given field; any other code is rejected with that code |
| Users.Classify | core/user_entry.py:31-49 | a key names the first field in chain order whose pattern it contains, and none when it contains no pattern |
| Users.GatherAppend | core/user_entry.py:32-49 | reading a dictionary in two parts: the second part starts from where the first stopped, and a failure in the first part stops the loop |
| Users.IgnoredKey | core/user_entry.py:32-49 | a key containing none of the six patterns has no effect wherever it appears |
| Users.AbsorbConverts | core/user_entry.py:33-47 | a recognised key is accepted exactly when its value has the kind its field converts |
| Users.LoadDict | core/user_entry.py:31-50 | a dictionary loads only when each of the six fields is named by at least one of its keys |
| Users.LastKeyWins | core/user_entry.py:31-50 | the last key naming a field decides that field of the loaded entry, whatever comes before it and whatever keys naming other fields follow it |
| Users.LaterKeyOverwrites | core/user_entry.py:32-49 | a key whose value converts has no effect when a later key names the same field, whatever items lie between the two |
| Users.RejectsBadType | core/user_entry.py:37-38 | a type code other than the four makes `load_dict` fail with that code, whatever follows |
| UserKeys.ClassifyAttributeName | core/user_entry.py:33-47 | each stored attribute name `_UserEntry__<field>` is recognised as its own field |
| UserKeys.LoadDictAttributes | core/user_entry.py:14-50 | loading the attribute dictionary of an entry gives the entry back |
| Users.OrderIsTotal | core/user_entry.py:56-64 | for `__eq__` (`Users.Same`) and `__lt__` (`Users.Before`): exactly one of `a < b`, `a == b`, `b < a` holds; equality by id is an equivalence, `<` is a strict order, and equal entries order alike |
| Users.AddLending | core/user_entry.py:86-88 | `add_lendinglist` answers true and appends the id after the unchanged earlier ids; nothing else changes |
| Users.RemoveFirstShape | core/user_entry.py:90-94 | removal takes out the first occurrence of a present id and keeps the other ids in order; an absent id leaves the list unchanged |
| Users.RemoveFirstMultiset | core/user_entry.py:90-94 | removal takes exactly one copy of the id out of the multiset of lent ids |
| Users.RemoveLending | core/user_entry.py:90-94 | `remove_lendinglist` answers true exactly when the id is lent, and then removes its first occurrence only; otherwise it answers false and the entry is unchanged; only the lending list ever changes |
| Users.AddThenRemove | core/user_entry.py:86-94 | lending a book and then returning it leaves the same multiset of lent ids |
| Users.SetUserType | core/user_entry.py:99-100 | `set_user_type` changes the type; id, name, key, lending list and note stay as they were |
| Users.UpdatesKeepIdentity | core/user_entry.py:56-59 | no update changes which user an entry is equal to |

## Left out

- `TeaServer` (accept loop, one thread per connection, the 0.5 s accept timeout, interrupt-driven shutdown, per-connection exception handling): concurrency and I/O.
- Socket `recv`/`sendall`, `BUFSIZE` and UTF-8 decoding: the client receives a given sequence of already-decoded chunks. Writes are modelled as the strings or `Client.Reply` values written.
- A peer that closes the connection. The end of the chunk sequence stands for a peer that stays connected and sends nothing, so the model reports `Blocked`. After a real disconnect, `recv` returns an empty chunk on every call, and a closed peer can appear in the model only as `""` chunks. In the code, the outer loop then spins forever on empty chunks without failing, and a pending KAU takes the empty chunk as its nonce, asks for a password and sends `sig,`. The model has no unbounded stream of empty chunks, so that endless loop is not modelled.
- The values `keywait`, `shellwait` and `passwait` return: they are the server's receive of the client's reply, which is I/O.
- `input`, `getpass` and `sys.stdout.flush`: typed lines are an oracle sequence. Running out of lines stands for the EOFError these calls raise at end of input. Flushing has no effect on the model's output.
- `TeaPublicKey.verify`, `TeaSecretKey.password`/`sign`, `randomstring` and `sha256`: these are code this model cannot see. They are parameters: `verify`, `Client.Keys`, and the nonce. The nonce length of 32 is not used by any property.
- `TeaClient.__init__` connection failure (`ConnectionRefusedError`, `exit(1)`), the `KeyboardInterrupt` handler and the socket shutdown in `finally`: process and socket handling.
- The `debug` trace in `connect`: diagnostic output only.
- The abstract `service` hook: it is supplied by subclasses outside this core.
- `UserEntry.auth_pubkey`/`change_pubkey`: thin wrappers over the key class. The key is kept as its text.
- List aliasing through `get_lendinglist` and through the list stored by the constructor: the model has values, not references.
- `__str__` and the plain getters: the getters are datatype fields.
- The `NotImplemented` results of `__eq__`/`__lt__` for non-entries: excluded by typing.
- Users.LoadDict: weaker than Python on value kinds. Python's `int(val)` also parses numeric strings, and `list(val)` accepts any iterable. The model accepts only integer values and lists of integers there. The model also keeps name and public key as text, so a non-string value for either is an error in the model, where Python would store it.

## Findings

| source | as written | input that shows it | evidently intended | confidence | as-written member | corrected member |
|---|---|---|---|---|---|---|
| net/old/teasocket.py:87-99 | on a nonce mismatch `challnge` returns `None`, so `org_cc, sig, res_cc = self.challnge()` raises TypeError and `return False` on line 90 is unreachable | nonce `abc`, reply `sig,abd` | `auth` returns false | high; not executed | Session.MismatchRaises | Session.AuthIntended |
