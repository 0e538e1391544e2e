# mailcatcher's SMTP session engine in Dafny

mailcatcher is a development mail server. The client authenticates with the
SMTP credentials of a project (AUTH PLAIN or AUTH LOGIN). It then sends an
envelope and a message, and the server stores the message for that project
instead of delivering it. This project models the per-connection engine,
`handleConnection` in `main.go`:

- the greeting, then a read loop over lines;
- dispatch on the trimmed line: HELO/EHLO, the two AUTH mechanisms, MAIL FROM,
  RCPT TO, DATA with its own read loop, QUIT, and the `500` reply to anything
  else;
- the two helpers `decodeBase64` and `handleAuthPlain`;
- the two store operations the engine calls, `GetProjectBySmtpCredentials` and
  `SaveEmail`, over the `Project` and `Email` records.

The model has two layers.

- **`Protocol`** (`protocol.dfy`) gives the engine as functions:
  - `Step` is one command: new state, replies, unread input, the emails saved,
    and whether the connection ends;
  - `Serve` is the read loop;
  - `Session` is a whole connection from the bytes the client sends.

  The properties of the engine are proved about these functions.
- **`Server`** (`session.dfy`) is the engine as the imperative program it is.
  - A `Connection` object holds the unread input and the writes made so far.
    A `Database` object (module `Store`) holds the projects table and the
    saved emails.
  - An `Engine` object holds the locals of `handleConnection` as fields, with
    one method per case of the command switch and the two loops as `while`
    loops.
  - Each method is proved to do exactly what the matching function of
    `Protocol` says. `HandleConnection` is proved to write exactly
    `Written(Session(input).replies)` and to save exactly `Session(input).saved`.

The Go library calls it relies on are modelled from their documented
behaviour:

- `Strings` (`strings.dfy`): `strings.TrimSpace`, `Trim`, `TrimPrefix`,
  `Fields`, `ToLower` and `bytes.Split`.
- `Base64` (`base64.dfy`): `base64.StdEncoding.DecodeString`, with an encoder
  as its reference.
- `Wire` (`wire.dfy`): `bufio.Reader.ReadString('\n')`.

The rest of the modules:

- `Auth` (`auth.dfy`) holds the two payload decoders.
- `DataPhase` (`data.dfy`) holds the DATA sub-loop.
- `Models` (`models.dfy`) and `Store` (`database.dfy`) hold the records and the
  store.
- `Scenarios` (`scenarios.dfy`) proves what whole SASL exchanges produce,
  from the bytes a client sends.

There are several properties about whole connections:

- a QUIT line ends the connection;
- authentication is never lost and is never again refused with `530`;
- every saved email has a sender, a recipient and a project of the table;
- recipients only grow;
- a captured subject is kept;
- with an empty projects table nothing is ever saved.

The model follows the code as written, including these behaviours a client
may not expect:

- Commands are matched case-sensitively. `mail from:` is answered `500`.
- The `Subject:` header line stays in the stored body. The body is every line
  before the terminator.
- The PLAIN message is split at every NUL byte. Anything other than exactly
  three pieces gives empty credentials.
- A `Subject:` header with an empty value does not count as a subject, so a
  later header can still set it.

## Model

| member | source | states |
|---|---|---|
| Strings.TrimLeft | main.go:69 | the result is no longer than the input and does not start with a cutset character |
| Strings.TrimRight | main.go:69 | the result is no longer than the input and does not end with a cutset character |
| Strings.Trim | main.go:126 | the result is no longer than the input and neither of its ends is in the cutset |
| Strings.TrimSpace | main.go:69 | the result is no longer than the input and neither of its ends is ASCII white space |
| Strings.TrimLeftFacts | main.go:69 | what `TrimLeft` keeps is a suffix of the input, and every character it drops is in the cutset |
| Strings.TrimRightFacts | main.go:69 | what `TrimRight` keeps is a prefix of the input, and every character it drops is in the cutset |
| Strings.TrimFacts | main.go:126 | `Trim` leaves the middle slice of the input whose two ends are outside the cutset, and everything around that slice is in the cutset |
| Strings.TrimNoop | main.go:69 | a string whose first and last characters are outside the cutset is left unchanged by trimming |
| Strings.TrimPadding | main.go:29 | cutset characters added on either side of a string do not change its trimmed form |
| Strings.TrimPrefix | main.go:126 | when the prefix is present, prefix + result is the input; otherwise the input is returned unchanged |
| Strings.ToLower | main.go:163 | the lowered line has the length of the line |
| Strings.Fields | main.go:79 | every field is non-empty and free of white space, and the fields concatenated are the input with its white space removed |
| Strings.FieldsWord | main.go:79 | a run of non-space characters followed by white space or the end of the line is the first field, whole: fields are the maximal runs |
| Strings.FieldsSpace | main.go:79 | white space before the first field makes no field |
| Strings.FieldsTwo | main.go:79 | two words separated by one space are exactly two fields |
| Strings.FieldsThree | main.go:79-82 | three words separated by single spaces are exactly three fields |
| Strings.Split | main.go:40 | there is one more piece than there are separators, no piece contains the separator, and the pieces joined with it give back the input |
| Strings.SplitJoin | main.go:40 | splitting a join of separator-free pieces returns those pieces |
| Base64.Decode | main.go:29 | a successful decoding is a byte string |
| Base64.Encode | main.go:29 | the reference encoder writes (n + 2) / 3 * 4 characters, each a base64 letter or `=` |
| Base64.DecodeEncode | main.go:29 | decoding the encoding of any byte string gives it back |
| Base64.DecodeOnlyEncodings | main.go:29 | the converse: a text decodes only when, with its line breaks removed, it is the encoding of its result, up to the low bits the decoder ignores in the last letter before `=`; `=` stands only where the encoder puts it |
| Base64.DecodeQuantaOnlyEncodings | main.go:29 | the same converse for a text without line breaks |
| Base64.DecodeNonStrict | main.go:29 | the decoder is not strict: every text that is, without its line breaks, an encoding of some bytes up to the ignored low bits decodes to those bytes (`AB==` decodes as `AA==` does) |
| Base64.DecodeQuantaNonStrict | main.go:29 | the same for a text without line breaks |
| Base64.DecodeExactly | main.go:29 | both directions together: a text decodes to given bytes exactly when, without its line breaks, it is their encoding up to the ignored low bits |
| Base64.EncodePaddingAtEnd | main.go:29 | the encoder writes `=` only in the last two places |
| Base64.DecodePaddingAtEnd | main.go:29 | a text with `=` anywhere but in its last two places, once line breaks are removed, fails to decode |
| Base64.DecodeSkipsLineBreaks | main.go:29 | a CR LF anywhere in the text does not change the decoding |
| Base64.DecodeRejects | main.go:29-33 | a character that is not a letter, `=`, CR or LF makes decoding fail |
| Base64.DecodeQuantaLength | main.go:29-33 | without line breaks, a text whose length is not a multiple of four fails to decode |
| Base64.UsernamePrompt | main.go:103 | the AUTH LOGIN username challenge `VXNlcm5hbWU6` is the encoding of `Username:` |
| Base64.PasswordPrompt | main.go:107 | the AUTH LOGIN password challenge `UGFzc3dvcmQ6` is the encoding of `Password:` |
| Auth.DecodeBase64 | main.go:28-35 | the result is a byte string, and it is "" whenever the trimmed payload does not decode |
| Auth.DecodeBase64Encode | main.go:28-35 | the decoder returns every byte string from its encoding |
| Auth.DecodeBase64Padding | main.go:29 | white space around a payload does not change what it decodes to |
| Auth.DecodeBase64Rejects | main.go:29-33 | a payload holding, inside its trimmed part, a character that is not a letter, `=` or a line break decodes to "" |
| Auth.HandleAuthPlain | main.go:38-45 | ("", "") unless the decoded message holds exactly two NUL bytes; otherwise two NUL-free strings that end the message as NUL user NUL password |
| Auth.ParsePlain | main.go:40-44 | the same split, stated on the decoded message |
| Auth.ParsePlainJoin | main.go:40-42 | the split inverts the layout `authzid NUL user NUL pass` |
| Auth.AuthPlainRoundTrip | main.go:38-45 | a client that encodes `authzid NUL user NUL pass` gets back exactly (user, pass), whatever the authorization identity |
| Auth.AuthPlainFourFields | main.go:41-44 | a message with four NUL-separated parts gives ("", "") |
| Store.FindProject | internal/db/database.go:114-131 | a project found is in the table with exactly the given credentials; "no project" only when no row matches |
| Store.FindProjectStored | internal/db/database.go:114-131 | with unique user names, a stored project is found from its own user name and password |
| Store.Database.GetProjectBySmtpCredentials | internal/db/database.go:114-131 | returns the lookup's row, or none when no row matches |
| Store.Database.SaveEmail | internal/db/database.go:134-159 | appends exactly the given email to the saved emails |
| Wire.ReadString | main.go:62 | text + rest is the input; a full line is read exactly when the input holds a line feed, and the line then ends with its only line feed; at the end of the stream nothing is left |
| Wire.ReadStringLine | main.go:62 | reading input that starts with a complete line returns exactly that line and leaves the rest |
| Wire.Lines | main.go:150 | the pieces successive reads return concatenate to the stream |
| Wire.LinesLine | main.go:150 | the pieces of a stream that starts with a complete line are that line followed by the pieces of the rest |
| Server.Connection.ReadString | main.go:62 | the method returns what `Wire.ReadString` returns, consumes exactly that and writes nothing |
| Server.Connection.Write | main.go:74 | appends one write and reads nothing |
| DataPhase.Accumulate | main.go:149-167 | the sub-loop never reads input back, and a subject already set is kept |
| DataPhase.AccumulateConsumes | main.go:149-167 | the raw text is the bytes consumed; with a terminator the input is the raw text and then the rest; otherwise nothing is left, the raw text equals the body and the dropped tail has no line feed |
| DataPhase.AccumulateLines | main.go:157-166 | the body is whole lines, none a terminator; with a terminator the raw text is the body and then that one line, and it is the first line of the input whose trimmed form is `.` |
| DataPhase.AccumulateSubject | main.go:163-165 | a subject already set is kept; otherwise the captured subject is that of the first body line that is a header with a non-empty value |
| DataPhase.AccumulateTerminated | main.go:149-167 | on non-terminator lines and then a terminator, the phase reads exactly those, leaves the rest, and captures the first header subject |
| DataPhase.AccumulateUnterminated | main.go:150-153 | on whole lines and then a partial line, the partial line is dropped and nothing is left |
| DataPhase.AccumulateEnd | main.go:159-161 | a terminator read first ends the phase with an empty body |
| DataPhase.AccumulateCons | main.go:157-166 | one body line goes into both buffers, applies the subject rule, and the phase goes on |
| Protocol.WrittenLines | main.go:74-76 | each write is the reply's text followed by a line feed |
| Protocol.WrittenAppend | main.go:74-76 | writing two runs of replies writes the run of their concatenation |
| Protocol.Classify | main.go:72-209 | the case tests in their fixed order: a line starting with `HELO` or `EHLO` is Hello; otherwise one starting with `AUTH PLAIN` is AUTH PLAIN, carrying an inline payload exactly when the line has three fields, and then the third field; otherwise `AUTH LOGIN`, then `MAIL FROM:`, then `RCPT TO:` by prefix; only `DATA` is DATA and only `QUIT` is QUIT; a line is Unknown exactly when no test holds; the MAIL FROM and RCPT TO arguments are the text after the prefix, with `<` and `>` trimmed |
| Protocol.PlainCredentials | main.go:79-90 | with an inline payload nothing is read and the credentials are its PLAIN split; otherwise exactly one read is consumed and the credentials are the PLAIN split of its text |
| Protocol.LoginCredentials | main.go:103-109 | exactly two reads are consumed, and both answers are trimmed of white space |
| Protocol.Step | main.go:72-210 | every command keeps the session invariant (authenticated exactly when a project of the table is set) and never reads input back |
| Protocol.Serve | main.go:61-72 | the read loop ends in a state that keeps the session invariant |
| Protocol.AuthStep | main.go:92-100 | a matching project gives the challenges then `235`, and the project is set and marked authenticated; otherwise the challenges then `535`, with the state unchanged |
| Protocol.AuthStepOutcome | main.go:92-100 | every AUTH ends in `235` with a project of the table, leaving the rest of the state alone, or in `535` with the whole state, including an earlier authentication, unchanged |
| Protocol.DataStep | main.go:138-202 | replies `354` then `250`; only the buffers and the subject change; the subject follows the capture rule; exactly one email made of the session's fields and the new buffers is saved, and only when there is a sender and a recipient |
| Protocol.Session | main.go:47-50 | a connection's first reply is the greeting |
| Protocol.StepRefused | main.go:121-142 | before authentication MAIL FROM, RCPT TO and DATA reply `530`, and an unknown line replies `500`; neither reads, saves or changes the state |
| Protocol.StepHello | main.go:73-76 | HELO and EHLO reply with the three greeting lines and change nothing |
| Protocol.StepPlain | main.go:78-100 | AUTH PLAIN takes its credentials inline, or else after a `334` challenge from one more read, and then authenticates with them |
| Protocol.StepLogin | main.go:102-119 | AUTH LOGIN sends two challenges, takes the decoded and trimmed answers of two reads, and authenticates with them |
| Protocol.PlainOutcome | main.go:78-100 | AUTH PLAIN ends in `235` with a table project or in `535` with the state unchanged, after the `334` only when the payload was not inline |
| Protocol.LoginOutcome | main.go:102-119 | AUTH LOGIN ends in `235` with a table project or in `535` with the state unchanged, after its two challenges |
| Protocol.StepMailFrom | main.go:121-127 | once authenticated, MAIL FROM overwrites the sender and replies `250` |
| Protocol.StepRcptTo | main.go:129-136 | once authenticated, RCPT TO appends the recipient and replies `250` |
| Protocol.StepAccepted | main.go:138-143 | once authenticated, DATA is the DATA phase |
| Protocol.StepData | main.go:138-202 | an accepted DATA replies `354` then `250`, keeps the envelope and the project, and saves one email exactly when there is a sender and a recipient |
| Protocol.DataTerminated | main.go:149-167 | with a terminator, the body is the lines before it, the raw text is those lines and the terminator, and nothing after it is read |
| Protocol.DataUnterminated | main.go:150-153 | when the stream ends first, the partial last line is dropped and the raw text equals the body |
| Protocol.StepQuit | main.go:204-206 | QUIT replies `221`, changes nothing and ends the connection |
| Protocol.StepKeeps | main.go:72-210 | every step: never reads back; ends the connection exactly on QUIT; never loses authentication; changes the project only by an AUTH ending in `235`; changes the sender or recipients only by an accepted MAIL FROM or RCPT TO; keeps a set subject; saves only the one email of an accepted DATA |
| Protocol.ServeLine | main.go:61-72 | the read loop on a complete line dispatches its trimmed form and then continues with the rest, unless the step quits |
| Protocol.ServeQuit | main.go:204-206 | a QUIT line, in any state, replies `221`; nothing after it is read, answered or saved |
| Protocol.ServeAuthenticated | main.go:61-211 | once authenticated, a connection stays authenticated to its end and is never again refused with `530` |
| Protocol.StepEligible | main.go:173-196 | every email one step saves has a sender, a recipient and the id of a project of the table |
| Protocol.ServeSaved | main.go:173-196 | every email a connection saves has a sender, a recipient and the id of a project of the table |
| Protocol.SessionWithoutProjects | main.go:92-100 | with an empty projects table a connection saves nothing |
| Protocol.ServeWithoutProjects | main.go:92-100 | from any state valid for an empty table, the rest of the connection saves nothing |
| Protocol.StepRecipients | main.go:134-135 | a step keeps the recipients as a prefix of its new recipients |
| Protocol.ServeRecipients | main.go:134-135 | the recipients a run starts with are a prefix of those it ends with |
| Protocol.StepSubject | main.go:163-165 | a step keeps a set subject, and any email it saves carries it |
| Protocol.ServeSubject | main.go:163-165 | a captured subject is kept to the end of the connection and is the subject of every email saved after it |
| Scenarios.TrimLine | main.go:69 | a line ending in CR LF is dispatched on what comes before them |
| Scenarios.PlainInlineFields | main.go:79 | `AUTH PLAIN <payload>` has the three fields AUTH, PLAIN and the payload |
| Scenarios.ClassifyPlainInline | main.go:78-84 | `AUTH PLAIN <payload>` carries its payload inline |
| Scenarios.PlainAloneFields | main.go:79 | `AUTH PLAIN` has the two fields AUTH and PLAIN |
| Scenarios.ClassifyPlainAlone | main.go:78-87 | `AUTH PLAIN` alone asks for the payload |
| Scenarios.ClassifyLogin | main.go:102 | `AUTH LOGIN` is dispatched to the LOGIN mechanism |
| Scenarios.PlainInline | main.go:78-100 | a one-line AUTH PLAIN with a well-formed message authenticates with the encoded user and password, with no challenge and without further reads |
| Scenarios.CrLfPadding | main.go:29 | a payload followed by CR LF decodes as the payload alone |
| Scenarios.EncodedLine | main.go:88-89 | an encoded payload on a line ending in CR LF reads as that line and decodes to the original bytes |
| Scenarios.PlainLinePayload | main.go:88-89 | the message on a line of its own gives exactly the user and password |
| Scenarios.PlainChallenged | main.go:85-100 | a two-step AUTH PLAIN is the `334` challenge and then the outcome of the encoded credentials |
| Scenarios.LoginExchange | main.go:102-119 | an AUTH LOGIN with two encoded answers is the two challenges and then the outcome of the user and password the answers encode |
| Server.HandleConnection | main.go:47-212 | a connection writes exactly the replies of `Session` for the bytes the client sends, and saves exactly its emails |
| Server.Engine.Loop | main.go:61-211 | the read loop writes and saves, after what is already written, exactly what `Serve` produces from the current state |
| Server.Engine.Next | main.go:61-72 | one turn: a failed read ends the connection; otherwise the trimmed line's command runs, and the loop invariant holds with strictly less input |
| Server.Engine.Handle | main.go:72-210 | one command's body leaves the state, writes, unread input, saved emails and quit flag that `Step` gives |
| Server.Engine.Hello | main.go:73-76 | writes the three HELO lines and reads nothing |
| Server.Engine.Authenticate | main.go:92-100 | the lookup and its two outcomes are exactly `AuthStep` with no challenge |
| Server.Engine.AuthPlain | main.go:78-100 | AUTH PLAIN leaves the state, writes and unread input of `AuthStep` on the credentials of `PlainCredentials` |
| Server.Engine.Challenge | main.go:103-104 | writes one challenge and returns the text of the next read |
| Server.Engine.AuthLogin | main.go:102-119 | AUTH LOGIN leaves the state, writes and unread input of `AuthStep` on the credentials of `LoginCredentials` |
| Server.Engine.MailFrom | main.go:121-127 | refuses with `530` and changes nothing before authentication; otherwise overwrites the sender and writes `250` |
| Server.Engine.RcptTo | main.go:129-136 | refuses with `530` and changes nothing before authentication; otherwise appends the recipient and writes `250` |
| Server.Engine.Data | main.go:138-142 | refuses with `530` before authentication; otherwise it is exactly `DataStep` |
| Server.Engine.Receive | main.go:143-171 | an accepted DATA leaves the state, writes, unread input and saved emails of `DataStep` |
| Server.Engine.ReadData | main.go:149-167 | the sub-loop leaves the buffers, subject and unread input of `Accumulate`, and writes nothing |
| Server.Engine.Save | main.go:173-197 | saves the email made of the session's fields exactly when there is a sender and at least one recipient |
| Server.Engine.Quit | main.go:204-206 | writes `221` and reads nothing |
| Server.Engine.Unknown | main.go:208-209 | writes `500` and reads nothing |

## Left out

- The listener in `main` (`net.Listen`, one goroutine per connection) and the
  `defer conn.Close()`: the model is one connection. Concurrent connections
  sharing a database are not modelled.
- `cmd/mailtrap/mailtrap.go` is not part of this model. It holds the
  interactive menus on standard input for creating and listing projects,
  listing emails and checking or resetting the database, and it does not
  take part in an SMTP session.
- SQLite, the schema and the JSON encoding of the recipients in `SaveEmail`:
  the store is the projects table as a sequence plus an append-only list of
  emails. The lookup returns the first matching row.
- `Store.Database.GetProjectBySmtpCredentials`: a failing query is not
  modelled. The lookup always returns the matching row when there is one,
  although in Go a query or scan error (a locked database, a `created_at`
  that does not scan) can fail it even then, and the engine would then
  answer `535`. `Store.FindProjectStored`, `Protocol.AuthStep` and the
  exchanges of `Scenarios` rely on the lookup not failing.
- `SaveEmail` errors: the engine only logs them, so the model never fails a
  save.
- The email's timestamp (`time.Now()`) and row id: the clock and the store
  assign them, and they are not part of `Models.Email`.
- The store compares credentials as exact strings. That is what the query
  does: the schema (`internal/db/database.go:48-55`) declares no collation, so
  SQLite compares the text columns byte for byte.
- Logging (`log.Printf`) and the echo of the raw data on standard output
  (`fmt.Print`): they change nothing the client or the store sees.
- The end of the stream and a read error are one case. The engine reacts to
  both identically; only its log line differs.
- Failing writes: `conn.Write` errors are ignored by the engine, and the model
  takes every write as done.
- `Strings.ToLower`: its contract states only that the length is kept. It
  lowers ASCII letters only, which is what the `subject:` test needs.
- `Strings.TrimSpace` and `Strings.Fields`: they skip the ASCII white space
  only, not the other Unicode space characters Go also skips.
- The dot-unstuffing of section 4.5.2 of RFC 5321 is not done by the engine,
  and not by the model either.
- `Protocol.Step`: its own contract states only the invariant and that input
  is never read back. Everything a step promises is in `Protocol.StepKeeps`
  and the per-command lemmas, and `Server.Engine.Handle` ties the imperative
  code to `Step` itself.
- `Protocol.Serve`: its own contract states only the invariant. What the loop
  does is in `Protocol.ServeLine`, `ServeQuit` and the whole-connection lemmas
  (`ServeAuthenticated`, `ServeSaved`, `ServeRecipients`, `ServeSubject`,
  `ServeWithoutProjects`).
- `DataPhase.Accumulate`: its own contract states only that input is never
  read back and that a set subject is kept. What it reads, keeps and captures
  is in `AccumulateConsumes`, `AccumulateLines` and `AccumulateSubject`.
- `Protocol.LoginCredentials`: its own contract does not say that the answers
  are the decoded ones; `Protocol.StepLogin` does.
- The greeting is written just after the session's locals are created
  rather than just before. Nothing can observe the order.
- `Server.Engine.Handle` takes the command already classified. The chain of
  case tests of the `switch` is `Protocol.Classify`, and `Handle` holds the
  case bodies.
