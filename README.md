# send_e-mail.py, modelled in Dafny

`send_e-mail.py` sends one e-mail over SMTP with STARTTLS and login. Credentials come from a
`key=value` configuration file, and the rest comes from the command line. This project models
the logic that surrounds the library calls:

- **Credential loading** (`get_credentials`), module `Credentials`. Each line is stripped and
  split at its first `=`. A later line overwrites an earlier one with the same key. Only the
  value of `smtp_pwd` is base 64-decoded (RFC 4648, section 4), then ASCII-decoded and then
  stripped. A line without `=`, blank lines included, makes the whole load fail. The file is
  given as its sequence of lines, and the loop that fills the dictionary is a method proved
  against the function `Load`.
- **Option dispatch** (the loop of `main`), module `Options`. The `(option, argument)` pairs
  that `getopt` returns are folded into five settings, and a later option overwrites an
  earlier one. `-r` and `-f` arguments are split on every comma. `-h` stops the run with the
  usage message. The long option registered as `conf_file` is reported by `getopt` as
  `--conf_file`. The loop tests for `--config_file` instead, so that option never sets the
  configuration path. The model keeps this behaviour and proves it.
- **Message assembly** (`send_mail` up to line 48), module `Mime`. A `Message` class stands
  for the `MIMEMultipart` object, with fields for its headers and parts. It gets the `From`,
  `To` (recipients joined by `", "`), `Date` and `Subject` headers, then one text part, then
  one attachment part per path, in path order, each named by the path's base name.
- **The run** (`main` after `getopt`), module `Program`. It covers the configuration check,
  the credential load, and the two calls of `send_mail`: the call with attachments inside
  `try`, and the call without them in the bare `except`. The SMTP session is a parameter
  `transport` that accepts or refuses what it is handed. At most two sessions are opened, and
  the second only after the first was refused.
- Helpers: `Text` holds `str.strip`, `str.split`, `str.join` and POSIX
  `os.path.basename`. `Base64` and `Ascii` hold the two decoders, each with the encoder it
  is proved to invert. `Bytes` holds the octet type they and the attachment files share.

I/O is passed in as parameters:

- the configuration files are a map from path to lines;
- the attachment files are a map from path to bytes;
- the clock is a function giving the `Date` header of each `send_mail` call;
- the SMTP session is the `transport` function.

Where the code and its description differ, the model follows the code:

- Running with no options at all crashes on the unbound `config_file`. It does not print the
  usage message (`Program.NoOptionsCrashes`).
- `--conf_file` is accepted by `getopt` but has no effect (`Options.ConfFileIgnored`).
- The bare `except` also catches the `UnboundLocalError` raised when `-f` was not given. In
  that case only the call without attachments is made (`Program.NoFilesOptionSkipsFirstCall`).
- A missing credential key or a missing `-r`/`-s`/`-m` raises on line 88. The `except`
  catches it, and line 90 raises it again.

## Model

| member | source | states |
|---|---|---|
| Text.Join | send_e-mail.py:35 | `", ".join`: the items with the separator between consecutive ones; `JoinSplitSpaced` and `SplitJoin` relate it to `split` |
| Text.Basename | send_e-mail.py:44-47 | `posixpath.basename`: the text after the last '/'; characterised by `BasenameIsLastComponent` and `BasenameUnique` |
| Credentials.ParseLine | send_e-mail.py:23-27 | one line's entry (key, value) or the exception its line raises; characterised by `NoSeparatorIff`, `SplitAtFirstSeparator` and `PasswordLine` |
| Credentials.Collect | send_e-mail.py:20-28 | the dictionary built from the lines' entries in order, or the first failing line; characterised by `CollectFailsAtFirstBadLine` and `LastEntryWins` |
| Credentials.Load | send_e-mail.py:19-28 | `get_credentials` of a file's lines; `GetCredentials` is proved to compute it |
| Options.Target | send_e-mail.py:69-78 | the setting each `elif` branch tests for: `-c`/`--config_file`, `-r`/`--recepients`, `-s`/`--subject`, `-m`/`--message`, `-f`/`--files`, and none for any other option |
| Options.Step | send_e-mail.py:69-78 | one pass of the loop body for a non-help option; characterised by `StepAssigns` |
| Options.Dispatch | send_e-mail.py:65-78 | the loop over all options, ending on the first `-h`; `ParseOptions` is proved to compute it, and `UsageIffHelp` and `SettingsAfterLoop` characterise it |
| Mime.AttachmentFor | send_e-mail.py:41-47 | the part for one file: its bytes, named by the path's base name, with disposition `attachment; filename="<name>"` |
| Mime.Attachments | send_e-mail.py:40-48 | the parts for all paths in order, or the first path that cannot be opened; characterised by `AttachmentsInOrder` |
| Mime.Compose | send_e-mail.py:33-48 | the message `send_mail` builds; characterised by `ComposedMessage` and `ComposeFailsOnMissingFile` |
| Program.Arguments | send_e-mail.py:88-90 | the argument list of line 88 or 90, evaluated left to right: the first missing credential key raises KeyError, then the first unbound variable of recipients, subject, message and (line 88 only) files raises UnboundLocalError |
| Program.SendMail | send_e-mail.py:31-55 | one `send_mail`: compose, then one session that accepts or raises; `RunSendMail` is proved to compute it |
| Program.Attempt | send_e-mail.py:88-90 | one call line: evaluate the arguments, then `send_mail`; characterised by `AttemptSessions` and `AttemptSubmission` |
| Program.Deliver | send_e-mail.py:87-90 | the `try` on line 88 with its bare `except` on line 90; characterised by `DeliverSessions`, `RetryCarriesTextOnly` and `RetryDropsOnlyAttachments` |
| Program.Behaviour | send_e-mail.py:58-90 | `main` after `getopt`: usage, unbound `config_file`, exit 2, a failed load, or delivery; `Run` is proved to compute it |
| Text.Strip | send_e-mail.py:23 | the stripped line is no longer than the line and neither starts nor ends with whitespace |
| Text.StripRemovesOnlySpace | send_e-mail.py:23 | `strip()` removes only whitespace, from the two ends, and keeps the rest in place |
| Text.StripUnique | send_e-mail.py:23 | whitespace + core + whitespace, where the core has no whitespace at either end, strips to exactly that core |
| Text.StripIdempotent | send_e-mail.py:26 | stripping an already stripped value changes nothing |
| Text.SplitFirst | send_e-mail.py:23 | `split("=", 1)` finds no separator exactly when there is none; otherwise the key has no separator and key + "=" + value is the text |
| Text.SplitFirstUnique | send_e-mail.py:23 | the split is at the first separator: any key free of `=` followed by `=` and a rest splits back into that key and rest |
| Text.Split | send_e-mail.py:72 | `split(",")` yields one more piece than there are commas (so never an empty list), no piece holds a comma, and joining the pieces with "," gives the argument back |
| Text.SplitJoin | send_e-mail.py:78 | splitting a comma-joined, comma-free, non-empty list gives the list back |
| Text.JoinSplitSpaced | send_e-mail.py:35 | the `To` header built from a `-r` argument is that argument with a space after every comma |
| Text.BasenameIsLastComponent | send_e-mail.py:44 | the attachment name is a suffix of the path that holds no '/' and follows a '/' whenever it is shorter than the path |
| Text.BasenameUnique | send_e-mail.py:47 | whatever follows the last '/' of a path is its base name |
| Base64.ValueOf | send_e-mail.py:25 | a character the decoder accepts stands for the sextet the RFC 4648 alphabet assigns it |
| Base64.Decode | send_e-mail.py:25 | strict decoding: input whose length is not a multiple of four is rejected (Python's lenient decoder can still accept some such input; see Left out) |
| Base64.DecodeIffWellFormed | send_e-mail.py:25 | the decoder accepts exactly the well-formed texts: a length that is a multiple of four, alphabet characters except for padding in the last two positions, and padding in the next-to-last position only together with padding in the last |
| Base64.DecodeEncode | send_e-mail.py:25 | decoding the RFC 4648 encoding of any bytes gives those bytes |
| Ascii.Decode | send_e-mail.py:26 | ASCII decoding succeeds exactly when every byte is below 128, and the characters are those bytes |
| Ascii.DecodeEncode | send_e-mail.py:26 | decoding the bytes of an ASCII string gives the string |
| Credentials.DecodePassword | send_e-mail.py:24-26 | a stored password is ASCII and stripped; the base 64 error is raised exactly when the value is not well-formed base 64 in the sense of `Base64.WellFormed` |
| Credentials.PasswordRoundTrip | send_e-mail.py:24-26 | for any ASCII text, the password stored from its base 64 form is that text with its surrounding whitespace stripped (so the base 64 of "secret\n" stores "secret") |
| Credentials.PasswordLine | send_e-mail.py:23-27 | for any ASCII text p, the line `smtp_pwd=<base 64 of p>` loads the entry (`smtp_pwd`, p stripped) |
| Credentials.GetCredentials | send_e-mail.py:19-28 | the loop filling the dictionary in place returns exactly `Load` of the lines: the dictionary, or the first failing line and its error |
| Credentials.CollectKeepsFirstError | send_e-mail.py:22-23 | once a line fails, no later line changes the outcome |
| Credentials.NoSeparatorIff | send_e-mail.py:23 | a line fails for want of `=` exactly when its stripped form has no `=` |
| Credentials.BlankLineFails | send_e-mail.py:23 | an empty or whitespace-only line fails the load |
| Credentials.SplitAtFirstSeparator | send_e-mail.py:23-27 | the key holds no `=`; every key but `smtp_pwd` keeps as its value exactly the text after the first `=`; `smtp_pwd` keeps the decoded text after it |
| Credentials.CollectFailsAtFirstBadLine | send_e-mail.py:22-27 | building the dictionary fails exactly when some line fails, and it reports the first such line |
| Credentials.LoadFailsAtFirstBadLine | send_e-mail.py:19-28 | loading fails exactly when some line of the file fails, and it reports the first such line and its reason |
| Credentials.LastEntryWins | send_e-mail.py:20-28 | the loaded keys are exactly the lines' keys, and each key has the value of the last line that carries it |
| Options.StepAssigns | send_e-mail.py:69-78 | a non-help option assigns the setting its `elif` branch names, split on commas for `-r`/`-f`, and no other setting |
| Options.ParseOptions | send_e-mail.py:65-78 | the option loop, reassigning five variables, ends as `Dispatch` says: usage, or the settings after all options |
| Options.UsageIffHelp | send_e-mail.py:66-68 | the loop ends with the usage message exactly when some option is `-h` |
| Options.NoHelpProceeds | send_e-mail.py:65-78 | without `-h` the loop runs through every option |
| Options.UnassignedKept | send_e-mail.py:65-78 | a setting that no option assigns keeps its value |
| Options.LastOptionWins | send_e-mail.py:65-78 | a setting ends with the value given by the last option that assigns it |
| Options.SettingsAfterLoop | send_e-mail.py:65-78 | after the loop each setting is unbound if no option assigned it, and otherwise holds the last assigning option's value |
| Options.UnmatchedOptionIgnored | send_e-mail.py:65-78 | an option that no branch tests has no effect wherever it stands |
| Options.ConfFileNeverMatches | send_e-mail.py:61-69 | of the five registered long options, only `conf_file` is matched by no branch |
| Options.ConfFileIgnored | send_e-mail.py:61-70 | `--conf_file PATH` leaves the run exactly as it is without it |
| Mime.Message.constructor | send_e-mail.py:33 | a new message starts with none of the headers `send_mail` sets and no parts (the container's own `Content-Type` and `MIME-Version` headers are not modelled) |
| Mime.Message.SetHeader | send_e-mail.py:34-37 | setting a header appends it and leaves the parts alone |
| Mime.Message.Attach | send_e-mail.py:38 | attaching appends the part and leaves the headers alone |
| Mime.ComposeMessage | send_e-mail.py:33-48 | the message object built in place is `Compose` of the arguments, or the first attachment path that cannot be opened |
| Mime.AttachFiles | send_e-mail.py:40-48 | the file loop appends exactly the attachment parts of the paths, or stops at the first unreadable one |
| Mime.AttachmentsKeepFirstError | send_e-mail.py:40-43 | once a file cannot be opened, later paths do not matter |
| Mime.AttachmentsInOrder | send_e-mail.py:40-48 | one attachment part per path, in path order, each named by the base name and holding the file's bytes; failure exactly when a file is missing, on the first missing one |
| Mime.ComposedMessage | send_e-mail.py:33-48 | the message has the From, To (joined by ", "), Date and Subject headers, then the text part, then one part per path named by its base name, with its bytes and disposition; none when there are no files |
| Mime.ComposeFailsOnMissingFile | send_e-mail.py:40-43 | composing fails exactly when an attachment file is missing, and names the first missing one |
| Program.RunSendMail | send_e-mail.py:31-55 | `send_mail` opens a session with the composed message unless a file cannot be opened, and raises if the session refuses |
| Program.Run | send_e-mail.py:58-90 | the whole of `main` after `getopt` behaves as `Behaviour` |
| Program.AttemptSessions | send_e-mail.py:50-55 | one call of `send_mail` opens at most one session, raises nothing exactly when that session is accepted, and fails with the SMTP error exactly when it is refused |
| Program.AttemptSubmission | send_e-mail.py:88 | a session carries the call's server, port, login, sender and recipients, and the message composed from the call's arguments |
| Program.ReachesDelivery | send_e-mail.py:80-88 | a session is opened only once the options are through, the configuration exists and the credentials have loaded |
| Program.DeliverSessions | send_e-mail.py:87-90 | the try/except opens at most two sessions, a second only after the first was refused; it succeeds exactly when the last session was accepted; a refused second session escapes |
| Program.AtMostTwoSessions | send_e-mail.py:87-90 | a run opens at most two sessions, and a second only after the first was refused |
| Program.SentIffLastAccepted | send_e-mail.py:87-90 | the run ends normally exactly when its last session was accepted |
| Program.BothRefusedCrashes | send_e-mail.py:89-90 | when the retry is refused too, the SMTP failure escapes `main` |
| Program.RetryDropsOnlyAttachments | send_e-mail.py:88-90 | when both calls reached SMTP, the retry goes to the same server with the same login, sender, recipients, From, To, Subject and text, and has no attachment part |
| Program.RetryArguments | send_e-mail.py:88-90 | line 90 evaluates the arguments of line 88 less the files; when that evaluation fails on line 90 it failed on line 88 with the same exception |
| Program.RetryCarriesTextOnly | send_e-mail.py:87-90 | whatever made line 88 raise (an unreadable attachment included), a session opened by line 90 carries the envelope of the call's arguments, the four headers dated by the second clock reading, and only the text part |
| Program.HelpEndsRun | send_e-mail.py:66-68 | `-h` anywhere ends the run with the usage message, without touching the configuration and without a session |
| Program.NoOptionsCrashes | send_e-mail.py:81 | with no options at all, `config_file` is unbound and the run crashes before reading a file or opening a session |
| Program.MissingConfigEndsRun | send_e-mail.py:81-85 | a configuration path that does not exist ends the run with status 2 and no session |
| Program.NoFilesOptionSkipsFirstCall | send_e-mail.py:87-90 | without `-f`, at most one session is opened, and it carries the text part only |

## Left out

- The SMTP session (`smtplib.SMTP`, `ehlo`, `starttls`, `login`, `sendmail`, `close`, lines 50-55) is network I/O. It is the parameter `transport`, which accepts or refuses a `Submission`. A failure at any of these steps counts as one refusal.
- File access (`open`, reading attachment bytes, `os.path.exists`) is I/O. Existing configuration files are a map from path to lines, and readable attachments a map from path to bytes. A configuration file that exists but cannot be opened is not modelled.
- `getopt`'s tokenising, its prefix matching of long options, and the usage-and-exit-1 path for bad options (lines 60-64) belong to the library. The model starts from the pairs `getopt` returns.
- `formatdate(localtime=True)` (line 36) reads the clock. It is the parameter `clock`, indexed by the call (line 88 or line 90).
- MIME serialisation (`as_string`) is left out. A message is its header list and its parts.
- Mime.Message.constructor: the headers `MIMEMultipart()` creates itself (`Content-Type: multipart/mixed` with its boundary, `MIME-Version: 1.0`) are not modelled. The model's header list holds only the four headers `send_mail` sets, so the counts of four headers in `Program.RetryDropsOnlyAttachments` and `Mime.ComposedMessage` hold of the model only.
- The `Content-Type`, `MIME-Version` and `Content-Transfer-Encoding` headers of each `MIMEText` and `MIMEApplication` part are not modelled. A part is its text, or its name, bytes and disposition.
- `print` and `sys.exit` are represented by the `Exit` value of the outcome.
- `assert isinstance(send_to, list)` (line 32) always holds, because recipients come from `split`. It is not modelled.
- Base64.Decode: strict RFC 4648 decoding of well-formed input only. Python's non-strict `b64decode` differs in three ways, and the model rejects all three kinds of input:
  - it silently discards ASCII characters outside the alphabet before decoding (a non-ASCII value makes it raise `ValueError`, which the model's failure matches);
  - it stops at the first complete padding and ignores what follows (`cGFzcw==junk` decodes to `pass`);
  - it accepts excess `=` (`QUJD=` decodes to `ABC`), so not every input of a length other than a multiple of four fails in Python.
- Credentials.DecodePassword: inherits the strict decoder. A `smtp_pwd` value that Python's lenient decoder accepts fails here with `InvalidBase64`: stray ASCII characters outside the alphabet (a space after `=`, say), data after the padding, or excess padding.
- Message text is `seq<char>` under Python 3 semantics. Python 2's byte strings and the locale's default file encoding are not modelled.
