/**
 * `main` after `getopt`: the option loop, the configuration check, the credential load and
 * the two calls of `send_mail` — the first with the attachments inside `try`, the second,
 * in the bare `except`, without them. The SMTP session itself is a parameter `transport`
 * that accepts or refuses what it is given; files are given as maps from path to contents.
 */
module Program {
  import opened Wrappers
  import opened Bytes
  import opened Options
  import opened Credentials
  import opened Mime

  /** What one SMTP session is given: server and port, login, envelope and message. */
  datatype Submission = Submission(
    server: string, port: string, user: string, password: string,
    sender: string, recipients: seq<string>, mail: Mail)

  /** The exceptions `main` can meet after `getopt`. */
  datatype Fault =
    | Unbound(name: string)      // a variable no option assigned (UnboundLocalError)
    | BadConfig(e: LoadError)    // `get_credentials` raised
    | MissingKey(key: string)    // `dict_cred[key]` raised KeyError
    | Unreadable(path: string)   // `open(f, "rb")` raised
    | Refused                    // the SMTP session raised

  /** How the run ends. */
  datatype Exit =
    | UsageShown          // `-h`: usage printed, exit status 0
    | ConfigNotFound      // message printed, exit status 2
    | Sent                // `main` returned normally
    | Crashed(fault: Fault)  // an exception escaped `main`

  /** How the run ends, and every SMTP session it opened, in order. */
  datatype Outcome = Outcome(exit: Exit, sessions: seq<Submission>)

  /** The arguments of one `send_mail` call. */
  datatype Call = Call(
    sender: string, user: string, password: string, server: string, port: string,
    recipients: seq<string>, subject: string, text: string, files: Option<seq<string>>)

  /** What one `send_mail` call did: the exception it raised, if any, and the sessions it opened. */
  datatype CallResult = CallResult(raised: Option<Fault>, sessions: seq<Submission>)

  /**
   * The argument list of line 88 (`withFiles`) or line 90, evaluated left to right: the
   * five credentials, then recipients, subject, message and, on line 88, the files.
   */
  function Arguments(creds: map<string, string>, st: Settings, withFiles: bool): Result<Call, Fault> {
    if "sender" !in creds then Err(MissingKey("sender"))
    else if "smtp_user" !in creds then Err(MissingKey("smtp_user"))
    else if PasswordKey !in creds then Err(MissingKey(PasswordKey))
    else if "smtp_server" !in creds then Err(MissingKey("smtp_server"))
    else if "smtp_port" !in creds then Err(MissingKey("smtp_port"))
    else if st.recipients.None? then Err(Unbound("recipients"))
    else if st.subject.None? then Err(Unbound("email_subject"))
    else if st.message.None? then Err(Unbound("email_message"))
    else if withFiles && st.files.None? then Err(Unbound("file_attachments"))
    else
      Ok(Call(creds["sender"], creds["smtp_user"], creds[PasswordKey], creds["smtp_server"], creds["smtp_port"],
              st.recipients.value, st.subject.value, st.message.value, if withFiles then st.files else None))
  }

  /** `send_mail`: build the message, then hand it to one SMTP session, the `before`-th of the run. */
  function SendMail(c: Call, date: string, fs: map<string, seq<Byte>>, before: nat,
                    transport: (nat, Submission) -> bool): CallResult
  {
    match Compose(c.sender, c.recipients, date, c.subject, c.text, c.files, fs)
    case Err(p) => CallResult(Some(Unreadable(p)), [])
    case Ok(mail) =>
      var sub := Submission(c.server, c.port, c.user, c.password, c.sender, c.recipients, mail);
      if transport(before, sub) then CallResult(None, [sub]) else CallResult(Some(Refused), [sub])
  }

  /** Line 88 or line 90: evaluate the arguments, then call `send_mail`. */
  function Attempt(creds: map<string, string>, st: Settings, withFiles: bool, date: string,
                   fs: map<string, seq<Byte>>, before: nat, transport: (nat, Submission) -> bool): CallResult
  {
    match Arguments(creds, st, withFiles)
    case Err(f) => CallResult(Some(f), [])
    case Ok(c) => SendMail(c, date, fs, before, transport)
  }

  /**
   * What `main` does with the options `getopt` returned. `configs` maps each existing
   * configuration file to its lines, `fs` each readable attachment file to its bytes,
   * `clock(k)` is the `Date` header of the call on line 88 (k = 0) or line 90 (k = 1).
   */
  function Behaviour(opts: seq<(string, string)>, configs: map<string, seq<string>>, fs: map<string, seq<Byte>>,
                     clock: nat -> string, transport: (nat, Submission) -> bool): Outcome
  {
    match Dispatch(opts)
    case Usage => Outcome(UsageShown, [])
    case Proceed(st) =>
      if st.configFile.None? then Outcome(Crashed(Unbound("config_file")), [])
      else if st.configFile.value !in configs then Outcome(ConfigNotFound, [])
      else
        match Load(configs[st.configFile.value])
        case Err(e) => Outcome(Crashed(BadConfig(e)), [])
        case Ok(creds) => Deliver(creds, st, fs, clock, transport)
  }

  /** The `try` of line 88 and its bare `except` of line 90. */
  function Deliver(creds: map<string, string>, st: Settings, fs: map<string, seq<Byte>>,
                   clock: nat -> string, transport: (nat, Submission) -> bool): Outcome
  {
    var first := Attempt(creds, st, true, clock(0), fs, 0, transport);
    if first.raised.None? then Outcome(Sent, first.sessions)
    else
      var second := Attempt(creds, st, false, clock(1), fs, |first.sessions|, transport);
      var sessions := first.sessions + second.sessions;
      if second.raised.None? then Outcome(Sent, sessions) else Outcome(Crashed(second.raised.value), sessions)
  }

  /** `send_mail` as the script runs it: compose the message object, then open the session. */
  method RunSendMail(c: Call, date: string, fs: map<string, seq<Byte>>, before: nat,
                     transport: (nat, Submission) -> bool) returns (r: CallResult)
    ensures r == SendMail(c, date, fs, before, transport)
  {
    var msg, unreadable := ComposeMessage(c.sender, c.recipients, date, c.subject, c.text, c.files, fs);
    if unreadable.Some? {
      return CallResult(Some(Unreadable(unreadable.value)), []);
    }
    var sub := Submission(c.server, c.port, c.user, c.password, c.sender, c.recipients, msg.View());
    if transport(before, sub) {
      r := CallResult(None, [sub]);
    } else {
      r := CallResult(Some(Refused), [sub]);
    }
  }

  /** `main(argv)` from the options `getopt` returned on. */
  method Run(opts: seq<(string, string)>, configs: map<string, seq<string>>, fs: map<string, seq<Byte>>,
             clock: nat -> string, transport: (nat, Submission) -> bool) returns (o: Outcome)
    ensures o == Behaviour(opts, configs, fs, clock, transport)
  {
    var parsed := ParseOptions(opts);
    if parsed.Usage? {
      return Outcome(UsageShown, []);
    }
    var st := parsed.settings;
    if st.configFile.None? {
      return Outcome(Crashed(Unbound("config_file")), []);
    }
    if st.configFile.value !in configs {
      return Outcome(ConfigNotFound, []);
    }
    var loaded := GetCredentials(configs[st.configFile.value]);
    if loaded.Err? {
      return Outcome(Crashed(BadConfig(loaded.error)), []);
    }
    var creds := loaded.value;
    var first: CallResult;
    var args := Arguments(creds, st, true);
    if args.Err? {
      first := CallResult(Some(args.error), []);
    } else {
      first := RunSendMail(args.value, clock(0), fs, 0, transport);
    }
    if first.raised.None? {
      return Outcome(Sent, first.sessions);
    }
    var second: CallResult;
    args := Arguments(creds, st, false);
    if args.Err? {
      second := CallResult(Some(args.error), []);
    } else {
      second := RunSendMail(args.value, clock(1), fs, |first.sessions|, transport);
    }
    var sessions := first.sessions + second.sessions;
    if second.raised.None? {
      o := Outcome(Sent, sessions);
    } else {
      o := Outcome(Crashed(second.raised.value), sessions);
    }
  }

  // ----- Properties of a run -----

  /** A `send_mail` call opens at most one session, and it raises exactly when that session is missing or refused. */
  lemma AttemptSessions(creds: map<string, string>, st: Settings, withFiles: bool, date: string,
                        fs: map<string, seq<Byte>>, before: nat, transport: (nat, Submission) -> bool)
    ensures var r := Attempt(creds, st, withFiles, date, fs, before, transport);
      |r.sessions| <= 1 &&
      (r.raised.None? <==> |r.sessions| == 1 && transport(before, r.sessions[0])) &&
      (r.raised == Some(Refused) <==> |r.sessions| == 1 && !transport(before, r.sessions[0]))
  {
  }

  /** A run that opens a session got past the options, the configuration check and the load. */
  lemma ReachesDelivery(opts: seq<(string, string)>, configs: map<string, seq<string>>, fs: map<string, seq<Byte>>,
                        clock: nat -> string, transport: (nat, Submission) -> bool)
      returns (creds: map<string, string>, st: Settings)
    requires Behaviour(opts, configs, fs, clock, transport).sessions != []
    ensures Dispatch(opts) == Proceed(st) && st.configFile.Some? && st.configFile.value in configs
    ensures Load(configs[st.configFile.value]) == Ok(creds)
    ensures Behaviour(opts, configs, fs, clock, transport) == Deliver(creds, st, fs, clock, transport)
  {
    st := Dispatch(opts).settings;
    creds := Load(configs[st.configFile.value]).value;
  }

  /**
   * The `try`/`except` opens at most two sessions, a second one only after the first was
   * refused; it succeeds exactly when its last session was accepted, and when the second
   * session is refused too, that failure escapes.
   */
  lemma DeliverSessions(creds: map<string, string>, st: Settings, fs: map<string, seq<Byte>>,
                        clock: nat -> string, transport: (nat, Submission) -> bool)
    ensures var o := Deliver(creds, st, fs, clock, transport);
      |o.sessions| <= 2 &&
      (|o.sessions| == 2 ==> !transport(0, o.sessions[0])) &&
      (o.exit == Sent <==> o.sessions != [] && transport(|o.sessions| - 1, o.sessions[|o.sessions| - 1])) &&
      (|o.sessions| == 2 && !transport(1, o.sessions[1]) ==> o.exit == Crashed(Refused))
  {
    var first := Attempt(creds, st, true, clock(0), fs, 0, transport);
    AttemptSessions(creds, st, true, clock(0), fs, 0, transport);
    AttemptSessions(creds, st, false, clock(1), fs, |first.sessions|, transport);
  }

  /** A run opens at most two SMTP sessions; a second one only after the first was refused. */
  lemma AtMostTwoSessions(opts: seq<(string, string)>, configs: map<string, seq<string>>, fs: map<string, seq<Byte>>,
                          clock: nat -> string, transport: (nat, Submission) -> bool)
    ensures var o := Behaviour(opts, configs, fs, clock, transport);
      |o.sessions| <= 2 && (|o.sessions| == 2 ==> !transport(0, o.sessions[0]))
  {
    if Behaviour(opts, configs, fs, clock, transport).sessions != [] {
      var creds, st := ReachesDelivery(opts, configs, fs, clock, transport);
      DeliverSessions(creds, st, fs, clock, transport);
    }
  }

  /** The run reports success exactly when its last session was accepted. */
  lemma SentIffLastAccepted(opts: seq<(string, string)>, configs: map<string, seq<string>>, fs: map<string, seq<Byte>>,
                            clock: nat -> string, transport: (nat, Submission) -> bool)
    ensures var o := Behaviour(opts, configs, fs, clock, transport);
      o.exit == Sent <==> o.sessions != [] && transport(|o.sessions| - 1, o.sessions[|o.sessions| - 1])
  {
    var o := Behaviour(opts, configs, fs, clock, transport);
    if o.sessions != [] {
      var creds, st := ReachesDelivery(opts, configs, fs, clock, transport);
      DeliverSessions(creds, st, fs, clock, transport);
    } else if o.exit == Sent {
      var st := Dispatch(opts).settings;
      var creds := Load(configs[st.configFile.value]).value;
      DeliverSessions(creds, st, fs, clock, transport);
    }
  }

  /** When both sessions are refused, the failure escapes `main`. */
  lemma BothRefusedCrashes(opts: seq<(string, string)>, configs: map<string, seq<string>>, fs: map<string, seq<Byte>>,
                           clock: nat -> string, transport: (nat, Submission) -> bool)
    requires var s := Behaviour(opts, configs, fs, clock, transport).sessions;
      |s| == 2 && !transport(1, s[1])
    ensures Behaviour(opts, configs, fs, clock, transport).exit == Crashed(Refused)
  {
    var creds, st := ReachesDelivery(opts, configs, fs, clock, transport);
    DeliverSessions(creds, st, fs, clock, transport);
  }

  /** A session opened by a call of `send_mail`: its envelope is the call's, its message is composed from the call's arguments. */
  lemma AttemptSubmission(creds: map<string, string>, st: Settings, withFiles: bool, date: string,
                          fs: map<string, seq<Byte>>, before: nat, transport: (nat, Submission) -> bool)
    requires Attempt(creds, st, withFiles, date, fs, before, transport).sessions != []
    ensures Arguments(creds, st, withFiles).Ok?
    ensures var c := Arguments(creds, st, withFiles).value;
      var s := Attempt(creds, st, withFiles, date, fs, before, transport).sessions[0];
      Compose(c.sender, c.recipients, date, c.subject, c.text, c.files, fs) == Ok(s.mail) &&
      s == Submission(c.server, c.port, c.user, c.password, c.sender, c.recipients, s.mail)
  {
  }

  /**
   * The second session resends to the same server, with the same login, sender and
   * recipients, the same `From`, `To` and `Subject`, and the same text, with no attachment.
   */
  lemma RetryDropsOnlyAttachments(creds: map<string, string>, st: Settings, fs: map<string, seq<Byte>>,
                                  clock: nat -> string, transport: (nat, Submission) -> bool)
    requires |Deliver(creds, st, fs, clock, transport).sessions| == 2
    ensures var s := Deliver(creds, st, fs, clock, transport).sessions;
      var a, b := s[0], s[1];
      b.server == a.server && b.port == a.port && b.user == a.user && b.password == a.password &&
      b.sender == a.sender && b.recipients == a.recipients &&
      |a.mail.headers| == |b.mail.headers| == 4 && b.mail.headers[2] == Header("Date", clock(1)) &&
      b.mail.headers[0] == a.mail.headers[0] && b.mail.headers[1] == a.mail.headers[1] &&
      b.mail.headers[3] == a.mail.headers[3] &&
      a.mail.parts != [] && b.mail.parts == [a.mail.parts[0]]
  {
    var first := Attempt(creds, st, true, clock(0), fs, 0, transport);
    var second := Attempt(creds, st, false, clock(1), fs, |first.sessions|, transport);
    AttemptSessions(creds, st, true, clock(0), fs, 0, transport);
    AttemptSessions(creds, st, false, clock(1), fs, |first.sessions|, transport);
    AttemptSubmission(creds, st, true, clock(0), fs, 0, transport);
    AttemptSubmission(creds, st, false, clock(1), fs, |first.sessions|, transport);
    var c1 := Arguments(creds, st, true).value;
    var c2 := Arguments(creds, st, false).value;
    assert c2 == c1.(files := None);
    ComposedMessage(c1.sender, c1.recipients, clock(0), c1.subject, c1.text, c1.files, fs);
    ComposedMessage(c2.sender, c2.recipients, clock(1), c2.subject, c2.text, c2.files, fs);
  }

  /**
   * Line 90 passes the arguments of line 88 without the files; when their evaluation fails
   * on line 90, it failed on line 88 with the same exception.
   */
  lemma RetryArguments(creds: map<string, string>, st: Settings)
    ensures Arguments(creds, st, true).Ok? ==>
      Arguments(creds, st, false) == Ok(Arguments(creds, st, true).value.(files := None))
    ensures Arguments(creds, st, false).Err? ==> Arguments(creds, st, true) == Arguments(creds, st, false)
  {
  }

  /**
   * Whatever made line 88 raise (an unreadable attachment, an unbound variable, a refused
   * session), a session opened by line 90 carries the envelope of the call's arguments, the
   * four headers dated `clock(1)` and the text part alone.
   */
  lemma RetryCarriesTextOnly(creds: map<string, string>, st: Settings, fs: map<string, seq<Byte>>,
                             clock: nat -> string, transport: (nat, Submission) -> bool)
    requires Attempt(creds, st, true, clock(0), fs, 0, transport).raised.Some?
    ensures var n := |Attempt(creds, st, true, clock(0), fs, 0, transport).sessions|;
      var s := Deliver(creds, st, fs, clock, transport).sessions;
      n <= |s| && forall k | n <= k < |s| ::
        Arguments(creds, st, false).Ok? &&
        var c := Arguments(creds, st, false).value;
        s[k] == Submission(c.server, c.port, c.user, c.password, c.sender, c.recipients, s[k].mail) &&
        s[k].mail == Mail(HeadersFor(c.sender, c.recipients, clock(1), c.subject), [TextPart(st.message.value)])
  {
    var first := Attempt(creds, st, true, clock(0), fs, 0, transport);
    var second := Attempt(creds, st, false, clock(1), fs, |first.sessions|, transport);
    AttemptSessions(creds, st, false, clock(1), fs, |first.sessions|, transport);
    if second.sessions != [] {
      AttemptSubmission(creds, st, false, clock(1), fs, |first.sessions|, transport);
      var c := Arguments(creds, st, false).value;
      assert c.files == None && c.text == st.message.value;
      ComposedMessage(c.sender, c.recipients, clock(1), c.subject, c.text, c.files, fs);
    }
  }

  /** With no options at all, `config_file` is unbound: line 81 raises before anything is read or sent. */
  lemma NoOptionsCrashes(configs: map<string, seq<string>>, fs: map<string, seq<Byte>>,
                         clock: nat -> string, transport: (nat, Submission) -> bool)
    ensures Behaviour([], configs, fs, clock, transport) == Outcome(Crashed(Unbound("config_file")), [])
  {
  }

  /** `-h` anywhere ends the run with the usage message: no configuration file is looked at and no session opened. */
  lemma HelpEndsRun(opts: seq<(string, string)>, configs: map<string, seq<string>>, fs: map<string, seq<Byte>>,
                    clock: nat -> string, transport: (nat, Submission) -> bool)
    requires exists i | 0 <= i < |opts| :: IsHelp(opts[i])
    ensures Behaviour(opts, configs, fs, clock, transport) == Outcome(UsageShown, [])
  {
    UsageIffHelp(Unset, opts);
  }

  /** A configuration path that does not exist ends the run with status 2 and no session. */
  lemma MissingConfigEndsRun(opts: seq<(string, string)>, configs: map<string, seq<string>>, fs: map<string, seq<Byte>>,
                             clock: nat -> string, transport: (nat, Submission) -> bool, path: string)
    requires forall i | 0 <= i < |opts| :: !IsHelp(opts[i])
    requires exists i :: LastAssigns(opts, i, ConfigFile) && opts[i].1 == path
    requires path !in configs
    ensures Behaviour(opts, configs, fs, clock, transport) == Outcome(ConfigNotFound, [])
  {
    var i :| LastAssigns(opts, i, ConfigFile) && opts[i].1 == path;
    SettingsAfterLoop(opts, ConfigFile);
  }

  /**
   * Without `-f`, `file_attachments` is unbound: line 88 raises before `send_mail` runs, and
   * the bare `except` makes the call of line 90, so at most one session is opened and it
   * carries the text part only.
   */
  lemma NoFilesOptionSkipsFirstCall(creds: map<string, string>, st: Settings, fs: map<string, seq<Byte>>,
                                    clock: nat -> string, transport: (nat, Submission) -> bool)
    requires st.files.None?
    ensures var s := Deliver(creds, st, fs, clock, transport).sessions;
      |s| <= 1 && forall k | 0 <= k < |s| :: s[k].mail.parts == [TextPart(st.message.value)]
  {
    var second := Attempt(creds, st, false, clock(1), fs, 0, transport);
    AttemptSessions(creds, st, false, clock(1), fs, 0, transport);
    if second.sessions != [] {
      AttemptSubmission(creds, st, false, clock(1), fs, 0, transport);
      var c := Arguments(creds, st, false).value;
      ComposedMessage(c.sender, c.recipients, clock(1), c.subject, c.text, c.files, fs);
    }
  }
}
