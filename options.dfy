/**
 * The option loop of `main`: the `(option, argument)` pairs that `getopt` returns, folded
 * into the run's settings. Each setting is a variable of `main` that a matching option
 * assigns, so a later option overwrites an earlier one; a setting no option assigned stays
 * unbound (`None`). `-h` ends the run on the spot.
 */
module Options {
  import opened Wrappers
  import opened Text

  /** The long options registered with `getopt`. */
  const LongOptions: seq<string> := ["conf_file=", "recepients=", "subject=", "message=", "files="]

  /** The variables of `main` that the options assign. */
  datatype Setting = ConfigFile | Recipients | Subject | Message | Files

  datatype Settings = Settings(
    configFile: Option<string>,
    recipients: Option<seq<string>>,
    subject: Option<string>,
    message: Option<string>,
    files: Option<seq<string>>)

  /** Before the loop no setting is bound. */
  const Unset := Settings(None, None, None, None, None)

  /** A setting's value: a string, or the list a comma-separated argument was split into. */
  datatype Value = Str(s: string) | Items(items: seq<string>)

  /** The `elif` chain: which setting an option assigns. The chain tests "--config_file", which is not registered. */
  function Target(opt: string): Option<Setting> {
    if opt == "-c" || opt == "--config_file" then Some(ConfigFile)
    else if opt == "-r" || opt == "--recepients" then Some(Recipients)
    else if opt == "-s" || opt == "--subject" then Some(Subject)
    else if opt == "-m" || opt == "--message" then Some(Message)
    else if opt == "-f" || opt == "--files" then Some(Files)
    else None
  }

  /** The value an argument gives a setting: `-r` and `-f` arguments are split on every comma. */
  function ValueFor(s: Setting, arg: string): Value {
    if s == Recipients || s == Files then Items(Split(arg, ',')) else Str(arg)
  }

  /** The current value of one setting. */
  function Get(st: Settings, s: Setting): Option<Value> {
    match s
    case ConfigFile => if st.configFile.Some? then Some(Str(st.configFile.value)) else None
    case Recipients => if st.recipients.Some? then Some(Items(st.recipients.value)) else None
    case Subject => if st.subject.Some? then Some(Str(st.subject.value)) else None
    case Message => if st.message.Some? then Some(Str(st.message.value)) else None
    case Files => if st.files.Some? then Some(Items(st.files.value)) else None
  }

  /** One iteration of the loop for a non-help option: assign the setting it targets, if any. */
  function Step(st: Settings, opt: string, arg: string): Settings {
    match Target(opt)
    case None => st
    case Some(ConfigFile) => st.(configFile := Some(arg))
    case Some(Recipients) => st.(recipients := Some(Split(arg, ',')))
    case Some(Subject) => st.(subject := Some(arg))
    case Some(Message) => st.(message := Some(arg))
    case Some(Files) => st.(files := Some(Split(arg, ',')))
  }

  /** A step assigns the setting its option targets, and no other. */
  lemma StepAssigns(st: Settings, opt: string, arg: string, s: Setting)
    ensures Get(Step(st, opt, arg), s) == if Target(opt) == Some(s) then Some(ValueFor(s, arg)) else Get(st, s)
  {
  }

  /** How the loop ends: usage printed by `-h`, or the loop ran through all options. */
  datatype Parsed = Usage | Proceed(settings: Settings)

  predicate IsHelp(o: (string, string)) { o.0 == "-h" }

  /** The rest of the loop, from settings `st`, over the options `rest`. */
  function Resume(st: Settings, rest: seq<(string, string)>): Parsed
    decreases |rest|
  {
    if rest == [] then Proceed(st)
    else if IsHelp(rest[0]) then Usage
    else Resume(Step(st, rest[0].0, rest[0].1), rest[1..])
  }

  /** What the whole option loop of `main` produces. */
  function Dispatch(opts: seq<(string, string)>): Parsed {
    Resume(Unset, opts)
  }

  /** The option loop of `main`, reassigning the settings as it goes. */
  method ParseOptions(opts: seq<(string, string)>) returns (p: Parsed)
    ensures p == Dispatch(opts)
  {
    var configFile: Option<string> := None;
    var recipients: Option<seq<string>> := None;
    var subject: Option<string> := None;
    var message: Option<string> := None;
    var files: Option<seq<string>> := None;
    var i := 0;
    while i < |opts|
      invariant 0 <= i <= |opts|
      invariant Resume(Settings(configFile, recipients, subject, message, files), opts[i..]) == Dispatch(opts)
    {
      var (opt, arg) := opts[i];
      assert opts[i..][1..] == opts[i + 1..];
      if opt == "-h" {
        return Usage;
      } else if opt == "-c" || opt == "--config_file" {
        configFile := Some(arg);
      } else if opt == "-r" || opt == "--recepients" {
        recipients := Some(Split(arg, ','));
      } else if opt == "-s" || opt == "--subject" {
        subject := Some(arg);
      } else if opt == "-m" || opt == "--message" {
        message := Some(arg);
      } else if opt == "-f" || opt == "--files" {
        files := Some(Split(arg, ','));
      }
      i := i + 1;
    }
    return Proceed(Settings(configFile, recipients, subject, message, files));
  }

  // ----- Properties of the option loop -----

  /** The loop stops with the usage message exactly when some option is `-h`. */
  lemma {:induction false} UsageIffHelp(st: Settings, rest: seq<(string, string)>)
    ensures Resume(st, rest) == Usage <==> exists i | 0 <= i < |rest| :: IsHelp(rest[i])
    decreases |rest|
  {
    if rest != [] && !IsHelp(rest[0]) {
      UsageIffHelp(Step(st, rest[0].0, rest[0].1), rest[1..]);
      assert forall i | 1 <= i < |rest| :: rest[i] == rest[1..][i - 1];
    }
  }

  /** Option `i` assigns setting `s`. */
  predicate Assigns(opts: seq<(string, string)>, i: int, s: Setting) {
    0 <= i < |opts| && Target(opts[i].0) == Some(s)
  }

  /** Option `i` is the last one that assigns setting `s`. */
  predicate LastAssigns(opts: seq<(string, string)>, i: int, s: Setting) {
    Assigns(opts, i, s) && forall j | i < j < |opts| :: !Assigns(opts, j, s)
  }

  /** Without `-h` the loop runs through every option. */
  lemma {:induction false} NoHelpProceeds(st: Settings, rest: seq<(string, string)>)
    requires forall i | 0 <= i < |rest| :: !IsHelp(rest[i])
    ensures Resume(st, rest).Proceed?
  {
    UsageIffHelp(st, rest);
  }

  /** Without `-h`, a setting that no option assigns keeps its value. */
  lemma {:induction false} UnassignedKept(st: Settings, rest: seq<(string, string)>, s: Setting)
    requires forall i | 0 <= i < |rest| :: !IsHelp(rest[i])
    requires forall i :: !Assigns(rest, i, s)
    ensures Resume(st, rest).Proceed? && Get(Resume(st, rest).settings, s) == Get(st, s)
    decreases |rest|
  {
    NoHelpProceeds(st, rest);
    if rest != [] {
      var tail := rest[1..];
      assert !Assigns(rest, 0, s);
      forall j | 0 <= j < |tail| ensures !IsHelp(tail[j]) && !Assigns(tail, j, s) {
        assert tail[j] == rest[j + 1];
        assert !Assigns(rest, j + 1, s);
      }
      UnassignedKept(Step(st, rest[0].0, rest[0].1), tail, s);
      StepAssigns(st, rest[0].0, rest[0].1, s);
    }
  }

  /** Without `-h`, a setting ends with the value of the last option that assigns it. */
  lemma {:induction false} LastOptionWins(st: Settings, rest: seq<(string, string)>, s: Setting, i: nat)
    requires forall k | 0 <= k < |rest| :: !IsHelp(rest[k])
    requires LastAssigns(rest, i, s)
    ensures Resume(st, rest).Proceed? && Get(Resume(st, rest).settings, s) == Some(ValueFor(s, rest[i].1))
    decreases |rest|
  {
    NoHelpProceeds(st, rest);
    var st' := Step(st, rest[0].0, rest[0].1);
    var tail := rest[1..];
    forall j | 0 <= j < |tail| ensures !IsHelp(tail[j]) {
      assert tail[j] == rest[j + 1];
    }
    if i > 0 {
      assert LastAssigns(tail, i - 1, s) by {
        forall j | i - 1 < j < |tail| ensures !Assigns(tail, j, s) {
          assert tail[j] == rest[j + 1];
          assert !Assigns(rest, j + 1, s);
        }
      }
      LastOptionWins(st', tail, s, i - 1);
    } else {
      forall j ensures !Assigns(tail, j, s) {
        if 0 <= j < |tail| {
          assert tail[j] == rest[j + 1];
          assert !Assigns(rest, j + 1, s);
        }
      }
      UnassignedKept(st', tail, s);
      StepAssigns(st, rest[0].0, rest[0].1, s);
    }
  }

  /** The settings the whole loop leaves, when no option is `-h`: the last write of each. */
  lemma SettingsAfterLoop(opts: seq<(string, string)>, s: Setting)
    requires forall i | 0 <= i < |opts| :: !IsHelp(opts[i])
    ensures Dispatch(opts).Proceed?
    ensures (forall i :: !Assigns(opts, i, s)) ==> Get(Dispatch(opts).settings, s) == None
    ensures forall i :: LastAssigns(opts, i, s) ==>
      Get(Dispatch(opts).settings, s) == Some(ValueFor(s, opts[i].1))
  {
    NoHelpProceeds(Unset, opts);
    if forall i :: !Assigns(opts, i, s) {
      UnassignedKept(Unset, opts, s);
    }
    forall i | LastAssigns(opts, i, s)
      ensures Get(Dispatch(opts).settings, s) == Some(ValueFor(s, opts[i].1))
    {
      LastOptionWins(Unset, opts, s, i);
    }
  }

  /** An option the `elif` chain does not test, such as `--conf_file`, has no effect wherever it stands. */
  lemma {:induction false} UnmatchedOptionIgnored(
    st: Settings, before: seq<(string, string)>, opt: string, arg: string, after: seq<(string, string)>)
    requires opt != "-h" && Target(opt).None?
    ensures Resume(st, before + [(opt, arg)] + after) == Resume(st, before + after)
    decreases |before|
  {
    if before == [] {
      assert Step(st, opt, arg) == st;
      assert ([(opt, arg)] + after)[1..] == after;
      assert before + after == after;
      assert [] + [(opt, arg)] + after == [(opt, arg)] + after;
    } else {
      assert (before + [(opt, arg)] + after)[1..] == before[1..] + [(opt, arg)] + after;
      assert (before + after)[1..] == before[1..] + after;
      if !IsHelp(before[0]) {
        UnmatchedOptionIgnored(Step(st, before[0].0, before[0].1), before[1..], opt, arg, after);
      }
    }
  }

  /**
   * Of the registered long options only `conf_file` is never matched: `getopt` reports it as
   * "--conf_file", which the chain does not test, so it never sets the configuration file.
   */
  lemma ConfFileNeverMatches()
    ensures forall i | 0 <= i < |LongOptions| ::
      Target("--" + LongOptions[i][..|LongOptions[i]| - 1]).None? <==> LongOptions[i] == "conf_file="
  {
    assert LongOptions[0][..|LongOptions[0]| - 1] == "conf_file";
    assert LongOptions[1][..|LongOptions[1]| - 1] == "recepients";
    assert LongOptions[2][..|LongOptions[2]| - 1] == "subject";
    assert LongOptions[3][..|LongOptions[3]| - 1] == "message";
    assert LongOptions[4][..|LongOptions[4]| - 1] == "files";
  }

  /** `--conf_file PATH` leaves the run exactly as it would be without it. */
  lemma ConfFileIgnored(before: seq<(string, string)>, path: string, after: seq<(string, string)>)
    ensures Dispatch(before + [("--conf_file", path)] + after) == Dispatch(before + after)
  {
    UnmatchedOptionIgnored(Unset, before, "--conf_file", path, after);
  }
}
