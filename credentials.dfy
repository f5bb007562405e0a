/**
 * `get_credentials`: the configuration file as a dictionary. Each line is stripped and
 * split at its first '='; the value of `smtp_pwd` is stored base 64- and ASCII-decoded and
 * stripped; a later line overwrites an earlier one with the same key.
 * The file is given as the sequence of its lines.
 */
module Credentials {
  import opened Wrappers
  import opened Text
  import Base64
  import Ascii

  const PasswordKey: string := "smtp_pwd"

  /** Why one line could not be loaded: the exception Python raises for it. */
  datatype LineError =
    | NoSeparator     // unpacking `split("=", 1)` into two names raises ValueError
    | InvalidBase64   // `b64decode` raises binascii.Error, or ValueError for a non-ASCII value
    | NotAscii        // `decode("ascii")` raises UnicodeDecodeError

  /** The first line, counted from 0, that could not be loaded, and why. */
  datatype LoadError = LoadError(line: nat, reason: LineError)

  /** The stored form of the `smtp_pwd` value: base 64-decoded, ASCII-decoded, stripped. */
  function DecodePassword(raw: string): (r: Result<string, LineError>)
    ensures r.Ok? ==> Strip(r.value) == r.value && Ascii.IsAscii(r.value)
    ensures r == Err(InvalidBase64) <==> Base64.Decode(raw).None?
    ensures r == Err(InvalidBase64) <==> !Base64.WellFormed(raw)
  {
    Base64.DecodeIffWellFormed(raw);
    match Base64.Decode(raw)
    case None => Err(InvalidBase64)
    case Some(bytes) =>
      match Ascii.Decode(bytes)
      case None => Err(NotAscii)
      case Some(text) =>
        StripIdempotent(text);
        StripKeepsAscii(text);
        Ok(Strip(text))
  }

  /** Stripping ASCII text leaves ASCII text: only characters of the text itself remain. */
  lemma StripKeepsAscii(text: string)
    requires Ascii.IsAscii(text)
    ensures Ascii.IsAscii(Strip(text))
  {
    StripRemovesOnlySpace(text);
    var n := LeadingSpaces(text);
    assert Strip(text) == text[n..n + |Strip(text)|];
  }

  /** One stripped line as a (key, value) entry. */
  function ParseLine(line: string): Result<(string, string), LineError> {
    match SplitFirst(Strip(line), '=')
    case None => Err(NoSeparator)
    case Some((key, raw)) =>
      if key == PasswordKey then
        match DecodePassword(raw)
        case Err(e) => Err(e)
        case Ok(pwd) => Ok((key, pwd))
      else Ok((key, raw))
  }

  type Entry = (string, string)

  /** Each line's entry or error, in file order. */
  function ParseLines(lines: seq<string>): (rs: seq<Result<Entry, LineError>>)
    ensures |rs| == |lines|
  {
    seq(|lines|, i requires 0 <= i < |lines| => ParseLine(lines[i]))
  }

  /** The dictionary after the entries, in order; the first line that fails ends the load. */
  function Collect(rs: seq<Result<Entry, LineError>>): Result<map<string, string>, LoadError> {
    if rs == [] then Ok(map[])
    else
      var n := |rs| - 1;
      match Collect(rs[..n])
      case Err(e) => Err(e)
      case Ok(d) =>
        match rs[n]
        case Err(reason) => Err(LoadError(n, reason))
        case Ok((key, value)) => Ok(d[key := value])
  }

  /** What `get_credentials` returns or raises for a file with these lines. */
  function Load(lines: seq<string>): Result<map<string, string>, LoadError> {
    Collect(ParseLines(lines))
  }

  /** The loop of `get_credentials` over the lines, updating the dictionary in place. */
  method GetCredentials(lines: seq<string>) returns (r: Result<map<string, string>, LoadError>)
    ensures r == Load(lines)
  {
    ghost var rs := ParseLines(lines);
    var d: map<string, string> := map[];
    var i := 0;
    while i < |lines|
      invariant 0 <= i <= |lines|
      invariant Collect(rs[..i]) == Ok(d)
    {
      assert rs[..i + 1][..i] == rs[..i];
      assert rs[i] == ParseLine(lines[i]);
      match ParseLine(lines[i]) {
        case Err(reason) =>
          CollectKeepsFirstError(rs, i + 1);
          return Err(LoadError(i, reason));
        case Ok((key, value)) =>
          d := d[key := value];
      }
      i := i + 1;
    }
    assert rs[..i] == rs;
    return Ok(d);
  }

  /** Once a prefix of the entries fails, the whole file fails with the same error. */
  lemma {:induction false} CollectKeepsFirstError(rs: seq<Result<Entry, LineError>>, k: nat)
    requires k <= |rs| && Collect(rs[..k]).Err?
    ensures Collect(rs) == Collect(rs[..k])
    decreases |rs| - k
  {
    if k < |rs| {
      var n := |rs| - 1;
      if k < n {
        assert rs[..n][..k] == rs[..k];
        CollectKeepsFirstError(rs[..n], k);
      } else {
        assert rs[..k] == rs[..n];
      }
    } else {
      assert rs[..k] == rs;
    }
  }

  // ----- Properties of one line -----

  /** A line fails for want of '=' exactly when its stripped form has none. */
  lemma NoSeparatorIff(line: string)
    ensures ParseLine(line) == Err(NoSeparator) <==> '=' !in Strip(line)
  {
  }

  /** A blank or whitespace-only line has no '=' and so fails. */
  lemma BlankLineFails(line: string)
    requires AllSpace(line)
    ensures ParseLine(line) == Err(NoSeparator)
  {
    StripRemovesOnlySpace(line);
  }

  /**
   * The key is the text before the first '=' of the stripped line; every key other than
   * `smtp_pwd` keeps, as its value, exactly the text after that '='.
   */
  lemma SplitAtFirstSeparator(line: string)
    requires ParseLine(line).Ok?
    ensures var (key, value) := ParseLine(line).value;
      '=' !in key &&
      (key != PasswordKey ==> key + "=" + value == Strip(line)) &&
      (key == PasswordKey ==> exists raw :: key + "=" + raw == Strip(line) && DecodePassword(raw) == Ok(value))
  {
    var (key, raw) := SplitFirst(Strip(line), '=').value;
    assert key + "=" + raw == Strip(line);
  }

  /** A line `smtp_pwd=<base 64 of p>` loads the password `p` without its surrounding whitespace. */
  lemma PasswordLine(p: string)
    requires Ascii.IsAscii(p)
    ensures ParseLine(PasswordKey + "=" + Base64.Encode(Ascii.Encode(p))) == Ok((PasswordKey, Strip(p)))
  {
    var raw := Base64.Encode(Ascii.Encode(p));
    var line := PasswordKey + "=" + raw;
    PasswordLineStripped(raw);
    PasswordLineSplits(raw);
    assert SplitFirst(Strip(line), '=') == Some((PasswordKey, raw));
    PasswordRoundTrip(p);
    assert DecodePassword(raw) == Ok(Strip(p));
  }

  lemma PasswordLineStripped(raw: string)
    requires forall i | 0 <= i < |raw| :: raw[i] == Base64.Pad || Base64.ValueOf(raw[i]).Some?
    ensures Strip(PasswordKey + "=" + raw) == PasswordKey + "=" + raw
  {
    var line := PasswordKey + "=" + raw;
    NoSpaceAtEnds(line, raw);
    StripUnique([], line, []);
    assert [] + line + [] == line;
  }

  lemma PasswordLineSplits(raw: string)
    ensures SplitFirst(PasswordKey + "=" + raw, '=') == Some((PasswordKey, raw))
  {
    assert '=' !in PasswordKey;
    SplitFirstUnique(PasswordKey, '=', raw);
  }

  /** The stored password is the stripped text whose base 64 form the file holds. */
  lemma PasswordRoundTrip(p: string)
    requires Ascii.IsAscii(p)
    ensures DecodePassword(Base64.Encode(Ascii.Encode(p))) == Ok(Strip(p))
  {
    Base64.DecodeEncode(Ascii.Encode(p));
    Ascii.DecodeEncode(p);
  }

  /** `smtp_pwd=` followed by base 64 text neither starts nor ends with whitespace. */
  lemma NoSpaceAtEnds(line: string, raw: string)
    requires line == PasswordKey + "=" + raw
    requires forall i | 0 <= i < |raw| :: raw[i] == Base64.Pad || Base64.ValueOf(raw[i]).Some?
    ensures !IsSpace(line[0]) && !IsSpace(line[|line| - 1])
  {
    if raw != [] {
      assert line[|line| - 1] == raw[|raw| - 1];
    } else {
      assert line == "smtp_pwd=";
    }
  }

  // ----- Properties of the whole file -----

  /** Entry `i` loads and has key `k`. */
  predicate Carries(rs: seq<Result<Entry, LineError>>, i: int, k: string) {
    0 <= i < |rs| && rs[i].Ok? && rs[i].value.0 == k
  }

  /** Entry `i` is the last one with key `k`. */
  predicate LastCarrying(rs: seq<Result<Entry, LineError>>, i: int, k: string) {
    Carries(rs, i, k) && forall j | i < j < |rs| :: !Carries(rs, j, k)
  }

  /** Building the dictionary fails exactly when some line fails, and it reports the first such line. */
  lemma {:induction false} CollectFailsAtFirstBadLine(rs: seq<Result<Entry, LineError>>)
    ensures Collect(rs).Err? <==> exists i | 0 <= i < |rs| :: rs[i].Err?
    ensures Collect(rs).Err? ==>
      var e := Collect(rs).error;
      e.line < |rs| && rs[e.line] == Err(e.reason) && forall j | 0 <= j < e.line :: rs[j].Ok?
  {
    if rs != [] {
      var n := |rs| - 1;
      var front := rs[..n];
      CollectFailsAtFirstBadLine(front);
      assert forall i | 0 <= i < n :: front[i] == rs[i];
    }
  }

  /**
   * A built dictionary has as keys exactly the keys of the entries, and each key has the
   * value of the last entry carrying it.
   */
  lemma {:induction false} LastEntryWins(rs: seq<Result<Entry, LineError>>)
    requires Collect(rs).Ok?
    ensures forall i | 0 <= i < |rs| :: rs[i].Ok?
    ensures forall k :: k in Collect(rs).value <==> exists i :: Carries(rs, i, k)
    ensures forall i, k :: LastCarrying(rs, i, k) ==> Collect(rs).value[k] == rs[i].value.1
  {
    if rs != [] {
      var n := |rs| - 1;
      var front := rs[..n];
      LastEntryWins(front);
      var d := Collect(front).value;
      var (key, value) := rs[n].value;
      assert Collect(rs).value == d[key := value];
      assert forall i | 0 <= i < n :: front[i] == rs[i];
      assert forall i, k | 0 <= i < n :: Carries(rs, i, k) == Carries(front, i, k);
      assert Carries(rs, n, key);
      forall k ensures k in Collect(rs).value <==> exists i :: Carries(rs, i, k) {
        if k != key && k in d {
          var i :| Carries(front, i, k);
          assert Carries(rs, i, k);
        }
      }
      forall i, k | LastCarrying(rs, i, k)
        ensures Collect(rs).value[k] == rs[i].value.1
      {
        if k == key {
          assert i == n;
        } else {
          assert LastCarrying(front, i, k);
        }
      }
    }
  }

  /** The file fails to load exactly when one of its lines fails, and the first such line is reported. */
  lemma LoadFailsAtFirstBadLine(lines: seq<string>)
    ensures Load(lines).Err? <==> exists i | 0 <= i < |lines| :: ParseLine(lines[i]).Err?
    ensures Load(lines).Err? ==>
      var e := Load(lines).error;
      e.line < |lines| && ParseLine(lines[e.line]) == Err(e.reason) &&
      forall j | 0 <= j < e.line :: ParseLine(lines[j]).Ok?
  {
    var rs := ParseLines(lines);
    CollectFailsAtFirstBadLine(rs);
    assert forall i | 0 <= i < |lines| :: rs[i] == ParseLine(lines[i]);
  }
}
