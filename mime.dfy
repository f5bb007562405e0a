/**
 * The message `send_mail` builds: a multipart container with `From`, `To`, `Date` and
 * `Subject` headers, one text part and one attachment part per file, in file order.
 * MIME serialisation is not modelled; a message is its headers and its parts.
 */
module Mime {
  import opened Wrappers
  import opened Text
  import opened Bytes

  /** `email.utils.COMMASPACE`. */
  const CommaSpace: string := ", "

  datatype Header = Header(name: string, value: string)

  datatype Part =
    | TextPart(body: string)
      /** A `MIMEApplication` part with its `Name` parameter and its `Content-Disposition` header. */
    | AttachmentPart(name: string, data: seq<Byte>, disposition: string)

  datatype Mail = Mail(headers: seq<Header>, parts: seq<Part>)

  /** A `MIMEMultipart` object that headers are set on and parts are attached to, in place. */
  class Message {
    var headers: seq<Header>
    var parts: seq<Part>

    constructor ()
      ensures headers == [] && parts == []
    {
      headers, parts := [], [];
    }

    function View(): Mail
      reads this
    {
      Mail(headers, parts)
    }

    /** `msg[name] = value` on a message without that header: the header is added at the end. */
    method SetHeader(name: string, value: string)
      modifies this
      ensures headers == old(headers) + [Header(name, value)] && parts == old(parts)
    {
      headers := headers + [Header(name, value)];
    }

    /** `msg.attach(part)`. */
    method Attach(p: Part)
      modifies this
      ensures parts == old(parts) + [p] && headers == old(headers)
    {
      parts := parts + [p];
    }
  }

  /** The attachment part for the file at `path` holding `data`, named by the path's base name. */
  function AttachmentFor(path: string, data: seq<Byte>): Part {
    var name := Basename(path);
    AttachmentPart(name, data, "attachment; filename=\"" + name + "\"")
  }

  /**
   * The attachment parts for `paths`, in order, reading each file from `fs`; the first path
   * that is not in `fs` is the error (`open` raises).
   */
  function Attachments(paths: seq<string>, fs: map<string, seq<Byte>>): Result<seq<Part>, string> {
    if paths == [] then Ok([])
    else
      var n := |paths| - 1;
      match Attachments(paths[..n], fs)
      case Err(p) => Err(p)
      case Ok(ps) =>
        if paths[n] in fs then Ok(ps + [AttachmentFor(paths[n], fs[paths[n]])]) else Err(paths[n])
  }

  /** The four headers `send_mail` sets, in the order it sets them. */
  function HeadersFor(sender: string, to: seq<string>, date: string, subject: string): seq<Header> {
    [Header("From", sender), Header("To", Join(to, CommaSpace)), Header("Date", date), Header("Subject", subject)]
  }

  /** `files or []`. */
  function PathsOf(files: Option<seq<string>>): seq<string> {
    if files.Some? then files.value else []
  }

  /** The message `send_mail` builds, or the first attachment path it cannot open. */
  function Compose(sender: string, to: seq<string>, date: string, subject: string, text: string,
                   files: Option<seq<string>>, fs: map<string, seq<Byte>>): Result<Mail, string>
  {
    match Attachments(PathsOf(files), fs)
    case Err(p) => Err(p)
    case Ok(ps) => Ok(Mail(HeadersFor(sender, to, date, subject), [TextPart(text)] + ps))
  }

  /**
   * The message-building half of `send_mail`: set the headers, attach the text, then read
   * and attach each file in turn. `unreadable` is the path whose `open` raised, if any.
   */
  method ComposeMessage(sender: string, to: seq<string>, date: string, subject: string, text: string,
                        files: Option<seq<string>>, fs: map<string, seq<Byte>>)
    returns (msg: Message, unreadable: Option<string>)
    ensures fresh(msg)
    ensures unreadable.None? <==> Compose(sender, to, date, subject, text, files, fs).Ok?
    ensures unreadable.None? ==> msg.View() == Compose(sender, to, date, subject, text, files, fs).value
    ensures unreadable.Some? ==> unreadable.value == Compose(sender, to, date, subject, text, files, fs).error
  {
    msg := new Message();
    msg.SetHeader("From", sender);
    msg.SetHeader("To", Join(to, CommaSpace));
    msg.SetHeader("Date", date);
    msg.SetHeader("Subject", subject);
    msg.Attach(TextPart(text));
    assert msg.headers == HeadersFor(sender, to, date, subject);
    unreadable := AttachFiles(msg, PathsOf(files), fs);
  }

  /** The loop of `send_mail` over the files: read each one and attach it, stopping at the first that cannot be opened. */
  method AttachFiles(msg: Message, paths: seq<string>, fs: map<string, seq<Byte>>) returns (unreadable: Option<string>)
    modifies msg
    ensures msg.headers == old(msg.headers)
    ensures unreadable.None? <==> Attachments(paths, fs).Ok?
    ensures unreadable.None? ==> msg.parts == old(msg.parts) + Attachments(paths, fs).value
    ensures unreadable.Some? ==> unreadable.value == Attachments(paths, fs).error
  {
    ghost var start := msg.parts;
    var i := 0;
    assert paths[..0] == [];
    while i < |paths|
      invariant 0 <= i <= |paths|
      invariant msg.headers == old(msg.headers)
      invariant Attachments(paths[..i], fs).Ok?
      invariant msg.parts == start + Attachments(paths[..i], fs).value
    {
      var f := paths[i];
      assert paths[..i + 1][..i] == paths[..i];
      if f !in fs {
        AttachmentsKeepFirstError(paths, fs, i + 1);
        return Some(f);
      }
      msg.Attach(AttachmentFor(f, fs[f]));
      i := i + 1;
    }
    assert paths[..i] == paths;
    return None;
  }

  /** Once a file in a prefix of the paths cannot be read, the whole list fails on it. */
  lemma {:induction false} AttachmentsKeepFirstError(paths: seq<string>, fs: map<string, seq<Byte>>, k: nat)
    requires k <= |paths| && Attachments(paths[..k], fs).Err?
    ensures Attachments(paths, fs) == Attachments(paths[..k], fs)
    decreases |paths| - k
  {
    if k < |paths| {
      var n := |paths| - 1;
      if k < n {
        assert paths[..n][..k] == paths[..k];
        AttachmentsKeepFirstError(paths[..n], fs, k);
      } else {
        assert paths[..k] == paths[..n];
      }
    } else {
      assert paths[..k] == paths;
    }
  }

  // ----- Properties of the message -----

  /**
   * The attachments are one part per path, in path order, each the named contents of its
   * file; they fail exactly when some file is missing, on the first missing one.
   */
  lemma {:induction false} AttachmentsInOrder(paths: seq<string>, fs: map<string, seq<Byte>>)
    ensures Attachments(paths, fs).Ok? <==> forall i | 0 <= i < |paths| :: paths[i] in fs
    ensures Attachments(paths, fs).Ok? ==>
      var ps := Attachments(paths, fs).value;
      |ps| == |paths| && forall i | 0 <= i < |paths| :: ps[i] == AttachmentFor(paths[i], fs[paths[i]])
    ensures Attachments(paths, fs).Err? ==>
      exists i | 0 <= i < |paths| :: paths[i] == Attachments(paths, fs).error && paths[i] !in fs &&
        forall j | 0 <= j < i :: paths[j] in fs
  {
    if paths != [] {
      var n := |paths| - 1;
      var front := paths[..n];
      AttachmentsInOrder(front, fs);
      assert forall i | 0 <= i < n :: front[i] == paths[i];
      match Attachments(front, fs)
      case Err(p) =>
        var i :| 0 <= i < |front| && front[i] == p && front[i] !in fs && forall j | 0 <= j < i :: front[j] in fs;
        assert paths[i] == p;
      case Ok(ps) =>
        if paths[n] !in fs {
          assert forall j | 0 <= j < n :: paths[j] in fs;
        }
    }
  }

  /**
   * A composed message carries the four headers, `To` being the recipients joined by ", ",
   * then the text part, then one attachment part per path, in order, named by the path's
   * base name; with no files there is no attachment part.
   */
  lemma ComposedMessage(sender: string, to: seq<string>, date: string, subject: string, text: string,
                        files: Option<seq<string>>, fs: map<string, seq<Byte>>)
    requires Compose(sender, to, date, subject, text, files, fs).Ok?
    ensures var m := Compose(sender, to, date, subject, text, files, fs).value;
      var paths := PathsOf(files);
      m.headers == [Header("From", sender), Header("To", Join(to, ", ")), Header("Date", date), Header("Subject", subject)] &&
      |m.parts| == 1 + |paths| && m.parts[0] == TextPart(text) &&
      (forall i | 0 <= i < |paths| ::
        paths[i] in fs && m.parts[i + 1].AttachmentPart? &&
        m.parts[i + 1].name == Basename(paths[i]) && m.parts[i + 1].data == fs[paths[i]] &&
        m.parts[i + 1].disposition == "attachment; filename=\"" + Basename(paths[i]) + "\"")
  {
    AttachmentsInOrder(PathsOf(files), fs);
  }

  /** Composing fails exactly when an attachment file is missing, and names the first missing one. */
  lemma ComposeFailsOnMissingFile(sender: string, to: seq<string>, date: string, subject: string, text: string,
                                  files: Option<seq<string>>, fs: map<string, seq<Byte>>)
    ensures var paths := PathsOf(files);
      var r := Compose(sender, to, date, subject, text, files, fs);
      (r.Err? <==> exists i | 0 <= i < |paths| :: paths[i] !in fs) &&
      (r.Err? ==>
         exists i | 0 <= i < |paths| :: paths[i] == r.error && paths[i] !in fs && forall j | 0 <= j < i :: paths[j] in fs)
  {
    AttachmentsInOrder(PathsOf(files), fs);
  }
}
