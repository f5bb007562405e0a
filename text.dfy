/**
 * The string operations the script applies with Python's built-ins:
 * `str.strip()`, `str.split(sep, 1)`, `str.split(sep)`, `str.join` and
 * `os.path.basename` (POSIX flavour).
 */
module Text {
  import opened Wrappers

  /** Python 3's `str.isspace`: the characters `str.strip()` removes when called without arguments. */
  predicate IsSpace(c: char) {
    var n := c as int;
    n == 0x20 || 0x09 <= n <= 0x0D || 0x1C <= n <= 0x1F || n == 0x85 || n == 0xA0 ||
    n == 0x1680 || 0x2000 <= n <= 0x200A || n == 0x2028 || n == 0x2029 ||
    n == 0x202F || n == 0x205F || n == 0x3000
  }

  predicate AllSpace(s: string) {
    forall k | 0 <= k < |s| :: IsSpace(s[k])
  }

  /** Number of whitespace characters at the front of `s`. */
  function LeadingSpaces(s: string): (n: nat)
    ensures n <= |s|
    ensures AllSpace(s[..n])
    ensures n < |s| ==> !IsSpace(s[n])
  {
    if s != [] && IsSpace(s[0]) then
      var n := 1 + LeadingSpaces(s[1..]);
      assert s[..n] == [s[0]] + s[1..][..n - 1];
      n
    else 0
  }

  /** Number of whitespace characters at the end of `s`. */
  function TrailingSpaces(s: string): (n: nat)
    ensures n <= |s|
    ensures forall k | |s| - n <= k < |s| :: IsSpace(s[k])
    ensures n < |s| ==> !IsSpace(s[|s| - 1 - n])
  {
    if s != [] && IsSpace(s[|s| - 1]) then 1 + TrailingSpaces(s[..|s| - 1]) else 0
  }

  /** `s.strip()`: `s` without its leading and trailing whitespace. */
  function Strip(s: string): (r: string)
    ensures |r| <= |s|
    ensures r == [] || (!IsSpace(r[0]) && !IsSpace(r[|r| - 1]))
  {
    var rest := s[LeadingSpaces(s)..];
    rest[..|rest| - TrailingSpaces(rest)]
  }

  /** What `strip()` removes is whitespace, and what it keeps is the rest of `s`, in place. */
  lemma StripRemovesOnlySpace(s: string)
    ensures var r, p := Strip(s), LeadingSpaces(s);
      p + |r| <= |s| && s[p..p + |r|] == r && AllSpace(s[..p]) && AllSpace(s[p + |r|..])
  {
    StripIsSlice(s);
    StripLeavesTrailingSpace(s);
  }

  lemma StripIsSlice(s: string)
    ensures var r, p := Strip(s), LeadingSpaces(s); p + |r| <= |s| && s[p..p + |r|] == r
  {
    var p := LeadingSpaces(s);
    var rest := s[p..];
    var r := rest[..|rest| - TrailingSpaces(rest)];
    assert s[p..p + |r|] == r;
  }

  lemma StripLeavesTrailingSpace(s: string)
    ensures LeadingSpaces(s) + |Strip(s)| <= |s| && AllSpace(s[LeadingSpaces(s) + |Strip(s)|..])
  {
    var p := LeadingSpaces(s);
    var rest := s[p..];
    var q := TrailingSpaces(rest);
    var start := p + |Strip(s)|;
    forall k | 0 <= k < |s| - start
      ensures IsSpace(s[start..][k])
    {
      assert s[start..][k] == rest[|rest| - q + k];
    }
  }

  /**
   * Any decomposition of `s` into whitespace, a core that neither starts nor ends
   * with whitespace, and whitespace again has that core as `Strip(s)`.
   */
  lemma {:induction false} StripUnique(pre: string, core: string, post: string)
    requires AllSpace(pre) && AllSpace(post)
    requires core == [] || (!IsSpace(core[0]) && !IsSpace(core[|core| - 1]))
    ensures Strip(pre + core + post) == core
  {
    var s := pre + core + post;
    var lead := LeadingSpaces(s);
    if core != [] {
      assert s[|pre|] == core[0];
      var rest := s[lead..];
      assert rest == core + post;
      var trail := TrailingSpaces(rest);
      var last := |rest| - 1 - |post|;
      assert rest[last] == core[|core| - 1];
      assert rest[..|rest| - trail] == core;
    }
  }

  /** Stripping twice changes nothing more. */
  lemma StripIdempotent(s: string)
    ensures Strip(Strip(s)) == Strip(s)
  {
    var r := Strip(s);
    assert [] + r + [] == r;
    StripUnique([], r, []);
  }

  /** `s.split(sep, 1)`: the text before the first `sep` and the text after it, or `None` when there is no `sep`. */
  function SplitFirst(s: string, sep: char): (r: Option<(string, string)>)
    ensures r.None? <==> sep !in s
    ensures r.Some? ==> sep !in r.value.0 && r.value.0 + [sep] + r.value.1 == s
  {
    if s == [] then None
    else if s[0] == sep then Some(([], s[1..]))
    else
      match SplitFirst(s[1..], sep)
      case None => None
      case Some((k, v)) => Some(([s[0]] + k, v))
  }

  /** The split is at the first separator: a key free of `sep` fixes both halves. */
  lemma {:induction false} SplitFirstUnique(k: string, sep: char, v: string)
    requires sep !in k
    ensures SplitFirst(k + [sep] + v, sep) == Some((k, v))
  {
    var s := k + [sep] + v;
    if k != [] {
      assert s[1..] == k[1..] + [sep] + v;
      SplitFirstUnique(k[1..], sep, v);
      assert [s[0]] + k[1..] == k;
    } else {
      assert s[1..] == v;
    }
  }

  /** `sep.join(items)`. */
  function Join(items: seq<string>, sep: string): string {
    if |items| == 0 then []
    else if |items| == 1 then items[0]
    else items[0] + sep + Join(items[1..], sep)
  }

  /** `s.split(sep)`: the pieces between the separators, one more than there are separators. */
  function Split(s: string, sep: char): (r: seq<string>)
    ensures |r| == multiset(s)[sep] + 1
    ensures forall i | 0 <= i < |r| :: sep !in r[i]
    ensures Join(r, [sep]) == s
    decreases |s|
  {
    match SplitFirst(s, sep)
    case None =>
      assert multiset(s)[sep] == 0;
      [s]
    case Some((k, v)) =>
      assert multiset(s) == multiset(k) + multiset{sep} + multiset(v) by {
        assert s == k + [sep] + v;
      }
      assert multiset(k)[sep] == 0;
      var rest := Split(v, sep);
      [k] + rest
  }

  /** Splitting undoes joining, for pieces free of the separator. */
  lemma {:induction false} SplitJoin(items: seq<string>, sep: char)
    requires |items| > 0
    requires forall i | 0 <= i < |items| :: sep !in items[i]
    ensures Split(Join(items, [sep]), sep) == items
  {
    if |items| == 1 {
      assert SplitFirst(items[0], sep).None?;
    } else {
      var tail := Join(items[1..], [sep]);
      assert Join(items, [sep]) == items[0] + [sep] + tail;
      SplitFirstUnique(items[0], sep, tail);
      SplitJoin(items[1..], sep);
      assert [items[0]] + items[1..] == items;
    }
  }

  /** `s` with a space inserted after every comma. */
  function SpaceAfterCommas(s: string): string {
    if s == [] then []
    else if s[0] == ',' then ", " + SpaceAfterCommas(s[1..])
    else [s[0]] + SpaceAfterCommas(s[1..])
  }

  lemma {:induction false} SpacedPrefix(k: string, v: string)
    requires ',' !in k
    ensures SpaceAfterCommas(k + v) == k + SpaceAfterCommas(v)
  {
    if k != [] {
      assert (k + v)[1..] == k[1..] + v;
      SpacedPrefix(k[1..], v);
      assert [k[0]] + k[1..] == k;
    } else {
      assert k + v == v;
    }
  }

  /**
   * Joining the comma-split pieces with ", " (the `To` header built from a `-r` argument)
   * is the argument with a space after every comma.
   */
  lemma {:induction false} JoinSplitSpaced(s: string)
    ensures Join(Split(s, ','), ", ") == SpaceAfterCommas(s)
    decreases |s|
  {
    match SplitFirst(s, ',')
    case None =>
      SpacedPrefix(s, []);
      assert s + [] == s;
    case Some((k, v)) =>
      JoinSplitSpaced(v);
      JoinSplitStep(s, k, v);
      SpacedStep(s, k, v);
  }

  lemma SpacedStep(s: string, k: string, v: string)
    requires ',' !in k && s == k + [','] + v
    ensures SpaceAfterCommas(s) == k + ", " + SpaceAfterCommas(v)
  {
    var tail := [','] + v;
    assert s == k + tail;
    SpacedPrefix(k, tail);
    assert tail[1..] == v;
    assert SpaceAfterCommas(tail) == ", " + SpaceAfterCommas(v);
  }

  lemma JoinSplitStep(s: string, k: string, v: string)
    requires SplitFirst(s, ',') == Some((k, v))
    ensures Join(Split(s, ','), ", ") == k + ", " + Join(Split(v, ','), ", ")
  {
    var rest := Split(v, ',');
    assert Split(s, ',') == [k] + rest;
    JoinCons(k, rest, ", ");
  }

  lemma JoinCons(head: string, rest: seq<string>, sep: string)
    requires |rest| > 0
    ensures Join([head] + rest, sep) == head + sep + Join(rest, sep)
  {
    assert ([head] + rest)[1..] == rest;
  }

  /** `os.path.basename(p)` on POSIX: the text after the last '/'. */
  function Basename(p: string): string {
    if p == [] || p[|p| - 1] == '/' then []
    else Basename(p[..|p| - 1]) + [p[|p| - 1]]
  }

  /** The base name is the final part of the path, holds no '/', and follows a '/' if anything precedes it. */
  lemma {:induction false} BasenameIsLastComponent(p: string)
    ensures var r := Basename(p);
      '/' !in r && |r| <= |p| && r == p[|p| - |r|..] && (|r| < |p| ==> p[|p| - |r| - 1] == '/')
  {
    if p != [] && p[|p| - 1] != '/' {
      var front := p[..|p| - 1];
      BasenameIsLastComponent(front);
      var r := Basename(p);
      assert front[|front| - (|r| - 1)..] + [p[|p| - 1]] == p[|p| - |r|..];
    }
  }

  /** The base name is what follows the last '/': a name after a directory part ending in '/' (or after nothing). */
  lemma {:induction false} BasenameUnique(dir: string, name: string)
    requires '/' !in name
    requires dir == [] || dir[|dir| - 1] == '/'
    ensures Basename(dir + name) == name
  {
    var p := dir + name;
    if name == [] {
      assert p == dir;
    } else {
      var n := |name| - 1;
      assert p[..|p| - 1] == dir + name[..n];
      assert p[|p| - 1] == name[n];
      BasenameUnique(dir, name[..n]);
      assert name[..n] + [name[n]] == name;
    }
  }
}
