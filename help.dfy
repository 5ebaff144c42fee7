/** The `help` command `improver_help` (lib/improver/cli/__init__.py): it asks
    the dispatcher for the help of one command, or for the overview of all
    of them, and when the overview is asked for with `--usage` it removes the
    lines that only advertise each command's own `--help [--usage]`. */
module Help {
  import opened Values
  import opened Carrier
  import opened Evaluator

  // ---------------------------------------------------------------------------
  // `str.splitlines()` and `'\n'.join(...)`

  /** The characters `str.splitlines()` ends a line at. */
  predicate IsLineBoundary(c: char) {
    c == '\n' || c == '\r' || c == '\U{0B}' || c == '\U{0C}' || ('\U{1C}' <= c <= '\U{1E}')
    || c == '\U{85}' || c == '\U{2028}' || c == '\U{2029}'
  }

  predicate NoBoundary(line: string) {
    forall k :: 0 <= k < |line| ==> !IsLineBoundary(line[k])
  }

  /** The length of the first line of `t`: up to its first line boundary. */
  function LineLength(t: string): (n: nat)
    ensures n <= |t|
    ensures NoBoundary(t[..n])
    ensures n < |t| ==> IsLineBoundary(t[n])
    decreases t
  {
    if t == [] || IsLineBoundary(t[0]) then 0
    else
      var n := 1 + LineLength(t[1..]);
      assert t[..n] == [t[0]] + t[1..][..n - 1];
      n
  }

  /** The width of the line boundary at `t[n]`: `\r\n` counts as one. */
  function BreakWidth(t: string, n: nat): nat
    requires n < |t|
  {
    if t[n] == '\r' && n + 1 < |t| && t[n + 1] == '\n' then 2 else 1
  }

  /** `t.splitlines()`: the lines of `t` without their boundaries; a boundary
      at the very end does not start another line. */
  function SplitLines(t: string): (lines: seq<string>)
    ensures forall k :: 0 <= k < |lines| ==> NoBoundary(lines[k])
    ensures t == [] <==> lines == []
    decreases |t|
  {
    if t == [] then []
    else
      var n := LineLength(t);
      if n == |t| then [t]
      else [t[..n]] + SplitLines(t[n + BreakWidth(t, n)..])
  }

  /** `'\n'.join(lines)` */
  function JoinLines(lines: seq<string>): string
    decreases lines
  {
    if lines == [] then ""
    else if |lines| == 1 then lines[0]
    else lines[0] + "\n" + JoinLines(lines[1..])
  }

  /** `lines` less one empty line at the end, if it ends with one. */
  function DropTrailingEmpty(lines: seq<string>): seq<string> {
    if lines != [] && lines[|lines| - 1] == "" then lines[..|lines| - 1] else lines
  }

  lemma {:induction false} FirstLineLength(a: string, b: string)
    requires NoBoundary(a)
    requires b == [] || IsLineBoundary(b[0])
    ensures LineLength(a + b) == |a|
    decreases a
  {
    if a != [] {
      assert (a + b)[1..] == a[1..] + b;
      FirstLineLength(a[1..], b);
    }
  }

  /** Splitting undoes joining, for lines free of line boundaries, except that
      an empty last line is not seen again: `'a\n'.splitlines() == ['a']`. */
  lemma {:induction false} SplitJoin(lines: seq<string>)
    requires forall k :: 0 <= k < |lines| ==> NoBoundary(lines[k])
    ensures SplitLines(JoinLines(lines)) == DropTrailingEmpty(lines)
    decreases lines
  {
    if |lines| == 1 {
      if lines[0] != "" {
        FirstLineLength(lines[0], "");
        assert lines[0] + "" == lines[0];
      }
    } else if |lines| > 1 {
      SplitJoin(lines[1..]);
      SplitFirstLine(lines[0], JoinLines(lines[1..]));
      assert lines == [lines[0]] + lines[1..];
    }
  }

  /** A line followed by `\n` is split off as it is. */
  lemma SplitFirstLine(l: string, rest: string)
    requires NoBoundary(l)
    ensures SplitLines(l + "\n" + rest) == [l] + SplitLines(rest)
  {
    var t := l + "\n" + rest;
    assert t == l + ("\n" + rest);
    FirstLineLength(l, "\n" + rest);
    assert t[..|l|] == l;
    assert t[|l| + 1..] == rest;
  }

  // ---------------------------------------------------------------------------
  // The usage filter

  const UsageSuffix := "--help [--usage]"

  /** `line.endswith('--help [--usage]')` */
  predicate IsUsageHelpLine(line: string) {
    |UsageSuffix| <= |line| && line[|line| - |UsageSuffix|..] == UsageSuffix
  }

  /** The lines that are kept, in their order. */
  function KeptLines(lines: seq<string>): (kept: seq<string>)
    ensures |kept| <= |lines|
    ensures forall k :: 0 <= k < |kept| ==> !IsUsageHelpLine(kept[k])
    decreases lines
  {
    if lines == [] then []
    else
      var rest := KeptLines(lines[1..]);
      if IsUsageHelpLine(lines[0]) then rest else [lines[0]] + rest
  }

  /** Every kept line comes from the input, every line that does not
      advertise usage is kept, and nothing changes when no line does. */
  lemma {:induction false} KeptLinesMembers(lines: seq<string>)
    ensures var kept := KeptLines(lines);
            (forall k :: 0 <= k < |kept| ==> kept[k] in lines) &&
            (forall k :: 0 <= k < |lines| && !IsUsageHelpLine(lines[k]) ==> lines[k] in kept) &&
            ((forall k :: 0 <= k < |lines| ==> !IsUsageHelpLine(lines[k])) ==> kept == lines)
    decreases lines
  {
    if lines != [] {
      KeptLinesMembers(lines[1..]);
      assert forall k :: 1 <= k < |lines| ==> lines[k] == lines[1..][k - 1];
      assert lines == [lines[0]] + lines[1..];
    }
  }

  /** Keeping distributes over concatenation, and a single line is kept
      exactly when it does not advertise usage: so the kept lines keep their
      order and their multiplicity. */
  lemma KeptLinesOrder(a: seq<string>, b: seq<string>)
    ensures KeptLines(a + b) == KeptLines(a) + KeptLines(b)
    ensures forall l :: KeptLines([l]) == if IsUsageHelpLine(l) then [] else [l]
  {
    KeptLinesAppend(a, b);
    forall l ensures KeptLines([l]) == if IsUsageHelpLine(l) then [] else [l] {
      assert [l][1..] == [];
    }
  }

  lemma {:induction false} KeptLinesAppend(a: seq<string>, b: seq<string>)
    ensures KeptLines(a + b) == KeptLines(a) + KeptLines(b)
    decreases a
  {
    if a == [] {
      assert a + b == b;
    } else {
      var head := if IsUsageHelpLine(a[0]) then [] else [a[0]];
      assert (a + b)[0] == a[0] && (a + b)[1..] == a[1..] + b;
      assert KeptLines(a + b) == head + KeptLines(a[1..] + b);
      assert KeptLines(a) == head + KeptLines(a[1..]);
      KeptLinesAppend(a[1..], b);
      assert head + (KeptLines(a[1..]) + KeptLines(b)) == head + KeptLines(a[1..]) + KeptLines(b);
    }
  }

  /** The rewriting of the overview:
      `'\n'.join(line for line in text.splitlines() if not line.endswith(...))`.
      The lines of the result are the kept lines of the original, in their
      order (less an empty last one), so none of them advertises
      `--help [--usage]`. */
  function FilterHelp(text: string): (r: string)
    ensures SplitLines(r) == DropTrailingEmpty(KeptLines(SplitLines(text)))
    ensures forall k :: 0 <= k < |SplitLines(r)| ==> !IsUsageHelpLine(SplitLines(r)[k])
  {
    var kept := KeptLines(SplitLines(text));
    KeptHaveNoBoundary(SplitLines(text));
    SplitJoin(kept);
    JoinLines(kept)
  }

  lemma {:induction false} KeptHaveNoBoundary(lines: seq<string>)
    requires forall k :: 0 <= k < |lines| ==> NoBoundary(lines[k])
    ensures forall k :: 0 <= k < |KeptLines(lines)| ==> NoBoundary(KeptLines(lines)[k])
    decreases lines
  {
    if lines != [] {
      KeptHaveNoBoundary(lines[1..]);
      assert forall k :: 1 <= k < |lines| ==> lines[k] == lines[1..][k - 1];
    }
  }

  /** A help text without usage lines comes through the filter unchanged,
      line for line. */
  lemma FilterKeepsPlainHelp(text: string)
    requires forall k :: 0 <= k < |SplitLines(text)| ==> !IsUsageHelpLine(SplitLines(text)[k])
    ensures SplitLines(FilterHelp(text)) == DropTrailingEmpty(SplitLines(text))
  {
    KeptLinesMembers(SplitLines(text));
  }

  // ---------------------------------------------------------------------------
  // `progname.split()[0]`

  /** The white space in front of the first word. */
  function LeadingSpaces(s: string): (n: nat)
    ensures n <= |s|
    ensures forall k :: 0 <= k < n ==> IsSpace(s[k])
    ensures n < |s| ==> !IsSpace(s[n])
    decreases s
  {
    if s == [] || !IsSpace(s[0]) then 0 else 1 + LeadingSpaces(s[1..])
  }

  /** The length of the word `s` starts with. */
  function WordLength(s: string): (n: nat)
    ensures n <= |s|
    ensures forall k :: 0 <= k < n ==> !IsSpace(s[k])
    ensures n < |s| ==> IsSpace(s[n])
    decreases s
  {
    if s == [] || IsSpace(s[0]) then 0 else 1 + WordLength(s[1..])
  }

  /** `s.split()[0]`, or `None` where that raises `IndexError`: the first
      maximal run of non-white-space characters. */
  function FirstWord(s: string): (r: Option<string>)
    ensures r.None? <==> forall k :: 0 <= k < |s| ==> IsSpace(s[k])
    ensures r.Some? ==>
              var i := LeadingSpaces(s);
              var j := i + |r.value|;
              r.value != [] && j <= |s| && r.value == s[i..j] &&
              (forall k :: 0 <= k < i ==> IsSpace(s[k])) &&
              (forall k :: 0 <= k < |r.value| ==> !IsSpace(r.value[k])) &&
              (j < |s| ==> IsSpace(s[j]))
  {
    var i := LeadingSpaces(s);
    if i == |s| then None
    else
      var w := s[i..];
      var n := WordLength(w);
      assert w[0] == s[i];
      assert w[..n] == s[i..i + n];
      assert forall k :: 0 <= k < n ==> s[i..i + n][k] == w[k];
      assert i + n < |s| ==> s[i + n] == w[n];
      Some(s[i..i + n])
  }

  // ---------------------------------------------------------------------------
  // `improver_help`

  /** `filter(None, [command, '--help', usage and '--usage'])`: a missing or
      empty command and a false `usage` are dropped. */
  function HelpArgs(command: Option<string>, usage: bool): (r: seq<PyValue>)
    ensures AllText(r)
    ensures |r| == (if command.Some? && command.value != "" then 1 else 0) + (if usage then 2 else 1)
    ensures EqualsText(r[|r| - 1], if usage then "--usage" else "--help")
    ensures EqualsText(r[|r| - (if usage then 2 else 1)], "--help")
    ensures command.Some? && command.value != "" ==> r[0] == Str(command.value)
  {
    (if command.Some? && command.value != "" then [Str(command.value)] else [])
    + [Str("--help")] + (if usage then [Str("--usage")] else [])
  }

  /** `not command and usage`: the overview of all commands with their usage. */
  predicate Overview(command: Option<string>, usage: bool) {
    (command.None? || command.value == "") && usage
  }

  const NoWord := "IndexError: list index out of range"
  const NotText := "AttributeError: object has no attribute 'splitlines'"

  /** `improver_help(progname, command, usage=usage)`: one call of the
      dispatcher under the first word of `progname`; for the overview with
      usage, its text is filtered line by line. An answer that is not a
      `str` cannot be filtered. */
  method ImproverHelp(dispatch: Dispatcher, progname: string, command: Option<string>, usage: bool, identity: Identity)
    returns (result: Outcome, calls: seq<Call>)
    ensures FirstWord(progname).None? ==> result == Raised(NoWord) && calls == []
    ensures FirstWord(progname).Some? ==> calls == [Call(FirstWord(progname).value, HelpArgs(command, usage))]
    ensures FirstWord(progname).Some? ==>
              var answer := dispatch(FirstWord(progname).value, HelpArgs(command, usage));
              if answer.Raised? || !Overview(command, usage) then result == answer
              else if !IsStr(answer.value) then result == Raised(NotText)
              else result == Returned(Str(FilterHelp(Text(answer.value))))
  {
    var name := FirstWord(progname);
    if name.None? {
      return Raised(NoWord), [];
    }
    var args := HelpArgs(command, usage);
    PlainCommand(dispatch, name.value, args, identity);
    result, calls := ExecuteCommand(dispatch, name.value, args, false, identity);
    if Overview(command, usage) && result.Returned? {
      if !IsStr(result.value) {
        result := Raised(NotText);
      } else {
        result := Returned(Str(FilterHelp(Text(result.value))));
      }
    }
  }
}
