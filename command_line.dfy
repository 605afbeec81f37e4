/**
 * parseline: splits a command line into its arguments and decides whether
 * the job runs in the background.
 *
 * The working copy `Line(cmdline)` is the line with its last character
 * (normally the newline) replaced by a space. From a position, spaces are
 * skipped; an argument then either runs up to the next space, or, when it
 * starts with a single quote, is the text between that quote and the next
 * one. An argument with no closing delimiter ends the scan and is dropped.
 * `Tokens` states the result; the method `ParseLine` is the pointer walk
 * over the buffer, proved to produce it.
 */
module CommandLine {
  import opened Wrappers

  /** The local copy parseline scans: the last character replaced by a space. */
  function Line(cmdline: string): (line: string)
    requires |cmdline| >= 1
    ensures |line| == |cmdline| && line[|line| - 1] == ' '
    ensures forall k :: 0 <= k < |line| - 1 ==> line[k] == cmdline[k]
  {
    cmdline[..|cmdline| - 1] + " "
  }

  /** The first position at or after i that does not hold a space. */
  function SkipSpaces(line: string, i: nat): (j: nat)
    requires i <= |line|
    ensures i <= j <= |line|
    ensures forall k :: i <= k < j ==> line[k] == ' '
    ensures j < |line| ==> line[j] != ' '
    decreases |line| - i
  {
    if i < |line| && line[i] == ' ' then SkipSpaces(line, i + 1) else i
  }

  /** strchr from position i: the first position at or after i holding c, |line| if none. */
  function IndexOf(line: string, i: nat, c: char): (j: nat)
    requires i <= |line|
    ensures i <= j <= |line|
    ensures forall k :: i <= k < j ==> line[k] != c
    ensures j < |line| ==> line[j] == c
    decreases |line| - i
  {
    if i == |line| || line[i] == c then i else IndexOf(line, i + 1, c)
  }

  /** What one scan step finds: no complete argument, or where one begins and where its delimiter is. */
  datatype Scan = End | Arg(start: nat, delim: nat)

  /**
   * Where the argument scanned from position i begins and where its closing
   * delimiter is; End when the delimiter is missing.
   */
  function NextToken(line: string, i: nat): (r: Scan)
    requires i <= |line|
    ensures r.Arg? ==> i <= r.start <= r.delim < |line|
  {
    var b := SkipSpaces(line, i);
    if b < |line| && line[b] == '\'' then
      var d := IndexOf(line, b + 1, '\'');
      if d < |line| then Arg(b + 1, d) else End
    else
      var d := IndexOf(line, b, ' ');
      if d < |line| then Arg(b, d) else End
  }

  /** The arguments scanned from position i onwards, in order. */
  function Tokens(line: string, i: nat): (toks: seq<string>)
    requires i <= |line|
    ensures |toks| <= |line| - i
    decreases |line| - i
  {
    var next := NextToken(line, i);
    if next.End? then []
    else [line[next.start..next.delim]] + Tokens(line, next.delim + 1)
  }

  predicate StartsWithAmpersand(arg: string) {
    |arg| > 0 && arg[0] == '&'
  }

  /**
   * parseline. The result pair is (argv, return value): with no argument,
   * argv is empty and the result is true; otherwise argv holds the arguments
   * in order, without a last one that begins with '&', and the result says
   * whether there was such a last argument.
   */
  method ParseLine(cmdline: string) returns (argv: seq<string>, bg: bool)
    requires |cmdline| >= 1
    requires '\0' !in cmdline
    ensures var toks := Tokens(Line(cmdline), 0);
      if toks == [] then argv == [] && bg
      else
        && bg == StartsWithAmpersand(toks[|toks| - 1])
        && argv == if bg then toks[..|toks| - 1] else toks
  {
    ghost var line := Line(cmdline);
    var n := |cmdline|;
    // strcpy: the copy with its terminating NUL
    var buf := new char[n + 1](k => if 0 <= k < n then cmdline[k] else '\0');
    buf[n - 1] := ' ';
    assert buf[..n] == line;
    argv := SplitArgs(buf, line);

    if |argv| == 0 {
      // a blank line
      return [], true;
    }
    bg := StartsWithAmpersand(argv[|argv| - 1]);
    if bg {
      argv := argv[..|argv| - 1];
    }
  }

  /**
   * The argument loop of parseline over the NUL-terminated copy of `line`:
   * each argument found is recorded and its delimiter overwritten with NUL.
   */
  method SplitArgs(buf: array<char>, ghost line: string) returns (argv: seq<string>)
    requires '\0' !in line
    requires buf.Length == |line| + 1 && buf[|line|] == '\0'
    requires forall k {:trigger buf[k]} :: 0 <= k < |line| ==> buf[k] == line[k]
    modifies buf
    ensures argv == Tokens(line, 0)
  {
    ghost var cursor: nat := 0;
    var p: nat, delim: Option<nat> := ScanArg(buf, 0, line);
    argv := [];
    while delim.Some?
      invariant cursor <= |line| && buf[|line|] == '\0'
      invariant forall k {:trigger buf[k]} :: cursor <= k < |line| ==> buf[k] == line[k]
      invariant delim.Some? <==> NextToken(line, cursor).Arg?
      invariant delim.Some? ==> NextToken(line, cursor) == Arg(p, delim.value)
      invariant argv + Tokens(line, cursor) == Tokens(line, 0)
      decreases |line| - cursor
    {
      var d := delim.value;
      var arg := buf[p..d];
      assert (argv + [arg]) + Tokens(line, d + 1) == Tokens(line, 0) by {
        assert cursor <= p <= d < |line|;
        BufferSlice(buf, line, cursor, p, d);
        CollectStep(argv, arg, line, cursor, p, d);
      }
      argv := argv + [arg];
      buf[d] := '\0';
      cursor := d + 1;
      p, delim := ScanArg(buf, d + 1, line);
    }
    TokensEnd(line, cursor);
    AppendEmpty(argv);
  }

  /**
   * One scan step over the buffer: skip the blanks, then look for the closing
   * quote after an opening one, or else for the next space.
   */
  method ScanArg(buf: array<char>, from: nat, ghost line: string) returns (p: nat, delim: Option<nat>)
    requires '\0' !in line
    requires from <= |line| && buf.Length == |line| + 1 && buf[|line|] == '\0'
    requires forall k {:trigger buf[k]} :: from <= k < |line| ==> buf[k] == line[k]
    ensures delim.Some? <==> NextToken(line, from).Arg?
    ensures delim.Some? ==> NextToken(line, from) == Arg(p, delim.value)
  {
    p := SkipBlanks(buf, from, line);
    if buf[p] == '\'' {
      p := p + 1;
      delim := Strchr(buf, p, '\'', line);
    } else {
      delim := Strchr(buf, p, ' ', line);
    }
  }

  /** Advancing over spaces on the NUL-terminated copy of `line`, stopping at the NUL. */
  method SkipBlanks(buf: array<char>, from: nat, ghost line: string) returns (p: nat)
    requires from <= |line| && buf.Length == |line| + 1 && buf[|line|] == '\0'
    requires forall k {:trigger buf[k]} :: from <= k < |line| ==> buf[k] == line[k]
    ensures p == SkipSpaces(line, from)
  {
    p := from;
    while buf[p] != '\0' && buf[p] == ' '
      invariant from <= p <= |line|
      invariant SkipSpaces(line, p) == SkipSpaces(line, from)
      decreases |line| - p
    {
      p := p + 1;
    }
  }

  /** strchr(buf + from, c) on the NUL-terminated copy of a NUL-free `line`; None is NULL. */
  method Strchr(buf: array<char>, from: nat, c: char, ghost line: string) returns (d: Option<nat>)
    requires c != '\0' && '\0' !in line
    requires from <= |line| && buf.Length == |line| + 1 && buf[|line|] == '\0'
    requires forall k {:trigger buf[k]} :: from <= k < |line| ==> buf[k] == line[k]
    ensures var j := IndexOf(line, from, c);
      d == if j < |line| then Some(j) else None
  {
    var p := from;
    while buf[p] != c
      invariant from <= p <= |line|
      invariant IndexOf(line, p, c) == IndexOf(line, from, c)
      decreases |line| - p
    {
      if buf[p] == '\0' {
        return None;
      }
      p := p + 1;
    }
    return Some(p);
  }

  /** Where the buffer agrees with the line, its slices are the line's. */
  lemma BufferSlice(buf: array<char>, line: string, from: nat, i: nat, j: nat)
    requires from <= i <= j <= |line| <= buf.Length
    requires forall k {:trigger buf[k]} :: from <= k < |line| ==> buf[k] == line[k]
    ensures buf[i..j] == line[i..j]
  {
    assert forall k :: i <= k < j ==> buf[k] == line[k];
  }

  // ---------------------------------------------------------------------------
  // Single steps of the scan.

  /** A complete argument at position i: it comes first, then those after its delimiter. */
  lemma TokensUnfold(line: string, i: nat, start: nat, delim: nat)
    requires i <= |line| && NextToken(line, i) == Arg(start, delim)
    ensures Tokens(line, i) == [line[start..delim]] + Tokens(line, delim + 1)
  {
  }

  /** The same, with the argument's text given. */
  lemma TokensFirst(line: string, i: nat, start: nat, delim: nat, arg: string, after: nat)
    requires i <= |line| && NextToken(line, i) == Arg(start, delim) && line[start..delim] == arg
    requires after == delim + 1
    ensures Tokens(line, i) == [arg] + Tokens(line, after)
  {
    TokensUnfold(line, i, start, delim);
  }

  /** No complete argument at position i: nothing more is scanned. */
  lemma TokensEnd(line: string, i: nat)
    requires i <= |line| && NextToken(line, i).End?
    ensures Tokens(line, i) == []
  {
  }

  /** Recording the argument found from position i keeps argv a prefix of the arguments of the line. */
  lemma CollectStep(argv: seq<string>, arg: string, line: string, i: nat, start: nat, delim: nat)
    requires i <= |line| && NextToken(line, i) == Arg(start, delim) && arg == line[start..delim]
    requires argv + Tokens(line, i) == Tokens(line, 0)
    ensures (argv + [arg]) + Tokens(line, delim + 1) == Tokens(line, 0)
  {
    TokensUnfold(line, i, start, delim);
    AppendAssoc(argv, [arg], Tokens(line, delim + 1));
  }

  /**
   * Sequence identities stated once as lemmas: asserted inline in the scan
   * lemmas, where the solver also sees the unfoldings of Tokens, they are
   * far more expensive to prove.
   */
  lemma AppendAssoc<T>(a: seq<T>, b: seq<T>, c: seq<T>)
    ensures a + (b + c) == (a + b) + c
  {
  }

  /** The first item, then the rest: t0 is all followed by t2. */
  lemma Chain<T>(t0: seq<T>, x: T, t1: seq<T>, xs: seq<T>, t2: seq<T>, all: seq<T>)
    requires t0 == [x] + t1 && t1 == xs + t2 && all == [x] + xs
    ensures t0 == all + t2
  {
    AppendAssoc([x], xs, t2);
  }

  lemma AppendEmpty<T>(a: seq<T>)
    ensures a + [] == a
  {
  }

  /** Scanning skips a space: the arguments from a space are those from just after it. */
  lemma SpaceIsSkipped(line: string, i: nat, after: nat)
    requires i < |line| && line[i] == ' ' && after == i + 1
    ensures Tokens(line, i) == Tokens(line, after)
  {
    assert SkipSpaces(line, i) == SkipSpaces(line, after);
    SameScan(line, i, after);
  }

  /** Two positions from which the same argument is scanned have the same arguments. */
  lemma SameScan(line: string, i: nat, j: nat)
    requires i <= |line| && j <= |line| && NextToken(line, i) == NextToken(line, j)
    ensures Tokens(line, i) == Tokens(line, j)
  {
  }

  /** The first c at or after i lies at j. */
  lemma {:induction false} IndexOfAt(line: string, i: nat, c: char, j: nat)
    requires i <= j < |line| && line[j] == c
    requires forall k :: i <= k < j ==> line[k] != c
    ensures IndexOf(line, i, c) == j
    decreases j - i
  {
    if i < j {
      IndexOfAt(line, i + 1, c, j);
    }
  }

  /** No c at or after i: strchr finds none. */
  lemma {:induction false} IndexOfNone(line: string, i: nat, c: char)
    requires i <= |line|
    requires forall k :: i <= k < |line| ==> line[k] != c
    ensures IndexOf(line, i, c) == |line|
    decreases |line| - i
  {
    if i < |line| {
      IndexOfNone(line, i + 1, c);
    }
  }

  /** Only spaces from i on: skipping them reaches the end of the line. */
  lemma {:induction false} SkipSpacesAll(line: string, i: nat)
    requires i <= |line|
    requires forall k :: i <= k < |line| ==> line[k] == ' '
    ensures SkipSpaces(line, i) == |line|
    decreases |line| - i
  {
    if i < |line| {
      SkipSpacesAll(line, i + 1);
    }
  }

  /** A bare argument at i: no leading quote, and its first space lies at i + n. */
  lemma ScanBare(line: string, i: nat, n: nat)
    requires 0 < n && i + n < |line| && line[i] != '\'' && line[i + n] == ' '
    requires forall k :: i <= k < i + n ==> line[k] != ' '
    ensures NextToken(line, i) == Arg(i, i + n)
  {
    assert SkipSpaces(line, i) == i;
    IndexOfAt(line, i, ' ', i + n);
  }

  /** A quoted argument at i: a leading quote, and the closing one at i + n + 1. */
  lemma ScanQuoted(line: string, i: nat, n: nat)
    requires i + n + 1 < |line| && line[i] == '\'' && line[i + n + 1] == '\''
    requires forall k :: i < k <= i + n ==> line[k] != '\''
    ensures NextToken(line, i) == Arg(i + 1, i + n + 1)
  {
    assert SkipSpaces(line, i) == i;
    IndexOfAt(line, i + 1, '\'', i + n + 1);
  }

  /** A quote at i that nothing after it closes: the scan finds no argument. */
  lemma ScanUnclosed(line: string, i: nat)
    requires i < |line| && line[i] == '\''
    requires forall k :: i < k < |line| ==> line[k] != '\''
    ensures Tokens(line, i) == []
  {
    assert SkipSpaces(line, i) == i;
    IndexOfNone(line, i + 1, '\'');
  }

  /** Nothing is left to scan at the end of the line. */
  lemma ScanAtEnd(line: string)
    ensures Tokens(line, |line|) == []
  {
    assert SkipSpaces(line, |line|) == |line|;
  }

  // ---------------------------------------------------------------------------
  // Lines a user types, and what parseline makes of them.

  /** An argument as a user types it: a bare word, or a text in single quotes. */
  datatype Word = Bare(text: string) | Quoted(text: string)

  /** A bare word is non-empty, has no space and does not start with a quote; a quoted text has no quote. */
  predicate ValidWord(w: Word) {
    match w
    case Bare(t) => |t| > 0 && t[0] != '\'' && ' ' !in t
    case Quoted(t) => '\'' !in t
  }

  function Render(w: Word): string {
    match w
    case Bare(t) => t
    case Quoted(t) => "'" + t + "'"
  }

  /** The words, each followed by one space. */
  function Spaced(ws: seq<Word>): (s: string)
    ensures ws != [] ==> |s| > 0 && s[|s| - 1] == ' '
  {
    if ws == [] then "" else Render(ws[0]) + " " + Spaced(ws[1..])
  }

  function Texts(ws: seq<Word>): seq<string> {
    if ws == [] then [] else [ws[0].text] + Texts(ws[1..])
  }

  /** The command line a user types for the words: separated by spaces, ended by a newline. */
  function Unparse(ws: seq<Word>): (cmdline: string)
    requires ws != []
    ensures |cmdline| >= 1 && Line(cmdline) == Spaced(ws)
  {
    var s := Spaced(ws);
    s[..|s| - 1] + "\n"
  }

  /** `line` holds the text x from position i on. */
  predicate HoldsAt(line: string, i: nat, x: string)
    decreases |x|
  {
    if x == [] then i <= |line|
    else i < |line| && line[i] == x[0] && HoldsAt(line, i + 1, x[1..])
  }

  /** Holding x at i is the slice from i being x. */
  lemma {:induction false} HoldsSlice(line: string, i: nat, x: string)
    requires HoldsAt(line, i, x)
    ensures i + |x| <= |line| && line[i..i + |x|] == x
    decreases |x|
  {
    if x != [] {
      HoldsSlice(line, i + 1, x[1..]);
      assert line[i..i + |x|] == [line[i]] + line[i + 1..i + |x|];
      assert x == [x[0]] + x[1..];
    }
  }

  /** A slice equal to x: x is held there. */
  lemma {:induction false} SliceHolds(line: string, i: nat, x: string)
    requires i + |x| <= |line| && line[i..i + |x|] == x
    ensures HoldsAt(line, i, x)
    decreases |x|
  {
    if x != [] {
      assert line[i..i + |x|][0] == line[i];
      assert line[i + 1..i + |x|] == line[i..i + |x|][1..];
      SliceHolds(line, i + 1, x[1..]);
    }
  }

  /** Holding a concatenation is holding its two parts, one after the other. */
  lemma {:induction false} HoldsSplit(line: string, i: nat, a: string, b: string)
    requires HoldsAt(line, i, a + b)
    ensures HoldsAt(line, i, a) && HoldsAt(line, i + |a|, b)
    decreases |a|
  {
    if a != [] {
      assert (a + b)[0] == a[0];
      assert (a + b)[1..] == a[1..] + b;
      HoldsSplit(line, i + 1, a[1..], b);
    } else {
      assert a + b == b;
    }
  }

  /** A single character held at position i. */
  lemma HoldsChar(line: string, i: nat, c: char)
    requires HoldsAt(line, i, [c])
    ensures i < |line| && line[i] == c
  {
  }

  /** A bare word held at position i and followed by a space is the argument scanned there. */
  lemma TokensOfBare(line: string, i: nat, t: string, after: nat)
    requires |t| > 0 && t[0] != '\'' && ' ' !in t
    requires HoldsAt(line, i, t) && i + |t| < |line| && line[i + |t|] == ' '
    requires after == i + |t| + 1
    ensures Tokens(line, i) == [t] + Tokens(line, after)
  {
    HoldsSlice(line, i, t);
    assert forall k :: i <= k < i + |t| ==> line[k] == t[k - i] by {
      forall k | i <= k < i + |t|
        ensures line[k] == t[k - i]
      {
        assert line[i..i + |t|][k - i] == line[k];
      }
    }
    ScanBare(line, i, |t|);
    TokensFirst(line, i, i, i + |t|, t, after);
  }

  /** A quoted text held at position i + 1, between quotes and followed by a space, is the argument scanned there. */
  lemma TokensOfQuoted(line: string, i: nat, t: string, after: nat)
    requires '\'' !in t
    requires i + |t| + 2 < |line| && line[i] == '\'' && HoldsAt(line, i + 1, t)
    requires line[i + |t| + 1] == '\'' && line[i + |t| + 2] == ' '
    requires after == i + |t| + 3
    ensures Tokens(line, i) == [t] + Tokens(line, after)
  {
    HoldsSlice(line, i + 1, t);
    assert forall k :: i < k <= i + |t| ==> line[k] == t[k - i - 1] by {
      forall k | i < k <= i + |t|
        ensures line[k] == t[k - i - 1]
      {
        assert line[i + 1..i + 1 + |t|][k - i - 1] == line[k];
      }
    }
    ScanQuoted(line, i, |t|);
    var space := i + |t| + 2;
    TokensFirst(line, i, i + 1, i + |t| + 1, t, space);
    SpaceIsSkipped(line, space, after);
  }

  /** A word held at position i of the line and followed by a space yields its text; the scan goes on after the space. */
  lemma TokensOfWord(line: string, i: nat, w: Word, after: nat)
    requires ValidWord(w) && HoldsAt(line, i, Render(w)) && i + |Render(w)| < |line|
    requires line[i + |Render(w)|] == ' ' && after == i + |Render(w)| + 1
    ensures Tokens(line, i) == [w.text] + Tokens(line, after)
  {
    match w
    case Bare(t) =>
      TokensOfBare(line, i, w.text, after);
    case Quoted(t) =>
      HoldsSplit(line, i, "'" + t, "'");
      HoldsSplit(line, i, "'", t);
      HoldsChar(line, i, '\'');
      HoldsChar(line, i + |t| + 1, '\'');
      TokensOfQuoted(line, i, w.text, after);
  }

  /** The arguments of space-separated words held at position i are their texts, followed by what comes after them. */
  lemma {:induction false} TokensOfSpaced(line: string, i: nat, ws: seq<Word>, after: nat)
    requires forall k :: 0 <= k < |ws| ==> ValidWord(ws[k])
    requires HoldsAt(line, i, Spaced(ws)) && after == i + |Spaced(ws)|
    ensures after <= |line|
    ensures Tokens(line, i) == Texts(ws) + Tokens(line, after)
    decreases |ws|
  {
    if ws == [] {
      assert Texts(ws) + Tokens(line, after) == Tokens(line, i);
    } else {
      var mid := i + |Render(ws[0])| + 1;
      assert Spaced(ws) == Render(ws[0]) + " " + Spaced(ws[1..]);
      WordHead(line, i, ws[0], Spaced(ws[1..]), mid);
      TokensOfSpaced(line, mid, ws[1..], after);
      assert Texts(ws) == [ws[0].text] + Texts(ws[1..]);
      Chain(Tokens(line, i), ws[0].text, Tokens(line, mid), Texts(ws[1..]), Tokens(line, after), Texts(ws));
    }
  }

  /** A word followed by a space and more text yields its text; the more text is held just after the space. */
  lemma WordHead(line: string, i: nat, w: Word, more: string, mid: nat)
    requires ValidWord(w)
    requires HoldsAt(line, i, Render(w) + " " + more) && mid == i + |Render(w)| + 1
    ensures mid <= |line| && Tokens(line, i) == [w.text] + Tokens(line, mid)
    ensures HoldsAt(line, mid, more) && |Render(w) + " " + more| == mid - i + |more|
  {
    HoldsAround(line, i, Render(w), more, mid);
    TokensOfWord(line, i, w, mid);
  }

  /** Holding r, a space and then more: r at i, the space just after it, more after the space. */
  lemma HoldsAround(line: string, i: nat, r: string, more: string, mid: nat)
    requires HoldsAt(line, i, r + " " + more) && mid == i + |r| + 1
    ensures HoldsAt(line, i, r) && i + |r| < |line| && line[i + |r|] == ' '
    ensures HoldsAt(line, mid, more) && |r + " " + more| == mid - i + |more|
  {
    HoldsSplit(line, i, r + " ", more);
    HoldsSplit(line, i, r, " ");
    HoldsChar(line, i + |r|, ' ');
  }

  /** parseline recovers the words of the line a user typed for them. */
  lemma ParseUnparse(ws: seq<Word>)
    requires ws != [] && forall k :: 0 <= k < |ws| ==> ValidWord(ws[k])
    ensures Tokens(Line(Unparse(ws)), 0) == Texts(ws)
  {
    TokensOfLine(Line(Unparse(ws)), ws);
  }

  /** A line that consists of the spaced words has exactly their texts as arguments. */
  lemma TokensOfLine(line: string, ws: seq<Word>)
    requires forall k :: 0 <= k < |ws| ==> ValidWord(ws[k])
    requires line == Spaced(ws)
    ensures Tokens(line, 0) == Texts(ws)
  {
    assert line[0..|line|] == line;
    SliceHolds(line, 0, line);
    TokensOfSpaced(line, 0, ws, |line|);
    ScanAtEnd(line);
    AppendEmpty(Texts(ws));
  }

  /** A line of spaces has no argument, so parseline gives an empty argv and returns true. */
  lemma BlankLineHasNoTokens(cmdline: string)
    requires |cmdline| >= 1
    requires forall k :: 0 <= k < |cmdline| - 1 ==> cmdline[k] == ' '
    ensures Tokens(Line(cmdline), 0) == []
  {
    var line := Line(cmdline);
    assert forall k :: 0 <= k < |line| ==> line[k] == ' ';
    SkipSpacesAll(line, 0);
    assert IndexOf(line, |line|, ' ') == |line|;
  }

  /** A quote with no closing quote ends the scan: the argument it opens is dropped. */
  lemma UnterminatedQuoteIsDropped(ws: seq<Word>, t: string)
    requires forall k :: 0 <= k < |ws| ==> ValidWord(ws[k])
    requires '\'' !in t
    ensures Tokens(Line(Spaced(ws) + "'" + t + "\n"), 0) == Texts(ws)
  {
    var s := Spaced(ws);
    var line := Line(s + "'" + t + "\n");
    LineOfQuote(s, t);
    UnclosedAfter(line, s, t);
    TokensOfSpaced(line, 0, ws, |s|);
    ScanUnclosed(line, |s|);
    AppendEmpty(Texts(ws));
  }

  /** Ending the command line with a quote and a text: the line is the text before, the quote, the text and a space. */
  lemma LineOfQuote(s: string, t: string)
    ensures Line(s + "'" + t + "\n") == s + ("'" + t + " ")
  {
    var cmdline := s + "'" + t + "\n";
    assert cmdline[..|cmdline| - 1] == s + "'" + t;
  }

  /** A line of s followed by a quote that nothing closes. */
  lemma UnclosedAfter(line: string, s: string, t: string)
    requires line == s + ("'" + t + " ") && '\'' !in t
    ensures HoldsAt(line, 0, s) && |s| < |line| && line[|s|] == '\''
    ensures forall k :: |s| < k < |line| ==> line[k] != '\''
  {
    assert line[0..|s|] == s;
    SliceHolds(line, 0, s);
    var u := "'" + t + " ";
    forall k | |s| < k < |line|
      ensures line[k] != '\''
    {
      assert line[k] == u[k - |s|];
      if k < |line| - 1 {
        assert u[k - |s|] == t[k - |s| - 1];
      }
    }
  }
}
