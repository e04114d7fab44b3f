/**
  The three pieces of Python's string library that the renderers of `ezr` lean on:
  `s.split("\n")`, `"\n".join(lines)` and `repr(s)` of a `str`.
*/
module Text {

  /** True when `s` holds no line break. */
  predicate SingleLine(s: string) {
    '\n' !in s
  }

  /** True when every element of `ls` is a single line. */
  predicate AllSingleLine(ls: seq<string>) {
    forall i :: 0 <= i < |ls| ==> SingleLine(ls[i])
  }

  /**
    Python's `"\n".join(ls)`: empty for no lines, and otherwise a string that
    starts with the first line, followed by a line break when more lines come.
  */
  function Join(ls: seq<string>): (r: string)
    ensures ls == [] ==> r == ""
    ensures |ls| >= 1 ==> ls[0] <= r
    ensures |ls| >= 2 ==> |ls[0]| < |r| && r[|ls[0]|] == '\n'
  {
    if |ls| == 0 then ""
    else if |ls| == 1 then ls[0]
    else ls[0] + "\n" + Join(ls[1..])
  }

  /**
    Python's `s.split("\n")`: the maximal pieces of `s` between line
    breaks, of which there is always at least one.
  */
  function Split(s: string): (ls: seq<string>)
    ensures |ls| >= 1
  {
    if s == [] then [""]
    else
      var rest := Split(s[1..]);
      if s[0] == '\n' then [""] + rest
      else [[s[0]] + rest[0]] + rest[1..]
  }

  /** No piece holds a line break, and joining the pieces gives `s` back. */
  lemma {:induction false} SplitJoinRoundTrip(s: string)
    ensures AllSingleLine(Split(s))
    ensures Join(Split(s)) == s
  {
    SplitLinesSingle(s);
    JoinSplit(s);
  }

  /** The pieces of `s` hold no line break. */
  lemma {:induction false} SplitLinesSingle(s: string)
    ensures AllSingleLine(Split(s))
  {
    if s != [] && s[0] != '\n' {
      var rest := Split(s[1..]);
      SplitLinesSingle(s[1..]);
      var ls := [[s[0]] + rest[0]] + rest[1..];
      assert Split(s) == ls;
      forall i | 0 <= i < |ls| ensures SingleLine(ls[i]) {
        if i > 0 { assert ls[i] == rest[i]; }
      }
    } else if s != [] {
      SplitLinesSingle(s[1..]);
      assert Split(s) == [""] + Split(s[1..]);
    }
  }

  /** Joining the pieces of `s` gives `s` back. */
  lemma {:induction false} JoinSplit(s: string)
    ensures Join(Split(s)) == s
  {
    if s != [] {
      var rest := Split(s[1..]);
      JoinSplit(s[1..]);
      assert s == [s[0]] + s[1..];
      if s[0] == '\n' {
        assert Split(s) == [""] + rest;
        assert Join(Split(s)) == "" + "\n" + Join(rest);
      } else {
        var ls := [[s[0]] + rest[0]] + rest[1..];
        assert Split(s) == ls;
        assert ls[1..] == rest[1..];
        if |rest| == 1 {
          assert Join(ls) == [s[0]] + rest[0];
        } else {
          assert Join(rest) == rest[0] + "\n" + Join(rest[1..]);
          assert Join(ls) == [s[0]] + rest[0] + "\n" + Join(rest[1..]);
        }
      }
    }
  }

  /** A single line splits into itself. */
  lemma {:induction false} SplitSingleLine(a: string)
    requires SingleLine(a)
    ensures Split(a) == [a]
  {
    if a != [] {
      assert a[0] in a && a == [a[0]] + a[1..];
      SplitSingleLine(a[1..]);
    }
  }

  /** A line followed by a line break splits off as the first piece. */
  lemma {:induction false} SplitFirstLine(a: string, b: string)
    requires SingleLine(a)
    ensures Split(a + "\n" + b) == [a] + Split(b)
  {
    if a == [] {
      assert a + "\n" + b == ['\n'] + b;
      assert (['\n'] + b)[1..] == b;
    } else {
      var s := a + "\n" + b;
      assert s[0] == a[0] && s[1..] == a[1..] + "\n" + b;
      SplitFirstLine(a[1..], b);
      assert [a[0]] + a[1..] == a;
    }
  }

  /** Joined lines followed by a line break split back into those lines. */
  lemma {:induction false} SplitJoinedThen(ls: seq<string>, b: string)
    requires |ls| >= 1 && AllSingleLine(ls)
    ensures Split(Join(ls) + "\n" + b) == ls + Split(b)
  {
    if |ls| == 1 {
      SplitFirstLine(ls[0], b);
    } else {
      var head, rest := ls[0], ls[1..];
      var tail := Join(rest) + "\n" + b;
      assert AllSingleLine(rest) && SingleLine(head);
      calc {
        Split(Join(ls) + "\n" + b);
        { assert Join(ls) + "\n" + b == head + "\n" + tail; }
        Split(head + "\n" + tail);
        { SplitFirstLine(head, tail); }
        [head] + Split(tail);
        { SplitJoinedThen(rest, b); }
        [head] + (rest + Split(b));
        { assert ls == [head] + rest; }
        ls + Split(b);
      }
    }
  }

  /** Splitting undoes joining, for a non-empty list of single lines. */
  lemma {:induction false} SplitJoin(ls: seq<string>)
    requires |ls| >= 1 && AllSingleLine(ls)
    ensures Split(Join(ls)) == ls
  {
    if |ls| == 1 {
      SplitSingleLine(ls[0]);
    } else {
      SplitFirstLine(ls[0], Join(ls[1..]));
      SplitJoin(ls[1..]);
      assert ls == [ls[0]] + ls[1..];
    }
  }

  /**
    A block of lines between a first and a last line: the lines come back
    in order, and an empty block still leaves one empty line.
  */
  lemma SplitBlock(first: string, ls: seq<string>, last: string)
    requires SingleLine(first) && SingleLine(last) && AllSingleLine(ls)
    ensures Split(first + "\n" + Join(ls) + "\n" + last) == [first] + (if ls == [] then [""] else ls) + [last]
  {
    var body := Join(ls);
    var tail := body + "\n" + last;
    var middle := if ls == [] then [""] else ls;
    calc {
      Split(first + "\n" + body + "\n" + last);
      { assert first + "\n" + body + "\n" + last == first + "\n" + tail; }
      Split(first + "\n" + tail);
      { SplitFirstLine(first, tail); }
      [first] + Split(tail);
      { SplitTail(ls, last); }
      [first] + (middle + [last]);
      [first] + middle + [last];
    }
  }

  /** What follows the first line of a block. */
  lemma SplitTail(ls: seq<string>, last: string)
    requires SingleLine(last) && AllSingleLine(ls)
    ensures Split(Join(ls) + "\n" + last) == (if ls == [] then [""] else ls) + [last]
  {
    if ls == [] {
      SplitEmptyThen(last);
    } else {
      SplitJoinedThen(ls, last);
      SplitSingleLine(last);
    }
  }

  /** A line break followed by a single line splits into an empty line and that line. */
  lemma SplitEmptyThen(last: string)
    requires SingleLine(last)
    ensures Split(Join([]) + "\n" + last) == ["", last]
  {
    assert Join([]) + "\n" + last == "" + "\n" + last;
    SplitFirstLine("", last);
    SplitSingleLine(last);
  }

  /** The lower-case hexadecimal digit of `d`. */
  function HexDigit(d: int): (c: char)
    requires 0 <= d < 16
    ensures c != '\n'
  {
    if d < 10 then (('0' as int) + d) as char else (('a' as int) + d - 10) as char
  }

  /**
    The escape Python's `repr` writes for one character inside quotes `q`:
    the quote and the backslash get a backslash, tab, line feed and carriage
    return their letter escapes, the other ASCII control characters a
    `\xhh` escape; every other character, non-ASCII ones included, is kept
    as it is (Python would also escape the non-printable non-ASCII ones).
  */
  function EscapeChar(c: char, q: char): (r: string)
    requires q == '\'' || q == '"'
    ensures SingleLine(r)
    ensures c != q && c != '\\' && ' ' <= c < '\U{7f}' ==> r == [c]
  {
    if c == q || c == '\\' then ['\\', c]
    else if c == '\t' then "\\t"
    else if c == '\n' then "\\n"
    else if c == '\r' then "\\r"
    else if c < ' ' || c == '\U{7f}' then
      "\\x" + [HexDigit(c as int / 16), HexDigit(c as int % 16)]
    else [c]
  }

  /** The escaped body of a quoted string. */
  function EscapeAll(s: string, q: char): (r: string)
    requires q == '\'' || q == '"'
    ensures SingleLine(r)
    ensures |r| >= |s|
  {
    if s == [] then "" else EscapeChar(s[0], q) + EscapeAll(s[1..], q)
  }

  /**
    Python's `repr` of a `str`: single quotes, unless the text holds a
    single quote and no double quote. The result always fits on one line
    and is enclosed in a pair of equal quotes.
  */
  function StrRepr(s: string): (r: string)
    ensures SingleLine(r)
    ensures |r| >= |s| + 2
    ensures r[0] == r[|r| - 1] && (r[0] == '\'' || r[0] == '"')
  {
    var q := if '\'' in s && '"' !in s then '"' else '\'';
    [q] + EscapeAll(s, q) + [q]
  }

  /** Printable ASCII text without quotes or backslashes is shown as it is, in single quotes. */
  lemma {:induction false} StrReprPlain(s: string)
    requires '\'' !in s && '"' !in s && '\\' !in s
    requires forall i :: 0 <= i < |s| ==> ' ' <= s[i] < '\U{7f}'
    ensures EscapeAll(s, '\'') == s
    ensures StrRepr(s) == "'" + s + "'"
  {
    if s != [] {
      assert s[0] in s && s == [s[0]] + s[1..];
      assert forall i :: 0 <= i < |s[1..]| ==> s[1..][i] == s[i + 1];
      StrReprPlain(s[1..]);
    }
  }
}
