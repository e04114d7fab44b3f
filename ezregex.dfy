/**
  The expression tree of `ezr/ezregex.py`: a leaf `EzPattern` holding a
  string, an `EzRegex` holding an ordered list of children, and its subclass
  `EzCharSet`, which renders the same list inside brackets. Nothing is
  updated after construction, so the tree is a datatype and every operator
  returns a fresh value.
*/
module EzRegex {
  import Text

  /** One node of the tree; `Rx` is an `EzRegex`, `CharSet` an `EzCharSet`. */
  datatype Node =
    | Pat(text: string)
    | Rx(children: seq<Node>)
    | CharSet(children: seq<Node>)
  {
    /** The node is an instance of `EzRegex` (which includes `EzCharSet`). */
    predicate IsRegex() {
      Rx? || CharSet?
    }
  }

  /** An argument handed to a constructor or operator: a raw string or a node. */
  datatype Arg = Raw(s: string) | NodeArg(node: Node)

  // ---------------------------------------------------------------------
  // Predefined tokens
  // ---------------------------------------------------------------------

  const Digit: Node := Pat("\\d")
  const Whitespace: Node := Pat("\\s")
  const Word: Node := Pat("\\w")
  const NonDigit: Node := Pat("\\D")
  const NonWhitespace: Node := Pat("\\S")
  const NonWord: Node := Pat("\\W")
  const AnyChar: Node := Pat(".")
  const StartOfString: Node := Pat("^")
  const EndOfString: Node := Pat("$")
  const StartOfWord: Node := Pat("\\b")
  const EndOfWord: Node := Pat("\\B")

  // ---------------------------------------------------------------------
  // Construction
  // ---------------------------------------------------------------------

  /**
    The coercion `EzRegex.__init__` applies to each argument: a node is kept
    as it is, anything else is wrapped into exactly one `EzPattern`.
  */
  function Coerce(a: Arg): (n: Node)
    ensures a.NodeArg? ==> n == a.node
    ensures a.Raw? ==> n.Pat? && n.text == a.s
  {
    match a
    case Raw(s) => Pat(s)
    case NodeArg(n) => n
  }

  /** `EzRegex(*args)`: one child per argument, in the order given. */
  function MakeRegex(args: seq<Arg>): (r: Node)
    ensures r.Rx? && |r.children| == |args|
    ensures forall i :: 0 <= i < |args| ==> r.children[i] == Coerce(args[i])
  {
    Rx(seq(|args|, i requires 0 <= i < |args| => Coerce(args[i])))
  }

  /** `EzCharSet(*args)`: the same children as `MakeRegex`, in a character set. */
  function MakeCharSet(args: seq<Arg>): (r: Node)
    ensures r.CharSet? && r.children == MakeRegex(args).children
  {
    CharSet(MakeRegex(args).children)
  }

  // ---------------------------------------------------------------------
  // Rendering (`__str__`)
  // ---------------------------------------------------------------------

  /**
    `str(n)`: a leaf renders its string, an `EzRegex` the in-order
    concatenation of its children's renders, an `EzCharSet` the same inside
    brackets.
  */
  function Render(n: Node): (r: string)
    ensures n.CharSet? ==> |r| >= 2 && r[0] == '[' && r[|r| - 1] == ']'
    decreases n, 1
  {
    match n
    case Pat(s) => s
    case Rx(cs) => RenderAll(cs)
    case CharSet(cs) => "[" + RenderAll(cs) + "]"
  }

  /**
    The renders of the children `cs`, concatenated in order; a single child
    contributes exactly its own render.
  */
  function RenderAll(cs: seq<Node>): (r: string)
    ensures |cs| == 1 ==> r == Render(cs[0])
    decreases cs, 0
  {
    if cs == [] then "" else Render(cs[0]) + RenderAll(cs[1..])
  }

  /** `str(a)` of a constructor argument. */
  function Str(a: Arg): string {
    Render(Coerce(a))
  }

  /** The concatenation of `str(a)` over `args`, in order. */
  function StrAll(args: seq<Arg>): string {
    if args == [] then "" else Str(args[0]) + StrAll(args[1..])
  }

  /** Rendering a list of children distributes over list concatenation. */
  lemma {:induction false} RenderAllAppend(a: seq<Node>, b: seq<Node>)
    ensures RenderAll(a + b) == RenderAll(a) + RenderAll(b)
  {
    if a != [] {
      calc {
        RenderAll(a + b);
        { assert (a + b)[0] == a[0] && (a + b)[1..] == a[1..] + b; }
        Render(a[0]) + RenderAll(a[1..] + b);
        { RenderAllAppend(a[1..], b); }
        Render(a[0]) + (RenderAll(a[1..]) + RenderAll(b));
        RenderAll(a) + RenderAll(b);
      }
    } else {
      assert a + b == b;
    }
  }

  /** An `EzPattern` renders exactly the string it was given: nothing is checked or escaped. */
  lemma PatternRendersVerbatim(s: string)
    ensures Render(Pat(s)) == s
    ensures Render(MakeRegex([Raw(s)])) == s
  {
    assert RenderAll(MakeRegex([Raw(s)]).children) == Render(Pat(s)) + RenderAll([]);
  }

  /**
    An `EzRegex` built from arguments renders as the in-order concatenation
    of their strings; in particular `EzRegex()` renders as the empty string.
  */
  lemma {:induction false} RenderMakeRegex(args: seq<Arg>)
    ensures Render(MakeRegex(args)) == StrAll(args)
    ensures args == [] ==> Render(MakeRegex(args)) == ""
  {
    if args != [] {
      var cs := MakeRegex(args).children;
      RenderMakeRegex(args[1..]);
      assert MakeRegex(args[1..]).children == cs[1..];
    }
  }

  /**
    An `EzCharSet` renders its children's concatenation inside brackets,
    whatever the number of children.
  */
  lemma RenderCharSet(cs: seq<Node>)
    ensures Render(CharSet(cs)) == "[" + Render(Rx(cs)) + "]"
    ensures |Render(CharSet(cs))| == |Render(Rx(cs))| + 2
    ensures cs == [] ==> Render(CharSet(cs)) == "[]"
  {
  }

  /** The predefined tokens render as the escapes they name. */
  lemma TokensRender()
    ensures Render(Digit) == "\\d" && Render(NonDigit) == "\\D"
    ensures Render(Whitespace) == "\\s" && Render(NonWhitespace) == "\\S"
    ensures Render(Word) == "\\w" && Render(NonWord) == "\\W"
    ensures Render(AnyChar) == "." && Render(StartOfString) == "^" && Render(EndOfString) == "$"
    ensures Render(StartOfWord) == "\\b" && Render(EndOfWord) == "\\B"
  {
  }

  // ---------------------------------------------------------------------
  // Concatenation (`__add__`, `__radd__`)
  // ---------------------------------------------------------------------

  /** `x + other` with `x` a node: a new `EzRegex` of exactly the two operands. */
  function Plus(x: Node, other: Arg): (r: Node)
    ensures r.Rx? && r.children == [x, Coerce(other)]
  {
    MakeRegex([NodeArg(x), other])
  }

  /** `other + x` answered by `x.__radd__(other)`: the left operand stays first. */
  function RPlus(x: Node, other: Arg): (r: Node)
    ensures r.Rx? && r.children == [Coerce(other), x]
  {
    MakeRegex([other, NodeArg(x)])
  }

  /**
    Python's dispatch of `a + b` when at least one side is a node: the left
    node's `__add__`, or else the right node's `__radd__`.
  */
  function Add(a: Arg, b: Arg): (r: Node)
    requires a.NodeArg? || b.NodeArg?
    ensures r == MakeRegex([a, b])
  {
    if a.NodeArg? then Plus(a.node, b) else RPlus(b.node, a)
  }

  /** Concatenation renders as the concatenation of the two renders. */
  lemma RenderAdd(a: Arg, b: Arg)
    requires a.NodeArg? || b.NodeArg?
    ensures Render(Add(a, b)) == Str(a) + Str(b)
  {
    var cs := Add(a, b).children;
    assert cs[1..] == [Coerce(b)];
    assert RenderAll(cs[1..]) == Str(b) + RenderAll([]);
  }

  /** Concatenation is associative on rendered text. */
  lemma RenderAddAssociative(a: Arg, b: Arg, c: Arg)
    requires a.NodeArg? || b.NodeArg?
    requires b.NodeArg? || c.NodeArg?
    ensures Render(Add(NodeArg(Add(a, b)), c)) == Render(Add(a, NodeArg(Add(b, c))))
  {
    RenderAdd(a, b);
    RenderAdd(b, c);
    RenderAdd(NodeArg(Add(a, b)), c);
    RenderAdd(a, NodeArg(Add(b, c)));
  }

  /** Concatenation nests and never flattens, so it is not associative on trees. */
  lemma AddNests(a: Node, b: Node, c: Node)
    ensures Plus(Plus(a, NodeArg(b)), NodeArg(c)).children[0] == Plus(a, NodeArg(b))
    ensures Plus(Plus(a, NodeArg(b)), NodeArg(c)) != Plus(a, NodeArg(Plus(b, NodeArg(c))))
  {
    var left := Plus(Plus(a, NodeArg(b)), NodeArg(c));
    var right := Plus(a, NodeArg(Plus(b, NodeArg(c))));
    assert left.children[1] == c;
    assert right.children[1] == Rx([b, c]);
    assert c in Rx([b, c]).children;
  }

  /**
    `"foo" + EzRegex("bar")` renders `foobar` with two children, the leaf
    `foo` and the nested regex: strings are not split into characters.
  */
  lemma AddFooBarExample()
    ensures var r := Add(Raw("foo"), NodeArg(MakeRegex([Raw("bar")])));
      |r.children| == 2 && r.children[0] == Pat("foo") && Render(r) == "foobar"
  {
  }

  // ---------------------------------------------------------------------
  // Negation (`__invert__`)
  // ---------------------------------------------------------------------

  /** The first child of `cs` renders as a lone caret. */
  predicate StartsWithCaret(cs: seq<Node>) {
    |cs| > 0 && Render(cs[0]) == "^"
  }

  /**
    `~n`: drop a leading child that renders as `^`, or else build an
    `EzCharSet` of `^` followed by every child. `EzPattern` has no
    `__invert__`, so only an `EzRegex` or `EzCharSet` can be negated.
  */
  function Invert(n: Node): (r: Node)
    requires n.IsRegex()
    ensures StartsWithCaret(n.children) ==>
      r.Rx? && |r.children| == |n.children| - 1 && [n.children[0]] + r.children == n.children
    ensures !StartsWithCaret(n.children) ==>
      r.CharSet? && |r.children| == |n.children| + 1 && r.children == [StartOfString] + n.children
  {
    var p := n.children;
    if |p| > 0 && Render(p[0]) == "^" then
      assert [p[0]] + p[1..] == p;
      Rx(p[1..])
    else
      CharSet([Pat("^")] + p)
  }

  /** What negation renders: the text without its caret, or the negated set `[^…]`. */
  lemma RenderInvert(n: Node)
    requires n.IsRegex()
    ensures StartsWithCaret(n.children) ==> "^" + Render(Invert(n)) == RenderAll(n.children)
    ensures !StartsWithCaret(n.children) ==> Render(Invert(n)) == "[^" + RenderAll(n.children) + "]"
  {
    var p := n.children;
    if StartsWithCaret(p) {
      assert p == [p[0]] + p[1..];
    } else {
      var q := [StartOfString] + p;
      assert q[0] == StartOfString && q[1..] == p;
      assert RenderAll(q) == "^" + RenderAll(p);
    }
  }

  /**
    Negating twice gives back the child list when the first negation built a
    set: the result is the plain `EzRegex` of the original children.
  */
  lemma InvertInvolution(n: Node)
    requires n.IsRegex() && !StartsWithCaret(n.children)
    ensures Invert(n).IsRegex()
    ensures Invert(Invert(n)) == Rx(n.children)
    ensures Render(Invert(Invert(n))) == RenderAll(n.children)
    ensures n.Rx? ==> Render(Invert(Invert(n))) == Render(n)
  {
  }

  /**
    The other direction fails: when the first child is `^` and the second is
    too, negating twice strips both.
  */
  lemma InvertTwiceStripsTwoCarets(rest: seq<Node>)
    ensures Invert(Invert(Rx([StartOfString, StartOfString] + rest))) == Rx(rest)
  {
  }

  /** `~EzRegex("foo")` renders `[^foo]` and `~~EzRegex("foo")` renders `foo`. */
  lemma InvertFooExample()
    ensures Render(Invert(MakeRegex([Raw("foo")]))) == "[^foo]"
    ensures Render(Invert(Invert(MakeRegex([Raw("foo")])))) == "foo"
  {
  }

  // ---------------------------------------------------------------------
  // `__repr__`
  // ---------------------------------------------------------------------

  /** The name of the Python class the node is an instance of: one word, on one line. */
  function ClassName(n: Node): (r: string)
    ensures Text.SingleLine(r)
  {
    match n
    case Pat(_) => "EzPattern"
    case Rx(_) => "EzRegex"
    case CharSet(_) => "EzCharSet"
  }

  /** Two spaces in front of every line. */
  function Indent(ls: seq<string>): (r: seq<string>)
    ensures |r| == |ls|
    ensures forall i :: 0 <= i < |ls| ==> r[i] == "  " + ls[i]
  {
    seq(|ls|, i requires 0 <= i < |ls| => "  " + ls[i])
  }

  /**
    `repr(n)`, computed on strings as `__repr__` does: it closes with `)`, a
    leaf's repr is one line, and a regex's repr spans several lines.
  */
  function Repr(n: Node): (r: string)
    ensures n.Pat? ==> Text.SingleLine(r)
    ensures |r| >= 2 && r[|r| - 1] == ')'
    decreases n, 1
  {
    match n
    case Pat(s) => "EzPattern(" + Text.StrRepr(s) + ")"
    case _ => ClassName(n) + "(" + "\n" + Text.Join(IndentedLines(n.children)) + "\n" + ")"
  }

  /** Each child's repr cut into lines, every line behind two spaces, children in order. */
  function IndentedLines(cs: seq<Node>): seq<string>
    decreases cs, 0
  {
    if cs == [] then [] else Indent(Text.Split(Repr(cs[0]))) + IndentedLines(cs[1..])
  }

  /**
    The lines of `repr(n)`, stated on lines rather than on strings: a leaf is
    one line; a regex is its class name and `(`, then each child's lines
    indented by two spaces, then `)`. A regex without children still has
    an empty middle line, since `"\n".join([])` is `""`.
  */
  function ReprLines(n: Node): seq<string>
    decreases n, 1
  {
    match n
    case Pat(s) => ["EzPattern(" + Text.StrRepr(s) + ")"]
    case _ => [ClassName(n) + "("] + (if n.children == [] then [""] else ChildLines(n.children)) + [")"]
  }

  /** The children's lines, each indented by two spaces, in order. */
  function ChildLines(cs: seq<Node>): seq<string>
    decreases cs, 0
  {
    if cs == [] then [] else Indent(ReprLines(cs[0])) + ChildLines(cs[1..])
  }

  /**
    Splitting `repr(n)` at its line breaks gives exactly `ReprLines(n)`:
    no child's repr can smuggle a line break into a line, because the
    quoted text of every leaf fits on one line.
  */
  lemma {:induction false} ReprLinesCorrect(n: Node)
    ensures Text.Split(Repr(n)) == ReprLines(n)
    ensures Text.AllSingleLine(ReprLines(n))
    decreases n, 2
  {
    if n.Pat? {
      Text.SplitSingleLine(Repr(n));
    } else {
      RegexReprLinesCorrect(n);
    }
  }

  /** `ReprLinesCorrect` for an `EzRegex` or `EzCharSet`, from the lines of its children. */
  lemma {:induction false} RegexReprLinesCorrect(n: Node)
    requires n.IsRegex()
    ensures Text.Split(Repr(n)) == ReprLines(n)
    ensures Text.AllSingleLine(ReprLines(n))
    decreases n, 1
  {
    var header := ClassName(n) + "(";
    assert Text.SingleLine(header);
    var cs := n.children;
    IndentedLinesCorrect(cs);
    SplitRegexRepr(n);
    var middle := if cs == [] then [""] else ChildLines(cs);
    var lines := [header] + middle + [")"];
    forall i | 0 <= i < |lines| ensures Text.SingleLine(lines[i]) {
      if i == 0 {
        assert lines[i] == header;
      } else if i == |lines| - 1 {
        assert lines[i] == ")";
      } else {
        assert lines[i] == middle[i - 1];
      }
    }
  }

  /** The line structure of the `__repr__` string of an `EzRegex` or `EzCharSet`. */
  lemma SplitRegexRepr(n: Node)
    requires n.IsRegex() && Text.AllSingleLine(IndentedLines(n.children))
    ensures var ls := IndentedLines(n.children);
      Text.Split(Repr(n)) == [ClassName(n) + "("] + (if ls == [] then [""] else ls) + [")"]
  {
    var ls := IndentedLines(n.children);
    Text.SplitBlock(ClassName(n) + "(", ls, ")");
  }

  /** The computed indented lines of the children are their `ChildLines`. */
  lemma {:induction false} IndentedLinesCorrect(cs: seq<Node>)
    ensures IndentedLines(cs) == ChildLines(cs)
    ensures Text.AllSingleLine(ChildLines(cs))
    ensures cs != [] ==> |ChildLines(cs)| >= 1
    decreases cs, 0
  {
    if cs != [] {
      ReprLinesCorrect(cs[0]);
      IndentedLinesCorrect(cs[1..]);
      assert Text.AllSingleLine(Indent(ReprLines(cs[0])) + ChildLines(cs[1..]));
      assert |ReprLines(cs[0])| >= 1;
    }
  }

  /** The number of lines of the children's reprs, summed in order. */
  function SumLines(cs: seq<Node>): nat {
    if cs == [] then 0 else |Text.Split(Repr(cs[0]))| + SumLines(cs[1..])
  }

  /** The children account for every line between the first and the last. */
  lemma {:induction false} ChildLinesCount(cs: seq<Node>)
    ensures |ChildLines(cs)| == SumLines(cs)
  {
    if cs != [] {
      ReprLinesCorrect(cs[0]);
      ChildLinesCount(cs[1..]);
    }
  }

  /**
    The shape of `repr` of an `EzRegex` or `EzCharSet`: the first line is the
    class name and `(`, the last is `)`, every other line is a line of a
    child's repr behind two spaces, in order, and there are two lines more
    than the children have (three for a regex without children).
  */
  lemma ReprShape(n: Node)
    requires n.IsRegex()
    ensures var lines := Text.Split(Repr(n));
      && |lines| >= 3
      && lines[0] == ClassName(n) + "("
      && lines[|lines| - 1] == ")"
      && (n.children != [] ==> lines[1..|lines| - 1] == IndentedLines(n.children))
      && (n.children != [] ==> |lines| == 2 + SumLines(n.children))
      && (n.children == [] ==> lines == [ClassName(n) + "(", "", ")"])
  {
    ReprLinesCorrect(n);
    IndentedLinesCorrect(n.children);
    ChildLinesCount(n.children);
    var lines := Text.Split(Repr(n));
    if n.children != [] {
      assert lines == [ClassName(n) + "("] + ChildLines(n.children) + [")"];
      assert lines[1..|lines| - 1] == ChildLines(n.children);
    }
  }

  /** The lines of `repr(EzRegex("foo"))`: one leaf, indented between the frame lines. */
  lemma ReprExample()
    ensures Text.Split(Repr(MakeRegex([Raw("foo")]))) == ["EzRegex(", "  EzPattern('foo')", ")"]
  {
    var n := MakeRegex([Raw("foo")]);
    assert n.children == [Pat("foo")];
    ReprLinesCorrect(n);
    FooChildLines();
    assert ClassName(n) + "(" == "EzRegex(";
    assert ReprLines(n) == ["EzRegex("] + ["  EzPattern('foo')"] + [")"];
  }

  /** The indented repr line of the leaf `foo`. */
  lemma FooChildLines()
    ensures ChildLines([Pat("foo")]) == ["  EzPattern('foo')"]
  {
    var line := "EzPattern(" + Text.StrRepr("foo") + ")";
    assert line == "EzPattern('foo')" by {
      Text.StrReprPlain("foo");
    }
    assert ReprLines(Pat("foo")) == [line];
    var cs := [Pat("foo")];
    assert ChildLines(cs) == Indent([line]) by {
      assert cs[0] == Pat("foo") && cs[1..] == [];
    }
    assert Indent([line]) == ["  " + line];
    assert "  " + line == "  EzPattern('foo')";
  }
}
