/**
  The helpers of `ezr/helper.py`. `any_of` picks one of three outcomes: a
  character set of its arguments, a group of its arguments separated by
  `|`, or a `ValueError`. The classes `CharacterSet`, `Group` and `Pattern`
  that it instantiates are not part of this model: an outcome is recorded as
  its shape and the argument list handed to that class, and the check
  `Pattern.is_valid_pattern` is a parameter.
*/
module Helper {
  import opened EzRegex

  /** What `any_of` returns or raises. */
  datatype AnyOfResult =
    | CharacterSetOf(args: seq<Arg>)
    | GroupOf(args: seq<Arg>)
    | InvalidPattern

  /** The three outcomes without their arguments. */
  datatype Shape = CharacterSetShape | GroupShape | ErrorShape

  function ShapeOf(r: AnyOfResult): Shape {
    match r
    case CharacterSetOf(_) => CharacterSetShape
    case GroupOf(_) => GroupShape
    case InvalidPattern => ErrorShape
  }

  /** The separator placed between the alternatives of a group. */
  const Bar: Arg := Raw("|")

  /** Every argument's string passes the validity check. */
  predicate AllValid(valid: string -> bool, ps: seq<Arg>) {
    forall i :: 0 <= i < |ps| ==> valid(Str(ps[i]))
  }

  /**
    The dispatch of `any_of` from the only three facts it looks at: the
    number of arguments, whether a lone argument is a string, and whether
    every argument's string is a valid pattern.
  */
  function Branch(count: nat, loneString: bool, allValid: bool): (s: Shape)
    ensures s == ErrorShape <==> count == 0 || (count == 1 && !loneString)
    ensures count == 1 && loneString ==> s == CharacterSetShape
    ensures count > 1 ==> (s == CharacterSetShape <==> allValid)
  {
    if count == 1 && loneString then CharacterSetShape
    else if count > 1 then (if allValid then CharacterSetShape else GroupShape)
    else ErrorShape
  }

  /** The arguments with a `|` between each neighbouring pair, as a reference list. */
  function Interleaved(ps: seq<Arg>): seq<Arg> {
    if |ps| <= 1 then ps else [ps[0], Bar] + Interleaved(ps[1..])
  }

  /** The interleaved list has one `|` fewer than twice the arguments. */
  lemma {:induction false} InterleavedLength(ps: seq<Arg>)
    requires |ps| >= 1
    ensures |Interleaved(ps)| == 2 * |ps| - 1
  {
    if |ps| > 1 {
      InterleavedLength(ps[1..]);
    }
  }

  /** Index `j` of the interleaved list: argument `j / 2` when `j` is even, `|` when it is odd. */
  lemma {:induction false} InterleavedIndex(ps: seq<Arg>, j: nat)
    requires |ps| >= 1 && j < 2 * |ps| - 1
    ensures j < |Interleaved(ps)|
    ensures Interleaved(ps)[j] == if j % 2 == 0 then ps[j / 2] else Bar
    decreases j
  {
    InterleavedLength(ps);
    if j >= 2 {
      var tail := ps[1..];
      InterleavedIndex(tail, j - 2);
      assert Interleaved(ps)[j] == Interleaved(tail)[j - 2];
      assert (j - 2) % 2 == j % 2 && (j - 2) / 2 == j / 2 - 1;
    }
  }

  /** Argument `i` sits at index `2 i` of the interleaved list and `|` at every odd index. */
  lemma {:induction false} InterleavedAt(ps: seq<Arg>)
    requires |ps| >= 1
    ensures |Interleaved(ps)| == 2 * |ps| - 1
    ensures forall j :: 0 <= j < |Interleaved(ps)| ==>
      Interleaved(ps)[j] == if j % 2 == 0 then ps[j / 2] else Bar
  {
    InterleavedLength(ps);
    forall j | 0 <= j < |Interleaved(ps)|
      ensures Interleaved(ps)[j] == if j % 2 == 0 then ps[j / 2] else Bar
    {
      InterleavedIndex(ps, j);
    }
  }

  /**
    `any_of(*ps)`. One string becomes a character set of that string; one
    node is an error; two or more arguments become a character set of
    themselves when all are valid patterns, and otherwise a group over the
    list `ps[0], "|", ps[1], "|", …`, which is built as a list of 2n − 1
    separators whose even slots then receive the arguments. No arguments at
    all is an error.
  */
  method AnyOf(valid: string -> bool, ps: seq<Arg>) returns (r: AnyOfResult)
    ensures ShapeOf(r) == Branch(|ps|, |ps| == 1 && ps[0].Raw?, AllValid(valid, ps))
    ensures r.CharacterSetOf? ==> r.args == ps
    ensures r.GroupOf? ==> r.args == Interleaved(ps)
    ensures r.GroupOf? ==>
      && |r.args| == 2 * |ps| - 1
      && forall j :: 0 <= j < |r.args| ==> r.args[j] == if j % 2 == 0 then ps[j / 2] else Bar
  {
    if |ps| == 1 && ps[0].Raw? {
      return CharacterSetOf(ps);
    }
    if |ps| > 1 {
      // Look for an argument whose string fails the validity check.
      var anyInvalid := false;
      var k := 0;
      while k < |ps| && !anyInvalid
        invariant 0 <= k <= |ps|
        invariant anyInvalid <==> k > 0 && !valid(Str(ps[k - 1]))
        invariant forall i :: 0 <= i < k - 1 ==> valid(Str(ps[i]))
        invariant !anyInvalid ==> forall i :: 0 <= i < k ==> valid(Str(ps[i]))
      {
        anyInvalid := !valid(Str(ps[k]));
        k := k + 1;
      }
      if anyInvalid {
        var n := |ps|;
        var slots := new Arg[2 * n - 1](_ => Bar);
        var i := 0;
        while i < n
          invariant 0 <= i <= n
          invariant forall j :: 0 <= j < slots.Length ==>
            slots[j] == if j % 2 == 0 && j / 2 < i then ps[j / 2] else Bar
        {
          slots[2 * i] := ps[i];
          i := i + 1;
        }
        InterleavedAt(ps);
        assert slots[..] == Interleaved(ps);
        return GroupOf(slots[..]);
      }
      return CharacterSetOf(ps);
    }
    return InvalidPattern;
  }

  /**
    `optional(*ps)` forwards all its arguments, in order, to one `EzRegex`,
    on which it then calls `.optional()`; the model is that operand.
  */
  function OptionalOperand(ps: seq<Arg>): (r: Node)
    ensures r.Rx? && |r.children| == |ps|
    ensures forall i :: 0 <= i < |ps| ==> r.children[i] == Coerce(ps[i])
    ensures Render(r) == StrAll(ps)
  {
    RenderMakeRegex(ps);
    MakeRegex(ps)
  }

  /** The examples of the docstring of `any_of`, with validity meaning "a single character". */
  method AnyOfDocExamples() {
    var single := (s: string) => |s| == 1;
    var r1 := AnyOf(single, [Raw("a"), Raw("b"), Raw("c")]);
    assert Str(Raw("a")) == "a" && Str(Raw("b")) == "b" && Str(Raw("c")) == "c";
    assert AllValid(single, [Raw("a"), Raw("b"), Raw("c")]);
    assert r1 == CharacterSetOf([Raw("a"), Raw("b"), Raw("c")]);
    var r2 := AnyOf(single, [Raw("abc")]);
    assert r2 == CharacterSetOf([Raw("abc")]);
    var foo := [Raw("foo"), Raw("bar"), Raw("baz")];
    var r3 := AnyOf(single, foo);
    assert Str(foo[0]) == "foo";
    assert !AllValid(single, foo);
    assert r3.GroupOf?;
    assert r3.args == [Raw("foo"), Bar, Raw("bar"), Bar, Raw("baz")];
    var r4 := AnyOf(single, []);
    assert r4 == InvalidPattern;
    var r5 := AnyOf(single, [NodeArg(Digit)]);
    assert r5 == InvalidPattern;
  }
}
