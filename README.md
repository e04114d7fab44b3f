# ezr regex builder: a Dafny model

`ezr` builds regular-expression strings from small fragments. This project
models the self-contained core of `ezr/ezregex.py` and the small modules
around it, and proves properties of that model:

- **The node tree** (`EzRegex` module, `ezregex.dfy`). A leaf `EzPattern`
  holds a string (`Pat`). An `EzRegex` holds an ordered list of children
  (`Rx`). Its subclass `EzCharSet` holds the same list and renders it in
  brackets (`CharSet`). Construction wraps every raw string argument into
  exactly one leaf and keeps node arguments. Rendering (`__str__`)
  concatenates the children. `+` builds a new two-child `EzRegex` and never
  flattens. `~` either drops a leading child that renders as `^` or builds
  the set `[^…]`. `__repr__` is modelled on strings, and its line structure
  is proved through an independent line-level definition.
- **Python text primitives** (`Text` module, `text.dfy`): `split("\n")`,
  `"\n".join`, and `repr` of a `str`, which `__repr__` uses.
- **`any_of` and `optional`** (`Helper` module, `helper.dfy`). `any_of` gives
  a character set, a `|`-separated group, or a `ValueError`. It is a method.
  It builds the group's argument list as the source does: an array of `|`
  whose even slots are then overwritten.
- **`are_valid_quantifier_params` and `bold`** (`Util` module, `util.dfy`).
- **The quantifier builders** (`Quantifiers` module, `quantifier.dfy`). Each
  one is the (lower, upper, lazy) triple it passes to `Quantifier`, checked
  against the validator.

### Where `ezr/ezregex.py` differs from the later library

The model follows `ezr/ezregex.py` as written. Several tests describe a later
version of the library, whose classes `Pattern`, `Quantifier`, `Group` and
`CharacterSet` are imported by `ezr/helper.py`, `ezr/quantifier.py` and
`ezr/__init__.py` but are not defined in `ezr/ezregex.py`.

- The later library splits a string into one node per character.
  tests/test_ezregex.py:73-88 expects `repr` lines such as `Pattern('f')`,
  one per character. In `ezr/ezregex.py`, `EzRegex("foo")` has one child,
  `EzPattern("foo")` (lines 36-39). `EzRegex.ReprExample` gives its repr.
- The later library flattens concatenation. tests/test_operators.py:23
  expects six children for `"foo" + EzRegex("bar")`. In `ezr/ezregex.py`,
  `a + b` is always `EzRegex(a, b)` with exactly two children (lines 25-29,
  60-64). `EzRegex.AddFooBarExample` proves the two children.
- What `any_of` and the quantifier builders hand to those classes is
  modelled as data: a shape plus an argument list, or a bounds triple.

### Parameters for code not defined in `ezr/ezregex.py`

- `Pattern.is_valid_pattern` is the parameter `valid: string -> bool` of
  `Helper.AnyOf`.
- In `any_of`, `str(p)` of a node argument is this model's `Render`.

## Model

| member | source | states |
|---|---|---|
| `EzRegex.Coerce` | ezr/ezregex.py:36-39 | a node argument is kept as it is; a raw string becomes exactly one `EzPattern` holding that string |
| `EzRegex.MakeRegex` | ezr/ezregex.py:35-39 | `EzRegex(*args)` has one child per argument, in argument order, each the coerced argument |
| `EzRegex.MakeCharSet` | ezr/ezregex.py:67-69 | `EzCharSet(*args)` has exactly the children `EzRegex(*args)` would have |
| `EzRegex.Render` | ezr/ezregex.py:42-43 | `str(n)`, for leaves (lines 19-20), `EzRegex` and `EzCharSet` (lines 68-69). A leaf renders its string; an `EzRegex` renders the in-order concatenation of its children's renders; an `EzCharSet` renders the same in brackets. The contract states that an `EzCharSet` render starts with `[` and ends with `]` |
| `EzRegex.RenderAll` | ezr/ezregex.py:43 | the `"".join` over the children's strings, in order; a single child contributes exactly its own render |
| `EzRegex.PatternRendersVerbatim` | ezr/ezregex.py:13-20 | an `EzPattern` renders exactly the string it was given, with no validation or escaping, also as the only child of an `EzRegex` |
| `EzRegex.RenderAllAppend` | ezr/ezregex.py:42-43 | rendering a child list distributes over list concatenation |
| `EzRegex.RenderMakeRegex` | ezr/ezregex.py:42-43 | an `EzRegex` renders as the in-order concatenation of its arguments' strings; an empty one renders as `""` |
| `EzRegex.RenderCharSet` | ezr/ezregex.py:67-69 | an `EzCharSet` renders as `[` + its children's concatenation + `]`, two characters longer, `[]` with no children |
| `EzRegex.TokensRender` | ezr/ezregex.py:72-82 | each predefined token renders as its escape (`\d`, `\s`, `\w`, `\D`, `\S`, `\W`, `.`, `^`, `$`, `\b`, `\B`) |
| `EzRegex.Plus` | ezr/ezregex.py:60-61 | `x + other` is a new `EzRegex` with exactly the children `[x, other]` |
| `EzRegex.RPlus` | ezr/ezregex.py:63-64 | `other + x` via `__radd__` is a new `EzRegex` with the left operand first: `[other, x]` |
| `EzRegex.Add` | ezr/ezregex.py:25-29 | whichever side is the node, `a + b` equals `EzRegex(a, b)` |
| `EzRegex.RenderAdd` | ezr/ezregex.py:60-64 | `str(a + b) == str(a) + str(b)` |
| `EzRegex.RenderAddAssociative` | ezr/ezregex.py:60-64 | `str((a + b) + c) == str(a + (b + c))` |
| `EzRegex.AddNests` | ezr/ezregex.py:60-61 | `(a + b) + c` keeps `a + b` as its first child and differs from `a + (b + c)` as a tree, so concatenation never flattens |
| `EzRegex.AddFooBarExample` | ezr/ezregex.py:63-64 | `"foo" + EzRegex("bar")` has two children, the leaf `foo` first, and renders `foobar` |
| `EzRegex.Invert` | ezr/ezregex.py:54-58 | if the first child renders `^`, the result is an `EzRegex` of the remaining children, exactly one fewer; otherwise an `EzCharSet` of `^` followed by all children, one more |
| `EzRegex.RenderInvert` | ezr/ezregex.py:54-58 | when the first child renders `^`, `~x` renders the children's concatenation minus its leading `^` (for an `EzCharSet` operand the brackets are not kept); otherwise `~x` renders `[^` + children + `]` |
| `EzRegex.InvertInvolution` | ezr/ezregex.py:54-58 | when the first child does not render `^` (or there is none), `~~x` is the `EzRegex` of exactly `x`'s children, so it renders as `x`'s content, and as `x` for an `EzRegex` |
| `EzRegex.InvertTwiceStripsTwoCarets` | ezr/ezregex.py:56-57 | with two leading `^` children, `~~x` strips both, so the involution needs its precondition |
| `EzRegex.InvertFooExample` | tests/test_ezregex.py:47-60 | `~EzRegex("foo")` renders `[^foo]` and `~~EzRegex("foo")` renders `foo` |
| `EzRegex.Indent` | ezr/ezregex.py:47 | every line gets two leading spaces; the count is unchanged |
| `EzRegex.ClassName` | ezr/ezregex.py:49 | `self.__class__.__name__` of each of the three classes, a single word with no line break |
| `EzRegex.Repr` | ezr/ezregex.py:45-49 | `repr(n)` on strings: a leaf is `EzPattern(` + `repr` of its string + `)` (lines 22-23); a regex is its class name and `(`, a line break, the children's indented repr lines joined by line breaks (`IndentedLines`), a line break and `)`. The contract states that a leaf's repr is one line and that every repr ends in `)` |
| `EzRegex.ReprLinesCorrect` | ezr/ezregex.py:45-49 | splitting the `__repr__` string at line breaks gives exactly the line-level description `ReprLines`, and no line holds a line break |
| `EzRegex.RegexReprLinesCorrect` | ezr/ezregex.py:45-49 | the regex case of `ReprLinesCorrect`: for an `EzRegex` or `EzCharSet`, the split `__repr__` string is the header, the children's indented lines (or one empty line), and `)`, each a single line |
| `EzRegex.IndentedLinesCorrect` | ezr/ezregex.py:46-47 | the indented lines computed from the children's repr strings are the children's `ReprLines` behind two spaces, in order |
| `EzRegex.SplitRegexRepr` | ezr/ezregex.py:48-49 | the `__repr__` string splits into the header, the joined child lines (or one empty line), and `)` |
| `EzRegex.ChildLinesCount` | ezr/ezregex.py:47 | the children contribute exactly the sum of their own repr line counts |
| `EzRegex.ReprShape` | ezr/ezregex.py:45-49 | the first line is class name + `(`, the last is `)`, the lines between are the children's lines behind two spaces, and there are 2 + the sum of the children's line counts (3 lines for no children) |
| `EzRegex.ReprExample` | ezr/ezregex.py:45-49 | `repr(EzRegex("foo"))` is the three lines `EzRegex(`, `  EzPattern('foo')`, `)` |
| `Text.Split` | ezr/ezregex.py:47 | `split("\n")` always yields at least one piece |
| `Text.Join` | ezr/ezregex.py:48 | `"\n".join(lines)`: `""` for no lines; otherwise the result starts with the first line, and a line break follows it when more lines come |
| `Text.SplitJoinRoundTrip` | ezr/ezregex.py:47-48 | no piece of `split("\n")` holds a line break, and joining the pieces gives the string back |
| `Text.SplitLinesSingle` | ezr/ezregex.py:47 | no piece of `split("\n")` holds a line break |
| `Text.JoinSplit` | ezr/ezregex.py:47-48 | `"\n".join(s.split("\n")) == s` |
| `Text.SplitJoin` | ezr/ezregex.py:47-48 | splitting a join of a non-empty list of single lines gives that list back |
| `Text.SplitBlock` | ezr/ezregex.py:48-49 | a first line, joined lines and a last line split back in order; an empty list leaves one empty line |
| `Text.EscapeChar` | ezr/ezregex.py:23 | an escape of `repr` never holds a line break; a printable ASCII character other than the quote and backslash stands for itself |
| `Text.EscapeAll` | ezr/ezregex.py:23 | the escaped body is a single line at least as long as the text |
| `Text.StrRepr` | ezr/ezregex.py:23 | `repr` of a string is one line, enclosed in a pair of equal quotes, two longer than the text at least |
| `Text.StrReprPlain` | ezr/ezregex.py:23 | printable ASCII text without quotes or backslashes is shown unchanged in single quotes |
| `Helper.Branch` | ezr/helper.py:35-44 | the outcome is an error exactly for no arguments or one non-string argument; one string argument gives a character set; for two or more it is a character set exactly when all are valid, and a group otherwise |
| `Helper.InterleavedLength` | ezr/helper.py:40 | the group list for n arguments has 2n − 1 slots |
| `Helper.InterleavedIndex` | ezr/helper.py:40-41 | slot j of the group list holds argument j / 2 when j is even and `|` when j is odd |
| `Helper.InterleavedAt` | ezr/helper.py:40-41 | the group list has length 2n−1, argument i at index 2i and `|` at every odd index |
| `Helper.AnyOf` | ezr/helper.py:15-44 | the outcome's shape depends only on the argument count, whether a lone argument is a string, and the validity of each argument's string; a character set holds exactly the arguments in order; a group holds the `|`-interleaved list |
| `Helper.OptionalOperand` | ezr/helper.py:9-12 | `optional` passes all its arguments, in order, to one `EzRegex`, which renders as their concatenation |
| `Util.Bold` | ezr/util.py:4-5 | `bold(x)` is `x` between `ESC[1m` and `ESC[0m`: length `len(x) + 8`, with `x` in the middle |
| `Util.BoldInjective` | ezr/util.py:4-5 | stripping four characters at each end recovers `x`, so `bold` is injective |
| `Util.AreValidQuantifierParams` | ezr/util.py:8-17 | true exactly when a bound is given, every given bound is non-negative, and lower ≤ upper when both are given |
| `Util.ValidityIgnoresThird` | ezr/util.py:9 | the verdict does not depend on the third component |
| `Util.ValidMeansSomeNonNegativeBound` | ezr/util.py:10-17 | a true verdict means some bound is present and every present bound is non-negative |
| `Util.ValidityTable` | tests/test_util.py:12-31 | the twenty listed cases give the listed verdicts |
| `Quantifiers.ZeroOrMore` | ezr/quantifier.py:6-7 | bounds (0, None) with the given laziness; always valid |
| `Quantifiers.OneOrMore` | ezr/quantifier.py:10-11 | bounds (1, None) with the given laziness; always valid |
| `Quantifiers.ZeroOrOne` | ezr/quantifier.py:14-15 | bounds (0, 1) with the given laziness; always valid |
| `Quantifiers.Exactly` | ezr/quantifier.py:18-19 | lower = upper = n; valid exactly when n ≥ 0 |
| `Quantifiers.Between` | ezr/quantifier.py:22-27 | bounds (n, m), both defaulting to None; valid exactly under the validator's conditions on them |
| `Quantifiers.AtLeast` | ezr/quantifier.py:30-31 | bounds (n, None); valid exactly when n ≥ 0 |
| `Quantifiers.AtMost` | ezr/quantifier.py:34-35 | bounds (None, n); valid exactly when n ≥ 0 |
| `Quantifiers.BetweenDefaultsRejected` | ezr/quantifier.py:22-27 | `between()` gives (None, None), which the validator rejects |
| `Quantifiers.BuildersDefaultGreedy` | ezr/quantifier.py:6-35 | without an explicit flag every builder passes `lazy=False` |
| `Quantifiers.BuildersValid` | ezr/quantifier.py:6-35 | for 0 ≤ n ≤ m every builder's triple passes the validator |

## Left out

- `compile()` (ezr/ezregex.py:16-17, 51-52): it hands the rendered string to Python's `re` engine, which is a foreign regex engine.
- `ForbiddenError` and the raw-argument field `_pattern` of `EzRegex` (ezr/ezregex.py:6-7, 40): they are never used.
- Non-string raw arguments (for example `EzRegex(5)`): `str()` of such a leaf fails in Python. Raw arguments are strings in this model.
- `EzRegex.Invert`: requires an `EzRegex` or `EzCharSet`. `EzPattern` defines no `__invert__`, so `~` on a leaf is a Python `TypeError` that the library does not handle.
- `EzRegex.Add`: requires one operand to be a node. `str + str` is Python's own string concatenation and never reaches the library.
- `Text.StrRepr`: escapes the quote, the backslash, tab, line feed, carriage return and the other ASCII control characters. Python's `repr` also escapes non-printable non-ASCII characters, chosen by Unicode category. That part is left out because it depends on the Unicode database. The single-line property holds either way.
- `Text.EscapeChar`: keeps every non-ASCII character as it is. Python's `repr` escapes the non-printable ones, such as U+0085 as `\x85` and U+2028 as `\u2028`. The contract only speaks of printable ASCII for that reason.
- The classes `Pattern`, `Quantifier`, `Group` and `CharacterSet` are not defined in `ezr/ezregex.py` and are not part of this model. This covers their rendering, explanation text, range checks, quantifier wrapping, `lazy()` and the `capture` setter. `any_of`'s outcome is recorded as a shape plus the argument list given to the class. The quantifier builders are recorded as the triple given to `Quantifier`.
- The rendering of `optional(...)` as `(…)?`: `EzRegex` in `ezr/ezregex.py` has no `.optional()` method, and the method `optional` calls is not defined there. Only the operand `optional` builds is modelled.
- The text of `any_of`'s `ValueError` message: it embeds Python's `repr` of the argument tuple. The error is a tag here.
- `ezr/__init__.py` is not part of this model: it only re-exports names and redefines the tokens with the `Pattern` class, which is not defined in `ezr/ezregex.py`.
