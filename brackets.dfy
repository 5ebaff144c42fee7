/** The bracket parser `unbracket` (lib/improver/cli/__init__.py): a flat
    list of command-line tokens in which `[` ... `]` delimit nested commands
    becomes a nested list. */
module Brackets {

  const Open := "["
  const Close := "]"

  /** An element of the nested list: a token, or a bracketed sub-list. */
  datatype Node = Leaf(token: string) | Nested(children: seq<Node>)

  /** What `unbracket` returns, or the `ValueError("Mismatched bracket at
      position %i.")` it raises. */
  datatype Unbracketed = Parsed(nodes: seq<Node>) | MismatchedBracket(position: nat)

  predicate IsBracket(t: string) {
    t == Open || t == Close
  }

  function Last<T>(s: seq<T>): T
    requires |s| > 0
  {
    s[|s| - 1]
  }

  // ---------------------------------------------------------------------------
  // The scan, and the method that performs it

  /** The scan of `args[i..]` when the list being built is `outargs` and the
      lists of the enclosing brackets are on `stack`, innermost last. */
  function Scan(args: seq<string>, i: nat, outargs: seq<Node>, stack: seq<seq<Node>>): Unbracketed
    requires i <= |args|
    decreases |args| - i
  {
    if i == |args| then
      if stack != [] then MismatchedBracket(|args|) else Parsed(outargs)
    else if args[i] == Open then
      Scan(args, i + 1, [], stack + [outargs])
    else if args[i] == Close then
      if stack == [] then MismatchedBracket(i)
      else Scan(args, i + 1, Last(stack) + [Nested(outargs)], stack[..|stack| - 1])
    else
      Scan(args, i + 1, outargs + [Leaf(args[i])], stack)
  }

  /** The result of `unbracket(args)`. */
  function Parse(args: seq<string>): Unbracketed {
    Scan(args, 0, [], [])
  }

  /** `unbracket(args)`: one pass over the tokens with an explicit stack. */
  method Unbracket(args: seq<string>) returns (r: Unbracketed)
    ensures r == Parse(args)
    ensures r.Parsed? <==> Balanced(args)
    ensures r.Parsed? ==> Render(r.nodes) == args && NoBracketLeaves(r.nodes)
    ensures r.MismatchedBracket? ==>
              (r.position < |args| && UnderflowAt(args, r.position)) ||
              (r.position == |args| && NeverUnderflows(args) && Depth(args) > 0)
  {
    ParseOutcome(args);
    var outargs: seq<Node> := [];
    var stack: seq<seq<Node>> := [];
    for i := 0 to |args|
      invariant Scan(args, i, outargs, stack) == Parse(args)
    {
      if args[i] == Open {
        stack := stack + [outargs];
        outargs := [];
      } else if args[i] == Close {
        if stack == [] {
          return MismatchedBracket(i);
        }
        outargs := Last(stack) + [Nested(outargs)];
        stack := stack[..|stack| - 1];
      } else {
        outargs := outargs + [Leaf(args[i])];
      }
    }
    if stack != [] {
      return MismatchedBracket(|args|);
    }
    return Parsed(outargs);
  }

  // ---------------------------------------------------------------------------
  // Rendering a nested list back into tokens

  /** The tokens a nested list stands for, brackets included. */
  function Render(nodes: seq<Node>): seq<string>
    decreases nodes
  {
    if nodes == [] then [] else RenderNode(nodes[0]) + Render(nodes[1..])
  }

  function RenderNode(n: Node): seq<string>
    decreases n
  {
    match n
    case Leaf(t) => [t]
    case Nested(c) => [Open] + Render(c) + [Close]
  }

  /** The tokens of an unfinished scan: each enclosing list followed by the
      `[` that opened the next one. */
  function RenderOpen(stack: seq<seq<Node>>): seq<string> {
    if stack == [] then [] else RenderOpen(stack[..|stack| - 1]) + Render(Last(stack)) + [Open]
  }

  /** No token of the nested list is itself a bracket. */
  predicate NoBracketLeaves(nodes: seq<Node>)
    decreases nodes
  {
    forall k :: 0 <= k < |nodes| ==> NodeHasNoBracketLeaves(nodes[k])
  }

  predicate NodeHasNoBracketLeaves(n: Node)
    decreases n
  {
    match n
    case Leaf(t) => !IsBracket(t)
    case Nested(c) => NoBracketLeaves(c)
  }

  predicate FramesHaveNoBracketLeaves(stack: seq<seq<Node>>) {
    forall k :: 0 <= k < |stack| ==> NoBracketLeaves(stack[k])
  }

  lemma {:induction false} RenderAppend(a: seq<Node>, b: seq<Node>)
    ensures Render(a + b) == Render(a) + Render(b)
    decreases |a|
  {
    if a == [] {
      assert a + b == b;
    } else {
      assert (a + b)[0] == a[0] && (a + b)[1..] == a[1..] + b;
      RenderAppend(a[1..], b);
    }
  }

  // ---------------------------------------------------------------------------
  // Bracket depth

  /** The number of `[` minus the number of `]` in `s`. */
  function Depth(s: seq<string>): int {
    multiset(s)[Open] as int - multiset(s)[Close] as int
  }

  /** No prefix of `args` closes more brackets than it opens. */
  predicate NeverUnderflows(args: seq<string>) {
    forall j :: 0 <= j <= |args| ==> Depth(args[..j]) >= 0
  }

  /** Every bracket is matched. */
  predicate Balanced(args: seq<string>) {
    NeverUnderflows(args) && Depth(args) == 0
  }

  /** `args[p]` is the first `]` that has no `[` to match. */
  predicate UnderflowAt(args: seq<string>, p: nat) {
    p < |args| && args[p] == Close && Depth(args[..p]) == 0 &&
    forall j :: 0 <= j <= p ==> Depth(args[..j]) >= 0
  }

  lemma DepthStep(args: seq<string>, i: nat)
    requires i < |args|
    ensures Depth(args[..i + 1]) ==
            Depth(args[..i]) + (if args[i] == Open then 1 else if args[i] == Close then -1 else 0)
  {
    assert args[..i + 1] == args[..i] + [args[i]];
  }

  // ---------------------------------------------------------------------------
  // What the scan produces

  /** A successful scan gives back a nested list that renders to exactly the
      input tokens: the tokens already consumed are always the rendering of
      the enclosing lists, each followed by its `[`, and then of the current
      list. */
  lemma {:induction false} ScanRenders(args: seq<string>, i: nat, outargs: seq<Node>, stack: seq<seq<Node>>)
    requires i <= |args|
    requires args[..i] == RenderOpen(stack) + Render(outargs)
    requires NoBracketLeaves(outargs) && FramesHaveNoBracketLeaves(stack)
    ensures Scan(args, i, outargs, stack).Parsed? ==>
              Render(Scan(args, i, outargs, stack).nodes) == args &&
              NoBracketLeaves(Scan(args, i, outargs, stack).nodes)
    decreases |args| - i
  {
    if i == |args| {
      assert args[..i] == args;
    } else if args[i] == Open {
      OpenConsumed(args, i, outargs, stack);
      FramesKeepNoBracketLeaves(stack, outargs, Leaf(""));
      ScanRenders(args, i + 1, [], stack + [outargs]);
    } else if args[i] == Close {
      if stack != [] {
        CloseConsumed(args, i, outargs, stack);
        FramesKeepNoBracketLeaves(stack, outargs, Nested(outargs));
        ScanRenders(args, i + 1, Last(stack) + [Nested(outargs)], stack[..|stack| - 1]);
      }
    } else {
      LeafConsumed(args, i, outargs, stack);
      FramesKeepNoBracketLeaves(stack, outargs, Leaf(args[i]));
      ScanRenders(args, i + 1, outargs + [Leaf(args[i])], stack);
    }
  }

  lemma OpenConsumed(args: seq<string>, i: nat, outargs: seq<Node>, stack: seq<seq<Node>>)
    requires i < |args| && args[i] == Open
    requires args[..i] == RenderOpen(stack) + Render(outargs)
    ensures args[..i + 1] == RenderOpen(stack + [outargs]) + Render([])
  {
    var pushed := stack + [outargs];
    assert pushed[..|stack|] == stack && Last(pushed) == outargs;
    assert args[..i + 1] == args[..i] + [args[i]];
  }

  lemma CloseConsumed(args: seq<string>, i: nat, outargs: seq<Node>, stack: seq<seq<Node>>)
    requires i < |args| && args[i] == Close && stack != []
    requires args[..i] == RenderOpen(stack) + Render(outargs)
    ensures args[..i + 1] == RenderOpen(stack[..|stack| - 1]) + Render(Last(stack) + [Nested(outargs)])
  {
    assert args[..i + 1] == args[..i] + [Close];
    ClosingFrame(stack, outargs);
  }

  lemma RenderSingleNested(outargs: seq<Node>)
    ensures Render([Nested(outargs)]) == [Open] + Render(outargs) + [Close]
  {
    assert Render([Nested(outargs)]) == RenderNode(Nested(outargs)) + Render([]);
  }

  lemma CloseInto(pending: seq<string>, top: seq<Node>, outargs: seq<Node>)
    ensures pending + Render(top) + [Open] + Render(outargs) + [Close] ==
            pending + Render(top + [Nested(outargs)])
  {
    RenderAppend(top, [Nested(outargs)]);
    RenderSingleNested(outargs);
  }

  /** Closing the current list turns the last `[` of the pending tokens into
      the start of a nested element of the enclosing list. */
  lemma ClosingFrame(stack: seq<seq<Node>>, outargs: seq<Node>)
    requires stack != []
    ensures RenderOpen(stack) + Render(outargs) + [Close] ==
            RenderOpen(stack[..|stack| - 1]) + Render(Last(stack) + [Nested(outargs)])
  {
    assert RenderOpen(stack) == RenderOpen(stack[..|stack| - 1]) + Render(Last(stack)) + [Open];
    CloseInto(RenderOpen(stack[..|stack| - 1]), Last(stack), outargs);
  }

  lemma LeafConsumed(args: seq<string>, i: nat, outargs: seq<Node>, stack: seq<seq<Node>>)
    requires i < |args|
    requires args[..i] == RenderOpen(stack) + Render(outargs)
    ensures args[..i + 1] == RenderOpen(stack) + Render(outargs + [Leaf(args[i])])
  {
    assert args[..i + 1] == args[..i] + [args[i]];
    RenderAppend(outargs, [Leaf(args[i])]);
    assert Render([Leaf(args[i])]) == [args[i]] + Render([]);
  }

  /** Pushing, popping and extending frames keeps bracket tokens out of the leaves. */
  lemma FramesKeepNoBracketLeaves(stack: seq<seq<Node>>, outargs: seq<Node>, n: Node)
    requires FramesHaveNoBracketLeaves(stack) && NoBracketLeaves(outargs)
    ensures FramesHaveNoBracketLeaves(stack + [outargs])
    ensures stack != [] ==> FramesHaveNoBracketLeaves(stack[..|stack| - 1])
    ensures stack != [] && NodeHasNoBracketLeaves(n) ==> NoBracketLeaves(Last(stack) + [n])
    ensures NodeHasNoBracketLeaves(n) ==> NoBracketLeaves(outargs + [n])
  {
    var pushed := stack + [outargs];
    assert forall k | 0 <= k < |pushed| :: pushed[k] == if k < |stack| then stack[k] else outargs;
    if stack != [] {
      assert NoBracketLeaves(stack[|stack| - 1]);
    }
  }

  /** The scan succeeds exactly on balanced input, and otherwise fails at the
      first unmatched `]`, or at the end when a `[` is left open. The stack
      always holds one list per bracket still open. */
  lemma {:induction false} ScanOutcome(args: seq<string>, i: nat, outargs: seq<Node>, stack: seq<seq<Node>>)
    requires i <= |args|
    requires |stack| == Depth(args[..i])
    requires forall j :: 0 <= j <= i ==> Depth(args[..j]) >= 0
    ensures Scan(args, i, outargs, stack).Parsed? ==> Balanced(args)
    ensures Scan(args, i, outargs, stack).MismatchedBracket? ==>
              var p := Scan(args, i, outargs, stack).position;
              (p < |args| && UnderflowAt(args, p)) ||
              (p == |args| && NeverUnderflows(args) && Depth(args) > 0)
    decreases |args| - i
  {
    if i == |args| {
      assert args[..i] == args;
    } else {
      DepthStep(args, i);
      if args[i] == Open {
        ScanOutcome(args, i + 1, [], stack + [outargs]);
      } else if args[i] == Close {
        if stack != [] {
          ScanOutcome(args, i + 1, Last(stack) + [Nested(outargs)], stack[..|stack| - 1]);
        }
      } else {
        ScanOutcome(args, i + 1, outargs + [Leaf(args[i])], stack);
      }
    }
  }

  /** There is at most one first unmatched `]`. */
  lemma UnderflowUnique(args: seq<string>, p: nat, q: nat)
    requires UnderflowAt(args, p) && UnderflowAt(args, q)
    ensures p == q
  {
    if p < q {
      DepthStep(args, p);
    } else if q < p {
      DepthStep(args, q);
    }
  }

  lemma ParseOutcome(args: seq<string>)
    ensures Parse(args).Parsed? <==> Balanced(args)
    ensures Parse(args).MismatchedBracket? ==>
              (Parse(args).position < |args| && UnderflowAt(args, Parse(args).position)) ||
              (Parse(args).position == |args| && NeverUnderflows(args) && Depth(args) > 0)
    ensures Parse(args).Parsed? ==> Render(Parse(args).nodes) == args && NoBracketLeaves(Parse(args).nodes)
  {
    assert args[..0] == [];
    ScanOutcome(args, 0, [], []);
    ScanRenders(args, 0, [], []);
    var r := Parse(args);
    if r.MismatchedBracket? && r.position < |args| {
      DepthStep(args, r.position);
      assert Depth(args[..r.position + 1]) < 0;
    }
  }

  /** The error position: "Mismatched bracket at position i" names the first
      `]` met with no open `[`, and `len(args)` when a `[` is never closed. */
  lemma MismatchPosition(args: seq<string>, p: nat)
    ensures UnderflowAt(args, p) ==> Parse(args) == MismatchedBracket(p)
    ensures NeverUnderflows(args) && Depth(args) > 0 ==> Parse(args) == MismatchedBracket(|args|)
  {
    ParseOutcome(args);
    var r := Parse(args);
    if r.MismatchedBracket? && r.position < |args| {
      DepthStep(args, r.position);
      assert Depth(args[..r.position + 1]) < 0;
    }
    if UnderflowAt(args, p) {
      DepthStep(args, p);
      assert !NeverUnderflows(args) by {
        assert Depth(args[..p + 1]) < 0;
      }
      UnderflowUnique(args, p, Parse(args).position);
    }
  }

  // ---------------------------------------------------------------------------
  // Rendering and parsing are inverse

  /** Scanning over the rendering of a node appends that node to the current
      list and leaves the stack as it was. */
  lemma {:induction false} ScanOverNode(args: seq<string>, i: nat, n: Node, outargs: seq<Node>, stack: seq<seq<Node>>)
    requires NodeHasNoBracketLeaves(n)
    requires i + |RenderNode(n)| <= |args| && args[i..i + |RenderNode(n)|] == RenderNode(n)
    ensures Scan(args, i, outargs, stack) == Scan(args, i + |RenderNode(n)|, outargs + [n], stack)
    decreases n, 1
  {
    match n
    case Leaf(t) =>
      assert args[i] == RenderNode(n)[0];
    case Nested(c) =>
      var body := Render(c);
      var j := i + 1 + |body|;
      var whole := RenderNode(n);
      assert whole == [Open] + body + [Close];
      assert args[i] == whole[0] == Open;
      assert whole[1..1 + |body|] == body;
      SliceOfSlice(args, i, |whole|, 1, 1 + |body|);
      assert args[i + 1..j] == body;
      ScanOverNodes(args, i + 1, c, [], stack + [outargs]);
      assert args[j] == RenderNode(n)[1 + |body|] == Close;
      assert [] + c == c;
      assert (stack + [outargs])[..|stack|] == stack;
  }

  lemma SliceOfSlice(a: seq<string>, i: nat, len: nat, lo: nat, hi: nat)
    requires i + len <= |a| && lo <= hi <= len
    ensures a[i..i + len][lo..hi] == a[i + lo..i + hi]
  {
    assert forall j :: i + lo <= j < i + hi ==> a[i..i + len][lo..hi][j - i - lo] == a[j];
  }

  lemma {:induction false} ScanOverNodes(args: seq<string>, i: nat, nodes: seq<Node>, outargs: seq<Node>, stack: seq<seq<Node>>)
    requires NoBracketLeaves(nodes)
    requires i + |Render(nodes)| <= |args| && args[i..i + |Render(nodes)|] == Render(nodes)
    ensures Scan(args, i, outargs, stack) == Scan(args, i + |Render(nodes)|, outargs + nodes, stack)
    decreases nodes, 0
  {
    if nodes == [] {
      assert outargs + nodes == outargs;
    } else {
      var head := RenderNode(nodes[0]);
      var k := i + |head|;
      assert args[i..k] == Render(nodes)[..|head|];
      ScanOverNode(args, i, nodes[0], outargs, stack);
      assert args[k..i + |Render(nodes)|] == Render(nodes)[|head|..];
      ScanOverNodes(args, k, nodes[1..], outargs + [nodes[0]], stack);
      assert outargs + [nodes[0]] + nodes[1..] == outargs + nodes;
    }
  }

  /** Parsing the rendering of a nested list gives that list back: together
      with `ParseOutcome`, rendering and `unbracket` are inverse. */
  lemma RoundTrip(nodes: seq<Node>)
    requires NoBracketLeaves(nodes)
    ensures Parse(Render(nodes)) == Parsed(nodes)
  {
    var args := Render(nodes);
    assert args[0..|args|] == args;
    ScanOverNodes(args, 0, nodes, [], []);
    assert [] + nodes == nodes;
  }

  // ---------------------------------------------------------------------------
  // Flattening and counting

  /** The tokens of a nested list in order, without structure. */
  function Flatten(nodes: seq<Node>): seq<string>
    decreases nodes
  {
    if nodes == [] then [] else FlattenNode(nodes[0]) + Flatten(nodes[1..])
  }

  function FlattenNode(n: Node): seq<string>
    decreases n
  {
    match n
    case Leaf(t) => [t]
    case Nested(c) => Flatten(c)
  }

  /** The number of nested lists, at any depth. */
  function CountNested(nodes: seq<Node>): nat
    decreases nodes
  {
    if nodes == [] then 0 else CountNestedNode(nodes[0]) + CountNested(nodes[1..])
  }

  function CountNestedNode(n: Node): nat
    decreases n
  {
    match n
    case Leaf(_) => 0
    case Nested(c) => 1 + CountNested(c)
  }

  /** `args` without its brackets. */
  function WithoutBrackets(args: seq<string>): seq<string> {
    if args == [] then []
    else (if IsBracket(args[0]) then [] else [args[0]]) + WithoutBrackets(args[1..])
  }

  lemma {:induction false} WithoutBracketsAppend(a: seq<string>, b: seq<string>)
    ensures WithoutBrackets(a + b) == WithoutBrackets(a) + WithoutBrackets(b)
    decreases |a|
  {
    if a == [] {
      assert a + b == b;
    } else {
      assert (a + b)[0] == a[0] && (a + b)[1..] == a[1..] + b;
      WithoutBracketsAppend(a[1..], b);
    }
  }

  lemma {:induction false} RenderFlattenNode(n: Node)
    requires NodeHasNoBracketLeaves(n)
    ensures WithoutBrackets(RenderNode(n)) == FlattenNode(n)
    ensures multiset(RenderNode(n))[Open] == CountNestedNode(n)
    decreases n, 1
  {
    match n
    case Leaf(t) =>
      assert WithoutBrackets([t]) == [t] + WithoutBrackets([]);
    case Nested(c) =>
      RenderFlatten(c);
      WithoutBracketsAppend([Open] + Render(c), [Close]);
      WithoutBracketsAppend([Open], Render(c));
      assert WithoutBrackets([Open]) == [] + WithoutBrackets([]);
      assert WithoutBrackets([Close]) == [] + WithoutBrackets([]);
  }

  lemma {:induction false} RenderFlatten(nodes: seq<Node>)
    requires NoBracketLeaves(nodes)
    ensures WithoutBrackets(Render(nodes)) == Flatten(nodes)
    ensures multiset(Render(nodes))[Open] == CountNested(nodes)
    decreases nodes, 0
  {
    if nodes != [] {
      RenderFlattenNode(nodes[0]);
      RenderFlatten(nodes[1..]);
      WithoutBracketsAppend(RenderNode(nodes[0]), Render(nodes[1..]));
    }
  }

  /** A successful `unbracket` keeps every token other than the brackets, in
      order, and makes one nested list per `[`. */
  lemma ParsePreservesTokens(args: seq<string>)
    requires Parse(args).Parsed?
    ensures Flatten(Parse(args).nodes) == WithoutBrackets(args)
    ensures CountNested(Parse(args).nodes) == multiset(args)[Open]
  {
    ParseOutcome(args);
    RenderFlatten(Parse(args).nodes);
  }

  // ---------------------------------------------------------------------------
  // Examples

  /** The doctest of `unbracket`. */
  lemma Doctest()
    ensures Parse(["foo", "[", "bar", "a", "b", "]", "[", "baz", "c", "]", "-o", "z"]) ==
            Parsed([Leaf("foo"), Nested([Leaf("bar"), Leaf("a"), Leaf("b")]),
                    Nested([Leaf("baz"), Leaf("c")]), Leaf("-o"), Leaf("z")])
  {
    var bar := [Leaf("bar"), Leaf("a"), Leaf("b")];
    var baz := [Leaf("baz"), Leaf("c")];
    var nodes := [Leaf("foo"), Nested(bar), Nested(baz), Leaf("-o"), Leaf("z")];
    DoctestRenders(bar, baz, nodes);
    assert NoBracketLeaves(bar) && NoBracketLeaves(baz);
    assert NoBracketLeaves(nodes) by {
      assert NodeHasNoBracketLeaves(Nested(bar)) && NodeHasNoBracketLeaves(Nested(baz));
    }
    RoundTrip(nodes);
  }

  /** The tree of the doctest renders back to its command line. */
  lemma DoctestRenders(bar: seq<Node>, baz: seq<Node>, nodes: seq<Node>)
    requires bar == [Leaf("bar"), Leaf("a"), Leaf("b")] && baz == [Leaf("baz"), Leaf("c")]
    requires nodes == [Leaf("foo"), Nested(bar), Nested(baz), Leaf("-o"), Leaf("z")]
    ensures Render(nodes) == ["foo", "[", "bar", "a", "b", "]", "[", "baz", "c", "]", "-o", "z"]
  {
    assert Render(bar) == ["bar", "a", "b"] by {
      assert Render(bar[2..]) == ["b"] + Render([]);
      assert Render(bar[1..]) == ["a"] + Render(bar[2..]);
    }
    assert Render(baz) == ["baz", "c"] by {
      assert Render(baz[1..]) == ["c"] + Render([]);
    }
    assert Render(nodes[3..]) == ["-o", "z"] by {
      assert Render(nodes[4..]) == ["z"] + Render([]);
      assert Render(nodes[3..]) == ["-o"] + Render(nodes[4..]);
    }
    assert Render(nodes[2..]) == ["[", "baz", "c", "]", "-o", "z"] by {
      assert Render(nodes[2..]) == RenderNode(Nested(baz)) + Render(nodes[3..]);
    }
    assert Render(nodes[1..]) == ["[", "bar", "a", "b", "]", "[", "baz", "c", "]", "-o", "z"] by {
      assert Render(nodes[1..]) == RenderNode(Nested(bar)) + Render(nodes[2..]);
    }
    assert Render(nodes) == ["foo"] + Render(nodes[1..]);
  }

  /** An unmatched `]` is reported at its own position, an unclosed `[` at the
      end of the list. */
  lemma MismatchExamples()
    ensures Parse(["a", "]"]) == MismatchedBracket(1)
    ensures Parse(["a", "["]) == MismatchedBracket(2)
  {
    var closing := ["a", "]"];
    assert closing[..0] == [] && closing[..1] == ["a"] && closing[..2] == closing;
    assert UnderflowAt(closing, 1);
    MismatchPosition(closing, 1);
    var opening := ["a", "["];
    assert opening[..0] == [] && opening[..1] == ["a"] && opening[..2] == opening;
    MismatchPosition(opening, 2);
  }
}
