/**
 * The structural AST pattern detector `has_chained_member_access`: does some
 * function call have a callee of the shape `a.b.c(...)`, a run of at least
 * `minDepth` member accesses that bottoms out on a plain identifier?
 */
module AstPattern {
  import opened Wrappers

  /** The Solidity AST, closed over the node kinds the detector distinguishes. */
  datatype Node =
    | FunctionCall(expression: Option<Node>, arguments: seq<Node>)
    | MemberAccess(expression: Option<Node>, memberName: string)
    | Identifier(name: string)
    | Other(children: seq<Node>)

  /** The default `min_depth` of `has_chained_member_access`. */
  const DefaultMinDepth := 2

  /** `s` occurs in the tree rooted at `root`, the root itself included. */
  predicate IsSubterm(s: Node, root: Node) {
    || s == root
    || match root
       case FunctionCall(e, args) => (e.Some? && IsSubterm(s, e.value)) || (exists a :: a in args && IsSubterm(s, a))
       case MemberAccess(e, _) => e.Some? && IsSubterm(s, e.value)
       case Identifier(_) => false
       case Other(children) => exists a :: a in children && IsSubterm(s, a)
  }

  /** `find_node_with_properties(root, node_type=FUNCTION_CALL)`: every call in the tree, in pre-order. */
  function FindCalls(root: Node): (calls: seq<Node>)
    ensures forall c :: c in calls <==> c.FunctionCall? && IsSubterm(c, root)
  {
    match root
    case FunctionCall(e, args) => [root] + OptCalls(e) + SeqCalls(args)
    case MemberAccess(e, _) => OptCalls(e)
    case Identifier(_) => []
    case Other(children) => SeqCalls(children)
  }

  function OptCalls(e: Option<Node>): (calls: seq<Node>)
    ensures forall c :: c in calls <==> e.Some? && c.FunctionCall? && IsSubterm(c, e.value)
  {
    match e
    case None => []
    case Some(n) => FindCalls(n)
  }

  function SeqCalls(ns: seq<Node>): (calls: seq<Node>)
    ensures forall c :: c in calls <==> c.FunctionCall? && exists a :: a in ns && IsSubterm(c, a)
  {
    if ns == [] then []
    else
      assert forall a :: a in ns <==> a == ns[0] || a in ns[1..];
      FindCalls(ns[0]) + SeqCalls(ns[1..])
  }

  predicate IsMemberAccess(e: Option<Node>) {
    e.Some? && e.value.MemberAccess?
  }

  /** The node reached from `e` by following `k` member-access `.expression` links (None once the run stops). */
  function Follow(e: Option<Node>, k: nat): Option<Node> {
    if k == 0 then e
    else if IsMemberAccess(e) then Follow(e.value.expression, k - 1)
    else None
  }

  /** The first `k` nodes from `e` are all member accesses. */
  predicate IsRun(e: Option<Node>, k: nat) {
    forall j :: 0 <= j < k ==> IsMemberAccess(Follow(e, j))
  }

  /** The counter of the inner `while` loop: how many member accesses it steps through. */
  function ChainDepth(e: Option<Node>): (k: nat)
    ensures IsRun(e, k) && !IsMemberAccess(Follow(e, k))
  {
    if IsMemberAccess(e) then 1 + ChainDepth(e.value.expression) else 0
  }

  /** Where the inner `while` loop stops: a missing expression or the first node that is not a member access. */
  function ChainEnd(e: Option<Node>): (last: Option<Node>)
    ensures last == Follow(e, ChainDepth(e))
  {
    if IsMemberAccess(e) then ChainEnd(e.value.expression) else e
  }

  /** The test after the inner loop: deep enough, and ending on an identifier. */
  predicate CallMatches(call: Node, minDepth: int)
    requires call.FunctionCall?
  {
    ChainDepth(call.expression) >= minDepth && IsIdentifier(ChainEnd(call.expression))
  }

  /** The outer `for` loop with its early `return True`. */
  function AnyCallMatches(calls: seq<Node>, minDepth: int): (found: bool)
    requires forall c :: c in calls ==> c.FunctionCall?
    ensures found <==> exists c :: c in calls && CallMatches(c, minDepth)
  {
    if calls == [] then false
    else CallMatches(calls[0], minDepth) || AnyCallMatches(calls[1..], minDepth)
  }

  /**
   * The pattern, stated without the loop: a call whose callee starts a run of
   * at least `minDepth` member accesses whose next node is an identifier.
   */
  ghost predicate ChainedCall(call: Node, minDepth: int) {
    && call.FunctionCall?
    && exists k: nat :: k >= minDepth && IsRun(call.expression, k) && IsIdentifier(Follow(call.expression, k))
  }

  predicate IsIdentifier(e: Option<Node>) {
    e.Some? && e.value.Identifier?
  }

  /** A run that ends on a node that is not a member access has exactly the length the loop counts. */
  lemma RunLengthIsDepth(e: Option<Node>, k: nat)
    requires IsRun(e, k) && !IsMemberAccess(Follow(e, k))
    ensures k == ChainDepth(e)
  {
    // ChainDepth's own contract pins the run length: a shorter k would leave a
    // member access at Follow(e, k), a longer one would pass a non-member-access.
  }

  /** The loop's test is the pattern. */
  lemma CallMatchesIsChainedCall(call: Node, minDepth: int)
    requires call.FunctionCall?
    ensures CallMatches(call, minDepth) <==> ChainedCall(call, minDepth)
  {
    var e := call.expression;
    if ChainedCall(call, minDepth) {
      var k: nat :| k >= minDepth && IsRun(e, k) && IsIdentifier(Follow(e, k));
      RunLengthIsDepth(e, k);
    }
  }

  /**
   * `has_chained_member_access(root, min_depth)`: true exactly when some
   * function call in the tree matches the pattern.
   */
  function HasChainedMemberAccess(root: Node, minDepth: int := DefaultMinDepth): (found: bool)
    ensures found <==> exists c :: IsSubterm(c, root) && ChainedCall(c, minDepth)
  {
    var calls := FindCalls(root);
    var r := AnyCallMatches(calls, minDepth);
    assert r <==> exists c :: IsSubterm(c, root) && ChainedCall(c, minDepth) by {
      forall c | c in calls
        ensures CallMatches(c, minDepth) <==> ChainedCall(c, minDepth)
      {
        CallMatchesIsChainedCall(c, minDepth);
      }
      forall c | IsSubterm(c, root) && ChainedCall(c, minDepth)
        ensures c in calls
      {
      }
    }
    r
  }

  /** Lowering `minDepth` never turns a match into a miss. */
  lemma Monotone(root: Node, minDepth: int, lower: int)
    requires lower <= minDepth && HasChainedMemberAccess(root, minDepth)
    ensures HasChainedMemberAccess(root, lower)
  {
    var c :| IsSubterm(c, root) && ChainedCall(c, minDepth);
    assert ChainedCall(c, lower);
  }

  /** A tree without function calls never matches. */
  lemma NoCallNoMatch(root: Node, minDepth: int)
    requires forall c :: IsSubterm(c, root) ==> !c.FunctionCall?
    ensures !HasChainedMemberAccess(root, minDepth)
  {
  }

  /** A call whose chain stops on a missing expression or on anything but an identifier never matches, whatever its depth. */
  lemma NonIdentifierEndNeverMatches(call: Node, minDepth: int)
    requires call.FunctionCall? && !IsIdentifier(ChainEnd(call.expression))
    ensures !ChainedCall(call, minDepth)
  {
    CallMatchesIsChainedCall(call, minDepth);
  }

  /** `base.n1.n2...`: member accesses named by `names`, innermost first, on top of `base`. */
  function Chain(base: Option<Node>, names: seq<string>): Option<Node>
    decreases |names|
  {
    if names == [] then base
    else Some(MemberAccess(Chain(base, names[..|names| - 1]), names[|names| - 1]))
  }

  lemma {:induction false} ChainShape(base: Option<Node>, names: seq<string>)
    requires !IsMemberAccess(base)
    ensures ChainDepth(Chain(base, names)) == |names|
    ensures ChainEnd(Chain(base, names)) == base
    ensures OptCalls(Chain(base, names)) == OptCalls(base)
    decreases |names|
  {
    if names != [] {
      ChainShape(base, names[..|names| - 1]);
    }
  }

  /** `x.n1...nd()` matches at depth `d` but not at `d + 1`. */
  lemma {:induction false} DepthBoundary(x: string, names: seq<string>)
    ensures HasChainedMemberAccess(FunctionCall(Chain(Some(Identifier(x)), names), []), |names|)
    ensures !HasChainedMemberAccess(FunctionCall(Chain(Some(Identifier(x)), names), []), |names| + 1)
  {
    var call := FunctionCall(Chain(Some(Identifier(x)), names), []);
    ChainShape(Some(Identifier(x)), names);
    assert FindCalls(call) == [call];
  }

  /**
   * `f().n1...nd()`: the outer chain bottoms out on a call, not on a name, so
   * only the inner `f()` can match, with its empty run of member accesses.
   * The tree therefore matches exactly when `minDepth <= 0`.
   */
  lemma {:induction false} CallTerminatedChain(f: string, names: seq<string>, minDepth: int)
    ensures HasChainedMemberAccess(FunctionCall(Chain(Some(FunctionCall(Some(Identifier(f)), [])), names), []), minDepth)
      <==> minDepth <= 0
  {
    var inner := FunctionCall(Some(Identifier(f)), []);
    var call := FunctionCall(Chain(Some(inner), names), []);
    ChainShape(Some(inner), names);
    assert FindCalls(Identifier(f)) == [];
    assert FindCalls(inner) == [inner] + OptCalls(Some(Identifier(f))) + SeqCalls([]);
    assert FindCalls(call) == [call, inner];
  }

  /** With the default `min_depth` of 2, `a.b.c()` matches and `b.c()` does not. */
  lemma DefaultDepthExamples(a: string, b: string, c: string)
    ensures HasChainedMemberAccess(FunctionCall(Chain(Some(Identifier(a)), [b, c]), []))
    ensures !HasChainedMemberAccess(FunctionCall(Chain(Some(Identifier(b)), [c]), []))
  {
    DepthBoundary(a, [b, c]);
    DepthBoundary(b, [c]);
  }
}
