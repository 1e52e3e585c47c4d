/**
 The host-tree primitives toy-react calls on a node: `style[k] = v`, `classList.add(...)`,
 `setAttribute` and `appendChild`. A text node has none of the first three, and cannot take
 children, so each of them fails there.

 Host writes happen in place: when one of a series of writes throws, those before it stay
 made. A `Run` records that, so a caller that keeps the node (a component's `_root`) sees it.
 */
module HostTree {
  import opened Outcomes
  import opened Strings
  import opened Values

  /**
   How a series of writes to one node ends: `Done` with the node it leaves, or `Threw` with the
   fault and the node as the writes before the throw left it.
   */
  datatype Run = Done(node: HostNode) | Threw(node: HostNode, fault: Fault) {

    predicate IsFailure() {
      Threw?
    }

    function PropagateFailure(): Run
      requires Threw?
    {
      this
    }

    function Extract(): HostNode
      requires Done?
    {
      node
    }
  }

  /** A run as its caller sees it when the node is discarded on a throw: the result, or the fault. */
  function Outcome(r: Run): Result<HostNode>
  {
    match r
    case Done(n) => Ok(n)
    case Threw(_, f) => Err(f)
  }

  /** Writing one property of the style map of a node. */
  function SetStyle(node: HostNode, k: string, v: Value): Run
  {
    if node.Text? then Threw(node, NotAnElement) else Done(node.(style := node.style[k := v]))
  }

  /** Setting a plain attribute of a node. */
  function SetAttr(node: HostNode, name: string, v: Value): Run
  {
    if node.Text? then Threw(node, NotAnElement) else Done(node.(attrs := node.attrs[name := v]))
  }

  /** A DOM token must be non-empty and free of ASCII whitespace. */
  predicate ValidToken(t: string)
  {
    t != "" && forall i :: 0 <= i < |t| ==> !IsAsciiSpace(t[i])
  }

  /** The first token `classList.add` would refuse, if any. */
  function FirstInvalid(tokens: seq<string>): (r: Option<string>)
    ensures r.None? <==> forall i :: 0 <= i < |tokens| ==> ValidToken(tokens[i])
    ensures r.Some? ==> r.value in tokens && !ValidToken(r.value)
  {
    if |tokens| == 0 then None
    else if !ValidToken(tokens[0]) then Some(tokens[0])
    else FirstInvalid(tokens[1..])
  }

  /** The distinct tokens of a list. */
  function TokenSet(tokens: seq<string>): set<string>
  {
    set t | t in tokens
  }

  lemma TokenSetConcat(a: seq<string>, b: seq<string>)
    ensures TokenSet(a + b) == TokenSet(a) + TokenSet(b)
  {
  }

  /** `node.classList.add(...tokens)`: all tokens are checked before any is added. */
  function AddClasses(node: HostNode, tokens: seq<string>): Run
  {
    if node.Text? then Threw(node, NotAnElement)
    else match FirstInvalid(tokens)
      case Some(t) => Threw(node, InvalidClassToken(t))
      case None => Done(node.(classes := node.classes + TokenSet(tokens)))
  }

  /** `parent.appendChild(child)` for a child not yet in the tree: it becomes the last child. */
  function AppendHost(parent: HostNode, child: HostNode): Result<HostNode>
  {
    if parent.Text? then Err(NotAContainer) else Ok(parent.(children := parent.children + [child]))
  }
}
