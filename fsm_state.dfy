/**
 * One FSM state of the diagram (the `FSMState` struct of src/main.rs):
 * its radius, the edge-toggling rule applied to its outgoing list, and the
 * drawing of its live edges and its circle.
 *
 * Nodes live in an arena: a node is named by a `NodeId`, and a weak
 * reference is the id of its target. A reference "upgrades" exactly when
 * its id is still among the live ids (the `states` list of the editor).
 */
module FsmState {

  /** The identity of a node; `Rc::ptr_eq` on two nodes is equality of ids. */
  type NodeId = nat

  /** Canvas position, display name and outgoing weak references of a node. */
  datatype Node = Node(x: int, y: int, name: string, nextStates: seq<NodeId>)

  /** Circle colours of the canvas. */
  datatype Colour = Yellow | Cyan | White

  /** What the canvas is asked to draw, in order. */
  datatype Shape =
    | Arrow(from: NodeId, to: NodeId)
    | Circle(node: NodeId, x: int, y: int, radius: int, colour: Colour)
    | Prompt(text: string)

  // ---------------------------------------------------------------------
  // Radius
  // ---------------------------------------------------------------------

  /** Number of bytes the UTF-8 encoding of `c` takes. */
  function Utf8Width(c: char): (w: nat)
    ensures 1 <= w <= 4
    ensures w == 1 <==> c as int < 0x80
  {
    if c as int < 0x80 then 1
    else if c as int < 0x800 then 2
    else if c as int < 0x1_0000 then 3
    else 4
  }

  /** Byte length of a string, which is what Rust's `String::len` returns. */
  function ByteLen(s: string): (n: nat)
    ensures |s| <= n <= 4 * |s|
  {
    if s == [] then 0 else ByteLen(s[..|s| - 1]) + Utf8Width(s[|s| - 1])
  }

  /** Byte length adds up over concatenation. */
  lemma {:induction false} ByteLenConcat(a: string, b: string)
    ensures ByteLen(a + b) == ByteLen(a) + ByteLen(b)
  {
    if b != [] {
      assert (a + b)[..|a + b| - 1] == a + b[..|b| - 1];
      ByteLenConcat(a, b[..|b| - 1]);
    } else {
      assert a + b == a;
    }
  }

  /** For a name made of ASCII characters the byte length is the character count. */
  lemma {:induction false} ByteLenAscii(s: string)
    requires forall k :: 0 <= k < |s| ==> s[k] as int < 0x80
    ensures ByteLen(s) == |s|
  {
    if s != [] {
      ByteLenAscii(s[..|s| - 1]);
    }
  }

  /**
   * The radius of the circle drawn for a node with this name: the larger of
   * twice the name's byte length plus five, and ten.
   */
  function CircleRadius(name: string): (r: int)
    ensures r >= 10 && r >= 2 * ByteLen(name) + 5
    ensures r == 10 || r == 2 * ByteLen(name) + 5
  {
    var grown := 2 * ByteLen(name) + 5;
    if grown > 10 then grown else 10
  }

  /** A longer name never gets a smaller circle. */
  lemma CircleRadiusMonotone(a: string, b: string)
    requires ByteLen(a) <= ByteLen(b)
    ensures CircleRadius(a) <= CircleRadius(b)
  {
  }

  /** Extending a name never shrinks its circle. */
  lemma CircleRadiusGrowsWithName(a: string, b: string)
    ensures CircleRadius(a) <= CircleRadius(a + b)
  {
    ByteLenConcat(a, b);
  }

  // ---------------------------------------------------------------------
  // The outgoing list and the toggle-connect rule
  // ---------------------------------------------------------------------

  /** A reference that upgrades: its id is live. */
  predicate IsLive(r: NodeId, live: seq<NodeId>)
  {
    r in live
  }

  /** The set of nodes a list of references reaches through live references. */
  ghost function LiveTargetSet(refs: seq<NodeId>, live: seq<NodeId>): set<NodeId>
  {
    set r | r in refs && IsLive(r, live)
  }

  /** No two live references in the list reach the same node. */
  ghost predicate NoDuplicateLive(refs: seq<NodeId>, live: seq<NodeId>)
  {
    forall r :: IsLive(r, live) ==> multiset(refs)[r] <= 1
  }

  /**
   * The `retain` predicate of the toggle: a reference is dropped exactly when
   * it upgrades to `target`; dead references are always kept.
   */
  predicate KeepsRef(r: NodeId, target: NodeId, live: seq<NodeId>)
  {
    !(IsLive(r, live) && r == target)
  }

  /** The outgoing list after `retain` with KeepsRef, order preserved. */
  function Retained(refs: seq<NodeId>, target: NodeId, live: seq<NodeId>): (kept: seq<NodeId>)
    ensures |kept| <= |refs|
    ensures forall r :: multiset(kept)[r] == if KeepsRef(r, target, live) then multiset(refs)[r] else 0
  {
    if refs == [] then []
    else
      var last := refs[|refs| - 1];
      assert refs == refs[..|refs| - 1] + [last];
      var init := Retained(refs[..|refs| - 1], target, live);
      if KeepsRef(last, target, live) then init + [last] else init
  }

  /** Nothing is dropped exactly when no reference upgrades to the target. */
  lemma {:induction false} RetainedLength(refs: seq<NodeId>, target: NodeId, live: seq<NodeId>)
    ensures |Retained(refs, target, live)| == |refs| <==> !(IsLive(target, live) && target in refs)
    ensures !(IsLive(target, live) && target in refs) ==> Retained(refs, target, live) == refs
  {
    if refs != [] {
      var init := refs[..|refs| - 1];
      assert refs == init + [refs[|refs| - 1]];
      RetainedLength(init, target, live);
      assert |Retained(init, target, live)| <= |init|;
    }
  }

  /**
   * The outgoing list after toggle-connect (src/main.rs:179-196): retain the
   * references that do not upgrade to `target`, and push one reference to
   * `target` when the retain removed nothing.
   */
  function Toggled(refs: seq<NodeId>, target: NodeId, live: seq<NodeId>): (r: seq<NodeId>)
  {
    var kept := Retained(refs, target, live);
    if |kept| == |refs| then kept + [target] else kept
  }

  /**
   * What the toggle does to the list: when a live reference to the target was
   * present, every one of them goes and nothing else does; otherwise the list
   * is kept and exactly one reference is appended.
   */
  lemma ToggledEffect(refs: seq<NodeId>, target: NodeId, live: seq<NodeId>)
    requires IsLive(target, live)
    ensures target in refs ==> Toggled(refs, target, live) == Retained(refs, target, live)
    ensures target in refs ==> target !in Toggled(refs, target, live)
    ensures target !in refs ==> Toggled(refs, target, live) == refs + [target]
    ensures forall r :: r in refs && r != target ==> r in Toggled(refs, target, live)
    ensures forall r :: r in Toggled(refs, target, live) ==> r in refs || r == target
  {
    RetainedLength(refs, target, live);
    var t: seq<NodeId> := Toggled(refs, target, live);
    forall r | r in refs && r != target
      ensures r in t
    {
      assert multiset(Retained(refs, target, live))[r] == multiset(refs)[r];
    }
    forall r | r in t
      ensures r in refs || r == target
    {
      if target in refs {
        assert multiset(t)[r] > 0;
      }
    }
    if target in refs {
      assert multiset(t)[target] == 0;
    }
  }

  /** Toggling flips membership of the target in the set of live targets. */
  lemma ToggledLiveTargets(refs: seq<NodeId>, target: NodeId, live: seq<NodeId>)
    requires IsLive(target, live)
    ensures LiveTargetSet(Toggled(refs, target, live), live)
         == if target in refs then LiveTargetSet(refs, live) - {target}
            else LiveTargetSet(refs, live) + {target}
  {
    ToggledEffect(refs, target, live);
  }

  /** Toggle-connect keeps the outgoing list free of duplicate live references. */
  lemma ToggledNoDuplicateLive(refs: seq<NodeId>, target: NodeId, live: seq<NodeId>)
    requires IsLive(target, live)
    requires NoDuplicateLive(refs, live)
    ensures NoDuplicateLive(Toggled(refs, target, live), live)
  {
    RetainedLength(refs, target, live);
    ToggledEffect(refs, target, live);
    if target !in refs {
      assert multiset(refs)[target] == 0;
    }
  }

  /**
   * Toggling the same pair twice restores the set of live targets; when the
   * pair started unconnected it restores the list itself.
   */
  lemma ToggledTwice(refs: seq<NodeId>, target: NodeId, live: seq<NodeId>)
    requires IsLive(target, live)
    ensures LiveTargetSet(Toggled(Toggled(refs, target, live), target, live), live)
         == LiveTargetSet(refs, live)
    ensures target !in refs ==> Toggled(Toggled(refs, target, live), target, live) == refs
  {
    var once := Toggled(refs, target, live);
    ToggledLiveTargets(refs, target, live);
    ToggledLiveTargets(once, target, live);
    ToggledEffect(refs, target, live);
    ToggledEffect(once, target, live);
    if target in refs {
      assert target !in once;
    } else {
      assert once == refs + [target];
      assert target in once;
      assert Retained(once, target, live) == Retained(refs, target, live);
      RetainedLength(refs, target, live);
    }
  }

  /** Fewer live nodes cannot create duplicate live references. */
  lemma NoDuplicateLiveShrink(refs: seq<NodeId>, live: seq<NodeId>, live': seq<NodeId>)
    requires NoDuplicateLive(refs, live)
    requires forall r :: r in refs && IsLive(r, live') ==> IsLive(r, live)
    ensures NoDuplicateLive(refs, live')
  {
  }

  // ---------------------------------------------------------------------
  // Drawing (src/main.rs:50-111, geometry left out)
  // ---------------------------------------------------------------------

  /**
   * The arrows drawn for a node's outgoing list: one per reference that
   * upgrades, in list order; dead references are skipped.
   */
  function EdgeArrows(from: NodeId, refs: seq<NodeId>, live: seq<NodeId>): (arrows: seq<Shape>)
    ensures |arrows| <= |refs|
    ensures forall s :: s in arrows ==> s.Arrow? && s.from == from && s.to in refs && IsLive(s.to, live)
  {
    if refs == [] then []
    else
      var last := refs[|refs| - 1];
      EdgeArrows(from, refs[..|refs| - 1], live) + if IsLive(last, live) then [Arrow(from, last)] else []
  }

  /** Each reference is drawn as many times as it occurs, if it is live, and never if it is dead. */
  lemma {:induction false} EdgeArrowsCount(from: NodeId, refs: seq<NodeId>, live: seq<NodeId>, r: NodeId)
    ensures multiset(EdgeArrows(from, refs, live))[Arrow(from, r)]
         == if IsLive(r, live) then multiset(refs)[r] else 0
  {
    if refs != [] {
      var init := refs[..|refs| - 1];
      assert refs == init + [refs[|refs| - 1]];
      EdgeArrowsCount(from, init, live, r);
    }
  }

  /** With no duplicate live references, every live target gets exactly one arrow. */
  lemma EdgeArrowsOncePerTarget(from: NodeId, refs: seq<NodeId>, live: seq<NodeId>, r: NodeId)
    requires NoDuplicateLive(refs, live)
    requires r in refs && IsLive(r, live)
    ensures multiset(EdgeArrows(from, refs, live))[Arrow(from, r)] == 1
  {
    EdgeArrowsCount(from, refs, live, r);
  }

  /** The shapes `FSMState::draw` emits: its live edges, then its circle. */
  function NodeShapes(id: NodeId, node: Node, colour: Colour, live: seq<NodeId>): seq<Shape>
  {
    EdgeArrows(id, node.nextStates, live)
      + [Circle(id, node.x, node.y, CircleRadius(node.name), colour)]
  }

  /**
   * Draw one node: walk its outgoing list, emit an arrow for each reference
   * that upgrades, then the circle in the given colour.
   */
  method DrawNode(id: NodeId, node: Node, colour: Colour, live: seq<NodeId>) returns (shapes: seq<Shape>)
    ensures shapes == NodeShapes(id, node, colour, live)
  {
    shapes := [];
    var refs := node.nextStates;
    for k := 0 to |refs|
      invariant shapes == EdgeArrows(id, refs[..k], live)
    {
      assert refs[..k + 1][..k] == refs[..k];
      if refs[k] in live {
        shapes := shapes + [Arrow(id, refs[k])];
      }
    }
    assert refs[..|refs|] == refs;
    shapes := shapes + [Circle(id, node.x, node.y, CircleRadius(node.name), colour)];
  }
}
