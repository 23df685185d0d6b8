/**
 * The editor state of `App` (src/main.rs:114-131) as a value, and the
 * effect of one key press on it (the body of the loop in `App::run`,
 * src/main.rs:139-269). The class in module Editor updates the same
 * state in place and is proved to follow these functions.
 */
module EditorSpec {
  import opened Wrappers
  import opened FsmState
  import opened Markers

  /** The key codes the handler distinguishes; `Other` is every other key. */
  datatype Key = Char(c: char) | Backspace | Enter | Esc | Tab | Left | Right | Up | Down | Other

  /**
   * The fields of `App`. `nodes` and `states` together play the part of the
   * `Vec<Rc<..>>`: `states` is the vector's order, `nodes` what each entry
   * holds. A weak handle is an `Option<NodeId>`; `Weak::new()` is `None`.
   * `newStateName` being `Some` is naming mode. `nextId` is the id the next
   * node gets; ids are never handed out twice.
   */
  datatype Editor = Editor(
    nodes: map<NodeId, Node>,
    states: seq<NodeId>,
    selected: Option<NodeId>,
    secondary: Option<NodeId>,
    newStateName: Option<string>,
    marker: Marker,
    nextId: nat)

  /** The editor after a key, and whether the run loop goes on. */
  datatype Outcome = Outcome(editor: Editor, keepRunning: bool)

  /** Where a new node is placed. */
  const SpawnX: int := 200
  const SpawnY: int := 200
  /** How far one arrow key moves the selected node. */
  const MoveStep: int := 5

  /** `App::new`: no nodes, empty selections, normal mode, Braille markers. */
  function Initial(): (e: Editor)
    ensures Wf(e) && e.states == [] && e.newStateName == None
  {
    Editor(map[], [], None, None, None, Braille, 0)
  }

  /** `upgrade()` on a handle succeeds: the handle names a node still in `states`. */
  predicate Upgrades(h: Option<NodeId>, states: seq<NodeId>)
  {
    h.Some? && h.value in states
  }

  predicate Distinct(s: seq<NodeId>)
  {
    forall i, j :: 0 <= i < j < |s| ==> s[i] != s[j]
  }

  /**
   * The editor's invariant: every node is in the vector once, the arena
   * holds exactly the live nodes, every id stored anywhere was handed out
   * before (so a dead handle never comes back to life, as a `Weak` does not),
   * and no outgoing list holds two live references to one node. The last
   * part is not an `Rc`/`Weak` guarantee: it holds because connecting is
   * retain-then-push (src/main.rs:181-196, `ToggledNoDuplicateLive`).
   */
  ghost predicate Wf(e: Editor)
  {
    && Distinct(e.states)
    && (forall id :: id in e.nodes <==> id in e.states)
    && (forall id :: id in e.states ==> id < e.nextId)
    && (forall id :: id in e.nodes ==> NoDuplicateLive(e.nodes[id].nextStates, e.states))
    && (forall id, r :: id in e.nodes && r in e.nodes[id].nextStates ==> r < e.nextId)
    && (e.selected.Some? ==> e.selected.value < e.nextId)
    && (e.secondary.Some? ==> e.secondary.value < e.nextId)
  }

  // ---------------------------------------------------------------------
  // Sequence helpers for the node vector
  // ---------------------------------------------------------------------

  /** `iter().position(ptr_eq)`: the first index holding `id`. */
  function IndexOf(s: seq<NodeId>, id: NodeId): (i: nat)
    requires id in s
    ensures i < |s| && s[i] == id && id !in s[..i]
  {
    if s[0] == id then 0 else 1 + IndexOf(s[1..], id)
  }

  /** `Vec::swap_remove`: the last element takes the place of the removed one. */
  function SwapRemove(s: seq<NodeId>, i: nat): seq<NodeId>
    requires i < |s|
  {
    s[i := s[|s| - 1]][..|s| - 1]
  }

  /** Size and order effect of `swap_remove`. */
  lemma SwapRemoveShape(s: seq<NodeId>, i: nat)
    requires i < |s|
    ensures |SwapRemove(s, i)| == |s| - 1
    ensures i < |s| - 1 ==> SwapRemove(s, i)[i] == s[|s| - 1]
    ensures forall j :: 0 <= j < |s| - 1 && j != i ==> SwapRemove(s, i)[j] == s[j]
  {
  }

  /** `swap_remove` removes exactly one occurrence of the element at `i`. */
  lemma SwapRemoveMultiset(s: seq<NodeId>, i: nat)
    requires i < |s|
    ensures multiset(SwapRemove(s, i)) == multiset(s) - multiset{s[i]}
  {
    var last := |s| - 1;
    if i == last {
      assert s == SwapRemove(s, i) + [s[i]];
    } else {
      var r := SwapRemove(s, i);
      assert s == s[..i] + [s[i]] + s[i + 1..last] + [s[last]];
      assert r == s[..i] + [s[last]] + s[i + 1..last];
    }
  }

  /** On a vector without repeats, `swap_remove` drops exactly the removed node. */
  lemma SwapRemoveDistinct(s: seq<NodeId>, i: nat)
    requires i < |s| && Distinct(s)
    ensures Distinct(SwapRemove(s, i))
    ensures forall x :: x in SwapRemove(s, i) <==> x in s && x != s[i]
  {
    SwapRemoveMultiset(s, i);
    var r := SwapRemove(s, i);
    forall x
      ensures x in r <==> x in s && x != s[i]
    {
      assert multiset(s)[s[i]] == 1 by { DistinctCount(s, i); }
      assert x in r <==> multiset(r)[x] > 0;
    }
    forall a, b | 0 <= a < b < |r|
      ensures r[a] != r[b]
    {
      if a != i && b != i {
        assert r[a] == s[a] && r[b] == s[b];
      } else if a == i {
        assert r[a] == s[|s| - 1] && r[b] == s[b] && b < |s| - 1;
      } else {
        assert r[b] == s[|s| - 1] && r[a] == s[a] && a < |s| - 1;
      }
    }
  }

  /** In a vector without repeats every element occurs once. */
  lemma {:induction false} DistinctCount(s: seq<NodeId>, i: nat)
    requires i < |s| && Distinct(s)
    ensures multiset(s)[s[i]] == 1
  {
    if |s| > 1 {
      var init := s[..|s| - 1];
      assert s == init + [s[|s| - 1]];
      if i < |s| - 1 {
        DistinctCount(init, i);
        assert s[i] !in [s[|s| - 1]];
      } else {
        assert s[i] !in init by {
          forall k | 0 <= k < |init| ensures init[k] != s[i] { }
        }
      }
    }
  }

  /** The index Tab moves to from index `i` among `n` nodes: the next, or the first. */
  function TabSuccessor(i: nat, n: nat): (j: nat)
    requires i < n
    ensures j < n
  {
    if i + 1 < n then i + 1 else 0
  }

  // ---------------------------------------------------------------------
  // The key handler
  // ---------------------------------------------------------------------

  /**
   * One pass of the run loop with a key press. In naming mode the key goes
   * to the name buffer and the loop always continues; otherwise `q` ends the
   * loop and every other key is a command.
   */
  function Step(e: Editor, key: Key): Outcome
    requires Wf(e)
  {
    match e.newStateName
    case Some(buffer) => Outcome(NamingStep(e, buffer, key), true)
    case None =>
      if key == Char('q') then Outcome(e, false) else Outcome(NormalStep(e, key), true)
  }

  /** A key in naming mode (src/main.rs:140-163). */
  function NamingStep(e: Editor, buffer: string, key: Key): Editor
    requires Wf(e)
  {
    match key
    case Char(c) => e.(newStateName := Some(buffer + [c]))
    case Backspace =>
      if buffer != [] then e.(newStateName := Some(buffer[..|buffer| - 1])) else e
    case Enter => Commit(e, buffer)
    case Esc => e.(newStateName := None)
    case _ => e
  }

  /** Enter in naming mode: a fresh node at the spawn point becomes primary. */
  function Commit(e: Editor, name: string): Editor
  {
    var id := e.nextId;
    e.(nodes := e.nodes[id := Node(SpawnX, SpawnY, name, [])],
       states := e.states + [id],
       selected := Some(id),
       newStateName := None,
       nextId := e.nextId + 1)
  }

  /** A command key in normal mode (src/main.rs:166-269), `q` aside. */
  function NormalStep(e: Editor, key: Key): Editor
    requires Wf(e)
  {
    match key
    case Char(c) =>
      if c == 's' then e.(secondary := e.selected, selected := None)
      else if c == 'c' then Connect(e)
      else if c == 'd' then Delete(e)
      else if c == 'n' then e.(newStateName := Some([]))
      else if c == 'm' then e.(marker := NextMarker(e.marker))
      else e
    case Tab => TabSelect(e)
    case Esc => e.(selected := None, secondary := None)
    case Left => Move(e, -MoveStep, 0)
    case Right => Move(e, MoveStep, 0)
    case Up => Move(e, 0, MoveStep)
    case Down => Move(e, 0, -MoveStep)
    case _ => e
  }

  /**
   * `c`: when both handles upgrade, toggle an edge from the secondary node to
   * the primary one and clear both handles.
   */
  function Connect(e: Editor): Editor
    requires Wf(e)
  {
    if Upgrades(e.selected, e.states) && Upgrades(e.secondary, e.states) then
      var p, s := e.selected.value, e.secondary.value;
      var node := e.nodes[s];
      e.(nodes := e.nodes[s := node.(nextStates := Toggled(node.nextStates, p, e.states))],
         selected := None,
         secondary := None)
    else e
  }

  /**
   * `d`: when the primary handle upgrades, `swap_remove` its node from the
   * vector. The node is dropped, so every handle and reference to it is dead
   * from then on; nothing is pruned eagerly.
   */
  function Delete(e: Editor): Editor
    requires Wf(e)
  {
    if Upgrades(e.selected, e.states) then
      var p := e.selected.value;
      e.(states := SwapRemove(e.states, IndexOf(e.states, p)), nodes := e.nodes - {p})
    else e
  }

  /** Tab: the node after the primary one, wrapping, or the first node. */
  function TabSelect(e: Editor): Editor
  {
    if Upgrades(e.selected, e.states) then
      var i := IndexOf(e.states, e.selected.value);
      e.(selected := Some(e.states[TabSuccessor(i, |e.states|)]))
    else if e.states != [] then e.(selected := Some(e.states[0]))
    else e
  }

  /** An arrow key: shift the primary node, if its handle upgrades. */
  function Move(e: Editor, dx: int, dy: int): Editor
    requires Wf(e)
  {
    if Upgrades(e.selected, e.states) then
      var p := e.selected.value;
      var node := e.nodes[p];
      e.(nodes := e.nodes[p := node.(x := node.x + dx, y := node.y + dy)])
    else e
  }

  /**
   * The run loop fed a stream of key presses: keys are handled in order
   * until one of them ends the loop; the rest are never read.
   */
  function Replay(e: Editor, keys: seq<Key>): Outcome
    requires Wf(e)
    decreases |keys|
  {
    if keys == [] then Outcome(e, true)
    else
      StepPreservesWf(e, keys[0]);
      var o := Step(e, keys[0]);
      if !o.keepRunning then o else Replay(o.editor, keys[1..])
  }

  // ---------------------------------------------------------------------
  // Every key keeps the invariant
  // ---------------------------------------------------------------------

  lemma CommitWf(e: Editor, name: string)
    requires Wf(e)
    ensures Wf(Commit(e, name))
  {
    var e' := Commit(e, name);
    var id := e.nextId;
    assert id !in e.states;
    forall n | n in e'.nodes
      ensures NoDuplicateLive(e'.nodes[n].nextStates, e'.states)
    {
      if n != id {
        var refs := e.nodes[n].nextStates;
        assert id !in refs;
        assert multiset(refs)[id] == 0;
      }
    }
  }

  lemma ConnectWf(e: Editor)
    requires Wf(e)
    ensures Wf(Connect(e))
  {
    if Upgrades(e.selected, e.states) && Upgrades(e.secondary, e.states) {
      var p, s := e.selected.value, e.secondary.value;
      ToggledNoDuplicateLive(e.nodes[s].nextStates, p, e.states);
      ToggledEffect(e.nodes[s].nextStates, p, e.states);
    }
  }

  lemma DeleteWf(e: Editor)
    requires Wf(e)
    ensures Wf(Delete(e))
  {
    if Upgrades(e.selected, e.states) {
      var p := e.selected.value;
      var i := IndexOf(e.states, p);
      SwapRemoveDistinct(e.states, i);
      var e' := Delete(e);
      forall n | n in e'.nodes
        ensures NoDuplicateLive(e'.nodes[n].nextStates, e'.states)
      {
        NoDuplicateLiveShrink(e.nodes[n].nextStates, e.states, e'.states);
      }
    }
  }

  lemma MoveWf(e: Editor, dx: int, dy: int)
    requires Wf(e)
    ensures Wf(Move(e, dx, dy))
  {
  }

  lemma TabSelectWf(e: Editor)
    requires Wf(e)
    ensures Wf(TabSelect(e))
  {
    if Upgrades(e.selected, e.states) {
      var j := TabSuccessor(IndexOf(e.states, e.selected.value), |e.states|);
      assert e.states[j] in e.states;
    } else if e.states != [] {
      assert e.states[0] in e.states;
    }
  }

  /** Changing only the handles, the buffer or the marker keeps the invariant. */
  lemma SameGraphWf(e: Editor, e': Editor)
    requires Wf(e)
    requires e'.nodes == e.nodes && e'.states == e.states && e'.nextId == e.nextId
    requires e'.selected.Some? ==> e'.selected.value < e.nextId
    requires e'.secondary.Some? ==> e'.secondary.value < e.nextId
    ensures Wf(e')
  {
  }

  lemma NamingStepWf(e: Editor, buffer: string, key: Key)
    requires Wf(e)
    ensures Wf(NamingStep(e, buffer, key))
  {
    if key == Enter {
      CommitWf(e, buffer);
    } else {
      SameGraphWf(e, NamingStep(e, buffer, key));
    }
  }

  lemma NormalStepWf(e: Editor, key: Key)
    requires Wf(e)
    ensures Wf(NormalStep(e, key))
  {
    match key
    case Char(c) =>
      if c == 'c' {
        ConnectWf(e);
      } else if c == 'd' {
        DeleteWf(e);
      } else {
        SameGraphWf(e, NormalStep(e, key));
      }
    case Tab => TabSelectWf(e);
    case Left => MoveWf(e, -MoveStep, 0);
    case Right => MoveWf(e, MoveStep, 0);
    case Up => MoveWf(e, 0, MoveStep);
    case Down => MoveWf(e, 0, -MoveStep);
    case _ => SameGraphWf(e, NormalStep(e, key));
  }

  /** No key press breaks the invariant. */
  lemma StepPreservesWf(e: Editor, key: Key)
    requires Wf(e)
    ensures Wf(Step(e, key).editor)
  {
    match e.newStateName
    case Some(buffer) => NamingStepWf(e, buffer, key);
    case None =>
      if key != Char('q') {
        NormalStepWf(e, key);
      }
  }

  // ---------------------------------------------------------------------
  // Rendering policy (src/main.rs:302-330)
  // ---------------------------------------------------------------------

  /** Circle colour of a node: primary wins over secondary, both over default. */
  function NodeColour(e: Editor, id: NodeId): Colour
  {
    if Upgrades(e.selected, e.states) && e.selected.value == id then Yellow
    else if Upgrades(e.secondary, e.states) && e.secondary.value == id then Cyan
    else White
  }

  /** The shapes for the nodes `ids`, in that order. */
  function NodesShapes(e: Editor, ids: seq<NodeId>): seq<Shape>
    requires forall id :: id in ids ==> id in e.nodes
  {
    if ids == [] then []
    else
      var id := ids[|ids| - 1];
      NodesShapes(e, ids[..|ids| - 1]) + NodeShapes(id, e.nodes[id], NodeColour(e, id), e.states)
  }

  /** One frame of the canvas: every node in vector order, then the name being typed. */
  function Frame(e: Editor): seq<Shape>
    requires Wf(e)
  {
    NodesShapes(e, e.states)
      + match e.newStateName case Some(buffer) => [Prompt(buffer)] case None => []
  }
}
