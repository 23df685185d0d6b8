/**
 * The editor object `App` (src/main.rs:114-331): its fields are updated in
 * place, one key press at a time, by HandleKey, the body of the loop in
 * `App::run`. Every state-changing method is proved to move the object
 * exactly as the functions of EditorSpec move its value.
 */
module Editor {
  import opened Wrappers
  import opened FsmState
  import opened Markers
  import opened EditorSpec

  /** `iter().position(|s| Rc::ptr_eq(s, &state))` on a vector that holds `id`. */
  method Position(s: seq<NodeId>, id: NodeId) returns (i: nat)
    requires id in s
    ensures i < |s| && s[i] == id
    ensures forall k :: 0 <= k < i ==> s[k] != id
  {
    i := 0;
    while s[i] != id
      invariant i < |s| && id in s[i..]
      invariant forall k :: 0 <= k < i ==> s[k] != id
      decreases |s| - i
    {
      assert s[i..] == [s[i]] + s[i + 1..];
      i := i + 1;
    }
  }

  /** The first index holding an element is the one IndexOf names. */
  lemma FirstIndexIsIndexOf(s: seq<NodeId>, id: NodeId, i: nat)
    requires i < |s| && s[i] == id
    requires forall k :: 0 <= k < i ==> s[k] != id
    ensures i == IndexOf(s, id)
  {
    var j := IndexOf(s, id);
    assert forall k :: 0 <= k < j ==> s[..j][k] == s[k];
  }

  /**
   * `next_states.retain(..)` with the toggle's predicate: keep every
   * reference that does not upgrade to `target`, in order.
   */
  method RetainRefs(refs: seq<NodeId>, target: NodeId, live: seq<NodeId>) returns (kept: seq<NodeId>)
    ensures kept == Retained(refs, target, live)
  {
    kept := [];
    for k := 0 to |refs|
      invariant kept == Retained(refs[..k], target, live)
    {
      assert refs[..k + 1][..k] == refs[..k];
      if !(refs[k] in live && refs[k] == target) {
        kept := kept + [refs[k]];
      }
    }
    assert refs[..|refs|] == refs;
  }

  class App {
    var nodes: map<NodeId, Node>
    var states: seq<NodeId>
    var selectedState: Option<NodeId>
    var secondarySelectedState: Option<NodeId>
    var newStateName: Option<string>
    var marker: Marker
    var nextId: nat

    /** The object's value. */
    ghost function Snapshot(): Editor
      reads this
    {
      Editor(nodes, states, selectedState, secondarySelectedState, newStateName, marker, nextId)
    }

    ghost predicate Valid()
      reads this
    {
      Wf(Snapshot())
    }

    /** `App::new`. */
    constructor ()
      ensures Valid() && Snapshot() == Initial()
    {
      nodes := map[];
      states := [];
      selectedState := None;
      secondarySelectedState := None;
      newStateName := None;
      marker := Braille;
      nextId := 0;
    }

    /**
     * Handle one key press; the result says whether the run loop goes on.
     */
    method HandleKey(key: Key) returns (keepRunning: bool)
      requires Valid()
      modifies this
      ensures Valid()
      ensures Snapshot() == Step(old(Snapshot()), key).editor
      ensures keepRunning == Step(old(Snapshot()), key).keepRunning
    {
      ghost var before := Snapshot();
      StepPreservesWf(before, key);
      keepRunning := true;
      if newStateName.Some? {
        var buffer := newStateName.value;
        match key {
          case Char(c) =>
            newStateName := Some(buffer + [c]);
          case Backspace =>
            if buffer != [] {
              newStateName := Some(buffer[..|buffer| - 1]);
            }
          case Enter =>
            CommitNewState();
          case Esc =>
            newStateName := None;
          case _ =>
        }
        return;
      }
      match key {
        case Char(c) =>
          if c == 'q' {
            keepRunning := false;
          } else if c == 's' {
            secondarySelectedState := selectedState;
            selectedState := None;
          } else if c == 'c' {
            ToggleConnection();
          } else if c == 'd' {
            DeleteSelected();
          } else if c == 'n' {
            newStateName := Some([]);
          } else if c == 'm' {
            marker := NextMarker(marker);
          }
        case Tab =>
          SelectNext();
        case Esc =>
          selectedState := None;
          secondarySelectedState := None;
        case Left =>
          MoveSelected(-MoveStep, 0);
        case Right =>
          MoveSelected(MoveStep, 0);
        case Up =>
          MoveSelected(0, MoveStep);
        case Down =>
          MoveSelected(0, -MoveStep);
        case _ =>
      }
    }

    /** Enter in naming mode: take the buffer and push a fresh node. */
    method CommitNewState()
      requires Valid() && newStateName.Some?
      modifies this
      ensures Snapshot() == Commit(old(Snapshot()), old(newStateName).value)
    {
      var name := newStateName.value;
      newStateName := None;
      var id := nextId;
      nextId := nextId + 1;
      nodes := nodes[id := Node(SpawnX, SpawnY, name, [])];
      selectedState := Some(id);
      states := states + [id];
    }

    /** `c`: toggle the edge from the secondary node to the primary one. */
    method ToggleConnection()
      requires Valid()
      modifies this
      ensures Snapshot() == Connect(old(Snapshot()))
    {
      if selectedState.Some? && selectedState.value in states
        && secondarySelectedState.Some? && secondarySelectedState.value in states
      {
        var selected := selectedState.value;
        var secondary := secondarySelectedState.value;
        var node := nodes[secondary];
        var oldSecondaryNextCount := |node.nextStates|;
        var refs := RetainRefs(node.nextStates, selected, states);
        if oldSecondaryNextCount == |refs| {
          refs := refs + [selected];
        }
        nodes := nodes[secondary := node.(nextStates := refs)];
        selectedState := None;
        secondarySelectedState := None;
      }
    }

    /** `d`: `swap_remove` the primary node from the vector. */
    method DeleteSelected()
      requires Valid()
      modifies this
      ensures Snapshot() == Delete(old(Snapshot()))
    {
      if selectedState.Some? && selectedState.value in states {
        var state := selectedState.value;
        var index := Position(states, state);
        FirstIndexIsIndexOf(states, state, index);
        var last := |states| - 1;
        states := states[index := states[last]];
        states := states[..last];
        nodes := nodes - {state};
      }
    }

    /** Tab: select the node after the primary one, wrapping, or the first. */
    method SelectNext()
      requires Valid()
      modifies this
      ensures Snapshot() == TabSelect(old(Snapshot()))
    {
      if selectedState.Some? && selectedState.value in states {
        var index := Position(states, selectedState.value);
        FirstIndexIsIndexOf(states, selectedState.value, index);
        if index + 1 < |states| {
          selectedState := Some(states[index + 1]);
        } else {
          selectedState := Some(states[0]);
        }
      } else if |states| > 0 {
        selectedState := Some(states[0]);
      }
    }

    /** An arrow key: shift the primary node. */
    method MoveSelected(dx: int, dy: int)
      requires Valid()
      modifies this
      ensures Snapshot() == Move(old(Snapshot()), dx, dy)
    {
      if selectedState.Some? && selectedState.value in states {
        var selected := selectedState.value;
        var node := nodes[selected];
        nodes := nodes[selected := node.(x := node.x + dx, y := node.y + dy)];
      }
    }

    /**
     * `App::run` fed a stream of key presses: handle them in order until one
     * ends the loop. The result is false when `q` ended it.
     */
    method Run(keys: seq<Key>) returns (keepRunning: bool)
      requires Valid()
      modifies this
      ensures Valid()
      ensures Snapshot() == Replay(old(Snapshot()), keys).editor
      ensures keepRunning == Replay(old(Snapshot()), keys).keepRunning
    {
      ghost var start := Snapshot();
      keepRunning := true;
      var i := 0;
      while i < |keys|
        invariant 0 <= i <= |keys|
        invariant Valid()
        invariant Replay(start, keys) == Replay(Snapshot(), keys[i..])
        decreases |keys| - i
      {
        keepRunning := HandleKey(keys[i]);
        if !keepRunning {
          return;
        }
        i := i + 1;
      }
    }

    /** One frame of the canvas: every node in vector order, then the name prompt. */
    method Paint() returns (shapes: seq<Shape>)
      requires Valid()
      ensures shapes == Frame(Snapshot())
    {
      shapes := [];
      for k := 0 to |states|
        invariant shapes == NodesShapes(Snapshot(), states[..k])
      {
        assert states[..k + 1][..k] == states[..k];
        var id := states[k];
        var colour := NodeColour(Editor(nodes, states, selectedState, secondarySelectedState,
                                        newStateName, marker, nextId), id);
        var drawn := DrawNode(id, nodes[id], colour, states);
        shapes := shapes + drawn;
      }
      assert states[..|states|] == states;
      if newStateName.Some? {
        shapes := shapes + [Prompt(newStateName.value)];
      }
    }
  }
}
