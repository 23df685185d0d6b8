/**
 * What one key press does to the editor, command by command, and what a
 * stream of key presses and a drawn frame guarantee.
 */
module EditorProperties {
  import opened Wrappers
  import opened FsmState
  import opened Markers
  import opened EditorSpec

  // ---------------------------------------------------------------------
  // Naming mode (src/main.rs:140-163)
  // ---------------------------------------------------------------------

  /**
   * In naming mode a character is appended (`q` included: it does not quit),
   * Backspace drops the last character if there is one, and every key other
   * than Enter and Esc changes nothing else.
   */
  lemma NamingModeKeys(e: Editor, buffer: string, key: Key)
    requires Wf(e) && e.newStateName == Some(buffer)
    ensures Step(e, key).keepRunning
    ensures key.Char? ==> Step(e, key).editor == e.(newStateName := Some(buffer + [key.c]))
    ensures key == Backspace && buffer != [] ==>
      Step(e, key).editor == e.(newStateName := Some(buffer[..|buffer| - 1]))
    ensures key == Backspace && buffer == [] ==> Step(e, key).editor == e
    ensures key in {Tab, Left, Right, Up, Down, Other} ==> Step(e, key).editor == e
  {
  }

  /**
   * Enter in naming mode appends one fresh node to the end of the vector, at
   * the spawn point, with the typed name and no edges; it becomes the primary
   * selection, naming mode ends, and nothing else changes (the secondary
   * handle and every older reference in an outgoing list resolve exactly as
   * before: none of them comes to name the new node).
   */
  lemma EnterCreatesNode(e: Editor, buffer: string)
    requires Wf(e) && e.newStateName == Some(buffer)
    ensures var e' := Step(e, Enter).editor;
      && |e'.states| == |e.states| + 1
      && e'.states[..|e.states|] == e.states
      && var id := e'.states[|e.states|];
      && id !in e.states
      && e'.nodes[id] == Node(SpawnX, SpawnY, buffer, [])
      && (forall n :: n in e.nodes ==> n in e'.nodes && e'.nodes[n] == e.nodes[n])
      && e'.selected == Some(id) && Upgrades(e'.selected, e'.states)
      && e'.secondary == e.secondary
      && (Upgrades(e'.secondary, e'.states) <==> Upgrades(e.secondary, e.states))
      && e'.newStateName == None
      && e'.marker == e.marker
      && (forall n :: n in e.nodes ==>
            LiveTargetSet(e.nodes[n].nextStates, e'.states) == LiveTargetSet(e.nodes[n].nextStates, e.states))
  {
    var e' := Step(e, Enter).editor;
    assert e'.states == e.states + [e.nextId];
  }

  /** Esc in naming mode only leaves naming mode: no node, same selections. */
  lemma EscAbortsNaming(e: Editor, buffer: string)
    requires Wf(e) && e.newStateName == Some(buffer)
    ensures Step(e, Esc) == Outcome(e.(newStateName := None), true)
  {
  }

  // ---------------------------------------------------------------------
  // Normal mode: selection, marker, quitting (src/main.rs:166-247)
  // ---------------------------------------------------------------------

  /** `q` in normal mode ends the loop and changes nothing. */
  lemma QuitCommand(e: Editor)
    requires Wf(e) && e.newStateName == None
    ensures Step(e, Char('q')) == Outcome(e, false)
  {
  }

  /** `s` moves the primary handle, live or not, into the secondary slot and clears the primary one. */
  lemma StageSecondaryCommand(e: Editor)
    requires Wf(e) && e.newStateName == None
    ensures Step(e, Char('s')) == Outcome(e.(secondary := e.selected, selected := None), true)
  {
  }

  /** `n` enters naming mode with an empty buffer. */
  lemma NewStateCommand(e: Editor)
    requires Wf(e) && e.newStateName == None
    ensures Step(e, Char('n')) == Outcome(e.(newStateName := Some([])), true)
  {
  }

  /** `m` advances the marker along its cycle and changes nothing else. */
  lemma MarkerCommand(e: Editor)
    requires Wf(e) && e.newStateName == None
    ensures Step(e, Char('m')) == Outcome(e.(marker := NextMarker(e.marker)), true)
  {
  }

  /** Esc in normal mode clears both handles. */
  lemma UnselectCommand(e: Editor)
    requires Wf(e) && e.newStateName == None
    ensures Step(e, Esc) == Outcome(e.(selected := None, secondary := None), true)
  {
  }

  /** The loop ends on exactly one key: `q` in normal mode. */
  lemma QuitsOnlyOnQ(e: Editor, key: Key)
    requires Wf(e)
    ensures !Step(e, key).keepRunning <==> e.newStateName == None && key == Char('q')
  {
  }

  // ---------------------------------------------------------------------
  // Toggle-connect (src/main.rs:174-200)
  // ---------------------------------------------------------------------

  /**
   * `c` does nothing unless both handles upgrade. Otherwise it removes every
   * live reference from the secondary node to the primary one if there was
   * one, and appends exactly one if there was none; dead references and all
   * other nodes are kept, and both handles are cleared.
   */
  lemma ConnectEffect(e: Editor)
    requires Wf(e) && e.newStateName == None
    ensures !(Upgrades(e.selected, e.states) && Upgrades(e.secondary, e.states)) ==>
      Step(e, Char('c')).editor == e
    ensures Upgrades(e.selected, e.states) && Upgrades(e.secondary, e.states) ==>
      var e' := Step(e, Char('c')).editor;
      var p, s := e.selected.value, e.secondary.value;
      var before, after := e.nodes[s].nextStates, e'.nodes[s].nextStates;
      && e'.selected == None && e'.secondary == None
      && e'.states == e.states && e'.marker == e.marker && e'.newStateName == None
      && e'.nodes.Keys == e.nodes.Keys
      && (forall n :: n in e.nodes && n != s ==> e'.nodes[n] == e.nodes[n])
      && e'.nodes[s] == e.nodes[s].(nextStates := after)
      && (p in before ==> p !in after)
      && (p !in before ==> after == before + [p])
      && (forall r :: r in before && r != p ==> r in after)
      && LiveTargetSet(after, e.states)
         == if p in before then LiveTargetSet(before, e.states) - {p}
            else LiveTargetSet(before, e.states) + {p}
  {
    if Upgrades(e.selected, e.states) && Upgrades(e.secondary, e.states) {
      var p, s := e.selected.value, e.secondary.value;
      ToggledEffect(e.nodes[s].nextStates, p, e.states);
      ToggledLiveTargets(e.nodes[s].nextStates, p, e.states);
    }
  }

  /** Toggle-connect never gives a node two live references to the same node. */
  lemma ConnectKeepsNoDuplicateLive(e: Editor)
    requires Wf(e) && e.newStateName == None
    ensures var e' := Step(e, Char('c')).editor;
      forall n :: n in e'.nodes ==> NoDuplicateLive(e'.nodes[n].nextStates, e'.states)
  {
    ConnectWf(e);
  }

  /**
   * Selecting the same pair again and pressing `c` a second time restores the
   * secondary node's set of live targets, and restores its whole list when
   * the pair started unconnected.
   */
  lemma ConnectTwice(e: Editor)
    requires Wf(e) && e.newStateName == None
    requires Upgrades(e.selected, e.states) && Upgrades(e.secondary, e.states)
    ensures Wf(Reselect(Step(e, Char('c')).editor, e))
    ensures var e2 := Step(Reselect(Step(e, Char('c')).editor, e), Char('c')).editor;
      var s := e.secondary.value;
      && LiveTargetSet(e2.nodes[s].nextStates, e.states) == LiveTargetSet(e.nodes[s].nextStates, e.states)
      && (e.selected.value !in e.nodes[s].nextStates ==> e2.nodes == e.nodes)
  {
    var p, s := e.selected.value, e.secondary.value;
    var before := e.nodes[s].nextStates;
    StepPreservesWf(e, Char('c'));
    var e1 := Step(e, Char('c')).editor;
    ReselectWf(e1, e);
    var again := Reselect(e1, e);
    ConnectTwiceLists(e);
    ToggledTwice(before, p, e.states);
    var e2 := Step(again, Char('c')).editor;
    if p !in before {
      assert e2.nodes[s] == e.nodes[s];
    }
  }

  /** Puts back the two handles of `from`, as selecting the same pair again does. */
  function Reselect(e: Editor, from: Editor): Editor
  {
    e.(selected := from.selected, secondary := from.secondary)
  }

  lemma ReselectWf(e: Editor, from: Editor)
    requires Wf(e) && Wf(from) && from.nextId <= e.nextId
    ensures Wf(Reselect(e, from))
  {
  }

  /** The two presses of `c` toggle the secondary node's list twice and touch nothing else. */
  lemma ConnectTwiceLists(e: Editor)
    requires Wf(e) && e.newStateName == None
    requires Upgrades(e.selected, e.states) && Upgrades(e.secondary, e.states)
    ensures Wf(Reselect(Step(e, Char('c')).editor, e))
    ensures var e2 := Step(Reselect(Step(e, Char('c')).editor, e), Char('c')).editor;
      var p, s := e.selected.value, e.secondary.value;
      && e2.states == e.states
      && e2.nodes == e.nodes[s := e.nodes[s].(nextStates := Toggled(Toggled(e.nodes[s].nextStates, p, e.states), p, e.states))]
  {
    StepPreservesWf(e, Char('c'));
    var e1 := Step(e, Char('c')).editor;
    ReselectWf(e1, e);
  }

  // ---------------------------------------------------------------------
  // Delete (src/main.rs:202-211)
  // ---------------------------------------------------------------------

  /**
   * `d` with a live primary node at index i: the vector loses exactly that
   * node, the last node moves into index i and the others stay put; neither
   * handle resolves to the deleted node any more, and no remaining node has
   * a live reference to it. Handles, marker, mode and the id counter are
   * untouched, so a secondary handle on another live node still resolves.
   * Without a live primary it does nothing.
   */
  lemma DeleteEffect(e: Editor)
    requires Wf(e) && e.newStateName == None
    ensures !Upgrades(e.selected, e.states) ==> Step(e, Char('d')).editor == e
    ensures Upgrades(e.selected, e.states) ==>
      var e' := Step(e, Char('d')).editor;
      var p := e.selected.value;
      var i := IndexOf(e.states, p);
      && |e'.states| == |e.states| - 1
      && (i < |e'.states| ==> e'.states[i] == e.states[|e.states| - 1])
      && (forall j :: 0 <= j < |e'.states| && j != i ==> e'.states[j] == e.states[j])
      && (forall x :: x in e'.states <==> x in e.states && x != p)
      && e'.nodes == e.nodes - {p}
      && e' == e.(states := e'.states, nodes := e'.nodes)
      && (Upgrades(e.secondary, e.states) && e.secondary.value != p ==> Upgrades(e'.secondary, e'.states))
      && !Upgrades(e'.selected, e'.states)
      && !(Upgrades(e'.secondary, e'.states) && e'.secondary.value == p)
      && (forall n :: n in e'.nodes ==> p !in LiveTargetSet(e'.nodes[n].nextStates, e'.states))
  {
    if Upgrades(e.selected, e.states) {
      var i := IndexOf(e.states, e.selected.value);
      SwapRemoveShape(e.states, i);
      SwapRemoveDistinct(e.states, i);
    }
  }

  // ---------------------------------------------------------------------
  // Tab (src/main.rs:229-243)
  // ---------------------------------------------------------------------

  /** In a vector without repeats, the first index of an element is its index. */
  lemma IndexOfDistinct(s: seq<NodeId>, j: nat)
    requires j < |s| && Distinct(s)
    ensures IndexOf(s, s[j]) == j
  {
  }

  /**
   * Tab with a live primary node at index i selects the node at i+1, or the
   * first one from the last index; with no live primary it selects the first
   * node, or does nothing on an empty vector. Only the primary handle moves.
   */
  lemma TabEffect(e: Editor)
    requires Wf(e) && e.newStateName == None
    ensures Step(e, Tab).editor == e.(selected := Step(e, Tab).editor.selected)
    ensures Upgrades(e.selected, e.states) ==>
      var i := IndexOf(e.states, e.selected.value);
      && (i + 1 < |e.states| ==> Step(e, Tab).editor.selected == Some(e.states[i + 1]))
      && (i + 1 == |e.states| ==> Step(e, Tab).editor.selected == Some(e.states[0]))
    ensures !Upgrades(e.selected, e.states) && e.states != [] ==>
      Step(e, Tab).editor.selected == Some(e.states[0])
    ensures !Upgrades(e.selected, e.states) && e.states == [] ==> Step(e, Tab).editor == e
    ensures e.states != [] ==> Upgrades(Step(e, Tab).editor.selected, e.states)
  {
  }

  /** Tab from the node at index j selects the node at the successor index. */
  lemma TabSelectAt(e: Editor, j: nat)
    requires Distinct(e.states) && j < |e.states| && e.selected == Some(e.states[j])
    ensures TabSelect(e).selected == Some(e.states[TabSuccessor(j, |e.states|)])
  {
    IndexOfDistinct(e.states, j);
  }

  /** Pressing Tab k times. */
  function TabTimes(e: Editor, k: nat): (e': Editor)
    ensures e'.states == e.states && e'.nodes == e.nodes
  {
    if k == 0 then e else TabSelect(TabTimes(e, k - 1))
  }

  /**
   * From the node at index i, k <= n presses of Tab reach index i + k,
   * wrapped once past the end of the vector.
   */
  lemma {:induction false} TabTimesFromIndex(e: Editor, i: nat, k: nat)
    requires Distinct(e.states) && i < |e.states| && e.selected == Some(e.states[i])
    requires k <= |e.states|
    ensures TabTimes(e, k).selected
         == Some(e.states[if i + k < |e.states| then i + k else i + k - |e.states|])
  {
    if k > 0 {
      TabTimesFromIndex(e, i, k - 1);
      var n := |e.states|;
      var j := if i + k - 1 < n then i + k - 1 else i + k - 1 - n;
      TabSelectAt(TabTimes(e, k - 1), j);
    }
  }

  /**
   * Tab cycles through the vector: from any node, the next n - 1 presses
   * visit the other n - 1 nodes, each once, and the n-th comes back.
   */
  lemma TabCyclesThroughAll(e: Editor, i: nat, a: nat, b: nat)
    requires Wf(e) && i < |e.states| && e.selected == Some(e.states[i])
    requires a < b <= |e.states|
    ensures TabTimes(e, b).selected == TabTimes(e, a).selected <==> a == 0 && b == |e.states|
  {
    var n := |e.states|;
    TabTimesFromIndex(e, i, a);
    TabTimesFromIndex(e, i, b);
    var x := if i + a < n then i + a else i + a - n;
    var y := if i + b < n then i + b else i + b - n;
    assert TabTimes(e, b).selected == TabTimes(e, a).selected <==> e.states[y] == e.states[x];
    assert x != y ==> e.states[x] != e.states[y];
  }

  // ---------------------------------------------------------------------
  // Arrow keys (src/main.rs:248-267)
  // ---------------------------------------------------------------------

  /**
   * Left/Right shift the primary node's x by -5/+5 and Up/Down its y by
   * +5/-5; no other node and nothing else changes, and without a live
   * primary the key does nothing.
   */
  lemma MoveEffect(e: Editor, key: Key)
    requires Wf(e) && e.newStateName == None
    requires key in {Left, Right, Up, Down}
    ensures !Upgrades(e.selected, e.states) ==> Step(e, key).editor == e
    ensures Upgrades(e.selected, e.states) ==>
      var e' := Step(e, key).editor;
      var p := e.selected.value;
      var dx := if key == Left then -5 else if key == Right then 5 else 0;
      var dy := if key == Up then 5 else if key == Down then -5 else 0;
      && e' == e.(nodes := e'.nodes)
      && e'.nodes.Keys == e.nodes.Keys
      && e'.nodes[p] == e.nodes[p].(x := e.nodes[p].x + dx, y := e.nodes[p].y + dy)
      && (forall n :: n in e.nodes && n != p ==> e'.nodes[n] == e.nodes[n])
  {
  }

  // ---------------------------------------------------------------------
  // The run loop
  // ---------------------------------------------------------------------

  /** Every state the run loop reaches satisfies the invariant. */
  lemma {:induction false} ReplayWf(e: Editor, keys: seq<Key>)
    requires Wf(e)
    ensures Wf(Replay(e, keys).editor)
    decreases |keys|
  {
    if keys != [] {
      StepPreservesWf(e, keys[0]);
      ReplayWf(Step(e, keys[0]).editor, keys[1..]);
    }
  }

  /** Once `q` has ended the loop, later keys are never read. */
  lemma {:induction false} ReplayStopsAtQuit(e: Editor, keys: seq<Key>, more: seq<Key>)
    requires Wf(e)
    requires !Replay(e, keys).keepRunning
    ensures Replay(e, keys + more) == Replay(e, keys)
    decreases |keys|
  {
    assert keys != [];
    StepPreservesWf(e, keys[0]);
    assert (keys + more)[1..] == keys[1..] + more;
    if Step(e, keys[0]).keepRunning {
      ReplayStopsAtQuit(Step(e, keys[0]).editor, keys[1..], more);
    }
  }

  /** Typing a name into the empty buffer of naming mode leaves exactly that name there. */
  lemma {:induction false} TypeName(e: Editor, name: string)
    requires Wf(e) && e.newStateName == Some([])
    ensures Replay(e, seq(|name|, k requires 0 <= k < |name| => Char(name[k])))
         == Outcome(e.(newStateName := Some(name)), true)
  {
    if name != [] {
      var keys := seq(|name|, k requires 0 <= k < |name| => Char(name[k]));
      var init := name[..|name| - 1];
      var initKeys := seq(|init|, k requires 0 <= k < |init| => Char(init[k]));
      assert keys == initKeys + [Char(name[|name| - 1])];
      TypeName(e, init);
      ReplayAppend(e, initKeys, [Char(name[|name| - 1])]);
      assert init + [name[|name| - 1]] == name;
    } else {
      assert seq(|name|, k requires 0 <= k < |name| => Char(name[k])) == [];
    }
  }

  /**
   * Naming a node from normal mode: `n`, the characters of the name, then
   * Enter create exactly the node Enter creates from that name, and the
   * loop goes on.
   */
  lemma NameNode(e: Editor, name: string)
    requires Wf(e) && e.newStateName == None
    ensures var keys := seq(|name|, k requires 0 <= k < |name| => Char(name[k]));
      Replay(e, [Char('n')] + keys + [Enter]) == Outcome(Commit(e, name), true)
  {
    var keys := seq(|name|, k requires 0 <= k < |name| => Char(name[k]));
    var e1 := e.(newStateName := Some([]));
    StepPreservesWf(e, Char('n'));
    assert Replay(e, [Char('n')]) == Outcome(e1, true);
    assert [Char('n')] + keys + [Enter] == [Char('n')] + (keys + [Enter]);
    ReplayAppend(e, [Char('n')], keys + [Enter]);
    TypeName(e1, name);
    ReplayAppend(e1, keys, [Enter]);
    var e2 := e1.(newStateName := Some(name));
    assert Replay(e2, [Enter]) == Outcome(Commit(e2, name), true);
  }

  /** Replaying a concatenation replays the first part, then the second. */
  lemma {:induction false} ReplayAppend(e: Editor, keys: seq<Key>, more: seq<Key>)
    requires Wf(e)
    requires Replay(e, keys).keepRunning
    ensures Wf(Replay(e, keys).editor)
    ensures Replay(e, keys + more) == Replay(Replay(e, keys).editor, more)
    decreases |keys|
  {
    ReplayWf(e, keys);
    if keys != [] {
      StepPreservesWf(e, keys[0]);
      assert (keys + more)[1..] == keys[1..] + more;
      ReplayAppend(Step(e, keys[0]).editor, keys[1..], more);
    } else {
      assert keys + more == more;
    }
  }

  // ---------------------------------------------------------------------
  // What is drawn (src/main.rs:50-52, 302-330)
  // ---------------------------------------------------------------------

  /**
   * Node colours: Yellow exactly for the live primary node, Cyan exactly for
   * the live secondary node when it is not also primary, White otherwise.
   */
  lemma NodeColourRule(e: Editor, id: NodeId)
    ensures NodeColour(e, id) == Yellow <==> Upgrades(e.selected, e.states) && e.selected.value == id
    ensures NodeColour(e, id) == Cyan <==>
      !(Upgrades(e.selected, e.states) && e.selected.value == id)
      && Upgrades(e.secondary, e.states) && e.secondary.value == id
  {
  }

  /**
   * Every shape drawn for the nodes `ids` is an arrow between live nodes, or
   * the circle of one of `ids` with its own radius and selection colour; and
   * each of `ids` gets its circle.
   */
  lemma {:induction false} NodesShapesFacts(e: Editor, ids: seq<NodeId>)
    requires Wf(e)
    requires forall id :: id in ids ==> id in e.nodes
    ensures forall sh :: sh in NodesShapes(e, ids) ==>
      || (sh.Arrow? && sh.from in ids && sh.to in e.states)
      || (sh.Circle? && sh.node in ids
          && sh.radius == CircleRadius(e.nodes[sh.node].name)
          && sh.colour == NodeColour(e, sh.node))
    ensures forall id :: id in ids ==>
      var n := e.nodes[id];
      Circle(id, n.x, n.y, CircleRadius(n.name), NodeColour(e, id)) in NodesShapes(e, ids)
  {
    if ids != [] {
      var init := ids[..|ids| - 1];
      var last := ids[|ids| - 1];
      assert ids == init + [last];
      NodesShapesFacts(e, init);
    }
  }

  /**
   * A frame draws arrows only between live nodes (dead references are
   * skipped), draws every live node's circle in its selection colour, and
   * shows the name being typed only in naming mode.
   */
  lemma FrameFacts(e: Editor)
    requires Wf(e)
    ensures forall sh :: sh in Frame(e) && sh.Arrow? ==> sh.from in e.states && sh.to in e.states
    ensures forall id :: id in e.states ==>
      var n := e.nodes[id];
      Circle(id, n.x, n.y, CircleRadius(n.name), NodeColour(e, id)) in Frame(e)
    ensures forall sh :: sh in Frame(e) && sh.Prompt? ==> e.newStateName == Some(sh.text)
  {
    NodesShapesFacts(e, e.states);
  }
}
