# fsmtui editor core in Dafny

fsmtui is a terminal editor for finite-state-machine diagrams. The user
creates named states (nodes), moves them about a canvas, connects them with
directed arrows and changes the canvas marker style, all from the keyboard.
This project models the editor's core: the `App` object and the key handler
in the loop of `App::run`, the node radius, the circle colour rule and the
rule that arrows to deleted nodes are not drawn.

Files and modules:

- `wrappers.dfy` (`Wrappers`): `Option`, used for weak handles and the name buffer.
- `markers.dfy` (`Markers`): the five marker styles and the `m` command's cycle.
- `fsm_state.dfy` (`FsmState`): a node (`FSMState`), its radius, the
  `retain`-then-`push` toggle of its outgoing list, and drawing one node.
- `editor_spec.dfy` (`EditorSpec`): the editor state as a value `Editor`, its
  invariant `Wf`, and the effect of one key press, `Step`, built from one
  function per command.
- `editor_props.dfy` (`EditorProperties`): what each command does, stated as
  lemmas about `Step`, plus facts about a stream of keys and a drawn frame.
- `app.dfy` (`Editor`): the class `App`, whose fields are updated in place by
  `HandleKey`. Each state-changing method is proved to move the object as
  `Step` moves its value; `Paint` is proved to emit exactly `Frame`.

Encoding. The `Rc<RefCell<FSMState>>` nodes live in an arena. `nodes` maps a
`NodeId` to a node, and `states` is the order of the `Vec`. A `Weak` handle
is an `Option<NodeId>`, and `Weak::new()` is `None`. `upgrade()` succeeds
exactly when the id is still in `states`. `Rc::ptr_eq` is equality of ids.
Ids come from a counter `nextId` that only grows, so a deleted node's id is
never given out again. That is how a dead handle stays dead, as it does in
the source. The invariant `Wf` says four things:

- every node is in `states` once;
- the arena holds exactly the live nodes;
- no outgoing list holds two live references to the same node;
- every stored id is below `nextId`.

`StepPreservesWf` proves that every key press keeps it.

The model follows the code in three places where a looser reading of the
editor's behaviour might differ:

- Delete neither clears the selection handles nor removes references to the
  deleted node from other nodes' lists. Those handles and references simply
  stop upgrading, and drawing skips them.
- Enter leaves naming mode (the buffer becomes `None`). It does not leave an
  empty buffer behind.
- `circle_radius` counts the name's UTF-8 bytes, because `String::len` does,
  not its characters.

## Model

| member | source | states |
|---|---|---|
| Markers.NextMarker | src/main.rs:214-227 | the marker after `m` is one place further along Dot, Block, Bar, Braille, HalfBlock, wrapping to Dot |
| Markers.NextMarkerOrder | src/main.rs:215-227 | the successor of each marker, with HalfBlock followed by Dot |
| Markers.Advance | src/main.rs:214-227 | the marker after k presses of `m`; its facts are `AdvanceIndex` and `AdvanceWrapsAfterFive` |
| Markers.AdvanceIndex | src/main.rs:214-227 | k presses of `m` move k places along the cycle of five |
| Markers.AdvanceWrapsAfterFive | src/main.rs:214-227 | k > 0 presses of `m` return to the starting marker exactly when k is a multiple of five |
| FsmState.Utf8Width | src/main.rs:38 | each character adds between one and four bytes to `String::len`, and exactly one for ASCII |
| FsmState.ByteLen | src/main.rs:38 | the byte length of a name lies between its character count and four times that count |
| FsmState.ByteLenConcat | src/main.rs:38 | byte length adds up over concatenation |
| FsmState.ByteLenAscii | src/main.rs:38 | an ASCII name's byte length equals its character count |
| FsmState.CircleRadius | src/main.rs:37-39 | the radius is at least 10 and at least 2·len+5, and equals one of the two |
| FsmState.CircleRadiusMonotone | src/main.rs:37-39 | a name with more bytes never gets a smaller circle |
| FsmState.CircleRadiusGrowsWithName | src/main.rs:37-39 | extending a name never shrinks its circle |
| FsmState.Retained | src/main.rs:181-187 | after `retain`, each live reference to the target is gone; every other reference keeps its count, dead ones included |
| FsmState.RetainedLength | src/main.rs:179-191 | the retained list has the old length exactly when no reference upgrades to the target, and is then the old list |
| FsmState.Toggled | src/main.rs:179-196 | the outgoing list after toggle-connect: `retain` the references that do not upgrade to the target, then push one when nothing was removed; its facts are the four lemmas below |
| FsmState.ToggledEffect | src/main.rs:179-196 | a toggle that finds a live reference to the target removes all of them; otherwise it appends exactly one; no other reference is lost and none is added |
| FsmState.ToggledLiveTargets | src/main.rs:179-196 | the set of live targets after a toggle is the old set with the target added or removed |
| FsmState.ToggledNoDuplicateLive | src/main.rs:179-196 | a toggle keeps a list free of duplicate live references |
| FsmState.ToggledTwice | src/main.rs:179-196 | two toggles with the same target restore the set of live targets, and restore the list itself when the target was absent |
| FsmState.EdgeArrows | src/main.rs:51-52 | every arrow drawn for a node starts at that node and ends at a live target from its list |
| FsmState.EdgeArrowsCount | src/main.rs:51-52 | a reference is drawn as often as it occurs when live, and never when dead |
| FsmState.EdgeArrowsOncePerTarget | src/main.rs:51-52 | without duplicate live references, each live target gets exactly one arrow |
| FsmState.NodeShapes | src/main.rs:50-104 | the shapes one node draws: its arrows to live targets (`EdgeArrows`), then its circle with `CircleRadius` and the given colour |
| FsmState.DrawNode | src/main.rs:50-104 | the loop over the outgoing list emits that node's arrows in list order, then its circle |
| EditorSpec.Initial | src/main.rs:123-131 | the new editor has no nodes, is in normal mode and satisfies the invariant |
| EditorSpec.IndexOf | src/main.rs:204-208 | `position` gives the first index holding the node; it is defined whenever the handle upgrades, so the `unwrap` cannot fail |
| EditorSpec.SwapRemove | src/main.rs:210 | `Vec::swap_remove`: the last element overwrites index i and the vector is shortened by one; its facts are the three lemmas below |
| EditorSpec.SwapRemoveShape | src/main.rs:210 | `swap_remove` shortens the vector by one, moves the last element into the removed index and leaves the others in place |
| EditorSpec.SwapRemoveMultiset | src/main.rs:210 | `swap_remove` removes exactly one occurrence of the removed element |
| EditorSpec.SwapRemoveDistinct | src/main.rs:210 | on a vector without repeats, `swap_remove` keeps it without repeats and drops exactly the removed node |
| EditorSpec.TabSuccessor | src/main.rs:231-236 | the index Tab moves to is always a valid index |
| EditorSpec.Step | src/main.rs:139-269 | one pass of the run loop: in naming mode the key goes to `NamingStep` and the loop continues; in normal mode `q` ends the loop and any other key goes to `NormalStep`; its facts are `StepPreservesWf`, `QuitsOnlyOnQ` and the command lemmas |
| EditorSpec.NamingStep | src/main.rs:140-163 | a key in naming mode: append a character, drop one on Backspace, commit on Enter, leave on Esc, ignore the rest |
| EditorSpec.Commit | src/main.rs:148-158 | Enter: a fresh node at (200,200) with the buffer as name and no edges is pushed and made primary, and naming mode ends |
| EditorSpec.NormalStep | src/main.rs:166-269 | the command keys `s`, `c`, `d`, `n`, `m`, Tab, Esc and the arrows, each dispatched to its own function; any other key changes nothing |
| EditorSpec.Connect | src/main.rs:174-200 | `c`: when both handles upgrade, the secondary node's list becomes `Toggled` and both handles are cleared; otherwise nothing changes |
| EditorSpec.Delete | src/main.rs:202-211 | `d`: when the primary handle upgrades, its node is `swap_remove`d from the vector at its `position` and dropped from the arena; otherwise nothing changes |
| EditorSpec.TabSelect | src/main.rs:229-243 | Tab: the node after the primary one (the first after the last), or the first node when the primary does not upgrade, or nothing on an empty vector |
| EditorSpec.Move | src/main.rs:248-267 | an arrow key: the primary node's position shifts by (dx, dy) when its handle upgrades |
| EditorSpec.Replay | src/main.rs:133-274 | the run loop over a key stream: `Step` each key in turn until one ends the loop; later keys are not read |
| EditorSpec.CommitWf | src/main.rs:148-158 | creating a node keeps the invariant, because its id is fresh |
| EditorSpec.ConnectWf | src/main.rs:174-200 | toggle-connect keeps the invariant |
| EditorSpec.DeleteWf | src/main.rs:202-211 | delete keeps the invariant |
| EditorSpec.MoveWf | src/main.rs:248-267 | moving a node keeps the invariant |
| EditorSpec.TabSelectWf | src/main.rs:229-243 | Tab keeps the invariant |
| EditorSpec.NamingStepWf | src/main.rs:140-163 | every key in naming mode keeps the invariant |
| EditorSpec.NormalStepWf | src/main.rs:166-269 | every command key in normal mode keeps the invariant |
| EditorSpec.StepPreservesWf | src/main.rs:139-269 | every key press keeps the invariant |
| EditorProperties.NamingModeKeys | src/main.rs:140-163 | in naming mode a character, `q` included, is appended and the loop goes on; Backspace drops the last character or does nothing on an empty buffer; every key but Enter and Esc leaves the rest unchanged |
| EditorProperties.EnterCreatesNode | src/main.rs:148-158 | Enter appends one fresh node at (200,200) with the typed name and no edges, makes it primary, leaves naming mode, and keeps the secondary handle and all other nodes; no older handle or reference comes to resolve to the new node |
| EditorProperties.EscAbortsNaming | src/main.rs:159 | Esc in naming mode only leaves naming mode |
| EditorProperties.QuitCommand | src/main.rs:167-169 | `q` in normal mode ends the loop and changes nothing |
| EditorProperties.StageSecondaryCommand | src/main.rs:170-173 | `s` moves the primary handle, live or dead, into the secondary slot and clears the primary one |
| EditorProperties.NewStateCommand | src/main.rs:213 | `n` enters naming mode with an empty buffer |
| EditorProperties.MarkerCommand | src/main.rs:214-227 | `m` advances the marker and changes nothing else |
| EditorProperties.UnselectCommand | src/main.rs:244-247 | Esc in normal mode clears both handles |
| EditorProperties.QuitsOnlyOnQ | src/main.rs:140-169 | the loop ends exactly on `q` in normal mode |
| EditorProperties.ConnectEffect | src/main.rs:174-200 | `c` does nothing unless both handles upgrade; otherwise it toggles the secondary-to-primary edge, keeps dead references and every other node, and clears both handles |
| EditorProperties.ConnectKeepsNoDuplicateLive | src/main.rs:179-196 | after `c`, no node has two live references to one node |
| EditorProperties.ConnectTwice | src/main.rs:174-200 | pressing `c` again on the same pair restores the live targets, and restores all nodes when the pair started unconnected |
| EditorProperties.ConnectTwiceLists | src/main.rs:174-200 | two `c` presses on the same pair toggle the secondary node's list twice and change no other node |
| EditorProperties.DeleteEffect | src/main.rs:202-211 | `d` with a live primary node shrinks the vector by one in `swap_remove` order and changes nothing but the vector and the arena; afterwards neither handle and no live reference resolves to that node, while a secondary handle on another live node still resolves; without a live primary it does nothing |
| EditorProperties.IndexOfDistinct | src/main.rs:204-208 | in a vector without repeats, `position` finds a node at its own index |
| EditorProperties.TabEffect | src/main.rs:229-243 | Tab selects the node after the primary one, or the first after the last; with no live primary it selects the first node, or does nothing on an empty vector; only the primary handle changes |
| EditorProperties.TabSelectAt | src/main.rs:229-238 | Tab from index j selects the node at j's successor index |
| EditorProperties.TabTimesFromIndex | src/main.rs:229-243 | k ≤ n presses of Tab from index i reach index i+k, wrapped once past the end |
| EditorProperties.TabCyclesThroughAll | src/main.rs:229-243 | Tab visits every node once before it comes back, after exactly n presses |
| EditorProperties.MoveEffect | src/main.rs:248-267 | Left/Right shift the primary node's x by -5/+5 and Up/Down its y by +5/-5; nothing else changes, and without a live primary nothing changes |
| EditorProperties.ReplayWf | src/main.rs:133-274 | every state the run loop reaches satisfies the invariant |
| EditorProperties.ReplayStopsAtQuit | src/main.rs:166-169 | once `q` ends the loop, later keys are never read |
| EditorProperties.NameNode | src/main.rs:140-158 | `n` (line 213), the characters of a name, then Enter create exactly the node `Commit` creates from that name, and the loop goes on |
| EditorProperties.ReplayAppend | src/main.rs:133-274 | running two key streams one after the other is the same as running them joined |
| EditorProperties.TypeName | src/main.rs:140-142 | typing a name into an empty buffer leaves exactly that name in the buffer |
| EditorSpec.NodeColour | src/main.rs:308-319 | the circle colour: Yellow for the live primary node, else Cyan for the live secondary node, else White |
| EditorSpec.NodesShapes | src/main.rs:306-322 | the shapes of the given nodes in order, each drawn by `NodeShapes` in its `NodeColour` |
| EditorSpec.Frame | src/main.rs:302-330 | one canvas frame: every node of the vector in order, then the name prompt when in naming mode |
| EditorProperties.NodeColourRule | src/main.rs:308-319 | a node is Yellow exactly when it is the live primary node, Cyan exactly when it is the live secondary node and not primary, White otherwise |
| EditorProperties.NodesShapesFacts | src/main.rs:306-322 | every drawn shape is an arrow between live nodes or a node's circle with its radius and colour, and every node gets its circle |
| EditorProperties.FrameFacts | src/main.rs:302-330 | a frame draws arrows only between live nodes and every live node's circle in its colour, and shows the name prompt only in naming mode |
| Editor.Position | src/main.rs:204-208 | the loop returns the first index that holds the node |
| Editor.RetainRefs | src/main.rs:181-187 | the loop keeps exactly the references `retain` keeps, in order |
| Editor.App.constructor | src/main.rs:123-131 | the new object is the initial editor and satisfies the invariant |
| Editor.App.HandleKey | src/main.rs:139-269 | one key press moves the object as `Step` moves its value, keeps the invariant, and reports whether the loop goes on |
| Editor.App.CommitNewState | src/main.rs:148-158 | Enter in naming mode, in place |
| Editor.App.ToggleConnection | src/main.rs:174-200 | `c`, in place, with the `retain` loop and the length comparison |
| Editor.App.DeleteSelected | src/main.rs:202-211 | `d`, in place, with the `position` loop and `swap_remove` |
| Editor.App.SelectNext | src/main.rs:229-243 | Tab, in place |
| Editor.App.MoveSelected | src/main.rs:248-267 | arrow keys, in place |
| Editor.App.Run | src/main.rs:133-274 | the loop over a key stream ends in the state and with the verdict `Replay` gives, and keeps the invariant |
| Editor.App.Paint | src/main.rs:302-330 | the paint closure emits exactly the shapes of `Frame` for the current state |

## Left out

- `src/vector2d.rs` is not part of this model. The arrow geometry in
  `FSMState::draw` (src/main.rs:55-101) is left out too: it is floating point
  (`normalized`, `rotate`, `hypot`). An arrow is modelled only by its two end
  nodes.
- The name label (`canvas_ctx.print`, src/main.rs:106-110) is not drawn at
  all: a frame has no shape for it. Its position, the node's position
  shifted by (1 - `name.len()`, -5), is presentation only and is not
  modelled; its text, the node's name, is kept in the node that a `Circle`
  names.
- Terminal plumbing is left out: `ratatui::init`/`restore`, `terminal.draw`,
  `event::poll`/`event::read` with the 50 ms timeout, and the filter for
  key-press events (src/main.rs:22-27, 135-139). `Run` takes the stream of
  key presses that pass that filter. A poll that times out changes nothing
  and is not modelled. The frame drawn before each key is not part of `Run`;
  `Paint` models one frame.
- The `App::draw` layout and help text (src/main.rs:276-300) are left out, as
  are the `Canvas` bounds and the marker handed to it (src/main.rs:303-304,
  328-329).
- `Rc`/`RefCell` reference counting and borrow checking are replaced by the
  arena encoding described above. Memory itself is not modelled.
- Coordinates are integers. The source stores `f64`, but the only values
  involved are 200 and steps of 5, which are exact as long as coordinates
  stay below 2^53 in magnitude; rounding beyond that is not modelled.
- The radius is an integer. `(len * 2) as f64 + 5.0` is exact for any name
  shorter than 2^51 bytes.
- Markers: only the five styles the editor can hold are modelled. ratatui's
  other marker styles are unreachable, because the editor starts at Braille
  and `m` only yields the five listed ones.
- Key codes the handler does not name (function keys, Delete, Home and so on)
  are all `Other`; they behave alike in both modes.
