/** The undo tree of TTyUtils-UndoHistory: nested transactions, undo, and redo along any branch. */
module UndoHistory {
  import opened Bytes
  import opened TextBuffer

  datatype Node = Node(before: bytes, after: bytes, parent: nat, children: seq<nat>)

  datatype Checkpoint = Checkpoint(name: bytes, node: nat)

  /** The fields of `History`, and the text of the buffer it watches. */
  datatype State = State(nodes: seq<Node>, current: nat, depth: nat, before: bytes, text: bytes)

  function Initial(text: bytes): State {
    State([Node([], text, 0, [])], 0, 0, [], text)
  }

  // ----- what each operation does

  function Begun(s: State): State {
    if s.depth == 0 then s.(depth := 1, before := s.text) else s.(depth := s.depth + 1)
  }

  function Committed(s: State): State
    requires s.current < |s.nodes|
  {
    if s.depth == 0 then s
    else if s.depth > 1 then s.(depth := s.depth - 1)
    else if s.text == s.before then s.(depth := 0)
    else
      var index := |s.nodes|;
      var parent := s.nodes[s.current];
      var linked := s.nodes[s.current := parent.(children := parent.children + [index])];
      State(linked + [Node(s.before, s.text, s.current, [])], index, 0, [], s.text)
  }

  function Undone(s: State): State
    requires s.current < |s.nodes|
  {
    if s.current == 0 then s
    else s.(text := s.nodes[s.current].before, current := s.nodes[s.current].parent)
  }

  function Redone(s: State, branch: nat): State
    requires Linked(s)
  {
    var children := s.nodes[s.current].children;
    if branch >= |children| then s
    else s.(current := children[branch], text := s.nodes[children[branch]].after)
  }

  /** Every index the operations follow stays inside the node list. */
  predicate Linked(s: State) {
    && s.current < |s.nodes|
    && forall k :: 0 <= k < |s.nodes| ==>
         s.nodes[k].parent < |s.nodes|
         && forall b :: 0 <= b < |s.nodes[k].children| ==> s.nodes[k].children[b] < |s.nodes|
  }

  // ----- the invariant

  /** Node k's parent is older, ends where k begins, and lists k as a child; k changes the text. */
  ghost predicate ChildOk(nodes: seq<Node>, k: nat)
    requires k < |nodes|
  {
    var node := nodes[k];
    && node.parent < k
    && node.before == nodes[node.parent].after
    && node.before != node.after
    && k in nodes[node.parent].children
  }

  /** Node k lists only its own children, oldest first. */
  ghost predicate ParentOk(nodes: seq<Node>, k: nat)
    requires k < |nodes|
  {
    var children := nodes[k].children;
    && (forall b :: 0 <= b < |children| ==> k < children[b] < |nodes| && nodes[children[b]].parent == k)
    && (forall a, b :: 0 <= a < b < |children| ==> children[a] < children[b])
  }

  ghost predicate Tree(nodes: seq<Node>) {
    && nodes != [] && nodes[0].parent == 0
    && (forall k :: 0 < k < |nodes| ==> ChildOk(nodes, k))
    && (forall k :: 0 <= k < |nodes| ==> ParentOk(nodes, k))
  }

  /** The nodes form a tree and the buffer is where the current node, or the open transaction, says. */
  ghost predicate Inv(s: State) {
    && Tree(s.nodes)
    && s.current < |s.nodes|
    && (if s.depth == 0 then s.text else s.before) == s.nodes[s.current].after
  }

  lemma InvLinked(s: State)
    requires Inv(s)
    ensures Linked(s)
  {
    forall k | 0 <= k < |s.nodes|
      ensures s.nodes[k].parent < |s.nodes|
      ensures forall b :: 0 <= b < |s.nodes[k].children| ==> s.nodes[k].children[b] < |s.nodes|
    {
      assert ParentOk(s.nodes, k);
      if k > 0 {
        assert ChildOk(s.nodes, k);
      }
    }
  }

  // ----- runs

  datatype Op = Edit(text: bytes) | Begin | Commit | Undo | Redo(branch: nat)

  /** The discipline: edits happen inside transactions, undo and redo outside. */
  predicate Allowed(s: State, op: Op) {
    match op
    case Edit(_) => s.depth > 0
    case Begin => true
    case Commit => true
    case Undo => s.depth == 0
    case Redo(_) => s.depth == 0
  }

  function Step(s: State, op: Op): State
    requires Linked(s)
  {
    match op
    case Edit(text) => s.(text := text)
    case Begin => Begun(s)
    case Commit => Committed(s)
    case Undo => Undone(s)
    case Redo(branch) => Redone(s, branch)
  }

  /** Node k of the older list is still there; only its list of children may have grown. */
  ghost predicate Keeps(older: seq<Node>, newer: seq<Node>) {
    && |older| <= |newer|
    && forall k :: 0 <= k < |older| ==>
         && newer[k].before == older[k].before && newer[k].after == older[k].after
         && newer[k].parent == older[k].parent && older[k].children <= newer[k].children
  }

  lemma CommitKeepsTree(nodes: seq<Node>, current: nat, before: bytes, text: bytes)
    requires Tree(nodes) && current < |nodes| && before == nodes[current].after && text != before
    ensures var parent := nodes[current];
            var linked := nodes[current := parent.(children := parent.children + [|nodes|])];
            Tree(linked + [Node(before, text, current, [])])
  {
    var parent := nodes[current];
    var linked := nodes[current := parent.(children := parent.children + [|nodes|])];
    var grown := linked + [Node(before, text, current, [])];
    forall k | 0 < k < |grown|
      ensures ChildOk(grown, k)
    {
      if k < |nodes| {
        assert ChildOk(nodes, k);
        var b :| 0 <= b < |nodes[nodes[k].parent].children| && nodes[nodes[k].parent].children[b] == k;
        assert grown[grown[k].parent].children[b] == k;
      } else {
        assert grown[current].children[|parent.children|] == k;
      }
    }
    forall k | 0 <= k < |grown|
      ensures ParentOk(grown, k)
    {
      if k < |nodes| {
        assert ParentOk(nodes, k);
      }
    }
  }

  /** Every allowed step keeps the tree, and loses no node. */
  lemma StepKeepsInv(s: State, op: Op)
    requires Inv(s) && Linked(s) && Allowed(s, op)
    ensures Inv(Step(s, op)) && Keeps(s.nodes, Step(s, op).nodes)
  {
    hide Tree;
    if op.Commit? && s.depth == 1 && s.text != s.before {
      CommitKeepsTree(s.nodes, s.current, s.before, s.text);
    } else if op.Undo? && s.current > 0 {
      UndoTarget(s.nodes, s.current);
    } else if op.Redo? && op.branch < |s.nodes[s.current].children| {
      assert s.nodes[s.current].children[op.branch] < |s.nodes|;
    }
  }

  lemma UndoTarget(nodes: seq<Node>, k: nat)
    requires Tree(nodes) && 0 < k < |nodes|
    ensures nodes[k].parent < k && nodes[k].before == nodes[nodes[k].parent].after
  {
    assert ChildOk(nodes, k);
  }

  ghost predicate AllowedRun(s: State, ops: seq<Op>)
    decreases |ops|
  {
    ops == [] || (Linked(s) && Allowed(s, ops[0]) && AllowedRun(Step(s, ops[0]), ops[1..]))
  }

  ghost function Run(s: State, ops: seq<Op>): State
    requires AllowedRun(s, ops)
    decreases |ops|
  {
    if ops == [] then s else Run(Step(s, ops[0]), ops[1..])
  }

  lemma KeepsTransitive(a: seq<Node>, b: seq<Node>, c: seq<Node>)
    requires Keeps(a, b) && Keeps(b, c)
    ensures Keeps(a, c)
  {
  }

  /** Over every allowed run the nodes stay a tree, and no version is ever lost. */
  lemma {:induction false} RunKeepsInv(s: State, ops: seq<Op>)
    requires Inv(s) && AllowedRun(s, ops)
    ensures Inv(Run(s, ops)) && Keeps(s.nodes, Run(s, ops).nodes)
    decreases |ops|
  {
    hide Inv, Step, Keeps;
    if ops != [] {
      StepKeepsInv(s, ops[0]);
      RunKeepsInv(Step(s, ops[0]), ops[1..]);
      KeepsTransitive(s.nodes, Step(s, ops[0]).nodes, Run(s, ops).nodes);
    } else {
      KeepsSelf(s.nodes);
    }
  }

  lemma KeepsSelf(nodes: seq<Node>)
    ensures Keeps(nodes, nodes)
  {
  }

  lemma InitialInv(text: bytes)
    ensures Inv(Initial(text))
  {
    assert ParentOk(Initial(text).nodes, 0);
  }

  // ----- every version can be brought back

  /** Undo all the way to the root. */
  ghost function ToRoot(nodes: seq<Node>, k: nat): seq<Op>
    requires Tree(nodes) && k < |nodes|
    decreases k
  {
    if k == 0 then [] else
      UndoTarget(nodes, k);
      [Undo] + ToRoot(nodes, nodes[k].parent)
  }

  ghost function BranchOf(nodes: seq<Node>, k: nat): (b: nat)
    requires Tree(nodes) && 0 < k < |nodes|
    ensures nodes[k].parent < k && b < |nodes[nodes[k].parent].children|
    ensures nodes[nodes[k].parent].children[b] == k
  {
    assert ChildOk(nodes, k);
    var children := nodes[nodes[k].parent].children;
    var b :| 0 <= b < |children| && children[b] == k;
    b
  }

  /** Redo from the root down to node k. */
  ghost function FromRoot(nodes: seq<Node>, k: nat): seq<Op>
    requires Tree(nodes) && k < |nodes|
    decreases k
  {
    if k == 0 then [] else
      UndoTarget(nodes, k);
      FromRoot(nodes, nodes[k].parent) + [Redo(BranchOf(nodes, k))]
  }

  lemma {:induction false} RunAppend(s: State, first: seq<Op>, second: seq<Op>)
    requires AllowedRun(s, first) && AllowedRun(Run(s, first), second)
    ensures AllowedRun(s, first + second)
    ensures Run(s, first + second) == Run(Run(s, first), second)
    decreases |first|
  {
    hide Step, Linked;
    if first == [] {
      assert first + second == second;
    } else {
      assert (first + second)[1..] == first[1..] + second;
      RunAppend(Step(s, first[0]), first[1..], second);
    }
  }

  lemma {:induction false} ToRootRuns(s: State)
    requires Inv(s) && s.depth == 0
    ensures AllowedRun(s, ToRoot(s.nodes, s.current))
    ensures Run(s, ToRoot(s.nodes, s.current)) == s.(current := 0, text := s.nodes[0].after)
    decreases s.current
  {
    hide Tree;
    InvLinked(s);
    if s.current > 0 {
      UndoTarget(s.nodes, s.current);
      StepKeepsInv(s, Undo);
      ToRootRuns(Step(s, Undo));
    }
  }

  lemma RunOne(s: State, op: Op)
    requires Linked(s) && Allowed(s, op)
    ensures AllowedRun(s, [op]) && Run(s, [op]) == Step(s, op)
  {
    hide Step, Linked, Allowed;
    var ops := [op];
    assert ops[0] == op && ops[1..] == [];
    assert AllowedRun(Step(s, op), []);
  }

  lemma {:induction false} FromRootRuns(s: State, k: nat)
    requires Inv(s) && s.depth == 0 && s.current == 0 && k < |s.nodes|
    ensures AllowedRun(s, FromRoot(s.nodes, k))
    ensures Run(s, FromRoot(s.nodes, k)) == s.(current := k, text := s.nodes[k].after)
    decreases k
  {
    hide Tree, BranchOf;
    if k > 0 {
      UndoTarget(s.nodes, k);
      var parent, redo := s.nodes[k].parent, Redo(BranchOf(s.nodes, k));
      FromRootRuns(s, parent);
      var at := s.(current := parent, text := s.nodes[parent].after);
      InvLinked(at);
      assert Step(at, redo) == s.(current := k, text := s.nodes[k].after);
      RunOne(at, redo);
      RunAppend(s, FromRoot(s.nodes, parent), [redo]);
    }
  }

  /** Outside a transaction, undo and redo alone bring back any node. */
  lemma WayTo(s: State, k: nat) returns (way: seq<Op>)
    requires Inv(s) && s.depth == 0 && k < |s.nodes|
    ensures forall op <- way :: op.Undo? || op.Redo?
    ensures AllowedRun(s, way) && Run(s, way) == s.(current := k, text := s.nodes[k].after)
  {
    hide Tree;
    var root := s.(current := 0, text := s.nodes[0].after);
    ToRootRuns(s);
    FromRootRuns(root, k);
    RunAppend(s, ToRoot(s.nodes, s.current), FromRoot(s.nodes, k));
    OnlyUndo(s.nodes, s.current);
    OnlyRedo(s.nodes, k);
    way := ToRoot(s.nodes, s.current) + FromRoot(s.nodes, k);
  }

  /** The commits that close every open transaction. */
  function Commits(depth: nat): seq<Op> {
    seq(depth, _ => Commit)
  }

  lemma {:induction false} CommitsClose(s: State)
    requires Inv(s)
    ensures AllowedRun(s, Commits(s.depth))
    ensures var closed := Run(s, Commits(s.depth));
            Inv(closed) && closed.depth == 0 && closed.text == s.text && Keeps(s.nodes, closed.nodes)
    decreases s.depth
  {
    hide Tree, Keeps;
    if s.depth == 0 {
      KeepsSelf(s.nodes);
    } else {
      InvLinked(s);
      StepKeepsInv(s, Commit);
      var next := Step(s, Commit);
      assert Commits(s.depth)[0] == Commit && Commits(s.depth)[1..] == Commits(next.depth);
      CommitsClose(next);
      KeepsTransitive(s.nodes, next.nodes, Run(next, Commits(next.depth)).nodes);
    }
  }

  /**
   * From every reachable state, closing the open transactions and then undo and redo alone bring back
   * the text of any node ever created.
   */
  lemma EveryVersionReachable(text: bytes, ops: seq<Op>, k: nat) returns (way: seq<Op>)
    requires AllowedRun(Initial(text), ops) && k < |Run(Initial(text), ops).nodes|
    ensures var s := Run(Initial(text), ops);
            && |way| >= s.depth && way[..s.depth] == Commits(s.depth)
            && (forall op <- way[s.depth..] :: op.Undo? || op.Redo?)
            && AllowedRun(s, way)
            && var there := Run(s, way);
               && there.depth == 0 && there.current == k && there.text == s.nodes[k].after
               && Keeps(s.nodes, there.nodes)
  {
    hide Tree, Inv, AllowedRun, Run, Keeps;
    InitialInv(text);
    RunKeepsInv(Initial(text), ops);
    var s := Run(Initial(text), ops);
    CommitsClose(s);
    var closed := Run(s, Commits(s.depth));
    KeptNode(s.nodes, closed.nodes, k);
    var rest := WayTo(closed, k);
    RunAppend(s, Commits(s.depth), rest);
    way := Commits(s.depth) + rest;
    assert way[s.depth..] == rest;
  }

  lemma KeptNode(older: seq<Node>, newer: seq<Node>, k: nat)
    requires Keeps(older, newer) && k < |older|
    ensures k < |newer| && newer[k].after == older[k].after
  {
  }

  lemma {:induction false} OnlyUndo(nodes: seq<Node>, k: nat)
    requires Tree(nodes) && k < |nodes|
    ensures forall op <- ToRoot(nodes, k) :: op.Undo?
    decreases k
  {
    hide Tree;
    if k > 0 {
      UndoTarget(nodes, k);
      OnlyUndo(nodes, nodes[k].parent);
    }
  }

  lemma {:induction false} OnlyRedo(nodes: seq<Node>, k: nat)
    requires Tree(nodes) && k < |nodes|
    ensures forall op <- FromRoot(nodes, k) :: op.Redo?
    decreases k
  {
    hide Tree;
    if k > 0 {
      UndoTarget(nodes, k);
      OnlyRedo(nodes, nodes[k].parent);
    }
  }

  // ----- what undoes what

  /** The run never closes the outermost transaction. */
  ghost predicate StaysOpen(s: State, ops: seq<Op>)
    requires AllowedRun(s, ops)
    decreases |ops|
  {
    s.depth > 0 && (ops == [] || StaysOpen(Step(s, ops[0]), ops[1..]))
  }

  /** Inside a transaction only the text and the depth change. */
  lemma {:induction false} OpenRunChangesText(s: State, ops: seq<Op>)
    requires AllowedRun(s, ops) && StaysOpen(s, ops)
    ensures var t := Run(s, ops);
            t == s.(text := t.text, depth := t.depth) && t.depth > 0
    decreases |ops|
  {
    hide Linked;
    if ops != [] {
      OpenRunChangesText(Step(s, ops[0]), ops[1..]);
    }
  }

  /**
   * Undo takes back a whole transaction, whatever edits and nested transactions it was made of; one
   * that ends with the text it began with leaves no trace.
   */
  lemma UndoTakesBackTransaction(s: State, ops: seq<Op>)
    requires Inv(s) && s.depth == 0 && AllowedRun(Begun(s), ops) && StaysOpen(Begun(s), ops)
    requires Run(Begun(s), ops).depth == 1
    ensures var t := Run(Begun(s), ops);
            && t.current < |t.nodes|
            && var done := Committed(t);
               && done.text == t.text && done.depth == 0 && done.current < |done.nodes|
               && (if t.text == s.text then done == s.(before := done.before)
                   else Undone(done).text == s.text && Undone(done).current == s.current)
  {
    hide Tree;
    OpenRunChangesText(Begun(s), ops);
  }

  /** After an undo, redo returns to the same place exactly along the branch that was left. */
  lemma RedoUndoesUndo(s: State, branch: nat)
    requires Inv(s) && Linked(s) && s.depth == 0 && s.current > 0
    requires Linked(Undone(s))
    ensures Redone(Undone(s), branch) == s <==> branch == BranchOf(s.nodes, s.current)
  {
    UndoTarget(s.nodes, s.current);
    assert ParentOk(s.nodes, s.nodes[s.current].parent);
  }

  // ----- an edit outside a transaction

  predicate OnlyMoves(ops: seq<Op>) {
    forall op <- ops :: op.Undo? || op.Redo?
  }

  /** Some step of the run goes to another node. */
  ghost predicate Moves(s: State, ops: seq<Op>)
    requires AllowedRun(s, ops)
    decreases |ops|
  {
    ops != [] && (Step(s, ops[0]).current != s.current || Moves(Step(s, ops[0]), ops[1..]))
  }

  /** One undo or redo, from whatever text: it goes to a node and its text, or does nothing. */
  lemma MoveRestores(s: State, text: bytes, op: Op)
    requires Inv(s) && s.depth == 0 && (op.Undo? || op.Redo?)
    ensures Linked(s.(text := text))
    ensures var next := Step(s.(text := text), op);
            && next.nodes == s.nodes && next.depth == 0
            && (if next.current == s.current then next == s.(text := text) else Inv(next))
  {
    hide Tree;
    InvLinked(s);
    if op.Undo? && s.current > 0 {
      UndoTarget(s.nodes, s.current);
    }
    if op.Redo? && op.branch < |s.nodes[s.current].children| {
      ChildIsNew(s.nodes, s.current, op.branch);
    }
  }

  lemma ChildIsNew(nodes: seq<Node>, k: nat, branch: nat)
    requires Tree(nodes) && k < |nodes| && branch < |nodes[k].children|
    ensures k < nodes[k].children[branch] < |nodes|
  {
    assert ParentOk(nodes, k);
  }

  lemma {:induction false} MovesRestore(s: State, text: bytes, ops: seq<Op>)
    requires Inv(s) && s.depth == 0 && OnlyMoves(ops) && AllowedRun(s.(text := text), ops)
    ensures var t := Run(s.(text := text), ops);
            && t.nodes == s.nodes
            && (Moves(s.(text := text), ops) || text == s.text ==> Inv(t) && t.depth == 0)
    decreases |ops|
  {
    hide Inv, Step, Linked;
    TextOfCurrent(s);
    if ops != [] {
      MoveRestores(s, text, ops[0]);
      var next := Step(s.(text := text), ops[0]);
      if next.current == s.current {
        MovesRestore(s, text, ops[1..]);
      } else {
        TextOfCurrent(next);
        assert next.(text := next.text) == next;
        MovesRestore(next, next.text, ops[1..]);
      }
    }
  }

  lemma TextOfCurrent(s: State)
    requires Inv(s) && s.depth == 0
    ensures s.current < |s.nodes| && s.text == s.nodes[s.current].after && s.(text := s.text) == s
  {
  }

  /** With more than one node there is an undo or a redo that goes to another. */
  lemma SomeMove(s: State, text: bytes) returns (op: Op)
    requires Inv(s) && s.depth == 0 && |s.nodes| > 1
    ensures (op.Undo? || op.Redo?) && Linked(s.(text := text))
    ensures Step(s.(text := text), op).current != s.current
  {
    InvLinked(s);
    if s.current > 0 {
      UndoTarget(s.nodes, s.current);
      op := Undo;
    } else {
      assert ChildOk(s.nodes, 1) && ParentOk(s.nodes, 0);
      op := Redo(0);
    }
  }

  lemma WayBack(s: State, text: bytes, k: nat) returns (way: seq<Op>)
    requires Inv(s) && s.depth == 0 && |s.nodes| > 1 && k < |s.nodes|
    ensures OnlyMoves(way) && AllowedRun(s.(text := text), way) && Moves(s.(text := text), way)
    ensures Run(s.(text := text), way).text == s.nodes[k].after
  {
    hide Inv, Step, Linked;
    var op := SomeMove(s, text);
    MoveRestores(s, text, op);
    var rest := WayTo(Step(s.(text := text), op), k);
    way := [op] + rest;
    assert way[1..] == rest;
  }

  /**
   * A text put in outside a transaction stays as long as no undo or redo goes to another node. One that
   * does loses the text, unless it is that of a node: no run of them can leave it otherwise.
   */
  lemma EditOutsideTransaction(s: State, text: bytes)
    requires Inv(s) && s.depth == 0
    ensures (exists way ::
               OnlyMoves(way) && AllowedRun(s.(text := text), way) && Moves(s.(text := text), way)
               && Run(s.(text := text), way).text == text)
            <==> |s.nodes| > 1 && exists k :: 0 <= k < |s.nodes| && s.nodes[k].after == text
    ensures Inv(s.(text := text)) <==> text == s.nodes[s.current].after
  {
    hide Run, AllowedRun, Moves, OnlyMoves, Tree;
    var edited := s.(text := text);
    if way :| OnlyMoves(way) && AllowedRun(edited, way) && Moves(edited, way) && Run(edited, way).text == text {
      MovesRestore(s, text, way);
      var t := Run(edited, way);
      TextOfCurrent(t);
      assert s.nodes[t.current].after == text;
      OneNodeStays(s, text, way);
    }
    if k :| 0 <= k < |s.nodes| && s.nodes[k].after == text {
      if |s.nodes| > 1 {
        var way := WayBack(s, text, k);
      }
    }
  }

  /** With one node there is nowhere to go. */
  lemma {:induction false} OneNodeStays(s: State, text: bytes, ops: seq<Op>)
    requires Inv(s) && s.depth == 0 && OnlyMoves(ops) && AllowedRun(s.(text := text), ops)
    ensures |s.nodes| == 1 ==> !Moves(s.(text := text), ops)
    decreases |ops|
  {
    hide Inv, Step, Linked;
    TextOfCurrent(s);
    if ops != [] && |s.nodes| == 1 {
      MoveRestores(s, text, ops[0]);
      var next := Step(s.(text := text), ops[0]);
      if next.current != s.current {
        TextOfCurrent(next);
      } else {
        OneNodeStays(s, text, ops[1..]);
      }
    }
  }

  /** Undo inside a transaction always breaks it. */
  lemma UndoInsideTransaction(s: State)
    requires Inv(s) && s.depth > 0
    ensures Inv(Undone(s)) <==> s.current == 0
  {
    if s.current > 0 {
      assert ChildOk(s.nodes, s.current);
    }
  }

  // ----- the class

  class History {
    const buffer: Buffer
    var nodes: seq<Node>
    var checkpoints: seq<Checkpoint>
    var current: nat
    var depth: nat
    var before: bytes

    /** The fields and the watched text, as one value. */
    ghost function View(): State
      reads this, buffer, buffer.cell
    {
      State(nodes, current, depth, before, buffer.Text())
    }

    ghost predicate Valid()
      reads this, buffer, buffer.cell
    {
      buffer.Valid() && Linked(View())
    }

    constructor (buffer: Buffer)
      requires buffer.Valid()
      ensures Valid() && this.buffer == buffer && View() == Initial(buffer.Text()) && checkpoints == []
    {
      this.buffer := buffer;
      nodes := [Node([], buffer.Text(), 0, [])];
      checkpoints, current, depth, before := [], 0, 0, [];
    }

    method CanUndo() returns (can: bool)
      ensures can == (current != 0)
    {
      can := current != 0;
    }

    method CanRedo() returns (can: bool)
      requires Valid()
      ensures can <==> nodes[current].children != []
    {
      can := |nodes[current].children| > 0;
    }

    method Begin()
      requires Valid()
      modifies this`depth, this`before
      ensures Valid() && View() == Begun(old(View()))
    {
      depth := depth + 1;
      if depth == 1 {
        before := buffer.Text();
      }
    }

    method Commit()
      requires Valid()
      modifies this`nodes, this`current, this`depth, this`before
      ensures Valid() && View() == Committed(old(View()))
    {
      if depth == 0 {
        return;
      }
      depth := depth - 1;
      if depth != 0 {
        return;
      }
      var after := buffer.Text();
      if after == before {
        return;
      }
      var index := |nodes|;
      nodes := nodes + [Node(before, after, current, [])];
      before := [];
      nodes := nodes[current := nodes[current].(children := nodes[current].children + [index])];
      current := index;
    }

    method SetText(value: bytes)
      requires buffer.Valid()
      modifies buffer, buffer.cell
      ensures buffer.Valid() && buffer.Text() == value
      ensures buffer.cell == old(buffer.cell) || fresh(buffer.cell)
    {
      buffer.Overwrite(value);
    }

    method Undo() returns (done: bool)
      requires Valid()
      modifies this`current, buffer, buffer.cell
      ensures Valid() && View() == Undone(old(View())) && done == (old(current) != 0)
    {
      var can := CanUndo();
      if !can {
        return false;
      }
      SetText(nodes[current].before);
      current := nodes[current].parent;
      return true;
    }

    method RedoBranch(branch: nat) returns (done: bool)
      requires Valid()
      modifies this`current, buffer, buffer.cell
      ensures Valid() && View() == Redone(old(View()), branch)
      ensures done == (branch < |old(nodes[current].children)|)
    {
      if branch >= |nodes[current].children| {
        return false;
      }
      current := nodes[current].children[branch];
      SetText(nodes[current].after);
      return true;
    }

    method MarkCheckpoint(name: bytes)
      modifies this`checkpoints
      ensures checkpoints == old(checkpoints) + [Checkpoint(name, current)]
    {
      checkpoints := checkpoints + [Checkpoint(name, current)];
    }
  }

  /** `Transaction`: commits once, on demand or when it is destroyed. */
  class Transaction {
    var history: History?

    constructor (history: History)
      requires history.Valid()
      modifies history`depth, history`before
      ensures this.history == history && history.Valid() && history.View() == Begun(old(history.View()))
    {
      this.history := history;
      new;
      history.Begin();
    }

    /** A second commit, such as the destructor's after an explicit one, does nothing. */
    method Commit()
      requires history != null ==> history.Valid()
      modifies this, history
      ensures history == null
      ensures old(history) != null ==>
                old(history).Valid() && old(history).View() == Committed(old(history.View()))
    {
      if history != null {
        history.Commit();
        history := null;
      }
    }

    /** Move assignment: commits the transaction it replaces, then takes over the other's. */
    method MoveFrom(other: Transaction)
      requires history != null ==> history.Valid()
      modifies this, other, history
      ensures other != this ==> history == old(other.history) && other.history == null
      ensures other == this ==> history == old(history)
      ensures other != this && old(history) != null ==>
                old(history).Valid() && old(history).View() == Committed(old(history.View()))
    {
      if this != other {
        Commit();
        history := other.history;
        other.history := null;
      }
    }
  }
}
