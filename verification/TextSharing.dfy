/**
 * Many buffers and snapshots over shared strings: copy-on-write against plain values.
 *
 * `Sharing` holds any number of buffers and snapshots whose strings may be shared, with the share
 * counts of `std::shared_ptr`. Every run of operations on it is matched by the same run on values
 * (`Held`, `Apply`), where nothing is shared at all.
 */
module TextSharing {
  import opened Bytes
  import opened Grapheme
  import opened LineIndexes
  import opened TextBuffer

  /** What a holder shows: a buffer's text, a snapshot's, or nothing once it is destroyed. */
  datatype Held = Gone | Editable(text: bytes) | Frozen(text: bytes)

  datatype Op =
    | NewBuffer(text: bytes)
    | CopyBuffer(which: nat)
    | TakeSnapshot(which: nat)
    | Drop(which: nat)
    | Insert(which: nat, first: Position, value: bytes)
    | Erase(which: nat, first: Position, last: Position)
    | Replace(which: nat, first: Position, last: Position, value: bytes)

  /** The text an operation leaves in the buffer it names. */
  function Edited(tab: Table, text: bytes, op: Op): bytes {
    match op
    case Insert(_, p, value) => Inserted(tab, text, p, value)
    case Erase(_, p, q) => Erased(tab, text, p, q)
    case Replace(_, p, q, value) => Replaced(tab, text, p, q, value)
    case _ => text
  }

  /** One operation on values; naming a holder that cannot do it changes nothing. */
  function Apply(tab: Table, held: seq<Held>, op: Op): seq<Held> {
    if op.NewBuffer? then held + [Editable(op.text)]
    else if op.which >= |held| then held
    else if op.Drop? then held[op.which := Gone]
    else if !held[op.which].Editable? then held
    else if op.CopyBuffer? then held + [held[op.which]]
    else if op.TakeSnapshot? then held + [Frozen(held[op.which].text)]
    else held[op.which := Editable(Edited(tab, held[op.which].text, op))]
  }

  function ApplyAll(tab: Table, held: seq<Held>, ops: seq<Op>): seq<Held>
    decreases |ops|
  {
    if ops == [] then held else ApplyAll(tab, Apply(tab, held, ops[0]), ops[1..])
  }

  /** Whatever happens to other holders, a snapshot keeps the text it captured until it is destroyed. */
  lemma {:induction false} SnapshotKeepsItsText(tab: Table, held: seq<Held>, ops: seq<Op>, i: nat)
    requires i < |held| && held[i].Frozen? && Drop(i) !in ops
    ensures i < |ApplyAll(tab, held, ops)| && ApplyAll(tab, held, ops)[i] == held[i]
    decreases |ops|
  {
    hide Edited;
    if ops != [] {
      SnapshotKeepsItsText(tab, Apply(tab, held, ops[0]), ops[1..], i);
    }
  }

  /** No operation edits or destroys holder i. */
  predicate LeavesAlone(ops: seq<Op>, i: nat) {
    forall k :: 0 <= k < |ops| ==>
      ops[k].NewBuffer? || ops[k].CopyBuffer? || ops[k].TakeSnapshot? || ops[k].which != i
  }

  /** A holder that no operation edits or destroys keeps its text. */
  lemma {:induction false} OthersKeepTheirText(tab: Table, held: seq<Held>, ops: seq<Op>, i: nat)
    requires i < |held| && LeavesAlone(ops, i)
    ensures i < |ApplyAll(tab, held, ops)| && ApplyAll(tab, held, ops)[i] == held[i]
    decreases |ops|
  {
    hide Edited;
    if ops != [] {
      OthersKeepTheirText(tab, Apply(tab, held, ops[0]), ops[1..], i);
    }
  }

  lemma AllKeepTheirText(tab: Table, held: seq<Held>, ops: seq<Op>)
    ensures var after := ApplyAll(tab, held, ops);
            && |after| >= |held|
            && (forall i :: 0 <= i < |held| && held[i].Frozen? && Drop(i) !in ops ==> after[i] == held[i])
            && (forall i :: 0 <= i < |held| && LeavesAlone(ops, i) ==> after[i] == held[i])
  {
    hide ApplyAll, LeavesAlone;
    var after := ApplyAll(tab, held, ops);
    HoldersStay(tab, held, ops);
    forall i | 0 <= i < |held| && held[i].Frozen? && Drop(i) !in ops
      ensures after[i] == held[i]
    {
      SnapshotKeepsItsText(tab, held, ops, i);
    }
    forall i | 0 <= i < |held| && LeavesAlone(ops, i)
      ensures after[i] == held[i]
    {
      OthersKeepTheirText(tab, held, ops, i);
    }
  }

  lemma {:induction false} HoldersStay(tab: Table, held: seq<Held>, ops: seq<Op>)
    ensures |ApplyAll(tab, held, ops)| >= |held|
    decreases |ops|
  {
    hide Edited;
    if ops != [] {
      HoldersStay(tab, Apply(tab, held, ops[0]), ops[1..]);
    }
  }

  // ----- counting holders

  /** Every string's count is its number of holders, except that the count of `c` is off by `delta`. */
  ghost predicate CountsOff(cells: seq<SharedText?>, c: SharedText?, delta: int)
    reads cells
  {
    forall i :: 0 <= i < |cells| && cells[i] != null ==>
      cells[i].uses == multiset(cells)[cells[i]] + if cells[i] == c then delta else 0
  }

  ghost predicate CountsExact(cells: seq<SharedText?>)
    reads cells
  {
    CountsOff(cells, null, 0)
  }

  lemma NewHolder(cells: seq<SharedText?>, cell: SharedText)
    requires CountsExact(cells) && cell !in cells && cell.uses == 1
    ensures CountsExact(cells + [cell])
  {
    assert multiset(cells + [cell]) == multiset(cells) + multiset{cell};
  }

  lemma OneMoreHolder(cells: seq<SharedText?>, cell: SharedText)
    requires CountsOff(cells, cell, 1) && cell in cells
    ensures CountsExact(cells + [cell])
  {
    assert multiset(cells + [cell]) == multiset(cells) + multiset{cell};
    var i :| 0 <= i < |cells| && cells[i] == cell;
  }

  lemma MoveHolder<T>(cells: seq<T>, i: nat, cell: T)
    requires i < |cells|
    ensures multiset(cells[i := cell]) == multiset(cells) - multiset{cells[i]} + multiset{cell}
  {
  }

  lemma OneHolderLess(cells: seq<SharedText?>, i: nat)
    requires i < |cells| && cells[i] != null && CountsOff(cells, cells[i], -1)
    ensures CountsExact(cells[i := null])
  {
    MoveHolder(cells, i, null);
  }

  lemma HolderMoved(cells: seq<SharedText?>, i: nat, cell: SharedText)
    requires i < |cells| && cells[i] != null && CountsOff(cells, cells[i], -1)
    requires cell !in cells && cell.uses == 1
    ensures CountsExact(cells[i := cell])
  {
    MoveHolder(cells, i, cell);
    assert multiset(cells)[cell] == 0;
  }

  /** So a count of one means that nobody else holds the string. */
  lemma TwoHolders(cells: seq<SharedText?>, i: nat, j: nat)
    requires i < j < |cells| && cells[i] == cells[j]
    ensures multiset(cells)[cells[i]] >= 2
  {
    var front, middle, back := cells[..i], cells[i + 1..j], cells[j + 1..];
    assert cells == front + [cells[i]] + middle + [cells[j]] + back;
    assert multiset(cells)
        == multiset(front) + multiset{cells[i]} + multiset(middle) + multiset{cells[j]} + multiset(back);
  }

  /** Dispatches an operation to the buffer's own method. */
  method EditBuffer(b: Buffer, op: Op)
    requires b.Valid() && (op.Insert? || op.Erase? || op.Replace?)
    modifies b, b.cell
    ensures b.Valid() && b.Detached(old(b.cell))
    ensures b.Text() == Edited(b.tab, old(b.Text()), op)
  {
    hide Inserted, Erased, Replaced;
    match op {
      case Insert(_, p, value) => b.Insert(p, value);
      case Erase(_, p, q) => b.Erase(p, q);
      case Replace(_, p, q, value) => b.Replace(p, q, value);
    }
  }

  // ----- the shared heap

  /** A live buffer or a live snapshot holds its cell; a destroyed holder holds none. */
  ghost predicate Holds(tab: Table, b: Buffer?, s: Snapshot?, cell: SharedText?)
    reads b
  {
    && (b != null ==> s == null && b.tab == tab && cell == b.cell)
    && (s != null ==> cell == s.cell)
    && (b == null && s == null ==> cell == null)
  }

  class Sharing {
    const tab: Table
    var buffers: seq<Buffer?>
    var snapshots: seq<Snapshot?>
    ghost var cells: seq<SharedText?>
    ghost var repr: set<object>

    /** Every string counts its holders exactly, and the buffers are different objects. */
    ghost predicate Valid()
      reads this, repr
    {
      && |buffers| == |snapshots| == |cells|
      && Wired()
      && CountsExact(cells)
    }

    ghost predicate Shows(held: seq<Held>)
      requires |buffers| == |snapshots| == |cells| && Wired()
      reads this, repr
    {
      && |held| == |cells|
      && forall i :: 0 <= i < |cells| ==> held[i] == ShownAt(i)
    }

    /** What holder i shows now. */
    ghost function ShownAt(i: nat): Held
      requires |buffers| == |snapshots| == |cells| && Wired() && i < |cells|
      reads this, repr
    {
      if cells[i] == null then Gone
      else if buffers[i] != null then Editable(cells[i].data) else Frozen(cells[i].data)
    }

    constructor (tab: Table)
      ensures Valid() && Shows([]) && this.tab == tab
    {
      this.tab := tab;
      buffers, snapshots, cells, repr := [], [], [], {};
    }

    ghost predicate Wired()
      requires |buffers| == |snapshots| == |cells|
      reads this, repr
    {
      && (forall i :: 0 <= i < |buffers| && buffers[i] != null ==> buffers[i] in repr)
      && (forall i :: 0 <= i < |cells| && cells[i] != null ==> cells[i] in repr)
      && (forall i :: 0 <= i < |buffers| ==> Holds(tab, buffers[i], snapshots[i], cells[i]))
      && (forall i, j :: 0 <= i < j < |buffers| && buffers[i] != null ==> buffers[i] != buffers[j])
    }

    method NewlyCounted(text: bytes) returns (b: Buffer)
      requires Valid()
      ensures fresh(b) && fresh(b.cell) && Holds(tab, b, null, b.cell) && b.cell.data == text
      ensures CountsExact(cells + [b.cell])
    {
      b := new Buffer(tab, text);
      NewHolder(cells, b.cell);
    }

    /** `Buffer(text)`. */
    method AddBuffer(text: bytes, ghost held: seq<Held>)
      requires Valid() && Shows(held)
      modifies this
      ensures Valid() && Shows(Apply(tab, held, NewBuffer(text)))
      ensures fresh(repr - old(repr))
    {
      hide CountsExact, Edited;
      var b := NewlyCounted(text);
      Append(b, null, b.cell);
    }

    method Append(b: Buffer?, s: Snapshot?, cell: SharedText)
      requires |buffers| == |snapshots| == |cells| && Wired()
      requires Holds(tab, b, s, cell) && (b != null ==> b !in buffers)
      modifies this
      ensures buffers == old(buffers) + [b] && snapshots == old(snapshots) + [s] && cells == old(cells) + [cell]
      ensures repr == old(repr) + (if b == null then {} else {b}) + {cell}
      ensures Wired()
    {
      repr := repr + (if b == null then {} else {b}) + {cell};
      buffers, snapshots, cells := buffers + [b], snapshots + [s], cells + [cell];
    }

    method ShareBuffer(i: nat) returns (b: Buffer)
      requires Valid() && i < |buffers| && buffers[i] != null
      modifies buffers[i].cell`uses
      ensures fresh(b) && Holds(tab, b, null, cells[i])
      ensures CountsExact(cells + [cells[i]])
    {
      b := buffers[i].Copy();
      assert CountsOff(cells, cells[i], 1);
      OneMoreHolder(cells, cells[i]);
    }

    /** The copy constructor of `Buffer`. */
    method CopyOf(i: nat, ghost held: seq<Held>)
      requires Valid() && Shows(held) && i < |buffers| && buffers[i] != null
      modifies this, repr
      ensures Valid() && Shows(Apply(tab, held, CopyBuffer(i)))
      ensures fresh(repr - old(repr))
    {
      hide CountsExact, Edited;
      var b := ShareBuffer(i);
      Append(b, null, b.cell);
    }

    method ShareSnapshot(i: nat) returns (s: Snapshot)
      requires Valid() && i < |buffers| && buffers[i] != null
      modifies buffers[i].cell`uses
      ensures fresh(s) && Holds(tab, null, s, cells[i])
      ensures CountsExact(cells + [cells[i]])
    {
      s := buffers[i].TakeSnapshot();
      assert CountsOff(cells, cells[i], 1);
      OneMoreHolder(cells, cells[i]);
    }

    /** `Buffer::snapshot`. */
    method SnapshotOf(i: nat, ghost held: seq<Held>)
      requires Valid() && Shows(held) && i < |buffers| && buffers[i] != null
      modifies this, repr
      ensures Valid() && Shows(Apply(tab, held, TakeSnapshot(i)))
      ensures fresh(repr - old(repr))
    {
      hide CountsExact, Edited;
      var s := ShareSnapshot(i);
      Append(null, s, s.cell);
    }

    method GiveUpShare(i: nat, cell: SharedText)
      requires Valid() && i < |buffers| && cells[i] == cell
      modifies cell`uses
      ensures CountsExact(cells[i := null])
    {
      assert cell.uses == multiset(cells)[cell];
      cell.uses := cell.uses - 1;
      assert CountsOff(cells, cell, -1);
      OneHolderLess(cells, i);
    }

    /** The destructor of a buffer or a snapshot gives up its share. */
    method Release(i: nat, ghost held: seq<Held>)
      requires Valid() && Shows(held) && i < |buffers|
      modifies this, repr
      ensures Valid() && Shows(Apply(tab, held, Drop(i)))
      ensures fresh(repr - old(repr))
    {
      hide CountsExact, Edited;
      if buffers[i] != null {
        GiveUpShare(i, buffers[i].cell);
      } else if snapshots[i] != null {
        GiveUpShare(i, snapshots[i].cell);
      } else {
        return;
      }
      buffers, snapshots, cells := buffers[i := null], snapshots[i := null], cells[i := null];
    }

    /** The edit itself: the string stays with its only holder, or the editor gets its own. */
    method EditText(op: Op, i: nat)
      requires Valid() && (op.Insert? || op.Erase? || op.Replace?)
      requires i < |buffers| && buffers[i] != null
      modifies buffers[i], cells[i]
      ensures buffers[i].Text() == Edited(tab, old(cells[i].data), op)
      ensures buffers[i].cell == cells[i] || (fresh(buffers[i].cell) && cells[i].data == old(cells[i].data))
      ensures buffers[i].cell == cells[i] ==> forall j :: 0 <= j < |cells| && j != i ==> cells[j] != cells[i]
      ensures CountsExact(cells[i := buffers[i].cell])
    {
      hide Edited;
      var b := buffers[i];
      OnlyHolder(cells, i);
      assert b.cell.uses == multiset(cells)[b.cell] > 0;
      EditBuffer(b, op);
      if b.cell == cells[i] {
        assert cells[i := b.cell] == cells;
      } else {
        assert CountsOff(cells, cells[i], -1);
        HolderMoved(cells, i, b.cell);
      }
    }

    /** `Buffer::insert`, `erase` or `replace` on one of the buffers. */
    method Edit(op: Op, ghost held: seq<Held>)
      requires Valid() && Shows(held) && (op.Insert? || op.Erase? || op.Replace?)
      requires op.which < |buffers| && buffers[op.which] != null
      modifies this, repr
      ensures Valid() && Shows(Apply(tab, held, op))
      ensures fresh(repr - old(repr))
    {
      hide CountsExact, Edited;
      var i := op.which;
      EditText(op, i);
      repr := repr + {buffers[i].cell};
      cells := cells[i := buffers[i].cell];
    }

    /** Any interleaving of operations shows exactly what it would show with nothing shared. */
    method Run(ops: seq<Op>, ghost held: seq<Held>)
      requires Valid() && Shows(held)
      modifies this, repr
      ensures Valid() && Shows(ApplyAll(tab, held, ops))
      decreases |ops|
    {
      hide Edited, Holds, CountsExact;
      if ops != [] {
        Step(ops[0], held);
        Run(ops[1..], Apply(tab, held, ops[0]));
      }
    }

    /**
     * Over any interleaving of operations on shared storage, a snapshot shows the text it captured until
     * it is destroyed, and so does every holder that no operation edits or destroys.
     */
    method RunKeepsText(ops: seq<Op>)
      requires Valid()
      modifies this, repr
      ensures Valid() && |cells| >= old(|cells|)
      ensures forall i :: 0 <= i < old(|cells|) && old(ShownAt(i)).Frozen? && Drop(i) !in ops ==>
                ShownAt(i) == old(ShownAt(i))
      ensures forall i :: 0 <= i < old(|cells|) && LeavesAlone(ops, i) ==> ShownAt(i) == old(ShownAt(i))
    {
      hide Edited, Holds, CountsExact, ApplyAll, LeavesAlone;
      ghost var held: seq<Held> := seq(|cells|,
        i requires 0 <= i < |cells| && |buffers| == |snapshots| == |cells| && Wired() reads this, repr => ShownAt(i));
      AllKeepTheirText(tab, held, ops);
      Run(ops, held);
    }

    method Step(op: Op, ghost held: seq<Held>)
      requires Valid() && Shows(held)
      modifies this, repr
      ensures Valid() && Shows(Apply(tab, held, op))
      ensures fresh(repr - old(repr))
    {
      hide Edited, CountsExact;
      if op.NewBuffer? {
        AddBuffer(op.text, held);
      } else if op.which >= |buffers| {
        return;
      } else if op.Drop? {
        Release(op.which, held);
      } else if buffers[op.which] == null {
        return;
      } else if op.CopyBuffer? {
        CopyOf(op.which, held);
      } else if op.TakeSnapshot? {
        SnapshotOf(op.which, held);
      } else {
        Edit(op, held);
      }
    }
  }

  lemma OnlyHolder(cells: seq<SharedText?>, i: nat)
    requires i < |cells|
    ensures multiset(cells)[cells[i]] == 1 ==> forall j :: 0 <= j < |cells| && j != i ==> cells[j] != cells[i]
  {
    forall j | 0 <= j < |cells| && j != i && cells[j] == cells[i]
      ensures multiset(cells)[cells[i]] >= 2
    {
      if i < j { TwoHolders(cells, i, j); } else { TwoHolders(cells, j, i); }
    }
  }
}
