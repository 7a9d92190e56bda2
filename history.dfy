/** The undo/redo log: every applied modification is recorded with the modification that
    undoes it, on an undo stack and a redo stack. */
module History {
  import opened Types
  import opened Tree
  import opened Utils

  datatype Action = Action(undo: DocumentModification, redo: DocumentModification)

  /** What computing an inverse demands: the node an Edit or Delete names exists
      (the editor unwraps the lookup). */
  predicate CanRecord(d: Document, m: DocumentModification)
  {
    (m.EditNode? || m.DeleteNode?) ==> GetNode(d, m.target).Some?
  }

  /** `create_undo_modification`, computed against the document before `m` is applied. */
  function CreateUndoModification(d: Document, m: DocumentModification): (u: DocumentModification)
    requires CanRecord(d, m)
    ensures m.EditNode? ==> u.EditNode? && u.target == m.target && u.edited in PreOrder(d.rootNode) && u.edited.id == m.target
    ensures m.DeleteNode? ==> u.PasteNode? && u.copied in PreOrder(d.rootNode) && u.copied.id == m.target
    ensures m.DeleteNode? && u.parent != d.rootNode.id ==>
              exists x :: x in PreOrder(d.rootNode) && x.id == u.parent && HasChild(x, m.target)
    ensures m.DeleteNode? && m.target != d.rootNode.id && (exists x :: x in PreOrder(d.rootNode) && HasChild(x, m.target)) ==>
              u.parent == GetNodeParent(d.rootNode, m.target).value &&
              exists x :: x in PreOrder(d.rootNode) && x.id == u.parent && HasChild(x, m.target)
    ensures m.CreateNode? ==> u == DeleteNode(m.newId)
    ensures m.MoveNode? || m.PasteNode? ==> u == m
  {
    match m
    case EditNode(id, _) => EditNode(id, GetNode(d, id).value)
    case DeleteNode(id) =>
      var parent := GetNodeParent(d.rootNode, id);
      PasteNode(GetNode(d, id).value, if parent.Some? then parent.value else d.rootNode.id)
    case CreateNode(_, newId) => DeleteNode(newId)
    case _ => m
  }

  /** With unique ids, undoing an Edit gives the document back. */
  lemma UndoEditRestores(d: Document, id: uint32, edited: Node, e1: Entropy, e2: Entropy)
    requires UniqueIds(d.rootNode) && GetNode(d, id).Some?
    ensures var m := EditNode(id, edited);
            ModifyDocument(ModifyDocument(d, m, e1), CreateUndoModification(d, m), e2) == d
  {
    var before := GetNode(d, id).value;
    EditTwice(d.rootNode, id, edited, before, e1, e2);
    forall x | x in PreOrder(d.rootNode) && x.id == id
      ensures x.name == before.name && x.content == before.content
    {
      UniqueSameNode(d.rootNode, x, before);
    }
    EditSameChangesNothing(d.rootNode, id, before, e2);
  }

  /** Undoing a Create whose new id was fresh gives the document back. */
  lemma UndoCreateRestores(d: Document, parent: uint32, newId: uint32, e1: Entropy, e2: Entropy)
    requires forall x :: x in PreOrder(d.rootNode) ==> x.id != newId
    ensures var m := CreateNode(parent, newId);
            ModifyDocument(ModifyDocument(d, m, e1), CreateUndoModification(d, m), e2) == d
  {
    AddThenDelete(d.rootNode, CreateNode(parent, newId), e1, e2);
  }

  /** The siblings [A, B, C] under the root. */
  function ThreeSiblings(): Document
  {
    Document(Node(0, "root", "", [Node(1, "A", "", []), Node(2, "B", "", []), Node(3, "C", "", [])]), map[])
  }

  /** As recorded, undoing "move B up" moves B up again: [A, B, C] becomes [B, A, C] and
      then [A, C, B], not [A, B, C]. */
  lemma MoveUndoMovesFurther(e1: Entropy, e2: Entropy)
    ensures var d := ThreeSiblings();
            var m := MoveNode(2, Up);
            var undone := ModifyDocument(ModifyDocument(d, m, e1), CreateUndoModification(d, m), e2);
            undone.rootNode.children == [d.rootNode.children[0], d.rootNode.children[2], d.rootNode.children[1]]
            && undone != d
  {
    var d := ThreeSiblings();
    var cs := d.rootNode.children;
    assert IndexOfId(cs, 2) == Some(1);
    RelocateUp(cs, 1);
    var moved := [cs[1], cs[0], cs[2]];
    assert IndexOfId(moved, 2) == Some(0);
    RelocateUp(moved, 0);
    assert [cs[0], cs[2], cs[1]] != cs by {
      assert cs[1].id != cs[2].id;
    }
  }

  /** As recorded, undoing a Paste pastes a second copy. */
  lemma PasteUndoPastesAgain(copied: Node, e1: Entropy, e2: Entropy)
    ensures var d := Document(Node(0, "root", "", []), map[]);
            var m := PasteNode(copied, 0);
            |ModifyDocument(ModifyDocument(d, m, e1), CreateUndoModification(d, m), e2).rootNode.children| == 2
  {
  }

  /** Undoing "delete b", where the root holds the childless siblings [a, b, c], re-pastes b
      at the end with the id drawn for the copy, and renames it: after the Delete no sibling
      carries b's id, so the sibling check finds no conflict and the drawn suffix is
      appended. */
  lemma DeleteUndoMovesAndRenames(d: Document, a: Node, b: Node, c: Node, e1: Entropy, e2: Entropy)
    requires d.rootNode.children == [a, b, c] && a.children == [] && b.children == [] && c.children == []
    requires d.rootNode.id != b.id && a.id != b.id && c.id != b.id
    ensures var m := DeleteNode(b.id);
            && CanRecord(d, m)
            && ModifyDocument(ModifyDocument(d, m, e1), CreateUndoModification(d, m), e2).rootNode
                 == d.rootNode.(children := [a, c, RenamedCopy(b, e2)])
  {
    var m := DeleteNode(b.id);
    var deleted := d.rootNode.(children := [a, c]);
    DeleteRecordsPaste(d, a, b, c);
    DeleteMiddle(d, a, b, c, e1);
    PasteBack(deleted, a, b, c, e2);
  }

  /** The inverse recorded for deleting b from [a, b, c] pastes b under the root. */
  lemma DeleteRecordsPaste(d: Document, a: Node, b: Node, c: Node)
    requires d.rootNode.children == [a, b, c] && a.children == []
    requires d.rootNode.id != b.id && a.id != b.id
    ensures CanRecord(d, DeleteNode(b.id)) && CreateUndoModification(d, DeleteNode(b.id)) == PasteNode(b, d.rootNode.id)
  {
    SiblingsLookups(d, a, b, c);
  }

  /** Pasting b back under [a, c] appends its renamed copy. */
  lemma PasteBack(n: Node, a: Node, b: Node, c: Node, e: Entropy)
    requires n.children == [a, c] && a.children == [] && c.children == []
    requires a.id != b.id && c.id != b.id
    ensures ModifyNode(n, PasteNode(b, n.id), e) == n.(children := [a, c, RenamedCopy(b, e)])
  {
    NoConflictLeft(n, a, b, c);
    PasteWithoutConflict(n, b, e);
    assert [a, c] + [RenamedCopy(b, e)] == [a, c, RenamedCopy(b, e)];
  }

  /** With the root holding [a, b, c], b is found, and the root is its parent. */
  lemma SiblingsLookups(d: Document, a: Node, b: Node, c: Node)
    requires d.rootNode.children == [a, b, c] && a.children == []
    requires d.rootNode.id != b.id && a.id != b.id
    ensures GetNode(d, b.id) == Some(b)
    ensures GetNodeParent(d.rootNode, b.id) == Some(d.rootNode.id)
  {
    var cs := [a, b, c];
    assert cs[1..] == [b, c];
    assert FirstInChildren(cs, b.id) == FirstInChildren(cs[1..], b.id);
    assert ParentInChildren(d.rootNode.id, cs, b.id) == ParentInChildren(d.rootNode.id, cs[1..], b.id);
  }

  /** Deleting b from [a, b, c] leaves [a, c]. */
  lemma DeleteMiddle(d: Document, a: Node, b: Node, c: Node, e: Entropy)
    requires d.rootNode.children == [a, b, c] && a.children == [] && c.children == []
    requires a.id != b.id && c.id != b.id
    ensures ModifyDocument(d, DeleteNode(b.id), e).rootNode == d.rootNode.(children := [a, c])
  {
    var m := DeleteNode(b.id);
    var cs := [a, b, c];
    assert cs[1..] == [b, c] && cs[1..][1..] == [c] && [c][1..] == [];
    assert ModifyNode(a, m, e) == a && ModifyNode(c, m, e) == c;
    assert ModifyForest([c], m, e) == [c];
    assert ModifyForest(cs, m, e) == [a, c];
  }

  /** Under [a, c] no sibling carries b's id, so the sibling check reports no conflict. */
  lemma NoConflictLeft(n: Node, a: Node, b: Node, c: Node)
    requires n.children == [a, c] && a.children == [] && c.children == []
    requires a.id != b.id && c.id != b.id
    ensures FindNodeWithSameName(n, b.id, b.name).Some?
  {
    assert PreOrder(a) == [a] && PreOrder(c) == [c];
    assert PreOrderForest([c]) == [c];
    assert PreOrder(n) == [n, a, c];
    assert !Conflict(n, b.id, b.name);
  }

  /** The copy a Paste appends when the sibling check finds no conflict: the randomized
      copy with the drawn suffix appended to its name. */
  function RenamedCopy(copied: Node, e: Entropy): (r: Node)
    ensures r.id == e.nodeIds([]) && r.name == copied.name + DecimalString(e.suffix as nat)
    ensures r.content == copied.content && |r.children| == |copied.children|
  {
    Randomize(copied, e.nodeIds, []).(name := copied.name + DecimalString(e.suffix as nat))
  }

  /** A Paste aimed at a node whose sibling check finds no conflict appends the renamed
      copy. */
  lemma PasteWithoutConflict(n: Node, copied: Node, e: Entropy)
    requires FindNodeWithSameName(n, copied.id, copied.name).Some?
    ensures ModifyNode(n, PasteNode(copied, n.id), e) == n.(children := n.children + [RenamedCopy(copied, e)])
  {
    PasteAtNode(n, copied, e);
    assert PastedNode(n, copied, e) == RenamedCopy(copied, e);
  }

  /** A Paste aimed at a node appends the pasted copy to its children. */
  lemma PasteAtNode(n: Node, copied: Node, e: Entropy)
    ensures ModifyNode(n, PasteNode(copied, n.id), e) == n.(children := n.children + [PastedNode(n, copied, e)])
  {
  }


  /** The inverse the log evidently intends: the opposite move for a Move, and deleting the
      pasted copy (whose id is the one drawn for it, `e.nodeIds([])`) for a Paste. `e` is
      the randomness `m` is applied with. */
  function IntendedUndoModification(d: Document, m: DocumentModification, e: Entropy): (u: DocumentModification)
    requires CanRecord(d, m)
    ensures m.MoveNode? ==> u == MoveNode(m.target, Opposite(m.direction))
    ensures m.PasteNode? ==> u == DeleteNode(e.nodeIds([]))
    ensures !m.MoveNode? && !m.PasteNode? ==> u == CreateUndoModification(d, m)
  {
    match m
    case MoveNode(id, dir) => MoveNode(id, Opposite(dir))
    case PasteNode(_, _) => DeleteNode(e.nodeIds([]))
    case _ => CreateUndoModification(d, m)
  }

  /** With the intended inverses, undo gives the document back for every kind of
      modification except Delete (whose inverse re-pastes the subtree with fresh ids at
      the end of its parent's children): Edit under unique ids, Create and Paste when the
      new child's id is fresh, Move when siblings have distinct ids. */
  lemma IntendedUndoRestores(d: Document, m: DocumentModification, e1: Entropy, e2: Entropy)
    requires CanRecord(d, m) && !m.DeleteNode?
    requires m.EditNode? ==> UniqueIds(d.rootNode)
    requires m.CreateNode? || m.PasteNode? ==> forall x :: x in PreOrder(d.rootNode) ==> x.id != AddedId(m, e1)
    requires m.MoveNode? ==> DistinctSiblings(d.rootNode)
    ensures ModifyDocument(ModifyDocument(d, m, e1), IntendedUndoModification(d, m, e1), e2) == d
  {
    match m
    case EditNode(id, edited) => UndoEditRestores(d, id, edited, e1, e2);
    case CreateNode(p, newId) => UndoCreateRestores(d, p, newId, e1, e2);
    case PasteNode(_, _) => AddThenDelete(d.rootNode, m, e1, e2);
    case MoveNode(id, dir) => MoveThenOpposite(d.rootNode, id, dir, e1, e2);
  }

  /** `HistoryManager`: the two stacks, tops at the ends of the sequences. */
  class HistoryManager {
    var undoStack: seq<Action>
    var redoStack: seq<Action>

    constructor ()
      ensures undoStack == [] && redoStack == []
    {
      undoStack := [];
      redoStack := [];
    }

    /** `register_document_modification`: records `m` with its inverse and applies it.
        The redo stack is left as it was. */
    method RegisterDocumentModification(d: Document, m: DocumentModification, e: Entropy) returns (r: Document)
      requires CanRecord(d, m)
      modifies this
      ensures undoStack == old(undoStack) + [Action(CreateUndoModification(d, m), m)]
      ensures redoStack == old(redoStack)
      ensures r == ModifyDocument(d, m, e)
    {
      undoStack := undoStack + [Action(CreateUndoModification(d, m), m)];
      r := ModifyDocument(d, m, e);
    }

    /** `undo_action`: pops the top undo entry onto the redo stack and applies its inverse;
        with nothing to undo, returns None and changes nothing. */
    method UndoAction(d: Document, e: Entropy) returns (r: Option<Document>)
      modifies this
      ensures old(undoStack) == [] ==> r.None? && undoStack == old(undoStack) && redoStack == old(redoStack)
      ensures old(undoStack) != [] ==>
                var top := old(undoStack)[|old(undoStack)| - 1];
                && undoStack == old(undoStack)[..|old(undoStack)| - 1]
                && redoStack == old(redoStack) + [top]
                && r == Some(ModifyDocument(d, top.undo, e))
      ensures |undoStack| + |redoStack| == old(|undoStack| + |redoStack|)
    {
      if undoStack == [] {
        return None;
      }
      var action := undoStack[|undoStack| - 1];
      undoStack := undoStack[..|undoStack| - 1];
      redoStack := redoStack + [action];
      return Some(ModifyDocument(d, action.undo, e));
    }

    /** `redo_action`: the mirror image of UndoAction, applying the recorded modification. */
    method RedoAction(d: Document, e: Entropy) returns (r: Option<Document>)
      modifies this
      ensures old(redoStack) == [] ==> r.None? && undoStack == old(undoStack) && redoStack == old(redoStack)
      ensures old(redoStack) != [] ==>
                var top := old(redoStack)[|old(redoStack)| - 1];
                && redoStack == old(redoStack)[..|old(redoStack)| - 1]
                && undoStack == old(undoStack) + [top]
                && r == Some(ModifyDocument(d, top.redo, e))
      ensures |undoStack| + |redoStack| == old(|undoStack| + |redoStack|)
    {
      if redoStack == [] {
        return None;
      }
      var action := redoStack[|redoStack| - 1];
      redoStack := redoStack[..|redoStack| - 1];
      undoStack := undoStack + [action];
      return Some(ModifyDocument(d, action.redo, e));
    }
  }

  /** Registering an Edit (unique ids, id present) or a Create (fresh new id) and undoing it
      gives the document back; the entry ends up on the redo stack, and redoing then
      re-applies the modification. */
  method RegisterUndoRedo(h: HistoryManager, d: Document, m: DocumentModification, e1: Entropy, e2: Entropy, e3: Entropy)
      returns (applied: Document, undone: Option<Document>, redone: Option<Document>)
    requires m.EditNode? ==> UniqueIds(d.rootNode) && GetNode(d, m.target).Some?
    requires m.CreateNode? ==> forall x :: x in PreOrder(d.rootNode) ==> x.id != m.newId
    requires m.EditNode? || m.CreateNode?
    modifies h
    ensures applied == ModifyDocument(d, m, e1)
    ensures undone == Some(d)
    ensures redone == Some(ModifyDocument(d, m, e3))
    ensures h.undoStack == old(h.undoStack) + [Action(CreateUndoModification(d, m), m)]
    ensures h.redoStack == old(h.redoStack)
  {
    applied := h.RegisterDocumentModification(d, m, e1);
    undone := h.UndoAction(applied, e2);
    match m {
      case EditNode(id, edited) => UndoEditRestores(d, id, edited, e1, e2);
      case CreateNode(p, newId) => UndoCreateRestores(d, p, newId, e1, e2);
    }
    redone := h.RedoAction(d, e3);
  }
}
