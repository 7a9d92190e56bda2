/** Tree lookups, path listing, the sibling-name check and the modification algebra
    that rewrites a document for one edit. */
module Utils {
  import opened Types
  import opened Tree
  import opened Seqs

  // ---------------------------------------------------------------------------
  // Lookups
  // ---------------------------------------------------------------------------

  /** The first node of `s` carrying `id`. */
  function FirstWithId(s: seq<Node>, id: uint32): (r: Option<Node>)
    ensures r.Some? ==> r.value in s && r.value.id == id
    ensures r.None? <==> forall x :: x in s ==> x.id != id
  {
    if s == [] then None
    else if s[0].id == id then Some(s[0])
    else FirstWithId(s[1..], id)
  }

  lemma {:induction false} FirstWithIdAppend(a: seq<Node>, b: seq<Node>, id: uint32)
    ensures FirstWithId(a + b, id) == if FirstWithId(a, id).Some? then FirstWithId(a, id) else FirstWithId(b, id)
  {
    if a != [] {
      assert (a + b)[1..] == a[1..] + b;
      FirstWithIdAppend(a[1..], b, id);
    } else {
      assert a + b == b;
    }
  }

  /** `get_node_by_id`: the root if it carries `id`, else the first match among the
      children's subtrees, in order. */
  function GetNodeById(node: Node, id: uint32): (r: Option<Node>)
    ensures r == FirstWithId(PreOrder(node), id)
    decreases node
  {
    if node.id == id then Some(node) else FirstInChildren(node.children, id)
  }

  function FirstInChildren(cs: seq<Node>, id: uint32): (r: Option<Node>)
    ensures r == FirstWithId(PreOrderForest(cs), id)
    decreases cs
  {
    if cs == [] then None
    else
      FirstWithIdAppend(PreOrder(cs[0]), PreOrderForest(cs[1..]), id);
      match GetNodeById(cs[0], id)
      case Some(x) => Some(x)
      case None => FirstInChildren(cs[1..], id)
  }

  /** `Document::get_node`. */
  function GetNode(d: Document, id: uint32): (r: Option<Node>)
    ensures r.Some? ==> r.value in PreOrder(d.rootNode) && r.value.id == id
    ensures r.None? <==> forall x :: x in PreOrder(d.rootNode) ==> x.id != id
  {
    GetNodeById(d.rootNode, id)
  }

  /** `x` has a direct child carrying `id`. */
  predicate HasChild(x: Node, id: uint32)
  {
    exists c :: c in x.children && c.id == id
  }

  /** `get_node_parent`: the id of the node holding a child with `id`, searching the
      children in order and each child's subtree before the next child. */
  function GetNodeParent(node: Node, id: uint32): (r: Option<uint32>)
    ensures r.Some? ==> exists x :: x in PreOrder(node) && x.id == r.value && HasChild(x, id)
    ensures r.None? <==> node.id == id || forall x :: x in PreOrder(node) ==> !HasChild(x, id)
    decreases node
  {
    if node.id == id then None else ParentInChildren(node.id, node.children, id)
  }

  function ParentInChildren(parentId: uint32, cs: seq<Node>, id: uint32): (r: Option<uint32>)
    ensures r.Some? ==> (r.value == parentId && exists c :: c in cs && c.id == id)
                        || exists x :: x in PreOrderForest(cs) && x.id == r.value && HasChild(x, id)
    ensures r.None? <==> (forall c :: c in cs ==> c.id != id) && forall x :: x in PreOrderForest(cs) ==> !HasChild(x, id)
    decreases cs
  {
    if cs == [] then None
    else if cs[0].id == id then Some(parentId)
    else
      match GetNodeParent(cs[0], id)
      case Some(p) => Some(p)
      case None => ParentInChildren(parentId, cs[1..], id)
  }

  // ---------------------------------------------------------------------------
  // Path listing
  // ---------------------------------------------------------------------------

  /** A node name as it appears in a path: every '/' becomes "\/". */
  function Escape(name: string): (r: string)
    ensures (forall i :: 0 <= i < |name| ==> name[i] != '/') ==> r == name
  {
    if name == [] then []
    else
      var head := if name[0] == '/' then "\\/" else [name[0]];
      head + Escape(name[1..])
  }

  /** Escaping works character by character: it distributes over concatenation. */
  lemma {:induction false} EscapeAppend(a: string, b: string)
    ensures Escape(a + b) == Escape(a) + Escape(b)
  {
    if a != [] {
      assert (a + b)[0] == a[0] && (a + b)[1..] == a[1..] + b;
      EscapeAppend(a[1..], b);
      var head := if a[0] == '/' then "\\/" else [a[0]];
      AppendAssoc(head, Escape(a[1..]), Escape(b));
    } else {
      assert a + b == b;
    }
  }

  /** A single '/' becomes a backslash and the '/'; any other character is kept. */
  lemma EscapeChar(c: char)
    ensures Escape([c]) == if c == '/' then "\\/" else [c]
  {
    assert [c][1..] == [];
  }

  /** An escaped name is longer than the name by one backslash per '/'. */
  lemma {:induction false} EscapeLength(name: string)
    ensures |Escape(name)| == |name| + multiset(name)['/']
  {
    if name != [] {
      EscapeLength(name[1..]);
      assert name == [name[0]] + name[1..];
      assert multiset(name) == multiset([name[0]]) + multiset(name[1..]);
    }
  }

  predicate SlashesEscaped(r: string)
  {
    forall i :: 0 <= i < |r| && r[i] == '/' ==> 0 < i && r[i - 1] == '\\'
  }

  /** Every '/' of an escaped name follows a backslash. Backslashes themselves are not
      escaped, so this does not make paths unambiguous: see `BackslashPathsCollide`. */
  lemma {:induction false} EscapeMarksSlashes(name: string)
    ensures SlashesEscaped(Escape(name))
  {
    if name != [] {
      var head := if name[0] == '/' then "\\/" else [name[0]];
      var tail := Escape(name[1..]);
      EscapeMarksSlashes(name[1..]);
      var r := head + tail;
      assert SlashesEscaped(tail);
      forall i | 0 <= i < |r| && r[i] == '/'
        ensures 0 < i && r[i - 1] == '\\'
      {
        if i < |head| {
          assert r[i] == head[i] && r[0] == head[0];
        } else {
          var j := i - |head|;
          assert tail[j] == '/';
          assert 0 < j && tail[j - 1] == '\\';
          assert r[i - 1] == tail[j - 1];
        }
      }
    }
  }

  /** A node named `a\` holding a child named `b` lists that child under the same path as a
      node named `a/b`: both entries read `a\/b` after the parent's prefix, so a `path:`
      reference cannot tell them apart. */
  lemma BackslashPathsCollide(parentPath: Option<string>, x: Node, y: Node)
    requires x.name == "a\\" && |x.children| >= 1 && x.children[0].name == "b" && y.name == "a/b"
    ensures |TreeVec(x, parentPath)| >= 2
    ensures TreeVec(x, parentPath)[1].0 == TreeVec(y, parentPath)[0].0 == PathPrefix(parentPath) + "a\\/b"
  {
    var path := PathPrefix(parentPath) + Escape(x.name);
    assert Escape(x.name) == "a\\" by {
      assert x.name[1..] == "\\" && x.name[1..][1..] == [];
    }
    assert Escape("b") == "b";
    assert Escape(y.name) == "a\\/b" by {
      assert y.name[1..] == "/b" && y.name[1..][1..] == "b" && y.name[1..][1..][1..] == [];
    }
    var first := TreeVec(x.children[0], Some(path));
    assert first[0] == (path + "/" + "b", x.children[0].id);
    assert TreeVecForest(x.children, path) == first + TreeVecForest(x.children[1..], path);
  }

  function PathPrefix(parentPath: Option<string>): string
  {
    match parentPath
    case Some(p) => p + "/"
    case None => ""
  }

  /** `node_to_tree_vec` as a value: one (path, id) entry per node, in pre-order. */
  function TreeVec(node: Node, parentPath: Option<string>): (r: seq<(string, uint32)>)
    decreases node
  {
    var path := PathPrefix(parentPath) + Escape(node.name);
    [(path, node.id)] + TreeVecForest(node.children, path)
  }

  function TreeVecForest(cs: seq<Node>, parentPath: string): (r: seq<(string, uint32)>)
    decreases cs
  {
    if cs == [] then []
    else TreeVec(cs[0], Some(parentPath)) + TreeVecForest(cs[1..], parentPath)
  }

  lemma {:induction false} TreeVecForestAppend(a: seq<Node>, b: seq<Node>, parentPath: string)
    ensures TreeVecForest(a + b, parentPath) == TreeVecForest(a, parentPath) + TreeVecForest(b, parentPath)
  {
    if a == [] {
      assert a + b == b;
    } else {
      assert (a + b)[1..] == a[1..] + b;
      TreeVecForestAppend(a[1..], b, parentPath);
    }
  }

  lemma TreeVecForestSnoc(cs: seq<Node>, c: Node, parentPath: string)
    ensures TreeVecForest(cs + [c], parentPath) == TreeVecForest(cs, parentPath) + TreeVec(c, Some(parentPath))
  {
    TreeVecForestAppend(cs, [c], parentPath);
    assert [c][1..] == [];
  }

  lemma TreeVecForestPrefix(cs: seq<Node>, i: nat, parentPath: string)
    requires i < |cs|
    ensures TreeVecForest(cs[..i + 1], parentPath) == TreeVecForest(cs[..i], parentPath) + TreeVec(cs[i], Some(parentPath))
  {
    assert cs[..i + 1] == cs[..i] + [cs[i]];
    TreeVecForestSnoc(cs[..i], cs[i], parentPath);
  }

  /** One child's entries appended after those of the children before it. */
  lemma TreeVecLoopStep(acc: seq<(string, uint32)>, head: seq<(string, uint32)>, children: seq<Node>, i: nat, path: string,
                        sub: seq<(string, uint32)>)
    requires i < |children|
    requires acc == head + TreeVecForest(children[..i], path)
    requires sub == [] + TreeVec(children[i], Some(path))
    ensures acc + sub == head + TreeVecForest(children[..i + 1], path)
  {
    TreeVecForestPrefix(children, i, path);
    AppendAssoc(head, TreeVecForest(children[..i], path), TreeVec(children[i], Some(path)));
  }

  /** `node_to_tree_vec`: appends to `nodesVec` the entry of `node` and then, child by
      child, the entries of each child's subtree under the node's path. */
  method NodeToTreeVec(node: Node, nodesVec: seq<(string, uint32)>, rootNode: Option<string>)
    returns (newVec: seq<(string, uint32)>)
    ensures newVec == nodesVec + TreeVec(node, rootNode)
    decreases node
  {
    newVec := nodesVec;
    var val := PathPrefix(rootNode);
    var name := Escape(node.name);
    var path := val + name;
    newVec := newVec + [(path, node.id)];
    ghost var head := nodesVec + [(path, node.id)];
    var children := node.children;
    for i := 0 to |children|
      invariant newVec == head + TreeVecForest(children[..i], path)
    {
      var sub := NodeToTreeVec(children[i], [], Some(val + name));
      TreeVecLoopStep(newVec, head, children, i, path, sub);
      newVec := newVec + sub;
    }
    assert children[..|children|] == children;
    AppendAssoc(nodesVec, [(path, node.id)], TreeVecForest(children, path));
  }

  // ---------------------------------------------------------------------------
  // Sibling-name check
  // ---------------------------------------------------------------------------

  /** `n` has a child carrying `id` and a different-id child named `name`. */
  predicate Conflict(n: Node, id: uint32, name: string)
  {
    && (exists c :: c in n.children && c.id == id)
    && (exists c :: c in n.children && c.name == name && c.id != id)
  }

  /** `find_node_with_same_name_in_same_parent_node`: None when some node of the tree has a
      child carrying `id` next to a different-id child named `name`; otherwise the root
      itself. So `Some` means "no conflict". */
  function FindNodeWithSameName(node: Node, id: uint32, name: string): (r: Option<Node>)
    ensures r.Some? ==> r.value == node
    ensures r.None? <==> exists x :: x in PreOrder(node) && Conflict(x, id, name)
    decreases node
  {
    if Conflict(node, id, name) then None
    else if NoConflictIn(node.children, id, name) then Some(node)
    else None
  }

  predicate NoConflictIn(cs: seq<Node>, id: uint32, name: string)
    ensures NoConflictIn(cs, id, name) <==> forall x :: x in PreOrderForest(cs) ==> !Conflict(x, id, name)
    decreases cs
  {
    cs == [] || (FindNodeWithSameName(cs[0], id, name).Some? && NoConflictIn(cs[1..], id, name))
  }

  // ---------------------------------------------------------------------------
  // Modification algebra
  // ---------------------------------------------------------------------------

  datatype MoveDirection = Up | Down

  datatype DocumentModification =
    | EditNode(target: uint32, edited: Node)
    | DeleteNode(target: uint32)
    | CreateNode(parent: uint32, newId: uint32)
    | MoveNode(target: uint32, direction: MoveDirection)
    | PasteNode(copied: Node, parent: uint32)

  function DigitChar(d: nat): char
    requires d < 10
  {
    ('0' as int + d) as char
  }

  /** The value of a string of decimal digits. */
  function DecimalValue(s: string): nat
    requires forall i :: 0 <= i < |s| ==> '0' <= s[i] <= '9'
  {
    if s == [] then 0 else DecimalValue(s[..|s| - 1]) * 10 + (s[|s| - 1] as int - '0' as int)
  }

  /** The decimal rendering of `n` (`to_string` of an unsigned integer). */
  function DecimalString(n: nat): (s: string)
    ensures |s| >= 1 && forall i :: 0 <= i < |s| ==> '0' <= s[i] <= '9'
    ensures s[0] == '0' ==> s == "0"
    ensures DecimalValue(s) == n
  {
    if n < 10 then [DigitChar(n)]
    else
      var prefix := DecimalString(n / 10);
      var s := prefix + [DigitChar(n % 10)];
      assert s[..|s| - 1] == prefix;
      s
  }

  /** The child that CreateNode appends: generated name, empty content, no children. */
  function CreatedNode(newId: uint32, suffix: uint16): Node
  {
    Node(newId, "New node (" + DecimalString(suffix as nat) + ")", "", [])
  }

  /** `randomize_node`: a copy whose node at child-index path `q` takes the id drawn
      for `path + q`. */
  function Randomize(n: Node, draw: seq<nat> -> uint32, path: seq<nat>): (r: Node)
    ensures r.id == draw(path) && r.name == n.name && r.content == n.content
    ensures |r.children| == |n.children|
    decreases n
  {
    Node(draw(path), n.name, n.content,
         seq(|n.children|, i requires 0 <= i < |n.children| => Randomize(n.children[i], draw, path + [i])))
  }

  /** The child that PasteNode appends under `target`: a randomized copy whose name gets the
      drawn decimal suffix exactly when the sibling check on `target` returns Some. */
  function PastedNode(target: Node, copied: Node, e: Entropy): Node
  {
    var suffix := if FindNodeWithSameName(target, copied.id, copied.name).Some?
                  then DecimalString(e.suffix as nat) else "";
    Randomize(copied, e.nodeIds, []).(name := copied.name + suffix)
  }

  /** The index of the first child carrying `id`. */
  function IndexOfId(cs: seq<Node>, id: uint32): (r: Option<nat>)
    ensures r.Some? ==> r.value < |cs| && cs[r.value].id == id && forall j :: 0 <= j < r.value ==> cs[j].id != id
    ensures r.None? <==> forall c :: c in cs ==> c.id != id
  {
    if cs == [] then None
    else if cs[0].id == id then Some(0)
    else match IndexOfId(cs[1..], id)
      case Some(k) => Some(k + 1)
      case None => None
  }

  /** `Vec::remove`. */
  function Remove<T>(s: seq<T>, k: nat): seq<T>
    requires k < |s|
  {
    s[..k] + s[k + 1..]
  }

  /** `Vec::insert`. */
  function Insert<T>(s: seq<T>, k: nat, x: T): seq<T>
    requires k <= |s|
  {
    s[..k] + [x] + s[k..]
  }

  /** The MoveNode rearrangement of a child list (`remove`, then `insert` or `push`). */
  function Relocate(cs: seq<Node>, k: nat, dir: MoveDirection): (r: seq<Node>)
    requires k < |cs|
    ensures |r| == |cs|
  {
    var element := cs[k];
    var rest := Remove(cs, k);
    match dir
    case Up => if k > 0 then Insert(rest, k - 1, element) else rest + [element]
    case Down => if k < |rest| then Insert(rest, k + 1, element) else Insert(rest, 0, element)
  }

  /** The MoveNode branch as the editor runs it: `remove` the child from a local copy of the
      list, then `insert` it one place up or down, or `push`/`insert(0, _)` it at the other
      end when it was already first or last. */
  method MoveChildren(children: seq<Node>, index: nat, direction: MoveDirection) returns (newChildren: seq<Node>)
    requires index < |children|
    ensures newChildren == Relocate(children, index, direction)
  {
    newChildren := children;
    var element := newChildren[index];
    newChildren := newChildren[..index] + newChildren[index + 1..];
    match direction {
      case Up =>
        if index > 0 {
          newChildren := newChildren[..index - 1] + [element] + newChildren[index - 1..];
        } else {
          newChildren := newChildren + [element];
        }
      case Down =>
        if index < |newChildren| {
          newChildren := newChildren[..index + 1] + [element] + newChildren[index + 1..];
        } else {
          newChildren := [element] + newChildren;
        }
    }
  }

  /** Moving keeps the same children: a permutation of the list. */
  lemma RelocatePermutes(cs: seq<Node>, k: nat, dir: MoveDirection)
    requires k < |cs|
    ensures multiset(Relocate(cs, k, dir)) == multiset(cs)
  {
    var rest := Remove(cs, k);
    SliceAround(cs, k);
    assert multiset(cs) == multiset(rest) + multiset{cs[k]};
    var j: nat;
    if dir == Up {
      j := if k > 0 then k - 1 else |rest|;
    } else {
      j := if k < |rest| then k + 1 else 0;
    }
    assert Relocate(cs, k, dir) == rest[..j] + [cs[k]] + rest[j..];
    SliceJoin(rest, j);
    assert multiset(rest) == multiset(rest[..j]) + multiset(rest[j..]);
  }

  /** Up swaps with the previous sibling; the first child goes to the end instead. */
  lemma RelocateUp(cs: seq<Node>, k: nat)
    requires k < |cs|
    ensures k > 0 ==> Relocate(cs, k, Up) == cs[..k - 1] + [cs[k], cs[k - 1]] + cs[k + 1..]
    ensures k == 0 ==> Relocate(cs, k, Up) == cs[1..] + [cs[0]]
  {
    var rest := Remove(cs, k);
    if k > 0 {
      assert rest[..k - 1] == cs[..k - 1];
      assert rest[k - 1..] == [cs[k - 1]] + cs[k + 1..];
    }
  }

  /** Down swaps with the next sibling; the last child goes to the front instead. */
  lemma RelocateDown(cs: seq<Node>, k: nat)
    requires k < |cs|
    ensures k < |cs| - 1 ==> Relocate(cs, k, Down) == cs[..k] + [cs[k + 1], cs[k]] + cs[k + 2..]
    ensures k == |cs| - 1 ==> Relocate(cs, k, Down) == [cs[k]] + cs[..k]
  {
    var rest := Remove(cs, k);
    if k < |cs| - 1 {
      assert rest[..k + 1] == cs[..k] + [cs[k + 1]];
      assert rest[k + 1..] == cs[k + 2..];
    } else {
      assert rest == cs[..k];
    }
  }

  /** The id an Edit, Create or Paste acts at. */
  function TargetId(m: DocumentModification): uint32
    requires m.EditNode? || m.CreateNode? || m.PasteNode?
  {
    match m
    case EditNode(id, _) => id
    case CreateNode(id, _) => id
    case PasteNode(_, id) => id
  }

  /** What an Edit, Create or Paste does to a node carrying its target id: Edit replaces
      name and content, Create and Paste append one child. */
  function AtTarget(node: Node, m: DocumentModification, e: Entropy): (r: Node)
    requires m.EditNode? || m.CreateNode? || m.PasteNode?
    ensures r.id == node.id
  {
    match m
    case EditNode(_, edited) => node.(name := edited.name, content := edited.content)
    case CreateNode(_, newId) => node.(children := node.children + [CreatedNode(newId, e.suffix)])
    case PasteNode(copied, _) => node.(children := node.children + [PastedNode(node, copied, e)])
  }

  /** `modify_node`: rewrites the tree for one modification. */
  function ModifyNode(node: Node, m: DocumentModification, e: Entropy): (r: Node)
    ensures r.id == node.id
    decreases node, 1
  {
    match m
    case EditNode(id, _) =>
      if node.id == id then AtTarget(node, m, e)
      else node.(children := ModifyForest(node.children, m, e))
    case DeleteNode(id) =>
      node.(children := ModifyForest(node.children, m, e))
    case CreateNode(id, _) =>
      if node.id == id then AtTarget(node, m, e)
      else node.(children := ModifyForest(node.children, m, e))
    case MoveNode(id, direction) =>
      (match IndexOfId(node.children, id)
       case Some(k) => node.(children := Relocate(node.children, k, direction))
       case None => node.(children := ModifyForest(node.children, m, e)))
    case PasteNode(_, toPaste) =>
      if node.id == toPaste then AtTarget(node, m, e)
      else node.(children := ModifyForest(node.children, m, e))
  }

  /** The children of a node not matched by `m`, each rewritten in order; for DeleteNode the
      children carrying the target id are first filtered out. */
  function ModifyForest(cs: seq<Node>, m: DocumentModification, e: Entropy): (r: seq<Node>)
    ensures |r| <= |cs|
    ensures !m.DeleteNode? ==> |r| == |cs|
    decreases cs, 0
  {
    if cs == [] then []
    else if m.DeleteNode? && cs[0].id == m.target then ModifyForest(cs[1..], m, e)
    else [ModifyNode(cs[0], m, e)] + ModifyForest(cs[1..], m, e)
  }

  /** `modify_document`: the root rewritten, the resources untouched. */
  function ModifyDocument(d: Document, m: DocumentModification, e: Entropy): (r: Document)
    ensures r.resources == d.resources
    ensures r.rootNode.id == d.rootNode.id
  {
    d.(rootNode := ModifyNode(d.rootNode, m, e))
  }

  // ---------------------------------------------------------------------------
  // Properties of the path listing
  // ---------------------------------------------------------------------------

  /** One entry per node, in pre-order, the root's first. */
  lemma {:induction false} TreeVecEntries(node: Node, parentPath: Option<string>)
    ensures |TreeVec(node, parentPath)| == |PreOrder(node)|
    ensures forall i :: 0 <= i < |PreOrder(node)| ==> TreeVec(node, parentPath)[i].1 == PreOrder(node)[i].id
    ensures TreeVec(node, parentPath)[0] == (PathPrefix(parentPath) + Escape(node.name), node.id)
    decreases node, 1
  {
    TreeVecForestEntries(node.children, PathPrefix(parentPath) + Escape(node.name));
  }

  lemma {:induction false} TreeVecForestEntries(cs: seq<Node>, parentPath: string)
    ensures |TreeVecForest(cs, parentPath)| == |PreOrderForest(cs)|
    ensures forall i :: 0 <= i < |PreOrderForest(cs)| ==> TreeVecForest(cs, parentPath)[i].1 == PreOrderForest(cs)[i].id
    decreases cs, 0
  {
    if cs != [] {
      TreeVecEntries(cs[0], Some(parentPath));
      TreeVecForestEntries(cs[1..], parentPath);
    }
  }

  /** The entry of the j-th child sits right after the entries of the children before it,
      and its path is the parent's path, '/', and the child's escaped name. */
  lemma TreeVecChildEntry(node: Node, parentPath: Option<string>, j: nat)
    requires j < |node.children|
    ensures var path := PathPrefix(parentPath) + Escape(node.name);
            var k := 1 + |TreeVecForest(node.children[..j], path)|;
            k < |TreeVec(node, parentPath)| &&
            TreeVec(node, parentPath)[k] == (path + "/" + Escape(node.children[j].name), node.children[j].id)
  {
    var path := PathPrefix(parentPath) + Escape(node.name);
    var cs := node.children;
    assert cs == cs[..j] + [cs[j]] + cs[j + 1..];
    TreeVecForestAppend(cs[..j] + [cs[j]], cs[j + 1..], path);
    TreeVecForestSnoc(cs[..j], cs[j], path);
    TreeVecEntries(cs[j], Some(path));
  }

  // ---------------------------------------------------------------------------
  // Properties of the modification algebra
  // ---------------------------------------------------------------------------

  /** The tree holds nothing the modification acts on: no node carrying the target id
      (Edit, Create, Paste), or no non-root node carrying it (Delete, Move). */
  ghost predicate Untargeted(n: Node, m: DocumentModification)
  {
    match m
    case EditNode(id, _) => forall x :: x in PreOrder(n) ==> x.id != id
    case CreateNode(id, _) => forall x :: x in PreOrder(n) ==> x.id != id
    case PasteNode(_, id) => forall x :: x in PreOrder(n) ==> x.id != id
    case DeleteNode(id) => forall x :: x in PreOrderForest(n.children) ==> x.id != id
    case MoveNode(id, _) => forall x :: x in PreOrderForest(n.children) ==> x.id != id
  }

  lemma ChildrenUntargeted(n: Node, m: DocumentModification)
    requires Untargeted(n, m)
    ensures forall c :: c in n.children ==> Untargeted(c, m)
    ensures (m.DeleteNode? || m.MoveNode?) ==> forall c :: c in n.children ==> c.id != m.target
  {
    forall c | c in n.children
      ensures Untargeted(c, m)
      ensures (m.DeleteNode? || m.MoveNode?) ==> c.id != m.target
    {
      var k :| 0 <= k < |n.children| && n.children[k] == c;
      ChildPreOrderIncluded(n.children, k);
    }
  }

  /** A modification whose target is absent returns the tree unchanged. */
  lemma {:induction false} ModifyUntargeted(n: Node, m: DocumentModification, e: Entropy)
    requires Untargeted(n, m)
    ensures ModifyNode(n, m, e) == n
    decreases n, 1
  {
    ChildrenUntargeted(n, m);
    ModifyForestUntargeted(n.children, m, e);
    if m.MoveNode? {
      assert IndexOfId(n.children, m.target).None?;
    }
  }

  lemma {:induction false} ModifyForestUntargeted(cs: seq<Node>, m: DocumentModification, e: Entropy)
    requires forall c :: c in cs ==> Untargeted(c, m)
    requires (m.DeleteNode? || m.MoveNode?) ==> forall c :: c in cs ==> c.id != m.target
    ensures ModifyForest(cs, m, e) == cs
    decreases cs, 0
  {
    if cs != [] {
      ModifyUntargeted(cs[0], m, e);
      ModifyForestUntargeted(cs[1..], m, e);
      assert cs == [cs[0]] + cs[1..];
    }
  }

  function MapAtTarget(r: Option<Node>, m: DocumentModification, e: Entropy): Option<Node>
    requires m.EditNode? || m.CreateNode? || m.PasteNode?
  {
    match r
    case None => None
    case Some(y) => Some(AtTarget(y, m, e))
  }

  /** After an Edit, Create or Paste, looking the target id up finds the node the lookup
      found before, with the change applied; an absent target stays absent. */
  lemma {:induction false} ModifyFindsTarget(n: Node, m: DocumentModification, e: Entropy)
    requires m.EditNode? || m.CreateNode? || m.PasteNode?
    ensures GetNodeById(ModifyNode(n, m, e), TargetId(m)) == MapAtTarget(GetNodeById(n, TargetId(m)), m, e)
    decreases n, 1
  {
    if n.id != TargetId(m) {
      ModifyForestFindsTarget(n.children, m, e);
    }
  }

  lemma {:induction false} ModifyForestFindsTarget(cs: seq<Node>, m: DocumentModification, e: Entropy)
    requires m.EditNode? || m.CreateNode? || m.PasteNode?
    ensures FirstInChildren(ModifyForest(cs, m, e), TargetId(m)) == MapAtTarget(FirstInChildren(cs, TargetId(m)), m, e)
    decreases cs, 0
  {
    if cs != [] {
      var rs := ModifyForest(cs, m, e);
      ConsTail(ModifyNode(cs[0], m, e), ModifyForest(cs[1..], m, e));
      ModifyFindsTarget(cs[0], m, e);
      ModifyForestFindsTarget(cs[1..], m, e);
    }
  }

  /** Edit's frame: over the pre-order listing, exactly the labels carrying the id get the
      new name and content; ids, arities and order are unchanged everywhere. */
  function Relabel(ls: seq<Label>, id: uint32, name: string, content: string): (r: seq<Label>)
    ensures |r| == |ls|
  {
    seq(|ls|, i requires 0 <= i < |ls| => if ls[i].id == id then ls[i].(name := name, content := content) else ls[i])
  }

  lemma RelabelAppend(a: seq<Label>, b: seq<Label>, id: uint32, name: string, content: string)
    ensures Relabel(a + b, id, name, content) == Relabel(a, id, name, content) + Relabel(b, id, name, content)
  {
  }

  lemma EditLabels(n: Node, id: uint32, x: Node, e: Entropy)
    requires UniqueIds(n)
    ensures Labels(PreOrder(ModifyNode(n, EditNode(id, x), e))) == Relabel(Labels(PreOrder(n)), id, x.name, x.content)
  {
    UniqueNotNested(n, id);
    EditLabelsNotNested(n, id, x, e);
  }

  lemma {:induction false} EditLabelsNotNested(n: Node, id: uint32, x: Node, e: Entropy)
    requires NotNested(n, id)
    ensures Labels(PreOrder(ModifyNode(n, EditNode(id, x), e))) == Relabel(Labels(PreOrder(n)), id, x.name, x.content)
    decreases n, 1
  {
    var r := ModifyNode(n, EditNode(id, x), e);
    var below := Labels(PreOrderForest(n.children));
    LabelsAppend([n], PreOrderForest(n.children));
    LabelsAppend([r], PreOrderForest(r.children));
    RelabelAppend(Labels([n]), below, id, x.name, x.content);
    if n.id == id {
      assert Relabel(below, id, x.name, x.content) == below by {
        assert forall y :: y in PreOrderForest(n.children) ==> y.id != id;
      }
    } else {
      forall c | c in n.children ensures NotNested(c, id) {
        ChildDescendantsIncluded(n, c);
      }
      EditLabelsForest(n.children, id, x, e);
    }
  }

  lemma {:induction false} EditLabelsForest(cs: seq<Node>, id: uint32, x: Node, e: Entropy)
    requires forall c :: c in cs ==> NotNested(c, id)
    ensures Labels(PreOrderForest(ModifyForest(cs, EditNode(id, x), e))) == Relabel(Labels(PreOrderForest(cs)), id, x.name, x.content)
    decreases cs, 0
  {
    if cs != [] {
      var m := EditNode(id, x);
      var rs := ModifyForest(cs, m, e);
      assert rs[0] == ModifyNode(cs[0], m, e) && rs[1..] == ModifyForest(cs[1..], m, e);
      EditLabelsNotNested(cs[0], id, x, e);
      EditLabelsForest(cs[1..], id, x, e);
      LabelsAppend(PreOrder(rs[0]), PreOrderForest(rs[1..]));
      LabelsAppend(PreOrder(cs[0]), PreOrderForest(cs[1..]));
      RelabelAppend(Labels(PreOrder(cs[0])), Labels(PreOrderForest(cs[1..])), id, x.name, x.content);
    }
  }

  /** Editing twice at the same id is the same as the second edit alone. */
  lemma {:induction false} EditTwice(n: Node, id: uint32, a: Node, b: Node, e1: Entropy, e2: Entropy)
    ensures ModifyNode(ModifyNode(n, EditNode(id, a), e1), EditNode(id, b), e2) == ModifyNode(n, EditNode(id, b), e2)
    decreases n, 1
  {
    if n.id != id {
      EditTwiceForest(n.children, id, a, b, e1, e2);
    }
  }

  lemma {:induction false} EditTwiceForest(cs: seq<Node>, id: uint32, a: Node, b: Node, e1: Entropy, e2: Entropy)
    ensures ModifyForest(ModifyForest(cs, EditNode(id, a), e1), EditNode(id, b), e2) == ModifyForest(cs, EditNode(id, b), e2)
    decreases cs, 0
  {
    if cs != [] {
      var rs := ModifyForest(cs, EditNode(id, a), e1);
      assert rs[0] == ModifyNode(cs[0], EditNode(id, a), e1) && rs[1..] == ModifyForest(cs[1..], EditNode(id, a), e1);
      EditTwice(cs[0], id, a, b, e1, e2);
      EditTwiceForest(cs[1..], id, a, b, e1, e2);
    }
  }

  /** Editing with the name and content every node carrying the id already has changes nothing. */
  lemma {:induction false} EditSameChangesNothing(n: Node, id: uint32, b: Node, e: Entropy)
    requires forall x :: x in PreOrder(n) && x.id == id ==> x.name == b.name && x.content == b.content
    ensures ModifyNode(n, EditNode(id, b), e) == n
    decreases n, 1
  {
    if n.id != id {
      forall c | c in n.children
        ensures forall x :: x in PreOrder(c) && x.id == id ==> x.name == b.name && x.content == b.content
      {
        ChildDescendantsIncluded(n, c);
      }
      EditSameForest(n.children, id, b, e);
    }
  }

  lemma {:induction false} EditSameForest(cs: seq<Node>, id: uint32, b: Node, e: Entropy)
    requires forall c, x :: c in cs && x in PreOrder(c) && x.id == id ==> x.name == b.name && x.content == b.content
    ensures ModifyForest(cs, EditNode(id, b), e) == cs
    decreases cs, 0
  {
    if cs != [] {
      EditSameChangesNothing(cs[0], id, b, e);
      EditSameForest(cs[1..], id, b, e);
      assert cs == [cs[0]] + cs[1..];
    }
  }

  function ChildIds(cs: seq<Node>): (ids: seq<uint32>)
    ensures |ids| == |cs| && forall i :: 0 <= i < |cs| ==> ids[i] == cs[i].id
  {
    if cs == [] then [] else [cs[0].id] + ChildIds(cs[1..])
  }

  function Without(ids: seq<uint32>, id: uint32): (r: seq<uint32>)
    ensures forall x :: x in r <==> x in ids && x != id
  {
    if ids == [] then [] else (if ids[0] == id then [] else [ids[0]]) + Without(ids[1..], id)
  }

  /** The children that survive a Delete of `id`: those not carrying it, in their order. */
  function Survivors(cs: seq<Node>, id: uint32): (s: seq<Node>)
    ensures forall c :: c in s <==> c in cs && c.id != id
    ensures ChildIds(s) == Without(ChildIds(cs), id)
  {
    if cs == [] then []
    else
      var rest := Survivors(cs[1..], id);
      assert ChildIds(cs)[1..] == ChildIds(cs[1..]);
      assert forall c :: c in cs <==> c == cs[0] || c in cs[1..];
      if cs[0].id == id then rest
      else
        assert ChildIds([cs[0]] + rest) == [cs[0].id] + ChildIds(rest);
        [cs[0]] + rest
  }

  /** Delete keeps the root's own fields; its children are the surviving children in their
      order, each with the Delete applied inside it, so a surviving subtree that holds no
      node carrying the id comes through unchanged; and no node below the root carries the
      id any more. */
  lemma {:induction false} DeleteEffect(n: Node, id: uint32, e: Entropy)
    ensures var r := ModifyNode(n, DeleteNode(id), e);
            var s := Survivors(n.children, id);
            && r.id == n.id && r.name == n.name && r.content == n.content
            && ChildIds(r.children) == Without(ChildIds(n.children), id)
            && |r.children| == |s|
            && (forall i :: 0 <= i < |s| ==> r.children[i] == ModifyNode(s[i], DeleteNode(id), e))
            && (forall i :: 0 <= i < |s| && (forall x :: x in PreOrder(s[i]) ==> x.id != id) ==> r.children[i] == s[i])
            && forall x :: x in PreOrderForest(r.children) ==> x.id != id
    decreases n, 1
  {
    var s := Survivors(n.children, id);
    DeleteForestEffect(n.children, id, e);
    forall i | 0 <= i < |s| && (forall x :: x in PreOrder(s[i]) ==> x.id != id)
      ensures ModifyNode(s[i], DeleteNode(id), e) == s[i]
    {
      ModifyUntargeted(s[i], DeleteNode(id), e);
    }
  }

  lemma {:induction false} DeleteForestEffect(cs: seq<Node>, id: uint32, e: Entropy)
    ensures var r := ModifyForest(cs, DeleteNode(id), e);
            var s := Survivors(cs, id);
            && |r| == |s|
            && (forall i :: 0 <= i < |s| ==> r[i] == ModifyNode(s[i], DeleteNode(id), e))
            && ChildIds(r) == Without(ChildIds(cs), id)
    ensures forall x :: x in PreOrderForest(ModifyForest(cs, DeleteNode(id), e)) ==> x.id != id
    decreases cs, 0
  {
    if cs != [] {
      var m := DeleteNode(id);
      var rest := ModifyForest(cs[1..], m, e);
      DeleteForestEffect(cs[1..], id, e);
      assert ChildIds(cs)[1..] == ChildIds(cs[1..]);
      if cs[0].id != id {
        var c := ModifyNode(cs[0], m, e);
        DeleteEffect(cs[0], id, e);
        assert ModifyForest(cs, m, e) == [c] + rest;
        assert ([c] + rest)[1..] == rest;
        assert Survivors(cs, id) == [cs[0]] + Survivors(cs[1..], id);
      }
    }
  }

  lemma {:induction false} ModifyForestAppend(a: seq<Node>, b: seq<Node>, m: DocumentModification, e: Entropy)
    ensures ModifyForest(a + b, m, e) == ModifyForest(a, m, e) + ModifyForest(b, m, e)
  {
    if a == [] {
      assert a + b == b;
    } else {
      TailAppend(a, b);
      ModifyForestAppend(a[1..], b, m, e);
      if !(m.DeleteNode? && a[0].id == m.target) {
        AppendAssoc([ModifyNode(a[0], m, e)], ModifyForest(a[1..], m, e), ModifyForest(b, m, e));
      }
    }
  }

  /** The id of the child a Create or Paste appends: the given new id, or the id drawn for
      the root of the pasted copy. */
  function AddedId(m: DocumentModification, e: Entropy): uint32
    requires m.CreateNode? || m.PasteNode?
  {
    if m.CreateNode? then m.newId else e.nodeIds([])
  }

  /** Deleting the id that a Create or Paste gave its new child gives the tree back, when
      that id was fresh. */
  lemma {:induction false} AddThenDelete(n: Node, m: DocumentModification, e1: Entropy, e2: Entropy)
    requires m.CreateNode? || m.PasteNode?
    requires forall x :: x in PreOrder(n) ==> x.id != AddedId(m, e1)
    ensures ModifyNode(ModifyNode(n, m, e1), DeleteNode(AddedId(m, e1)), e2) == n
    decreases n, 1
  {
    if n.id == TargetId(m) {
      AddThenDeleteAtTarget(n, m, e1, e2);
    } else {
      assert forall x :: x in PreOrderForest(n.children) ==> x in PreOrder(n);
      AddThenDeleteForest(n.children, m, e1, e2);
    }
  }

  /** The node the new child was appended to: deleting it drops the new child and finds
      nothing else to delete. */
  lemma AddThenDeleteAtTarget(n: Node, m: DocumentModification, e1: Entropy, e2: Entropy)
    requires m.CreateNode? || m.PasteNode?
    requires n.id == TargetId(m)
    requires forall x :: x in PreOrder(n) ==> x.id != AddedId(m, e1)
    ensures ModifyNode(ModifyNode(n, m, e1), DeleteNode(AddedId(m, e1)), e2) == n
  {
    var k := AddedId(m, e1);
    var del := DeleteNode(k);
    var r := ModifyNode(n, m, e1);
    var added := r.children[|n.children|];
    assert r == n.(children := n.children + [added]);
    assert ModifyForest(n.children, del, e2) == n.children by {
      forall c | c in n.children ensures forall x :: x in PreOrder(c) ==> x.id != k {
        ChildDescendantsIncluded(n, c);
      }
      ChildrenUntargeted(n, del);
      ModifyForestUntargeted(n.children, del, e2);
    }
    assert ModifyForest(r.children, del, e2) == n.children by {
      ModifyForestAppend(n.children, [added], del, e2);
      assert ModifyForest([added], del, e2) == [];
    }
    assert ModifyNode(r, del, e2) == r.(children := ModifyForest(r.children, del, e2));
  }

  lemma {:induction false} AddThenDeleteForest(cs: seq<Node>, m: DocumentModification, e1: Entropy, e2: Entropy)
    requires m.CreateNode? || m.PasteNode?
    requires forall x :: x in PreOrderForest(cs) ==> x.id != AddedId(m, e1)
    ensures ModifyForest(ModifyForest(cs, m, e1), DeleteNode(AddedId(m, e1)), e2) == cs
    decreases cs, 0
  {
    if cs != [] {
      var rs := ModifyForest(cs, m, e1);
      assert rs[0] == ModifyNode(cs[0], m, e1) && rs[1..] == ModifyForest(cs[1..], m, e1);
      assert PreOrderForest(cs) == PreOrder(cs[0]) + PreOrderForest(cs[1..]);
      AddThenDelete(cs[0], m, e1, e2);
      AddThenDeleteForest(cs[1..], m, e1, e2);
      HeadTail(cs);
    }
  }

  // ---------------------------------------------------------------------------
  // Moving back
  // ---------------------------------------------------------------------------

  function Opposite(dir: MoveDirection): MoveDirection
  {
    if dir == Up then Down else Up
  }

  /** Where Relocate puts the moved child. */
  function MovedTo(len: nat, k: nat, dir: MoveDirection): nat
    requires k < len
  {
    match dir
    case Up => if k > 0 then k - 1 else len - 1
    case Down => if k < len - 1 then k + 1 else 0
  }

  /** Among siblings with distinct ids, the moved child is the first one carrying its id
      at its new place. */
  lemma RelocateFindsMoved(cs: seq<Node>, k: nat, dir: MoveDirection)
    requires k < |cs|
    requires forall i, j :: 0 <= i < j < |cs| ==> cs[i].id != cs[j].id
    ensures IndexOfId(Relocate(cs, k, dir), cs[k].id) == Some(MovedTo(|cs|, k, dir))
  {
    if dir == Up {
      MovedUpFirst(cs, k);
    } else {
      MovedDownFirst(cs, k);
    }
    IndexOfFirst(Relocate(cs, k, dir), cs[k].id, MovedTo(|cs|, k, dir));
  }

  /** The index of an id is the first position carrying it. */
  lemma IndexOfFirst(cs: seq<Node>, id: uint32, k: nat)
    requires k < |cs| && cs[k].id == id
    requires forall j :: 0 <= j < k ==> cs[j].id != id
    ensures IndexOfId(cs, id) == Some(k)
  {
    assert cs[k] in cs;
  }

  /** After moving up, the moved child is at its new place and no child before it shares
      its id. */
  lemma MovedUpFirst(cs: seq<Node>, k: nat)
    requires k < |cs|
    requires forall i, j :: 0 <= i < j < |cs| ==> cs[i].id != cs[j].id
    ensures var r := Relocate(cs, k, Up);
            var k' := MovedTo(|cs|, k, Up);
            r[k'] == cs[k] && forall j :: 0 <= j < k' ==> r[j].id != cs[k].id
  {
    var r := Relocate(cs, k, Up);
    RelocateUp(cs, k);
    if k > 0 {
      assert forall j :: 0 <= j < k - 1 ==> r[j] == cs[j];
    } else {
      assert forall j :: 0 <= j < |cs| - 1 ==> r[j] == cs[j + 1];
    }
  }

  /** After moving down, the moved child is at its new place and no child before it shares
      its id. */
  lemma MovedDownFirst(cs: seq<Node>, k: nat)
    requires k < |cs|
    requires forall i, j :: 0 <= i < j < |cs| ==> cs[i].id != cs[j].id
    ensures var r := Relocate(cs, k, Down);
            var k' := MovedTo(|cs|, k, Down);
            r[k'] == cs[k] && forall j :: 0 <= j < k' ==> r[j].id != cs[k].id
  {
    var r := Relocate(cs, k, Down);
    RelocateDown(cs, k);
    if k < |cs| - 1 {
      assert forall j :: 0 <= j < k ==> r[j] == cs[j];
      assert r[k] == cs[k + 1];
    }
  }

  /** Moving the moved child the opposite way from its new place restores the list. */
  lemma RelocateBack(cs: seq<Node>, k: nat, dir: MoveDirection)
    requires k < |cs|
    ensures Relocate(Relocate(cs, k, dir), MovedTo(|cs|, k, dir), Opposite(dir)) == cs
  {
    if dir == Up {
      RelocateBackUp(cs, k);
    } else {
      RelocateBackDown(cs, k);
    }
  }

  lemma RelocateBackUp(cs: seq<Node>, k: nat)
    requires k < |cs|
    ensures Relocate(Relocate(cs, k, Up), MovedTo(|cs|, k, Up), Down) == cs
  {
    if k > 0 {
      RelocateBackUpInner(cs, k);
    } else {
      var r := Relocate(cs, k, Up);
      RelocateUp(cs, k);
      RelocateDown(r, |cs| - 1);
      assert r[|cs| - 1] == cs[0];
      assert r[..|cs| - 1] == cs[1..];
      assert [cs[0]] + cs[1..] == cs;
    }
  }

  lemma RelocateBackUpInner(cs: seq<Node>, k: nat)
    requires 0 < k < |cs|
    ensures Relocate(Relocate(cs, k, Up), k - 1, Down) == cs
  {
    var r := Relocate(cs, k, Up);
    RelocateUp(cs, k);
    RelocateDown(r, k - 1);
    PairParts(cs[..k - 1], cs[k], cs[k - 1], cs[k + 1..]);
    PairAround(cs, k - 1);
  }

  lemma RelocateBackDown(cs: seq<Node>, k: nat)
    requires k < |cs|
    ensures Relocate(Relocate(cs, k, Down), MovedTo(|cs|, k, Down), Up) == cs
  {
    if k < |cs| - 1 {
      RelocateBackDownInner(cs, k);
    } else {
      RelocateBackDownWrap(cs);
    }
  }

  /** The last child moved down goes to the front; moved up from there, it goes back to the end. */
  lemma RelocateBackDownWrap(cs: seq<Node>)
    requires cs != []
    ensures Relocate(Relocate(cs, |cs| - 1, Down), 0, Up) == cs
  {
    var k := |cs| - 1;
    var r := Relocate(cs, k, Down);
    RelocateDown(cs, k);
    RelocateUp(r, 0);
    ConsTail(cs[k], cs[..k]);
    SliceLast(cs);
  }

  lemma RelocateBackDownInner(cs: seq<Node>, k: nat)
    requires k < |cs| - 1
    ensures Relocate(Relocate(cs, k, Down), k + 1, Up) == cs
  {
    var r := Relocate(cs, k, Down);
    RelocateDown(cs, k);
    RelocateUp(r, k + 1);
    PairParts(cs[..k], cs[k + 1], cs[k], cs[k + 2..]);
    PairAround(cs, k);
  }

  lemma {:induction false} ModifyForestKeepsIds(cs: seq<Node>, m: DocumentModification, e: Entropy)
    requires !m.DeleteNode?
    ensures forall i :: 0 <= i < |cs| ==> ModifyForest(cs, m, e)[i].id == cs[i].id
  {
    if cs != [] {
      ModifyForestKeepsIds(cs[1..], m, e);
    }
  }

  /** Every node of the tree has children with pairwise distinct ids. */
  ghost predicate DistinctSiblings(n: Node)
  {
    forall x :: x in PreOrder(n) ==> ChildIdsDistinct(x)
  }

  predicate ChildIdsDistinct(x: Node)
  {
    forall i, j :: 0 <= i < j < |x.children| ==> x.children[i].id != x.children[j].id
  }

  /** A modification that keeps every child rewrites each child in its place. */
  lemma {:induction false} ModifyForestPointwise(cs: seq<Node>, m: DocumentModification, e: Entropy)
    requires !m.DeleteNode?
    ensures forall i :: 0 <= i < |cs| ==> ModifyForest(cs, m, e)[i] == ModifyNode(cs[i], m, e)
  {
    if cs != [] {
      ModifyForestPointwise(cs[1..], m, e);
    }
  }

  /** When siblings have distinct ids, a move followed by the opposite move restores the tree. */
  lemma {:induction false} MoveThenOpposite(n: Node, id: uint32, dir: MoveDirection, e1: Entropy, e2: Entropy)
    requires DistinctSiblings(n)
    ensures ModifyNode(ModifyNode(n, MoveNode(id, dir), e1), MoveNode(id, Opposite(dir)), e2) == n
    decreases n, 1
  {
    if IndexOfId(n.children, id).Some? {
      assert ChildIdsDistinct(n) by {
        assert n in PreOrder(n);
      }
      MoveThenOppositeHere(n, id, dir, e1, e2);
    } else {
      MoveThenOppositeBelow(n, id, dir, e1, e2);
    }
  }

  /** The case where a child of `n` is the one moved: it is moved back from its new place. */
  lemma MoveThenOppositeHere(n: Node, id: uint32, dir: MoveDirection, e1: Entropy, e2: Entropy)
    requires ChildIdsDistinct(n) && IndexOfId(n.children, id).Some?
    ensures ModifyNode(ModifyNode(n, MoveNode(id, dir), e1), MoveNode(id, Opposite(dir)), e2) == n
  {
    var cs := n.children;
    var k := IndexOfId(cs, id).value;
    var r := Relocate(cs, k, dir);
    assert ModifyNode(n, MoveNode(id, dir), e1) == n.(children := r);
    RelocateFindsMoved(cs, k, dir);
    RelocateBack(cs, k, dir);
    assert ModifyNode(n.(children := r), MoveNode(id, Opposite(dir)), e2)
        == n.(children := Relocate(r, MovedTo(|cs|, k, dir), Opposite(dir)));
  }

  /** The case where no child of `n` is the one moved: both moves rewrite the children. */
  lemma {:induction false} MoveThenOppositeBelow(n: Node, id: uint32, dir: MoveDirection, e1: Entropy, e2: Entropy)
    requires DistinctSiblings(n) && IndexOfId(n.children, id).None?
    ensures ModifyNode(ModifyNode(n, MoveNode(id, dir), e1), MoveNode(id, Opposite(dir)), e2) == n
    decreases n, 0
  {
    var m1, m2 := MoveNode(id, dir), MoveNode(id, Opposite(dir));
    var cs := n.children;
    var rs := ModifyForest(cs, m1, e1);
    assert IndexOfId(rs, id).None? by {
      ModifyForestKeepsIds(cs, m1, e1);
    }
    var ts := ModifyForest(rs, m2, e2);
    ModifyForestPointwise(cs, m1, e1);
    ModifyForestPointwise(rs, m2, e2);
    forall i | 0 <= i < |cs|
      ensures ts[i] == cs[i]
    {
      assert DistinctSiblings(cs[i]) by {
        ChildDescendantsIncluded(n, cs[i]);
      }
      MoveThenOpposite(cs[i], id, dir, e1, e2);
    }
    assert ts == cs;
  }

  /** The nodes of a list of subtrees, as a multiset of labels. */
  ghost function Bag(cs: seq<Node>): multiset<Label>
  {
    multiset(Labels(PreOrderForest(cs)))
  }

  lemma BagAppend(a: seq<Node>, b: seq<Node>)
    ensures Bag(a + b) == Bag(a) + Bag(b)
  {
    PreOrderForestAppend(a, b);
    LabelsAppend(PreOrderForest(a), PreOrderForest(b));
  }

  lemma BagSplit(a: seq<Node>, x: Node, b: seq<Node>)
    ensures Bag(a + [x] + b) == Bag(a + b) + Bag([x])
  {
    BagAppend(a + [x], b);
    BagAppend(a, [x]);
    BagAppend(a, b);
  }

  lemma RelocateBag(cs: seq<Node>, k: nat, dir: MoveDirection)
    requires k < |cs|
    ensures Bag(Relocate(cs, k, dir)) == Bag(cs)
  {
    var rest := Remove(cs, k);
    var j: nat;
    if dir == Up {
      j := if k > 0 then k - 1 else |rest|;
    } else {
      j := if k < |rest| then k + 1 else 0;
    }
    assert Relocate(cs, k, dir) == rest[..j] + [cs[k]] + rest[j..];
    BagSplit(rest[..j], cs[k], rest[j..]);
    SliceJoin(rest, j);
    SliceAround(cs, k);
    BagSplit(cs[..k], cs[k], cs[k + 1..]);
  }

  /** The labels of a tree: its root's, then those of its subtrees. */
  lemma NodeBag(n: Node)
    ensures multiset(Labels(PreOrder(n))) == multiset{LabelOf(n)} + Bag(n.children)
  {
    LabelsAppend([n], PreOrderForest(n.children));
  }

  lemma BagFirst(cs: seq<Node>)
    requires cs != []
    ensures Bag(cs) == multiset(Labels(PreOrder(cs[0]))) + Bag(cs[1..])
  {
    assert PreOrderForest(cs) == PreOrder(cs[0]) + PreOrderForest(cs[1..]);
    LabelsAppend(PreOrder(cs[0]), PreOrderForest(cs[1..]));
  }

  /** Two subtrees whose nodes carry the same labels, counted with multiplicity. */
  ghost predicate SameLabels(a: Node, b: Node)
  {
    multiset(Labels(PreOrder(a))) == multiset(Labels(PreOrder(b)))
  }

  /** Two lists of subtrees whose subtrees carry the same labels place by place carry the
      same labels. */
  lemma {:induction false} BagPointwise(cs: seq<Node>, rs: seq<Node>)
    requires |rs| == |cs|
    requires forall i :: 0 <= i < |cs| ==> SameLabels(rs[i], cs[i])
    ensures Bag(rs) == Bag(cs)
  {
    if cs != [] {
      assert forall i :: 0 <= i < |cs| - 1 ==> SameLabels(rs[1..][i], cs[1..][i]) by {
        forall i | 0 <= i < |cs| - 1
          ensures SameLabels(rs[1..][i], cs[1..][i])
        {
          assert rs[1..][i] == rs[i + 1] && cs[1..][i] == cs[i + 1];
        }
      }
      BagPointwise(cs[1..], rs[1..]);
      BagFirst(rs);
      BagFirst(cs);
      assert SameLabels(rs[0], cs[0]);
    }
  }

  /** Move reorders only the children of the node holding the id. The node keeps its id,
      name and content. If one of its children carries the id, its child list is the
      Relocate arrangement. Otherwise every child is rewritten in its place, and a child
      whose subtree holds no node carrying the id comes through unchanged. */
  lemma MoveEffect(n: Node, id: uint32, dir: MoveDirection, e: Entropy)
    ensures var r := ModifyNode(n, MoveNode(id, dir), e);
            && r.id == n.id && r.name == n.name && r.content == n.content
            && (IndexOfId(n.children, id).Some? ==>
                  r.children == Relocate(n.children, IndexOfId(n.children, id).value, dir))
            && (IndexOfId(n.children, id).None? ==>
                  && |r.children| == |n.children|
                  && (forall i :: 0 <= i < |n.children| ==> r.children[i] == ModifyNode(n.children[i], MoveNode(id, dir), e))
                  && forall i :: 0 <= i < |n.children| && (forall x :: x in PreOrder(n.children[i]) ==> x.id != id) ==>
                       r.children[i] == n.children[i])
  {
    var m := MoveNode(id, dir);
    if IndexOfId(n.children, id).None? {
      ModifyForestPointwise(n.children, m, e);
      forall i | 0 <= i < |n.children| && (forall x :: x in PreOrder(n.children[i]) ==> x.id != id)
        ensures ModifyNode(n.children[i], m, e) == n.children[i]
      {
        var c := n.children[i];
        assert forall x :: x in PreOrderForest(c.children) ==> x in PreOrder(c);
        ModifyUntargeted(c, m, e);
      }
    }
  }

  /** A move neither creates, loses nor alters a node: the labels of the whole tree are
      the same multiset before and after. */
  lemma {:induction false} MoveKeepsNodes(n: Node, id: uint32, dir: MoveDirection, e: Entropy)
    ensures multiset(Labels(PreOrder(ModifyNode(n, MoveNode(id, dir), e)))) == multiset(Labels(PreOrder(n)))
    decreases n
  {
    var r := ModifyNode(n, MoveNode(id, dir), e);
    assert LabelOf(r) == LabelOf(n) && Bag(r.children) == Bag(n.children) by {
      match IndexOfId(n.children, id)
      case Some(k) =>
        assert r.children == Relocate(n.children, k, dir);
        RelocateBag(n.children, k, dir);
      case None =>
        var cs := n.children;
        var rs := ModifyForest(cs, MoveNode(id, dir), e);
        assert r.children == rs;
        ModifyForestPointwise(cs, MoveNode(id, dir), e);
        forall i | 0 <= i < |cs|
          ensures SameLabels(rs[i], cs[i])
        {
          MoveKeepsNodes(cs[i], id, dir, e);
        }
        BagPointwise(cs, rs);
    }
    NodeBag(n);
    NodeBag(r);
  }

  /** The siblings [A, B, C]: moving A up gives [B, C, A]; moving C down gives [C, A, B]. */
  lemma MoveWrapsAround(parent: Node, e: Entropy)
    requires |parent.children| == 3
    requires forall i, j :: 0 <= i < j < 3 ==> parent.children[i].id != parent.children[j].id
    ensures var cs := parent.children;
            && ModifyNode(parent, MoveNode(cs[0].id, Up), e).children == [cs[1], cs[2], cs[0]]
            && ModifyNode(parent, MoveNode(cs[2].id, Down), e).children == [cs[2], cs[0], cs[1]]
  {
    var cs := parent.children;
    assert IndexOfId(cs, cs[0].id) == Some(0);
    assert IndexOfId(cs, cs[2].id) == Some(2);
    RelocateUp(cs, 0);
    RelocateDown(cs, 2);
  }

  /** A randomized copy differs from the original in its ids only. */
  lemma {:induction false} RandomizeSameUpToIds(n: Node, draw: seq<nat> -> uint32, path: seq<nat>)
    ensures SameUpToIds(Randomize(n, draw, path), n)
    decreases n
  {
    var r := Randomize(n, draw, path);
    forall i | 0 <= i < |n.children| ensures SameUpToIds(r.children[i], n.children[i]) {
      RandomizeChild(n, draw, path, i);
      RandomizeSameUpToIds(n.children[i], draw, path + [i]);
    }
  }

  lemma RandomizeChild(n: Node, draw: seq<nat> -> uint32, path: seq<nat>, i: nat)
    requires i < |n.children|
    ensures |Randomize(n, draw, path).children| == |n.children|
    ensures Randomize(n, draw, path).children[i] == Randomize(n.children[i], draw, path + [i])
  {
  }

  /** A randomized copy carries at every path the id drawn for that path. */
  lemma {:induction false} RandomizeAt(n: Node, draw: seq<nat> -> uint32, path: seq<nat>, q: seq<nat>)
    requires IsPath(n, q)
    ensures IsPath(Randomize(n, draw, path), q)
    ensures At(Randomize(n, draw, path), q).id == draw(path + q)
    decreases |q|
  {
    if q == [] {
      assert path + q == path;
    } else {
      var r := Randomize(n, draw, path);
      var i := q[0];
      var c := Randomize(n.children[i], draw, path + [i]);
      RandomizeChild(n, draw, path, i);
      RandomizeAt(n.children[i], draw, path + [i], q[1..]);
      assert IsPath(c, q[1..]) && At(c, q[1..]).id == draw(path + [i] + q[1..]);
      assert IsPath(r, q) by {
        assert q[0] < |r.children| && r.children[q[0]] == c;
      }
      assert At(r, q) == At(c, q[1..]);
      assert path + [i] + q[1..] == path + q;
    }
  }

  /** The node Paste appends: the copied subtree's content and shape, ids drawn afresh at
      every level, and the name suffixed with the drawn number exactly when the sibling
      check at the paste target returns Some. */
  lemma PastedCopy(target: Node, copied: Node, e: Entropy)
    ensures var p := PastedNode(target, copied, e);
            && p.name == copied.name + (if FindNodeWithSameName(target, copied.id, copied.name).Some?
                                        then DecimalString(e.suffix as nat) else "")
            && p.content == copied.content
            && |p.children| == |copied.children|
            && (forall i :: 0 <= i < |p.children| ==> SameUpToIds(p.children[i], copied.children[i]))
            && forall q :: IsPath(copied, q) ==> IsPath(p, q) && At(p, q).id == e.nodeIds(q)
  {
    var p := PastedNode(target, copied, e);
    var r := Randomize(copied, e.nodeIds, []);
    RandomizeSameUpToIds(copied, e.nodeIds, []);
    forall q | IsPath(copied, q) ensures IsPath(p, q) && At(p, q).id == e.nodeIds(q) {
      RandomizeAt(copied, e.nodeIds, [], q);
      assert [] + q == q;
      if q != [] {
        assert p.children == r.children;
      }
    }
  }
}
