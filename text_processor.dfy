/** Resolving a node reference written in a node's text: `path:<slash path>` names a node
    by its path in the tree listing, `sibling:<name>` a child of the current node's parent;
    anything unresolved is 0. */
module TextProcessor {
  import opened Types
  import opened Tree
  import opened Seqs
  import opened Utils

  // ---------------------------------------------------------------------------
  // Splitting on a separator
  // ---------------------------------------------------------------------------

  /** The pieces joined back with the separator between them. */
  function Join(parts: seq<string>, sep: char): string
    requires |parts| >= 1
  {
    if |parts| == 1 then parts[0] else parts[0] + [sep] + Join(parts[1..], sep)
  }

  /** `str::split(sep)`: the pieces between separators, empty pieces included, so n
      separators give n + 1 pieces. */
  function Split(s: string, sep: char): (parts: seq<string>)
    ensures |parts| >= 1
    ensures forall i :: 0 <= i < |parts| ==> sep !in parts[i]
    ensures |parts| == 1 <==> sep !in s
  {
    if s == [] then [""]
    else
      var rest := Split(s[1..], sep);
      if s[0] == sep then [""] + rest
      else
        var parts := [[s[0]] + rest[0]] + rest[1..];
        assert parts[1..] == rest[1..];
        assert s == [s[0]] + s[1..];
        parts
  }

  /** Splitting a string that starts with the separator. */
  lemma SplitSeparator(t: string, sep: char)
    ensures Split([sep] + t, sep) == [""] + Split(t, sep)
  {
    assert ([sep] + t)[1..] == t;
  }

  /** Splitting a string that starts with another character. */
  lemma SplitOther(c: char, t: string, sep: char)
    requires c != sep
    ensures Split([c] + t, sep) == [[c] + Split(t, sep)[0]] + Split(t, sep)[1..]
  {
    assert ([c] + t)[1..] == t;
  }

  /** Joining the pieces of `s` gives `s` back. */
  lemma {:induction false} JoinSplit(s: string, sep: char)
    ensures Join(Split(s, sep), sep) == s
  {
    if s != [] {
      var t := s[1..];
      assert s == [s[0]] + t;
      JoinSplit(t, sep);
      var rest := Split(t, sep);
      if s[0] == sep {
        SplitSeparator(t, sep);
        assert ([""] + rest)[1..] == rest;
      } else {
        SplitOther(s[0], t, sep);
        var parts := [[s[0]] + rest[0]] + rest[1..];
        assert parts[1..] == rest[1..];
        if |rest| > 1 {
          assert Join(rest, sep) == rest[0] + [sep] + Join(rest[1..], sep);
        }
      }
    }
  }

  /** Splitting a join of separator-free pieces gives the pieces back. */
  lemma {:induction false} SplitJoin(parts: seq<string>, sep: char)
    requires |parts| >= 1 && forall i :: 0 <= i < |parts| ==> sep !in parts[i]
    ensures Split(Join(parts, sep), sep) == parts
    decreases |parts|, |parts[0]|
  {
    if |parts| == 1 {
      assert |Split(parts[0], sep)| == 1;
      JoinSplit(parts[0], sep);
    } else if parts[0] == [] {
      var tail := Join(parts[1..], sep);
      assert Join(parts, sep) == [sep] + tail;
      SplitJoin(parts[1..], sep);
      SplitSeparator(tail, sep);
      assert [""] + parts[1..] == parts;
    } else {
      var c := parts[0][0];
      var shorter := [parts[0][1..]] + parts[1..];
      assert shorter[1..] == parts[1..];
      assert forall i :: 0 <= i < |shorter| ==> sep !in shorter[i] by {
        assert sep !in shorter[0];
      }
      var tail := Join(shorter, sep);
      JoinFirstChar(parts, sep);
      SplitJoin(shorter, sep);
      SplitOther(c, tail, sep);
      assert [[c] + shorter[0]] + shorter[1..] == parts by {
        assert [c] + shorter[0] == parts[0];
      }
    }
  }

  /** A join whose first piece is not empty starts with that piece's first character. */
  lemma JoinFirstChar(parts: seq<string>, sep: char)
    requires |parts| >= 2 && parts[0] != []
    ensures Join(parts, sep) == [parts[0][0]] + Join([parts[0][1..]] + parts[1..], sep)
  {
    var c, rest := parts[0][0], parts[0][1..];
    var shorter := [rest] + parts[1..];
    assert shorter[1..] == parts[1..];
    var tail := Join(parts[1..], sep);
    assert Join(shorter, sep) == rest + [sep] + tail;
    assert parts[0] == [c] + rest;
    AppendAssoc([c], rest, [sep]);
    AppendAssoc([c], rest + [sep], tail);
  }

  // ---------------------------------------------------------------------------
  // Trimming and lowercasing
  // ---------------------------------------------------------------------------

  /** `char::is_whitespace`: the Unicode White_Space property. */
  predicate IsWhitespace(c: char)
  {
    || '\U{0009}' <= c <= '\U{000D}' || c == ' ' || c == '\U{0085}' || c == '\U{00A0}'
    || c == '\U{1680}' || '\U{2000}' <= c <= '\U{200A}' || c == '\U{2028}' || c == '\U{2029}'
    || c == '\U{202F}' || c == '\U{205F}' || c == '\U{3000}'
  }

  /** Where the leading whitespace of `s` ends. */
  function LeadingWhitespace(s: string): (i: nat)
    ensures i <= |s| && (forall k :: 0 <= k < i ==> IsWhitespace(s[k])) && (i == |s| || !IsWhitespace(s[i]))
  {
    if s == [] || !IsWhitespace(s[0]) then 0 else 1 + LeadingWhitespace(s[1..])
  }

  /** Where the trailing whitespace of `s` starts. */
  function TrailingWhitespace(s: string): (j: nat)
    ensures j <= |s| && (forall k :: j <= k < |s| ==> IsWhitespace(s[k])) && (j == 0 || !IsWhitespace(s[j - 1]))
  {
    if s == [] || !IsWhitespace(s[|s| - 1]) then |s| else TrailingWhitespace(s[..|s| - 1])
  }

  /** `str::trim`: `s` without its leading and trailing whitespace. */
  function Trim(s: string): (r: string)
    ensures exists i, j :: 0 <= i <= j <= |s| && r == s[i..j]
              && (forall k :: 0 <= k < i ==> IsWhitespace(s[k]))
              && (forall k :: j <= k < |s| ==> IsWhitespace(s[k]))
    ensures r == [] || (!IsWhitespace(r[0]) && !IsWhitespace(r[|r| - 1]))
  {
    var i := LeadingWhitespace(s);
    if i == |s| then
      assert s[i..i] == [];
      []
    else
      var j := TrailingWhitespace(s);
      s[i..j]
  }

  /** Trimming twice is trimming once. */
  lemma TrimIdempotent(s: string)
    ensures Trim(Trim(s)) == Trim(s)
  {
    var t := Trim(s);
    assert LeadingWhitespace(t) == 0;
    if t != [] {
      assert TrailingWhitespace(t) == |t|;
      assert t[0..|t|] == t;
    }
  }

  /** The lowercase form of one character, as far as the keywords "sibling" and "path" can
      tell: ASCII capitals and KELVIN SIGN (U+212A, whose lowercase is 'k') are the only
      characters whose lowercase form is an ASCII letter. */
  function LowerChar(c: char): char
  {
    if 'A' <= c <= 'Z' then (c as int + 32) as char
    else if c == '\U{212A}' then 'k'
    else c
  }

  /** `str::to_lowercase`, for comparison against ASCII keywords. */
  function ToLowercase(s: string): (r: string)
    ensures |r| == |s| && forall k :: 0 <= k < |s| ==> r[k] == LowerChar(s[k])
  {
    seq(|s|, k requires 0 <= k < |s| => LowerChar(s[k]))
  }

  // ---------------------------------------------------------------------------
  // Resolving a reference
  // ---------------------------------------------------------------------------

  /** The id of the first listing entry whose path is `p`, or 0. */
  function PathTarget(tree: seq<(string, uint32)>, p: string): (r: uint32)
    ensures r != 0 ==> exists i :: 0 <= i < |tree| && tree[i] == (p, r)
    ensures forall i :: 0 <= i < |tree| && tree[i].0 == p && (forall k :: 0 <= k < i ==> tree[k].0 != p) ==> r == tree[i].1
    ensures (forall i :: 0 <= i < |tree| ==> tree[i].0 != p) ==> r == 0
  {
    if tree == [] then 0
    else if tree[0].0 == p then tree[0].1
    else
      var r := PathTarget(tree[1..], p);
      assert forall i :: 0 < i < |tree| ==> tree[1..][i - 1] == tree[i];
      r
  }

  /** The first child of `parent` named `name`, as an id, or 0. */
  function ChildNamed(children: seq<Node>, name: string): (r: uint32)
    ensures r != 0 ==> exists c :: c in children && c.name == name && c.id == r
    ensures (forall c :: c in children ==> c.name != name) ==> r == 0
    ensures forall i :: 0 <= i < |children| && children[i].name == name && (forall k :: 0 <= k < i ==> children[k].name != name) ==> r == children[i].id
  {
    if children == [] then 0
    else if children[0].name == name then children[0].id
    else
      var r := ChildNamed(children[1..], name);
      assert forall i :: 0 < i < |children| ==> children[1..][i - 1] == children[i];
      r
  }

  /** Every entry of a listing names a node of the document. */
  predicate ListingResolves(tree: seq<(string, uint32)>, d: Document)
  {
    forall i :: 0 <= i < |tree| ==> GetNode(d, tree[i].1).Some?
  }

  /** The nodes the entries of a listing name, in listing order. */
  function ListedNodes(tree: seq<(string, uint32)>, d: Document): (xs: seq<Node>)
    requires ListingResolves(tree, d)
    ensures |xs| == |tree|
    ensures forall k :: 0 <= k < |tree| ==> xs[k] in PreOrder(d.rootNode) && xs[k].id == tree[k].1
  {
    seq(|tree|, k requires 0 <= k < |tree| => GetNode(d, tree[k].1).value)
  }

  /** The index of the first of `xs` that has a child carrying `currentId`. */
  function ParentEntry(xs: seq<Node>, currentId: uint32): (r: Option<nat>)
    ensures r.Some? ==> r.value < |xs| && HasChild(xs[r.value], currentId)
    ensures r.Some? ==> forall k :: 0 <= k < r.value ==> !HasChild(xs[k], currentId)
    ensures r.None? ==> forall k :: 0 <= k < |xs| ==> !HasChild(xs[k], currentId)
  {
    if xs == [] then None
    else if HasChild(xs[0], currentId) then Some(0)
    else
      assert forall k :: 1 <= k < |xs| ==> xs[k] == xs[1..][k - 1];
      match ParentEntry(xs[1..], currentId)
      case Some(k) => Some(k + 1)
      case None => None
  }

  /** The tree listing of a document resolves in it. */
  lemma ListingIdsExist(d: Document)
    ensures ListingResolves(TreeVec(d.rootNode, None), d)
  {
    var tree := TreeVec(d.rootNode, None);
    TreeVecEntries(d.rootNode, None);
    forall i | 0 <= i < |tree| ensures GetNode(d, tree[i].1).Some? {
      assert PreOrder(d.rootNode)[i] in PreOrder(d.rootNode);
    }
  }

  /** What `sibling:<name>` resolves to. */
  function SiblingTarget(d: Document, currentId: uint32, name: string): (r: uint32)
    ensures r != 0 ==> exists x, c :: x in PreOrder(d.rootNode) && HasChild(x, currentId) && c in x.children && c.name == name && c.id == r
    ensures (forall x :: x in PreOrder(d.rootNode) ==> !HasChild(x, currentId)) ==> r == 0
  {
    var tree := TreeVec(d.rootNode, None);
    ListingIdsExist(d);
    var nodes := ListedNodes(tree, d);
    match ParentEntry(nodes, currentId)
    case None => 0
    case Some(i) => ChildNamed(nodes[i].children, name)
  }

  /** A sibling reference resolves to 0 or a node of the document. */
  lemma SiblingInDocument(d: Document, currentId: uint32, name: string)
    ensures var r := SiblingTarget(d, currentId, name);
            r != 0 ==> exists x :: x in PreOrder(d.rootNode) && x.id == r
  {
    var r := SiblingTarget(d, currentId, name);
    if r != 0 {
      var x, c :| x in PreOrder(d.rootNode) && HasChild(x, currentId) && c in x.children && c.name == name && c.id == r;
      ChildDescendantsIncluded(x, c);
      DescendantsIncluded(d.rootNode, x);
      assert c in PreOrder(c);
    }
  }

  /** A path reference resolves to 0 or a node of the document. */
  lemma PathInDocument(d: Document, p: string)
    ensures var r := PathTarget(TreeVec(d.rootNode, None), p);
            r != 0 ==> exists x :: x in PreOrder(d.rootNode) && x.id == r
  {
    var tree := TreeVec(d.rootNode, None);
    var r := PathTarget(tree, p);
    TreeVecEntries(d.rootNode, None);
    if r != 0 {
      var i :| 0 <= i < |tree| && tree[i] == (p, r);
      assert PreOrder(d.rootNode)[i] in PreOrder(d.rootNode);
    }
  }

  /** `process_node_path`: splits the reference on ':'; the first piece, lowercased and
      trimmed, is the keyword and the second, trimmed, the argument; later pieces are
      ignored. The result is 0 or the id of a node of the document. */
  function ProcessNodePath(path: string, d: Document, current: Node): (r: uint32)
    ensures ':' !in path ==> r == 0
    ensures r != 0 ==> exists x :: x in PreOrder(d.rootNode) && x.id == r
  {
    var split := Split(path, ':');
    var tree := TreeVec(d.rootNode, None);
    if |split| >= 2 then
      var arg := Trim(split[1]);
      var keyword := Trim(ToLowercase(split[0]));
      if keyword == "sibling" then
        SiblingInDocument(d, current.id, arg);
        SiblingTarget(d, current.id, arg)
      else if keyword == "path" then
        PathInDocument(d, arg);
        PathTarget(tree, arg)
      else 0
    else 0
  }

  // ---------------------------------------------------------------------------
  // Properties
  // ---------------------------------------------------------------------------

  /** `path:<p>` resolves to the node of the first listing entry whose path is `p`, for a
      path without ':' and without surrounding whitespace. */
  lemma PathResolves(d: Document, current: Node, p: string, i: nat)
    requires ':' !in p && Trim(p) == p
    requires i < |TreeVec(d.rootNode, None)| && TreeVec(d.rootNode, None)[i].0 == p
    requires forall k :: 0 <= k < i ==> TreeVec(d.rootNode, None)[k].0 != p
    ensures ProcessNodePath("path:" + p, d, current) == TreeVec(d.rootNode, None)[i].1
  {
    PathReference(d, current, p);
  }

  /** `path:<p>`, for a path without ':' or surrounding whitespace, is looked up by `p`. */
  lemma PathReference(d: Document, current: Node, p: string)
    requires ':' !in p && Trim(p) == p
    ensures ProcessNodePath("path:" + p, d, current) == PathTarget(TreeVec(d.rootNode, None), p)
  {
    var path := "path:" + p;
    assert Split(path, ':') == ["path", p] by {
      assert path == "path" + ":" + p;
      SplitKeyword("path", p);
    }
    KeywordPath();
    PathKeywordLooksUp(path, d, current);
  }

  /** With the keyword "path", the reference is looked up by its trimmed argument. */
  lemma PathKeywordLooksUp(path: string, d: Document, current: Node)
    requires var split := Split(path, ':'); |split| >= 2 && Trim(ToLowercase(split[0])) == "path"
    ensures ProcessNodePath(path, d, current) == PathTarget(TreeVec(d.rootNode, None), Trim(Split(path, ':')[1]))
  {
    var keyword := Trim(ToLowercase(Split(path, ':')[0]));
    assert keyword != "sibling" by {
      assert |keyword| == 4;
    }
  }

  /** A keyword and an argument without ':' split apart. */
  lemma SplitKeyword(keyword: string, arg: string)
    requires ':' !in keyword && ':' !in arg
    ensures Split(keyword + ":" + arg, ':') == [keyword, arg]
  {
    SplitJoin([keyword, arg], ':');
    assert Join([keyword, arg], ':') == keyword + ":" + arg;
  }

  lemma KeywordPath()
    ensures Trim(ToLowercase("path")) == "path"
  {
    assert ToLowercase("path") == "path";
    assert LeadingWhitespace("path") == 0;
    assert TrailingWhitespace("path") == 4;
    assert "path"[0..4] == "path";
  }

  /** The keyword is case-insensitive: keywords with the same lowercase form, such as
      `PATH` and `path`, resolve alike. */
  lemma {:induction false} KeywordIgnoresCase(d: Document, current: Node, k1: string, k2: string, arg: string)
    requires ':' !in k1 && ':' !in k2 && ':' !in arg
    requires ToLowercase(k1) == ToLowercase(k2)
    ensures ProcessNodePath(k1 + ":" + arg, d, current) == ProcessNodePath(k2 + ":" + arg, d, current)
  {
    SplitKeyword(k1, arg);
    SplitKeyword(k2, arg);
  }

  /** With the keyword "sibling", the reference is resolved among the siblings. */
  lemma SiblingKeywordLooksUp(path: string, d: Document, current: Node)
    requires var split := Split(path, ':'); |split| >= 2 && Trim(ToLowercase(split[0])) == "sibling"
    ensures ProcessNodePath(path, d, current) == SiblingTarget(d, current.id, Trim(Split(path, ':')[1]))
  {
  }

  lemma KeywordSibling()
    ensures Trim(ToLowercase("sibling")) == "sibling"
  {
    assert ToLowercase("sibling") == "sibling";
    assert LeadingWhitespace("sibling") == 0;
    assert TrailingWhitespace("sibling") == 7;
    assert "sibling"[0..7] == "sibling";
  }

  /** `sibling:<name>` from a child of the root resolves to the root's first child named
      `name`: the root is the first entry of the listing. */
  lemma SiblingOfTopLevel(d: Document, current: Node, name: string)
    requires ':' !in name && Trim(name) == name
    requires HasChild(d.rootNode, current.id)
    ensures ProcessNodePath("sibling:" + name, d, current) == ChildNamed(d.rootNode.children, name)
  {
    SiblingReference(d, current, name);
    ListingIdsExist(d);
    RootIsFirstParent(d, current.id);
  }

  /** `sibling:<name>`, for a name without ':' or surrounding whitespace, resolves by that
      name. */
  lemma SiblingReference(d: Document, current: Node, name: string)
    requires ':' !in name && Trim(name) == name
    ensures ProcessNodePath("sibling:" + name, d, current) == SiblingTarget(d, current.id, name)
  {
    var path := "sibling:" + name;
    assert Split(path, ':') == ["sibling", name] by {
      assert path == "sibling" + ":" + name;
      SplitKeyword("sibling", name);
    }
    KeywordSibling();
    SiblingKeywordLooksUp(path, d, current);
  }

  /** The root, listed first, is the parent found for any of its children. */
  lemma RootIsFirstParent(d: Document, id: uint32)
    requires ListingResolves(TreeVec(d.rootNode, None), d)
    requires HasChild(d.rootNode, id)
    ensures ListedNodes(TreeVec(d.rootNode, None), d)[0] == d.rootNode
    ensures ParentEntry(ListedNodes(TreeVec(d.rootNode, None), d), id) == Some(0)
  {
    TreeVecEntries(d.rootNode, None);
    GetNodeFindsRoot(d);
  }

  /** Looking up the root's id finds the root. */
  lemma GetNodeFindsRoot(d: Document)
    ensures GetNode(d, d.rootNode.id) == Some(d.rootNode)
  {
  }

  /** A keyword other than "sibling" and "path" resolves to 0. */
  lemma OtherKeywordIsZero(path: string, d: Document, current: Node)
    requires var split := Split(path, ':');
             var keyword := Trim(ToLowercase(split[0]));
             keyword != "sibling" && keyword != "path"
    ensures ProcessNodePath(path, d, current) == 0
  {
  }

  /** A name containing ':' can never be reached by `path:`: the argument looked up stops
      at the next ':', so it is never that name. */
  lemma ColonInPathUnreachable(path: string, d: Document, current: Node, p: string)
    requires ':' in p
    requires var split := Split(path, ':'); |split| >= 2 && Trim(ToLowercase(split[0])) == "path"
    ensures var arg := Trim(Split(path, ':')[1]);
            && ':' !in arg && arg != p
            && ProcessNodePath(path, d, current) == PathTarget(TreeVec(d.rootNode, None), arg)
  {
    var arg := Trim(Split(path, ':')[1]);
    assert ':' !in arg;
    PathKeywordLooksUp(path, d, current);
  }

  /** With unique ids, `sibling:` from the root resolves to 0: no node has the root as a child. */
  lemma RootHasNoSibling(d: Document, name: string)
    requires UniqueIds(d.rootNode)
    ensures SiblingTarget(d, d.rootNode.id, name) == 0
  {
    var tree := TreeVec(d.rootNode, None);
    ListingIdsExist(d);
    forall x | x in PreOrder(d.rootNode) ensures !HasChild(x, d.rootNode.id) {
      if c :| c in x.children && c.id == d.rootNode.id {
        ChildDescendantsIncluded(x, c);
        DescendantsIncluded(d.rootNode, x);
        assert c in PreOrder(d.rootNode);
        UniqueSameNode(d.rootNode, c, d.rootNode);
        MemberSmaller(x, d.rootNode);
        DescendantsIncluded(d.rootNode, x);
        ChildStrictlySmaller(x, c);
        MemberSmaller(d.rootNode, x);
      }
    }
  }

  /** A child's subtree is strictly smaller than its parent's. */
  lemma ChildStrictlySmaller(x: Node, c: Node)
    requires c in x.children
    ensures |PreOrder(c)| < |PreOrder(x)|
  {
    var k :| 0 <= k < |x.children| && x.children[k] == c;
    ChildPreOrderIncluded(x.children, k);
    assert c in PreOrderForest(x.children);
    ForestMemberSmaller(x.children, c);
  }
}
