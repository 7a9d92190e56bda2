/** Entities of the document tree: fixed-width integers, themes, resources, nodes,
    documents, and the source of randomness that the editor draws ids from. */
module Types {

  newtype uint8 = x: int | 0 <= x < 0x100
  newtype uint16 = x: int | 0 <= x < 0x1_0000
  newtype uint32 = x: int | 0 <= x < 0x1_0000_0000
  newtype int32 = x: int | -0x8000_0000 <= x < 0x8000_0000

  datatype Option<+T> = None | Some(value: T)

  datatype Result<+T, +E> = Ok(value: T) | Err(error: E)

  // ---------------------------------------------------------------------------
  // Themes
  // ---------------------------------------------------------------------------

  datatype Theme = Light | Dark | Classic | Aero | Blue | AquaClassic | Greybird | HighContrast

  /** The label shown for a theme in the settings window. */
  function ThemeLabel(t: Theme): string
  {
    match t
    case Dark => "Dark"
    case Light => "Light"
    case Classic => "Classic"
    case Aero => "Aero"
    case Blue => "Blue"
    case AquaClassic => "Aqua classic"
    case Greybird => "Greybird"
    case HighContrast => "High contrast"
  }

  /** Every theme, in the order the settings window lists them. */
  function Themes(): (ts: seq<Theme>)
    ensures |ts| == 8
    ensures forall i, j :: 0 <= i < j < |ts| ==> ts[i] != ts[j] && ThemeLabel(ts[i]) != ThemeLabel(ts[j])
  {
    [Light, Dark, Classic, Aero, Blue, AquaClassic, Greybird, HighContrast]
  }

  /** No theme is missing from the list. */
  lemma ThemesComplete()
    ensures forall t: Theme :: t in Themes()
  {
    var ts := Themes();
    forall t: Theme ensures t in ts {
      match t
      case Light => assert ts[0] == t;
      case Dark => assert ts[1] == t;
      case Classic => assert ts[2] == t;
      case Aero => assert ts[3] == t;
      case Blue => assert ts[4] == t;
      case AquaClassic => assert ts[5] == t;
      case Greybird => assert ts[6] == t;
      case HighContrast => assert ts[7] == t;
    }
  }

  /** The first theme of `ts` whose label is `s`. */
  function FindTheme(ts: seq<Theme>, s: string): (r: Option<Theme>)
    ensures r.Some? ==> r.value in ts && ThemeLabel(r.value) == s
    ensures r.None? <==> forall t :: t in ts ==> ThemeLabel(t) != s
  {
    if ts == [] then None
    else if ThemeLabel(ts[0]) == s then Some(ts[0])
    else FindTheme(ts[1..], s)
  }

  /** The theme labelled `s`, falling back to Light for an unknown label. */
  function ThemeFromString(s: string): (r: Theme)
    ensures (exists t :: ThemeLabel(t) == s) ==> ThemeLabel(r) == s
    ensures (forall t :: ThemeLabel(t) != s) ==> r == Light
  {
    ThemesComplete();
    match FindTheme(Themes(), s)
    case Some(t) => t
    case None => Light
  }

  /** Every theme is read back from its own label: no two themes share a label. */
  lemma ThemeRoundTrip(t: Theme)
    ensures ThemeFromString(ThemeLabel(t)) == t
  {
    var r := ThemeFromString(ThemeLabel(t));
    var ts := Themes();
    ThemesComplete();
    var i :| 0 <= i < |ts| && ts[i] == r;
    var j :| 0 <= j < |ts| && ts[j] == t;
    assert ThemeLabel(ts[i]) == ThemeLabel(ts[j]);
  }

  // ---------------------------------------------------------------------------
  // Randomness
  // ---------------------------------------------------------------------------

  /** The values the editor draws from its random generator during one operation:
      `suffix` is the u16 drawn for a generated or disambiguated name, `nodeIds(p)` the id
      drawn for the node at child-index path `p` of a subtree being copied or loaded, and
      `resourceIds(i)` the id drawn for the i-th resource being loaded. */
  datatype Entropy = Entropy(suffix: uint16, nodeIds: seq<nat> -> uint32, resourceIds: nat -> uint32)

  // ---------------------------------------------------------------------------
  // Resources, nodes and documents
  // ---------------------------------------------------------------------------

  /** An attachment: raw bytes, and an id used only to name its cached copy. */
  datatype Resource = Resource(bytes: seq<uint8>, id: uint32)

  /** `Resource::new`: keeps the payload and takes the drawn id. */
  function NewResource(bytes: seq<uint8>, freshId: uint32): (r: Resource)
    ensures r.bytes == bytes && r.id == freshId
  {
    Resource(bytes, freshId)
  }

  datatype Node = Node(id: uint32, name: string, content: string, children: seq<Node>)

  /** `Node::new`: keeps name, content and children and takes the drawn id. */
  function NewNode(name: string, content: string, children: seq<Node>, freshId: uint32): (n: Node)
    ensures n.name == name && n.content == content && n.children == children && n.id == freshId
  {
    Node(freshId, name, content, children)
  }

  /** A root node plus attachments keyed by name. */
  datatype Document = Document(rootNode: Node, resources: map<string, Resource>)
}
