/** The `.rtd` document format: wire structures, their big-endian byte layout with
    null-terminated strings and counts stored as "count + 1", the per-resource
    compression pass, and the conversions between documents and wire structures. */
module Rtd {
  import opened Types
  import opened Tree
  import opened Seqs
  import opened Utf8

  // ---------------------------------------------------------------------------
  // Wire structures
  // ---------------------------------------------------------------------------

  datatype RtdNode = RtdNode(name: seq<uint8>, content: seq<uint8>, childrenCount: int32, children: seq<RtdNode>)

  datatype RtdResource = RtdResource(name: seq<uint8>, bytesLength: int32, bytes: seq<uint8>)

  datatype RtdDocument = RtdDocument(rootNode: RtdNode, resourcesCount: int32, resources: seq<RtdResource>)

  /** Why a byte string is not a document: it ends early, or a stored count is below 1. */
  datatype ReadError = UnexpectedEnd | NegativeCount

  /** `n as i32` for a `usize` n: the low 32 bits read as two's complement. */
  function ToI32(n: nat): (r: int32)
    ensures n < 0x8000_0000 ==> r as int == n
    ensures (r as int - n) % 0x1_0000_0000 == 0
  {
    var low := n % 0x1_0000_0000;
    if low < 0x8000_0000 then low as int32 else (low - 0x1_0000_0000) as int32
  }

  // ---------------------------------------------------------------------------
  // Primitive fields
  // ---------------------------------------------------------------------------

  /** An i32 as four big-endian two's-complement bytes. */
  function WriteI32(x: int32): (bs: seq<uint8>)
    ensures |bs| == 4
  {
    var u := if x < 0 then x as int + 0x1_0000_0000 else x as int;
    [(u / 0x100_0000) as uint8, (u / 0x1_0000 % 0x100) as uint8, (u / 0x100 % 0x100) as uint8, (u % 0x100) as uint8]
  }

  function ReadI32(bs: seq<uint8>): (r: Result<(int32, seq<uint8>), ReadError>)
    ensures r.Ok? <==> |bs| >= 4
    ensures r.Ok? ==> r.value.1 == bs[4..]
  {
    if |bs| < 4 then Err(UnexpectedEnd)
    else
      var u := bs[0] as int * 0x100_0000 + bs[1] as int * 0x1_0000 + bs[2] as int * 0x100 + bs[3] as int;
      Ok(((if u < 0x8000_0000 then u else u - 0x1_0000_0000) as int32, bs[4..]))
  }

  lemma ReadWriteI32(x: int32, rest: seq<uint8>)
    ensures ReadI32(WriteI32(x) + rest) == Ok((x, rest))
  {
    var u := if x < 0 then x as int + 0x1_0000_0000 else x as int;
    var bs := WriteI32(x) + rest;
    var q1 := u / 0x100;
    var q2 := q1 / 0x100;
    assert u / 0x1_0000 == q2 && u / 0x100_0000 == q2 / 0x100;
    assert bs[0] as int == q2 / 0x100 && bs[1] as int == q2 % 0x100;
    assert bs[2] as int == q1 % 0x100 && bs[3] as int == u % 0x100;
    assert (q2 / 0x100) * 0x100 + q2 % 0x100 == q2;
    assert q2 * 0x100 + q1 % 0x100 == q1;
    assert q1 * 0x100 + u % 0x100 == u;
    assert bs[4..] == rest;
  }

  /** A NullString: the bytes, then a terminating zero. */
  function WriteNullString(s: seq<uint8>): seq<uint8>
  {
    s + [0]
  }

  /** The bytes up to the first zero, and what follows that zero. */
  function ReadNullString(bs: seq<uint8>): (r: Result<(seq<uint8>, seq<uint8>), ReadError>)
    ensures r.Ok? <==> 0 in bs
    ensures r.Ok? ==> 0 !in r.value.0 && bs == r.value.0 + [0] + r.value.1
  {
    if bs == [] then Err(UnexpectedEnd)
    else if bs[0] == 0 then Ok(([], bs[1..]))
    else
      match ReadNullString(bs[1..])
      case Err(e) => Err(e)
      case Ok((s, rest)) =>
        assert bs == [bs[0]] + bs[1..];
        Ok(([bs[0]] + s, rest))
  }

  lemma {:induction false} ReadWriteNullString(s: seq<uint8>, rest: seq<uint8>)
    requires 0 !in s
    ensures ReadNullString(WriteNullString(s) + rest) == Ok((s, rest))
  {
    var bs := WriteNullString(s) + rest;
    if s != [] {
      assert bs[1..] == WriteNullString(s[1..]) + rest;
      ReadWriteNullString(s[1..], rest);
      assert [s[0]] + s[1..] == s;
    }
  }

  /** The number of elements the reader takes for a stored count: one less. A stored
      count below 1 cannot be a length. */
  function Count(stored: int32): (r: Result<nat, ReadError>)
    ensures r.Ok? <==> stored >= 1
    ensures r.Ok? ==> r.value == stored as int - 1
  {
    if stored as int - 1 < 0 then Err(NegativeCount) else Ok(stored as int - 1)
  }

  // ---------------------------------------------------------------------------
  // Nodes
  // ---------------------------------------------------------------------------

  function WriteNode(n: RtdNode): seq<uint8>
    decreases n, 1
  {
    WriteNullString(n.name) + WriteNullString(n.content) + WriteI32(n.childrenCount) + WriteNodes(n.children)
  }

  function WriteNodes(cs: seq<RtdNode>): seq<uint8>
    decreases cs, 0
  {
    if cs == [] then [] else WriteNode(cs[0]) + WriteNodes(cs[1..])
  }

  /** Reads a node and the stored count minus one children after it. */
  function ReadNode(bs: seq<uint8>): (r: Result<(RtdNode, seq<uint8>), ReadError>)
    ensures r.Ok? ==> |r.value.1| < |bs|
    ensures r.Ok? ==> |r.value.0.children| == r.value.0.childrenCount as int - 1
    decreases |bs|, 0
  {
    match ReadNullString(bs)
    case Err(e) => Err(e)
    case Ok((name, afterName)) =>
      match ReadNullString(afterName)
      case Err(e) => Err(e)
      case Ok((content, afterContent)) =>
        match ReadI32(afterContent)
        case Err(e) => Err(e)
        case Ok((stored, afterCount)) =>
          match Count(stored)
          case Err(e) => Err(e)
          case Ok(k) =>
            match ReadNodes(afterCount, k)
            case Err(e) => Err(e)
            case Ok((children, rest)) => Ok((RtdNode(name, content, stored, children), rest))
  }

  function ReadNodes(bs: seq<uint8>, k: nat): (r: Result<(seq<RtdNode>, seq<uint8>), ReadError>)
    ensures r.Ok? ==> |r.value.0| == k && |r.value.1| <= |bs|
    decreases |bs|, 1, k
  {
    if k == 0 then Ok(([], bs))
    else
      match ReadNode(bs)
      case Err(e) => Err(e)
      case Ok((n, afterNode)) =>
        match ReadNodes(afterNode, k - 1)
        case Err(e) => Err(e)
        case Ok((ns, rest)) => Ok(([n] + ns, rest))
  }

  /** A node the reader can take back: no zero byte inside a string, and every stored
      count one more than the number of children. */
  ghost predicate WellFormedNode(n: RtdNode)
    decreases n
  {
    && 0 !in n.name && 0 !in n.content
    && n.childrenCount as int == |n.children| + 1
    && forall i :: 0 <= i < |n.children| ==> WellFormedNode(n.children[i])
  }

  /** Reading a written node gives it back, and leaves whatever followed it. */
  lemma {:induction false} ReadWriteNode(n: RtdNode, rest: seq<uint8>)
    requires WellFormedNode(n)
    ensures ReadNode(WriteNode(n) + rest) == Ok((n, rest))
    decreases n, 1
  {
    var afterCount := WriteNodes(n.children) + rest;
    var afterContent := WriteI32(n.childrenCount) + afterCount;
    var afterName := WriteNullString(n.content) + afterContent;
    var name, content, count := WriteNullString(n.name), WriteNullString(n.content), WriteI32(n.childrenCount);
    AppendAssoc(name + content + count, WriteNodes(n.children), rest);
    AppendAssoc(name + content, count, afterCount);
    AppendAssoc(name, content, afterContent);
    ReadWriteNullString(n.name, afterName);
    ReadWriteNullString(n.content, afterContent);
    ReadWriteI32(n.childrenCount, afterCount);
    ReadWriteNodes(n.children, rest);
  }

  lemma {:induction false} ReadWriteNodes(cs: seq<RtdNode>, rest: seq<uint8>)
    requires forall i :: 0 <= i < |cs| ==> WellFormedNode(cs[i])
    ensures ReadNodes(WriteNodes(cs) + rest, |cs|) == Ok((cs, rest))
    decreases cs, 0
  {
    var bs := WriteNodes(cs) + rest;
    if cs == [] {
      assert bs == rest;
    } else {
      var afterNode := WriteNodes(cs[1..]) + rest;
      AppendAssoc(WriteNode(cs[0]), WriteNodes(cs[1..]), rest);
      ReadWriteNode(cs[0], afterNode);
      ReadWriteNodes(cs[1..], rest);
      assert ReadNodes(afterNode, |cs| - 1) == Ok((cs[1..], rest));
      ReadNodesStep(bs, |cs|, cs[0], afterNode, cs[1..], rest);
      HeadTail(cs);
    }
  }

  /** One step of reading k nodes: the first node, then k - 1 more. */
  lemma ReadNodesStep(bs: seq<uint8>, k: nat, n: RtdNode, afterNode: seq<uint8>, ns: seq<RtdNode>, rest: seq<uint8>)
    requires k > 0
    requires ReadNode(bs) == Ok((n, afterNode))
    requires ReadNodes(afterNode, k - 1) == Ok((ns, rest))
    ensures ReadNodes(bs, k) == Ok(([n] + ns, rest))
  {
  }

  // ---------------------------------------------------------------------------
  // Resources and documents
  // ---------------------------------------------------------------------------

  function WriteResource(r: RtdResource): seq<uint8>
  {
    WriteNullString(r.name) + WriteI32(r.bytesLength) + r.bytes
  }

  function WriteResources(rs: seq<RtdResource>): seq<uint8>
  {
    if rs == [] then [] else WriteResource(rs[0]) + WriteResources(rs[1..])
  }

  function ReadResource(bs: seq<uint8>): (r: Result<(RtdResource, seq<uint8>), ReadError>)
    ensures r.Ok? ==> |r.value.1| < |bs|
    ensures r.Ok? ==> |r.value.0.bytes| == r.value.0.bytesLength as int - 1
  {
    match ReadNullString(bs)
    case Err(e) => Err(e)
    case Ok((name, afterName)) =>
      match ReadI32(afterName)
      case Err(e) => Err(e)
      case Ok((stored, afterLength)) =>
        match Count(stored)
        case Err(e) => Err(e)
        case Ok(k) =>
          if |afterLength| < k then Err(UnexpectedEnd)
          else Ok((RtdResource(name, stored, afterLength[..k]), afterLength[k..]))
  }

  function ReadResources(bs: seq<uint8>, k: nat): (r: Result<(seq<RtdResource>, seq<uint8>), ReadError>)
    ensures r.Ok? ==> |r.value.0| == k
    decreases k
  {
    if k == 0 then Ok(([], bs))
    else
      match ReadResource(bs)
      case Err(e) => Err(e)
      case Ok((res, afterResource)) =>
        match ReadResources(afterResource, k - 1)
        case Err(e) => Err(e)
        case Ok((rs, rest)) => Ok(([res] + rs, rest))
  }

  function WriteDocument(d: RtdDocument): seq<uint8>
  {
    WriteNode(d.rootNode) + WriteI32(d.resourcesCount) + WriteResources(d.resources)
  }

  /** `Document::read` (big-endian): the root node, the stored resource count and that
      count minus one resources. Bytes after the last resource are not looked at. */
  function ReadDocument(bs: seq<uint8>): (r: Result<RtdDocument, ReadError>)
    ensures r.Ok? ==> |r.value.resources| == r.value.resourcesCount as int - 1
  {
    match ReadNode(bs)
    case Err(e) => Err(e)
    case Ok((root, afterRoot)) =>
      match ReadI32(afterRoot)
      case Err(e) => Err(e)
      case Ok((stored, afterCount)) =>
        match Count(stored)
        case Err(e) => Err(e)
        case Ok(k) =>
          match ReadResources(afterCount, k)
          case Err(e) => Err(e)
          case Ok((rs, _)) => Ok(RtdDocument(root, stored, rs))
  }

  ghost predicate WellFormedResource(r: RtdResource)
  {
    0 !in r.name && r.bytesLength as int == |r.bytes| + 1
  }

  ghost predicate WellFormedDocument(d: RtdDocument)
  {
    && WellFormedNode(d.rootNode)
    && d.resourcesCount as int == |d.resources| + 1
    && forall i :: 0 <= i < |d.resources| ==> WellFormedResource(d.resources[i])
  }

  lemma ReadWriteResource(r: RtdResource, rest: seq<uint8>)
    requires WellFormedResource(r)
    ensures ReadResource(WriteResource(r) + rest) == Ok((r, rest))
  {
    var afterLength := r.bytes + rest;
    var afterName := WriteI32(r.bytesLength) + afterLength;
    AppendAssoc(WriteNullString(r.name) + WriteI32(r.bytesLength), r.bytes, rest);
    AppendAssoc(WriteNullString(r.name), WriteI32(r.bytesLength), afterLength);
    ReadWriteNullString(r.name, afterName);
    ReadWriteI32(r.bytesLength, afterLength);
    assert afterLength[..|r.bytes|] == r.bytes && afterLength[|r.bytes|..] == rest;
  }

  lemma {:induction false} ReadWriteResources(rs: seq<RtdResource>, rest: seq<uint8>)
    requires forall i :: 0 <= i < |rs| ==> WellFormedResource(rs[i])
    ensures ReadResources(WriteResources(rs) + rest, |rs|) == Ok((rs, rest))
  {
    var bs := WriteResources(rs) + rest;
    if rs == [] {
      assert bs == rest;
    } else {
      var head, tail := rs[0], rs[1..];
      var afterResource := WriteResources(tail) + rest;
      assert ReadResource(bs) == Ok((head, afterResource)) by {
        AppendAssoc(WriteResource(head), WriteResources(tail), rest);
        ReadWriteResource(head, afterResource);
      }
      assert ReadResources(afterResource, |rs| - 1) == Ok((tail, rest)) by {
        assert forall i :: 0 <= i < |tail| ==> WellFormedResource(tail[i]) by {
          forall i | 0 <= i < |tail| ensures WellFormedResource(tail[i]) {
            assert tail[i] == rs[i + 1];
          }
        }
        ReadWriteResources(tail, rest);
      }
      ReadResourcesStep(bs, |rs|, head, afterResource, tail, rest);
      HeadTail(rs);
    }
  }

  /** One step of reading k resources: the first resource, then k - 1 more. */
  lemma ReadResourcesStep(bs: seq<uint8>, k: nat, r: RtdResource, afterResource: seq<uint8>, rs: seq<RtdResource>, rest: seq<uint8>)
    requires k > 0
    requires ReadResource(bs) == Ok((r, afterResource))
    requires ReadResources(afterResource, k - 1) == Ok((rs, rest))
    ensures ReadResources(bs, k) == Ok(([r] + rs, rest))
  {
  }

  lemma ReadWriteDocument(d: RtdDocument)
    requires WellFormedDocument(d)
    ensures ReadDocument(WriteDocument(d)) == Ok(d)
  {
    var afterCount := WriteResources(d.resources);
    var afterRoot := WriteI32(d.resourcesCount) + afterCount;
    AppendAssoc(WriteNode(d.rootNode), WriteI32(d.resourcesCount), afterCount);
    ReadWriteNode(d.rootNode, afterRoot);
    ReadWriteI32(d.resourcesCount, afterCount);
    ReadWriteResources(d.resources, []);
    assert afterCount + [] == afterCount;
  }

  // ---------------------------------------------------------------------------
  // The compression pass
  // ---------------------------------------------------------------------------

  /** One resource after a compression or decompression step: the new bytes and their
      length + 1 when the step succeeds, the resource unchanged when it fails. */
  function Recode(res: RtdResource, codec: seq<uint8> -> Option<seq<uint8>>): (r: RtdResource)
    ensures r.name == res.name
    ensures codec(res.bytes).None? ==> r == res
    ensures codec(res.bytes).Some? ==> r.bytes == codec(res.bytes).value && r.bytesLength == ToI32(|r.bytes| + 1)
  {
    match codec(res.bytes)
    case Some(b) => res.(bytesLength := ToI32(|b| + 1), bytes := b)
    case None => res
  }

  function Recoded(rs: seq<RtdResource>, codec: seq<uint8> -> Option<seq<uint8>>): (r: seq<RtdResource>)
    ensures |r| == |rs| && forall i :: 0 <= i < |rs| ==> r[i] == Recode(rs[i], codec)
  {
    seq(|rs|, i requires 0 <= i < |rs| => Recode(rs[i], codec))
  }

  /** What `serealize` produces: the document with every resource compressed, written out. */
  function Serialized(document: RtdDocument, compress: seq<uint8> -> Option<seq<uint8>>): seq<uint8>
  {
    WriteDocument(document.(resources := Recoded(document.resources, compress)))
  }

  /** What `deserealize` produces: the read error unchanged, or the document read with
      every resource decompressed. */
  function Deserialized(bytes: seq<uint8>, decompress: seq<uint8> -> Option<seq<uint8>>): Result<RtdDocument, ReadError>
  {
    match ReadDocument(bytes)
    case Err(e) => Err(e)
    case Ok(doc) => Ok(doc.(resources := Recoded(doc.resources, decompress)))
  }

  /** The resource loop shared by `serealize` and `deserealize`: every resource is pushed
      with the codec's output and the matching stored length when the codec succeeds, and
      unchanged when it fails. */
  method RecodeResources(rs: seq<RtdResource>, codec: seq<uint8> -> Option<seq<uint8>>) returns (resources: seq<RtdResource>)
    ensures resources == Recoded(rs, codec)
  {
    resources := [];
    for i := 0 to |rs|
      invariant |resources| == i
      invariant forall j :: 0 <= j < i ==> resources[j] == Recode(rs[j], codec)
    {
      var res := rs[i];
      var next := res;
      match codec(res.bytes) {
        case Some(output) =>
          next := res.(bytesLength := ToI32(|output| + 1), bytes := output);
        case None =>
      }
      assert next == Recode(res, codec);
      resources := resources + [next];
    }
  }

  /** `serealize`: recodes the resources with the compressor, puts them in place of the
      document's, and writes the document; the node tree comes first, uncompressed. */
  method Serialize(document: RtdDocument, compress: seq<uint8> -> Option<seq<uint8>>) returns (bytes: seq<uint8>)
    ensures bytes == Serialized(document, compress)
    ensures |WriteNode(document.rootNode)| <= |bytes| && bytes[..|WriteNode(document.rootNode)|] == WriteNode(document.rootNode)
  {
    var resources := RecodeResources(document.resources, compress);
    var doc := document.(resources := resources);
    bytes := WriteDocument(doc);
  }

  /** `deserealize`: reads the document, then recodes its resources with the decompressor;
      a read error is passed on. */
  method Deserialize(bytes: seq<uint8>, decompress: seq<uint8> -> Option<seq<uint8>>) returns (r: Result<RtdDocument, ReadError>)
    ensures r == Deserialized(bytes, decompress)
  {
    var docResult := ReadDocument(bytes);
    if docResult.Err? {
      return Err(docResult.error);
    }
    var doc := docResult.value;
    var resources := RecodeResources(doc.resources, decompress);
    r := Ok(doc.(resources := resources));
  }

  /** The compressor succeeds on every resource of `rs` with an output whose length + 1
      fits an i32, and the decompressor undoes it. */
  ghost predicate CodecInverts(rs: seq<RtdResource>, compress: seq<uint8> -> Option<seq<uint8>>,
                               decompress: seq<uint8> -> Option<seq<uint8>>)
  {
    forall i :: 0 <= i < |rs| ==> CodecInvertsOn(rs[i].bytes, compress, decompress)
  }

  /** The compressor succeeds on `b` with an output whose length + 1 fits an i32, and the
      decompressor gives `b` back from it. */
  ghost predicate CodecInvertsOn(b: seq<uint8>, compress: seq<uint8> -> Option<seq<uint8>>,
                                 decompress: seq<uint8> -> Option<seq<uint8>>)
  {
    && compress(b).Some?
    && |compress(b).value| + 1 < 0x8000_0000
    && decompress(compress(b).value) == Some(b)
  }

  /** Deserializing a serialized well-formed document gives it back, when decompression
      undoes compression. */
  lemma SerializeRoundTrip(d: RtdDocument, compress: seq<uint8> -> Option<seq<uint8>>,
                           decompress: seq<uint8> -> Option<seq<uint8>>)
    requires WellFormedDocument(d) && CodecInverts(d.resources, compress, decompress)
    ensures Deserialized(Serialized(d, compress), decompress) == Ok(d)
  {
    var stored := d.(resources := Recoded(d.resources, compress));
    RecodedWellFormed(d, compress);
    ReadWriteDocument(stored);
    RecodedInverts(d.resources, compress, decompress);
  }

  /** Compressing the resources of a well-formed document keeps it well formed, as long as
      every compressed length still fits the stored i32. */
  lemma RecodedWellFormed(d: RtdDocument, compress: seq<uint8> -> Option<seq<uint8>>)
    requires WellFormedDocument(d)
    requires forall i :: 0 <= i < |d.resources| ==>
               compress(d.resources[i].bytes).Some? ==> |compress(d.resources[i].bytes).value| + 1 < 0x8000_0000
    ensures WellFormedDocument(d.(resources := Recoded(d.resources, compress)))
  {
    var rs := Recoded(d.resources, compress);
    forall i | 0 <= i < |rs| ensures WellFormedResource(rs[i]) {
      assert rs[i] == Recode(d.resources[i], compress);
    }
  }

  /** Decompressing compressed resources gives them back, when decompression undoes
      compression on each of them. */
  lemma RecodedInverts(rs: seq<RtdResource>, compress: seq<uint8> -> Option<seq<uint8>>,
                       decompress: seq<uint8> -> Option<seq<uint8>>)
    requires forall i :: 0 <= i < |rs| ==> WellFormedResource(rs[i])
    requires CodecInverts(rs, compress, decompress)
    ensures Recoded(Recoded(rs, compress), decompress) == rs
  {
    var stored := Recoded(rs, compress);
    forall i | 0 <= i < |rs| ensures Recode(stored[i], decompress) == rs[i] {
      assert stored[i] == Recode(rs[i], compress);
    }
  }

  // ---------------------------------------------------------------------------
  // Conversions between documents and wire structures
  // ---------------------------------------------------------------------------

  /** `node_to_rtd_node`: names and contents as UTF-8, stored count = children + 1. */
  function NodeToRtdNode(n: Node): (r: RtdNode)
    ensures |r.children| == |n.children|
    decreases n
  {
    RtdNode(Encode(n.name), Encode(n.content), ToI32(|n.children| + 1),
            seq(|n.children|, i requires 0 <= i < |n.children| => NodeToRtdNode(n.children[i])))
  }

  /** `rtd_node_to_node`: strings decoded lossily, and every node given a freshly drawn id
      (`draw(path)` for the node at child-index path `path` of the loaded tree). The
      stored count is not consulted; the children read are used. */
  function RtdNodeToNode(r: RtdNode, draw: seq<nat> -> uint32, path: seq<nat>): (n: Node)
    ensures n.id == draw(path) && |n.children| == |r.children|
    decreases r
  {
    Node(draw(path), Decode(r.name), Decode(r.content),
         seq(|r.children|, i requires 0 <= i < |r.children| => RtdNodeToNode(r.children[i], draw, path + [i])))
  }

  /** A tree the format can hold: no NUL character in a name or content, and fewer than
      2^31 - 1 children under every node. */
  ghost predicate Storable(n: Node)
    decreases n
  {
    && '\0' !in n.name && '\0' !in n.content
    && |n.children| + 1 < 0x8000_0000
    && forall i :: 0 <= i < |n.children| ==> Storable(n.children[i])
  }

  /** Every level of a storable tree is written with count = children + 1. */
  lemma {:induction false} NodeToRtdWellFormed(n: Node)
    requires Storable(n)
    ensures WellFormedNode(NodeToRtdNode(n))
    decreases n
  {
    var r := NodeToRtdNode(n);
    forall i | 0 <= i < |n.children| ensures WellFormedNode(r.children[i]) {
      NodeToRtdWellFormed(n.children[i]);
    }
  }

  /** Converting a node to the wire structure and back keeps names, contents and the
      order of children at every depth; only ids are new. */
  lemma {:induction false} NodeConversionRoundTrip(n: Node, draw: seq<nat> -> uint32, path: seq<nat>)
    ensures SameUpToIds(RtdNodeToNode(NodeToRtdNode(n), draw, path), n)
    decreases n
  {
    var back := RtdNodeToNode(NodeToRtdNode(n), draw, path);
    DecodeEncode(n.name);
    DecodeEncode(n.content);
    forall i | 0 <= i < |n.children| ensures SameUpToIds(back.children[i], n.children[i]) {
      NodeConversionRoundTrip(n.children[i], draw, path + [i]);
    }
  }

  /** `Below(a, b)`: `a < b` in the order of Rust strings (lexicographic by scalar value). */
  predicate Below(a: string, b: string)
    decreases |a|
  {
    |b| > 0 && (|a| == 0 || a[0] < b[0] || (a[0] == b[0] && Below(a[1..], b[1..])))
  }

  lemma {:induction false} BelowIrreflexive(a: string)
    ensures !Below(a, a)
    decreases |a|
  {
    if |a| > 0 {
      BelowIrreflexive(a[1..]);
    }
  }

  lemma {:induction false} BelowTotal(a: string, b: string)
    requires a != b
    ensures Below(a, b) || Below(b, a)
    decreases |a|
  {
    if |a| > 0 && |b| > 0 && a[0] == b[0] {
      assert a[1..] != b[1..] by {
        assert a == [a[0]] + a[1..] && b == [b[0]] + b[1..];
      }
      BelowTotal(a[1..], b[1..]);
    }
  }

  lemma {:induction false} BelowTransitive(a: string, b: string, c: string)
    requires Below(a, b) && Below(b, c)
    ensures Below(a, c)
    decreases |a|
  {
    if |a| > 0 && a[0] == b[0] && b[0] == c[0] {
      BelowTransitive(a[1..], b[1..], c[1..]);
    }
  }

  lemma BelowAsymmetric(a: string, b: string)
    requires Below(a, b)
    ensures !Below(b, a)
  {
    if Below(b, a) {
      BelowTransitive(a, b, a);
      BelowIrreflexive(a);
    }
  }

  /** `k` is the least of `ks`. */
  ghost predicate Least(k: string, ks: set<string>)
  {
    k in ks && forall j :: j in ks && j != k ==> Below(k, j)
  }

  /** Every finite non-empty set of strings has a least element. */
  lemma {:induction false} LeastExists(ks: set<string>)
    requires ks != {}
    ensures exists k :: Least(k, ks)
    decreases |ks|
  {
    var x :| x in ks;
    if ks == {x} {
      assert Least(x, ks);
    } else {
      var rest := ks - {x};
      LeastExists(rest);
      var m :| Least(m, rest);
      BelowTotal(x, m);
      if Below(x, m) {
        forall j | j in ks && j != x ensures Below(x, j) {
          if j != m {
            BelowTransitive(x, m, j);
          }
        }
        assert Least(x, ks);
      } else {
        assert Least(m, ks);
      }
    }
  }

  /** The keys of a BTreeMap in iteration order: ascending, each once. */
  ghost function SortedKeys(ks: set<string>): (s: seq<string>)
    ensures |s| == |ks|
    ensures forall k :: k in s <==> k in ks
    ensures forall i, j :: 0 <= i < j < |s| ==> Below(s[i], s[j])
    decreases |ks|
  {
    if ks == {} then []
    else
      LeastExists(ks);
      var k :| Least(k, ks);
      var rest := SortedKeys(ks - {k});
      assert forall j :: 0 <= j < |rest| ==> Below(k, rest[j]) by {
        forall j | 0 <= j < |rest| ensures Below(k, rest[j]) {
          assert rest[j] in rest;
        }
      }
      [k] + rest
  }

  function ResourceToRtd(name: string, res: Resource): RtdResource
  {
    RtdResource(Encode(name), ToI32(|res.bytes| + 1), res.bytes)
  }

  /** The resource entries of `document_to_rtd_document`: one per map entry, in ascending
      name order, each with its name as UTF-8 and stored length = bytes + 1. */
  ghost function RtdResources(m: map<string, Resource>): (rs: seq<RtdResource>)
    ensures |rs| == |m|
  {
    var keys := SortedKeys(m.Keys);
    seq(|keys|, i requires 0 <= i < |keys| => ResourceToRtd(keys[i], m[keys[i]]))
  }

  /** Each entry is the converted resource of the name it carries. */
  lemma RtdEntriesMatch(m: map<string, Resource>)
    ensures var rs := RtdResources(m);
            forall i :: 0 <= i < |rs| ==> Decode(rs[i].name) in m && rs[i] == ResourceToRtd(Decode(rs[i].name), m[Decode(rs[i].name)])
  {
    var keys := SortedKeys(m.Keys);
    RtdResourceNames(m);
    forall i | 0 <= i < |keys| ensures keys[i] in m {
      assert keys[i] in keys;
    }
  }

  /** Every name of the map has an entry. */
  lemma RtdEntriesCover(m: map<string, Resource>)
    ensures var rs := RtdResources(m);
            forall k :: k in m ==> exists i :: 0 <= i < |rs| && Decode(rs[i].name) == k
  {
    var keys := SortedKeys(m.Keys);
    var rs := RtdResources(m);
    RtdResourceNames(m);
    forall k | k in m ensures exists i :: 0 <= i < |rs| && Decode(rs[i].name) == k {
      assert k in keys;
      var i :| 0 <= i < |keys| && keys[i] == k;
      assert Decode(rs[i].name) == k;
    }
  }

  /** The entries ascend by name, as a BTreeMap iterates. */
  lemma RtdEntriesAscend(m: map<string, Resource>)
    ensures var rs := RtdResources(m);
            forall i, j :: 0 <= i < j < |rs| ==> Below(Decode(rs[i].name), Decode(rs[j].name))
  {
    RtdResourceNames(m);
  }

  /** The i-th entry carries the i-th name in ascending order, encoded. */
  lemma RtdResourceNames(m: map<string, Resource>)
    ensures var keys := SortedKeys(m.Keys);
            var rs := RtdResources(m);
            |rs| == |keys| && forall i :: 0 <= i < |rs| ==> Decode(rs[i].name) == keys[i] && rs[i] == ResourceToRtd(keys[i], m[keys[i]])
  {
    var keys := SortedKeys(m.Keys);
    var rs := RtdResources(m);
    forall i | 0 <= i < |keys| ensures Decode(rs[i].name) == keys[i] {
      DecodeEncode(keys[i]);
    }
  }

  /** `document_to_rtd_document`: the root converted, stored resource count = resources + 1,
      and the resource entries. */
  ghost function DocumentToRtdDocument(d: Document): (r: RtdDocument)
    ensures r.rootNode == NodeToRtdNode(d.rootNode)
    ensures r.resourcesCount == ToI32(|d.resources| + 1)
    ensures r.resources == RtdResources(d.resources)
  {
    RtdDocument(NodeToRtdNode(d.rootNode), ToI32(|d.resources| + 1), RtdResources(d.resources))
  }

  /** Collecting (name, resource) pairs into a map: a later pair with the same name
      replaces an earlier one. Resource `i` takes the id `draw(i)`. */
  function CollectResources(rs: seq<RtdResource>, draw: nat -> uint32): (m: map<string, Resource>)
    ensures forall k :: k in m <==> exists i :: 0 <= i < |rs| && Decode(rs[i].name) == k
    decreases |rs|
  {
    if rs == [] then map[]
    else
      var last := rs[|rs| - 1];
      var m := CollectResources(rs[..|rs| - 1], draw);
      assert forall i :: 0 <= i < |rs| - 1 ==> rs[..|rs| - 1][i] == rs[i];
      m[Decode(last.name) := NewResource(last.bytes, draw(|rs| - 1))]
  }

  /** `rtd_document_to_document`. */
  function RtdDocumentToDocument(r: RtdDocument, e: Entropy): Document
  {
    Document(RtdNodeToNode(r.rootNode, e.nodeIds, []), CollectResources(r.resources, e.resourceIds))
  }

  /** When every pair named `k` carries the same bytes, the collected map gives `k` those bytes. */
  lemma {:induction false} CollectedBytes(rs: seq<RtdResource>, draw: nat -> uint32, k: string, bytes: seq<uint8>)
    requires k in CollectResources(rs, draw)
    requires forall i :: 0 <= i < |rs| && Decode(rs[i].name) == k ==> rs[i].bytes == bytes
    ensures CollectResources(rs, draw)[k].bytes == bytes
    decreases |rs|
  {
    var last := rs[|rs| - 1];
    if Decode(last.name) != k {
      var init := rs[..|rs| - 1];
      assert forall i :: 0 <= i < |init| ==> init[i] == rs[i];
      CollectedBytes(init, draw, k, bytes);
    }
  }

  /** Two documents hold the same tree up to ids and map the same resource names to the
      same bytes. */
  ghost predicate SameContent(a: Document, b: Document)
  {
    && SameUpToIds(a.rootNode, b.rootNode)
    && (forall k :: k in a.resources <==> k in b.resources)
    && forall k :: k in b.resources ==> a.resources[k].bytes == b.resources[k].bytes
  }

  /** Converting a document to the wire structure and back keeps the tree up to ids and
      maps the same resource names to the same bytes. */
  lemma DocumentConversionRoundTrip(d: Document, e: Entropy)
    ensures SameContent(RtdDocumentToDocument(DocumentToRtdDocument(d), e), d)
  {
    NodeConversionRoundTrip(d.rootNode, e.nodeIds, []);
    ResourcesRoundTrip(d.resources, e.resourceIds);
  }

  lemma ResourcesRoundTrip(m: map<string, Resource>, draw: nat -> uint32)
    ensures var back := CollectResources(RtdResources(m), draw);
            && (forall k :: k in back <==> k in m)
            && forall k :: k in m ==> back[k].bytes == m[k].bytes
  {
    var rs := RtdResources(m);
    assert forall i :: 0 <= i < |rs| ==> Decode(rs[i].name) in m && rs[i].bytes == m[Decode(rs[i].name)].bytes by {
      RtdEntriesMatch(m);
    }
    assert forall k :: k in m ==> exists i :: 0 <= i < |rs| && Decode(rs[i].name) == k by {
      RtdEntriesCover(m);
    }
    CollectedMatches(rs, draw, m);
  }

  /** Collecting pairs that name exactly the keys of `m`, each with its bytes under `m`,
      gives a map with the keys of `m` and the same bytes. */
  lemma CollectedMatches(rs: seq<RtdResource>, draw: nat -> uint32, m: map<string, Resource>)
    requires forall i :: 0 <= i < |rs| ==> Decode(rs[i].name) in m && rs[i].bytes == m[Decode(rs[i].name)].bytes
    requires forall k :: k in m ==> exists i :: 0 <= i < |rs| && Decode(rs[i].name) == k
    ensures forall k :: k in CollectResources(rs, draw) <==> k in m
    ensures forall k :: k in m ==> CollectResources(rs, draw)[k].bytes == m[k].bytes
  {
    var back := CollectResources(rs, draw);
    forall k | k in m ensures k in back && back[k].bytes == m[k].bytes {
      CollectedBytes(rs, draw, k, m[k].bytes);
    }
  }

  /** A document the format can hold: a storable tree, and fewer than 2^31 - 1 resources,
      none with a NUL in its name. */
  ghost predicate StorableDocument(d: Document)
  {
    && Storable(d.rootNode)
    && |d.resources| + 1 < 0x8000_0000
    && forall k :: k in d.resources ==> '\0' !in k && |d.resources[k].bytes| + 1 < 0x8000_0000
  }

  /** Saving as the editor does: the document's wire form, compressed and written. */
  ghost function Save(d: Document, compress: seq<uint8> -> Option<seq<uint8>>): seq<uint8>
  {
    Serialized(DocumentToRtdDocument(d), compress)
  }

  /** Loading as the editor does: read and decompressed, then converted with fresh ids. */
  function Load(bytes: seq<uint8>, decompress: seq<uint8> -> Option<seq<uint8>>, e: Entropy): Result<Document, ReadError>
  {
    match Deserialized(bytes, decompress)
    case Ok(r) => Ok(RtdDocumentToDocument(r, e))
    case Err(err) => Err(err)
  }

  /** Saving then loading: a storable document written through the compression pass and
      read back through the decompression pass loads as the same tree up to ids, with the
      same resource names and bytes, when decompression undoes compression. */
  lemma SaveLoadRoundTrip(d: Document, compress: seq<uint8> -> Option<seq<uint8>>,
                          decompress: seq<uint8> -> Option<seq<uint8>>, e: Entropy)
    requires StorableDocument(d)
    requires forall k :: k in d.resources ==> CodecInvertsOn(d.resources[k].bytes, compress, decompress)
    ensures Load(Save(d, compress), decompress, e).Ok?
    ensures SameContent(Load(Save(d, compress), decompress, e).value, d)
  {
    var r := DocumentToRtdDocument(d);
    StorableWellFormed(d);
    assert CodecInverts(r.resources, compress, decompress) by {
      RtdEntriesMatch(d.resources);
    }
    assert Deserialized(Serialized(r, compress), decompress) == Ok(r) by {
      SerializeRoundTrip(r, compress, decompress);
    }
    DocumentConversionRoundTrip(d, e);
  }

  /** The wire form of a storable document is well formed. */
  lemma StorableWellFormed(d: Document)
    requires StorableDocument(d)
    ensures WellFormedDocument(DocumentToRtdDocument(d))
  {
    var r := DocumentToRtdDocument(d);
    NodeToRtdWellFormed(d.rootNode);
    RtdEntriesMatch(d.resources);
    forall i | 0 <= i < |r.resources| ensures WellFormedResource(r.resources[i]) {
      var k := Decode(r.resources[i].name);
      assert '\0' !in k;
    }
  }
}
