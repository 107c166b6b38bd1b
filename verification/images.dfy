/**
 Images embedded in card content (internal/rest/image.go).

 HTML parsing and rendering belong to golang.org/x/net/html and are not part of
 this model: the operations work on the parsed tree. Blob storage, base64
 decoding and uuid generation are supplied as a `Storage` of oracles.
 */
module Images {
  import opened Wrappers

  /** The node types of the HTML package. */
  datatype NodeType = ErrorNode | TextNode | DocumentNode | ElementNode | CommentNode | DoctypeNode | RawNode

  datatype Attribute = Attribute(key: string, val: string)

  /** A parsed HTML node with its attributes and children, in document order. */
  datatype Node = Node(kind: NodeType, data: string, attrs: seq<Attribute>, children: seq<Node>)

  const BlobIdKey: string := "az-blob-id"
  const SourceKey: string := "src"
  const DataImagePrefix: string := "data:image/"
  const Base64Marker: string := "base64"

  predicate IsImg(n: Node) {
    n.kind == ElementNode && n.data == "img"
  }

  // ---------------------------------------------------------------------------
  // ListImageIDs

  /** Values of the `az-blob-id` attributes, in attribute order. */
  function BlobIds(attrs: seq<Attribute>): (ids: seq<string>)
    ensures |ids| <= |attrs|
    ensures forall id :: id in ids <==> Attribute(BlobIdKey, id) in attrs
    ensures forall id :: multiset(ids)[id] == multiset(attrs)[Attribute(BlobIdKey, id)]
  {
    if |attrs| == 0 then []
    else
      assert forall a :: a in attrs <==> a == attrs[0] || a in attrs[1..];
      assert attrs == [attrs[0]] + attrs[1..];
      (if attrs[0].key == BlobIdKey then [attrs[0].val] else []) + BlobIds(attrs[1..])
  }

  /** The ids are read attribute by attribute, so they keep the attributes' order. */
  lemma {:induction false} BlobIdsConcat(a: seq<Attribute>, b: seq<Attribute>)
    ensures BlobIds(a + b) == BlobIds(a) + BlobIds(b)
    decreases |a|
  {
    if |a| == 0 {
      assert a + b == b;
    } else {
      assert (a + b)[0] == a[0];
      assert (a + b)[1..] == a[1..] + b;
      BlobIdsConcat(a[1..], b);
    }
  }

  /** The blob ids a node contributes itself: those of an `img` element. */
  function OwnIds(n: Node): seq<string> {
    if IsImg(n) then BlobIds(n.attrs) else []
  }

  /** `ListImageIDs` on the parsed document: the walk visits every node, `img`
      elements included, and collects their blob ids in document pre-order. */
  function ListImageIds(n: Node): (ids: seq<string>)
    ensures ids == IdsOf(PreOrder(n))
    decreases n, 1
  {
    IdsOfConcat([n], PreOrderAll(n.children));
    assert [n][1..] == [];
    OwnIds(n) + ListImageIdsAll(n.children)
  }

  function ListImageIdsAll(nodes: seq<Node>): (ids: seq<string>)
    ensures ids == IdsOf(PreOrderAll(nodes))
    decreases nodes, 0
  {
    if |nodes| == 0 then []
    else
      IdsOfConcat(PreOrder(nodes[0]), PreOrderAll(nodes[1..]));
      ListImageIds(nodes[0]) + ListImageIdsAll(nodes[1..])
  }

  /** Every node of the tree in pre-order: the node, then each child's subtree. */
  function PreOrder(n: Node): (nodes: seq<Node>)
    ensures |nodes| > 0 && nodes[0] == n
    decreases n, 1
  {
    [n] + PreOrderAll(n.children)
  }

  function PreOrderAll(nodes: seq<Node>): seq<Node>
    decreases nodes, 0
  {
    if |nodes| == 0 then [] else PreOrder(nodes[0]) + PreOrderAll(nodes[1..])
  }

  /** The blob ids of a list of nodes, each node's own ids in turn. */
  function IdsOf(nodes: seq<Node>): seq<string> {
    if |nodes| == 0 then [] else OwnIds(nodes[0]) + IdsOf(nodes[1..])
  }

  lemma {:induction false} IdsOfConcat(a: seq<Node>, b: seq<Node>)
    ensures IdsOf(a + b) == IdsOf(a) + IdsOf(b)
    decreases |a|
  {
    if |a| == 0 {
      assert a + b == b;
    } else {
      assert (a + b)[1..] == a[1..] + b;
      IdsOfConcat(a[1..], b);
    }
  }

  // ---------------------------------------------------------------------------
  // Diff

  /** `ids` without the entries that occur in `other`, keeping order and duplicates. */
  function Without(ids: seq<string>, other: seq<string>): (kept: seq<string>)
    ensures forall id :: id in kept <==> id in ids && id !in other
  {
    if |ids| == 0 then []
    else
      (if ids[0] in other then [] else [ids[0]]) + Without(ids[1..], other)
  }

  /** Duplicates survive the filter: an entry kept occurs as often as in `ids`. */
  lemma {:induction false} WithoutCounts(ids: seq<string>, other: seq<string>)
    ensures forall id :: multiset(Without(ids, other))[id] == if id in other then 0 else multiset(ids)[id]
    decreases |ids|
  {
    if |ids| > 0 {
      WithoutCounts(ids[1..], other);
      assert ids == [ids[0]] + ids[1..];
    }
  }

  /** Filtering is done entry by entry, so it preserves the order of `ids`. */
  lemma {:induction false} WithoutConcat(a: seq<string>, b: seq<string>, other: seq<string>)
    ensures Without(a + b, other) == Without(a, other) + Without(b, other)
    decreases |a|
  {
    if |a| == 0 {
      assert a + b == b;
    } else {
      assert (a + b)[0] == a[0];
      assert (a + b)[1..] == a[1..] + b;
      WithoutConcat(a[1..], b, other);
    }
  }

  /** Nothing is left when every entry occurs in `other`; in particular a list
      filtered against itself is empty. */
  lemma {:induction false} WithoutCovered(ids: seq<string>, other: seq<string>)
    requires forall id :: id in ids ==> id in other
    ensures Without(ids, other) == []
    decreases |ids|
  {
    if |ids| > 0 {
      assert ids[0] in ids;
      assert forall id :: id in ids[1..] ==> id in ids;
      WithoutCovered(ids[1..], other);
    }
  }

  /** One loop of `Diff`: append each entry of `ids` that `slices.Contains` does
      not find in `other`. */
  method FilterOut(ids: seq<string>, other: seq<string>) returns (kept: seq<string>)
    ensures kept == Without(ids, other)
  {
    kept := [];
    for i := 0 to |ids|
      invariant kept == Without(ids[..i], other)
    {
      var id := ids[i];
      WithoutConcat(ids[..i], [id], other);
      assert ids[..i + 1] == ids[..i] + [id];
      if id !in other {
        kept := kept + [id];
      }
    }
    assert ids[..|ids|] == ids;
  }

  /** `Diff(oldContent, newContent)`: the blob ids only the new content lists, and
      those only the old content lists. */
  method Diff(oldContent: Node, newContent: Node) returns (added: seq<string>, removed: seq<string>)
    ensures added == Without(ListImageIds(newContent), ListImageIds(oldContent))
    ensures removed == Without(ListImageIds(oldContent), ListImageIds(newContent))
    ensures oldContent == newContent ==> added == [] && removed == []
  {
    var oldIds := ListImageIds(oldContent);
    var newIds := ListImageIds(newContent);
    added := FilterOut(newIds, oldIds);
    removed := FilterOut(oldIds, newIds);
    if oldContent == newContent {
      WithoutCovered(oldIds, oldIds);
    }
  }

  // ---------------------------------------------------------------------------
  // Slicing a data URL

  predicate StartsWith(s: string, prefix: string) {
    |prefix| <= |s| && s[..|prefix|] == prefix
  }

  /** Index of the first `c` in `s`, or `|s|` when there is none. */
  function IndexOf(s: string, c: char): (k: nat)
    ensures k <= |s|
    ensures forall j :: 0 <= j < k ==> s[j] != c
    ensures k < |s| ==> s[k] == c
  {
    if |s| == 0 then 0
    else if s[0] == c then 0
    else 1 + IndexOf(s[1..], c)
  }

  /** `strings.Split(val, ";")[0][len("data:image/"):]`: the text between the prefix
      and the first `;`. */
  function ImageType(val: string): (t: string)
    requires StartsWith(val, DataImagePrefix)
    ensures ';' !in t
    ensures |DataImagePrefix| + |t| <= |val|
    ensures val[..|DataImagePrefix| + |t|] == DataImagePrefix + t
    ensures |DataImagePrefix| + |t| == |val| || val[|DataImagePrefix| + |t|] == ';'
  {
    var end := IndexOf(val, ';');
    assert forall j :: 0 <= j < |DataImagePrefix| ==> val[j] == DataImagePrefix[j] != ';';
    var t := val[|DataImagePrefix|..end];
    assert val[..|DataImagePrefix| + |t|] == val[..|DataImagePrefix|] + t;
    t
  }

  /** `p` occurs in `s` at position `k`. */
  predicate OccursAt(s: string, p: string, k: nat) {
    k + |p| <= |s| && s[k..k + |p|] == p
  }

  /** The first occurrence of `p` in `s` at or after `from`. */
  function FindFrom(s: string, p: string, from: nat): (r: Option<nat>)
    requires from <= |s|
    ensures r.Some? ==> from <= r.value && OccursAt(s, p, r.value)
    ensures r.Some? ==> forall j :: from <= j < r.value ==> !OccursAt(s, p, j)
    ensures r.None? ==> forall j :: from <= j ==> !OccursAt(s, p, j)
    decreases |s| - from
  {
    if OccursAt(s, p, from) then Some(from)
    else if from == |s| then None
    else FindFrom(s, p, from + 1)
  }

  /** What went wrong in the rewrite. `Panic` stands for Go's out-of-range slice
      index; the router's recovery middleware turns it into a 500 response.
      `CutCharacter` is the decode error Go reports when `[1:]` cut a multi-byte
      character in two (see `Payload`). */
  datatype Failure = Panic | CutCharacter | DecodeFailed(payload: string) | UploadFailed(id: string)

  /** `k` is the first occurrence of `base64` in `val`, and a character follows it. */
  predicate FirstMarkerAt(val: string, k: int) {
    && 0 <= k && k + |Base64Marker| < |val|
    && OccursAt(val, Base64Marker, k)
    && forall j :: 0 <= j < k ==> !OccursAt(val, Base64Marker, j)
  }

  /** A character that UTF-8 encodes in a single byte. */
  predicate IsAscii(c: char) {
    c as int < 0x80
  }

  /** `strings.SplitN(val, "base64", 2)[1][1:]`: the bytes after the first `base64`,
      less one. Go panics when there is no `base64`, or when it ends `val`. The
      attribute value comes from the HTML parser, so it is valid UTF-8: when the
      byte dropped is an ASCII character, the payload is the rest of the text;
      otherwise the payload starts with continuation bytes, which lie outside
      the base64 alphabet, so `base64.StdEncoding.DecodeString` fails. */
  function Payload(val: string): (r: Result<string, Failure>)
    ensures r.Failure? ==> r.error == Panic || r.error == CutCharacter
    ensures r == Failure(Panic) <==> forall j :: 0 <= j && j + |Base64Marker| < |val| ==> !OccursAt(val, Base64Marker, j)
    ensures r == Failure(CutCharacter) <==> exists k :: FirstMarkerAt(val, k) && !IsAscii(val[k + |Base64Marker|])
    ensures r.Success? ==>
      var k := |val| - |r.value| - |Base64Marker| - 1;
      && FirstMarkerAt(val, k)
      && IsAscii(val[k + |Base64Marker|])
      && r.value == val[k + |Base64Marker| + 1..]
  {
    match FindFrom(val, Base64Marker, 0)
    case None => Failure(Panic)
    case Some(k) =>
      if k + |Base64Marker| == |val| then
        assert forall j :: k < j ==> !OccursAt(val, Base64Marker, j);
        Failure(Panic)
      else
        assert FirstMarkerAt(val, k);
        if !IsAscii(val[k + |Base64Marker|]) then Failure(CutCharacter)
        else Success(val[k + |Base64Marker| + 1..])
  }

  /** A multi-byte character straight after `base64` is cut in two: no payload
      reaches the decoder, whereas an ASCII one is dropped whole. */
  lemma PayloadCutScenario()
    ensures Payload("data:image/x;base64\U{e9}") == Failure(CutCharacter)
    ensures Payload("data:image/x;base64,QQ==") == Success("QQ==")
  {
    var cut := "data:image/x;base64\U{e9}";
    MarkerAfterPrefix(cut);
    assert !IsAscii(cut[13 + |Base64Marker|]);
    var ok := "data:image/x;base64,QQ==";
    MarkerAfterPrefix(ok);
    var r := Payload(ok);
    assert r != Failure(Panic) by {
      assert OccursAt(ok, Base64Marker, 13);
    }
    assert r != Failure(CutCharacter) by {
      forall k | FirstMarkerAt(ok, k)
        ensures IsAscii(ok[k + |Base64Marker|])
      {
        assert k == 13;
      }
    }
    var k := |ok| - |r.value| - |Base64Marker| - 1;
    assert k == 13;
    assert r.value == ok[20..];
  }

  /** In `data:image/x;base64...` the first `base64` starts at 13, since no `b`
      comes before it. */
  lemma MarkerAfterPrefix(val: string)
    requires |val| > 19 && val[..19] == "data:image/x;base64"
    ensures FirstMarkerAt(val, 13)
  {
    assert val[13..19] == Base64Marker;
    forall j | 0 <= j < 13
      ensures !OccursAt(val, Base64Marker, j)
    {
      assert val[j] == val[..19][j] != 'b';
    }
  }

  // ---------------------------------------------------------------------------
  // ReplaceBase64ImagesWithFileLinks

  /** The services the rewrite calls: the `n`-th uuid the call generates, base64
      decoding, the upload (true when it succeeds) and the download URL of a blob. */
  datatype Storage = Storage(
    newUuid: nat -> string,
    decode: string -> Option<seq<bv8>>,
    upload: (string, seq<bv8>) -> bool,
    downloadUrl: string -> string)

  /** A `src` holding an inline image, the only attribute the rewrite touches. */
  predicate IsInlineImage(a: Attribute) {
    a.key == SourceKey && StartsWith(a.val, DataImagePrefix)
  }

  function CountInline(attrs: seq<Attribute>): nat {
    if |attrs| == 0 then 0
    else (if IsInlineImage(attrs[0]) then 1 else 0) + CountInline(attrs[1..])
  }

  /** The rewritten attributes in their original places, the `az-blob-id`
      attributes appended after them, and the number of uuids used so far. */
  datatype AttrRewrite = AttrRewrite(attrs: seq<Attribute>, added: seq<Attribute>, used: nat)

  /** One iteration of the attribute loop: upload an inline image under a fresh
      name `<uuid>.<type>` and point `src` at it. */
  function RewriteAttr(st: Storage, a: Attribute, used: nat): (r: Result<AttrRewrite, Failure>)
    ensures r.Success? && !IsInlineImage(a) ==> r.value == AttrRewrite([a], [], used)
    ensures r.Success? && IsInlineImage(a) ==>
      var id := st.newUuid(used) + "." + ImageType(a.val);
      r.value == AttrRewrite([Attribute(SourceKey, st.downloadUrl(id))], [Attribute(BlobIdKey, id)], used + 1)
    ensures r.Failure? ==> IsInlineImage(a)
    ensures IsInlineImage(a) && Payload(a.val) == Failure(Panic) ==> r == Failure(Panic)
    ensures IsInlineImage(a) && Payload(a.val) == Failure(CutCharacter) ==> r == Failure(CutCharacter)
    ensures IsInlineImage(a) && Payload(a.val).Success? ==>
      var payload := Payload(a.val).value;
      var id := st.newUuid(used) + "." + ImageType(a.val);
      && (st.decode(payload).None? ==> r == Failure(DecodeFailed(payload)))
      && (st.decode(payload).Some? && !st.upload(id, st.decode(payload).value) ==> r == Failure(UploadFailed(id)))
      && (st.decode(payload).Some? && st.upload(id, st.decode(payload).value) ==> r.Success?)
  {
    if !IsInlineImage(a) then Success(AttrRewrite([a], [], used))
    else
      var imageType := ImageType(a.val);
      var payload :- Payload(a.val);
      var id := st.newUuid(used) + "." + imageType;
      match st.decode(payload)
      case None => Failure(DecodeFailed(payload))
      case Some(data) =>
        if !st.upload(id, data) then Failure(UploadFailed(id))
        else Success(AttrRewrite([Attribute(a.key, st.downloadUrl(id))], [Attribute(BlobIdKey, id)], used + 1))
  }

  /** The attribute loop of an `img` element; the first failure ends it. */
  function RewriteAttrs(st: Storage, attrs: seq<Attribute>, used: nat): (r: Result<AttrRewrite, Failure>)
    ensures r.Success? ==> |r.value.attrs| == |attrs|
    ensures r.Success? ==> |r.value.added| == CountInline(attrs) && r.value.used == used + CountInline(attrs)
    ensures r.Failure? ==> CountInline(attrs) > 0
  {
    if |attrs| == 0 then Success(AttrRewrite([], [], used))
    else
      var head :- RewriteAttr(st, attrs[0], used);
      var rest :- RewriteAttrs(st, attrs[1..], head.used);
      Success(AttrRewrite(head.attrs + rest.attrs, head.added + rest.added, rest.used))
  }

  /** The first attribute whose rewrite fails aborts the loop with its failure. */
  lemma {:induction false} RewriteAttrsStopsAtFirstFailure(st: Storage, attrs: seq<Attribute>, used: nat, k: nat)
    requires k < |attrs|
    requires RewriteAttrs(st, attrs[..k], used).Success?
    requires RewriteAttr(st, attrs[k], RewriteAttrs(st, attrs[..k], used).value.used).Failure?
    ensures RewriteAttrs(st, attrs, used)
         == Failure(RewriteAttr(st, attrs[k], RewriteAttrs(st, attrs[..k], used).value.used).error)
    decreases k
  {
    if k == 0 {
      assert attrs[..0] == [];
    } else {
      assert attrs[..k][0] == attrs[0];
      assert attrs[..k][1..] == attrs[1..][..k - 1];
      assert attrs[1..][k - 1] == attrs[k];
      var head := RewriteAttr(st, attrs[0], used).value;
      RewriteAttrsStopsAtFirstFailure(st, attrs[1..], head.used, k - 1);
    }
  }

  /** The loop leaves every attribute other than an inline-image `src` as it was,
      and what it appends are `az-blob-id` attributes. */
  lemma RewriteAttrsKeepsOthers(st: Storage, attrs: seq<Attribute>, used: nat)
    ensures var r := RewriteAttrs(st, attrs, used);
      r.Success? ==>
        && (forall i :: 0 <= i < |attrs| && !IsInlineImage(attrs[i]) ==> r.value.attrs[i] == attrs[i])
        && (forall b :: b in r.value.added ==> b.key == BlobIdKey)
  {
    RewriteAttrsKeepsAttrs(st, attrs, used);
    RewriteAttrsAddsIds(st, attrs, used);
  }

  lemma {:induction false} RewriteAttrsKeepsAttrs(st: Storage, attrs: seq<Attribute>, used: nat)
    ensures var r := RewriteAttrs(st, attrs, used);
      r.Success? ==> forall i :: 0 <= i < |attrs| && !IsInlineImage(attrs[i]) ==> r.value.attrs[i] == attrs[i]
    decreases |attrs|
  {
    var r := RewriteAttrs(st, attrs, used);
    if |attrs| > 0 && r.Success? {
      var head := RewriteAttrsHead(st, attrs, used);
      RewriteAttrsKeepsAttrs(st, attrs[1..], head.used);
      var rest := RewriteAttrs(st, attrs[1..], head.used).value;
      forall i | 0 <= i < |attrs| && !IsInlineImage(attrs[i])
        ensures r.value.attrs[i] == attrs[i]
      {
        if i > 0 {
          assert attrs[1..][i - 1] == attrs[i];
          assert r.value.attrs[i] == rest.attrs[i - 1];
        }
      }
    }
  }

  /** A successful loop is the first attribute's rewrite followed by the rest's. */
  lemma RewriteAttrsHead(st: Storage, attrs: seq<Attribute>, used: nat) returns (head: AttrRewrite)
    requires |attrs| > 0 && RewriteAttrs(st, attrs, used).Success?
    ensures RewriteAttr(st, attrs[0], used) == Success(head)
    ensures RewriteAttrs(st, attrs[1..], head.used).Success?
    ensures RewriteAttrs(st, attrs, used).value.attrs == head.attrs + RewriteAttrs(st, attrs[1..], head.used).value.attrs
    ensures |head.attrs| == 1 && (!IsInlineImage(attrs[0]) ==> head.attrs == [attrs[0]])
  {
    head := RewriteAttr(st, attrs[0], used).value;
  }

  lemma {:induction false} RewriteAttrsAddsIds(st: Storage, attrs: seq<Attribute>, used: nat)
    ensures var r := RewriteAttrs(st, attrs, used);
      r.Success? ==> forall b :: b in r.value.added ==> b.key == BlobIdKey
    decreases |attrs|
  {
    var r := RewriteAttrs(st, attrs, used);
    if |attrs| > 0 && r.Success? {
      var head := RewriteAttr(st, attrs[0], used).value;
      RewriteAttrsAddsIds(st, attrs[1..], head.used);
      var rest := RewriteAttrs(st, attrs[1..], head.used).value;
      assert r.value.added == head.added + rest.added;
    }
  }

  /** Each inline-image `src` now holds the download URL of a blob whose id the
      loop appended. */
  lemma {:induction false} RewriteAttrsLinksSources(st: Storage, attrs: seq<Attribute>, used: nat)
    ensures var r := RewriteAttrs(st, attrs, used);
      r.Success? ==> forall i :: 0 <= i < |attrs| && IsInlineImage(attrs[i]) ==> LinkedSource(st, r.value, i)
    decreases |attrs|
  {
    var r := RewriteAttrs(st, attrs, used);
    if |attrs| > 0 && r.Success? {
      var head := RewriteAttr(st, attrs[0], used).value;
      RewriteAttrsLinksSources(st, attrs[1..], head.used);
      var rest := RewriteAttrs(st, attrs[1..], head.used).value;
      assert r.value == AttrRewrite(head.attrs + rest.attrs, head.added + rest.added, rest.used);
      forall i | 0 <= i < |attrs| && IsInlineImage(attrs[i])
        ensures LinkedSource(st, r.value, i)
      {
        if i == 0 {
          var id := st.newUuid(used) + "." + ImageType(attrs[0].val);
          assert r.value.added[0] == Attribute(BlobIdKey, id);
          assert r.value.attrs[0] == Attribute(SourceKey, st.downloadUrl(id));
        } else {
          assert attrs[1..][i - 1] == attrs[i];
          LinkedSourceShift(st, head, rest, i - 1);
        }
      }
    }
  }

  /** Attribute `i` of a rewrite is a `src` pointing at a blob the rewrite appended. */
  ghost predicate LinkedSource(st: Storage, r: AttrRewrite, i: int) {
    0 <= i < |r.attrs| &&
    exists id :: Attribute(BlobIdKey, id) in r.added && r.attrs[i] == Attribute(SourceKey, st.downloadUrl(id))
  }

  lemma LinkedSourceShift(st: Storage, head: AttrRewrite, rest: AttrRewrite, i: int)
    requires |head.attrs| == 1
    requires LinkedSource(st, rest, i)
    ensures LinkedSource(st, AttrRewrite(head.attrs + rest.attrs, head.added + rest.added, rest.used), i + 1)
  {
    var id :| Attribute(BlobIdKey, id) in rest.added && rest.attrs[i] == Attribute(SourceKey, st.downloadUrl(id));
    assert (head.attrs + rest.attrs)[i + 1] == rest.attrs[i];
    assert Attribute(BlobIdKey, id) in head.added + rest.added;
  }

  datatype NodeRewrite = NodeRewrite(node: Node, used: nat)
  datatype ForestRewrite = ForestRewrite(nodes: seq<Node>, used: nat)

  /** The walk: an `img` element gets its attributes rewritten and its children are
      not visited; any other node passes the walk to its children. */
  function RewriteNode(st: Storage, n: Node, used: nat): (r: Result<NodeRewrite, Failure>)
    ensures r.Success? ==> r.value.node.kind == n.kind && r.value.node.data == n.data
    ensures r.Success? ==> used <= r.value.used
    ensures r.Success? && IsImg(n) ==> r.value.node.children == n.children
    ensures r.Success? && IsImg(n) ==> |r.value.node.attrs| == |n.attrs| + (r.value.used - used)
    ensures r.Success? && IsImg(n) ==> forall i :: 0 <= i < |n.attrs| && !IsInlineImage(n.attrs[i]) ==>
      r.value.node.attrs[i] == n.attrs[i]
    ensures r.Success? && IsImg(n) ==> forall i :: |n.attrs| <= i < |r.value.node.attrs| ==>
      r.value.node.attrs[i].key == BlobIdKey
    ensures r.Success? && !IsImg(n) ==> r.value.node.attrs == n.attrs && |r.value.node.children| == |n.children|
    ensures IsImg(n) && RewriteAttrs(st, n.attrs, used).Failure? ==> r == Failure(RewriteAttrs(st, n.attrs, used).error)
    ensures !IsImg(n) && RewriteChildren(st, n.children, used).Failure? ==>
      r == Failure(RewriteChildren(st, n.children, used).error)
    decreases n, 1
  {
    if IsImg(n) then
      RewriteAttrsKeepsOthers(st, n.attrs, used);
      var a :- RewriteAttrs(st, n.attrs, used);
      assert forall i :: |a.attrs| <= i < |a.attrs + a.added| ==> (a.attrs + a.added)[i] in a.added;
      Success(NodeRewrite(n.(attrs := a.attrs + a.added), a.used))
    else
      var c :- RewriteChildren(st, n.children, used);
      Success(NodeRewrite(n.(children := c.nodes), c.used))
  }

  function RewriteChildren(st: Storage, nodes: seq<Node>, used: nat): (r: Result<ForestRewrite, Failure>)
    ensures r.Success? ==> |r.value.nodes| == |nodes| && used <= r.value.used
    decreases nodes, 0
  {
    if |nodes| == 0 then Success(ForestRewrite([], used))
    else
      var head :- RewriteNode(st, nodes[0], used);
      var rest :- RewriteChildren(st, nodes[1..], head.used);
      Success(ForestRewrite([head.node] + rest.nodes, rest.used))
  }

  /** The first child whose walk fails aborts the walk over the children with its failure. */
  lemma {:induction false} RewriteChildrenStopsAtFirstFailure(st: Storage, nodes: seq<Node>, used: nat, k: nat)
    requires k < |nodes|
    requires RewriteChildren(st, nodes[..k], used).Success?
    requires RewriteNode(st, nodes[k], RewriteChildren(st, nodes[..k], used).value.used).Failure?
    ensures RewriteChildren(st, nodes, used)
         == Failure(RewriteNode(st, nodes[k], RewriteChildren(st, nodes[..k], used).value.used).error)
    decreases k
  {
    if k == 0 {
      assert nodes[..0] == [];
    } else {
      assert nodes[..k][0] == nodes[0];
      assert nodes[..k][1..] == nodes[1..][..k - 1];
      assert nodes[1..][k - 1] == nodes[k];
      var head := RewriteNode(st, nodes[0], used).value;
      RewriteChildrenStopsAtFirstFailure(st, nodes[1..], head.used, k - 1);
    }
  }

  /** After a successful walk, child `i` is what `RewriteNode` makes of the input's
      child `i`, started with the uuids the earlier children left unused. */
  lemma {:induction false} RewriteChildrenPointwise(st: Storage, nodes: seq<Node>, used: nat, i: nat)
    requires i < |nodes|
    requires RewriteChildren(st, nodes, used).Success?
    ensures var before := RewriteChildren(st, nodes[..i], used);
      && before.Success?
      && RewriteNode(st, nodes[i], before.value.used).Success?
      && RewriteChildren(st, nodes, used).value.nodes[i] == RewriteNode(st, nodes[i], before.value.used).value.node
    decreases i
  {
    var head := RewriteNode(st, nodes[0], used).value;
    var rest := RewriteChildren(st, nodes[1..], head.used).value;
    assert RewriteChildren(st, nodes, used).value.nodes == [head.node] + rest.nodes;
    if i == 0 {
      assert nodes[..0] == [];
    } else {
      assert nodes[..i][0] == nodes[0];
      assert nodes[..i][1..] == nodes[1..][..i - 1];
      assert nodes[1..][i - 1] == nodes[i];
      RewriteChildrenPointwise(st, nodes[1..], head.used, i - 1);
    }
  }

  /** `ReplaceBase64ImagesWithFileLinks` on the parsed document, uuids numbered from
      0. A failure anywhere in the walk is the result; a document without inline
      images comes back unchanged; and, when download URLs never look like inline
      images, a successful rewrite leaves none behind. */
  function ReplaceBase64ImagesWithFileLinks(st: Storage, doc: Node): (r: Result<Node, Failure>)
    ensures r.Failure? <==> RewriteNode(st, doc, 0).Failure?
    ensures r.Failure? ==> r.error == RewriteNode(st, doc, 0).error
    ensures r.Success? ==> r.value.kind == doc.kind && r.value.data == doc.data
    ensures Clean(doc) ==> r == Success(doc)
    ensures SafeUrls(st) && r.Success? ==> Clean(r.value)
  {
    RewriteFromRoot(st, doc);
    if RewriteNode(st, doc, 0).Success? then
      Success(RewriteNode(st, doc, 0).value.node)
    else
      Failure(RewriteNode(st, doc, 0).error)
  }

  // ---------------------------------------------------------------------------
  // Rewriting twice

  /** No `img` element the walk reaches holds an inline image. */
  predicate Clean(n: Node)
    decreases n, 1
  {
    if IsImg(n) then forall a :: a in n.attrs ==> !IsInlineImage(a)
    else CleanAll(n.children)
  }

  predicate CleanAll(nodes: seq<Node>)
    decreases nodes, 0
  {
    forall i :: 0 <= i < |nodes| ==> Clean(nodes[i])
  }

  /** The storage never hands out a download URL that itself looks like an inline image. */
  ghost predicate SafeUrls(st: Storage) {
    forall id :: !StartsWith(st.downloadUrl(id), DataImagePrefix)
  }

  lemma {:induction false} RewriteAttrsWithoutImages(st: Storage, attrs: seq<Attribute>, used: nat)
    requires forall a :: a in attrs ==> !IsInlineImage(a)
    ensures RewriteAttrs(st, attrs, used) == Success(AttrRewrite(attrs, [], used))
    decreases |attrs|
  {
    if |attrs| > 0 {
      assert attrs[0] in attrs;
      assert forall a :: a in attrs[1..] ==> a in attrs;
      RewriteAttrsWithoutImages(st, attrs[1..], used);
      assert [attrs[0]] + attrs[1..] == attrs;
    }
  }

  /** A tree without inline images comes back unchanged, using no uuid. */
  lemma {:induction false} RewriteCleanIsIdentity(st: Storage, n: Node, used: nat)
    requires Clean(n)
    ensures RewriteNode(st, n, used) == Success(NodeRewrite(n, used))
    decreases n, 1
  {
    if IsImg(n) {
      RewriteAttrsWithoutImages(st, n.attrs, used);
      assert n.attrs + [] == n.attrs;
    } else {
      RewriteCleanChildrenIsIdentity(st, n.children, used);
    }
  }

  lemma {:induction false} RewriteCleanChildrenIsIdentity(st: Storage, nodes: seq<Node>, used: nat)
    requires CleanAll(nodes)
    ensures RewriteChildren(st, nodes, used) == Success(ForestRewrite(nodes, used))
    decreases nodes, 0
  {
    if |nodes| > 0 {
      RewriteCleanIsIdentity(st, nodes[0], used);
      assert CleanAll(nodes[1..]) by {
        forall i | 0 <= i < |nodes[1..]|
          ensures Clean(nodes[1..][i])
        {
          assert nodes[1..][i] == nodes[i + 1];
        }
      }
      RewriteCleanChildrenIsIdentity(st, nodes[1..], used);
      assert [nodes[0]] + nodes[1..] == nodes;
    }
  }

  /** A successful rewrite leaves no inline image behind. */
  lemma {:induction false} RewriteLeavesClean(st: Storage, n: Node, used: nat)
    requires SafeUrls(st)
    requires RewriteNode(st, n, used).Success?
    ensures Clean(RewriteNode(st, n, used).value.node)
    decreases n, 1
  {
    var m := RewriteNode(st, n, used).value.node;
    if IsImg(n) {
      RewriteAttrsKeepsOthers(st, n.attrs, used);
      RewriteAttrsLinksSources(st, n.attrs, used);
      var a := RewriteAttrs(st, n.attrs, used).value;
      assert m.attrs == a.attrs + a.added;
      forall b | b in m.attrs
        ensures !IsInlineImage(b)
      {
        var k :| 0 <= k < |m.attrs| && m.attrs[k] == b;
        if k >= |a.attrs| {
          assert b in a.added;
        } else if IsInlineImage(n.attrs[k]) {
          assert LinkedSource(st, a, k);
          var id :| Attribute(BlobIdKey, id) in a.added && a.attrs[k] == Attribute(SourceKey, st.downloadUrl(id));
        }
      }
    } else {
      RewriteChildrenLeavesClean(st, n.children, used);
    }
  }

  lemma {:induction false} RewriteChildrenLeavesClean(st: Storage, nodes: seq<Node>, used: nat)
    requires SafeUrls(st)
    requires RewriteChildren(st, nodes, used).Success?
    ensures CleanAll(RewriteChildren(st, nodes, used).value.nodes)
    decreases nodes, 0
  {
    if |nodes| > 0 {
      var head := RewriteNode(st, nodes[0], used).value;
      RewriteLeavesClean(st, nodes[0], used);
      RewriteChildrenLeavesClean(st, nodes[1..], head.used);
      var rest := RewriteChildren(st, nodes[1..], head.used).value;
      var all := RewriteChildren(st, nodes, used).value.nodes;
      assert all == [head.node] + rest.nodes;
      forall i | 0 <= i < |all|
        ensures Clean(all[i])
      {
        if i > 0 {
          assert all[i] == rest.nodes[i - 1];
        }
      }
    }
  }

  /** The two facts above for the walk from the document root. */
  lemma RewriteFromRoot(st: Storage, doc: Node)
    ensures Clean(doc) ==> RewriteNode(st, doc, 0) == Success(NodeRewrite(doc, 0))
    ensures SafeUrls(st) && RewriteNode(st, doc, 0).Success? ==> Clean(RewriteNode(st, doc, 0).value.node)
  {
    if Clean(doc) {
      RewriteCleanIsIdentity(st, doc, 0);
    }
    if SafeUrls(st) && RewriteNode(st, doc, 0).Success? {
      RewriteLeavesClean(st, doc, 0);
    }
  }

  /** Rewriting a rewritten document again uploads nothing and changes nothing. */
  lemma ReplaceIsIdempotent(st: Storage, doc: Node)
    requires SafeUrls(st)
    requires ReplaceBase64ImagesWithFileLinks(st, doc).Success?
    ensures var once := ReplaceBase64ImagesWithFileLinks(st, doc).value;
      ReplaceBase64ImagesWithFileLinks(st, once) == Success(once)
  {
    var once := ReplaceBase64ImagesWithFileLinks(st, doc).value;
    assert Clean(once);
    assert ReplaceBase64ImagesWithFileLinks(st, once) == Success(once);
  }
}
