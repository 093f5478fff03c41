/** The licence tree: a length-prefixed serialisation where each node is a
    header [number of children, number of metadata entries], the children,
    then the metadata entries. */
module Day8 {

  import opened Wrappers
  import opened Toolbox

  datatype Node = Node(children: seq<Node>, metadata: seq<int>)

  function Max0(n: int): nat {
    if n < 0 then 0 else n
  }

  /** Kotlin's `take(n)`: fails for a negative count, saturates at the end. */
  function Take(s: seq<int>, n: int): Result<seq<int>> {
    if n < 0 then Err("IllegalArgumentException") else Ok(s[..if n < |s| then n else |s|])
  }

  /** `tree`: decodes one node and returns it with the unread remainder.
      Fewer than two numbers fail, as do a negative metadata count and a
      failing child; a negative child count reads no children. */
  function DecodeNode(s: seq<int>): (r: Result<(Node, seq<int>)>)
    ensures r.Ok? ==> |s| >= 2 && s[1] >= 0 && |r.value.1| <= |s| - 2
    ensures r.Ok? ==> |r.value.0.children| == Max0(s[0]) && |r.value.0.metadata| <= s[1]
    ensures r.Ok? && |r.value.0.metadata| < s[1] ==> r.value.1 == []
    ensures |s| < 2 ==> r.Err?
    decreases |s|, 0, 0
  {
    if |s| < 2 then Err("IndexOutOfBoundsException")
    else
      match DecodeChildren(Max0(s[0]), s[2..])
      case Err(m) => Err(m)
      case Ok((children, remainder)) =>
        match Take(remainder, s[1])
        case Err(m) => Err(m)
        case Ok(metadata) => Ok((Node(children, metadata), remainder[|metadata|..]))
  }

  /** The fold over `1..numChildren`: decodes `k` children one after another. */
  function DecodeChildren(k: nat, s: seq<int>): (r: Result<(seq<Node>, seq<int>)>)
    ensures r.Ok? ==> |r.value.0| == k && |r.value.1| <= |s|
    decreases |s|, 1, k
  {
    if k == 0 then Ok(([], s))
    else
      match DecodeNode(s)
      case Err(m) => Err(m)
      case Ok((child, rest)) =>
        match DecodeChildren(k - 1, rest)
        case Err(m) => Err(m)
        case Ok((siblings, remainder)) => Ok(([child] + siblings, remainder))
  }

  /** The serialisation `tree` reads. */
  function Encode(n: Node): seq<int>
    decreases n, 1
  {
    [|n.children|, |n.metadata|] + EncodeAll(n.children) + n.metadata
  }

  function EncodeAll(cs: seq<Node>): seq<int>
    decreases cs, 0
  {
    if cs == [] then [] else Encode(cs[0]) + EncodeAll(cs[1..])
  }

  /** Round trip: decoding a serialised node followed by anything returns
      the node and exactly what followed. */
  lemma {:induction false} DecodeEncode(n: Node, rest: seq<int>)
    ensures DecodeNode(Encode(n) + rest) == Ok((n, rest))
    decreases n, 1
  {
    var s := Encode(n) + rest;
    assert s[2..] == EncodeAll(n.children) + (n.metadata + rest);
    DecodeEncodeAll(n.children, n.metadata + rest);
    assert (n.metadata + rest)[..|n.metadata|] == n.metadata;
    assert (n.metadata + rest)[|n.metadata|..] == rest;
  }

  lemma {:induction false} DecodeEncodeAll(cs: seq<Node>, rest: seq<int>)
    ensures DecodeChildren(|cs|, EncodeAll(cs) + rest) == Ok((cs, rest))
    decreases cs, 0
  {
    if cs != [] {
      var s := EncodeAll(cs) + rest;
      var after := EncodeAll(cs[1..]) + rest;
      assert s == Encode(cs[0]) + after;
      DecodeEncode(cs[0], after);
      DecodeEncodeAll(cs[1..], rest);
      assert |cs| - 1 == |cs[1..]|;
      assert DecodeChildren(|cs| - 1, after) == Ok((cs[1..], rest));
      assert [cs[0]] + cs[1..] == cs;
    } else {
      assert EncodeAll(cs) + rest == rest;
    }
  }

  /** Every metadata entry of the tree, in serialisation order. */
  function AllMetadata(n: Node): seq<int>
    decreases n, 1
  {
    AllMetadataOf(n.children) + n.metadata
  }

  function AllMetadataOf(cs: seq<Node>): seq<int>
    decreases cs, 0
  {
    if cs == [] then [] else AllMetadata(cs[0]) + AllMetadataOf(cs[1..])
  }

  /** `metadataTotal`: own metadata plus the children's totals, folded
      left; it is the sum of every metadata entry in the whole tree. */
  function MetadataTotal(n: Node): (r: int)
    ensures r == Sum(AllMetadata(n))
    decreases n, 1
  {
    var r := Sum(n.metadata) + ChildrenTotal(n.children);
    SumConcat(AllMetadataOf(n.children), n.metadata);
    r
  }

  /** The fold over the children sums all their metadata. */
  function ChildrenTotal(cs: seq<Node>): (r: int)
    ensures r == Sum(AllMetadataOf(cs))
    decreases cs, 0
  {
    if cs == [] then 0
    else
      SumConcat(AllMetadata(cs[0]), AllMetadataOf(cs[1..]));
      MetadataTotal(cs[0]) + ChildrenTotal(cs[1..])
  }

  /** The number of header numbers in a serialised tree. */
  function HeaderCount(n: Node): nat
    decreases n, 1
  {
    2 + HeaderCountOf(n.children)
  }

  function HeaderCountOf(cs: seq<Node>): nat
    decreases cs, 0
  {
    if cs == [] then 0 else HeaderCount(cs[0]) + HeaderCountOf(cs[1..])
  }

  /** A serialised tree is two header numbers per node plus its metadata. */
  lemma {:induction false} EncodeLength(n: Node)
    ensures |Encode(n)| == HeaderCount(n) + |AllMetadata(n)|
    decreases n, 1
  {
    EncodeAllLength(n.children);
  }

  lemma {:induction false} EncodeAllLength(cs: seq<Node>)
    ensures |EncodeAll(cs)| == HeaderCountOf(cs) + |AllMetadataOf(cs)|
    decreases cs, 0
  {
    if cs != [] {
      EncodeLength(cs[0]);
      EncodeAllLength(cs[1..]);
    }
  }

  /** `part1`: the metadata total of the tree the input starts with. */
  function Part1(input: seq<int>): (r: Result<int>)
    ensures r.Ok? <==> DecodeNode(input).Ok?
    ensures r.Ok? ==> r.value == Sum(AllMetadata(DecodeNode(input).value.0))
  {
    match DecodeNode(input)
    case Err(m) => Err(m)
    case Ok((n, _)) =>
      Ok(MetadataTotal(n))
  }

  /** On a serialised tree, `part1` sums every metadata entry of that tree. */
  lemma Part1OfEncoding(n: Node, rest: seq<int>)
    ensures Part1(Encode(n) + rest) == Ok(Sum(AllMetadata(n)))
  {
    DecodeEncode(n, rest);
  }
}
