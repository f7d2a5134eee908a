/**
 * The out-of-circuit part of the branch node parser in
 * prover/src/storage_inclusion/storage_trie_proof/node_parser/branch_parser/mod.rs:
 * `BranchParser::parse_metadata`, which decodes a `NibbledBranch` node of
 * the Substrate trie (sp-trie `LayoutV1`) and computes what the child-array
 * circuit needs, and the partial-address rule of `prove`.
 *
 * The SCALE node decoder is trie-db code and is a parameter here. A panic
 * (`unwrap`, `assert!`, `panic!`, an out-of-range index, a subtraction
 * underflow) is an `Err`.
 */
module BranchParser {
  import opened Bits
  import opened Wrappers

  /** `BLAKE2_DIGEST_SIZE`, also the size of `H256`. */
  const HashSize: nat := 32

  /** Number of child slots of a branch node. */
  const ChildSlots: nat := 16

  /** trie-db's `NodeHandle`: a child referenced by hash, or stored inline, as decoded bytes. */
  datatype NodeHandle = HashHandle(bytes: seq<Byte>) | InlineHandle(bytes: seq<Byte>)

  /** trie-db's `ChildReference<H256>`: a 32-byte hash, or inline data padded to 32 bytes with its length. */
  datatype ChildReference = HashRef(hash: seq<Byte>) | InlineRef(data: seq<Byte>, len: nat)

  /** The 16 children of a branch, `[Option<_>; 16]`. */
  type Children<T> = s: seq<Option<T>> | |s| == ChildSlots witness seq(ChildSlots, _ => None)

  /** trie-db's decoded `Node`, reduced to what `parse_metadata` looks at. */
  datatype Node =
    | Empty
    | Leaf
    | Extension
    | Branch
    | NibbledBranch(partial: seq<nat>, children: Children<NodeHandle>, value: Option<seq<Byte>>)

  datatype Metadata = Metadata(
    childrenDataOffset: nat,
    childrenLengths: seq<nat>,
    claimedChildIndexInArray: nat,
    claimedChildHash: seq<Byte>)

  datatype BranchError =
    | DecodeFailed           // `TrieCodec::decode(..).unwrap()`
    | UnexpectedNodeType     // "Unexpected node type: expected NibbledBranch"
    | NonEmptyValue          // "Non-empty value is not supported"
    | ChildConversionFailed  // `child.try_into().unwrap()`
    | ClaimedNibbleOutOfRange  // `children[claimed_child_node_nibble]` past the 16 slots
    | UnsupportedClaimedChild  // "Unsupported claimed child": absent or inline
    | LengthUnderflow        // `node_data.len() - all_children_length` below zero

  /**
   * trie-db's `TryFrom<NodeHandle> for ChildReference<H256>`: a hash handle
   * must be exactly 32 bytes, inline data at most 32 (zero-padded).
   */
  function ToChildReference(h: NodeHandle): (r: Option<ChildReference>)
    ensures r.Some? <==> (if h.HashHandle? then |h.bytes| == HashSize else |h.bytes| <= HashSize)
    ensures r.Some? && h.InlineHandle? ==>
      r.value.InlineRef? && |r.value.data| == HashSize && r.value.len == |h.bytes| && r.value.data[..r.value.len] == h.bytes
    ensures r.Some? && h.HashHandle? ==> r.value == HashRef(h.bytes)
  {
    match h
    case HashHandle(bytes) => if |bytes| == HashSize then Some(HashRef(bytes)) else None
    case InlineHandle(bytes) =>
      if |bytes| <= HashSize then Some(InlineRef(bytes + seq(HashSize - |bytes|, _ => 0), |bytes|)) else None
  }

  predicate Converts(c: Option<NodeHandle>) {
    c.None? || ToChildReference(c.value).Some?
  }

  function Convert(c: Option<NodeHandle>): Option<ChildReference>
    requires Converts(c)
  {
    if c.None? then None else Some(ToChildReference(c.value).value)
  }

  /**
   * The length of `bytes.encode()` for a byte slice of length n below 64:
   * a one-byte SCALE compact length prefix, then the bytes.
   */
  function EncodedSliceLength(n: nat): nat
    requires n < 64
  {
    1 + n
  }

  /** `serialized_size` of a present child. */
  function SerializedSize(c: ChildReference): (r: nat)
    requires c.HashRef? ==> |c.hash| == HashSize
    requires c.InlineRef? ==> c.len <= HashSize
    ensures c.HashRef? ==> r == 33
    ensures c.InlineRef? ==> r == 1 + c.len
  {
    match c
    case HashRef(hash) => EncodedSliceLength(|hash|)
    case InlineRef(_, len) => EncodedSliceLength(len)
  }

  /** A reference `ToChildReference` can return. */
  predicate SizedReference(c: ChildReference) {
    (c.HashRef? ==> |c.hash| == HashSize) && (c.InlineRef? ==> c.len <= HashSize)
  }

  predicate AllSized(cs: seq<Option<ChildReference>>) {
    forall i :: 0 <= i < |cs| && cs[i].Some? ==> SizedReference(cs[i].value)
  }

  // ----- specification of the two loops -----------------------------------

  /** How many slots hold a child. */
  function CountPresent<T>(cs: seq<Option<T>>): (r: nat)
    ensures r <= |cs|
  {
    if cs == [] then 0 else CountPresent(cs[..|cs| - 1]) + (if cs[|cs| - 1].Some? then 1 else 0)
  }

  /** The serialized size of every present child, in slot order. */
  function PresentLengths(cs: seq<Option<ChildReference>>): (r: seq<nat>)
    requires AllSized(cs)
    ensures |r| == CountPresent(cs)
  {
    if cs == [] then []
    else
      var last := cs[|cs| - 1];
      PresentLengths(cs[..|cs| - 1]) + (if last.Some? then [SerializedSize(last.value)] else [])
  }

  function Sum(xs: seq<nat>): nat {
    if xs == [] then 0 else Sum(xs[..|xs| - 1]) + xs[|xs| - 1]
  }

  /** What `parse_metadata` computes once the claimed child has been found. */
  function MetadataOf(nodeDataLength: nat, children: seq<Option<ChildReference>>, claimed: nat): Result<Metadata, BranchError>
    requires AllSized(children) && claimed < |children| && children[claimed].Some? && children[claimed].value.HashRef?
  {
    var lengths := PresentLengths(children);
    if nodeDataLength < Sum(lengths) then Err(LengthUnderflow)
    else Ok(Metadata(nodeDataLength - Sum(lengths), lengths, CountPresent(children[..claimed]), children[claimed].value.hash))
  }

  /** `children.map(|child| child.map(|child| child.try_into().unwrap()))`: stops at the first child that does not convert. */
  method ConvertChildren(handles: Children<NodeHandle>) returns (r: Option<seq<Option<ChildReference>>>)
    ensures r.None? <==> exists i :: 0 <= i < ChildSlots && !Converts(handles[i])
    ensures r.Some? ==> r.value == seq(ChildSlots, i requires 0 <= i < ChildSlots => Convert(handles[i]))
    ensures r.Some? ==> AllSized(r.value)
  {
    var children: seq<Option<ChildReference>> := [];
    for i := 0 to ChildSlots
      invariant |children| == i
      invariant forall j :: 0 <= j < i ==> Converts(handles[j]) && children[j] == Convert(handles[j])
    {
      var child := handles[i];
      if child.None? {
        children := children + [None];
      } else {
        var converted := ToChildReference(child.value);
        if converted.None? {
          return None;
        }
        children := children + [Some(converted.value)];
      }
    }
    return Some(children);
  }

  /** The first loop: how many children are present before slot `claimed`. */
  method CountPresentBefore(children: seq<Option<ChildReference>>, claimed: nat) returns (count: nat)
    requires claimed <= |children|
    ensures count == CountPresent(children[..claimed])
  {
    count := 0;
    for childIdx := 0 to claimed
      invariant count == CountPresent(children[..childIdx])
    {
      assert children[..childIdx + 1][..childIdx] == children[..childIdx];
      if children[childIdx].Some? {
        count := count + 1;
      }
    }
  }

  /** The second loop: the serialized size of each present child, in slot order. */
  method ChildrenLengths(children: seq<Option<ChildReference>>) returns (lengths: seq<nat>)
    requires AllSized(children)
    ensures lengths == PresentLengths(children)
  {
    lengths := [];
    for i := 0 to |children|
      invariant lengths == PresentLengths(children[..i])
    {
      assert children[..i + 1][..i] == children[..i];
      var child := children[i];
      if child.None? {
        continue;
      }
      lengths := lengths + [SerializedSize(child.value)];
    }
    assert children[..|children|] == children;
  }

  /**
   * `parse_metadata`: decodes the node, insists on a value-less nibbled
   * branch, converts all 16 children, takes the claimed child's hash, then
   * counts the present children before it and lists the serialized size of
   * every present child.
   */
  method ParseMetadata(decode: seq<Byte> -> Option<Node>, nodeData: seq<Byte>, claimedChildNodeNibble: Byte)
    returns (r: Result<Metadata, BranchError>)
    ensures decode(nodeData).None? ==> r == Err(DecodeFailed)
    ensures decode(nodeData).Some? && !decode(nodeData).value.NibbledBranch? ==> r == Err(UnexpectedNodeType)
    ensures decode(nodeData).Some? && decode(nodeData).value.NibbledBranch? ==>
      var node := decode(nodeData).value;
      && (node.value.Some? ==> r == Err(NonEmptyValue))
      && (node.value.None? && (exists i :: 0 <= i < ChildSlots && !Converts(node.children[i])) ==> r == Err(ChildConversionFailed))
      && (node.value.None? && (forall i :: 0 <= i < ChildSlots ==> Converts(node.children[i])) ==>
            var children := seq(ChildSlots, i requires 0 <= i < ChildSlots => Convert(node.children[i]));
            && AllSized(children)
            && (claimedChildNodeNibble >= ChildSlots ==> r == Err(ClaimedNibbleOutOfRange))
            && (claimedChildNodeNibble < ChildSlots ==>
                  if children[claimedChildNodeNibble].Some? && children[claimedChildNodeNibble].value.HashRef?
                  then r == MetadataOf(|nodeData|, children, claimedChildNodeNibble)
                  else r == Err(UnsupportedClaimedChild)))
  {
    var decoded := decode(nodeData);
    if decoded.None? {
      return Err(DecodeFailed);
    }
    var node := decoded.value;
    if !node.NibbledBranch? {
      return Err(UnexpectedNodeType);
    }
    if node.value.Some? {
      return Err(NonEmptyValue);
    }

    var converted := ConvertChildren(node.children);
    if converted.None? {
      return Err(ChildConversionFailed);
    }
    var children := converted.value;

    if claimedChildNodeNibble >= ChildSlots {
      return Err(ClaimedNibbleOutOfRange);
    }
    var claimed := children[claimedChildNodeNibble];
    if !(claimed.Some? && claimed.value.HashRef?) {
      return Err(UnsupportedClaimedChild);
    }
    var claimedChildHash := claimed.value.hash;
    var claimedChildIndexInArray := CountPresentBefore(children, claimedChildNodeNibble);
    var childrenLengths := ChildrenLengths(children);

    var allChildrenLength := Sum(childrenLengths);
    if |nodeData| < allChildrenLength {
      return Err(LengthUnderflow);
    }
    r := Ok(Metadata(|nodeData| - allChildrenLength, childrenLengths, claimedChildIndexInArray, claimedChildHash));
  }

  // ----- what the metadata means -------------------------------------------

  lemma {:induction false} CountPresentAppend<T>(a: seq<Option<T>>, b: seq<Option<T>>)
    ensures CountPresent(a + b) == CountPresent(a) + CountPresent(b)
    decreases |b|
  {
    if b == [] {
      assert a + b == a;
    } else {
      assert (a + b)[..|a + b| - 1] == a + b[..|b| - 1];
      CountPresentAppend(a, b[..|b| - 1]);
    }
  }

  /**
   * Entry `CountPresent(cs[..k])` of the lengths belongs to the child in
   * slot k: the lengths list the present children in slot order, skipping
   * the absent ones.
   */
  lemma {:induction false} PresentLengthsAt(cs: seq<Option<ChildReference>>, k: nat)
    requires AllSized(cs) && k < |cs| && cs[k].Some?
    ensures CountPresent(cs[..k]) < |PresentLengths(cs)|
    ensures PresentLengths(cs)[CountPresent(cs[..k])] == SerializedSize(cs[k].value)
    decreases |cs|
  {
    var n := |cs| - 1;
    var init := cs[..n];
    assert AllSized(init);
    if k == n {
      assert init == cs[..k];
      assert |PresentLengths(init)| == CountPresent(cs[..k]);
    } else {
      assert init[..k] == cs[..k];
      PresentLengthsAt(init, k);
      CountPresentAppend(cs[..k], cs[k..n]);
      assert cs[..k] + cs[k..n] == init;
    }
  }

  /** The claimed child, present by requirement, has an entry in the lengths: the one at its index in the array. */
  lemma ClaimedChildIndexInRange(nodeDataLength: nat, children: seq<Option<ChildReference>>, claimed: nat)
    requires AllSized(children) && claimed < |children| && children[claimed].Some? && children[claimed].value.HashRef?
    requires MetadataOf(nodeDataLength, children, claimed).Ok?
    ensures var m := MetadataOf(nodeDataLength, children, claimed).value;
      && m.claimedChildIndexInArray < |m.childrenLengths|
      && m.childrenLengths[m.claimedChildIndexInArray] == 33
  {
    PresentLengthsAt(children, claimed);
  }

  /** The children data ends exactly at the end of the node: offset plus all lengths is the node's length. */
  lemma ChildrenFillNodeTail(nodeDataLength: nat, children: seq<Option<ChildReference>>, claimed: nat)
    requires AllSized(children) && claimed < |children| && children[claimed].Some? && children[claimed].value.HashRef?
    ensures MetadataOf(nodeDataLength, children, claimed).Ok? <==> Sum(PresentLengths(children)) <= nodeDataLength
    ensures MetadataOf(nodeDataLength, children, claimed).Ok? ==>
      var m := MetadataOf(nodeDataLength, children, claimed).value;
      m.childrenDataOffset + Sum(m.childrenLengths) == nodeDataLength && |m.childrenLengths| == CountPresent(children)
  {
  }

  /** Every present child takes 33 bytes (hash) or 1 to 33 bytes (inline), so all lengths are positive and at most 33. */
  lemma {:induction false} PresentLengthsBounds(cs: seq<Option<ChildReference>>)
    requires AllSized(cs)
    ensures forall i :: 0 <= i < |PresentLengths(cs)| ==> 1 <= PresentLengths(cs)[i] <= 33
    ensures Sum(PresentLengths(cs)) <= 33 * CountPresent(cs)
    decreases |cs|
  {
    if cs != [] {
      var init := cs[..|cs| - 1];
      assert AllSized(init);
      PresentLengthsBounds(init);
      var last := cs[|cs| - 1];
      if last.Some? {
        var xs := PresentLengths(init);
        var ys := xs + [SerializedSize(last.value)];
        assert ys[..|xs|] == xs;
        assert Sum(ys) == Sum(xs) + SerializedSize(last.value);
        assert SizedReference(cs[|cs| - 1].value);
        assert PresentLengths(cs) == ys;
      } else {
        assert PresentLengths(init) + [] == PresentLengths(init);
        assert PresentLengths(cs) == PresentLengths(init);
        assert CountPresent(cs) == CountPresent(init);
      }
    }
  }

  // ----- the resulting partial address of `prove` ---------------------------

  /**
   * The address after this branch: the nibbles parsed so far, the node's
   * own nibbles (`nibble_parser`), then the nibble of the claimed child.
   */
  function ResultingPartialAddress(partialAddress: seq<nat>, nodeNibbles: seq<nat>, claimedChildNodeNibble: nat): (r: seq<nat>)
    ensures |r| == |partialAddress| + |nodeNibbles| + 1
    ensures r[..|partialAddress|] == partialAddress
    ensures r[|partialAddress| .. |partialAddress| + |nodeNibbles|] == nodeNibbles
    ensures r[|r| - 1] == claimedChildNodeNibble
  {
    partialAddress + nodeNibbles + [claimedChildNodeNibble]
  }

  /** Descending through branches extends the address: a chain of two is one call with both nibble runs. */
  lemma ResultingPartialAddressChains(a: seq<nat>, n1: seq<nat>, c1: nat, n2: seq<nat>, c2: nat)
    ensures ResultingPartialAddress(ResultingPartialAddress(a, n1, c1), n2, c2)
         == ResultingPartialAddress(a, n1 + [c1] + n2, c2)
  {
    assert a + n1 + [c1] + n2 + [c2] == a + (n1 + [c1] + n2) + [c2];
  }
}
