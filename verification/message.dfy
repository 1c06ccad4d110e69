/**
  The byte string that src/message.rs hashes to tell one submission from another:
  a version tag, then every text, image id and staged reference with its length
  in front, and the decoder that shows nothing is ambiguous.
*/
module Message {
  import opened Wrappers
  import opened Text
  import opened Utf8
  import opened Sequences
  import opened ByteOrder

  /** An image counts by its id alone; its other metadata is not hashed. */
  datatype Block = TextBlock(text: string) | ImageBlock(id: string, width: nat, height: nat)

  /** Staged references are paths, kept as the bytes the system gives and hashed by their lossy text. */
  datatype Content = Content(blocks: seq<Block>, staged: seq<bytes>)

  const VERSION_TAG: bytes := [99, 108, 97, 116, 45, 109, 109, 49, 97, 45, 118, 49]

  const TEXT_MARK: byte := 0x74
  const IMAGE_MARK: byte := 0x69
  const STAGED_MARK: byte := 0x73

  /** One hashed item: its mark and its bytes. */
  datatype Item = Item(mark: byte, data: bytes)

  // ---------- writing ----------

  function ItemBytes(item: Item): bytes {
    [item.mark] + LittleEndian(|item.data|, 8) + item.data
  }

  function ItemsBytes(items: seq<Item>): bytes {
    if items == [] then [] else ItemBytes(items[0]) + ItemsBytes(items[1..])
  }

  function BlockItem(block: Block): Item {
    match block
    case TextBlock(text) => Item(TEXT_MARK, Encode(text))
    case ImageBlock(id, _, _) => Item(IMAGE_MARK, Encode(id))
  }

  function StagedItem(path: bytes): Item { Item(STAGED_MARK, Encode(Lossy(path))) }

  function Items(c: Content): (r: seq<Item>)
    ensures |r| == |c.blocks| + |c.staged|
    ensures forall i | 0 <= i < |c.blocks| :: r[i] == BlockItem(c.blocks[i])
    ensures forall i | 0 <= i < |c.staged| :: r[|c.blocks| + i] == StagedItem(c.staged[i])
  {
    seq(|c.blocks|, i requires 0 <= i < |c.blocks| => BlockItem(c.blocks[i]))
    + seq(|c.staged|, i requires 0 <= i < |c.staged| => StagedItem(c.staged[i]))
  }

  function Preimage(c: Content): bytes {
    VERSION_TAG + ItemsBytes(Items(c))
  }

  /** Every length fits the machine's 64-bit size. */
  predicate Sized(items: seq<Item>) {
    forall i | 0 <= i < |items| :: |items[i].data| <= U64_MAX
  }

  // ---------- reading ----------

  function ReadItems(b: bytes): Option<seq<Item>>
    decreases |b|
  {
    if b == [] then Some([])
    else if |b| < 9 then None
    else
      var n := FromLittleEndian(b[1..9]);
      if |b| < 9 + n then None
      else match ReadItems(b[9 + n..])
        case None => None
        case Some(rest) => Some([Item(b[0], b[9..9 + n])] + rest)
  }

  function ReadPreimage(b: bytes): Option<seq<Item>> {
    if VERSION_TAG <= b then ReadItems(b[|VERSION_TAG|..]) else None
  }

  lemma ItemShape(item: Item, rest: bytes)
    requires |item.data| <= U64_MAX
    ensures
      var b, n := ItemBytes(item) + rest, |item.data|;
      && |b| >= 9 + n && b[0] == item.mark && FromLittleEndian(b[1..9]) == n
      && b[9..9 + n] == item.data && b[9 + n..] == rest
  {
    hide LittleEndian, FromLittleEndian, Power256;
    EightBytes();
    LittleEndianReadsBack(|item.data|, 8);
    var head, size := [item.mark], LittleEndian(|item.data|, 8);
    var b := head + size + item.data + rest;
    assert b[1..9] == size;
    assert b[9..9 + |item.data|] == item.data;
  }

  lemma {:induction false} ItemsReadBack(items: seq<Item>)
    requires Sized(items)
    ensures ReadItems(ItemsBytes(items)) == Some(items)
  {
    if items != [] {
      hide ItemBytes, FromLittleEndian;
      ItemsReadBack(items[1..]);
      ItemShape(items[0], ItemsBytes(items[1..]));
      assert [items[0]] + items[1..] == items;
    }
  }

  /** The decoder inverts what is fed to the hash, for any number of items. */
  lemma PreimageReadsBack(c: Content)
    requires Sized(Items(c))
    ensures ReadPreimage(Preimage(c)) == Some(Items(c))
  {
    hide ReadItems, ItemsBytes;
    ItemsReadBack(Items(c));
    Halves(VERSION_TAG, ItemsBytes(Items(c)));
  }

  predicate SameBlock(a: Block, b: Block) {
    match (a, b)
    case (TextBlock(s), TextBlock(t)) => s == t
    case (ImageBlock(s, _, _), ImageBlock(t, _, _)) => s == t
    case _ => false
  }

  /** The paths read the same, byte for byte or not. */
  predicate SameTexts(a: seq<bytes>, b: seq<bytes>) {
    |a| == |b| && forall i | 0 <= i < |a| :: Lossy(a[i]) == Lossy(b[i])
  }

  /** Same texts and image ids in order, staged references that read the same. */
  predicate SameMessage(a: Content, b: Content) {
    && |a.blocks| == |b.blocks| && (forall i | 0 <= i < |a.blocks| :: SameBlock(a.blocks[i], b.blocks[i]))
    && SameTexts(a.staged, b.staged)
  }

  lemma SameBlockIff(a: Block, b: Block)
    ensures BlockItem(a) == BlockItem(b) <==> SameBlock(a, b)
  {
    hide Encode;
    var s := if a.TextBlock? then a.text else a.id;
    var t := if b.TextBlock? then b.text else b.id;
    if Encode(s) == Encode(t) {
      EncodeIsInjective(s, t);
    }
  }

  /** Blocks never look like staged references, so the boundary is not lost. */
  lemma SameItemsMeanSameMessage(a: Content, b: Content)
    requires Items(a) == Items(b)
    ensures SameMessage(a, b)
  {
    hide Encode, SameBlock;
    var n := |a.blocks|;
    assert n == |b.blocks| by { SameNumberOfBlocks(a, b); }
    forall i | 0 <= i < n
      ensures SameBlock(a.blocks[i], b.blocks[i])
    {
      assert Items(a)[i] == Items(b)[i];
      SameBlockIff(a.blocks[i], b.blocks[i]);
    }
    forall i | 0 <= i < |a.staged|
      ensures Lossy(a.staged[i]) == Lossy(b.staged[i])
    {
      assert Items(a)[n + i] == Items(b)[n + i];
      EncodeIsInjective(Lossy(a.staged[i]), Lossy(b.staged[i]));
    }
  }

  lemma ItemAt(c: Content, i: nat)
    requires i < |Items(c)|
    ensures Items(c)[i] == if i < |c.blocks| then BlockItem(c.blocks[i])
                           else StagedItem(c.staged[i - |c.blocks|])
    ensures Items(c)[i].mark == STAGED_MARK <==> i >= |c.blocks|
  {
    hide Encode;
  }

  lemma SameNumberOfBlocks(a: Content, b: Content)
    requires Items(a) == Items(b)
    ensures |a.blocks| == |b.blocks|
  {
    hide Items;
    if |a.blocks| < |b.blocks| {
      ItemAt(a, |a.blocks|);
      ItemAt(b, |a.blocks|);
    } else if |b.blocks| < |a.blocks| {
      ItemAt(a, |b.blocks|);
      ItemAt(b, |b.blocks|);
    }
  }

  /** Two messages feed the hash the same bytes exactly when they are the same message. */
  lemma PreimageIsUnique(a: Content, b: Content)
    requires Sized(Items(a)) && Sized(Items(b))
    ensures Preimage(a) == Preimage(b) <==> SameMessage(a, b)
  {
    hide Preimage, ReadPreimage;
    PreimageReadsBack(a);
    PreimageReadsBack(b);
    if Preimage(a) == Preimage(b) {
      SameItemsMeanSameMessage(a, b);
    }
    if SameMessage(a, b) {
      SameMessageSameItems(a, b);
      PreimageOfItems(a, b);
    }
  }

  lemma SameMessageSameItems(a: Content, b: Content)
    requires SameMessage(a, b)
    ensures Items(a) == Items(b)
  {
    hide Encode, SameBlock, BlockItem;
    forall i | 0 <= i < |Items(a)|
      ensures Items(a)[i] == Items(b)[i]
    {
      ItemAt(a, i);
      ItemAt(b, i);
      if i < |a.blocks| {
        SameBlockIff(a.blocks[i], b.blocks[i]);
      }
    }
  }

  /** For paths that are text, the bytes fed to the hash tell the paths themselves apart. */
  lemma TextPathsAreUnique(a: Content, b: Content)
    requires Sized(Items(a)) && Sized(Items(b)) && Preimage(a) == Preimage(b)
    requires forall i | 0 <= i < |a.staged| :: Decode(a.staged[i]).end.Complete?
    requires forall i | 0 <= i < |b.staged| :: Decode(b.staged[i]).end.Complete?
    ensures a.staged == b.staged
  {
    hide Preimage, Decode, Lossy, SameBlock;
    PreimageIsUnique(a, b);
    forall i | 0 <= i < |a.staged|
      ensures a.staged[i] == b.staged[i]
    {
      LossyIsExactIff(a.staged[i]);
      LossyIsExactIff(b.staged[i]);
    }
  }

  /** Two different paths that are no text feed the hash the same bytes. */
  lemma PathsCanCollide()
    ensures [0xFF] != [0xFE] && Preimage(Content([], [[0xFF]])) == Preimage(Content([], [[0xFE]]))
  {
    var a, b := Content([], [[0xFF]]), Content([], [[0xFE]]);
    assert Lossy([0xFF]) == Lossy([0xFE]);
    SameMessageSameItems(a, b);
    PreimageOfItems(a, b);
  }

  lemma PreimageOfItems(a: Content, b: Content)
    requires Items(a) == Items(b)
    ensures Preimage(a) == Preimage(b)
  {
  }

  // ---------- feeding the hasher ----------

  lemma {:induction false} ItemsBytesAppend(items: seq<Item>, item: Item)
    ensures ItemsBytes(items + [item]) == ItemsBytes(items) + ItemBytes(item)
  {
    hide ItemBytes;
    if items == [] {
      assert [] + [item] == [item] && [item][1..] == [];
      assert ItemsBytes([item]) == ItemBytes(item) + [];
    } else {
      ItemsBytesAppend(items[1..], item);
      assert (items + [item])[1..] == items[1..] + [item];
      Assoc(ItemBytes(items[0]), ItemsBytes(items[1..]), ItemBytes(item));
    }
  }

  /** `hash_message_payload` up to the hash itself: what the hasher was fed. */
  method FeedPayload(c: Content) returns (fed: bytes)
    ensures fed == Preimage(c)
  {
    hide ItemsBytes, ItemBytes, BlockItem, Encode;
    fed := VERSION_TAG;
    ghost var items := Items(c);
    var i := 0;
    NoItems();
    while i < |c.blocks|
      invariant i <= |c.blocks| && fed == VERSION_TAG + ItemsBytes(items[..i])
    {
      fed := Feed(fed, items, i, BlockItem(c.blocks[i]));
      i := i + 1;
    }
    var j := 0;
    while j < |c.staged|
      invariant j <= |c.staged| && fed == VERSION_TAG + ItemsBytes(items[..|c.blocks| + j])
    {
      fed := Feed(fed, items, |c.blocks| + j, StagedItem(c.staged[j]));
      j := j + 1;
    }
    assert items[..|c.blocks| + j] == items;
  }

  lemma NoItems()
    ensures ItemsBytes([]) == [] && VERSION_TAG + [] == VERSION_TAG
    ensures forall items: seq<Item> :: items[..0] == []
  {
  }

  /** Mark, length, bytes: three updates of the hasher. */
  method Feed(fed: bytes, ghost items: seq<Item>, ghost n: nat, item: Item) returns (more: bytes)
    requires n < |items| && items[n] == item && fed == VERSION_TAG + ItemsBytes(items[..n])
    ensures more == VERSION_TAG + ItemsBytes(items[..n + 1])
  {
    hide LittleEndian;
    more := fed + [item.mark];
    more := more + LittleEndian(|item.data|, 8);
    more := more + item.data;
    assert more == fed + ItemBytes(item);
    assert items[..n + 1] == items[..n] + [item];
    ItemsBytesAppend(items[..n], item);
    Assoc(VERSION_TAG, ItemsBytes(items[..n]), ItemBytes(item));
  }

  // ---------- the frozen digest ----------

  class PendingMessage {
    var content: Content
    var submissionDigest: Option<string>

    constructor (content: Content)
      ensures this.content == content && submissionDigest == None
    {
      this.content, submissionDigest := content, None;
    }

    /** The digest a retry is compared with. */
    function RequestDigest(hash: bytes -> string): string
      reads this
    {
      match submissionDigest
      case Some(digest) => digest
      case None => hash(Preimage(content))
    }

    method FreezeRequestDigest(hash: bytes -> string)
      modifies this`submissionDigest
      ensures submissionDigest == Some(old(RequestDigest(hash))) && RequestDigest(hash) == old(RequestDigest(hash))
    {
      if submissionDigest.None? {
        var fed := FeedPayload(content);
        submissionDigest := Some(hash(fed));
      }
    }

    /** Paths replace upload ids; the identity of the submission does not move. */
    method ResolveStagedAttachments(hash: bytes -> string, paths: seq<bytes>)
      modifies this
      ensures content == old(content).(staged := paths)
      ensures RequestDigest(hash) == old(RequestDigest(hash)) && submissionDigest.Some?
    {
      FreezeRequestDigest(hash);
      content := content.(staged := paths);
    }
  }
}
