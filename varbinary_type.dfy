/** The `varbinary` type: an arbitrary byte string stored at one position of a
    variable-width block. Every operation hands the block primitives the whole
    stored value, from offset 0 to the position's slice length. The type itself
    never tests for null except in `GetObjectValue` and `AppendTo`; a null
    position reads as zero bytes, so callers of the comparison operations check
    `IsNull` first. */
module VarbinaryType {
  import opened Options
  import opened ByteOrder
  import opened Blocks

  /** The type supports equality and hashing. */
  function IsComparable(): (r: bool)
    ensures r
  {
    true
  }

  /** The type supports ordering. */
  function IsOrderable(): (r: bool)
    ensures r
  {
    true
  }

  /** The display value of a position: null for a null position, otherwise its
      full byte content. */
  function GetObjectValue(b: Block, pos: int): (r: Option<Bytes>)
    requires ValidPosition(b, pos)
    ensures r == b.positions[pos]
  {
    if IsNull(b, pos) then None
    else Some(GetRange(b, pos, 0, SliceLength(b, pos)))
  }

  /** Byte-identical content, with unequal lengths rejected before any byte is
      compared. */
  function EqualTo(left: Block, leftPos: int, right: Block, rightPos: int): (eq: bool)
    requires ValidPosition(left, leftPos) && ValidPosition(right, rightPos)
    ensures SliceLength(left, leftPos) != SliceLength(right, rightPos) ==> !eq
    ensures eq <==> Stored(left, leftPos) == Stored(right, rightPos)
  {
    var leftLength := SliceLength(left, leftPos);
    var rightLength := SliceLength(right, rightPos);
    if leftLength != rightLength then false
    else RangeEquals(left, leftPos, 0, right, rightPos, 0, leftLength)
  }

  /** The block's content hash of the whole stored value. */
  function Hash(h: ContentHash, b: Block, pos: int): (x: Int64)
    requires ValidPosition(b, pos)
    ensures x == h(Stored(b, pos))
  {
    RangeHash(h, b, pos, 0, SliceLength(b, pos))
  }

  /** The block comparator applied to both complete values, each with its own
      length: no length-first shortcut. */
  function CompareTo(left: Block, leftPos: int, right: Block, rightPos: int): (c: int)
    requires ValidPosition(left, leftPos) && ValidPosition(right, rightPos)
    ensures c == Compare(Stored(left, leftPos), Stored(right, rightPos))
    ensures -1 <= c <= 1
  {
    var leftLength := SliceLength(left, leftPos);
    var rightLength := SliceLength(right, rightPos);
    RangeCompare(left, leftPos, 0, leftLength, right, rightPos, 0, rightLength)
  }

  /** The position's full byte content. */
  function GetSlice(b: Block, pos: int): (s: Bytes)
    requires ValidPosition(b, pos)
    ensures s == Stored(b, pos)
    ensures !IsNull(b, pos) ==> Some(s) == b.positions[pos]
  {
    GetRange(b, pos, 0, SliceLength(b, pos))
  }

  /** Copies one position into the builder: a null position becomes one null
      entry, any other position one entry holding its bytes (after whatever the
      open entry already held). Earlier entries are kept. */
  method AppendTo(b: Block, pos: int, builder: BlockBuilder)
    requires ValidPosition(b, pos)
    requires IsNull(b, pos) ==> builder.current == []
    modifies builder
    ensures builder.entries == old(builder.entries) + [AppendedEntry(b, pos, old(builder.current))]
    ensures builder.current == []
    ensures old(builder.current) == [] ==> GetObjectValue(builder.Build(), |old(builder.entries)|) == GetObjectValue(b, pos)
  {
    if IsNull(b, pos) {
      builder.AppendNull();
    } else {
      WriteBytesTo(b, pos, 0, SliceLength(b, pos), builder);
      builder.CloseEntry();
      assert [] + Stored(b, pos) == Stored(b, pos);
    }
  }

  /** The entry `AppendTo` adds, given the bytes already in the open entry. */
  function AppendedEntry(b: Block, pos: int, pending: Bytes): (e: Option<Bytes>)
    requires ValidPosition(b, pos)
  {
    if IsNull(b, pos) then None else Some(pending + Stored(b, pos))
  }

  /** `writeSlice(blockBuilder, value)`: the whole value as one new entry. */
  method WriteSlice(builder: BlockBuilder, value: Bytes)
    modifies builder
    ensures builder.entries == old(builder.entries) + [Some(old(builder.current) + value)]
    ensures builder.current == []
    ensures old(builder.current) == [] ==> GetSlice(builder.Build(), |builder.entries| - 1) == value
  {
    WriteSliceRange(builder, value, 0, |value|);
    assert value[0..|value|] == value;
  }

  /** `writeSlice(blockBuilder, value, offset, length)`: the given range of the
      value as one new non-null entry. */
  method WriteSliceRange(builder: BlockBuilder, value: Bytes, offset: int, length: int)
    requires 0 <= offset && 0 <= length && offset + length <= |value|
    modifies builder
    ensures builder.entries == old(builder.entries) + [Some(old(builder.current) + value[offset..offset + length])]
    ensures builder.current == []
  {
    builder.WriteBytes(value, offset, length);
    builder.CloseEntry();
  }

  /** A Java reference as `equals(Object)` sees it. The constructor is private,
      so `VarbinarySingleton` is the one and only varbinary type object. */
  datatype JavaRef = Null | VarbinarySingleton | OtherObject(id: nat)

  /** `equals(other)`: reference identity with the singleton. */
  function Equals(other: JavaRef): (r: bool)
    ensures r <==> other == VarbinarySingleton
  {
    other == VarbinarySingleton
  }

  // Properties relating the operations.

  /** Equal values hash alike. */
  lemma EqualToImpliesSameHash(h: ContentHash, left: Block, leftPos: int, right: Block, rightPos: int)
    requires ValidPosition(left, leftPos) && ValidPosition(right, rightPos)
    requires EqualTo(left, leftPos, right, rightPos)
    ensures Hash(h, left, leftPos) == Hash(h, right, rightPos)
  {
  }

  /** Ordering and equality agree: the comparison is 0 exactly when `EqualTo` holds.
      The fact comes from `RangeCompare`'s contract, itself proved by
      `CompareZeroIffEqual`. */
  lemma CompareToZeroIffEqualTo(left: Block, leftPos: int, right: Block, rightPos: int)
    requires ValidPosition(left, leftPos) && ValidPosition(right, rightPos)
    ensures CompareTo(left, leftPos, right, rightPos) == 0 <==> EqualTo(left, leftPos, right, rightPos)
  {
  }

  /** Swapping the two positions negates the comparison. */
  lemma CompareToAntisymmetric(left: Block, leftPos: int, right: Block, rightPos: int)
    requires ValidPosition(left, leftPos) && ValidPosition(right, rightPos)
    ensures CompareTo(left, leftPos, right, rightPos) == -CompareTo(right, rightPos, left, leftPos)
  {
    CompareAntisymmetric(Stored(left, leftPos), Stored(right, rightPos));
  }

  /** The order on positions is transitive. */
  lemma CompareToTransitive(a: Block, aPos: int, b: Block, bPos: int, c: Block, cPos: int)
    requires ValidPosition(a, aPos) && ValidPosition(b, bPos) && ValidPosition(c, cPos)
    requires CompareTo(a, aPos, b, bPos) < 0 && CompareTo(b, bPos, c, cPos) < 0
    ensures CompareTo(a, aPos, c, cPos) < 0
  {
    CompareTransitive(Stored(a, aPos), Stored(b, bPos), Stored(c, cPos));
  }

  /** A value that is a strict prefix of another sorts first, although it is
      shorter; a value whose first differing byte is smaller sorts first, even
      when it is longer. */
  lemma CompareToIsLexicographic(left: Block, leftPos: int, right: Block, rightPos: int, k: nat)
    requires ValidPosition(left, leftPos) && ValidPosition(right, rightPos)
    requires k <= SliceLength(left, leftPos) && k <= SliceLength(right, rightPos)
    requires Stored(left, leftPos)[..k] == Stored(right, rightPos)[..k]
    requires k == SliceLength(left, leftPos) < SliceLength(right, rightPos)
          || (k < SliceLength(left, leftPos) && k < SliceLength(right, rightPos)
              && Stored(left, leftPos)[k] < Stored(right, rightPos)[k])
    ensures CompareTo(left, leftPos, right, rightPos) == -1
  {
    var l, r := Stored(left, leftPos), Stored(right, rightPos);
    if k == |l| {
      assert l == l[..k];
      StrictPrefixIsLess(l, r);
    } else {
      FirstDifferenceDecides(l, r, k);
    }
  }

  /** The entry `AppendTo` adds reads back, through `GetObjectValue`, as the
      source position's value when no entry was open: null stays null and is
      never turned into a zero-length value. Earlier positions read as before. */
  lemma AppendToPreservesValue(b: Block, pos: int, entries: seq<Option<Bytes>>)
    requires ValidPosition(b, pos)
    ensures var built := Block(entries + [AppendedEntry(b, pos, [])]);
      && GetObjectValue(built, |entries|) == GetObjectValue(b, pos)
      && (forall i :: 0 <= i < |entries| ==> GetObjectValue(built, i) == GetObjectValue(Block(entries), i))
  {
    if !IsNull(b, pos) {
      assert [] + Stored(b, pos) == Stored(b, pos);
    }
  }

  /** Writing a value and reading the new last position back yields the value
      byte for byte, for every length including 0; what was written is never
      read back as null. */
  lemma WriteSliceRoundTrip(entries: seq<Option<Bytes>>, value: Bytes)
    ensures var built := Block(entries + [Some(value)]);
      && GetSlice(built, |entries|) == value
      && GetObjectValue(built, |entries|) == Some(value)
      && !IsNull(built, |entries|)
  {
  }

  /** The comparison operations do not look at the null flag: a null position
      and a zero-length value are equal, hash alike and compare as 0, which is
      why callers test `IsNull` before comparing. */
  lemma NullComparesAsEmpty(h: ContentHash, left: Block, leftPos: int, right: Block, rightPos: int)
    requires ValidPosition(left, leftPos) && ValidPosition(right, rightPos)
    requires IsNull(left, leftPos) && right.positions[rightPos] == Some([])
    ensures EqualTo(left, leftPos, right, rightPos)
    ensures Hash(h, left, leftPos) == Hash(h, right, rightPos)
    ensures CompareTo(left, leftPos, right, rightPos) == 0
    ensures GetObjectValue(left, leftPos) != GetObjectValue(right, rightPos)
  {
  }

  /** A = [1, 2], B = [1, 2, 3] and C = [1, 2]: A equals C, differs from B,
      sorts before B, and hashes like C. */
  lemma ExampleScenario(h: ContentHash)
    ensures var blk := Block([Some([1, 2]), Some([1, 2, 3]), Some([1, 2])]);
      && EqualTo(blk, 0, blk, 2)
      && !EqualTo(blk, 0, blk, 1)
      && CompareTo(blk, 0, blk, 1) == -1
      && Hash(h, blk, 0) == Hash(h, blk, 2)
  {
    var blk := Block([Some([1, 2]), Some([1, 2, 3]), Some([1, 2])]);
    CompareToIsLexicographic(blk, 0, blk, 1, 2);
  }
}
