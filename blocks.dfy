/** The optional value used for a block position: None is SQL null. */
module Options {
  datatype Option<+T> = None | Some(value: T)
}

/** The columnar block and block builder that the varbinary type reads from and
    writes to. Their implementation is foreign to the type; only the primitives
    the type calls are modelled, each by the contract it offers the type. */
module Blocks {
  import opened Options
  import opened ByteOrder

  /** A Java `long`. */
  type Int64 = x: int | -0x8000_0000_0000_0000 <= x < 0x8000_0000_0000_0000

  /** The block's content hash over a byte range. Its algorithm is not part of
      this model, so it is passed in wherever a hash is taken. */
  type ContentHash = Bytes -> Int64

  /** A block: one entry per position, None for a null position. */
  datatype Block = Block(positions: seq<Option<Bytes>>)

  predicate ValidPosition(b: Block, pos: int)
  {
    0 <= pos < |b.positions|
  }

  /** `Block.isNull(position)`. A null position holds no bytes. */
  predicate IsNull(b: Block, pos: int)
    requires ValidPosition(b, pos)
    ensures IsNull(b, pos) ==> SliceLength(b, pos) == 0
  {
    b.positions[pos].None?
  }

  /** The bytes stored at a position. A null entry stores no bytes, so its slice
      length reads as 0. */
  function Stored(b: Block, pos: int): (r: Bytes)
    requires ValidPosition(b, pos)
  {
    match b.positions[pos]
    case None => []
    case Some(bytes) => bytes
  }

  /** `Block.getSliceLength(position)`. */
  function SliceLength(b: Block, pos: int): (n: nat)
    requires ValidPosition(b, pos)
  {
    |Stored(b, pos)|
  }

  /** The range `[offset, offset + length)` lies inside the position's bytes;
      the block rejects any other range. */
  predicate InRange(b: Block, pos: int, offset: int, length: int)
  {
    ValidPosition(b, pos) && 0 <= offset && 0 <= length && offset + length <= SliceLength(b, pos)
  }

  /** `Block.getSlice(position, offset, length)`. */
  function GetRange(b: Block, pos: int, offset: int, length: int): (r: Bytes)
    requires InRange(b, pos, offset, length)
    ensures |r| == length
    ensures offset == 0 && length == SliceLength(b, pos) ==> r == Stored(b, pos)
  {
    Stored(b, pos)[offset..offset + length]
  }

  /** `Block.equals(position, offset, otherBlock, otherPosition, otherOffset, length)`:
      the two ranges of one common length hold the same bytes. */
  predicate RangeEquals(left: Block, leftPos: int, leftOffset: int,
                        right: Block, rightPos: int, rightOffset: int, length: int)
    requires InRange(left, leftPos, leftOffset, length)
    requires InRange(right, rightPos, rightOffset, length)
    ensures RangeEquals(left, leftPos, leftOffset, right, rightPos, rightOffset, length)
        <==> forall i :: leftOffset <= i < leftOffset + length ==>
               Stored(left, leftPos)[i] == Stored(right, rightPos)[i - leftOffset + rightOffset]
  {
    var l, r := GetRange(left, leftPos, leftOffset, length), GetRange(right, rightPos, rightOffset, length);
    assert forall k :: 0 <= k < length ==> l[k] == Stored(left, leftPos)[leftOffset + k] && r[k] == Stored(right, rightPos)[rightOffset + k];
    l == r
  }

  /** `Block.hash(position, offset, length)`: the content hash of the range. */
  function RangeHash(h: ContentHash, b: Block, pos: int, offset: int, length: int): (x: Int64)
    requires InRange(b, pos, offset, length)
    ensures offset == 0 && length == SliceLength(b, pos) ==> x == h(Stored(b, pos))
  {
    h(GetRange(b, pos, offset, length))
  }

  /** `Block.compareTo(leftPosition, leftOffset, leftLength, rightBlock, rightPosition,
      rightOffset, rightLength)`: the lexicographic order of two ranges, each
      with its own length. */
  function RangeCompare(left: Block, leftPos: int, leftOffset: int, leftLength: int,
                        right: Block, rightPos: int, rightOffset: int, rightLength: int): (c: int)
    requires InRange(left, leftPos, leftOffset, leftLength)
    requires InRange(right, rightPos, rightOffset, rightLength)
    ensures -1 <= c <= 1
    ensures c == 0 <==> GetRange(left, leftPos, leftOffset, leftLength) == GetRange(right, rightPos, rightOffset, rightLength)
  {
    var l, r := GetRange(left, leftPos, leftOffset, leftLength), GetRange(right, rightPos, rightOffset, rightLength);
    CompareZeroIffEqual(l, r);
    Compare(l, r)
  }

  /** A growable block. `entries` holds the closed entries; `current` the bytes
      written to the entry that is still open. */
  class BlockBuilder {
    var entries: seq<Option<Bytes>>
    var current: Bytes

    constructor ()
      ensures entries == [] && current == []
    {
      entries := [];
      current := [];
    }

    /** The block built so far, made of the closed entries. */
    function Build(): (b: Block)
      reads this
    {
      Block(entries)
    }

    /** `writeBytes(source, offset, length)`: extends the open entry. */
    method WriteBytes(source: Bytes, offset: int, length: int)
      requires 0 <= offset && 0 <= length && offset + length <= |source|
      modifies this
      ensures entries == old(entries)
      ensures current == old(current) + source[offset..offset + length]
    {
      current := current + source[offset..offset + length];
    }

    /** `closeEntry()`: the open entry becomes one non-null entry. */
    method CloseEntry()
      modifies this
      ensures entries == old(entries) + [Some(old(current))]
      ensures current == []
    {
      entries := entries + [Some(current)];
      current := [];
    }

    /** `appendNull()`: one null entry; only allowed between entries. */
    method AppendNull()
      requires current == []
      modifies this
      ensures entries == old(entries) + [None]
      ensures current == []
    {
      entries := entries + [None];
    }
  }

  /** `Block.writeBytesTo(position, offset, length, blockBuilder)`: copies a range
      of the position's bytes into the builder's open entry. */
  method WriteBytesTo(b: Block, pos: int, offset: int, length: int, builder: BlockBuilder)
    requires InRange(b, pos, offset, length)
    modifies builder
    ensures builder.entries == old(builder.entries)
    ensures builder.current == old(builder.current) + GetRange(b, pos, offset, length)
  {
    builder.WriteBytes(Stored(b, pos), offset, length);
  }
}
