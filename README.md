# varbinary: a verified model of the opaque-bytes SQL type

This project models Presto's `varbinary` type. That type is the leaf type
whose values are arbitrary byte strings stored one per position of a columnar
block. The model covers how the type:

- reads a position, as a display value and as a slice;
- tests two positions for equality, rejecting unequal lengths first;
- hashes a position over its whole byte range;
- orders two positions by comparing their complete byte ranges;
- copies a position into a block builder, keeping null apart from a value;
- writes a byte string, or a sub-range of one, as a new builder entry;
- reports its capabilities and its singleton identity.

The block and the block builder belong to the engine, not to the type. They
are modelled abstractly (`blocks.dfy`):

- A `Block` is a sequence of positions. Each position is `None` (SQL null) or
  `Some(bytes)`. A null position stores no bytes, so its slice length reads
  as 0. `Stored` and `SliceLength` are the definitions of a position's bytes
  and of `getSliceLength`; `BlockBuilder.Build` is the block made of a
  builder's closed entries, used only to read entries back.
- The block primitives take explicit `(offset, length)` ranges and require
  the range to lie inside the position's bytes.
- The block's content hash is a parameter, `h: Bytes -> Int64`.
- The block comparator is lexicographic over unsigned bytes (`byte_order.dfy`).
  A strict prefix sorts first. The model returns -1, 0 or 1. The engine
  promises only the sign.
- `BlockBuilder` is a class. `entries` holds the closed entries and `current`
  the bytes of the entry still open. `WriteBytes` extends the open entry,
  `CloseEntry` turns it into one non-null entry, and `AppendNull` adds one null
  entry. `AppendNull` is allowed only when no entry is open.

The type's value operations are functions over an immutable `Block`
(`varbinary_type.dfy`). The three operations that write into a builder are
methods that change the builder in place. Each contract states which byte
range the operation hands to the block: always offset 0 and the full slice
length.

The comparison operations never look at the null flag. Under this model a
null position and a zero-length value are equal, hash alike and compare as 0
(`NullComparesAsEmpty`). Callers are expected to test `IsNull` first.

## Model

| member | source | states |
|---|---|---|
| VarbinaryType.IsComparable | presto-common/src/main/java/com/facebook/presto/common/type/VarbinaryType.java:38-42 | the type supports equality and hashing |
| VarbinaryType.IsOrderable | presto-common/src/main/java/com/facebook/presto/common/type/VarbinaryType.java:44-48 | the type supports ordering |
| VarbinaryType.GetObjectValue | presto-common/src/main/java/com/facebook/presto/common/type/VarbinaryType.java:50-58 | the display value is null exactly when the position is null, and otherwise the position's full byte content |
| VarbinaryType.EqualTo | presto-common/src/main/java/com/facebook/presto/common/type/VarbinaryType.java:60-69 | false whenever the two slice lengths differ; true exactly when the two stored byte strings are identical |
| VarbinaryType.Hash | presto-common/src/main/java/com/facebook/presto/common/type/VarbinaryType.java:71-75 | the block's content hash of the whole stored value, so it depends on the content only |
| VarbinaryType.CompareTo | presto-common/src/main/java/com/facebook/presto/common/type/VarbinaryType.java:77-83 | the lexicographic comparator applied to the two complete values, each with its own length; the result is -1, 0 or 1 |
| VarbinaryType.GetSlice | presto-common/src/main/java/com/facebook/presto/common/type/VarbinaryType.java:97-101 | the slice is the position's full stored content, and equals the value of a non-null position |
| VarbinaryType.AppendTo | presto-common/src/main/java/com/facebook/presto/common/type/VarbinaryType.java:85-95 | the builder gains exactly one entry: null for a null position, otherwise the open entry's bytes followed by the position's bytes; earlier entries are unchanged and no entry is left open; with no entry open, the new last position reads back as the source position's display value |
| VarbinaryType.WriteSlice | presto-common/src/main/java/com/facebook/presto/common/type/VarbinaryType.java:103-107 | same effect as the ranged write with offset 0 and the full length; with no entry open, reading the new last position back gives the value byte for byte (with an entry open, it gives the open bytes followed by the value) |
| VarbinaryType.WriteSliceRange | presto-common/src/main/java/com/facebook/presto/common/type/VarbinaryType.java:109-113 | for a range inside the value, the builder gains exactly one non-null entry holding `value[offset..offset+length]` after the open entry's bytes; earlier entries are unchanged |
| VarbinaryType.Equals | presto-common/src/main/java/com/facebook/presto/common/type/VarbinaryType.java:115-119 | the type object equals exactly the VARBINARY singleton reference, never null or another object |
| VarbinaryType.EqualToImpliesSameHash | presto-common/src/main/java/com/facebook/presto/common/type/VarbinaryType.java:60-75 | two positions that are equal have the same hash, for every content hash |
| VarbinaryType.CompareToZeroIffEqualTo | presto-common/src/main/java/com/facebook/presto/common/type/VarbinaryType.java:60-83 | the comparison is 0 exactly when the two positions are equal |
| VarbinaryType.CompareToAntisymmetric | presto-common/src/main/java/com/facebook/presto/common/type/VarbinaryType.java:77-83 | swapping the two positions negates the comparison |
| VarbinaryType.CompareToTransitive | presto-common/src/main/java/com/facebook/presto/common/type/VarbinaryType.java:77-83 | the strict order on positions is transitive |
| VarbinaryType.CompareToIsLexicographic | presto-common/src/main/java/com/facebook/presto/common/type/VarbinaryType.java:80-82 | a strict prefix sorts before the longer value, and a smaller first differing byte sorts first even when that value is longer |
| VarbinaryType.AppendToPreservesValue | presto-common/src/main/java/com/facebook/presto/common/type/VarbinaryType.java:85-95 | with no entry open, the appended entry reads back as the source position's display value, null staying null; earlier positions read as before |
| VarbinaryType.WriteSliceRoundTrip | presto-common/src/main/java/com/facebook/presto/common/type/VarbinaryType.java:97-113 | with no entry open, a written value, closed as the new last entry, reads back through `GetSlice` and `GetObjectValue` byte for byte, for every length including 0, and never as null |
| VarbinaryType.NullComparesAsEmpty | presto-common/src/main/java/com/facebook/presto/common/type/VarbinaryType.java:60-83 | a null position and a zero-length value are equal, hash alike and compare as 0, while their display values differ |
| VarbinaryType.ExampleScenario | presto-common/src/main/java/com/facebook/presto/common/type/VarbinaryType.java:60-83 | with A = [1,2], B = [1,2,3] and C = [1,2]: A equals C, A differs from B, A sorts before B, and A and C hash alike |
| ByteOrder.Compare | presto-common/src/main/java/com/facebook/presto/common/type/VarbinaryType.java:82 | the block comparator returns -1, 0 or 1 |
| ByteOrder.CompareZeroIffEqual | presto-common/src/main/java/com/facebook/presto/common/type/VarbinaryType.java:82 | the block comparator reports 0 exactly for identical byte strings |
| ByteOrder.CompareAntisymmetric | presto-common/src/main/java/com/facebook/presto/common/type/VarbinaryType.java:82 | swapping the comparator's operands negates its result |
| ByteOrder.CompareTransitive | presto-common/src/main/java/com/facebook/presto/common/type/VarbinaryType.java:82 | the comparator's strict order is transitive |
| ByteOrder.StrictPrefixIsLess | presto-common/src/main/java/com/facebook/presto/common/type/VarbinaryType.java:82 | a strict prefix compares as less than the longer string |
| ByteOrder.FirstDifferenceDecides | presto-common/src/main/java/com/facebook/presto/common/type/VarbinaryType.java:82 | the first differing byte decides the order, whatever the two lengths are |
| Blocks.GetRange | presto-common/src/main/java/com/facebook/presto/common/type/VarbinaryType.java:100 | a range read has the requested length, and the range from 0 to the slice length is the whole stored value |
| Blocks.IsNull | presto-common/src/main/java/com/facebook/presto/common/type/VarbinaryType.java:53 | a position that `block.isNull` reports as null has slice length 0: it holds no bytes, which is why the comparison operations read it as an empty value |
| Blocks.RangeEquals | presto-common/src/main/java/com/facebook/presto/common/type/VarbinaryType.java:68 | `block.equals(...)` holds exactly when the two ranges of one common length agree byte by byte |
| Blocks.RangeHash | presto-common/src/main/java/com/facebook/presto/common/type/VarbinaryType.java:74 | `block.hash(position, 0, sliceLength)` is the content hash of the whole stored value |
| Blocks.RangeCompare | presto-common/src/main/java/com/facebook/presto/common/type/VarbinaryType.java:82 | `block.compareTo(...)` returns -1, 0 or 1, and 0 exactly when the two ranges hold the same bytes |
| Blocks.WriteBytesTo | presto-common/src/main/java/com/facebook/presto/common/type/VarbinaryType.java:92 | `block.writeBytesTo(position, offset, length, builder)` appends that range of the position's bytes to the builder's open entry and closes no entry |
| Blocks.BlockBuilder.WriteBytes | presto-common/src/main/java/com/facebook/presto/common/type/VarbinaryType.java:112 | `writeBytes(value, offset, length)` appends that range of the value to the open entry; closed entries are unchanged |
| Blocks.BlockBuilder.CloseEntry | presto-common/src/main/java/com/facebook/presto/common/type/VarbinaryType.java:93 | `closeEntry()` adds exactly one non-null entry holding the open entry's bytes and leaves no entry open |
| Blocks.BlockBuilder.AppendNull | presto-common/src/main/java/com/facebook/presto/common/type/VarbinaryType.java:89 | `appendNull()`, allowed only when no entry is open, adds exactly one null entry |

## Left out

- The block's hash algorithm (xxHash64 in the engine): it is a parameter of `Hash`, so the properties hold for any content hash.
- Block and block-builder internals (storage, offsets, encodings): only the primitives the type calls are modelled, by their effect.
- AppendTo, AppendNull: appending a null while an entry is open is an error the engine's builder raises at run time; the model makes it a precondition (`AppendNull` requires no open entry, and `AppendTo` requires that only for a null position) instead of modelling the failure.
- CompareTo, Compare, RangeCompare: the engine's block comparator promises only the sign of its result; the model returns exactly -1, 0 or 1, so `CompareTo`'s bound `-1 <= c <= 1` is a property of the model, not of the engine.
- Block positions out of range and byte ranges outside a value: the block or the block builder rejects these with an exception; the model requires valid positions and ranges instead.
- Java `int` bounds on positions, offsets and lengths: integers are unbounded here.
- `SqlVarbinary` boxing and `SqlFunctionProperties`: the display value is `Option<Bytes>`.
- `hashCode` and `isVarbinaryType`: JVM reflection (`getClass`, `instanceof`), no behaviour to state.
- The type signature (`parseTypeSignature`, `StandardTypes`) and the superclass `AbstractVariableWidthType`: their code is not part of this model.
- `QuantileDigestParametricType`: a one-line factory over `QuantileDigestType`, whose code is not part of this model; no arity check or memoisation is modelled because that code performs none.
- Concurrency and sharing of the singleton: nothing in the type is concurrent.
