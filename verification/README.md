# Table rows through CBOR and MessagePack: a verified model

This project models the part of the worker that carries whole tables out to CBOR and MessagePack row files and back, with the
codecs it rests on, and proves what users of it rely on.

* **Cells.** A table cell is written as a CBOR value chosen by its column type, and read back by the target column type. The
  reader works on columns: it flattens rows into offsets, masks and child values and recurses. `ReadCells` says what one value
  means for one type; `ValueOut` is the columnar reader, proved to agree with it; `RoundTrip` and `ColumnRoundTrip` prove the
  round trip for every nested type, directly and through MessagePack. `WriteForms` and `ReadForms` say in literal tags, ranges
  and indices what each cell is written as, and what each form of a value is read as, also the forms the writer never uses.
* **Files.** `CopyTo` writes every row of every shard as one item. `Streaming` models the range reader, the buffer over it and
  the item reader as classes. `CopyFrom` specifies a whole run over several sources; `Producer` is the row producer class with
  its loops, proved to perform such a run. `CopyRoundTrip` joins both directions.
* **Codecs.** `ItemCodec` is a CBOR item encoder and decoder after section 3 of RFC 8949, with shortest heads, definite lengths
  and a nesting limit, and `CodecForms` its literal forms, with UTF-8. `Framing` splits concatenated items (RFC 8742). `Bignum`,
  `Exact` and `Instant` are exact arithmetic: bignums, decimal scaling, the timestamp payload and the civil date. `Msgpack` is the
  transcoder between the two value models; `InstantRoundTrip` says what it does to instants finer than a nanosecond.
* **Canonical order.** `Canonical`, `CanonicalBytes`, `CanonicalCells` and `CanonicalTables`: deterministic map order in two
  modes, on values, on bytes, on table cells, and on whole files.
* **Views.** `Cwt` extracts claims from nested envelopes; `Json` is the JSON bridge.

Text is its UTF-8 bytes. A float is its bit pattern: float arithmetic, and the rendering of values as JSON text, are the fields of
a `Platform` record, and every statement holds for all of them; a concrete case may name the values it starts from. No law of
floats is asked for: a single comes back as widening and narrowing leave it, which for a NaN need not be its payload. An error is
a refusal (`Outcome`), without its message; decode errors keep their class.

Where the program loops or changes state, the model is a method or a class proved against a specification function, and the
theorems are lemmas about those functions. `dafny verify dfyconfig.toml` checks the whole project.

## Where statements needed an exact condition

* Through MessagePack a native CBOR integer in [-2^64, -2^63) becomes a float. A DECIMAL with such a mantissa is refused when it is
  read (`RoundTrip.CellRoundTrip`), so the table round trip holds for all other rows, and such rows are never changed.
* `TIME_NS` is written in whole microseconds, and a FLOAT is widened and narrowed; a cell comes back unchanged exactly when both
  leave it as it is (`CopyRoundTrip.KeptIff`, `CopyRoundTrip.CopyIsIdentity`).
* Through MessagePack an instant keeps whole nanoseconds only (`InstantRoundTrip.InstantArrives`), so one that is refused as a
  TIMESTAMP may be accepted after the trip (`InstantRoundTrip.PicosecondsCut`); what is accepted before is never changed
  (`InstantRoundTrip.InstantReadAfter`).
* An integer behind a tag is rounded through a float when it is read as a DECIMAL or a TIMESTAMP. Apart from floats it is the only
  form that is not exact or refused (`ReadCells.DecimalExactIff`, `ReadCells.TimestampExactIff`, `ReadCells.TaggedIntegerRounds`).
* A DATE day count is narrowed to 64 bits before its range check, so some huge counts are accepted as other days
  (`ReadCells.DateExactIff`, `ReadCells.DateWraps`). A DATE from an instant needs a whole number of seconds
  (`ReadCells.DateOfInstant`, `ReadCells.HalfSecondRefused`).
* With `ignore_errors`, a source that cannot be opened is passed over only if rows are waiting in the current batch
  (`CopyFrom.IgnoringRun`, `CopyFrom.UnopenableFirst`); a malformed item ends the run for all later sources.
* A zero whose exponent is more than 38 digits away from the target scale is refused although zero would be exact
  (`Exact.RescaleExact`).
* STRUCT fields are found by the first matching name, so round trips ask for distinct names (`RoundTrip.LookupFirst`,
  `RoundTrip.SharedName`).
* A row nested deeper than 64 levels is written but cannot be read back (`Rows.DeepRowUnreadable`). It fails a run; with
  `ignore_errors`, it drops every row behind it and every later source (`CopyRoundTrip.DeepRowEndsRun`).
* Canonical output is independent of entry order exactly when no two entries of one map, at any depth, share a canonical key
  without being the same (`Canonical.DeterministicIff`). For files: exactly when no two entries of one MAP are written under one
  key without being written the same (`CanonicalTables.FileDeterministicIff`), which TIME_NS keys can violate
  (`CanonicalTables.NanosecondKeys`).

Code and documentation disagree in some places; the model follows the code. `strip_transparent` is documented to strip tag 24 as
well, but strips 55799 only (`crates/cbor-core/src/value.rs:167-179`). `ignore_errors` is documented to skip rows and to accept a
truncated trailing item (`crates/cbor-worker/src/copy/from.rs:73-79`); the code also drops every later source after a bad item, and
may drop them after a source that cannot be opened (`crates/cbor-worker/src/copy/from.rs:226-263`). A comment says that the encoder
never emits a DATE (`crates/cbor-worker/src/value_out.rs:424-425`), but it writes tag 100
(`crates/cbor-worker/src/value_in.rs:111-119`). Tags are documented as transparent and a float as the only inexact path of a DECIMAL
(`crates/cbor-worker/src/value_out.rs:95-96`, `252-257`); the code reads a tagged integer through a float and refuses a bignum behind
a further tag (`crates/cbor-worker/src/value_out.rs:258-287`). A canonical mode is documented to give the same rows byte-identical
output (`crates/cbor-worker/src/copy/common.rs:151-155`); of rows that differ in the order of MAP entries this holds under the last
condition above.

## Model

| member | source | states |
|---|---|---|
| RoundTrip.CellRoundTrip | crates/cbor-worker/src/value_out.rs:390-735 | For every column type nested to any depth with distinct STRUCT names, every cell of it and every platform: the value written for the cell, directly or carried through MessagePack, is read back as the cell (TIME_NS in whole microseconds, a single as widening and narrowing leave it); a cell holding a decimal mantissa in [-2^64, -2^63) is refused through MessagePack, and nothing else is |
| RoundTrip.NumberRoundTrip | crates/cbor-worker/src/value_in.rs:39-146 | Every integer, DATE, TIME, TIMESTAMP and DECIMAL value in range survives both formats, with those two exceptions |
| RoundTrip.DecimalRoundTrip | crates/cbor-worker/src/value_in.rs:66-75 | Any 128-bit mantissa at any scale comes back unchanged, except the refused range through MessagePack |
| RoundTrip.TimestampRoundTrips | crates/cbor-worker/src/value_in.rs:95-110 | Any 64-bit instant in any unit comes back unchanged through both formats |
| RoundTrip.StructRoundTrip | crates/cbor-worker/src/value_out.rs:644-677 | A STRUCT cell comes back field by field through the lookup by name |
| RoundTrip.LookupFirst | crates/cbor-worker/src/value_out.rs:651-656 | Looking a field up by name finds the first field of that name: its own value exactly when no earlier field shares the name |
| RoundTrip.SharedName | crates/cbor-worker/src/value_out.rs:651-656 | The concrete case: with two fields of one name the second comes back as the first |
| RoundTrip.MapRoundTrip | crates/cbor-worker/src/value_out.rs:679-723 | A MAP cell comes back pair by pair, keys and values split and zipped again |
| ColumnRoundTrip.ColumnThereAndBack | crates/cbor-worker/src/value_out.rs:390-735 | A column written row by row, carried over either format and built again holds the same logical cells, as a round trip keeps them; refused exactly when some cell cannot be carried |
| ValueIn.ValueAt | crates/cbor-worker/src/value_in.rs:32-201 | The value read off row `row` of a column, through offsets and validity masks, is the value of that row's logical cell |
| ValueIn.Extent | crates/cbor-worker/src/value_in.rs:147-155 | The loop over a list row yields the values of exactly the child rows of its extent, in order |
| ValueIn.StructEntries | crates/cbor-worker/src/value_in.rs:177-187 | The loop over struct fields yields one entry per field, under its name, from the same row of each child |
| ValueIn.ColumnTyped | crates/cbor-worker/src/value_in.rs:32-201 | Every logical cell of a sound column belongs to the column type, at any depth |
| Columns.ListLayout | crates/cbor-worker/src/value_in.rs:147-155 | Row i of a list column is NULL where a mask is there and false, and otherwise the child cells between offsets i and i + 1 |
| Columns.FixedLayout | crates/cbor-worker/src/value_in.rs:168-176 | Row i of a fixed list column lies at i times its size |
| Columns.StructLayout | crates/cbor-worker/src/value_in.rs:177-187 | Row i of a STRUCT column reads across row i of its children |
| Columns.MapLayout | crates/cbor-worker/src/value_in.rs:188-198 | Row i of a MAP column pairs its keys and values between offsets i and i + 1 |
| WriteForms.PlainForms | crates/cbor-worker/src/value_in.rs:32-94 | NULL is written as null in every type; booleans, texts, byte strings and doubles as themselves, a single widened |
| WriteForms.IntegerWritten | crates/cbor-worker/src/value_in.rs:39-62 | Integers in the literal range are written as native integers, a DATE as its days under tag 100 |
| WriteForms.TimeWritten | crates/cbor-worker/src/value_in.rs:124-146 | A TIME is written as a bare count of microseconds, nanoseconds cut towards midnight |
| WriteForms.DecimalWritten | crates/cbor-worker/src/value_in.rs:66-75 | A DECIMAL is written as a tag 4 over its negated scale and a form of its unscaled integer |
| WriteForms.TimestampWritten | crates/cbor-worker/src/value_in.rs:95-110 | A TIMESTAMP is written as a tag 1 over whole seconds when it is a whole number of them, and otherwise over the tag-4 fraction of its units |
| WriteForms.NestedWritten | crates/cbor-worker/src/value_in.rs:147-198 | A LIST is written as the array of its elements, a STRUCT as the map of its fields under their names, a MAP as the map of its pairs, all in order |
| ValueOut.BuildColumn | crates/cbor-worker/src/value_out.rs:390-735 | Columnar building agrees with reading row by row: it succeeds exactly when every value can be read alone, lays out a sound column of the type, and its logical cells are the cells read |
| ValueOut.BuildSlots | crates/cbor-worker/src/value_out.rs:153-183 | The scalar loops: one slot per row, null for a null value, refused at the first value that does not convert |
| ValueOut.BuildLists | crates/cbor-worker/src/value_out.rs:634-642 | LIST: offsets, mask and flattened child give back each row's own elements |
| ValueOut.BuildFixedLists | crates/cbor-worker/src/value_out.rs:590-632 | Fixed LIST: a null row contributes `size` null children, and every other row must have exactly `size` elements |
| ValueOut.BuildStructs | crates/cbor-worker/src/value_out.rs:644-677 | STRUCT: one child column per field over all rows, null rows masked, wrong shapes refused |
| ValueOut.BuildMaps | crates/cbor-worker/src/value_out.rs:679-723 | MAP: parallel key and value columns under shared offsets; a null key is refused |
| ValueOut.FlattenLists | crates/cbor-worker/src/value_out.rs:777-796 | The loop pushes every row's elements in order and the running length as offset; refused exactly when some row is neither null nor an array |
| ValueOut.FlattenMaps | crates/cbor-worker/src/value_out.rs:683-705 | The loop pushes all keys and all values in order, with the running length as offset |
| ValueOut.ListsRead | crates/cbor-worker/src/value_out.rs:634-642 | The list layout over the flattened rows has the cells of the rows, for any split of the elements into rows |
| ValueOut.FixedRead | crates/cbor-worker/src/value_out.rs:590-632 | The fixed-list layout has the cells of the rows |
| ValueOut.MapsRead | crates/cbor-worker/src/value_out.rs:679-723 | The map layout has the cells of the rows |
| ValueOut.StructsRead | crates/cbor-worker/src/value_out.rs:644-677 | Child columns built field by field are, read across, the rows |
| ValueOut.NullBuffer | crates/cbor-worker/src/value_out.rs:767-773 | The mask is absent exactly when no value is null, and otherwise marks exactly the null rows |
| ReadCells.ReadAllAppend | crates/cbor-worker/src/copy/from.rs:294-309 | Homomorphism: two lists of values one after the other can be read exactly when both can, and give the concatenation of their cells |
| ReadCells.ReadCellTyped | crates/cbor-worker/src/value_out.rs:390-735 | Whatever is read belongs to the target type: in range, of the right size, MAP keys not null |
| ReadForms.NullForms | crates/cbor-worker/src/value_out.rs:105-108 | Null, behind any tags, is NULL in a column of any type, and a column of the null type takes anything as NULL |
| ReadForms.IntegerForms | crates/cbor-worker/src/value_out.rs:110-119 | Behind any stack of tags: an integer, or a float that is the integer n, is read as n into an integer column exactly when n is in the type's literal range; every other value is refused |
| ReadForms.DateForms | crates/cbor-worker/src/value_out.rs:436-451 | Behind any tags but an outermost tag 1, an integer or a float that is one is read as the 32-bit day equal to it modulo 2^64, and refused when there is none; every other value is refused |
| ReadForms.DateOfFloat | crates/cbor-worker/src/value_out.rs:436-451 | Below a tag 1, a float or a tagged integer is read as the day that holds its rounded 64-bit second |
| ReadForms.TimeForms | crates/cbor-worker/src/value_out.rs:291-322 | An integer or a float that is one is read as the microseconds it counts, cut towards midnight to the unit, when that fits 32 or 64 bits; every other value is refused |
| ReadForms.TimestampOfFloat | crates/cbor-worker/src/value_out.rs:324-385 | With or without a tag 1, a float or a tagged integer is scaled and rounded to the unit, within 64 bits; booleans, texts and maps are refused |
| ReadForms.DecimalOfFloat | crates/cbor-worker/src/value_out.rs:258-287 | A float or a tagged integer is scaled and rounded to the scale, strictly within 128 bits; booleans, texts and maps are refused |
| ReadForms.FloatForms | crates/cbor-worker/src/value_out.rs:139-150 | DOUBLE takes a float as it is and an integer rounded, FLOAT the same narrowed; every other value but an array is refused |
| ReadForms.FloatOfArray | crates/cbor-worker/src/value_out.rs:139-150 | Into DOUBLE and FLOAT, an array is read exactly when it is a decimal fraction, bare or under a tag 4, as the float of its mantissa and exponent |
| ReadForms.BooleanForms | crates/cbor-worker/src/value_out.rs:395-411 | BOOLEAN takes booleans behind any tags, and nothing else |
| ReadForms.TextForms | crates/cbor-worker/src/value_out.rs:739-749 | VARCHAR takes a text as it is, and any other value as its JSON text |
| ReadForms.BytesForms | crates/cbor-worker/src/value_out.rs:751-764 | BLOB takes byte strings, and texts as their bytes; a fixed width takes those of its length; every other value is refused |
| ReadForms.ListForms | crates/cbor-worker/src/value_out.rs:590-642 | LIST takes an array exactly when each item can be read, item by item in order; a fixed LIST only an array of its size; every other value is refused |
| ReadForms.StructForms | crates/cbor-worker/src/value_out.rs:644-677 | STRUCT takes a map: each field is read from the value under the first key that is its name behind any tags, and from null when there is none; every other value is refused |
| ReadForms.AbsentField | crates/cbor-worker/src/value_out.rs:651-658 | A STRUCT field whose name is no key is NULL |
| ReadForms.MapForms | crates/cbor-worker/src/value_out.rs:679-723 | MAP takes a map exactly when each key and value can be read and no key is null, pair by pair in order; every other value is refused |
| ReadCells.DecimalExact | crates/cbor-worker/src/value_out.rs:258-287 | On every value whose content is not a float and which is not a tagged integer, a DECIMAL is the one integer denoting mantissa * 10^exponent at the target scale; refused exactly when there is none in 128 bits (or a zero is moved by more than 38 digits), or the value denotes no number. A tagged integer is read through its float |
| ReadCells.TimestampExact | crates/cbor-worker/src/value_out.rs:324-357 | The same for a TIMESTAMP within 64 bits, of the value below a tag 1 |
| ReadCells.DecimalExactIff | crates/cbor-worker/src/value_out.rs:258-287 | For every value whose content is not a float: reading it as a DECIMAL is exact or refused on all platforms if and only if it is not a tagged integer |
| ReadCells.TimestampExactIff | crates/cbor-worker/src/value_out.rs:324-357 | The same for a TIMESTAMP, of the value below a tag 1 |
| ReadCells.TaggedIntegerRounds | crates/cbor-worker/src/value_out.rs:139-150 | The concrete case: where 2^53 + 1 and 2^53 are one double, the former behind a tag is read as the latter, as a DECIMAL and as a TIMESTAMP; the bare integer is read as itself |
| Exact.RescaleExact | crates/cbor-worker/src/value_out.rs:215-250 | `rescale` yields the unique 128-bit integer that equals mantissa * 10^exponent at the scale, as real numbers, and refuses exactly when there is none (or a zero moves by more than 38 digits) |
| Exact.CheckedPow10Range | crates/cbor-worker/src/value_out.rs:217-224 | 10^k is available exactly for k up to 38 |
| Exact.FractionIff | crates/cbor-worker/src/value_out.rs:123-137 | A value is a decimal fraction if and only if it is an array of exactly two integers, bare or under a tag 4, the first of them of 32 bits |
| ReadCells.DateOfInstant | crates/cbor-worker/src/value_out.rs:436-439 | A DATE is read from an exact instant (m, e) as a day if and only if m * 10^e is a whole 64-bit second count within that day (a zero moved by at most 38 digits) and the day has 32 bits; also before the epoch |
| ReadCells.HalfSecondRefused | crates/cbor-worker/src/value_out.rs:436-439 | The concrete case: 1.5 seconds after the epoch is refused as a DATE, although day 0 contains it |
| ReadCells.DateExactIff | crates/cbor-worker/src/value_out.rs:440-451 | A DATE day count of any form, integral floats included, is read modulo 2^64: it is right or refused if and only if it has 32 bits or its 64-bit wrap-around has not |
| ReadCells.DateExactNative | crates/cbor-worker/src/value_out.rs:440-451 | For native integers that is the interval [-2^64 + 2^31, 2^64 - 2^31), and outside it every count is accepted as another day |
| ReadCells.DateWraps | crates/cbor-worker/src/value_out.rs:440-451 | The concrete case: 2^64 - 1 is read as the day before the epoch |
| ReadCells.TimeCut | crates/cbor-worker/src/value_out.rs:459-474 | A TIME is the microsecond count read, of either sign, cut towards midnight to the column's unit, and accepted exactly when it fits |
| Values.Untag | crates/cbor-worker/src/value_out.rs:97-103 | The loop reaches the content below every tag |
| Msgpack.TranscodeStable | crates/cbor-core/src/codec/msgpack.rs:137-180 | For every CBOR value, transcoding to MessagePack what came back from MessagePack gives the same MessagePack value: one pass reaches a fixed point, with nested tags, instants in any accepted form, and bignums |
| Msgpack.CarriedIff | crates/cbor-core/src/codec/msgpack.rs:137-180 | A value comes back from MessagePack unchanged if and only if it has no integer below -2^63 and no tag but on bignums and on instants in the written form, at any depth |
| Msgpack.NormalForm | crates/cbor-core/src/codec/msgpack.rs:229-291 | From the MessagePack side: every value, through CBOR and back, takes a normal form defined on MessagePack alone: singles widened, strings that are not UTF-8 as binaries, timestamps in their shortest layout, bignums as they are, any other ext as a map of its code and data, at any depth |
| Msgpack.MpForms | crates/cbor-core/src/codec/msgpack.rs:229-256 | What each MessagePack form but ext decodes to in CBOR, arrays and maps by index |
| Msgpack.CarriedInstant | crates/cbor-core/src/codec/msgpack.rs:161-168 | A tag-1 instant in any accepted form arrives as tag 1 with the seconds and nanoseconds it was accepted as |
| InstantRoundTrip.InstantArrives | crates/cbor-core/src/codec/msgpack.rs:348-370 | What arrives of an exact instant m * 10^e is that number of nanoseconds cut towards the epoch: the same instant if and only if m * 10^e is a whole number of nanoseconds |
| InstantRoundTrip.InstantReadAfter | crates/cbor-core/src/codec/msgpack.rs:348-370 | Of the exact instants that MessagePack has a timestamp for: a TIMESTAMP accepted before the trip is read the same after it, in any unit; only an instant between two nanoseconds, or a zero with a far exponent, can be refused before and accepted after |
| InstantRoundTrip.PicosecondsCut | crates/cbor-core/src/codec/msgpack.rs:353-357 | The concrete case: 1500 picoseconds are refused as a nanosecond TIMESTAMP, and read as one nanosecond after the trip |
| InstantRoundTrip.InstantAccepted | crates/cbor-core/src/codec/msgpack.rs:348-370 | What is accepted as an instant, and as which: an exact one is cut to nanoseconds when its exponent is from -47 to 29 and its seconds have 64 bits, a float is split, and nothing else is |
| Msgpack.InstantContentParts | crates/cbor-core/src/codec/msgpack.rs:348-370 | The content written for an instant is split back into its seconds and nanoseconds |
| RoundTrip.CarryMantissa | crates/cbor-core/src/codec/msgpack.rs:141-149 | A mantissa arrives as it was, except that a native integer below -2^63 becomes a float |
| Instant.TimestampRoundTrip | crates/cbor-core/src/codec/msgpack.rs:329-341 | For every 64-bit second and nanosecond count below 10^9, decoding the encoded payload gives the pair back |
| Instant.TimestampShortest | crates/cbor-core/src/codec/msgpack.rs:391-410 | No payload that decodes to the instant is shorter than the one chosen |
| Instant.TimestampLayouts | crates/cbor-core/src/codec/msgpack.rs:391-410 | Any payload of 4, 8 or 12 bytes is seconds; nanoseconds above 34 bits of seconds; or nanoseconds before 64-bit seconds in two's complement; no other length is accepted |
| Instant.TimestampWidth | crates/cbor-core/src/codec/msgpack.rs:329-341 | Which of the three widths an instant is written in |
| Instant.CivilCorrect | crates/cbor-core/src/codec/msgpack.rs:414-428 | For every second, the computed fields are a valid proleptic Gregorian date-time, and counting its days from the calendar rules gives the second back |
| Instant.CivilInjective | crates/cbor-core/src/codec/msgpack.rs:414-428 | Distinct seconds have distinct date-times |
| Instant.YearOfEraCorrect | crates/cbor-core/src/codec/msgpack.rs:421-424 | The year computed within a 400-year era is the one whose days contain the given day, leap years by the Gregorian rule |
| Bignum.BignumRoundTrip | crates/cbor-core/src/codec/bignum.rs:16-48 | Every 128-bit integer, the minimum included, survives the round trip |
| Bignum.BignumMinimal | crates/cbor-core/src/codec/bignum.rs:52-59 | A bignum is emitted exactly when no native integer would do, and never with a leading zero byte |
| Bignum.BignumDecode | crates/cbor-core/src/codec/bignum.rs:33-48 | A native integer denotes itself, tag 2 over a byte string its magnitude, tag 3 minus one minus it, when the magnitude is below 2^127; no other value denotes an integer |
| Bignum.BignumForms | crates/cbor-core/src/codec/bignum.rs:16-29 | An integer is written natively from -2^64 to 2^64 - 1, and otherwise under tag 2 or 3, by its sign, over its magnitude |
| Bignum.MagnitudeExact | crates/cbor-core/src/codec/bignum.rs:62-72 | A magnitude is read exactly when it is below 2^128, whatever zeros lead it |
| Bignum.ReadMagnitude | crates/cbor-core/src/codec/bignum.rs:62-72 | Filling the 16-byte buffer from its end computes the magnitude |
| Bignum.TrimExact | crates/cbor-core/src/codec/bignum.rs:52-59 | Trimming keeps the number |
| ItemCodec.DecodeOfEncode | crates/cbor-core/src/value.rs:104-107 | An encoded value followed by anything decodes to itself and leaves what follows, when nested at most 64 levels; a deeper one is refused as too deep (section 3 of RFC 8949) |
| ItemCodec.DecoderDelimited | crates/cbor-core/src/value.rs:104-107 | The decoder is self-delimiting: what follows an item never changes the verdict on it, an empty input is truncated, and an item takes at least one byte |
| ItemCodec.EncodePrefixFree | crates/cbor-core/src/codec/encode.rs:33-37 | No encoding is a prefix of another value's; encoding is injective |
| CodecForms.HeadForms | crates/cbor-core/src/codec/encode.rs:33-37 | A head is its major type and its argument below 24, or the narrowest of four widths that holds the argument (section 3 of RFC 8949) |
| CodecForms.EncodeForms | crates/cbor-core/src/codec/encode.rs:33-37 | How each value begins: major types 0 to 6, the simple values, and doubles in nine bytes |
| CodecForms.WideHeads | crates/cbor-core/src/value.rs:104-107 | A head wider than its argument needs decodes as the narrowest one does, in every major type below 7 |
| CodecForms.SimpleForms | crates/cbor-core/src/value.rs:104-107 | The simple values: false, true, null, and undefined, which reads as null; the others are reserved |
| CodecForms.BadText | crates/cbor-core/src/value.rs:104-107 | A text string whose bytes are not UTF-8 is refused as such |
| CodecForms.Utf8Iff | crates/cbor-core/src/value.rs:104-107 | Valid text is exactly the encoding of a sequence of Unicode scalar values (section 3 of RFC 3629) |
| ItemCodec.CutEncoded | crates/cbor-core/src/seq.rs:101-131 | A file of encoded values cut at any byte: exactly the values encoded before the cut, and a truncation error exactly when the cut is not between two of them (section 2 of RFC 8742) |
| Framing.ParseSeq | crates/cbor-core/src/seq.rs:101-131 | The loop yields the items of the sequence and the error that ended it; its no-progress guard never fires |
| Framing.CutSequence | crates/cbor-core/src/seq.rs:101-131 | A sequence of encoded values cut at any byte yields exactly the items wholly before the cut, and an error exactly when the cut is not an item boundary (section 2 of RFC 8742) |
| Framing.StoppedSequence | crates/cbor-core/src/seq.rs:101-131 | A sequence with a malformed item in it, cut at any byte: exactly the items before both, and no error exactly when the cut is a boundary of these |
| Framing.WholeChunksIsLargest | crates/cbor-core/src/seq.rs:101-131 | The items before a cut are the largest number whose encodings fit |
| Framing.WholeSequence | crates/cbor-core/src/seq.rs:101-131 | A whole sequence yields all its values and no error |
| Framing.CutItem | crates/cbor-core/src/seq.rs:38-42 | Every proper prefix of an item is a truncated item |
| Framing.SequencesAppend | crates/cbor-worker/src/copy/common.rs:161-164 | Sequences append: after a complete sequence, parsing goes on with what follows, numbered on |
| CanonicalBytes.DecoderWithin | crates/cbor-core/src/value.rs:13-23 | Whatever the decoder yields is nested within the limit |
| Streaming.RangeReader.Fetch | crates/cbor-worker/src/cloud.rs:491-554 | A range request changes nothing of what remains to be read; an empty buffer afterwards means the end; it fails only when the store does |
| Streaming.RangeReader.Read | crates/cbor-worker/src/cloud.rs:489-560 | The bytes copied out are the front of what remained, the rest of the caller's buffer is untouched, and zero bytes mean the end of the object |
| Streaming.BufReader.Pull | crates/cbor-core/src/seq.rs:78-81 | One decoder call takes exactly one item's bytes, or meets the verdict the whole remaining input would get |
| Streaming.SeqReader.NextItem | crates/cbor-core/src/seq.rs:61-95 | A call takes one step over the pending bytes: an item, a clean end only when nothing is pending, or an error that stops the reader; only a failing store can stop it otherwise |
| Streaming.SeqReader.Drain | crates/cbor-core/src/seq.rs:151-161 | Draining the reader gives the items and the error of parsing the pending bytes at once; a failing store leaves a prefix of the items and is reported, so that no error means everything was read |
| Streaming.ReadObject | crates/cbor-worker/src/cloud.rs:489-560 | A stored object read through ranges, a buffer and the item reader parses as the whole object, for every chunk size, every buffer size and every non-empty prefix the store serves; a failing store leaves a prefix of the items and an error |
| Canonical.CanonInOrder | crates/cbor-core/src/codec/encode.rs:45-68 | In the output every map at every depth is sorted by the mode's key order |
| Canonical.KeysFollow | crates/cbor-core/src/codec/encode.rs:55-62 | In every map of a canonical form, at any depth, of two encoded keys the first is a prefix of the second or has the smaller byte where they first differ, in core mode; in CTAP2 mode it is shorter, or as long and bytewise in order |
| Canonical.ModesDiffer | crates/cbor-core/src/codec/encode.rs:55-62 | The concrete case: the keys -1 and 24, encoded as 20 and 18 18, are ordered 24 before -1 in core mode and the other way round in CTAP2 mode |
| Canonical.InOrderFixed | crates/cbor-core/src/codec/encode.rs:45-68 | A value whose maps are all in order is not changed |
| Canonical.CanonIdempotent | crates/cbor-core/src/codec/encode.rs:45-68 | A value is left as it is exactly when all its maps are in order; a second pass changes nothing, duplicate keys included |
| Canonical.CanonDeterministic | crates/cbor-core/src/codec/encode.rs:45-68 | Values equal up to the order of map entries at any depth get the same bytes, when no map has two keys of one canonical encoding with different values |
| Canonical.DeterministicIff | crates/cbor-core/src/codec/encode.rs:45-68 | For every value: all reorderings of its map entries, at any depth, have one canonical form if and only if no two entries of one map, at any depth, share a canonical key without being the same |
| Canonical.ConflictShowsBelow | crates/cbor-core/src/codec/encode.rs:45-68 | For every value with such a conflict, inside an array, a tag, a key or a value, some reordering has another canonical form |
| Canonical.ConflictShows | crates/cbor-core/src/codec/encode.rs:50-64 | For a conflict among a map's own entries, one of them put first gives another canonical form |
| Canonical.CanonReorders | crates/cbor-core/src/codec/encode.rs:45-68 | The output is the input with the entries of its maps permuted, at any depth |
| Canonical.SortSorted | crates/cbor-core/src/codec/encode.rs:55-62 | Entries end up in the order of the mode |
| Canonical.SortStable | crates/cbor-core/src/codec/encode.rs:55-62 | Entries of one key keep their order |
| Canonical.StableSortUnique | crates/cbor-core/src/codec/encode.rs:55-62 | Any stable sort by the key order gives the same sequence, so the choice of algorithm does not matter |
| Canonical.ModesAgreeOnTextKeys | test/sql/copy_types.test:414-425 | When all maps have text keys only, core and CTAP2 order give the same result |
| Canonical.TextOrderAgrees | crates/cbor-core/src/codec/encode.rs:58-61 | On encoded text keys, bytewise order and length-first order coincide, because shorter texts have smaller heads |
| CanonicalBytes.CanonicalSettles | crates/cbor-core/src/codec/encode.rs:72-76 | On bytes: accepted exactly when the input is one item; the output decodes to the canonical form and is a fixed point |
| CanonicalBytes.CanonicalBytesAgree | crates/cbor-core/src/codec/encode.rs:72-76 | Two inputs get the same bytes exactly when their values have the same canonical form |
| CanonicalBytes.CanonKeeps | crates/cbor-core/src/codec/encode.rs:45-68 | Canonical ordering changes neither nesting depth nor lengths |
| CanonicalBytes.ReorderedKeeps | crates/cbor-core/src/codec/encode.rs:45-68 | Nor does any other order of map entries, at any depth |
| CanonicalBytes.StrictOfEncode | crates/cbor-core/src/value.rs:111-119 | An encoding within the nesting limit passes the strict parser with nothing left over |
| CanonicalBytes.StrictForms | crates/cbor-core/src/value.rs:111-119 | An encoding is whole when nothing follows it, trailing when something does, and refused when nested more than 64 levels; other decoder errors are passed on |
| CanonicalCells.CanonicalRoundTrip | crates/cbor-core/src/codec/encode.rs:45-68 | A cell written, canonicalized in either mode and read back is the cell kept, up to the order of the entries of its MAP cells |
| CanonicalCells.FieldSent | crates/cbor-worker/src/value_out.rs:651-656 | After sorting, the lookup of a STRUCT field by name still finds its own value |
| CanonicalCells.PairsReread | crates/cbor-worker/src/value_out.rs:687-705 | The pairs read from sorted entries are the written pairs in some order |
| Rows.BuildBatch | crates/cbor-worker/src/copy/from.rs:324-346 | A batch is built exactly when each row can be read alone, and holds those rows |
| Rows.ReadRowForms | crates/cbor-worker/src/copy/from.rs:328-341 | Each column is read from the item in its place in an array row, from the value under the first key that is exactly its name in a map row, and from null when there is none or the row has the other shape |
| Rows.AbsentColumn | crates/cbor-worker/src/copy/from.rs:328-341 | A column absent from a row is NULL in it |
| Rows.ShortRow | test/sql/copy_types.test:491-505 | The concrete case: the array row [1], read as INTEGER, VARCHAR and DOUBLE, is (1, NULL, NULL) |
| Rows.ItemOfRow | crates/cbor-worker/src/copy/common.rs:73-78 | An encoded row is one item, which decodes to the row carried over the format |
| Rows.DeepRowUnreadable | crates/cbor-core/src/value.rs:13-23 | A CBOR row nested deeper than the limit is written, and refused when read |
| Rows.ItemDelimited | crates/cbor-worker/src/copy/common.rs:90-95 | The item reader of either format is self-delimiting, MessagePack being a lawful codec followed by the transcoder |
| Producer.RowProducer.constructor | crates/cbor-worker/src/copy/from.rs:166-176 | The sources are walked in their given order |
| Producer.RowProducer.Advance | crates/cbor-worker/src/copy/from.rs:201-220 | Opening a source changes nothing of what is to be read; a failing open takes away that source only |
| Producer.RowProducer.NextRow | crates/cbor-worker/src/copy/from.rs:224-248 | The next row over all sources, rolling on at a clean end; a decode failure drops everything that follows |
| Producer.RowProducer.GatherRows | crates/cbor-worker/src/copy/from.rs:256-289 | The gathering loop collects what its specification says, or, when a store fails, a prefix (errors ignored) or nothing |
| Producer.RowProducer.NextBatch | crates/cbor-worker/src/copy/from.rs:252-310 | One call emits the batch its specification names and leaves the sources where it says; a store failing half-way can only shorten it |
| Producer.Convert | crates/cbor-worker/src/copy/from.rs:294-309 | Under ignore_errors the rebuild of the kept rows cannot fail and keeps exactly the rows that can be built alone |
| Producer.KeptTogether | crates/cbor-worker/src/copy/from.rs:300-306 | The rows readable alone are readable together as the same rows; when all are, none is dropped |
| Producer.RunCopy | crates/cbor-worker/src/copy/from.rs:98-112 | A whole run terminates and loads what the run specification says, for any chunk and buffer size; with failing stores, a run that does not ignore errors still loads everything or fails, and one that does loads a prefix |
| CopyFrom.IgnoringRun | crates/cbor-worker/src/copy/from.rs:252-310 | A run that ignores errors never fails and loads, in order, the shape-matching convertible rows of all sources up to the first bad item; a source that cannot be opened is passed over exactly when the usable rows before it do not fill whole batches, and otherwise ends the run |
| CopyFrom.IgnoringRunAllOpen | crates/cbor-worker/src/copy/from.rs:222-248 | With every source openable the result is the same for any batch size |
| CopyFrom.UnopenableFirst | crates/cbor-worker/src/copy/from.rs:226-243 | The concrete case: a first source that cannot be opened loses all the others although errors are ignored |
| CopyFrom.StrictRun | crates/cbor-worker/src/copy/from.rs:252-310 | A run that does not ignore errors loads every item of every source in order, or is refused; exactly when a source cannot be opened, is malformed, or an item does not fit the shape or the column types |
| CopyFrom.StrictRunIff | crates/cbor-worker/src/copy/from.rs:252-310 | Such a run succeeds if and only if every source opens and is well-formed and every item is an untagged map, or array, as declared, and can be read; then it loads one row per item, in order |
| CopyFrom.OneMoreItem | crates/cbor-worker/src/copy/from.rs:266-289 | With errors ignored, one more item adds its row exactly when it has the declared shape and can be read |
| CopyFrom.FilesAppend | crates/cbor-worker/src/copy/common.rs:161-164 | Reading a complete file and then another loads the same as reading the two put together |
| CopyFrom.FlowStep | crates/cbor-worker/src/copy/from.rs:224-248 | Rows taken one by one are the items of the sources parsed one after the other |
| CopyTo.Close | crates/cbor-worker/src/copy/to.rs:173-205 | The file is the encoded rows of all shards in order, and the count returned is their number |
| CopyTo.WriteRow | crates/cbor-worker/src/copy/to.rs:182-200 | One row is projected, framed by name or position, canonicalized on request and encoded |
| CopyRoundTrip.CopyBack | crates/cbor-worker/src/copy/to.rs:173-205 | COPY TO then COPY FROM without canonical order, in either row shape and format, for every table that can be written: the rows come back in order, as a round trip keeps them; a row with a decimal MessagePack cannot carry fails the run or, with errors ignored, is left out, never changed; a CBOR row nested too deep fails the run or, with errors ignored, ends it |
| CopyRoundTrip.CopyIsIdentity | crates/cbor-worker/src/copy/to.rs:173-205 | In either format, without canonical order, the table comes back exactly as it was if and only if no row is nested too deep, all TIME_NS are whole microseconds, all singles survive widening and narrowing, and the format carries every decimal |
| CopyRoundTrip.CborCopyBack | crates/cbor-worker/src/copy/to.rs:173-205 | Through CBOR every row before the first that is nested too deep comes back, kept |
| CopyRoundTrip.DeepRowEndsRun | crates/cbor-worker/src/copy/from.rs:222-248 | A row nested too deep ends a run: it is refused or, with errors ignored, loads the rows before that one, and loses the rows behind it and all later sources |
| CopyRoundTrip.CanonicalCopyBack | crates/cbor-worker/src/copy/to.rs:193-196 | With a canonical mode every row comes back in its place, and only entries inside MAP cells may be reordered; a row nested too deep fails the run or, with errors ignored, ends it |
| CopyRoundTrip.CopyThereAndBack | crates/cbor-worker/src/copy/from.rs:252-310 | The two programs one after the other: the row count is the table's, and the loaded batches hold the rows of the run, through CBOR without canonical order every row before the first that is nested too deep as kept, for any split into shards, batch size, chunk size, buffer capacity and store |
| CopyRoundTrip.ShardsAreTable | crates/cbor-worker/src/copy/to.rs:173-186 | A table split into any shards gives the same file |
| CopyRoundTrip.ProjectSent | crates/cbor-worker/src/copy/from.rs:328-341 | In either shape the reader finds for each column its own value, also after canonical ordering |
| CopyRoundTrip.RowArrives | crates/cbor-worker/src/copy/from.rs:324-346 | A row sent is read as the row kept, or refused when it cannot be carried |
| CopyRoundTrip.KeptIff | crates/cbor-worker/src/value_in.rs:32-201 | A round trip keeps a cell of any type unchanged if and only if all its TIME_NS are whole microseconds and all its singles survive widening and narrowing |
| CopyRoundTrip.LosslessIntact | crates/cbor-worker/src/value_in.rs:32-201 | So every cell of a type with neither TIME_NS nor FLOAT in it is kept, whatever the platform |
| CopyRoundTrip.CutRun | crates/cbor-worker/src/copy/from.rs:222-248 | A file cut at any byte, with any sources behind it, in either format and row shape, canonical or not: when the cut is between rows and none before it is nested too deep, the run goes on behind them; otherwise it is refused or, with errors ignored, loads what the file of the rows before both loads, and nothing of the other sources |
| CopyRoundTrip.CutCopyBack | crates/cbor-worker/src/copy/from.rs:222-248 | So a table written without canonical order and cut at any byte gives, with errors ignored, the arrivals of exactly the rows before the cut and before a row nested too deep, and otherwise is refused exactly when those are not all there is before the cut or one of them cannot be carried |
| CopyRoundTrip.RowsBeforeIsLargest | crates/cbor-core/src/seq.rs:101-131 | The rows before a cut, and before a row nested too deep, are the largest number whose file fits |
| CanonicalTables.FileDeterministicIff | crates/cbor-worker/src/copy/common.rs:151-155 | With a canonical mode, in either row shape: all tables that are the same up to the order of MAP entries give the same file, byte for byte, if and only if in no row two entries of one MAP are written under one key without being written the same |
| CanonicalTables.RowDeterministicIff | crates/cbor-worker/src/copy/to.rs:182-200 | The same for the bytes of one row |
| CanonicalTables.CellShows | crates/cbor-core/src/codec/encode.rs:45-68 | A conflict in a cell, at any depth, shows in the table: some cell that differs in the order of MAP entries only has another canonical form |
| CanonicalTables.SameWritten | crates/cbor-worker/src/value_in.rs:32-201 | Cells that are the same up to the order of MAP entries are written as values that are the same up to the order of map entries |
| CanonicalTables.SameTyped | crates/cbor-worker/src/value_in.rs:32-201 | Such cells belong to the same types |
| CanonicalTables.NanosecondKeys | crates/cbor-worker/src/value_in.rs:138-146 | The concrete case: two TIME_NS keys within one microsecond are written under one key, so the order of their entries shows in the bytes |
| Cwt.Unwrap | crates/cbor-core/src/security/cwt.rs:63-81 | Any stack of self-describe tags, CWT tags and COSE messages around a claims map gives the claims of the bare map, exactly when every payload is nested within the decoder's limit |
| Cwt.EnvelopeClaims | crates/cbor-core/src/security/cwt.rs:58-61 | The same on bytes, trailing bytes allowed (section 6 of RFC 8392) |
| Cwt.ExtractAround | crates/cbor-core/src/security/cwt.rs:63-81 | One envelope does not change the claims, whatever tag a message has |
| Cwt.MessageBehindTags | crates/cbor-core/src/security/cose.rs:155-169 | Behind any number of CWT tags a message keeps its payload and signature; it reports its own tag behind at most one of them, and the CWT tag otherwise |
| Cwt.PayloadSmaller | crates/cbor-core/src/security/cose.rs:155-219 | A message's payload is shorter than the message's value is large: the measure that makes extraction end on every input |
| Cwt.ParsedFits | crates/cbor-core/src/security/cwt.rs:74-75 | The value decoded from a payload is no larger than the payload |
| Cwt.CwtClaims | crates/cbor-core/src/security/cwt.rs:84-118 | Each of iss, sub, aud, exp, nbf, iat and cti is the conversion of the last entry under the integer key 1 to 7, in this order, and absent when no entry has the key, even when an earlier one would convert; the other entries are one JSON object, which is absent when there are none |
| Cwt.ConversionForms | crates/cbor-core/src/security/cwt.rs:33-56 | What converts: texts, byte strings and integers into text, 64-bit integers and floats behind any tags into seconds, byte strings into the identifier |
| Cwt.EnvelopeForms | crates/cbor-core/src/security/cwt.rs:63-81 | Tags 55799 and 61 are looked through; any other tag must be on an array of at least three items with a byte string third; everything that is neither that nor a map is refused |
| Cwt.ExtraHolds | crates/cbor-core/src/security/cwt.rs:104-116 | The extra claims are ordered by printed key, and hold for every printed key the last entry that prints as it, and nothing else |
| Cwt.StripTransparent | crates/cbor-core/src/value.rs:169-179 | The loop reaches the value below self-describe tags, and never a larger one |
| Json.JsonRoundTrip | crates/cbor-core/src/codec/json.rs:24-44 | For every JSON tree with finite floats, converting to CBOR, ordering in either mode and rendering again is the identity, over the full 64-bit integer ranges |
| Json.JsonBytesRoundTrip | crates/cbor-core/src/codec/json.rs:84-91 | On bytes: what `from_json` writes is one item that renders as the tree, when the tree is nested within the limit |
| Json.LeafRoundTrip | crates/cbor-core/src/codec/json.rs:67-81 | Integers over the full unsigned and signed 64-bit ranges, finite floats, strings and literals come back |
| Json.ObjectHolds | crates/cbor-core/src/codec/json.rs:33-39 | Inserting entries with distinct text keys in any order yields one ordered object with exactly those members |
| Json.ObjectKeepsLast | crates/cbor-core/src/codec/json.rs:33-39 | Whatever the keys of a map, its object is ordered and holds for every rendered key the last entry of that key, and nothing else |
| Json.JsonForms | crates/cbor-core/src/codec/json.rs:24-81 | What every value renders as, behind any tags: integers as numbers from -2^63 to 2^64 - 1 and as text beyond, byte strings in base64, floats that are not finite as null, arrays by index |
| Json.BuildObject | crates/cbor-core/src/codec/json.rs:33-39 | The insertion loop builds that object |

## Left out

* The CBOR library is modelled by `ItemCodec`: indefinite lengths and half- and single-width floats on the wire are not accepted
  (`CodecForms.ReservedHeads`, `CodecForms.NarrowFloats`), and doubles are always written in full width. Its bignum shortcuts are
  not modelled: tags 2 and 3 stay tags.
* MessagePack bytes: the library is any codec that is self-delimiting and decodes what it encodes (`Rows.MpCodec`), including
  its own nesting limit (`carries`).
* Float arithmetic: the fallbacks that round are parameters, so only their range checks are modelled.
* Error texts, paths in errors, warnings, and the classification of messages.
* Object-store setup, secrets, URL and glob handling, the upload of the finished object, and everything about registration,
  options parsing and catalog metadata. A local file is a store that serves any prefix of each range.
* Stores: a response carries at least one byte before the end of the object, and the reported size is the object's.
* `Streaming.SeqReader` stands for `StreamReader` too: the item reader of MessagePack differs only in its decoder.
* Integer widths of lengths, offsets, counters and of `exponent + scale`: mathematical integers, so lists with 2^31 or more
  elements in one column are outside the model.
* `Date64` and `LargeList`, which are written but not read; decimal precision, nullability of columns other than MAP keys, time
  zones and the string and binary widths, which do not affect values; a fixed LIST of size 0, which DuckDB does not have.
* A table without columns: a COPY job is required to have at least one (`CopyFrom.Job.Valid`), as every DuckDB table has.
* COSE headers, message type names and recipients; the rendering of claims as text and of the extra claims object as JSON text; WebAuthn.
* The textual form of RFC 3339 dates, JSON parsing and printing, base64, diagnostic notation and schema inference.
* In-place sorting: `canonicalize` sorts a local vector with the standard library. The model sorts a sequence, and
  `Canonical.StableSortUnique` shows that any stable sort gives the same.
- ValueOut.BuildStructs: builds a STRUCT without fields, whose construction the column library may refuse; DuckDB has no such type.
- CopyRoundTrip.CopyBack: asks that each row can be written: for CBOR that lengths are below 2^64, for MessagePack that the
  library can encode it (`Rows.MpCodec`).
