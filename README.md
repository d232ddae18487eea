# gd-parser `.mrg` decoder in Dafny

This project models the decoder of `.mrg` level files (the level packs of
Gravity Defied) as the exported function of `index.js` implements it, and
proves properties of it.

The decoder walks a byte buffer with one mutable cursor, in two phases:

- **Phase 1, the description table.** Three times, once per level, it reads
  an int32 track count. For each track it then reads an int32 absolute offset
  and a title. The title runs for at most 40 bytes and ends early at a zero
  byte.
- **Phase 2, the track bodies.** For every descriptor, in table order, the
  cursor jumps to the descriptor's offset. There it reads a marker byte, the
  start and finish pairs (int32s passed through `parseCoordinate`), an int16
  `pointsCount` and a raw int32 first point. Then comes the point loop: signed
  byte deltas, where an x byte of -1 makes the cursor step back one byte and
  read a raw int32 pair instead.

All reads are big-endian and signed. A read that does not lie wholly inside
the buffer raises a RangeError, which aborts the whole decode.

Files:

- `bytes.dfy`, module `Bytes`: the fixed-width reads of Node's
  `Buffer.readIntBE` as a function `IntAt`, with the inverse encoding
  `EncodeBE` and the round trip between them.
- `mrg.dfy`, module `Mrg`: the entities (`Point`, `Descriptor`, `Track`,
  `Document`) and the whole format as pure functions. Each function takes the
  buffer and a cursor and returns the value read with the cursor after it, or
  `OutOfBounds`. The loops of the decoder appear as functions that carry the
  loop counter and the list built so far.
- `decoder.dfy`, module `MrgDecoder`: the decoder in the source's own
  imperative form. Class `Cursor` holds the buffer and the mutable `offset`.
  Its read methods advance the offset, and `ReadTitle`, `ReadPoints` and
  `ReadTrack` hold the inner loops. Method `DecodeBuffer` runs both phases with
  nested loops. Every method is proved to agree with the matching `Mrg`
  function.
- `mrg_lemmas.dfy`, module `MrgLemmas`: the properties of those functions.

Despite its name, `pointsCount` is not the number of points the code builds,
and this model follows the code. The loop at
`index.js:71` runs from `k = 1` while `k < pointsCount - 1`, after a single
raw first point. A track therefore holds `1 + max(0, pointsCount - 2)`
points: one fewer than `pointsCount` whenever `pointsCount >= 2`
(`MrgLemmas.TrackLayout`, `MrgLemmas.CountTwoGivesOnePoint`). The escape test
looks only at the x byte (`index.js:74`). A real delta of -1 in x therefore
cannot be encoded, and the model keeps that rule as written.

## Model

| member | source | states |
|---|---|---|
| `Bytes.SignedBE` | index.js:106-125 | the value `Bytes.IntAt` (`readIntBE`: the field, or a failure when it does not lie inside the buffer) yields; a signed read of width 1, 2 or 4 bytes lies in the two's-complement range of that width |
| `Bytes.ReadEncoded` | index.js:106-125 | reading back the big-endian two's-complement encoding of any value of the width, placed anywhere in a buffer, yields that value and moves the cursor by exactly the width |
| `Bytes.SignedBEDigits` | index.js:106-125 | the int8, int16 and int32 reads combine the bytes most significant first, then reinterpret them as signed |
| `Bytes.SignedByte` | index.js:113-118 | a signed byte read is -1 exactly for 0xFF and 0 exactly for 0x00, and taken modulo 256 it is the raw byte again |
| `MrgDecoder.Cursor.ReadIntBE` | index.js:106-125 | the read is exactly `Bytes.IntAt` at the cursor: it fails exactly when the field starts before the buffer or runs past its end; on success it returns the field and moves the cursor past it; on failure the cursor stays put |
| `MrgDecoder.Cursor.ReadInt` | index.js:106-111 | a 4-byte read at the cursor, as above |
| `MrgDecoder.Cursor.ReadByte` | index.js:113-118 | a 1-byte read at the cursor, as above |
| `MrgDecoder.Cursor.ReadShort` | index.js:120-125 | a 2-byte read at the cursor, as above |
| `MrgDecoder.Cursor.ReadIntCoordinates` | index.js:127-139 | exactly `Mrg.PairAt` with width 4: two int32 reads as an (x, y) pair, each passed through the coordinate transform when `decompress` is set |
| `MrgDecoder.Cursor.ReadByteCoordinates` | index.js:141-153 | exactly `Mrg.PairAt` with width 1: two signed byte reads as an (x, y) pair, each transformed when `decompress` is set |
| `MrgDecoder.Cursor.ReadTitle` | index.js:30-39 | the title loop returns and consumes exactly what the title scan `Mrg.TitleFrom` describes, or fails with it |
| `MrgDecoder.Cursor.ReadPoints` | index.js:70-86 | the point loop returns and consumes exactly what `Mrg.PointsFrom` describes (one `Mrg.PointStep` per iteration), or fails with it |
| `MrgDecoder.Cursor.ReadTrack` | index.js:61-94 | decoding a track body whatever the cursor was before: it yields the track `Mrg.TrackAt` describes for the descriptor and leaves the cursor where that body ends, or fails with it |
| `MrgDecoder.DecodeBuffer` | index.js:18-102 | the two-phase decode returns exactly `Mrg.Decode(file)`, its phase 1 loops agreeing with `Mrg.DescriptionsFrom`, `Mrg.LevelAt` and `Mrg.DescriptorAt` and its phase 2 loops with `Mrg.LevelsFrom` and `Mrg.LevelTracksFrom`: the document when every read fits, the failure otherwise |
| `Mrg.Wrap32` | index.js:155-157 | the 32-bit wrap of the left shift yields the signed 32-bit integer congruent to its input modulo 2^32 |
| `Mrg.ParseCoordinate` | index.js:155-157 | `(n << 3) >> 16` always lies in [-32768, 32767] |
| `MrgLemmas.ParseCoordinateUnscales` | index.js:155-157 | when `n << 3` does not overflow, the transform is floor(n / 2^13), i.e. it drops 13 fractional bits |
| `MrgLemmas.ParseCoordinateWraps` | index.js:155-157 | inputs 2^29 apart give the same coordinate, because the shift keeps only 32 bits |
| `MrgLemmas.TitleScan` | index.js:33-39 | the scan yields `title` and stops at `next` if and only if `title` is the run of buffer bytes at the cursor, at most 40 long, containing no zero byte, and either 40 long with `next` 40 bytes on, or shorter and followed by a zero byte that is consumed but not kept |
| `MrgLemmas.TitleExtent` | index.js:33-39 | a title scan that succeeds consumes between 1 and 40 bytes, all inside the buffer |
| `MrgLemmas.DescriptorsFromCount` | index.js:28-51 | the descriptor loop appends max(0, count - i) descriptors after those already read and keeps those, each one taking at least 5 bytes |
| `MrgLemmas.LevelTrackCount` | index.js:25-51 | a level block (`Mrg.LevelAt`, its entries read by `Mrg.DescriptorAt`) holds max(0, count) descriptors, where count is the int32 at its start |
| `MrgLemmas.DescriptionTable` | index.js:23-54 | phase 1 (`Mrg.DescriptionsFrom` over `Mrg.LevelAt` blocks) succeeds exactly when the blocks of the three levels parse one after another from offset 0; it then yields three lists, list i being the block that starts where block i - 1 ended |
| `MrgLemmas.NoTracks` | index.js:23-60 | if all three counts are zero or negative, phase 1 ends after exactly 12 bytes and the decode yields three empty levels |
| `MrgLemmas.ShortBufferFails` | index.js:23-25 | a buffer shorter than the three int32 counts (12 bytes) does not decode |
| `MrgLemmas.DeltaStep` | index.js:72-85 | the step `Mrg.PointStep`: when the x byte is not 0xFF, whatever the y byte, the new point is the previous point plus the two signed bytes, and the cursor moves 2 bytes |
| `MrgLemmas.EscapeStep` | index.js:72-77 | when the x byte is 0xFF, the new point is the raw int32 pair that starts 1 byte into the step, and the step ends exactly 9 bytes after it began; if those 9 bytes do not fit, the step fails |
| `MrgLemmas.PointsFromCount` | index.js:70-71 | the point loop appends exactly max(0, pointsCount - 1 - k) points to those already present and keeps those |
| `MrgLemmas.PointsTrace` | index.js:70-86 | each appended point is one delta-or-escape step from the point before it, at consecutive cursors, so later deltas are relative to a point an escape stored |
| `MrgLemmas.TrackLayout` | index.js:61-71 | a decoded track starts at its descriptor's offset and carries the descriptor's title. Its start and finish are the transformed int32s at offsets 1, 5, 9 and 13. Its `pointsCount` is the int16 at offset 17, and its first point is the raw int32 pair at 19 and 23. The point loop begins 27 bytes in, and the track has 1 + max(0, pointsCount - 2) points |
| `MrgLemmas.TruncatedTrackFails` | index.js:61-68 | a track whose 27-byte header does not fit in the buffer fails |
| `MrgLemmas.CountTwoGivesOnePoint` | index.js:66-71 | a track with `pointsCount` 2 decodes after its header with no loop iteration and holds the raw first point alone |
| `MrgLemmas.LevelTracks` | index.js:60-97 | a level's tracks (`Mrg.LevelTracksFrom`) exist exactly when every descriptor's body decodes; there is one track per descriptor, in descriptor order |
| `MrgLemmas.DecodeSucceeds` | index.js:18-102 | the decode (`Mrg.LevelsFrom` over the table) succeeds if and only if the description table parses and every track body it points to decodes |
| `MrgLemmas.DecodeShape` | index.js:23-99 | a decoded document has exactly 3 levels. Level i has max(0, count_i) tracks, where count_i is the int32 at the start of level i's block. Track j of level i is the body of descriptor j of that level and carries its title |

## Left out

- Reading the file (`fs.readFileAsync`, bluebird promisification, the `async`
  wrapper) is I/O: the model takes the file's bytes as its input.
- The cp1251 to UTF-8 conversion of titles through `iconv-lite` and
  `new Buffer` is a foreign library. A title is kept as its raw bytes. These
  are the signed bytes read, taken modulo 256, just as `new Buffer` stores
  them before the conversion.
- The kind and message of Node's `RangeError` are not modelled. Every failed
  read gives one failure outcome (`OutOfBounds`, or `None` for the whole
  decode), and no partial document is returned.
- JSON serialisation of the result, and the example script that writes it to
  disk, are output glue. The example script also calls a `readFromFile` export
  that `index.js` does not define.
- JavaScript numbers are doubles. The model uses unbounded integers. Every
  value the decoder computes is a sum of one int32 and at most 32765 signed
  bytes, so it stays far inside the exactly representable range.
