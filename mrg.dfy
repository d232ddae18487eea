/** The `.mrg` level-file format as pure functions: each function takes the
    buffer and a cursor and returns what the decoder reads there together
    with the cursor after it, in the order the decoder reads it. The loops of
    the decoder appear as functions carrying the loop counter and the list
    built so far, so that each function describes the remaining iterations. */
module Mrg {
  import opened Bytes

  const LevelCount := 3
  const MaxTitleLength := 40
  const IntSize := 4
  const ShortSize := 2
  const ByteSize := 1
  /** An x delta of this value marks a point stored as a raw int32 pair. */
  const Escape := -1

  datatype Option<+T> = None | Some(value: T)

  datatype Point = Point(x: int, y: int)

  /** A track as the description table announces it: where its body starts
      and its title, kept as the raw (cp1251) bytes. */
  datatype Descriptor = Descriptor(offset: int, title: seq<byte>)

  datatype Track = Track(title: seq<byte>, start: Point, finish: Point,
                         pointsCount: int, points: seq<Point>)

  type Level = seq<Track>

  /** The decoded file: one list of tracks per level. */
  type Document = seq<Level>

  function Clamp0(n: int): nat
  {
    if n < 0 then 0 else n
  }

  /** ToInt32 of an integral number: the signed 32-bit integer congruent to
      `v` modulo 2^32. */
  function Wrap32(v: int): (r: int)
    ensures -0x8000_0000 <= r < 0x8000_0000
    ensures (r - v) % 0x1_0000_0000 == 0
  {
    (v + 0x8000_0000) % 0x1_0000_0000 - 0x8000_0000
  }

  /** `(n << 3) >> 16` in JavaScript: the left shift wraps to signed 32 bits,
      the right shift is arithmetic, i.e. a floor division by 2^16. */
  function ParseCoordinate(n: int): (r: int)
    ensures -0x8000 <= r < 0x8000
  {
    Wrap32(n * 8) / 0x1_0000
  }

  /** Two consecutive fields of `width` bytes read as an (x, y) pair, each
      passed through ParseCoordinate when `decompress` is set. */
  function PairAt(buf: seq<byte>, at: int, width: Width, decompress: bool): Parsed<Point>
  {
    match IntAt(buf, at, width)
    case OutOfBounds => OutOfBounds
    case Parsed(x, afterX) =>
      match IntAt(buf, afterX, width)
      case OutOfBounds => OutOfBounds
      case Parsed(y, next) =>
        if decompress then Parsed(Point(ParseCoordinate(x), ParseCoordinate(y)), next)
        else Parsed(Point(x, y), next)
  }

  /** The title scan with `nameBytes` collected so far: stops after 40 bytes,
      or at a zero byte, which it consumes without keeping. The signed byte
      is kept modulo 256, as the Buffer built from the collected bytes keeps it. */
  function TitleFrom(buf: seq<byte>, at: int, nameBytes: seq<byte>): Parsed<seq<byte>>
    requires |nameBytes| <= MaxTitleLength
    decreases MaxTitleLength - |nameBytes|
  {
    if |nameBytes| == MaxTitleLength then Parsed(nameBytes, at)
    else
      match IntAt(buf, at, ByteSize)
      case OutOfBounds => OutOfBounds
      case Parsed(b, next) =>
        if b == 0 then Parsed(nameBytes, next)
        else TitleFrom(buf, next, nameBytes + [b % 0x100])
  }

  /** One entry of the description table: an int32 offset and a title. */
  function DescriptorAt(buf: seq<byte>, at: int): Parsed<Descriptor>
  {
    match IntAt(buf, at, IntSize)
    case OutOfBounds => OutOfBounds
    case Parsed(offset, afterOffset) =>
      match TitleFrom(buf, afterOffset, [])
      case OutOfBounds => OutOfBounds
      case Parsed(title, next) => Parsed(Descriptor(offset, title), next)
  }

  /** Iterations `i` up to `count` of a level's descriptor loop. */
  function DescriptorsFrom(buf: seq<byte>, at: int, i: int, count: int, level: seq<Descriptor>)
    : Parsed<seq<Descriptor>>
    decreases count - i
  {
    if i >= count then Parsed(level, at)
    else
      match DescriptorAt(buf, at)
      case OutOfBounds => OutOfBounds
      case Parsed(d, next) => DescriptorsFrom(buf, next, i + 1, count, level + [d])
  }

  /** One level's block of the description table: an int32 track count and
      that many descriptors (none when the count is not positive). */
  function LevelAt(buf: seq<byte>, at: int): Parsed<seq<Descriptor>>
  {
    match IntAt(buf, at, IntSize)
    case OutOfBounds => OutOfBounds
    case Parsed(count, next) => DescriptorsFrom(buf, next, 0, count, [])
  }

  /** The remaining level blocks of the description table after `table`. */
  function DescriptionsFrom(buf: seq<byte>, at: int, table: seq<seq<Descriptor>>)
    : Parsed<seq<seq<Descriptor>>>
    requires |table| <= LevelCount
    decreases LevelCount - |table|
  {
    if |table| == LevelCount then Parsed(table, at)
    else
      match LevelAt(buf, at)
      case OutOfBounds => OutOfBounds
      case Parsed(level, next) => DescriptionsFrom(buf, next, table + [level])
  }

  /** Phase 1: the description table, read from the start of the buffer. */
  function Descriptions(buf: seq<byte>): Parsed<seq<seq<Descriptor>>>
  {
    DescriptionsFrom(buf, 0, [])
  }

  /** One step of the point loop after `last`: a signed byte pair is a delta
      from `last`, unless its x byte is -1, in which case the cursor steps
      back one byte and a raw int32 pair is the new point. */
  function PointStep(buf: seq<byte>, at: int, last: Point): Parsed<Point>
  {
    match PairAt(buf, at, ByteSize, false)
    case OutOfBounds => OutOfBounds
    case Parsed(delta, next) =>
      if delta.x == Escape then PairAt(buf, next - ByteSize, IntSize, false)
      else Parsed(Point(delta.x + last.x, delta.y + last.y), next)
  }

  /** Iterations `k` up to `pointsCount - 1` (exclusive) of the point loop. */
  function PointsFrom(buf: seq<byte>, at: int, k: int, pointsCount: int, points: seq<Point>)
    : Parsed<seq<Point>>
    requires points != []
    decreases pointsCount - 1 - k
  {
    if k >= pointsCount - 1 then Parsed(points, at)
    else
      match PointStep(buf, at, points[|points| - 1])
      case OutOfBounds => OutOfBounds
      case Parsed(p, next) => PointsFrom(buf, next, k + 1, pointsCount, points + [p])
  }

  /** A track body at its descriptor's offset: a marker byte, the start and
      finish pairs (decompressed), an int16 point count, a raw first point
      and the point loop. */
  function TrackAt(buf: seq<byte>, d: Descriptor): Parsed<Track>
  {
    match IntAt(buf, d.offset, ByteSize)
    case OutOfBounds => OutOfBounds
    case Parsed(_, afterMark) =>
      match PairAt(buf, afterMark, IntSize, true)
      case OutOfBounds => OutOfBounds
      case Parsed(start, afterStart) =>
        match PairAt(buf, afterStart, IntSize, true)
        case OutOfBounds => OutOfBounds
        case Parsed(finish, afterFinish) =>
          match IntAt(buf, afterFinish, ShortSize)
          case OutOfBounds => OutOfBounds
          case Parsed(pointsCount, afterCount) =>
            match PairAt(buf, afterCount, IntSize, false)
            case OutOfBounds => OutOfBounds
            case Parsed(first, afterFirst) =>
              match PointsFrom(buf, afterFirst, 1, pointsCount, [first])
              case OutOfBounds => OutOfBounds
              case Parsed(points, next) =>
                Parsed(Track(d.title, start, finish, pointsCount, points), next)
  }

  /** The tracks of one level after those already in `level`, in descriptor order. */
  function LevelTracksFrom(buf: seq<byte>, descriptors: seq<Descriptor>, level: Level): Option<Level>
    requires |level| <= |descriptors|
    decreases |descriptors| - |level|
  {
    if |level| == |descriptors| then Some(level)
    else
      match TrackAt(buf, descriptors[|level|])
      case OutOfBounds => None
      case Parsed(track, _) => LevelTracksFrom(buf, descriptors, level + [track])
  }

  /** Phase 2 for the levels after those already in `levels`. */
  function LevelsFrom(buf: seq<byte>, table: seq<seq<Descriptor>>, levels: Document): Option<Document>
    requires |levels| <= |table|
    decreases |table| - |levels|
  {
    if |levels| == |table| then Some(levels)
    else
      match LevelTracksFrom(buf, table[|levels|], [])
      case None => None
      case Some(level) => LevelsFrom(buf, table, levels + [level])
  }

  /** The whole decode: the description table, then every track body; any
      read outside the buffer makes the whole decode fail. */
  function Decode(buf: seq<byte>): Option<Document>
  {
    match Descriptions(buf)
    case OutOfBounds => None
    case Parsed(table, _) => LevelsFrom(buf, table, [])
  }
}
