/** The decoder as the exported function runs it: one buffer, one mutable
    cursor advanced by every read, lists grown inside loops. Each method is
    proved to do what the matching function of module Mrg describes. */
module MrgDecoder {
  import opened Bytes
  import opened Mrg

  /** The buffer being decoded and the single cursor into it. */
  class Cursor {
    const buf: seq<byte>
    var offset: int

    constructor (buf: seq<byte>)
      ensures this.buf == buf && offset == 0
    {
      this.buf := buf;
      offset := 0;
    }

    /** A `width`-byte signed read at the cursor; on success the cursor moves
        past the field, on failure it stays where it was. */
    method ReadIntBE(width: Width) returns (v: Option<int>)
      modifies this
      ensures IntAt(buf, old(offset), width) == if v.Some? then Parsed(v.value, offset) else OutOfBounds
      ensures v.None? ==> offset == old(offset)
    {
      var r := IntAt(buf, offset, width);
      if r.OutOfBounds? {
        return None;
      }
      v := Some(r.value);
      offset := offset + width;
    }

    method ReadInt() returns (v: Option<int>)
      modifies this
      ensures IntAt(buf, old(offset), IntSize) == if v.Some? then Parsed(v.value, offset) else OutOfBounds
      ensures v.None? ==> offset == old(offset)
    {
      v := ReadIntBE(IntSize);
    }

    method ReadByte() returns (v: Option<int>)
      modifies this
      ensures IntAt(buf, old(offset), ByteSize) == if v.Some? then Parsed(v.value, offset) else OutOfBounds
      ensures v.None? ==> offset == old(offset)
    {
      v := ReadIntBE(ByteSize);
    }

    method ReadShort() returns (v: Option<int>)
      modifies this
      ensures IntAt(buf, old(offset), ShortSize) == if v.Some? then Parsed(v.value, offset) else OutOfBounds
      ensures v.None? ==> offset == old(offset)
    {
      v := ReadIntBE(ShortSize);
    }

    /** Two int32 reads as an (x, y) pair, decompressed when asked. */
    method ReadIntCoordinates(decompress: bool) returns (p: Option<Point>)
      modifies this
      ensures PairAt(buf, old(offset), IntSize, decompress) == if p.Some? then Parsed(p.value, offset) else OutOfBounds
    {
      var x := ReadInt();
      if x.None? {
        return None;
      }
      var y := ReadInt();
      if y.None? {
        return None;
      }
      if decompress {
        p := Some(Point(ParseCoordinate(x.value), ParseCoordinate(y.value)));
      } else {
        p := Some(Point(x.value, y.value));
      }
    }

    /** Two signed byte reads as an (x, y) pair, decompressed when asked. */
    method ReadByteCoordinates(decompress: bool) returns (p: Option<Point>)
      modifies this
      ensures PairAt(buf, old(offset), ByteSize, decompress) == if p.Some? then Parsed(p.value, offset) else OutOfBounds
    {
      var x := ReadByte();
      if x.None? {
        return None;
      }
      var y := ReadByte();
      if y.None? {
        return None;
      }
      if decompress {
        p := Some(Point(ParseCoordinate(x.value), ParseCoordinate(y.value)));
      } else {
        p := Some(Point(x.value, y.value));
      }
    }

    /** The title bytes of one descriptor: at most 40, up to a zero byte. */
    method ReadTitle() returns (title: Option<seq<byte>>)
      modifies this
      ensures TitleFrom(buf, old(offset), []) == if title.Some? then Parsed(title.value, offset) else OutOfBounds
    {
      var nameBytes: seq<byte> := [];
      while |nameBytes| < MaxTitleLength
        invariant |nameBytes| <= MaxTitleLength
        invariant TitleFrom(buf, offset, nameBytes) == TitleFrom(buf, old(offset), [])
      {
        ghost var at := offset;
        var b := ReadByte();
        if b.None? {
          return None;
        }
        if b.value == 0 {
          assert TitleFrom(buf, at, nameBytes) == Parsed(nameBytes, offset);
          return Some(nameBytes);
        }
        nameBytes := nameBytes + [b.value % 0x100];
      }
      title := Some(nameBytes);
    }

    /** The point loop of a track body after its raw first point: signed
        byte deltas, or on an x byte of -1 a step back and a raw int32 pair.
        It runs `pointsCount - 2` times. */
    method ReadPoints(pointsCount: int, first: Point) returns (points: Option<seq<Point>>)
      modifies this
      ensures PointsFrom(buf, old(offset), 1, pointsCount, [first]) ==
        if points.Some? then Parsed(points.value, offset) else OutOfBounds
    {
      var acc := [first];
      var k := 1;
      while k < pointsCount - 1
        invariant acc != []
        invariant PointsFrom(buf, offset, k, pointsCount, acc) == PointsFrom(buf, old(offset), 1, pointsCount, [first])
        decreases pointsCount - 1 - k
      {
        ghost var at := offset;
        ghost var last := acc[|acc| - 1];
        var point := ReadByteCoordinates(false);
        if point.None? {
          return None;
        }
        if point.value.x == Escape {
          offset := offset - ByteSize;
          var raw := ReadIntCoordinates(false);
          assert PointStep(buf, at, last) == if raw.Some? then Parsed(raw.value, offset) else OutOfBounds;
          if raw.None? {
            return None;
          }
          acc := acc + [raw.value];
          k := k + 1;
          continue;
        }
        var lastPoint := acc[|acc| - 1];
        acc := acc + [Point(point.value.x + lastPoint.x, point.value.y + lastPoint.y)];
        k := k + 1;
      }
      points := Some(acc);
    }

    /** The body of the track `d` announces: the cursor jumps to its offset. */
    method ReadTrack(d: Descriptor) returns (track: Option<Track>)
      modifies this
      ensures TrackAt(buf, d) == if track.Some? then Parsed(track.value, offset) else OutOfBounds
    {
      offset := d.offset;
      var mark := ReadByte();
      if mark.None? {
        return None;
      }
      var start := ReadIntCoordinates(true);
      if start.None? {
        return None;
      }
      var finish := ReadIntCoordinates(true);
      if finish.None? {
        return None;
      }
      var pointsCount := ReadShort();
      if pointsCount.None? {
        return None;
      }
      var first := ReadIntCoordinates(false);
      if first.None? {
        return None;
      }
      var points := ReadPoints(pointsCount.value, first.value);
      if points.None? {
        return None;
      }
      track := Some(Track(d.title, start.value, finish.value, pointsCount.value, points.value));
    }
  }

  /** Decodes a whole `.mrg` buffer: phase 1 reads the description table of
      the three levels, phase 2 decodes every track body it points to. */
  method DecodeBuffer(file: seq<byte>) returns (levels: Option<Document>)
    ensures levels == Decode(file)
  {
    var c := new Cursor(file);
    var levelsDescription: seq<seq<Descriptor>> := [];
    var i := 0;
    while i < LevelCount
      invariant i == |levelsDescription| <= LevelCount
      invariant DescriptionsFrom(file, c.offset, levelsDescription) == Descriptions(file)
    {
      ghost var levelStart := c.offset;
      var count := c.ReadInt();
      if count.None? {
        return None;
      }
      var level: seq<Descriptor> := [];
      var j := 0;
      while j < count.value
        invariant DescriptorsFrom(file, c.offset, j, count.value, level) == LevelAt(file, levelStart)
        decreases count.value - j
      {
        ghost var at := c.offset;
        var trackOffset := c.ReadInt();
        if trackOffset.None? {
          return None;
        }
        var title := c.ReadTitle();
        if title.None? {
          return None;
        }
        assert DescriptorAt(file, at) == Parsed(Descriptor(trackOffset.value, title.value), c.offset);
        level := level + [Descriptor(trackOffset.value, title.value)];
        j := j + 1;
      }
      levelsDescription := levelsDescription + [level];
      i := i + 1;
    }

    var result: Document := [];
    i := 0;
    while i < LevelCount
      invariant i == |result| <= LevelCount
      invariant LevelsFrom(file, levelsDescription, result) == Decode(file)
    {
      var level: Level := [];
      var j := 0;
      while j < |levelsDescription[i]|
        invariant j == |level| <= |levelsDescription[i]|
        invariant LevelTracksFrom(file, levelsDescription[i], level) == LevelTracksFrom(file, levelsDescription[i], [])
      {
        var track := c.ReadTrack(levelsDescription[i][j]);
        if track.None? {
          return None;
        }
        level := level + [track.value];
        j := j + 1;
      }
      result := result + [level];
      i := i + 1;
    }
    levels := Some(result);
  }
}
