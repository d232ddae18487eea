/** Properties of the `.mrg` format functions: what the title scan keeps,
    how many descriptors, tracks and points each loop yields, where each
    track field lies, and what the delta and escape steps compute. */
module MrgLemmas {
  import opened Bytes
  import opened Mrg

  // ---------------------------------------------------------------- coordinates

  /** Without 32-bit overflow of `n << 3`, ParseCoordinate is the floor of
      n / 2^13: a fixed-point value with 13 fractional bits, unscaled. */
  lemma ParseCoordinateUnscales(n: int)
    requires -0x1000_0000 <= n < 0x1000_0000
    ensures ParseCoordinate(n) == n / 0x2000
  {
  }

  /** The left shift keeps only 32 bits: inputs that differ by 2^29 give the
      same coordinate. */
  lemma ParseCoordinateWraps(n: int)
    ensures ParseCoordinate(n + 0x2000_0000) == ParseCoordinate(n)
  {
  }

  // ---------------------------------------------------------------- titles

  /** A title of `title` occupying the bytes from `at`, with the scan ending
      at `next`: the raw bytes, none of them zero, at most 40; a shorter
      title is followed by a zero byte the scan also consumes. */
  ghost predicate IsTitleAt(buf: seq<byte>, at: int, title: seq<byte>, next: int)
  {
    && 0 <= at
    && |title| <= MaxTitleLength
    && at + |title| <= |buf|
    && title == buf[at..at + |title|]
    && 0 !in title
    && if |title| < MaxTitleLength then
         at + |title| < |buf| && buf[at + |title|] == 0 && next == at + |title| + 1
       else
         next == at + MaxTitleLength
  }

  lemma {:induction false} TitleFromSound(buf: seq<byte>, at: int, nameBytes: seq<byte>, title: seq<byte>, next: int)
    requires 0 <= at && |nameBytes| <= MaxTitleLength && at + |nameBytes| <= |buf|
    requires nameBytes == buf[at..at + |nameBytes|] && 0 !in nameBytes
    requires TitleFrom(buf, at + |nameBytes|, nameBytes) == Parsed(title, next)
    ensures IsTitleAt(buf, at, title, next)
    decreases MaxTitleLength - |nameBytes|
  {
    var cur := at + |nameBytes|;
    if |nameBytes| < MaxTitleLength {
      SignedByte(buf, cur);
      var b := SignedBE(buf, cur, 1);
      if b != 0 {
        var more := nameBytes + [buf[cur]];
        assert more == buf[at..at + |more|];
        TitleFromSound(buf, at, more, title, next);
      }
    }
  }

  lemma {:induction false} TitleFromComplete(buf: seq<byte>, at: int, nameBytes: seq<byte>, title: seq<byte>, next: int)
    requires IsTitleAt(buf, at, title, next)
    requires |nameBytes| <= |title| && nameBytes == title[..|nameBytes|]
    ensures TitleFrom(buf, at + |nameBytes|, nameBytes) == Parsed(title, next)
    decreases MaxTitleLength - |nameBytes|
  {
    var cur := at + |nameBytes|;
    if |nameBytes| < MaxTitleLength {
      SignedByte(buf, cur);
      if |nameBytes| < |title| {
        assert buf[cur] == title[|nameBytes|];
        assert buf[cur] != 0;
        var more := nameBytes + [buf[cur]];
        assert more == title[..|more|];
        TitleFromComplete(buf, at, more, title, next);
      } else {
        assert nameBytes == title;
      }
    } else {
      assert nameBytes == title;
    }
  }

  /** The title scan reads `title` and stops at `next` exactly when those
      are the zero-free run of at most 40 bytes described by IsTitleAt. */
  lemma TitleScan(buf: seq<byte>, at: int, title: seq<byte>, next: int)
    ensures TitleFrom(buf, at, []) == Parsed(title, next) <==> IsTitleAt(buf, at, title, next)
  {
    if TitleFrom(buf, at, []) == Parsed(title, next) {
      assert InBounds(buf, at, 1);
      TitleFromSound(buf, at, [], title, next);
    }
    if IsTitleAt(buf, at, title, next) {
      TitleFromComplete(buf, at, [], title, next);
    }
  }

  /** A successful title scan consumes between 1 and 40 bytes, all inside the buffer. */
  lemma TitleExtent(buf: seq<byte>, at: int)
    requires TitleFrom(buf, at, []).Parsed?
    ensures at + 1 <= TitleFrom(buf, at, []).next <= at + MaxTitleLength
    ensures TitleFrom(buf, at, []).next <= |buf|
  {
    var r := TitleFrom(buf, at, []);
    TitleScan(buf, at, r.value, r.next);
  }

  // ---------------------------------------------------------------- description table

  /** The descriptor loop adds one descriptor per remaining iteration
      (none when `count <= i`) after those already collected, each taking
      at least 5 bytes. */
  lemma {:induction false} DescriptorsFromCount(buf: seq<byte>, at: int, i: int, count: int, level: seq<Descriptor>)
    requires at <= |buf|
    requires DescriptorsFrom(buf, at, i, count, level).Parsed?
    ensures var r := DescriptorsFrom(buf, at, i, count, level);
      && |r.value| == |level| + Clamp0(count - i)
      && r.value[..|level|] == level
      && at + 5 * Clamp0(count - i) <= r.next <= |buf|
    decreases count - i
  {
    if i < count {
      var d := DescriptorAt(buf, at);
      assert InBounds(buf, at, 4);
      TitleExtent(buf, at + 4);
      DescriptorsFromCount(buf, d.next, i + 1, count, level + [d.value]);
      var r := DescriptorsFrom(buf, d.next, i + 1, count, level + [d.value]);
      assert r.value[..|level|] == (r.value[..|level| + 1])[..|level|];
    }
  }

  /** A level block holds exactly max(0, count) descriptors, where count is
      the int32 at its start, and spans at least 4 + 5 bytes per descriptor. */
  lemma LevelTrackCount(buf: seq<byte>, at: int)
    requires LevelAt(buf, at).Parsed?
    ensures InBounds(buf, at, IntSize)
    ensures |LevelAt(buf, at).value| == Clamp0(SignedBE(buf, at, IntSize))
    ensures at + IntSize + 5 * |LevelAt(buf, at).value| <= LevelAt(buf, at).next <= |buf|
  {
    assert InBounds(buf, at, IntSize);
    DescriptorsFromCount(buf, at + IntSize, 0, SignedBE(buf, at, IntSize), []);
  }

  /** Where the block of level `i` of the description table begins: right
      after the block of level i - 1 (-1, outside any buffer, once an
      earlier block does not parse). */
  ghost function LevelStart(buf: seq<byte>, i: nat): int
  {
    if i == 0 then 0
    else
      match LevelAt(buf, LevelStart(buf, i - 1))
      case OutOfBounds => -1
      case Parsed(_, next) => next
  }

  lemma {:induction false} DescriptionsFromLayout(buf: seq<byte>, table: seq<seq<Descriptor>>)
    requires |table| <= LevelCount
    requires DescriptionsFrom(buf, LevelStart(buf, |table|), table).Parsed?
    ensures var r := DescriptionsFrom(buf, LevelStart(buf, |table|), table);
      && |r.value| == LevelCount
      && r.value[..|table|] == table
      && r.next == LevelStart(buf, LevelCount)
      && forall i | |table| <= i < LevelCount ::
           LevelAt(buf, LevelStart(buf, i)).Parsed? && LevelAt(buf, LevelStart(buf, i)).value == r.value[i]
    decreases LevelCount - |table|
  {
    var n := |table|;
    if n < LevelCount {
      var l := LevelAt(buf, LevelStart(buf, n));
      var r := DescriptionsFrom(buf, l.next, table + [l.value]);
      assert LevelStart(buf, n + 1) == l.next;
      assert DescriptionsFrom(buf, LevelStart(buf, n), table) == r;
      DescriptionsFromLayout(buf, table + [l.value]);
      assert r.value[..n] == r.value[..n + 1][..n];
      forall i | n <= i < LevelCount
        ensures LevelAt(buf, LevelStart(buf, i)).Parsed? && LevelAt(buf, LevelStart(buf, i)).value == r.value[i]
      {
        if i == n {
          assert r.value[..n + 1][n] == l.value;
        }
      }
    }
  }

  lemma {:induction false} DescriptionsFromParse(buf: seq<byte>, table: seq<seq<Descriptor>>)
    requires |table| <= LevelCount
    requires forall i | |table| <= i < LevelCount :: LevelAt(buf, LevelStart(buf, i)).Parsed?
    ensures DescriptionsFrom(buf, LevelStart(buf, |table|), table).Parsed?
    decreases LevelCount - |table|
  {
    if |table| < LevelCount {
      var n := |table|;
      var l := LevelAt(buf, LevelStart(buf, n));
      assert LevelStart(buf, n + 1) == l.next;
      DescriptionsFromParse(buf, table + [l.value]);
    }
  }

  /** Phase 1 succeeds exactly when the blocks of the three levels parse one
      after the other from offset 0 (each level's block starting where the
      previous one ended), and yields those three blocks. */
  lemma DescriptionTable(buf: seq<byte>)
    ensures (forall i | 0 <= i < LevelCount :: LevelAt(buf, LevelStart(buf, i)).Parsed?) ==> Descriptions(buf).Parsed?
    ensures Descriptions(buf).Parsed? ==>
      && (forall i | 0 <= i < LevelCount :: LevelAt(buf, LevelStart(buf, i)).Parsed?)
      && |Descriptions(buf).value| == LevelCount
      && Descriptions(buf).next == LevelStart(buf, LevelCount)
      && forall i | 0 <= i < LevelCount :: LevelAt(buf, LevelStart(buf, i)).value == Descriptions(buf).value[i]
  {
    var none: seq<seq<Descriptor>> := [];
    assert LevelStart(buf, |none|) == 0;
    if Descriptions(buf).Parsed? {
      DescriptionsFromLayout(buf, none);
    }
    if forall i | 0 <= i < LevelCount :: LevelAt(buf, LevelStart(buf, i)).Parsed? {
      DescriptionsFromParse(buf, none);
    }
  }

  /** When all three track counts are zero or negative the table holds three
      empty levels and ends after exactly the 12 bytes of the counts, and
      the decode yields three empty levels. */
  lemma NoTracks(buf: seq<byte>)
    requires |buf| >= 12
    requires SignedBE(buf, 0, 4) <= 0 && SignedBE(buf, 4, 4) <= 0 && SignedBE(buf, 8, 4) <= 0
    ensures Descriptions(buf) == Parsed([[], [], []], 12)
    ensures Decode(buf) == Some([[], [], []])
  {
    var noDescriptors: seq<Descriptor> := [];
    var noTracks: Level := [];
    assert LevelAt(buf, 0) == Parsed(noDescriptors, 4);
    assert LevelAt(buf, 4) == Parsed(noDescriptors, 8);
    assert LevelAt(buf, 8) == Parsed(noDescriptors, 12);
    var t1, t2, t3 := [noDescriptors], [noDescriptors, noDescriptors], [noDescriptors, noDescriptors, noDescriptors];
    assert t1 + [noDescriptors] == t2 && t2 + [noDescriptors] == t3;
    assert DescriptionsFrom(buf, 12, t3) == Parsed(t3, 12);
    assert DescriptionsFrom(buf, 8, t2) == Parsed(t3, 12);
    assert DescriptionsFrom(buf, 4, t1) == Parsed(t3, 12);
    assert LevelTracksFrom(buf, noDescriptors, []) == Some(noTracks);
    var d1, d2, d3 := [noTracks], [noTracks, noTracks], [noTracks, noTracks, noTracks];
    assert [] + [noTracks] == d1 && d1 + [noTracks] == d2 && d2 + [noTracks] == d3;
    assert LevelsFrom(buf, t3, d3) == Some(d3);
    assert LevelsFrom(buf, t3, d2) == Some(d3);
    assert LevelsFrom(buf, t3, d1) == Some(d3);
  }

  lemma {:induction false} LevelStartGrows(buf: seq<byte>, i: nat)
    requires i <= LevelCount
    requires forall j | 0 <= j < LevelCount :: LevelAt(buf, LevelStart(buf, j)).Parsed?
    ensures 4 * i <= LevelStart(buf, i) <= |buf|
  {
    if i > 0 {
      LevelStartGrows(buf, i - 1);
      LevelTrackCount(buf, LevelStart(buf, i - 1));
    }
  }

  /** A buffer too short for the three int32 track counts does not decode. */
  lemma ShortBufferFails(buf: seq<byte>)
    requires |buf| < 12
    ensures Decode(buf) == None
  {
    DescriptionTable(buf);
    if Descriptions(buf).Parsed? {
      LevelStartGrows(buf, LevelCount);
    }
  }

  // ---------------------------------------------------------------- points

  /** A delta step (x byte not 0xFF, whatever the y byte): the new point is
      the previous one plus the two signed bytes, two bytes further on. */
  lemma DeltaStep(buf: seq<byte>, at: int, last: Point)
    requires InBounds(buf, at, 2) && buf[at] != 0xFF
    ensures PointStep(buf, at, last) ==
      Parsed(Point(last.x + SignedBE(buf, at, 1), last.y + SignedBE(buf, at + 1, 1)), at + 2)
  {
  }

  /** An escape step (x byte 0xFF): the new point is the raw int32 pair that
      begins one byte into the step, and the step ends 9 bytes after it began. */
  lemma EscapeStep(buf: seq<byte>, at: int, last: Point)
    requires InBounds(buf, at, 1) && buf[at] == 0xFF
    ensures PointStep(buf, at, last) ==
      if InBounds(buf, at, 9) then Parsed(Point(SignedBE(buf, at + 1, 4), SignedBE(buf, at + 5, 4)), at + 9)
      else OutOfBounds
  {
  }

  /** The point loop appends one point per remaining iteration, keeping the
      points already there. */
  lemma {:induction false} PointsFromCount(buf: seq<byte>, at: int, k: int, pointsCount: int, points: seq<Point>)
    requires points != [] && PointsFrom(buf, at, k, pointsCount, points).Parsed?
    ensures var ps := PointsFrom(buf, at, k, pointsCount, points).value;
      |ps| == |points| + Clamp0(pointsCount - 1 - k) && ps[..|points|] == points
    decreases pointsCount - 1 - k
  {
    if k < pointsCount - 1 {
      var s := PointStep(buf, at, points[|points| - 1]);
      PointsFromCount(buf, s.next, k + 1, pointsCount, points + [s.value]);
      var ps := PointsFrom(buf, s.next, k + 1, pointsCount, points + [s.value]).value;
      assert ps[..|points|] == ps[..|points| + 1][..|points|];
    }
  }

  /** The cursors the point loop passes through: each appended point is one
      PointStep from the point before it, so later deltas are relative to
      the point an escape stored. */
  lemma {:induction false} PointsTrace(buf: seq<byte>, at: int, k: int, pointsCount: int, points: seq<Point>)
    returns (cursors: seq<int>)
    requires points != [] && PointsFrom(buf, at, k, pointsCount, points).Parsed?
    ensures var r := PointsFrom(buf, at, k, pointsCount, points);
      && |points| <= |r.value|
      && |cursors| == |r.value| - |points| + 1
      && cursors[0] == at && cursors[|cursors| - 1] == r.next
      && forall m | 0 <= m < |cursors| - 1 ::
           PointStep(buf, cursors[m], r.value[|points| + m - 1]) == Parsed(r.value[|points| + m], cursors[m + 1])
    decreases pointsCount - 1 - k
  {
    var r := PointsFrom(buf, at, k, pointsCount, points);
    if k >= pointsCount - 1 {
      cursors := [at];
    } else {
      var s := PointStep(buf, at, points[|points| - 1]);
      var more := points + [s.value];
      var rest := PointsTrace(buf, s.next, k + 1, pointsCount, more);
      PointsFromCount(buf, s.next, k + 1, pointsCount, more);
      assert r.value[..|more|] == more;
      assert r.value[|points| - 1] == points[|points| - 1];
      assert r.value[|points|] == s.value;
      cursors := [at] + rest;
      forall m | 0 <= m < |cursors| - 1
        ensures PointStep(buf, cursors[m], r.value[|points| + m - 1]) == Parsed(r.value[|points| + m], cursors[m + 1])
      {
        if m > 0 {
          assert cursors[m] == rest[m - 1] && cursors[m + 1] == rest[m];
          assert |more| + (m - 1) - 1 == |points| + m - 1;
        }
      }
    }
  }

  // ---------------------------------------------------------------- track bodies

  /** The layout of a track body that decodes: it starts at the descriptor's
      offset whatever came before; marker byte, start pair (decompressed),
      finish pair (decompressed), int16 count, raw first point, then the
      point loop from 27 bytes in, which leaves 1 + max(0, count - 2) points. */
  lemma TrackLayout(buf: seq<byte>, d: Descriptor)
    requires TrackAt(buf, d).Parsed?
    ensures InBounds(buf, d.offset, 27)
    ensures var t := TrackAt(buf, d).value;
      && t.title == d.title
      && t.start == Point(ParseCoordinate(SignedBE(buf, d.offset + 1, 4)), ParseCoordinate(SignedBE(buf, d.offset + 5, 4)))
      && t.finish == Point(ParseCoordinate(SignedBE(buf, d.offset + 9, 4)), ParseCoordinate(SignedBE(buf, d.offset + 13, 4)))
      && t.pointsCount == SignedBE(buf, d.offset + 17, 2)
      && t.points != []
      && t.points[0] == Point(SignedBE(buf, d.offset + 19, 4), SignedBE(buf, d.offset + 23, 4))
      && |t.points| == 1 + Clamp0(t.pointsCount - 2)
      && PointsFrom(buf, d.offset + 27, 1, t.pointsCount, [t.points[0]]) == Parsed(t.points, TrackAt(buf, d).next)
  {
    var o := d.offset;
    assert InBounds(buf, o, 1);
    assert PairAt(buf, o + 1, 4, true).Parsed?;
    assert PairAt(buf, o + 9, 4, true).Parsed?;
    assert IntAt(buf, o + 17, 2).Parsed?;
    assert PairAt(buf, o + 19, 4, false).Parsed?;
    var first := PairAt(buf, o + 19, 4, false).value;
    PointsFromCount(buf, o + 27, 1, SignedBE(buf, o + 17, 2), [first]);
  }

  /** A header that does not fit in the buffer makes the track fail. */
  lemma TruncatedTrackFails(buf: seq<byte>, d: Descriptor)
    requires !InBounds(buf, d.offset, 27)
    ensures TrackAt(buf, d) == OutOfBounds
  {
  }

  /** A track whose count field is 2 gets a single point: the raw first one. */
  lemma CountTwoGivesOnePoint(buf: seq<byte>, d: Descriptor)
    requires InBounds(buf, d.offset, 27) && SignedBE(buf, d.offset + 17, 2) == 2
    ensures TrackAt(buf, d) ==
      Parsed(Track(d.title,
                   Point(ParseCoordinate(SignedBE(buf, d.offset + 1, 4)), ParseCoordinate(SignedBE(buf, d.offset + 5, 4))),
                   Point(ParseCoordinate(SignedBE(buf, d.offset + 9, 4)), ParseCoordinate(SignedBE(buf, d.offset + 13, 4))),
                   2,
                   [Point(SignedBE(buf, d.offset + 19, 4), SignedBE(buf, d.offset + 23, 4))]),
             d.offset + 27)
  {
  }

  // ---------------------------------------------------------------- whole decode

  lemma {:induction false} LevelTracksFromShape(buf: seq<byte>, descriptors: seq<Descriptor>, level: Level)
    requires |level| <= |descriptors|
    requires forall j | 0 <= j < |level| :: TrackAt(buf, descriptors[j]).Parsed? && TrackAt(buf, descriptors[j]).value == level[j]
    ensures LevelTracksFrom(buf, descriptors, level).Some? <==>
      forall j | |level| <= j < |descriptors| :: TrackAt(buf, descriptors[j]).Parsed?
    ensures LevelTracksFrom(buf, descriptors, level).Some? ==>
      var ts := LevelTracksFrom(buf, descriptors, level).value;
      |ts| == |descriptors| &&
      forall j | 0 <= j < |descriptors| :: TrackAt(buf, descriptors[j]).Parsed? && TrackAt(buf, descriptors[j]).value == ts[j]
    decreases |descriptors| - |level|
  {
    if |level| < |descriptors| {
      var t := TrackAt(buf, descriptors[|level|]);
      if t.Parsed? {
        LevelTracksFromShape(buf, descriptors, level + [t.value]);
      }
    }
  }

  /** The tracks of a level: present exactly when every descriptor's body
      decodes, one per descriptor, in descriptor order. */
  lemma LevelTracks(buf: seq<byte>, descriptors: seq<Descriptor>)
    ensures LevelTracksFrom(buf, descriptors, []).Some? <==>
      forall j | 0 <= j < |descriptors| :: TrackAt(buf, descriptors[j]).Parsed?
    ensures LevelTracksFrom(buf, descriptors, []).Some? ==>
      var ts := LevelTracksFrom(buf, descriptors, []).value;
      |ts| == |descriptors| &&
      forall j | 0 <= j < |descriptors| :: TrackAt(buf, descriptors[j]).Parsed? && TrackAt(buf, descriptors[j]).value == ts[j]
  {
    LevelTracksFromShape(buf, descriptors, []);
  }

  lemma {:induction false} LevelsFromShape(buf: seq<byte>, table: seq<seq<Descriptor>>, levels: Document)
    requires |levels| <= |table|
    requires forall i | 0 <= i < |levels| :: LevelTracksFrom(buf, table[i], []) == Some(levels[i])
    ensures LevelsFrom(buf, table, levels).Some? <==>
      forall i | |levels| <= i < |table| :: LevelTracksFrom(buf, table[i], []).Some?
    ensures LevelsFrom(buf, table, levels).Some? ==>
      var doc := LevelsFrom(buf, table, levels).value;
      |doc| == |table| && forall i | 0 <= i < |table| :: LevelTracksFrom(buf, table[i], []) == Some(doc[i])
    decreases |table| - |levels|
  {
    if |levels| < |table| {
      var l := LevelTracksFrom(buf, table[|levels|], []);
      if l.Some? {
        LevelsFromShape(buf, table, levels + [l.value]);
      }
    }
  }

  /** The decode succeeds exactly when the description table parses and
      every track body it points to decodes. */
  lemma DecodeSucceeds(buf: seq<byte>)
    ensures Decode(buf).Some? ==> Descriptions(buf).Parsed?
    ensures Decode(buf).Some? ==>
      forall i, j | 0 <= i < |Descriptions(buf).value| && 0 <= j < |Descriptions(buf).value[i]| ::
        TrackAt(buf, Descriptions(buf).value[i][j]).Parsed?
    ensures Descriptions(buf).Parsed? &&
      (forall i, j | 0 <= i < |Descriptions(buf).value| && 0 <= j < |Descriptions(buf).value[i]| ::
         TrackAt(buf, Descriptions(buf).value[i][j]).Parsed?)
      ==> Decode(buf).Some?
  {
    if Descriptions(buf).Parsed? {
      var table := Descriptions(buf).value;
      LevelsFromShape(buf, table, []);
      forall i | 0 <= i < |table|
        ensures LevelTracksFrom(buf, table[i], []).Some? ==>
          forall j | 0 <= j < |table[i]| :: TrackAt(buf, table[i][j]).Parsed?
        ensures (forall j | 0 <= j < |table[i]| :: TrackAt(buf, table[i][j]).Parsed?) ==>
          LevelTracksFrom(buf, table[i], []).Some?
      {
        LevelTracks(buf, table[i]);
      }
    }
  }

  /** A decoded document has three levels; level i has one track per
      descriptor, max(0, count_i) of them for the int32 count at the start of
      that level's block; each track is its descriptor's body and carries the
      descriptor's title. */
  lemma DecodeShape(buf: seq<byte>)
    requires Decode(buf).Some?
    ensures Descriptions(buf).Parsed?
    ensures |Decode(buf).value| == |Descriptions(buf).value| == LevelCount
    ensures forall i | 0 <= i < LevelCount :: InBounds(buf, LevelStart(buf, i), IntSize)
    ensures var doc, table := Decode(buf).value, Descriptions(buf).value;
      forall i | 0 <= i < LevelCount ::
        && |doc[i]| == |table[i]| == Clamp0(SignedBE(buf, LevelStart(buf, i), IntSize))
        && forall j | 0 <= j < |doc[i]| ::
             && TrackAt(buf, table[i][j]).Parsed?
             && TrackAt(buf, table[i][j]).value == doc[i][j]
             && doc[i][j].title == table[i][j].title
  {
    DescriptionTable(buf);
    var table := Descriptions(buf).value;
    LevelsFromShape(buf, table, []);
    var doc := Decode(buf).value;
    forall i | 0 <= i < LevelCount
      ensures InBounds(buf, LevelStart(buf, i), IntSize)
      ensures |doc[i]| == |table[i]| == Clamp0(SignedBE(buf, LevelStart(buf, i), IntSize))
      ensures forall j | 0 <= j < |doc[i]| ::
        && TrackAt(buf, table[i][j]).Parsed?
        && TrackAt(buf, table[i][j]).value == doc[i][j]
        && doc[i][j].title == table[i][j].title
    {
      LevelTrackCount(buf, LevelStart(buf, i));
      LevelTracks(buf, table[i]);
      forall j | 0 <= j < |doc[i]|
        ensures doc[i][j].title == table[i][j].title
      {
        TrackLayout(buf, table[i][j]);
      }
    }
  }
}
