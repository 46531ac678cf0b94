/** `BmffImage`: the recursive walk over the boxes of a file. */
module BmffImage {
  import opened Basics
  import opened Bytes
  import opened BmffBoxes

  /** How a box ends: with the address of the next one, with a structural error, or with one in its payload. */
  datatype Outcome = Done(next: nat) | Corrupt | BadPayload

  // ---------- when a walk must fail ----------

  /** No box at `start` has so few boxes in it that `room` further visits are enough. */
  ghost predicate NoBox(d: seq<byte>, start: nat, limit: nat, depth: nat, maxDepth: nat, room: int)
    requires limit <= |d|
  {
    forall b: Box :: b.start == start && Describes(d, b, limit, depth, maxDepth) ==> |Starts(b)| > room
  }

  ghost predicate NoInside(d: seq<byte>, l: Layout, end: nat, depth: nat, maxDepth: nat, room: int)
    requires end <= |d|
  {
    forall cs: Boxes :: Inside(d, l, cs, end, depth, maxDepth) ==> |AllStarts(cs)| > room
  }

  /** A box that cannot be entered, or whose header or layout is broken. */
  lemma NoBoxHere(d: seq<byte>, start: nat, limit: nat, depth: nat, maxDepth: nat, room: int)
    requires start <= limit <= |d|
    requires room <= 0 || depth >= maxDepth || HeaderAt(d, start, limit).None?
             || LayoutOf(d, HeaderAt(d, start, limit).value).Broken?
    ensures NoBox(d, start, limit, depth, maxDepth, room)
  {
  }

  /** A box whose inner boxes cannot be walked. */
  lemma NoBoxAround(d: seq<byte>, start: nat, limit: nat, depth: nat, maxDepth: nat, room: int, h: Header)
    requires start <= limit <= |d| && HeaderAt(d, start, limit) == Some(h)
    requires NoInside(d, LayoutOf(d, h), h.end, depth + 1, maxDepth, room - 1)
    ensures NoBox(d, start, limit, depth, maxDepth, room)
  {
  }

  /** Inner boxes that cannot go on behind `bs`, where they have to. */
  lemma NoInsideBehind(d: seq<byte>, l: Layout, bs: Boxes, limit: nat, depth: nat, maxDepth: nat, room: int)
    requires limit <= |d| && (l.All? || l.Count?) && Row(d, bs, l.from, limit, depth, maxDepth)
    requires if l.All? then RowEnd(bs, l.from) < limit else Length(bs) < l.n
    requires NoBox(d, RowEnd(bs, l.from), limit, depth, maxDepth, room - |AllStarts(bs)|)
    ensures NoInside(d, l, limit, depth, maxDepth, room)
  {
    RowGrows(d, bs, 0, l.from, limit, depth, maxDepth);
    forall cs: Boxes | Inside(d, l, cs, limit, depth, maxDepth) ensures |AllStarts(cs)| > room {
      if l.All? {
        FurtherIsLonger(d, bs, cs, l.from, limit, depth, maxDepth);
      }
      RowGoesOn(d, bs, cs, l.from, limit, depth, maxDepth);
    }
  }

  /** A walk has found the row `cs` from `from` up to `pos`. */
  ghost predicate Walking(d: seq<byte>, cs: Boxes, from: nat, pos: nat, limit: nat, depth: nat, maxDepth: nat,
                          first: seq<nat>, entries: seq<nat>)
    requires limit <= |d|
  {
    && Row(d, cs, from, limit, depth, maxDepth) && pos == RowEnd(cs, from)
    && entries == first + AllStarts(cs)
  }

  lemma WalkingStep(d: seq<byte>, cs: Boxes, from: nat, limit: nat, depth: nat, maxDepth: nat, first: seq<nat>,
                    before: seq<nat>, t: Box, entries: seq<nat>)
    requires limit <= |d| && Walking(d, cs, from, t.start, limit, depth, maxDepth, first, before)
    requires Describes(d, t, limit, depth, maxDepth) && entries == before + Starts(t)
    ensures Walking(d, Snoc(cs, t), from, t.end, limit, depth, maxDepth, first, entries)
    ensures Length(Snoc(cs, t)) == Length(cs) + 1
  {
    RowSnoc(d, cs, t, from, limit, depth, maxDepth);
    Regroup(first, AllStarts(cs), Starts(t));
  }

  // ---------- the image object ----------

  class BmffImage {
    const file: seq<byte>
    const maxDepth: nat
    /** The read position. */
    var pos: nat
    var visits: set<nat>
    var visitsMax: nat
    /** Every address at which a box was entered, in order. */
    ghost var entries: seq<nat>
    /** How many of them belong to earlier top-level boxes. */
    ghost var base: nat
    /** The test for boxes visited twice has fired. */
    ghost var revisited: bool

    ghost predicate Valid()
      reads this
    {
      pos <= |file| && !revisited && Recorded(entries, base, visits) && Before(entries, |file| + 8)
    }

    /** How many more boxes may be entered in this top-level box. */
    ghost function Room(): int
      reads this
    {
      visitsMax + 1 - (|entries| - base)
    }

    constructor (file: seq<byte>, maxDepth: nat)
      ensures Valid() && this.file == file && this.maxDepth == maxDepth && entries == [] && pos == 0
    {
      this.file, this.maxDepth := file, maxDepth;
      pos, visits, visitsMax := 0, {}, 0;
      entries, base, revisited := [], 0, false;
    }

    /** A top-level box forgets the visits of the one before. */
    method Forget(depth: nat)
      requires Valid()
      modifies this`visits, this`base
      ensures Valid() && base == (if depth == 0 then |entries| else old(base))
    {
      if depth == 0 {
        visits := {};
        base := |entries|;
        RecordedAfresh(entries);
      }
    }

    /** The tests and the record made on entering a box. */
    method Enter(depth: nat) returns (entered: bool)
      requires Valid() && Before(entries, pos)
      modifies this`visits, this`entries, this`revisited
      ensures Valid() && (entered <==> old(Room()) > 0 && depth < maxDepth)
      ensures entries == old(entries) + (if entered then [pos] else [])
    {
      entered := Allowed(depth);
      if entered {
        Record();
      }
    }

    /** The tests made on entering a box. */
    method Allowed(depth: nat) returns (allowed: bool)
      requires Valid() && Before(entries, pos)
      modifies this`revisited
      ensures !revisited && (allowed <==> Room() > 0 && depth < maxDepth)
    {
      NeverSeen(entries, base, visits, pos);
      revisited := pos in visits;
      allowed := !(pos in visits || |visits| > visitsMax || depth >= maxDepth);
    }

    method Record()
      requires Valid() && Before(entries, pos)
      modifies this`visits, this`entries
      ensures Valid() && entries == old(entries) + [pos]
    {
      RecordedSnoc(entries, base, visits, pos, |file| + 8);
      visits := visits + {pos};
      entries := entries + [pos];
    }

    /** Reads the header of a box that must end by `limit`, up to its payload. */
    method ReadHeader(limit: nat) returns (h: Option<Header>)
      requires pos <= limit <= |file|
      modifies this`pos
      ensures h == HeaderAt(file, old(pos), limit)
      ensures h.Some? ==> pos == h.value.payload
      ensures pos <= |file|
    {
      var address := pos;
      var size := 8;
      if limit - address < size {
        return None;
      }
      var length, tag := U32(file, pos), U32(file, pos + 4);
      pos := pos + 8;
      if length == 1 {
        size := size + 8;
        if limit - address < size {
          return None;
        }
        length := U64(file, pos);
        pos := pos + 8;
      }
      if length == 0 {
        length := limit - address;
      }
      if length < size {
        return None;
      }
      if length - size > limit - pos {
        return None;
      }
      return Some(Header(tag, pos, pos + (length - size)));
    }

    /** Decides whether a box has inner boxes, and moves to the first of them. */
    method FindInner(h: Header) returns (l: Layout)
      requires pos == h.payload <= h.end <= |file|
      modifies this`pos
      ensures l == LayoutOf(file, h) && pos <= |file|
      ensures l.All? || l.Count? ==> pos == l.from
    {
      var skip := 0;
      if FullBox(h.tag) {
        if h.end - h.payload < 4 {
          return Broken;
        }
        skip := 4;
      }
      if h.tag == TAG_iinf {
        if h.end - h.payload - skip < 2 {
          return Broken;
        }
        var n := U16(file, h.payload + skip);
        skip := skip + 2;
        pos := pos + skip;
        return Count(n, pos);
      }
      if h.tag == TAG_moov || h.tag == TAG_iprp || h.tag == TAG_ipco || h.tag == TAG_meta {
        pos := pos + skip;
        return All(pos);
      }
      if h.tag == TAG_uuid {
        var name := UuidAt(file, pos);
        pos := Min(pos + 16, |file|);
        if name == UUID_CANO || name == UUID_CANP {
          if name == UUID_CANP && pos + 8 <= |file| {
            pos := pos + 8;
          }
          return All(pos);
        }
      }
      return Plain;
    }

    /** The handling of a payload, which other code accepts or not. A box that is skipped has none. */
    method Payload(tag: Tag) returns (accepted: bool)
      ensures SkipBox(tag) ==> accepted
    {
      accepted := *;
      if SkipBox(tag) {
        accepted := true;
      }
    }

    /** The first part of `boxHandler`: everything up to the inner boxes. */
    method OpenBox(limit: nat, depth: nat) returns (h: Option<Header>, l: Layout)
      requires Valid() && pos <= limit <= |file| && Before(entries, pos)
      modifies this`pos, this`visits, this`entries, this`base, this`revisited
      ensures Valid() && base == (if depth == 0 then |old(entries)| else old(base))
      ensures h.None? ==> old(entries) <= entries
      ensures h.None? ==> NoBox(file, old(pos), limit, depth, maxDepth, visitsMax + 1 - (|old(entries)| - base))
      ensures h.Some? ==>
                && h == HeaderAt(file, old(pos), limit) && l == LayoutOf(file, h.value) && !l.Broken?
                 && depth < maxDepth
                && entries == old(entries) + [old(pos)] && Room() >= 0
                && (l.All? || l.Count? ==> pos == l.from)
    {
      var address := pos;
      Forget(depth);
      ghost var room := Room();
      var entered := Enter(depth);
      h, l := None, Plain;
      if entered {
        h := ReadHeader(limit);
      }
      if h.Some? {
        // The payload of a box that is skipped is not even read.
        if !SkipBox(h.value.tag) {
          l := FindInner(h.value);
        }
        if l.Broken? {
          h := None;
        }
      }
      if h.None? {
        NoBoxHere(file, address, limit, depth, maxDepth, room);
      }
    }

    /** Reads the box at the read position; it must end by `limit`. */
    method BoxHandler(limit: nat, depth: nat) returns (r: Outcome, ghost t: Box)
      requires Valid() && pos <= limit <= |file| && Before(entries, pos)
      modifies this`pos, this`visits, this`entries, this`base, this`revisited
      ensures Valid() && old(entries) <= entries
      ensures base == (if depth == 0 then |old(entries)| else old(base))
      ensures r.Done? ==>
                && t.start == old(pos) && t.end == r.next && Describes(file, t, limit, depth, maxDepth)
                && entries == old(entries) + Starts(t) && Before(entries, t.end) && Room() >= 0
      ensures r.Corrupt? ==>
                NoBox(file, old(pos), limit, depth, maxDepth, visitsMax + 1 - (|old(entries)| - base))
      // The payload of a media data box, or of one without a name, is never refused.
      ensures r.BadPayload? ==>
                HeaderAt(file, old(pos), limit).Some? && HeaderAt(file, old(pos), limit).value.tag !in {0, 0x6d646174}
      decreases limit - pos, 0
    {
      ghost var address, first := pos, entries;
      t := Box(address, address, End);
      var header, l := OpenBox(limit, depth);
      if header.None? {
        return Corrupt, t;
      }
      var h := header.value;
      SpacedSnoc(first, address);
      ghost var children;
      r, children := WalkInner(l, h.end, depth + 1, address + 8);
      if !r.Done? {
        if r.Corrupt? {
          NoBoxAround(file, address, limit, depth, maxDepth, visitsMax + 1 - (|first| - base), h);
        }
        return;
      }
      t := Box(address, h.end, children);
      assert (first + [address]) + AllStarts(children) == first + Starts(t);
      var accepted := Payload(h.tag);
      r := if accepted then Done(h.end) else BadPayload;
    }

    /** The inner boxes of a box, if its layout asks for any. */
    method WalkInner(l: Layout, end: nat, depth: nat, ghost after: nat) returns (r: Outcome, ghost cs: Boxes)
      requires Valid() && end <= |file| && after <= end && Before(entries, after)
      requires depth > 0 && Room() >= 0 && !l.Broken?
      requires l.All? ==> pos == l.from && after <= pos
      requires l.Count? ==> pos == l.from && after <= pos <= end
      modifies this`pos, this`visits, this`entries, this`base, this`revisited
      ensures Valid() && old(entries) <= entries && base == old(base)
      ensures r.Done? ==>
                && Inside(file, l, cs, end, depth, maxDepth) && entries == old(entries) + AllStarts(cs)
                && Room() >= 0 && Before(entries, end)
      ensures r.Corrupt? ==> NoInside(file, l, end, depth, maxDepth, old(Room()))
      ensures l.Plain? ==> r.Done?
      decreases end - after, 2
    {
      r, cs := Done(end), End;
      if l.All? {
        r, cs := WalkAll(l, end, depth);
      } else if l.Count? {
        r, cs := WalkCount(l, end, depth);
      }
    }

    /** The inner boxes of a container: until its end is reached. */
    method WalkAll(ghost l: Layout, end: nat, depth: nat) returns (r: Outcome, ghost cs: Boxes)
      requires Valid() && end <= |file| && Before(entries, pos) && depth > 0 && Room() >= 0 && l == All(pos)
      modifies this`pos, this`visits, this`entries, this`base, this`revisited
      ensures Valid() && old(entries) <= entries && base == old(base)
      ensures r.Done? ==>
                && Inside(file, l, cs, end, depth, maxDepth) && entries == old(entries) + AllStarts(cs)
                && Room() >= 0 && (cs.More? ==> Before(entries, end))
      ensures r.Corrupt? ==> NoInside(file, l, end, depth, maxDepth, old(Room()))
      decreases end - pos, 1
    {
      ghost var first, room := entries, Room();
      cs := End;
      while pos < end
        invariant Valid() && Before(entries, pos) && base == old(base) && Room() >= 0
        invariant Walking(file, cs, l.from, pos, end, depth, maxDepth, first, entries)
        invariant l.from <= pos && (l.from < end ==> pos <= end)
        decreases end - pos
      {
        ghost var before, t: Box := entries, *;
        r, t := BoxHandler(end, depth);
        if !r.Done? {
          if r.Corrupt? {
            NoInsideBehind(file, l, cs, end, depth, maxDepth, room);
          }
          return;
        }
        WalkingStep(file, cs, l.from, end, depth, maxDepth, first, before, t, entries);
        cs := Snoc(cs, t);
        pos := r.next;
      }
      r := Done(pos);
    }

    /** The inner boxes of a counted list. */
    method WalkCount(l: Layout, end: nat, depth: nat) returns (r: Outcome, ghost cs: Boxes)
      requires Valid() && pos <= end <= |file| && Before(entries, pos) && depth > 0 && Room() >= 0
      requires l.Count? && l.from == pos
      modifies this`pos, this`visits, this`entries, this`base, this`revisited
      ensures Valid() && old(entries) <= entries && base == old(base)
      ensures r.Done? ==>
                && Inside(file, l, cs, end, depth, maxDepth) && entries == old(entries) + AllStarts(cs)
                && Room() >= 0 && (cs.More? ==> Before(entries, end))
      ensures r.Corrupt? ==> NoInside(file, l, end, depth, maxDepth, old(Room()))
      decreases end - pos, 1
    {
      ghost var first, room := entries, Room();
      var left := l.n;
      cs := End;
      while left > 0
        invariant Valid() && Before(entries, pos) && base == old(base) && Room() >= 0
        invariant Walking(file, cs, l.from, pos, end, depth, maxDepth, first, entries)
        invariant l.from <= pos <= end && Length(cs) + left == l.n
        decreases left
      {
        ghost var before, t: Box := entries, *;
        r, t := BoxHandler(end, depth);
        if !r.Done? {
          if r.Corrupt? {
            NoInsideBehind(file, l, cs, end, depth, maxDepth, room);
          }
          return;
        }
        WalkingStep(file, cs, l.from, end, depth, maxDepth, first, before, t, entries);
        cs := Snoc(cs, t);
        pos := r.next;
        left := left - 1;
      }
      r := Done(pos);
    }

    /** Walks the top-level boxes of the file. */
    method ReadMetadata() returns (r: Outcome, ghost forest: Boxes)
      requires Valid()
      modifies this
      ensures Valid() && visitsMax == |file| / 16
      ensures Spaced(entries) && 8 * |entries| <= |file| + 8
      ensures r.Done? ==>
                && Row(file, forest, 0, |file|, 0, maxDepth) && RowEnd(forest, 0) == |file|
                && WithinVisits(forest, visitsMax)
                && entries == AllStarts(forest) && 8 * |entries| <= |file|
      ensures r.Corrupt? ==>
                forall cs: Boxes :: Row(file, cs, 0, |file|, 0, maxDepth) && RowEnd(cs, 0) == |file|
                                    ==> !WithinVisits(cs, visitsMax)
    {
      visitsMax := |file| / 16;
      visits := {};  // as the first top-level box does
      entries, base := [], 0;
      forest := End;
      var address := 0;
      while address < |file|
        invariant Valid() && Before(entries, address) && visitsMax == |file| / 16
        invariant Walking(file, forest, 0, address, |file|, 0, maxDepth, [], entries)
        invariant address <= |file| && WithinVisits(forest, visitsMax)
        decreases |file| - address
      {
        pos := address;
        ghost var before, t: Box := entries, *;
        r, t := BoxHandler(|file|, 0);
        if !r.Done? {
          SpacedBound(entries, |file| + 8);
          if r.Corrupt? {
            NoForestBehind(file, forest, address, maxDepth, visitsMax);
          }
          return;
        }
        WalkingStep(file, forest, 0, |file|, 0, maxDepth, [], before, t, entries);
        WithinSnoc(forest, t, visitsMax);
        forest := Snoc(forest, t);
        address := r.next;
      }
      SpacedBound(entries, |file|);
      r := Done(address);
    }
  }

  /** No top-level box has more boxes in it than the limit on visits lets through. */
  predicate WithinVisits(bs: Boxes, visitsMax: nat) {
    bs.More? ==> |Starts(bs.first)| <= visitsMax + 1 && WithinVisits(bs.rest, visitsMax)
  }

  lemma {:induction false} WithinSnoc(bs: Boxes, b: Box, visitsMax: nat)
    requires WithinVisits(bs, visitsMax) && |Starts(b)| <= visitsMax + 1
    ensures WithinVisits(Snoc(bs, b), visitsMax)
  {
    if bs.More? {
      WithinSnoc(bs.rest, b, visitsMax);
    }
  }

  lemma {:induction false} NthWithin(bs: Boxes, n: nat, visitsMax: nat)
    requires WithinVisits(bs, visitsMax) && n < Length(bs)
    ensures |Starts(Nth(bs, n))| <= visitsMax + 1
  {
    if n > 0 {
      NthWithin(bs.rest, n - 1, visitsMax);
    }
  }

  lemma NoForestBehind(d: seq<byte>, bs: Boxes, pos: nat, maxDepth: nat, visitsMax: nat)
    requires pos < |d| && Row(d, bs, 0, |d|, 0, maxDepth) && RowEnd(bs, 0) == pos
    requires NoBox(d, pos, |d|, 0, maxDepth, visitsMax + 1)
    ensures forall cs: Boxes :: Row(d, cs, 0, |d|, 0, maxDepth) && RowEnd(cs, 0) == |d| ==> !WithinVisits(cs, visitsMax)
  {
    forall cs: Boxes | Row(d, cs, 0, |d|, 0, maxDepth) && RowEnd(cs, 0) == |d| ensures !WithinVisits(cs, visitsMax) {
      FurtherIsLonger(d, bs, cs, 0, |d|, 0, maxDepth);
      RowGoesOn(d, bs, cs, 0, |d|, 0, maxDepth);
      if WithinVisits(cs, visitsMax) {
        NthWithin(cs, Length(bs), visitsMax);
      }
    }
  }

  // ---------- a well-formed file that is rejected ----------

  const TAG_ftyp: Tag := 0x66747970
  const TAG_JXL: Tag := 0x4a584c20
  const TAG_free: Tag := 0x66726565

  /** The type test that comes before the walk: twelve bytes, with one of two names in their middle. */
  predicate IsBmffType(d: seq<byte>) {
    |d| >= 12 && (U32(d, 4) == TAG_ftyp || U32(d, 4) == TAG_JXL)
  }

  /** A file type box of 12 bytes and a `moov` box around three empty `free` boxes. */
  predicate SmallFile(d: seq<byte>) {
    && |d| == 44 && U32(d, 0) == 12 && U32(d, 4) == TAG_ftyp && U32(d, 12) == 32 && U32(d, 16) == TAG_moov
    && U32(d, 20) == 8 && U32(d, 24) == TAG_free && U32(d, 28) == 8 && U32(d, 32) == TAG_free
    && U32(d, 36) == 8 && U32(d, 40) == TAG_free
  }

  function SmallType(): Box {
    Box(0, 12, End)
  }

  function SmallMoov(): Box {
    Box(12, 44, SmallFree())
  }

  function SmallFree(): Boxes {
    More(Box(20, 28, End), More(Box(28, 36, End), More(Box(36, 44, End), End)))
  }

  lemma HeaderOf(d: seq<byte>, at: nat, limit: nat, length: nat, tag: Tag)
    requires at + length <= limit <= |d| && 8 <= length && U32(d, at) == length && U32(d, at + 4) == tag
    ensures HeaderAt(d, at, limit) == Some(Header(tag, at + 8, at + length))
  {
  }

  /** An empty `free` box. */
  lemma EmptyBox(d: seq<byte>, at: nat, limit: nat, depth: nat, maxDepth: nat)
    requires at + 8 <= limit <= |d| && U32(d, at) == 8 && U32(d, at + 4) == TAG_free && depth < maxDepth
    ensures Describes(d, Box(at, at + 8, End), limit, depth, maxDepth)
  {
    HeaderOf(d, at, limit, 8, TAG_free);
  }

  lemma SmallFreeRow(d: seq<byte>, maxDepth: nat)
    requires SmallFile(d) && maxDepth >= 2
    ensures Row(d, SmallFree(), 20, 44, 1, maxDepth) && RowEnd(SmallFree(), 20) == 44
  {
    var a, b, c := Box(20, 28, End), Box(28, 36, End), Box(36, 44, End);
    EmptyBox(d, 20, 44, 1, maxDepth);
    EmptyBox(d, 28, 44, 1, maxDepth);
    EmptyBox(d, 36, 44, 1, maxDepth);
    RowCons(d, c, End, 44, 1, maxDepth);
    RowCons(d, b, More(c, End), 44, 1, maxDepth);
    RowCons(d, a, More(b, More(c, End)), 44, 1, maxDepth);
  }

  /** A container whose row of inner boxes fills it. */
  lemma Container(d: seq<byte>, b: Box, h: Header, limit: nat, depth: nat, maxDepth: nat)
    requires b.start <= limit <= |d| && depth < maxDepth && HeaderAt(d, b.start, limit) == Some(h) && h.end == b.end
    requires h.tag == TAG_moov && h.payload < h.end
    requires Row(d, b.children, h.payload, h.end, depth + 1, maxDepth) && RowEnd(b.children, h.payload) == h.end
    ensures Describes(d, b, limit, depth, maxDepth)
  {
  }

  lemma SmallIsDescribed(d: seq<byte>, maxDepth: nat)
    requires SmallFile(d) && maxDepth >= 2
    ensures Describes(d, SmallType(), 44, 0, maxDepth) && Describes(d, SmallMoov(), 44, 0, maxDepth)
  {
    SmallFreeRow(d, maxDepth);
    HeaderOf(d, 0, 44, 12, TAG_ftyp);
    HeaderOf(d, 12, 44, 32, TAG_moov);
    Container(d, SmallMoov(), Header(TAG_moov, 20, 44), 44, 0, maxDepth);
  }

  lemma SmallVisits()
    ensures |Starts(SmallMoov())| == 4
  {
    var c := More(Box(36, 44, End), End);
    assert |AllStarts(c)| == 1;
    assert |AllStarts(More(Box(28, 36, End), c))| == 2;
    assert |AllStarts(SmallFree())| == 3;
  }

  /** The limit of one visit for 16 bytes of file rejects well-formed files: this one passes the type test and is
      tiled by two boxes, but the second needs four visits and gets three. */
  lemma VisitLimitRejects(d: seq<byte>, maxDepth: nat)
    requires SmallFile(d) && maxDepth >= 2
    ensures IsBmffType(d)
    ensures var forest := More(SmallType(), More(SmallMoov(), End));
            Row(d, forest, 0, |d|, 0, maxDepth) && RowEnd(forest, 0) == |d|
    ensures forall cs: Boxes :: Row(d, cs, 0, |d|, 0, maxDepth) && RowEnd(cs, 0) == |d| ==> !WithinVisits(cs, |d| / 16)
  {
    SmallIsDescribed(d, maxDepth);
    RowCons(d, SmallMoov(), End, 44, 0, maxDepth);
    RowCons(d, SmallType(), More(SmallMoov(), End), 44, 0, maxDepth);
    forall cs: Boxes | Row(d, cs, 0, 44, 0, maxDepth) && RowEnd(cs, 0) == 44 ensures !WithinVisits(cs, 2) {
      SmallBoxes(d, cs, maxDepth);
      SmallVisits();
    }
  }

  /** Every row that tiles the file has these two boxes. */
  lemma SmallBoxes(d: seq<byte>, cs: Boxes, maxDepth: nat)
    requires SmallFile(d) && maxDepth >= 2
    requires Row(d, cs, 0, 44, 0, maxDepth) && RowEnd(cs, 0) == 44
    ensures cs.More? && cs.rest.More? && cs.rest.first == SmallMoov()
  {
    SmallIsDescribed(d, maxDepth);
    SameBox(d, cs.first, SmallType(), 44, 0, maxDepth);
    assert cs.rest.More?;
    SameBox(d, cs.rest.first, SmallMoov(), 44, 0, maxDepth);
  }

  /** The visits are the addresses entered since the last top-level box. */
  ghost predicate Recorded(entries: seq<nat>, base: nat, visits: set<nat>) {
    base <= |entries| && Spaced(entries) && visits == Seen(entries[base..])
  }

  lemma RecordedAfresh(entries: seq<nat>)
    requires Spaced(entries)
    ensures Recorded(entries, |entries|, {})
  {
  }

  /** An address behind all entered ones is new. */
  lemma NeverSeen(entries: seq<nat>, base: nat, visits: set<nat>, pos: nat)
    requires Recorded(entries, base, visits) && Before(entries, pos)
    ensures pos !in visits && |visits| == |entries| - base
  {
    SeenSize(entries[base..]);
  }

  lemma RecordedSnoc(entries: seq<nat>, base: nat, visits: set<nat>, pos: nat, end: nat)
    requires Recorded(entries, base, visits) && Before(entries, pos) && Before(entries, end) && pos + 8 <= end
    ensures Recorded(entries + [pos], base, visits + {pos}) && Before(entries + [pos], end)
  {
    assert (entries + [pos])[base..] == entries[base..] + [pos];
  }
}
