/** The box structure of an ISO base media file, as `BmffImage::boxHandler` reads it. */
module BmffBoxes {
  import opened Basics
  import opened Bytes

  type Tag = nat

  const TAG_meta: Tag := 0x6d657461
  const TAG_iinf: Tag := 0x69696e66
  const TAG_iloc: Tag := 0x696c6f63
  const TAG_thmb: Tag := 0x54484d42
  const TAG_prvw: Tag := 0x50525657
  const TAG_mdat: Tag := 0x6d646174
  const TAG_moov: Tag := 0x6d6f6f76
  const TAG_iprp: Tag := 0x69707270
  const TAG_ipco: Tag := 0x6970636f
  const TAG_uuid: Tag := 0x75756964

  const UUID_CANO: seq<byte> :=
    [0x85, 0xc0, 0xb6, 0x87, 0x82, 0x0f, 0x11, 0xe0, 0x81, 0x11, 0xf4, 0xce, 0x46, 0x2b, 0x6a, 0x48]
  const UUID_CANP: seq<byte> :=
    [0xea, 0xf4, 0x2b, 0x5e, 0x1c, 0x98, 0x4b, 0x88, 0xb9, 0xfb, 0xb7, 0xdc, 0x40, 0x6e, 0x4d, 0x16]

  // ---------- reading numbers ----------

  function U16(d: seq<byte>, at: nat): nat
    requires at + 2 <= |d|
  {
    (d[at] as int) * 256 + (d[at + 1] as int)
  }

  function U32(d: seq<byte>, at: nat): nat
    requires at + 4 <= |d|
  {
    U16(d, at) * 0x1_0000 + U16(d, at + 2)
  }

  function U64(d: seq<byte>, at: nat): nat
    requires at + 8 <= |d|
  {
    U32(d, at) * 0x1_0000_0000 + U32(d, at + 4)
  }

  // ---------- the box header, section 4.2 of ISO/IEC 14496-12 ----------

  datatype Header = Header(tag: Tag, payload: nat, end: nat)

  /** The header at `start` of a box that must end by `limit`: a 32-bit length, a 64-bit length behind a 1, or
      a 0 for all that is left. */
  function HeaderAt(d: seq<byte>, start: nat, limit: nat): (h: Option<Header>)
    requires start <= limit <= |d|
    ensures h.Some? ==> start + 8 <= h.value.payload <= h.value.end <= limit
  {
    if limit - start < 8 then None
    else
      var wide := U32(d, start) == 1;
      if wide && limit - start < 16 then None
      else
        var size := if wide then 16 else 8;
        var given := if wide then U64(d, start + 8) else U32(d, start);
        var length := if given == 0 then limit - start else given;
        if length < size || length > limit - start then None
        else Some(Header(U32(d, start + 4), start + size, start + length))
  }

  /** Where a box has inner boxes. */
  datatype Layout = Broken | Plain | All(from: nat) | Count(n: nat, from: nat)

  predicate FullBox(tag: Tag) {
    tag == TAG_meta || tag == TAG_iinf || tag == TAG_iloc || tag == TAG_thmb || tag == TAG_prvw
  }

  predicate SkipBox(tag: Tag) {
    tag == 0 || tag == TAG_mdat
  }

  function UuidAt(d: seq<byte>, at: nat): seq<byte> {
    if at + 16 <= |d| then d[at..at + 16] else []
  }

  /** The layout of a box: a full box needs four bytes, an `iinf` box two more for its count. */
  function LayoutOf(d: seq<byte>, h: Header): (l: Layout)
    requires h.payload <= h.end <= |d|
    ensures l.All? ==> h.payload <= l.from
    ensures l.Count? ==> h.payload <= l.from <= h.end
  {
    if FullBox(h.tag) && h.end - h.payload < 4 then Broken
    else if h.tag == TAG_iinf then
      if h.end - h.payload < 6 then Broken else Count(U16(d, h.payload + 4), h.payload + 6)
    else if h.tag == TAG_meta then All(h.payload + 4)
    else if h.tag == TAG_moov || h.tag == TAG_iprp || h.tag == TAG_ipco then All(h.payload)
    else if h.tag == TAG_uuid && UuidAt(d, h.payload) == UUID_CANO then All(h.payload + 16)
    else if h.tag == TAG_uuid && UuidAt(d, h.payload) == UUID_CANP then
      // The eight bytes behind the name are skipped, if the file has them.
      All(if h.payload + 24 <= |d| then h.payload + 24 else h.payload + 16)
    else Plain
  }

  // ---------- box trees ----------

  datatype Box = Box(start: nat, end: nat, children: Boxes)

  datatype Boxes = End | More(first: Box, rest: Boxes)

  /** The addresses of a box and of the boxes in it, in file order. */
  function Starts(b: Box): (s: seq<nat>)
    ensures |s| > 0
  {
    [b.start] + AllStarts(b.children)
  }

  function AllStarts(bs: Boxes): seq<nat> {
    match bs
    case End => []
    case More(b, rest) => Starts(b) + AllStarts(rest)
  }

  function Length(bs: Boxes): nat {
    if bs.End? then 0 else 1 + Length(bs.rest)
  }

  /** Where a row of boxes that starts at `from` ends. */
  function RowEnd(bs: Boxes, from: nat): nat {
    if bs.End? then from else RowEnd(bs.rest, bs.first.end)
  }

  /** `b` describes the box at its address: header, nesting, and the inner boxes that its layout asks for. */
  ghost predicate Describes(d: seq<byte>, b: Box, limit: nat, depth: nat, maxDepth: nat)
    requires limit <= |d|
    decreases b
  {
    && depth < maxDepth && b.start <= limit
    && HeaderAt(d, b.start, limit).Some?
    && var h := HeaderAt(d, b.start, limit).value;
       b.end == h.end && Inside(d, LayoutOf(d, h), b.children, h.end, depth + 1, maxDepth)
  }

  /** The inner boxes fill the rest of a container, or are as many as were counted. */
  ghost predicate Inside(d: seq<byte>, l: Layout, cs: Boxes, end: nat, depth: nat, maxDepth: nat)
    requires end <= |d|
    decreases cs, 1
  {
    match l
    case Broken => false
    case Plain => cs.End?
    case All(from) => Row(d, cs, from, end, depth, maxDepth) && Fills(cs, from, end)
    case Count(n, from) => Row(d, cs, from, end, depth, maxDepth) && Length(cs) == n
  }

  /** Boxes side by side from `from` on, none of them past `limit`. */
  ghost predicate Row(d: seq<byte>, bs: Boxes, from: nat, limit: nat, depth: nat, maxDepth: nat)
    requires limit <= |d|
    decreases bs, 0
  {
    bs.More? ==>
      && bs.first.start == from && Describes(d, bs.first, limit, depth, maxDepth)
      && Row(d, bs.rest, bs.first.end, limit, depth, maxDepth)
  }

  /** A row leaves no gap before `end`. */
  predicate Fills(bs: Boxes, from: nat, end: nat) {
    if from < end then RowEnd(bs, from) == end else bs.End?
  }

  // ---------- a file has at most one description ----------

  function Take(bs: Boxes, n: nat): Boxes {
    if n == 0 || bs.End? then End else More(bs.first, Take(bs.rest, n - 1))
  }

  /** The rows have the same boxes as far as both go. */
  predicate Agree(bs: Boxes, cs: Boxes) {
    bs.More? && cs.More? ==> bs.first == cs.first && Agree(bs.rest, cs.rest)
  }

  lemma {:induction false} AgreeTake(bs: Boxes, cs: Boxes)
    requires Agree(bs, cs) && Length(bs) <= Length(cs)
    ensures bs == Take(cs, Length(bs))
  {
    if bs.More? {
      AgreeTake(bs.rest, cs.rest);
    }
  }

  lemma {:induction false} TakeAll(bs: Boxes)
    ensures Take(bs, Length(bs)) == bs
  {
    if bs.More? {
      TakeAll(bs.rest);
    }
  }

  /** A row ends behind each of its beginnings. */
  lemma {:induction false} RowGrows(d: seq<byte>, bs: Boxes, n: nat, from: nat, limit: nat, depth: nat, maxDepth: nat)
    requires limit <= |d| && Row(d, bs, from, limit, depth, maxDepth)
    ensures from <= RowEnd(Take(bs, n), from) <= RowEnd(bs, from)
    ensures n < Length(bs) ==> RowEnd(Take(bs, n), from) < RowEnd(bs, from)
    decreases bs
  {
    if bs.More? {
      if n == 0 {
        RowGrows(d, bs.rest, 0, bs.first.end, limit, depth, maxDepth);
      } else {
        RowGrows(d, bs.rest, n - 1, bs.first.end, limit, depth, maxDepth);
      }
    }
  }

  lemma {:induction false} SameBox(d: seq<byte>, b: Box, c: Box, limit: nat, depth: nat, maxDepth: nat)
    requires limit <= |d| && b.start == c.start
    requires Describes(d, b, limit, depth, maxDepth) && Describes(d, c, limit, depth, maxDepth)
    ensures b == c
    decreases b
  {
    var h := HeaderAt(d, b.start, limit).value;
    var l := LayoutOf(d, h);
    if l.All? || l.Count? {
      RowsAgree(d, b.children, c.children, l.from, h.end, depth + 1, maxDepth);
      if l.All? {
        FullRowsSame(d, b.children, c.children, l.from, h.end, depth + 1, maxDepth);
      } else {
        AgreeTake(b.children, c.children);
        TakeAll(c.children);
      }
    }
  }

  lemma {:induction false} RowsAgree(d: seq<byte>, bs: Boxes, cs: Boxes, from: nat, limit: nat, depth: nat,
                                       maxDepth: nat)
    requires limit <= |d|
    requires Row(d, bs, from, limit, depth, maxDepth) && Row(d, cs, from, limit, depth, maxDepth)
    ensures Agree(bs, cs)
    decreases bs
  {
    if bs.More? && cs.More? {
      SameBox(d, bs.first, cs.first, limit, depth, maxDepth);
      RowsAgree(d, bs.rest, cs.rest, bs.first.end, limit, depth, maxDepth);
    }
  }

  lemma FullRowsSame(d: seq<byte>, bs: Boxes, cs: Boxes, from: nat, limit: nat, depth: nat, maxDepth: nat)
    requires limit <= |d| && Agree(bs, cs)
    requires Row(d, bs, from, limit, depth, maxDepth) && Row(d, cs, from, limit, depth, maxDepth)
    requires Fills(bs, from, limit) && Fills(cs, from, limit)
    ensures bs == cs
  {
    if from < limit {
      AgreeSymmetric(bs, cs);
      if Length(bs) <= Length(cs) {
        AgreeTake(bs, cs);
        RowGrows(d, cs, Length(bs), from, limit, depth, maxDepth);
        TakeAll(cs);
      } else {
        AgreeTake(cs, bs);
        RowGrows(d, bs, Length(cs), from, limit, depth, maxDepth);
      }
    }
  }

  lemma {:induction false} AgreeSymmetric(bs: Boxes, cs: Boxes)
    requires Agree(bs, cs)
    ensures Agree(cs, bs)
  {
    if bs.More? && cs.More? {
      AgreeSymmetric(bs.rest, cs.rest);
    }
  }

  // ---------- building a row ----------

  /** A row of one more box in front. */
  lemma RowCons(d: seq<byte>, b: Box, rest: Boxes, limit: nat, depth: nat, maxDepth: nat)
    requires limit <= |d| && Describes(d, b, limit, depth, maxDepth) && Row(d, rest, b.end, limit, depth, maxDepth)
    ensures Row(d, More(b, rest), b.start, limit, depth, maxDepth)
  {
  }

  function Snoc(bs: Boxes, b: Box): Boxes {
    if bs.End? then More(b, End) else More(bs.first, Snoc(bs.rest, b))
  }

  lemma {:induction false} RowSnoc(d: seq<byte>, bs: Boxes, b: Box, from: nat, limit: nat, depth: nat, maxDepth: nat)
    requires limit <= |d| && Row(d, bs, from, limit, depth, maxDepth)
    requires b.start == RowEnd(bs, from) && Describes(d, b, limit, depth, maxDepth)
    ensures Row(d, Snoc(bs, b), from, limit, depth, maxDepth)
    ensures RowEnd(Snoc(bs, b), from) == b.end
    ensures Length(Snoc(bs, b)) == Length(bs) + 1
    ensures AllStarts(Snoc(bs, b)) == AllStarts(bs) + Starts(b)
    decreases bs
  {
    if bs.More? {
      RowSnoc(d, bs.rest, b, bs.first.end, limit, depth, maxDepth);
      Regroup(Starts(bs.first), AllStarts(bs.rest), Starts(b));
    }
  }

  function Nth(bs: Boxes, n: nat): Box
    requires n < Length(bs)
  {
    if n == 0 then bs.first else Nth(bs.rest, n - 1)
  }

  /** A longer row at the same place goes on, where the shorter one ends, with a box that counts with it. */
  lemma {:induction false} RowGoesOn(d: seq<byte>, bs: Boxes, cs: Boxes, from: nat, limit: nat, depth: nat,
                                       maxDepth: nat)
    requires limit <= |d| && Length(bs) < Length(cs)
    requires Row(d, bs, from, limit, depth, maxDepth) && Row(d, cs, from, limit, depth, maxDepth)
    ensures var c := Nth(cs, Length(bs));
            && c.start == RowEnd(bs, from) && Describes(d, c, limit, depth, maxDepth)
            && |AllStarts(bs)| + |Starts(c)| <= |AllStarts(cs)|
    decreases bs
  {
    if bs.More? {
      SameBox(d, bs.first, cs.first, limit, depth, maxDepth);
      RowGoesOn(d, bs.rest, cs.rest, bs.first.end, limit, depth, maxDepth);
    }
  }

  /** A row that reaches further than another at the same place is longer. */
  lemma FurtherIsLonger(d: seq<byte>, bs: Boxes, cs: Boxes, from: nat, limit: nat, depth: nat, maxDepth: nat)
    requires limit <= |d|
    requires Row(d, bs, from, limit, depth, maxDepth) && Row(d, cs, from, limit, depth, maxDepth)
    requires RowEnd(bs, from) < RowEnd(cs, from)
    ensures Length(bs) < Length(cs)
  {
  }

  // ---------- addresses that move on ----------

  /** Each address is at least a box header behind the one before. */
  ghost predicate Spaced(entries: seq<nat>) {
    forall i, j | 0 <= i < j < |entries| :: entries[i] + 8 <= entries[j]
  }

  ghost predicate Before(entries: seq<nat>, pos: nat) {
    forall i | 0 <= i < |entries| :: entries[i] + 8 <= pos
  }

  lemma SpacedSnoc(entries: seq<nat>, pos: nat)
    requires Spaced(entries) && Before(entries, pos)
    ensures Spaced(entries + [pos]) && Before(entries + [pos], pos + 8)
  {
  }

  /** So there are no more of them than headers fit in the file. */
  lemma {:induction false} SpacedBound(entries: seq<nat>, end: nat)
    requires Spaced(entries) && Before(entries, end)
    ensures 8 * |entries| <= end
  {
    if entries != [] {
      var last := |entries| - 1;
      SpacedBound(entries[..last], entries[last]);
    }
  }

  function Seen(entries: seq<nat>): set<nat> {
    set a | a in entries
  }

  lemma {:induction false} SeenSize(entries: seq<nat>)
    requires Spaced(entries)
    ensures |Seen(entries)| == |entries|
  {
    if entries != [] {
      var last := |entries| - 1;
      SeenSize(entries[..last]);
      assert entries == entries[..last] + [entries[last]];
      assert Seen(entries) == Seen(entries[..last]) + {entries[last]};
      assert entries[last] !in entries[..last];
    }
  }
}
