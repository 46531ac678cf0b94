/** Box trees as bytes, written out, and what the walk makes of them. */
module BmffWriter {
  import opened Basics
  import opened Bytes
  import opened BmffBoxes

  // ---------- numbers, most significant byte first ----------

  function Big16(n: nat): (s: seq<byte>)
    ensures |s| == 2
  {
    [n / 0x100 % 0x100, n % 0x100]
  }

  function Big32(n: nat): (s: seq<byte>)
    ensures |s| == 4
  {
    [n / 0x100_0000 % 0x100, n / 0x1_0000 % 0x100, n / 0x100 % 0x100, n % 0x100]
  }

  function Big64(n: nat): (s: seq<byte>)
    ensures |s| == 8
  {
    Big32(n / 0x1_0000_0000) + Big32(n % 0x1_0000_0000)
  }

  lemma Read16(d: seq<byte>, at: nat, n: nat)
    requires n < 0x1_0000 && At(d, at, Big16(n))
    ensures U16(d, at) == n
  {
    AtBytes(d, at, Big16(n));
    assert d[at + 0] == n / 0x100 && d[at + 1] == n % 0x100;
  }

  lemma Read32(d: seq<byte>, at: nat, n: nat)
    requires n < 0x1_0000_0000 && At(d, at, Big32(n))
    ensures U32(d, at) == n
  {
    AtBytes(d, at, Big32(n));
    Digits32(n);
    assert d[at + 0] == n / 0x100_0000 && d[at + 1] == n / 0x1_0000 % 0x100;
    assert d[at + 2] == n / 0x100 % 0x100 && d[at + 3] == n % 0x100;
  }

  lemma Digits32(n: nat)
    requires n < 0x1_0000_0000
    ensures n / 0x100_0000 < 0x100
    ensures n == (n / 0x100_0000 * 0x100 + n / 0x1_0000 % 0x100) * 0x1_0000 + (n / 0x100 % 0x100 * 0x100 + n % 0x100)
  {
    var a := n / 0x100;
    var b := a / 0x100;
    assert b == n / 0x1_0000 && b / 0x100 == n / 0x100_0000;
  }

  lemma Read64(d: seq<byte>, at: nat, n: nat)
    requires n < 0x1_0000_0000_0000_0000 && At(d, at, Big64(n))
    ensures U64(d, at) == n
  {
    AtSplit(d, at, Big32(n / 0x1_0000_0000), Big32(n % 0x1_0000_0000));
    Read32(d, at, n / 0x1_0000_0000);
    Read32(d, at + 4, n % 0x1_0000_0000);
  }

  // ---------- box trees ----------

  /** How a box tells its length: in four bytes, in eight, or by reaching to the end of what it is in. */
  datatype Form = Short | Wide | Rest

  /** The boxes with inner boxes, by what stands before these, and all others. */
  datatype Node =
    | Leaf(form: Form, name: seq<byte>, data: seq<byte>)
    | Container(form: Form, name: seq<byte>, inner: Nodes)                    // moov, iprp, ipco
    | Meta(form: Form, flags: seq<byte>, inner: Nodes)                        // version and flags
    | Iinf(form: Form, flags: seq<byte>, inner: Nodes, more: seq<byte>)       // version and flags, a count
    | Cano(form: Form, inner: Nodes)                                          // a name of 16 bytes
    | Canp(form: Form, skipped: seq<byte>, inner: Nodes)                      // another one, and eight bytes more

  datatype Nodes = Nil | Cons(head: Node, tail: Nodes)

  function Count(ns: Nodes): nat {
    if ns.Nil? then 0 else 1 + Count(ns.tail)
  }

  function NameOf(n: Node): seq<byte> {
    match n
    case Leaf(_, name, _) => name
    case Container(_, name, _) => name
    case Meta(_, _, _) => [0x6d, 0x65, 0x74, 0x61]
    case Iinf(_, _, _, _) => [0x69, 0x69, 0x6e, 0x66]
    case Cano(_, _) => [0x75, 0x75, 0x69, 0x64]
    case Canp(_, _, _) => [0x75, 0x75, 0x69, 0x64]
  }

  const CANON: seq<byte> :=
    [0x85, 0xc0, 0xb6, 0x87, 0x82, 0x0f, 0x11, 0xe0, 0x81, 0x11, 0xf4, 0xce, 0x46, 0x2b, 0x6a, 0x48]
  const CANON_PREVIEW: seq<byte> :=
    [0xea, 0xf4, 0x2b, 0x5e, 0x1c, 0x98, 0x4b, 0x88, 0xb9, 0xfb, 0xb7, 0xdc, 0x40, 0x6e, 0x4d, 0x16]

  /** What stands between the header and the inner boxes, or the end. */
  function Front(n: Node): seq<byte> {
    match n
    case Leaf(_, _, data) => data
    case Container(_, _, _) => []
    case Meta(_, flags, _) => flags
    case Iinf(_, flags, inner, _) => flags + Big16(Count(inner))
    case Cano(_, _) => CANON
    case Canp(_, skipped, _) => CANON_PREVIEW + skipped
  }

  function Back(n: Node): seq<byte> {
    if n.Iinf? then n.more else []
  }

  function Payload(n: Node): seq<byte>
    decreases n, 1
  {
    Front(n) + (if n.Leaf? then [] else WrittenAll(n.inner)) + Back(n)
  }

  function Head(form: Form, name: seq<byte>, size: nat): seq<byte> {
    match form
    case Short => Big32(8 + size) + name
    case Wide => [0, 0, 0, 1] + name + Big64(16 + size)
    case Rest => [0, 0, 0, 0] + name
  }

  function Written(n: Node): seq<byte>
    decreases n, 2
  {
    Head(n.form, NameOf(n), |Payload(n)|) + Payload(n)
  }

  function WrittenAll(ns: Nodes): seq<byte> {
    if ns.Nil? then [] else Written(ns.head) + WrittenAll(ns.tail)
  }

  /** The fields have their lengths, and names are not those of other kinds of boxes. */
  predicate Good(n: Node) {
    && |NameOf(n)| == 4
    && match n
       case Leaf(_, name, data) =>
         && name != [0x6d, 0x65, 0x74, 0x61] && name != [0x69, 0x69, 0x6e, 0x66]           // meta, iinf
         && name != [0x6d, 0x6f, 0x6f, 0x76] && name != [0x69, 0x70, 0x72, 0x70]           // moov, iprp
         && name != [0x69, 0x70, 0x63, 0x6f]                                               // ipco
         && (name == [0x69, 0x6c, 0x6f, 0x63] ==> |data| >= 4)                             // iloc
         && (name == [0x54, 0x48, 0x4d, 0x42] ==> |data| >= 4)                             // THMB
         && (name == [0x50, 0x52, 0x56, 0x57] ==> |data| >= 4)                             // PRVW
         && (name == [0x75, 0x75, 0x69, 0x64] ==>                                          // uuid
               |data| >= 16 && data[..16] != CANON && data[..16] != CANON_PREVIEW)
       case Container(_, name, inner) =>
         (name == [0x6d, 0x6f, 0x6f, 0x76] || name == [0x69, 0x70, 0x72, 0x70] || name == [0x69, 0x70, 0x63, 0x6f])
         && GoodAll(inner)
       case Meta(_, flags, inner) => |flags| == 4 && GoodAll(inner)
       case Iinf(_, flags, inner, _) => |flags| == 4 && Count(inner) < 0x1_0000 && GoodAll(inner)
       case Cano(_, inner) => GoodAll(inner)
       case Canp(_, skipped, inner) => |skipped| == 8 && GoodAll(inner)
  }

  predicate GoodAll(ns: Nodes) {
    ns.Cons? ==> Good(ns.head) && GoodAll(ns.tail)
  }

  /** The lengths can be told; only a box that ends with what it is in, which `last` says, may leave it out. */
  predicate Fits(n: Node, last: bool)
    decreases n, 1
  {
    && (n.form.Short? ==> 8 + |Payload(n)| < 0x1_0000_0000)
    && (n.form.Wide? ==> 16 + |Payload(n)| < 0x1_0000_0000_0000_0000)
    && (n.form.Rest? ==> last)
    && (n.Leaf? || FitAll(n.inner, Back(n) == []))
  }

  predicate FitAll(ns: Nodes, last: bool) {
    ns.Cons? ==> Fits(ns.head, last && ns.tail.Nil?) && FitAll(ns.tail, last)
  }

  function Height(n: Node): nat
    decreases n, 1
  {
    if n.Leaf? then 1 else 1 + HeightAll(n.inner)
  }

  function HeightAll(ns: Nodes): nat {
    if ns.Nil? then 0 else Max(Height(ns.head), HeightAll(ns.tail))
  }

  /** How many boxes there are. */
  function Size(n: Node): nat
    decreases n, 1
  {
    if n.Leaf? then 1 else 1 + SizeAll(n.inner)
  }

  function SizeAll(ns: Nodes): nat {
    if ns.Nil? then 0 else Size(ns.head) + SizeAll(ns.tail)
  }

  function HeadSize(form: Form): nat {
    if form.Wide? then 16 else 8
  }

  /** The box at `at`, with the addresses of all boxes in it. */
  function Placed(n: Node, at: nat): Box
    decreases n, 1
  {
    Box(at, at + |Written(n)|, if n.Leaf? then End else PlacedAll(n.inner, at + HeadSize(n.form) + |Front(n)|))
  }

  function PlacedAll(ns: Nodes, at: nat): Boxes {
    if ns.Nil? then End else More(Placed(ns.head, at), PlacedAll(ns.tail, at + |Written(ns.head)|))
  }

  // ---------- headers are read back ----------

  /** The number that four bytes stand for. */
  function Number(name: seq<byte>): nat
    requires |name| == 4
  {
    (name[0] as int) * 0x100_0000 + (name[1] as int) * 0x1_0000 + (name[2] as int) * 0x100 + (name[3] as int)
  }

  lemma NumberRead(d: seq<byte>, at: nat, name: seq<byte>)
    requires |name| == 4 && At(d, at, name)
    ensures U32(d, at) == Number(name)
  {
    AtBytes(d, at, name);
    assert d[at + 0] == name[0];
  }

  /** Different names are different numbers. */
  lemma NumbersDiffer(a: seq<byte>, b: seq<byte>)
    requires |a| == |b| == 4 && Number(a) == Number(b)
    ensures a == b
  {
    assert a[0] == b[0];
    assert a[1] == b[1];
    assert a[2] == b[2];
  }

  /** The length can be told in this form. */
  predicate Tells(form: Form, size: nat, last: bool) {
    match form
    case Short => 8 + size < 0x1_0000_0000
    case Wide => 16 + size < 0x1_0000_0000_0000_0000
    case Rest => last
  }

  lemma ShortRead(d: seq<byte>, at: nat, limit: nat, name: seq<byte>, size: nat, payload: nat)
    requires |name| == 4 && At(d, at, Big32(8 + size) + name) && payload == at + 8
    requires payload + size <= limit <= |d| && 8 + size < 0x1_0000_0000
    ensures HeaderAt(d, at, limit) == Some(Header(Number(name), payload, payload + size))
  {
    AtSplit(d, at, Big32(8 + size), name);
    Read32(d, at, 8 + size);
    NumberRead(d, at + 4, name);
  }

  lemma WideRead(d: seq<byte>, at: nat, limit: nat, name: seq<byte>, size: nat, payload: nat)
    requires |name| == 4 && At(d, at, [0, 0, 0, 1] + name + Big64(16 + size)) && payload == at + 16
    requires payload + size <= limit <= |d| && 16 + size < 0x1_0000_0000_0000_0000
    ensures HeaderAt(d, at, limit) == Some(Header(Number(name), payload, payload + size))
  {
    AtSplit(d, at, [0, 0, 0, 1] + name, Big64(16 + size));
    AtSplit(d, at, [0, 0, 0, 1], name);
    NumberRead(d, at, [0, 0, 0, 1]);
    NumberRead(d, at + 4, name);
    Read64(d, at + 8, 16 + size);
  }

  lemma RestRead(d: seq<byte>, at: nat, limit: nat, name: seq<byte>, payload: nat)
    requires |name| == 4 && At(d, at, [0, 0, 0, 0] + name) && payload == at + 8 <= limit <= |d|
    ensures HeaderAt(d, at, limit) == Some(Header(Number(name), payload, limit))
  {
    AtSplit(d, at, [0, 0, 0, 0], name);
    NumberRead(d, at, [0, 0, 0, 0]);
    NumberRead(d, at + 4, name);
  }

  lemma HeadRead(d: seq<byte>, at: nat, limit: nat, form: Form, name: seq<byte>, size: nat, payload: nat)
    requires |name| == 4 && At(d, at, Head(form, name, size)) && payload == at + HeadSize(form)
    requires payload + size <= limit <= |d| && Tells(form, size, payload + size == limit)
    ensures HeaderAt(d, at, limit) == Some(Header(Number(name), payload, payload + size))
  {
    match form
    case Short => ShortRead(d, at, limit, name, size, payload);
    case Wide => WideRead(d, at, limit, name, size, payload);
    case Rest => RestRead(d, at, limit, name, payload);
  }

  lemma HeadLength(form: Form, name: seq<byte>, size: nat)
    requires |name| == 4
    ensures |Head(form, name, size)| == HeadSize(form)
  {
  }

  // ---------- layouts are read back ----------

  /** Where the inner boxes are. */
  function Layed(n: Node, payload: nat): Layout {
    match n
    case Leaf(_, _, _) => Plain
    case Iinf(_, _, inner, _) => BmffBoxes.Count(Count(inner), payload + 6)
    case Meta(_, _, _) => All(payload + 4)
    case Container(_, _, _) => All(payload)
    case Cano(_, _) => All(payload + 16)
    case Canp(_, _, _) => All(payload + 24)
  }

  lemma LeafRead(d: seq<byte>, h: Header, n: Node)
    requires h.payload <= h.end <= |d| && n.Leaf? && Good(n) && h.tag == Number(n.name)
    requires At(d, h.payload, n.data) && h.end == h.payload + |n.data|
    ensures LayoutOf(d, h) == Plain
  {
    LeafTag(n.name, h.tag);
    if n.name == [0x75, 0x75, 0x69, 0x64] {
      assert n.data == n.data[..16] + n.data[16..];
      AtSplit(d, h.payload, n.data[..16], n.data[16..]);
    } else if h.tag == TAG_uuid {
      NumbersDiffer(n.name, [0x75, 0x75, 0x69, 0x64]);
    }
    if h.tag == TAG_iloc {
      NumbersDiffer(n.name, [0x69, 0x6c, 0x6f, 0x63]);
    } else if h.tag == TAG_thmb {
      NumbersDiffer(n.name, [0x54, 0x48, 0x4d, 0x42]);
    } else if h.tag == TAG_prvw {
      NumbersDiffer(n.name, [0x50, 0x52, 0x56, 0x57]);
    }
  }

  /** The names of boxes with inner boxes have no other spelling. */
  lemma LeafTag(name: seq<byte>, tag: Tag)
    requires |name| == 4 && tag == Number(name)
    requires name != [0x6d, 0x65, 0x74, 0x61] && name != [0x69, 0x69, 0x6e, 0x66]
    requires name != [0x6d, 0x6f, 0x6f, 0x76] && name != [0x69, 0x70, 0x72, 0x70] && name != [0x69, 0x70, 0x63, 0x6f]
    ensures tag != TAG_meta && tag != TAG_iinf && tag != TAG_moov && tag != TAG_iprp && tag != TAG_ipco
  {
    if tag == TAG_meta {
      NumbersDiffer(name, [0x6d, 0x65, 0x74, 0x61]);
    } else if tag == TAG_iinf {
      NumbersDiffer(name, [0x69, 0x69, 0x6e, 0x66]);
    } else if tag == TAG_moov {
      NumbersDiffer(name, [0x6d, 0x6f, 0x6f, 0x76]);
    } else if tag == TAG_iprp {
      NumbersDiffer(name, [0x69, 0x70, 0x72, 0x70]);
    } else if tag == TAG_ipco {
      NumbersDiffer(name, [0x69, 0x70, 0x63, 0x6f]);
    }
  }

  lemma LayoutRead(d: seq<byte>, h: Header, n: Node)
    requires h.payload <= h.end <= |d| && Good(n) && h.tag == Number(NameOf(n))
    requires At(d, h.payload, Payload(n)) && h.end == h.payload + |Payload(n)|
    ensures LayoutOf(d, h) == Layed(n, h.payload)
  {
    if n.Leaf? {
      assert Payload(n) == n.data;
      LeafRead(d, h, n);
    } else {
      var rest := WrittenAll(n.inner) + Back(n);
      assert Payload(n) == Front(n) + rest;
      AtSplit(d, h.payload, Front(n), rest);
      FrontRead(d, h, n);
    }
  }

  lemma FrontRead(d: seq<byte>, h: Header, n: Node)
    requires h.payload <= h.end <= |d| && Good(n) && !n.Leaf? && h.tag == Number(NameOf(n))
    requires At(d, h.payload, Front(n)) && h.payload + |Front(n)| <= h.end
    ensures LayoutOf(d, h) == Layed(n, h.payload)
  {
    match n
    case Iinf(_, flags, inner, _) =>
      AtSplit(d, h.payload, flags, Big16(Count(inner)));
      Read16(d, h.payload + 4, Count(inner));
    case Canp(_, skipped, _) =>
      AtSplit(d, h.payload, CANON_PREVIEW, skipped);
    case _ =>
  }

  /** Exactly these boxes are too short: full boxes without version and flags, and lists without a count. */
  lemma TooShortIff(d: seq<byte>, h: Header)
    requires h.payload <= h.end <= |d|
    ensures LayoutOf(d, h).Broken? <==>
              || (h.end - h.payload < 4
                  && h.tag in {Number([0x6d, 0x65, 0x74, 0x61]), Number([0x69, 0x6c, 0x6f, 0x63]),     // meta, iloc
                               Number([0x54, 0x48, 0x4d, 0x42]), Number([0x50, 0x52, 0x56, 0x57])})    // THMB, PRVW
              || (h.end - h.payload < 6 && h.tag == Number([0x69, 0x69, 0x6e, 0x66]))                  // iinf
  {
  }

  /** Exactly these headers are refused: cut ones, and those whose length is too short for themselves or too long for
      what the box is in. */
  lemma HeaderNoneIff(d: seq<byte>, at: nat, limit: nat)
    requires at <= limit <= |d|
    ensures HeaderAt(d, at, limit).None? <==>
              || limit - at < 8 || U32(d, at) > limit - at || 2 <= U32(d, at) < 8
              || (U32(d, at) == 1 && (limit - at < 16 || 1 <= U64(d, at + 8) < 16 || U64(d, at + 8) > limit - at))
  {
  }

  // ---------- trees are read back ----------

  lemma WrittenIs(n: Node)
    requires Good(n)
    ensures |Written(n)| == HeadSize(n.form) + |Payload(n)|
    ensures !n.Leaf? ==> |Payload(n)| == |Front(n)| + |WrittenAll(n.inner)| + |Back(n)|
  {
    HeadLength(n.form, NameOf(n), |Payload(n)|);
  }

  lemma FitsMore(n: Node, last: bool)
    requires Fits(n, false)
    ensures Fits(n, last)
  {
  }

  /** The header and the layout have been read, and the inner boxes are described. */
  lemma Assembled(d: seq<byte>, n: Node, at: nat, limit: nat, depth: nat, maxDepth: nat, h: Header, from: nat)
    requires at <= limit <= |d| && depth < maxDepth && Good(n) && HeaderAt(d, at, limit) == Some(h)
    requires h.payload == at + HeadSize(n.form) && h.end == at + |Written(n)| && from == h.payload + |Front(n)|
    requires LayoutOf(d, h) == Layed(n, h.payload)
    requires !n.Leaf? ==>
               && Described(d, n.inner, PlacedAll(n.inner, from), from, h.end, depth + 1, maxDepth)
               && from + |WrittenAll(n.inner)| + |Back(n)| == h.end
    ensures Describes(d, Placed(n, at), limit, depth, maxDepth)
  {
    var cs := if n.Leaf? then End else PlacedAll(n.inner, from);
    PlacedIs(n, at, from, cs);
    if !n.Leaf? {
      InsideIs(d, n, h.payload, cs, from, h.end, depth + 1, maxDepth);
    }
    DescribesIs(d, Box(at, h.end, cs), limit, depth, maxDepth, h);
  }

  lemma PlacedIs(n: Node, at: nat, from: nat, cs: Boxes)
    requires from == at + HeadSize(n.form) + |Front(n)| && cs == if n.Leaf? then End else PlacedAll(n.inner, from)
    ensures Placed(n, at) == Box(at, at + |Written(n)|, cs)
  {
  }

  lemma DescribesIs(d: seq<byte>, b: Box, limit: nat, depth: nat, maxDepth: nat, h: Header)
    requires b.start <= limit <= |d| && depth < maxDepth && HeaderAt(d, b.start, limit) == Some(h) && b.end == h.end
    requires Inside(d, LayoutOf(d, h), b.children, h.end, depth + 1, maxDepth)
    ensures Describes(d, b, limit, depth, maxDepth)
  {
  }

  /** The described inner boxes are what the layout of the box asks for. */
  lemma InsideIs(d: seq<byte>, n: Node, payload: nat, cs: Boxes, from: nat, end: nat, depth: nat, maxDepth: nat)
    requires !n.Leaf? && Good(n) && from == payload + |Front(n)| && end <= |d|
    requires Described(d, n.inner, cs, from, end, depth, maxDepth)
    requires from + |WrittenAll(n.inner)| + |Back(n)| == end
    ensures Inside(d, Layed(n, payload), cs, end, depth, maxDepth)
  {
    if n.Iinf? {
      assert Layed(n, payload) == BmffBoxes.Count(Count(n.inner), from);
    } else {
      assert Layed(n, payload) == All(from);
    }
  }

  lemma FramedRead(d: seq<byte>, at: nat, limit: nat, form: Form, name: seq<byte>, p: seq<byte>, payload: nat, end: nat)
    requires |name| == 4 && At(d, at, Head(form, name, |p|) + p)
    requires payload == at + HeadSize(form) && end == payload + |p| <= limit <= |d| && Tells(form, |p|, end == limit)
    ensures HeaderAt(d, at, limit) == Some(Header(Number(name), payload, end)) && At(d, payload, p)
  {
    HeadAt(d, at, form, name, p, payload);
    HeadRead(d, at, limit, form, name, |p|, payload);
  }

  lemma HeadAt(d: seq<byte>, at: nat, form: Form, name: seq<byte>, p: seq<byte>, payload: nat)
    requires |name| == 4 && At(d, at, Head(form, name, |p|) + p) && payload == at + HeadSize(form)
    ensures At(d, at, Head(form, name, |p|)) && At(d, payload, p)
  {
    HeadLength(form, name, |p|);
    AtSplit(d, at, Head(form, name, |p|), p);
  }

  lemma FitsTells(n: Node, last: bool)
    requires Fits(n, last)
    ensures Tells(n.form, |Payload(n)|, last)
  {
  }

  lemma HeaderRead(d: seq<byte>, n: Node, at: nat, limit: nat, payload: nat, end: nat)
    requires At(d, at, Written(n)) && payload == at + HeadSize(n.form) && end == at + |Written(n)| <= limit <= |d|
    requires Good(n) && Fits(n, end == limit)
    ensures payload <= end && HeaderAt(d, at, limit) == Some(Header(Number(NameOf(n)), payload, end))
    ensures At(d, payload, Payload(n)) && end == payload + |Payload(n)|
  {
    WrittenIs(n);
    FitsTells(n, end == limit);
    FramedRead(d, at, limit, n.form, NameOf(n), Payload(n), payload, end);
  }

  /** The box is written at `at`, and may be nested in boxes of this depth. */
  ghost predicate Stands(d: seq<byte>, n: Node, at: nat, limit: nat, depth: nat, maxDepth: nat) {
    && At(d, at, Written(n)) && at + |Written(n)| <= limit <= |d|
    && Good(n) && Fits(n, at + |Written(n)| == limit) && depth + Height(n) <= maxDepth
  }

  /** The header and the layout of a box that stands in the file. */
  lemma FrontOf(d: seq<byte>, n: Node, at: nat, limit: nat, depth: nat, maxDepth: nat, h: Header)
    requires Stands(d, n, at, limit, depth, maxDepth)
    requires h == Header(Number(NameOf(n)), at + HeadSize(n.form), at + |Written(n)|)
    ensures at <= h.payload <= h.end <= limit && depth < maxDepth && HeaderAt(d, at, limit) == Some(h)
    ensures LayoutOf(d, h) == Layed(n, h.payload) && At(d, h.payload, Payload(n))
  {
    HeaderRead(d, n, at, limit, h.payload, h.end);
    LayoutRead(d, h, n);
  }

  /** The inner boxes of a box that stands in the file. */
  lemma InnerStand(d: seq<byte>, n: Node, at: nat, limit: nat, depth: nat, maxDepth: nat, payload: nat, from: nat,
                   end: nat)
    requires Stands(d, n, at, limit, depth, maxDepth) && !n.Leaf? && At(d, payload, Payload(n))
    requires payload == at + HeadSize(n.form) && from == payload + |Front(n)| && end == at + |Written(n)|
    ensures Stand(d, n.inner, from, end, depth + 1, maxDepth) && from + |WrittenAll(n.inner)| + |Back(n)| == end
  {
    InnerAt(d, payload, n);
    InnerFits(n, at, from, end);
  }

  /** A written box is described by its tree. */
  lemma {:induction false} NodeDescribed(d: seq<byte>, n: Node, at: nat, limit: nat, depth: nat, maxDepth: nat)
    requires Stands(d, n, at, limit, depth, maxDepth)
    ensures Describes(d, Placed(n, at), limit, depth, maxDepth)
    decreases n, 1
  {
    var payload, end := at + HeadSize(n.form), at + |Written(n)|;
    var from, h := payload + |Front(n)|, Header(Number(NameOf(n)), payload, end);
    FrontOf(d, n, at, limit, depth, maxDepth, h);
    if !n.Leaf? {
      InnerStand(d, n, at, limit, depth, maxDepth, payload, from, end);
      RowDescribed(d, n.inner, from, end, depth + 1, maxDepth);
    }
    Assembled(d, n, at, limit, depth, maxDepth, h, from);
  }

  lemma InnerFits(n: Node, at: nat, from: nat, end: nat)
    requires Good(n) && !n.Leaf? && FitAll(n.inner, Back(n) == [])
    requires end == at + |Written(n)| && from == at + HeadSize(n.form) + |Front(n)|
    ensures from + |WrittenAll(n.inner)| + |Back(n)| == end && GoodAll(n.inner)
    ensures FitAll(n.inner, from + |WrittenAll(n.inner)| == end)
  {
    WrittenIs(n);
  }

  lemma MiddleAt(d: seq<byte>, at: nat, a: seq<byte>, b: seq<byte>, c: seq<byte>)
    requires At(d, at, a + b + c)
    ensures At(d, at + |a|, b)
  {
    AtSplit(d, at, a + b, c);
    AtSplit(d, at, a, b);
  }

  lemma InnerAt(d: seq<byte>, payload: nat, n: Node)
    requires !n.Leaf? && At(d, payload, Payload(n))
    ensures At(d, payload + |Front(n)|, WrittenAll(n.inner))
  {
    MiddleAt(d, payload, Front(n), WrittenAll(n.inner), Back(n));
  }

  lemma HeadFits(ns: Nodes, from: nat, limit: nat)
    requires ns.Cons? && FitAll(ns, from + |WrittenAll(ns)| == limit)
    ensures Fits(ns.head, from + |Written(ns.head)| == limit)
    ensures FitAll(ns.tail, from + |Written(ns.head)| + |WrittenAll(ns.tail)| == limit)
  {
    if ns.tail.Cons? {
      FitsMore(ns.head, from + |Written(ns.head)| == limit);
    } else {
      assert WrittenAll(ns) == Written(ns.head) + [];
    }
  }

  /** The boxes are written from `from` on, and may be nested in boxes of this depth. */
  ghost predicate Stand(d: seq<byte>, ns: Nodes, from: nat, limit: nat, depth: nat, maxDepth: nat) {
    && At(d, from, WrittenAll(ns)) && from + |WrittenAll(ns)| <= limit <= |d|
    && GoodAll(ns) && FitAll(ns, from + |WrittenAll(ns)| == limit) && depth + HeightAll(ns) <= maxDepth
  }

  /** They are described by their trees, without gap. */
  ghost predicate Described(d: seq<byte>, ns: Nodes, cs: Boxes, from: nat, limit: nat, depth: nat, maxDepth: nat) {
    && limit <= |d| && Row(d, cs, from, limit, depth, maxDepth)
    && RowEnd(cs, from) == from + |WrittenAll(ns)| && Length(cs) == Count(ns) && (ns.Cons? ==> |WrittenAll(ns)| > 0)
  }

  lemma {:induction false} RowDescribed(d: seq<byte>, ns: Nodes, from: nat, limit: nat, depth: nat, maxDepth: nat)
    requires Stand(d, ns, from, limit, depth, maxDepth)
    ensures Described(d, ns, PlacedAll(ns, from), from, limit, depth, maxDepth)
    decreases ns, 0
  {
    if ns.Cons? {
      var next := from + |Written(ns.head)|;
      RowAt(d, ns, from, next);
      StandTail(d, ns, from, limit, depth, maxDepth, next);
      HeightSplit(ns, depth, maxDepth);
      LongEnough(ns.head);
      RowDescribed(d, ns.tail, next, limit, depth, maxDepth);
      NodeDescribed(d, ns.head, from, limit, depth, maxDepth);
      DescribedCons(d, ns, Placed(ns.head, from), PlacedAll(ns.tail, next), from, next, limit, depth, maxDepth);
    }
  }

  lemma HeightSplit(ns: Nodes, depth: nat, maxDepth: nat)
    requires ns.Cons? && depth + HeightAll(ns) <= maxDepth
    ensures depth + Height(ns.head) <= maxDepth && depth + HeightAll(ns.tail) <= maxDepth
  {
  }

  lemma DescribedCons(d: seq<byte>, ns: Nodes, b: Box, cs: Boxes, from: nat, next: nat, limit: nat, depth: nat,
                      maxDepth: nat)
    requires ns.Cons? && limit <= |d| && b.start == from && b.end == next == from + |Written(ns.head)|
    requires |Written(ns.head)| >= 8 && Describes(d, b, limit, depth, maxDepth)
    requires Described(d, ns.tail, cs, next, limit, depth, maxDepth)
    ensures Described(d, ns, More(b, cs), from, limit, depth, maxDepth)
  {
    RowCons(d, b, cs, limit, depth, maxDepth);
    assert |WrittenAll(ns)| == |Written(ns.head)| + |WrittenAll(ns.tail)|;
  }

  /** The first box of a written row, and the others. */
  lemma RowAt(d: seq<byte>, ns: Nodes, from: nat, next: nat)
    requires ns.Cons? && At(d, from, WrittenAll(ns)) && next == from + |Written(ns.head)|
    ensures At(d, from, Written(ns.head)) && At(d, next, WrittenAll(ns.tail))
    ensures from + |WrittenAll(ns)| == next + |WrittenAll(ns.tail)|
  {
    AtSplit(d, from, Written(ns.head), WrittenAll(ns.tail));
  }

  lemma StandTail(d: seq<byte>, ns: Nodes, from: nat, limit: nat, depth: nat, maxDepth: nat, next: nat)
    requires ns.Cons? && Stand(d, ns, from, limit, depth, maxDepth) && next == from + |Written(ns.head)|
    requires At(d, next, WrittenAll(ns.tail)) && from + |WrittenAll(ns)| == next + |WrittenAll(ns.tail)|
    ensures Stand(d, ns.tail, next, limit, depth, maxDepth) && Fits(ns.head, next == limit)
  {
    HeadFits(ns, from, limit);
    HeightSplit(ns, depth, maxDepth);
  }

  lemma LongEnough(n: Node)
    requires Good(n)
    ensures |Written(n)| >= 8
  {
    WrittenIs(n);
  }
}
