/** JPEG markers, sections, and what `jpeg-data.c` reads from and writes to a byte string. */
module JpegFormat {
  import opened Basics
  import opened Bytes

  const SOI: byte := 0xd8
  const EOI: byte := 0xd9
  const SOS: byte := 0xda
  const APP1: byte := 0xe1
  const UINT: nat := 0x1_0000_0000

  predicate IsMarker(m: byte) {
    0xc0 <= m <= 0xfe
  }

  /** Markers without a length field in this program: `SOI` and `EOI`, section B.1.1.3 of ITU-T T.81. */
  predicate Bare(m: byte) {
    m == SOI || m == EOI
  }

  /** The Exif library: `decode` is given a whole segment, marker and length included; `encode` may yield nothing. */
  datatype Codec<!E> = Codec(decode: seq<byte> -> E, encode: E -> Option<seq<byte>>)

  datatype Content<+E> = Nothing | Generic(data: seq<byte>) | App1(exif: Option<E>)

  datatype Section<+E> = Section(marker: byte, content: Content<E>) {
    /** The union member in use is the one that the marker selects. */
    predicate Fits() {
      if Bare(marker) then content.Nothing? else if marker == APP1 then content.App1? else content.Generic?
    }
  }

  /** A section whose content was zeroed and not filled in. */
  function Blank<E>(m: byte): (s: Section<E>)
    ensures s.Fits()
  {
    Section(m, if Bare(m) then Nothing else if m == APP1 then App1(None) else Generic([]))
  }

  // ---------- writing ----------

  function Length16(n: nat): (s: seq<byte>)
    ensures |s| == 2
  {
    [n / 256 % 256, n % 256]
  }

  /** A segment with a length field that counts itself: section B.1.1.4 of ITU-T T.81. */
  function Segment(m: byte, payload: seq<byte>): seq<byte> {
    [0xff, m] + Length16(|payload| + 2) + payload
  }

  function SectionBytes<E>(codec: Codec<E>, s: Section<E>, scan: seq<byte>): (b: seq<byte>)
    requires s.Fits()
    ensures |b| >= 2
  {
    if Bare(s.marker) then [0xff, s.marker]
    else if s.marker == APP1 then
      if s.content.exif.Some? && codec.encode(s.content.exif.value).Some?
      then Segment(APP1, codec.encode(s.content.exif.value).value)
      else [0xff, APP1]
    else Segment(s.marker, s.content.data) + (if s.marker == SOS then scan else [])
  }

  predicate AllFit<E>(sections: seq<Section<E>>) {
    forall i | 0 <= i < |sections| :: sections[i].Fits()
  }

  function Saved<E>(codec: Codec<E>, sections: seq<Section<E>>, scan: seq<byte>): seq<byte>
    requires AllFit(sections)
  {
    if sections == [] then [] else SectionBytes(codec, sections[0], scan) + Saved(codec, sections[1..], scan)
  }

  // ---------- reading ----------

  /** How many of the next (at most seven) bytes are 0xff. */
  function Fill(d: seq<byte>, o: nat, i: nat): (n: nat)
    requires o <= |d| && i <= Min(7, |d| - o)
    ensures i <= n <= Min(7, |d| - o)
    ensures n < Min(7, |d| - o) ==> d[o + n] != 0xff
    decreases 7 - i
  {
    if i < Min(7, |d| - o) && d[o + i] == 0xff then Fill(d, o, i + 1) else i
  }

  /** The payload length: the length field less two, in 32-bit unsigned arithmetic. */
  function PayloadLength(d: seq<byte>, p: nat): (n: nat)
    requires p + 2 <= |d|
  {
    (d[p] * 256 + d[p + 1] - 2) % UINT
  }

  /** Where the scan data that starts at `q` ends: before the last two bytes if they may be a marker. */
  function ScanEnd(d: seq<byte>, q: nat): (n: nat)
    requires q <= |d|
    ensures q <= n <= |d| && |d| - n <= 2
  {
    if |d| - q >= 2 && d[|d| - 2] == 0xff then |d| - 2 else |d|
  }

  /** One turn of the load loop: it stops, or it adds a section and moves on. */
  datatype Step<+E> = Stop | Next(section: Section<E>, scan: Option<seq<byte>>, o: nat)

  /** The section whose marker is at `p - 1`. */
  function SectionAt<E>(codec: Codec<E>, d: seq<byte>, p: nat): (s: Step<E>)
    requires 2 <= p <= |d| < UINT
    ensures s.Next? && p <= s.o <= |d| && s.section.Fits() && s.section.marker == d[p - 1]
  {
    var m := d[p - 1];
    if Bare(m) then Next(Section(m, Nothing), None, p)
    else if |d| - p < 2 || PayloadLength(d, p) > |d| - p - 2 then Next(Blank(m), None, |d|)
    else
      var q := p + 2 + PayloadLength(d, p);
      if m == APP1 then Next(Section(m, App1(Some(codec.decode(d[p - 2..q])))), None, q)
      else if m == SOS then Next(Section(m, Generic(d[p + 2..q])), Some(d[q..ScanEnd(d, q)]), ScanEnd(d, q))
      else Next(Section(m, Generic(d[p + 2..q])), None, q)
  }

  /** Loading starts, or goes on, at a place from which it advances. */
  predicate CanStep(d: seq<byte>, o: nat) {
    |d| < UINT && o < |d| && (o > 0 || d[0] == 0xff)
  }

  function StepAt<E>(codec: Codec<E>, d: seq<byte>, o: nat): (s: Step<E>)
    requires CanStep(d, o)
    ensures s.Next? ==> o < s.o <= |d| && s.section.Fits()
  {
    var i := Fill(d, o, 0);
    if i >= |d| - o || !IsMarker(d[o + i]) then Stop else SectionAt(codec, d, o + i + 1)
  }

  datatype Parsed<+E> = Parsed(sections: seq<Section<E>>, scan: Option<seq<byte>>)

  function Parse<E>(codec: Codec<E>, d: seq<byte>, o: nat): (p: Parsed<E>)
    requires o == |d| < UINT || CanStep(d, o)
    ensures AllFit(p.sections)
    decreases |d| - o
  {
    if o == |d| then Parsed([], None)
    else
      match StepAt(codec, d, o)
      case Stop => Parsed([], None)
      case Next(s, scan, next) =>
        var rest := Parse(codec, d, next);
        Parsed([s] + rest.sections, if rest.scan.Some? then rest.scan else scan)
  }
}
