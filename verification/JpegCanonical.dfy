/** Which files are reproduced byte for byte when they are loaded and saved. */
module JpegCanonical {
  import opened Basics
  import opened Bytes
  import opened JpegFormat
  import opened JpegRoundTrip

  /** The length field at `o + 2` is there, is at least two, and its payload is there too. */
  predicate Full(d: seq<byte>, o: nat) {
    o + 4 <= |d| && PayloadLength(d, o + 2) <= |d| - o - 4
  }

  function PayloadEnd(d: seq<byte>, o: nat): (q: nat)
    requires Full(d, o)
    ensures o + 4 <= q <= |d|
  {
    o + 4 + PayloadLength(d, o + 2)
  }

  /** Where the segment at `o` ends, scan data included. */
  function SegmentEnd(d: seq<byte>, o: nat): (n: nat)
    requires o + 2 <= |d|
    ensures o + 2 <= n <= |d|
  {
    if Bare(d[o + 1]) then o + 2
    else if !Full(d, o) then |d|
    else if d[o + 1] == SOS then ScanEnd(d, PayloadEnd(d, o))
    else PayloadEnd(d, o)
  }

  /** One 0xff and a marker; then nothing, or a whole payload, which for Exif data survives re-encoding. */
  ghost predicate CanonicalSegment<E>(codec: Codec<E>, d: seq<byte>, o: nat) {
    && o + 2 <= |d| && d[o] == 0xff && IsMarker(d[o + 1])
    && (Bare(d[o + 1])
        || (d[o + 1] == APP1 && o + 2 == |d|)
        || (Full(d, o)
            && (d[o + 1] == APP1 ==>
                  codec.encode(codec.decode(d[o..PayloadEnd(d, o)])) == Some(d[o + 4..PayloadEnd(d, o)]))))
  }

  /** The rest of the file is made of canonical segments. */
  ghost predicate Canonical<E>(codec: Codec<E>, d: seq<byte>, o: nat)
    requires o <= |d|
    decreases |d| - o
  {
    o == |d| || (CanonicalSegment(codec, d, o) && Canonical(codec, d, SegmentEnd(d, o)))
  }

  /** The Exif library can write this section's data, and what it writes fits in a segment. */
  predicate Encodes<E>(codec: Codec<E>, s: Section<E>) {
    s.content.App1? && s.content.exif.Some? ==>
      var payload := codec.encode(s.content.exif.value);
      payload.Some? && |payload.value| <= 65533
  }

  predicate AllEncode<E>(codec: Codec<E>, sections: seq<Section<E>>) {
    forall i | 0 <= i < |sections| :: Encodes(codec, sections[i])
  }

  /** The scan data a section list is saved with. */
  ghost predicate Carries<E>(p: Parsed<E>, scan: seq<byte>) {
    p.scan.Some? ==> p.scan.value == scan
  }

  // ---------- one segment ----------

  lemma ShortFieldWraps(n: int)
    requires 0 <= n < UINT
    ensures (n - 2) % UINT == if n < 2 then UINT + n - 2 else n - 2
  {
  }

  lemma FieldIsLength(d: seq<byte>, o: nat)
    requires |d| < UINT && Full(d, o)
    ensures PayloadLength(d, o + 2) <= 65533
    ensures Length16(PayloadLength(d, o + 2) + 2) == [d[o + 2], d[o + 3]]
  {
    var n := (d[o + 2] as int) * 256 + (d[o + 3] as int);
    ShortFieldWraps(n);
    assert PayloadLength(d, o + 2) == n - 2;
  }

  lemma SegmentIsSlice(d: seq<byte>, o: nat, q: nat)
    requires |d| < UINT && Full(d, o) && d[o] == 0xff && q == PayloadEnd(d, o)
    ensures Segment(d[o + 1], d[o + 4..q]) == d[o..q]
  {
    FieldIsLength(d, o);
    FieldBytes(d, o, PayloadLength(d, o + 2), q);
  }

  /** A length field of the right value stands in front of a payload of that length. */
  lemma FieldBytes(d: seq<byte>, o: nat, n: nat, q: nat)
    requires o + 4 + n == q <= |d| && d[o] == 0xff && Length16(n + 2) == [d[o + 2], d[o + 3]]
    ensures Segment(d[o + 1], d[o + 4..q]) == d[o..q]
  {
    assert |d[o + 4..q]| == n;
    assert d[o..q] == [0xff, d[o + 1]] + [d[o + 2], d[o + 3]] + d[o + 4..q];
  }

  lemma JoinDrop(d: seq<byte>, a: nat, b: nat)
    requires a <= b <= |d|
    ensures d[a..b] + d[b..] == d[a..]
  {
  }

  /** Near the end there is no room for scan data. */
  lemma ShortTail<E>(codec: Codec<E>, d: seq<byte>, o: nat)
    requires |d| < UINT && 0 < o <= |d| <= o + 2
    ensures Parse(codec, d, o).scan.None?
    decreases |d| - o
  {
    if o < |d| {
      var step := StepAt(codec, d, o);
      if step.Next? {
        ShortTail(codec, d, step.o);
      }
    }
  }

  /** What loading makes of a canonical segment is written as that segment. */
  lemma SegmentSaved<E>(codec: Codec<E>, d: seq<byte>, o: nat, scan: seq<byte>)
    requires CanStep(d, o) && CanonicalSegment(codec, d, o)
    requires d[o + 1] == SOS && Full(d, o) ==> scan == d[PayloadEnd(d, o)..SegmentEnd(d, o)]
    ensures var step := StepAt(codec, d, o);
            && step.Next? && step.o == SegmentEnd(d, o)
            && SectionBytes(codec, step.section, scan) == d[o..step.o]
  {
    MarkerRead(codec, d, o);
    if Bare(d[o + 1]) || !Full(d, o) {
      assert d[o..o + 2] == [0xff, d[o + 1]];
    } else {
      var q := PayloadEnd(d, o);
      SegmentIsSlice(d, o, q);
      JoinSlices(d, o, q, SegmentEnd(d, o));
    }
  }

  lemma FirstStep<E>(codec: Codec<E>, d: seq<byte>, o: nat)
    requires CanStep(d, o) && StepAt(codec, d, o).Next?
    ensures var step, p := StepAt(codec, d, o), Parse(codec, d, o);
            var rest := Parse(codec, d, step.o);
            && p.sections == [step.section] + rest.sections && p.sections[1..] == rest.sections
            && (step.scan.None? ==> p.scan == rest.scan)
            && (step.scan.Some? ==> rest.scan.None? && p.scan == step.scan)
  {
  }

  lemma SavedCons<E>(codec: Codec<E>, all: seq<Section<E>>, scan: seq<byte>, s: Section<E>, rest: seq<Section<E>>)
    requires AllFit(all) && AllFit(rest) && s.Fits() && all == [s] + rest
    ensures Saved(codec, all, scan) == SectionBytes(codec, s, scan) + Saved(codec, rest, scan)
  {
  }

  // ---------- saving what was loaded ----------

  lemma {:induction false} CanonicalSaved<E>(codec: Codec<E>, d: seq<byte>, o: nat, scan: seq<byte>)
    requires |d| < UINT && o <= |d| && Canonical(codec, d, o)
    ensures o == |d| || CanStep(d, o)
    ensures Carries(Parse(codec, d, o), scan) ==> Saved(codec, Parse(codec, d, o).sections, scan) == d[o..]
    decreases |d| - o
  {
    if o < |d| && Carries(Parse(codec, d, o), scan) {
      MarkerRead(codec, d, o);
      var step := StepAt(codec, d, o);
      FirstStep(codec, d, o);
      SegmentSaved(codec, d, o, scan);
      CanonicalSaved(codec, d, step.o, scan);
      JoinDrop(d, o, step.o);
      SavedCons(codec, Parse(codec, d, o).sections, scan, step.section, Parse(codec, d, step.o).sections);
    }
  }

  /** A file that starts as the saved bytes do starts with one 0xff and the loaded marker. */
  lemma SavedStartsCleanly<E>(codec: Codec<E>, d: seq<byte>, o: nat, scan: seq<byte>)
    requires CanStep(d, o) && Saved(codec, Parse(codec, d, o).sections, scan) == d[o..]
    ensures o + 2 <= |d| && d[o] == 0xff && IsMarker(d[o + 1]) && StepAt(codec, d, o) == SectionAt(codec, d, o + 2)
    ensures var step := StepAt(codec, d, o);
            SectionBytes(codec, step.section, scan) + Saved(codec, Parse(codec, d, step.o).sections, scan) == d[o..]
  {
    assert |d[o..]| >= 1;
    assert StepAt(codec, d, o).Next?;
    FirstStep(codec, d, o);
    var b := SectionBytes(codec, StepAt(codec, d, o).section, scan);
    assert b[0] == 0xff && b[1] == StepAt(codec, d, o).section.marker;
    assert d[o] == d[o..][0] == b[0] && d[o + 1] == d[o..][1] == b[1];
    assert Fill(d, o, 0) == Fill(d, o, 1);
    MarkerRead(codec, d, o);
  }

  /** A segment that is written back unchanged was canonical. */
  lemma SavedSegmentCanonical<E>(codec: Codec<E>, d: seq<byte>, o: nat, scan: seq<byte>, tail: seq<byte>)
    requires CanStep(d, o) && o + 2 <= |d| && d[o] == 0xff && IsMarker(d[o + 1])
    requires Encodes(codec, SectionAt(codec, d, o + 2).section)
    requires SectionBytes(codec, SectionAt(codec, d, o + 2).section, scan) + tail == d[o..]
    requires !Bare(d[o + 1]) && !Full(d, o) ==> tail == []
    ensures CanonicalSegment(codec, d, o)
  {
    var m, s := d[o + 1], SectionAt(codec, d, o + 2).section;
    if !Bare(m) && !Full(d, o) {
      if m != APP1 {
        var more := if m == SOS then scan else [];
        assert SectionBytes(codec, s, scan) == Segment(m, []) + more;
        SegmentRead(d, o, m, [], more, o + 4);
      } else {
        assert |d[o..]| == 2;
      }
    } else if m == APP1 {
      var payload := codec.encode(s.content.exif.value).value;
      SegmentRead(d, o, APP1, payload, tail, o + 4 + |payload|);
    }
  }

  lemma {:induction false} SavedCanonical<E>(codec: Codec<E>, d: seq<byte>, o: nat, scan: seq<byte>)
    requires (o == |d| < UINT || CanStep(d, o)) && AllEncode(codec, Parse(codec, d, o).sections)
    requires Carries(Parse(codec, d, o), scan) && Saved(codec, Parse(codec, d, o).sections, scan) == d[o..]
    ensures Canonical(codec, d, o)
    decreases |d| - o
  {
    if o < |d| {
      SavedStartsCleanly(codec, d, o, scan);
      var step := StepAt(codec, d, o);
      var rest := Parse(codec, d, step.o);
      var tail := Saved(codec, rest.sections, scan);
      FirstStep(codec, d, o);
      AllEncodeCons(codec, Parse(codec, d, o).sections, step.section, rest.sections);
      SavedSegmentCanonical(codec, d, o, scan, tail);
      SegmentSaved(codec, d, o, scan);
      assert step.o == SegmentEnd(d, o);
      assert tail == d[o..][|d[o..step.o]|..];
      DropDrop(d, o, |d[o..step.o]|, step.o);
      SavedCanonical(codec, d, step.o, scan);
    }
  }

  lemma AllEncodeCons<E>(codec: Codec<E>, all: seq<Section<E>>, s: Section<E>, rest: seq<Section<E>>)
    requires all == [s] + rest
    ensures AllEncode(codec, all) <==> Encodes(codec, s) && AllEncode(codec, rest)
  {
    assert all[0] == s;
    assert forall i | 0 <= i < |rest| :: all[i + 1] == rest[i];
  }

  /** The Exif data of a canonical file encodes: to what it was decoded from. */
  lemma {:induction false} CanonicalEncodes<E>(codec: Codec<E>, d: seq<byte>, o: nat)
    requires |d| < UINT && o <= |d| && Canonical(codec, d, o) && (o == |d| || CanStep(d, o))
    ensures AllEncode(codec, Parse(codec, d, o).sections)
    decreases |d| - o
  {
    if o < |d| {
      MarkerRead(codec, d, o);
      if !Bare(d[o + 1]) && Full(d, o) {
        FieldIsLength(d, o);
      }
      var step := StepAt(codec, d, o);
      FirstStep(codec, d, o);
      assert Encodes(codec, step.section);
      CanonicalEncodes(codec, d, step.o);
      AllEncodeCons(codec, Parse(codec, d, o).sections, step.section, Parse(codec, d, step.o).sections);
    }
  }

  /** The scan data after the rest of a file has been read. */
  function Final<E>(p: Parsed<E>, data: seq<byte>): seq<byte> {
    if p.scan.Some? then p.scan.value else data
  }

  function ScanOf<E>(p: Parsed<E>): seq<byte> {
    Final(p, [])
  }

  /** A file is made of canonical segments exactly when its Exif data can be written and loading and saving it
      reproduces it byte for byte. */
  lemma SaveOfLoadIff<E>(codec: Codec<E>, d: seq<byte>)
    requires |d| < UINT && (d == [] || d[0] == 0xff)
    ensures var p := Parse(codec, d, 0);
            Canonical(codec, d, 0) <==> AllEncode(codec, p.sections) && Saved(codec, p.sections, ScanOf(p)) == d
  {
    var p := Parse(codec, d, 0);
    assert d[0..] == d;
    if Canonical(codec, d, 0) {
      CanonicalSaved(codec, d, 0, ScanOf(p));
      CanonicalEncodes(codec, d, 0);
    }
    if AllEncode(codec, p.sections) && Saved(codec, p.sections, ScanOf(p)) == d {
      SavedCanonical(codec, d, 0, ScanOf(p));
    }
  }
}
