/** Loading undoes saving, and saving undoes loading, exactly where they can. */
module JpegRoundTrip {
  import opened Basics
  import opened Bytes
  import opened JpegFormat

  /** Fits in a segment, and survives being encoded and decoded. */
  ghost predicate Storable<E>(codec: Codec<E>, s: Section<E>) {
    && s.Fits() && IsMarker(s.marker)
    && (s.content.Generic? ==> |s.content.data| <= 65533)
    && (s.content.App1? ==>
          && s.content.exif.Some?
          && var payload := codec.encode(s.content.exif.value);
             && payload.Some? && |payload.value| <= 65533
             && codec.decode(Segment(APP1, payload.value)) == s.content.exif.value)
  }

  /** An `APP1` marker at the very end of the file, with nothing behind it. */
  predicate Stub<E>(s: Section<E>) {
    s.marker == APP1 && s.content == App1(None)
  }

  /** Scan data is followed by one bare marker, or the file is cut and its data cannot be taken for one. */
  predicate TailOk<E>(scan: seq<byte>, rest: seq<Section<E>>) {
    if rest == [] then |scan| < 2 || scan[|scan| - 2] != 0xff
    else |rest| == 1 && rest[0].Fits() && (Bare(rest[0].marker) || Stub(rest[0]))
  }

  /** The section lists that a file can hold. */
  ghost predicate WellFormed<E>(codec: Codec<E>, sections: seq<Section<E>>, scan: seq<byte>) {
    if sections == [] then true
    else if sections[0].marker == SOS then Storable(codec, sections[0]) && TailOk(scan, sections[1..])
    else if Stub(sections[0]) then sections[1..] == []
    else Storable(codec, sections[0]) && WellFormed(codec, sections[1..], scan)
  }

  predicate HasScan<E>(sections: seq<Section<E>>) {
    exists i | 0 <= i < |sections| :: sections[i].marker == SOS
  }

  lemma {:induction false} WellFormedFits<E>(codec: Codec<E>, sections: seq<Section<E>>, scan: seq<byte>)
    requires WellFormed(codec, sections, scan)
    ensures AllFit(sections)
  {
    if sections != [] && sections[0].marker != SOS && !Stub(sections[0]) {
      WellFormedFits(codec, sections[1..], scan);
      assert forall i | 1 <= i < |sections| :: sections[i] == sections[1..][i - 1];
    } else if sections != [] {
      assert forall i | 1 <= i < |sections| :: sections[i] == sections[1..][i - 1];
    }
  }

  // ---------- loading what was saved ----------

  lemma DropDrop(d: seq<byte>, o: nat, n: nat, q: nat)
    requires o + n == q <= |d|
    ensures d[o..][n..] == d[q..] && d[o..][..n] == d[o..q]
  {
  }

  /** A marker behind a single 0xff is found at once. */
  lemma MarkerRead<E>(codec: Codec<E>, d: seq<byte>, o: nat)
    requires CanStep(d, o) && o + 2 <= |d| && d[o] == 0xff && IsMarker(d[o + 1])
    ensures StepAt(codec, d, o) == SectionAt(codec, d, o + 2)
  {
  }

  /** A segment is read back with its length, its payload and what follows. */
  lemma SegmentRead(d: seq<byte>, o: nat, m: byte, payload: seq<byte>, tail: seq<byte>, q: nat)
    requires o <= |d| && d[o..] == Segment(m, payload) + tail && |payload| <= 65533 && q == o + 4 + |payload|
    ensures q <= |d| && d[o] == 0xff && d[o + 1] == m && PayloadLength(d, o + 2) == |payload|
    ensures d[o..q] == Segment(m, payload) && d[o + 4..q] == payload && d[q..] == tail
  {
  }

  /** What may follow the scan data of an `SOS` section. */
  predicate TailBytesOk(scan: seq<byte>, tail: seq<byte>) {
    (tail == [] && (|scan| < 2 || scan[|scan| - 2] != 0xff)) || (|tail| == 2 && tail[0] == 0xff)
  }

  lemma ScanRead(d: seq<byte>, q: nat, scan: seq<byte>, tail: seq<byte>, end: nat)
    requires q <= |d| && d[q..] == scan + tail && TailBytesOk(scan, tail) && end == q + |scan|
    ensures ScanEnd(d, q) == end && d[q..end] == scan && d[end..] == tail
  {
  }

  lemma BareReads<E>(codec: Codec<E>, d: seq<byte>, o: nat, m: byte, tail: seq<byte>, next: nat)
    requires CanStep(d, o) && Bare(m) && d[o..] == [0xff, m] + tail && next == o + 2
    ensures StepAt(codec, d, o) == Next(Section(m, Nothing), None, next)
    ensures next <= |d| && d[next..] == tail
  {
  }

  lemma ExifReads<E>(codec: Codec<E>, d: seq<byte>, o: nat, payload: seq<byte>, tail: seq<byte>, next: nat)
    requires CanStep(d, o) && |payload| <= 65533 && d[o..] == Segment(APP1, payload) + tail && next == o + 4 + |payload|
    ensures StepAt(codec, d, o) == Next(Section(APP1, App1(Some(codec.decode(Segment(APP1, payload))))), None, next)
    ensures next <= |d| && d[next..] == tail
  {
    SegmentRead(d, o, APP1, payload, tail, next);
    MarkerRead(codec, d, o);
  }

  lemma GenericReads<E>(codec: Codec<E>, d: seq<byte>, o: nat, m: byte, payload: seq<byte>, tail: seq<byte>, q: nat)
    requires CanStep(d, o) && IsMarker(m) && !Bare(m) && m != APP1 && |payload| <= 65533
    requires d[o..] == Segment(m, payload) + tail && q == o + 4 + |payload|
    ensures q <= |d| && d[q..] == tail
    ensures StepAt(codec, d, o) == Next(Section(m, Generic(payload)),
                                        if m == SOS then Some(d[q..ScanEnd(d, q)]) else None,
                                        if m == SOS then ScanEnd(d, q) else q)
  {
    SegmentRead(d, o, m, payload, tail, q);
    MarkerRead(codec, d, o);
  }

  /** A storable section is read back as it was written. */
  lemma StepReads<E>(codec: Codec<E>, d: seq<byte>, o: nat, s: Section<E>, scan: seq<byte>, tail: seq<byte>, next: nat)
    requires CanStep(d, o) && Storable(codec, s) && d[o..] == SectionBytes(codec, s, scan) + tail
    requires s.marker == SOS ==> TailBytesOk(scan, tail)
    requires next == o + |SectionBytes(codec, s, scan)|
    ensures StepAt(codec, d, o) == Next(s, if s.marker == SOS then Some(scan) else None, next)
    ensures next <= |d| && d[next..] == tail
  {
    if Bare(s.marker) {
      BareReads(codec, d, o, s.marker, tail, next);
    } else if s.marker == APP1 {
      ExifReads(codec, d, o, codec.encode(s.content.exif.value).value, tail, next);
    } else if s.marker == SOS {
      var payload, q := s.content.data, o + 4 + |s.content.data|;
      assert d[o..] == Segment(SOS, payload) + (scan + tail);
      GenericReads(codec, d, o, SOS, payload, scan + tail, q);
      ScanRead(d, q, scan, tail, next);
    } else {
      assert SectionBytes(codec, s, scan) == Segment(s.marker, s.content.data);
      GenericReads(codec, d, o, s.marker, s.content.data, tail, next);
    }
  }

  /** A stub ends the file. */
  lemma StubReads<E>(codec: Codec<E>, d: seq<byte>, o: nat, s: Section<E>, scan: seq<byte>)
    requires CanStep(d, o) && Stub(s) && d[o..] == SectionBytes(codec, s, scan)
    ensures Parse(codec, d, o) == Parsed([s], None)
  {
  }

  /** The bytes of the sections after the scan data. */
  lemma TailBytes<E>(codec: Codec<E>, scan: seq<byte>, rest: seq<Section<E>>)
    requires TailOk(scan, rest) && AllFit(rest)
    ensures TailBytesOk(scan, Saved(codec, rest, scan))
  {
  }

  lemma TailReads<E>(codec: Codec<E>, d: seq<byte>, o: nat, rest: seq<Section<E>>, scan: seq<byte>)
    requires |d| < UINT && 0 < o <= |d| && TailOk(scan, rest) && AllFit(rest) && d[o..] == Saved(codec, rest, scan)
    ensures Parse(codec, d, o) == Parsed(rest, None)
  {
  }

  /** Loading what was saved gives back every section, and the scan data if there was any to carry it. */
  lemma {:induction false} LoadOfSaveAt<E>(codec: Codec<E>, d: seq<byte>, o: nat, sections: seq<Section<E>>,
                                               scan: seq<byte>)
    requires |d| < UINT && o <= |d| && AllFit(sections) && WellFormed(codec, sections, scan)
    requires d[o..] == Saved(codec, sections, scan)
    ensures o == |d| || CanStep(d, o)
    ensures Parse(codec, d, o) == Parsed(sections, if HasScan(sections) then Some(scan) else None)
    decreases |sections|
  {
    if sections == [] {
      assert |d[o..]| == 0;
    } else {
      var s, rest := sections[0], sections[1..];
      var tail := Saved(codec, rest, scan);
      var next := o + |SectionBytes(codec, s, scan)|;
      assert d[o] == d[o..][0] == 0xff;
      assert sections == [s] + rest;
      if s.marker == SOS {
        TailBytes(codec, scan, rest);
        StepReads(codec, d, o, s, scan, tail, next);
        TailReads(codec, d, next, rest, scan);
      } else if Stub(s) {
        assert d[o..] == SectionBytes(codec, s, scan) + [];
        StubReads(codec, d, o, s, scan);
      } else {
        StepReads(codec, d, o, s, scan, tail, next);
        LoadOfSaveAt(codec, d, next, rest, scan);
        HasScanRest(sections);
      }
    }
  }

  lemma HasScanRest<E>(sections: seq<Section<E>>)
    requires sections != []
    ensures HasScan(sections) <==> sections[0].marker == SOS || HasScan(sections[1..])
  {
  }

  lemma LoadOfSave<E>(codec: Codec<E>, sections: seq<Section<E>>, scan: seq<byte>)
    requires AllFit(sections) && WellFormed(codec, sections, scan) && |Saved(codec, sections, scan)| < UINT
    ensures var d := Saved(codec, sections, scan);
            && (d == [] || CanStep(d, 0))
            && Parse(codec, d, 0) == Parsed(sections, if HasScan(sections) then Some(scan) else None)
  {
    var d := Saved(codec, sections, scan);
    assert d[0..] == d;
    LoadOfSaveAt(codec, d, 0, sections, scan);
  }
}
