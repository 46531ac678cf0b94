/** Exactly which files keep everything but their Exif segment when the Exif data is replaced. */
module JpegEditExact {
  import opened Basics
  import opened Bytes
  import opened JpegFormat
  import opened JpegRoundTrip
  import opened JpegCanonical
  import opened JpegData
  import opened JpegEdit

  /** The Exif library can write the data of every `APP1` section behind the first one, which is replaced. */
  predicate LaterEncode<E>(codec: Codec<E>, sections: seq<Section<E>>) {
    var k := IndexOf(sections, APP1);
    k < |sections| ==> AllEncode(codec, sections[k + 1..])
  }

  /** The file with the bytes of `range` replaced by the new Exif segment. */
  function Spliced<E>(codec: Codec<E>, d: seq<byte>, o: nat, range: (nat, nat), exif: E): seq<byte>
    requires o <= range.0 <= range.1 <= |d|
  {
    d[o..range.0] + ExifSegment(codec, exif) + d[range.1..]
  }

  // ---------- the first bytes of what is saved ----------

  lemma SavedFirst<E>(codec: Codec<E>, all: seq<Section<E>>, scan: seq<byte>)
    requires all != [] && AllFit(all)
    ensures |Saved(codec, all, scan)| >= 2
    ensures Saved(codec, all, scan)[0] == 0xff && Saved(codec, all, scan)[1] == all[0].marker
  {
  }

  lemma SplicedFirst<E>(codec: Codec<E>, d: seq<byte>, o: nat, range: (nat, nat), exif: E)
    requires o + 2 <= range.0 <= range.1 <= |d|
    ensures |Spliced(codec, d, o, range, exif)| >= 4
    ensures Spliced(codec, d, o, range, exif)[0] == d[o] && Spliced(codec, d, o, range, exif)[1] == d[o + 1]
  {
  }

  /** A marker that was read and stands behind a single 0xff was found there. */
  lemma CleanMarker<E>(codec: Codec<E>, d: seq<byte>, o: nat)
    requires CanStep(d, o) && o + 2 <= |d| && d[o] == 0xff && StepAt(codec, d, o).Next?
    requires d[o + 1] == StepAt(codec, d, o).section.marker
    ensures IsMarker(d[o + 1]) && StepAt(codec, d, o) == SectionAt(codec, d, o + 2)
  {
    StepMarker(codec, d, o);
    MarkerRead(codec, d, o);
  }

  lemma StepMarker<E>(codec: Codec<E>, d: seq<byte>, o: nat)
    requires CanStep(d, o) && StepAt(codec, d, o).Next?
    ensures IsMarker(StepAt(codec, d, o).section.marker)
  {
  }

  /** A later `APP1` segment is found behind the segment in front. */
  lemma FoundLater(d: seq<byte>, o: nat)
    requires o + 2 <= |d| && FindExif(d, o).Some? && d[o + 1] != APP1
    ensures d[o] == 0xff && SegmentEnd(d, o) + 2 <= |d| && (Bare(d[o + 1]) || Full(d, o))
    ensures FindExif(d, SegmentEnd(d, o)) == FindExif(d, o) && SegmentEnd(d, o) <= FindExif(d, o).value.0
  {
  }

  lemma Cancel(p: seq<byte>, x: seq<byte>, y: seq<byte>)
    requires p + x == p + y
    ensures x == y
  {
    assert x == (p + x)[|p|..] && y == (p + y)[|p|..];
  }

  lemma CancelSegment<E>(codec: Codec<E>, d: seq<byte>, o: nat, next: nat, range: (nat, nat), exif: E, x: seq<byte>)
    requires o <= next <= range.0 <= range.1 <= |d| && d[o..next] + x == Spliced(codec, d, o, range, exif)
    ensures x == Spliced(codec, d, next, range, exif)
  {
    assert Spliced(codec, d, o, range, exif) == d[o..next] + Spliced(codec, d, next, range, exif);
    Cancel(d[o..next], x, Spliced(codec, d, next, range, exif));
  }

  lemma LaterCons<E>(codec: Codec<E>, s: Section<E>, rest: seq<Section<E>>)
    ensures LaterEncode(codec, [s] + rest)
      <==> if s.marker == APP1 then AllEncode(codec, rest) else LaterEncode(codec, rest)
  {
    IndexOfCons(s, rest, APP1);
    var k := IndexOf(rest, APP1);
    if s.marker == APP1 {
      assert ([s] + rest)[1..] == rest;
    } else if k < |rest| {
      assert ([s] + rest)[k + 2..] == rest[k + 1..];
    }
  }

  // ---------- an edit of an `APP1` section ----------

  /** The bytes saved after an edit of the first `APP1` section are the file with its first `APP1` segment replaced. */
  ghost predicate OnlyExif<E>(codec: Codec<E>, d: seq<byte>, o: nat, sections: seq<Section<E>>, exif: E,
                              scan: seq<byte>)
    requires o <= |d|
  {
    var k, found := IndexOf(sections, APP1), FindExif(d, o);
    && found.Some? && k < |sections| && AllFit(sections[k := ExifSection(exif)])
    && Saved(codec, sections[k := ExifSection(exif)], scan) == Spliced(codec, d, o, found.value, exif)
  }

  /** The segment in front of a later `APP1` segment is read as it stands. */
  lemma FrontClean<E>(codec: Codec<E>, d: seq<byte>, o: nat, all: seq<Section<E>>, exif: E, scan: seq<byte>)
    requires CanStep(d, o) && FindExif(d, o).Some? && d[o + 1] != APP1
    requires StepAt(codec, d, o).Next? && all != [] && AllFit(all)
    requires all[0].marker == StepAt(codec, d, o).section.marker
    requires Saved(codec, all, scan) == Spliced(codec, d, o, FindExif(d, o).value, exif)
    ensures CanonicalSegment(codec, d, o) && d[o + 1] == all[0].marker
    ensures SegmentEnd(d, o) + 2 <= |d| && SegmentEnd(d, o) <= FindExif(d, o).value.0
    ensures FindExif(d, SegmentEnd(d, o)) == FindExif(d, o)
  {
    FoundLater(d, o);
    SavedFirst(codec, all, scan);
    SplicedFirst(codec, d, o, FindExif(d, o).value, exif);
    CleanMarker(codec, d, o);
  }

  lemma SplicedHere<E>(codec: Codec<E>, d: seq<byte>, o: nat, next: nat, exif: E)
    requires o <= next <= |d|
    ensures Spliced(codec, d, o, (o, next), exif) == ExifSegment(codec, exif) + d[next..]
  {
    assert d[o..o] == [];
  }

  lemma FirstReplaced<E>(s: Section<E>, rest: seq<Section<E>>, exif: E)
    requires s.marker == APP1
    ensures IndexOf([s] + rest, APP1) == 0 && ([s] + rest)[0 := ExifSection(exif)] == [ExifSection(exif)] + rest
  {
    IndexOfCons(s, rest, APP1);
  }

  lemma FoundHere<E>(codec: Codec<E>, d: seq<byte>, o: nat, next: nat, s: Section<E>, rest: seq<Section<E>>, exif: E,
                     scan: seq<byte>)
    requires o <= next <= |d| && s.marker == APP1 && AllFit(rest) && FindExif(d, o) == Some((o, next))
    requires OnlyExif(codec, d, o, [s] + rest, exif, scan)
    ensures Saved(codec, rest, scan) == d[next..]
  {
    FirstReplaced(s, rest, exif);
    SavedNew(codec, exif, rest, scan);
    SplicedHere(codec, d, o, next, exif);
    Cancel(ExifSegment(codec, exif), Saved(codec, rest, scan), d[next..]);
  }

  lemma FoundBehind<E>(codec: Codec<E>, d: seq<byte>, o: nat, next: nat, s: Section<E>, rest: seq<Section<E>>, exif: E,
                       scan: seq<byte>)
    requires o <= next <= |d| && s.marker != APP1 && s.Fits() && AllFit(rest)
    requires FindExif(d, o) == FindExif(d, next) && SectionBytes(codec, s, scan) == d[o..next]
    requires OnlyExif(codec, d, o, [s] + rest, exif, scan)
    ensures OnlyExif(codec, d, next, rest, exif, scan)
  {
    IndexOfCons(s, rest, APP1);
    var k, range := IndexOf(rest, APP1), FindExif(d, next).value;
    var changed := rest[k := ExifSection(exif)];
    assert ([s] + rest)[k + 1 := ExifSection(exif)] == [s] + changed;
    SavedCons(codec, [s] + changed, scan, s, changed);
    CancelSegment(codec, d, o, next, range, exif, Saved(codec, changed, scan));
  }

  /** Then the rest of the file was canonical, but for its first `APP1` segment. */
  lemma {:induction false} FoundEditable<E>(codec: Codec<E>, d: seq<byte>, o: nat, exif: E, scan: seq<byte>)
    requires CanStep(d, o) && LaterEncode(codec, Parse(codec, d, o).sections) && Carries(Parse(codec, d, o), scan)
    requires OnlyExif(codec, d, o, Parse(codec, d, o).sections, exif, scan)
    ensures Editable(codec, d, o)
    decreases |d| - o
  {
    var next := SegmentEnd(d, o);
    if d[o + 1] == APP1 {
      UnfoldExif(codec, d, o);
      var s, rest := StepAt(codec, d, o).section, Parse(codec, d, next).sections;
      LaterCons(codec, s, rest);
      FoundHere(codec, d, o, next, s, rest, exif, scan);
      SavedCanonical(codec, d, next, scan);
    } else {
      FrontRead(codec, d, o, exif, scan);
      UnfoldSegment(codec, d, o, scan);
      var s, rest := StepAt(codec, d, o).section, Parse(codec, d, next).sections;
      LaterCons(codec, s, rest);
      FoundBehind(codec, d, o, next, s, rest, exif, scan);
      FoundEditable(codec, d, next, exif, scan);
    }
  }

  lemma FrontRead<E>(codec: Codec<E>, d: seq<byte>, o: nat, exif: E, scan: seq<byte>)
    requires CanStep(d, o) && o + 2 <= |d| && d[o + 1] != APP1
    requires OnlyExif(codec, d, o, Parse(codec, d, o).sections, exif, scan)
    ensures CanonicalSegment(codec, d, o) && d[o] == 0xff && SegmentEnd(d, o) < |d|
    ensures FindExif(d, SegmentEnd(d, o)) == FindExif(d, o)
  {
    var sections := Parse(codec, d, o).sections;
    var k := IndexOf(sections, APP1);
    FirstStep(codec, d, o);
    FrontClean(codec, d, o, sections[k := ExifSection(exif)], exif, scan);
  }

  // ---------- the other cases ----------

  /** Nothing was read, so the only section is blank. */
  lemma EmptyDiffers<E>(codec: Codec<E>, d: seq<byte>, range: (nat, nat), exif: E, scan: seq<byte>)
    requires 2 <= range.0 <= range.1 <= |d|
    ensures Saved(codec, [Blank(0)], scan) != Spliced(codec, d, 0, range, exif)
  {
    var saved := Saved<E>(codec, [Blank(0)], scan);
    assert Blank<E>(0) == Section(0, Generic([]));
    assert SectionBytes<E>(codec, Blank(0), scan) == Segment(0, []) + [];
    SavedCons(codec, [Blank<E>(0)], scan, Blank(0), []);
    assert saved == Segment(0, []) == [0xff, 0, 0, 2];
    var other := Spliced(codec, d, 0, range, exif);
    assert other[range.0] == ExifSegment(codec, exif)[0] == 0xff && |other| >= range.0 + 2;
  }

  /** A section put behind the first. */
  lemma SavedSecond<E>(codec: Codec<E>, s: Section<E>, rest: seq<Section<E>>, exif: E, scan: seq<byte>)
    requires s.Fits() && AllFit(rest) && IndexOf([s] + rest, APP1) == |rest| + 1
    ensures AllFit(WithExif([s] + rest, exif))
    ensures Saved(codec, WithExif([s] + rest, exif), scan)
         == SectionBytes(codec, s, scan) + (ExifSegment(codec, exif) + Saved(codec, rest, scan))
  {
    var tail := [ExifSection(exif)] + rest;
    SecondIs(s, rest, exif);
    SavedNew(codec, exif, rest, scan);
    SavedCons(codec, [s] + tail, scan, s, tail);
  }

  lemma SecondIs<E>(s: Section<E>, rest: seq<Section<E>>, exif: E)
    requires IndexOf([s] + rest, APP1) == |rest| + 1
    ensures WithExif([s] + rest, exif) == [s] + ([ExifSection(exif)] + rest)
  {
    assert ([s] + rest)[1..] == rest;
  }

  /** An `APP1` segment in front is read as a section. */
  lemma FoundRead<E>(codec: Codec<E>, d: seq<byte>, o: nat)
    requires CanStep(d, o) && o + 2 <= |d|
    ensures d[o] == 0xff && d[o + 1] == APP1 ==>
              IndexOf(Parse(codec, d, o).sections, APP1) == 0 < |Parse(codec, d, o).sections|
  {
    if d[o] == 0xff && d[o + 1] == APP1 {
      UnfoldExif(codec, d, o);
      IndexOfCons(StepAt(codec, d, o).section, Parse(codec, d, SegmentEnd(d, o)).sections, APP1);
    }
  }

  /** An `APP1` segment that was not read as one: then the section is put elsewhere. */
  lemma UnreadDiffers<E>(codec: Codec<E>, d: seq<byte>, exif: E, scan: seq<byte>)
    requires CanStep(d, 0) && FindExif(d, 0).Some? && Carries(Parse(codec, d, 0), scan)
    requires Parse(codec, d, 0).sections != []
    requires IndexOf(Parse(codec, d, 0).sections, APP1) == |Parse(codec, d, 0).sections|
    requires AllFit(WithExif(Parse(codec, d, 0).sections, exif))
    ensures Saved(codec, WithExif(Parse(codec, d, 0).sections, exif), scan)
         != Spliced(codec, d, 0, FindExif(d, 0).value, exif)
  {
    var sections, range, next := Parse(codec, d, 0).sections, FindExif(d, 0).value, SegmentEnd(d, 0);
    var all := WithExif(sections, exif);
    FoundRead(codec, d, 0);
    if Saved(codec, all, scan) == Spliced(codec, d, 0, range, exif) {
      FirstStep(codec, d, 0);
      FrontClean(codec, d, 0, all, exif, scan);
      UnfoldSegment(codec, d, 0, scan);
      var s, rest := StepAt(codec, d, 0).section, Parse(codec, d, next).sections;
      SavedSecond(codec, s, rest, exif, scan);
      IndexOfCons(s, rest, APP1);
      CancelSegment(codec, d, 0, next, range, exif, ExifSegment(codec, exif) + Saved(codec, rest, scan));
      UnreadBehind(codec, d, next, range, exif, Saved(codec, rest, scan));
    }
  }

  lemma UnreadBehind<E>(codec: Codec<E>, d: seq<byte>, o: nat, range: (nat, nat), exif: E, tail: seq<byte>)
    requires CanStep(d, o) && FindExif(d, o) == Some(range)
    requires IndexOf(Parse(codec, d, o).sections, APP1) == |Parse(codec, d, o).sections|
    ensures ExifSegment(codec, exif) + tail != Spliced(codec, d, o, range, exif)
  {
    FoundRead(codec, d, o);
    FoundLater(d, o);
    SplicedFirst(codec, d, o, range, exif);
    assert (ExifSegment(codec, exif) + tail)[1] == APP1;
  }

  lemma SameFirst<E>(codec: Codec<E>, d: seq<byte>, all: seq<Section<E>>, exif: E, scan: seq<byte>, range: (nat, nat))
    requires all != [] && AllFit(all) && 2 <= range.0 <= range.1 <= |d|
    requires Saved(codec, all, scan) == Spliced(codec, d, 0, range, exif)
    ensures d[1] == all[0].marker
  {
    SavedFirst(codec, all, scan);
    SplicedFirst(codec, d, 0, range, exif);
  }

  /** The first segment, when there is no `APP1` segment to be found. */
  lemma FrontAlone<E>(codec: Codec<E>, d: seq<byte>, all: seq<Section<E>>, exif: E, scan: seq<byte>, next: nat)
    requires CanStep(d, 0) && StepAt(codec, d, 0).Next?
    requires all != [] && AllFit(all) && all[0].marker == StepAt(codec, d, 0).section.marker
    requires 2 <= next <= |d| && Saved(codec, all, scan) == Spliced(codec, d, 0, (next, next), exif)
    ensures IsMarker(d[1]) && d[1] == all[0].marker && StepAt(codec, d, 0) == SectionAt(codec, d, 2)
  {
    SameFirst(codec, d, all, exif, scan, (next, next));
    CleanMarker(codec, d, 0);
  }

  lemma NoneLater(d: seq<byte>, o: nat)
    requires o + 2 <= |d| && d[o] == 0xff && FindExif(d, o).None?
    ensures d[o + 1] != APP1 && FindExif(d, SegmentEnd(d, o)).None?
  {
  }

  /** A section that was read as `APP1` behind fill bytes, where no segment starts: it is replaced where it is. */
  lemma FilledDiffers<E>(codec: Codec<E>, d: seq<byte>, exif: E, scan: seq<byte>)
    requires CanStep(d, 0) && |d| >= 2 && FindExif(d, 0).None? && Carries(Parse(codec, d, 0), scan)
    requires IndexOf(Parse(codec, d, 0).sections, APP1) < |Parse(codec, d, 0).sections|
    requires AllFit(WithExif(Parse(codec, d, 0).sections, exif))
    ensures Saved(codec, WithExif(Parse(codec, d, 0).sections, exif), scan)
         != Spliced(codec, d, 0, (SegmentEnd(d, 0), SegmentEnd(d, 0)), exif)
  {
    var sections, next := Parse(codec, d, 0).sections, SegmentEnd(d, 0);
    var k := IndexOf(sections, APP1);
    var all := WithExif(sections, exif);
    if Saved(codec, all, scan) == Spliced(codec, d, 0, (next, next), exif) {
      FilledFront(codec, d, all, exif, scan, next);
      var s, rest := StepAt(codec, d, 0).section, Parse(codec, d, next).sections;
      IndexOfCons(s, rest, APP1);
      LaterReplaced(codec, d, next, s, rest, k, exif, scan);
      FilledBehind(codec, d, next, rest, k - 1, exif, scan);
    }
  }

  /** The first segment stands as it was read, and is no `APP1` segment. */
  lemma FilledFront<E>(codec: Codec<E>, d: seq<byte>, all: seq<Section<E>>, exif: E, scan: seq<byte>, next: nat)
    requires CanStep(d, 0) && |d| >= 2 && FindExif(d, 0).None? && Carries(Parse(codec, d, 0), scan)
    requires IndexOf(Parse(codec, d, 0).sections, APP1) < |Parse(codec, d, 0).sections|
    requires all == WithExif(Parse(codec, d, 0).sections, exif) && AllFit(all) && next == SegmentEnd(d, 0)
    requires Saved(codec, all, scan) == Spliced(codec, d, 0, (next, next), exif)
    ensures StepAt(codec, d, 0).Next? && FindExif(d, next).None? && CanStep(d, next)
    ensures var s, rest := StepAt(codec, d, 0).section, Parse(codec, d, next).sections;
            && Parse(codec, d, 0).sections == [s] + rest && s.marker != APP1 && s.Fits()
            && SectionBytes(codec, s, scan) == d[0..next]
  {
    FirstStep(codec, d, 0);
    FrontAlone(codec, d, all, exif, scan, next);
    NoneLater(d, 0);
    NotCut(codec, d);
    UnfoldSegment(codec, d, 0, scan);
  }

  /** A first segment that is cut is read alone. */
  lemma NotCut<E>(codec: Codec<E>, d: seq<byte>)
    requires CanStep(d, 0) && |d| >= 2 && d[1] != APP1 && IsMarker(d[1])
    requires StepAt(codec, d, 0) == SectionAt(codec, d, 2)
    requires IndexOf(Parse(codec, d, 0).sections, APP1) < |Parse(codec, d, 0).sections|
    ensures (Bare(d[1]) || Full(d, 0)) && SegmentEnd(d, 0) < |d|
  {
    var step := StepAt(codec, d, 0);
    IndexOfCons(step.section, Parse(codec, d, step.o).sections, APP1);
    FirstStep(codec, d, 0);
  }

  /** Behind the first segment the bytes agree too. */
  lemma LaterReplaced<E>(codec: Codec<E>, d: seq<byte>, next: nat, s: Section<E>, rest: seq<Section<E>>, k: nat,
                         exif: E, scan: seq<byte>)
    requires 0 < k <= |rest| && next <= |d| && s.Fits() && AllFit(rest) && SectionBytes(codec, s, scan) == d[0..next]
    requires AllFit(([s] + rest)[k := ExifSection(exif)])
    requires Saved(codec, ([s] + rest)[k := ExifSection(exif)], scan) == Spliced(codec, d, 0, (next, next), exif)
    ensures AllFit(rest[k - 1 := ExifSection(exif)])
    ensures Saved(codec, rest[k - 1 := ExifSection(exif)], scan) == Spliced(codec, d, next, (next, next), exif)
  {
    var changed := rest[k - 1 := ExifSection(exif)];
    assert ([s] + rest)[k := ExifSection(exif)] == [s] + changed;
    SavedCons(codec, [s] + changed, scan, s, changed);
    CancelSegment(codec, d, 0, next, (next, next), exif, Saved(codec, changed, scan));
  }

  lemma FilledBehind<E>(codec: Codec<E>, d: seq<byte>, o: nat, sections: seq<Section<E>>, k: nat, exif: E,
                        scan: seq<byte>)
    requires CanStep(d, o) && FindExif(d, o).None? && sections == Parse(codec, d, o).sections
    requires k == IndexOf(sections, APP1) < |sections| && AllFit(sections[k := ExifSection(exif)])
    ensures Saved(codec, sections[k := ExifSection(exif)], scan) != Spliced(codec, d, o, (o, o), exif)
  {
    var changed := sections[k := ExifSection(exif)];
    if Saved(codec, changed, scan) == Spliced(codec, d, o, (o, o), exif) {
      SavedFirst(codec, changed, scan);
      SplicedHere(codec, d, o, o, exif);
      FirstStep(codec, d, o);
      var s, rest := sections[0], sections[1..];
      assert sections == [s] + rest;
      IndexOfCons(s, rest, APP1);
      assert changed == [ExifSection(exif)] + rest;
      SavedNew(codec, exif, rest, scan);
      Cancel(ExifSegment(codec, exif), Saved(codec, rest, scan), d[o..]);
      FilledHere(codec, d, o, scan);
    }
  }

  /** Saved sections start with a marker behind one 0xff, and then no fill bytes were read. */
  lemma FilledHere<E>(codec: Codec<E>, d: seq<byte>, o: nat, scan: seq<byte>)
    requires CanStep(d, o) && FindExif(d, o).None? && StepAt(codec, d, o).Next?
    requires StepAt(codec, d, o).section.marker == APP1
    ensures Saved(codec, Parse(codec, d, StepAt(codec, d, o).o).sections, scan) != d[o..]
  {
    var next := StepAt(codec, d, o).o;
    var rest := Parse(codec, d, next).sections;
    if Saved(codec, rest, scan) == d[o..] {
      assert |d[o..]| > 0;
      SavedFirst(codec, rest, scan);
      StepMarker(codec, d, next);
      assert d[o] == d[o..][0] == 0xff && d[o + 1] == d[o..][1] == rest[0].marker;
      MarkerRead(codec, d, o);
    }
  }

  /** No `APP1` segment at all: one is inserted behind the first segment. */
  lemma InsertedEditable<E>(codec: Codec<E>, d: seq<byte>, exif: E, scan: seq<byte>)
    requires CanStep(d, 0) && |d| >= 2 && FindExif(d, 0).None? && Carries(Parse(codec, d, 0), scan)
    requires Parse(codec, d, 0).sections != []
    requires IndexOf(Parse(codec, d, 0).sections, APP1) == |Parse(codec, d, 0).sections|
    requires AllFit(WithExif(Parse(codec, d, 0).sections, exif))
    requires Saved(codec, WithExif(Parse(codec, d, 0).sections, exif), scan)
          == Spliced(codec, d, 0, (SegmentEnd(d, 0), SegmentEnd(d, 0)), exif)
    ensures Editable(codec, d, 0)
  {
    var sections, next := Parse(codec, d, 0).sections, SegmentEnd(d, 0);
    FirstStep(codec, d, 0);
    FrontAlone(codec, d, WithExif(sections, exif), exif, scan, next);
    NoneLater(d, 0);
    var s, rest := StepAt(codec, d, 0).section, Parse(codec, d, StepAt(codec, d, 0).o).sections;
    SavedSecond(codec, s, rest, exif, scan);
    if !Bare(d[1]) && !Full(d, 0) {
      CutFirst(codec, d, s, exif, scan);
    }
    UnfoldSegment(codec, d, 0, scan);
    CancelSegment(codec, d, 0, next, (next, next), exif, ExifSegment(codec, exif) + Saved(codec, rest, scan));
    SplicedHere(codec, d, next, next, exif);
    Cancel(ExifSegment(codec, exif), Saved(codec, rest, scan), d[next..]);
    NoneToEncode(codec, rest);
    SavedCanonical(codec, d, next, scan);
    CanonicalEditable(codec, d, next);
  }

  lemma SplicedEnd<E>(codec: Codec<E>, d: seq<byte>, exif: E)
    ensures Spliced(codec, d, 0, (|d|, |d|), exif) == d + ExifSegment(codec, exif)
  {
  }

  lemma CancelBack(x: seq<byte>, y: seq<byte>, t: seq<byte>)
    requires x + (t + []) == y + t
    ensures x == y
  {
    assert t + [] == t;
    assert |x| == |y|;
    assert x == (x + t)[..|x|] && y == (y + t)[..|x|];
  }

  /** A cut first segment is written whole. */
  lemma CutFirst<E>(codec: Codec<E>, d: seq<byte>, s: Section<E>, exif: E, scan: seq<byte>)
    requires CanStep(d, 0) && |d| >= 2 && d[0] == 0xff && IsMarker(d[1]) && !Bare(d[1]) && d[1] != APP1
    requires s == SectionAt(codec, d, 2).section
    requires SectionBytes(codec, s, scan) + (ExifSegment(codec, exif) + []) == Spliced(codec, d, 0, (|d|, |d|), exif)
    ensures Full(d, 0)
  {
    var b := SectionBytes(codec, s, scan);
    SplicedEnd(codec, d, exif);
    CancelBack(b, d, ExifSegment(codec, exif));
    assert b + [] == d == d[0..];
    if !Full(d, 0) {
      SavedSegmentCanonical(codec, d, 0, scan, []);
    }
  }

  lemma NoneToEncode<E>(codec: Codec<E>, sections: seq<Section<E>>)
    requires AllFit(sections) && IndexOf(sections, APP1) == |sections|
    ensures AllEncode(codec, sections)
  {
    NoneBefore(sections);
  }

  lemma NoneBefore<E>(sections: seq<Section<E>>)
    requires IndexOf(sections, APP1) == |sections|
    ensures forall i | 0 <= i < |sections| :: sections[i].marker != APP1
  {
  }

  // ---------- both directions ----------

  lemma {:induction false} EditableLaterEncode<E>(codec: Codec<E>, d: seq<byte>, o: nat, scan: seq<byte>)
    requires |d| < UINT && o <= |d| && Editable(codec, d, o) && (o == |d| || CanStep(d, o))
    requires Carries(Parse(codec, d, o), scan)
    ensures LaterEncode(codec, Parse(codec, d, o).sections)
    decreases |d| - o
  {
    if o < |d| {
      var next := SegmentEnd(d, o);
      if d[o + 1] == APP1 {
        UnfoldExif(codec, d, o);
        CanonicalEncodes(codec, d, next);
      } else {
        UnfoldSegment(codec, d, o, scan);
        EditableLaterEncode(codec, d, next, scan);
      }
      LaterCons(codec, StepAt(codec, d, o).section, Parse(codec, d, next).sections);
    }
  }

  /** If an edit changes nothing else, and later Exif data can be written, the file was editable. */
  lemma OnlyExifEditable<E>(codec: Codec<E>, d: seq<byte>, exif: E)
    requires 2 <= |d| < UINT && d[0] == 0xff && LaterEncode(codec, Parse(codec, d, 0).sections)
    requires Edited(codec, d, exif) == Spliced(codec, d, 0, EditRange(d), exif)
    ensures Editable(codec, d, 0)
  {
    var p := Parse(codec, d, 0);
    if p.sections == [] {
      FoundRead(codec, d, 0);
      EmptyDiffers(codec, d, EditRange(d), exif, ScanOf(p));
    } else {
      EditIs(codec, d, exif, WithExif(p.sections, exif), ScanOf(p));
      CasesEditable(codec, d, exif, p.sections, ScanOf(p));
    }
  }

  lemma EditIs<E>(codec: Codec<E>, d: seq<byte>, exif: E, all: seq<Section<E>>, scan: seq<byte>)
    requires |d| < UINT && (d == [] || d[0] == 0xff)
    requires all == WithExif(Parse(codec, d, 0).sections, exif) && scan == ScanOf(Parse(codec, d, 0))
    ensures AllFit(all) && Edited(codec, d, exif) == Saved(codec, all, scan)
  {
  }

  /** The cases: whether an `APP1` segment is found, and whether one was read. */
  lemma CasesEditable<E>(codec: Codec<E>, d: seq<byte>, exif: E, sections: seq<Section<E>>, scan: seq<byte>)
    requires CanStep(d, 0) && |d| >= 2 && sections == Parse(codec, d, 0).sections != [] && LaterEncode(codec, sections)
    requires AllFit(WithExif(sections, exif)) && Carries(Parse(codec, d, 0), scan)
    requires Saved(codec, WithExif(sections, exif), scan) == Spliced(codec, d, 0, EditRange(d), exif)
    ensures Editable(codec, d, 0)
  {
    var k := IndexOf(sections, APP1);
    if FindExif(d, 0).Some? {
      if k < |sections| {
        FoundEditable(codec, d, 0, exif, scan);
      } else {
        UnreadDiffers(codec, d, exif, scan);
      }
    } else if k < |sections| {
      FilledDiffers(codec, d, exif, scan);
    } else {
      InsertedEditable(codec, d, exif, scan);
    }
  }

  /** An edit changes the first `APP1` segment only, or adds one behind the first segment, exactly when the file is
      made of canonical segments but for the first `APP1` segment. */
  lemma EditChangesOnlyExifIff<E>(codec: Codec<E>, d: seq<byte>, exif: E)
    requires 2 <= |d| < UINT && d[0] == 0xff
    ensures var (a, b) := EditRange(d);
            Editable(codec, d, 0)
            <==> LaterEncode(codec, Parse(codec, d, 0).sections)
                 && Edited(codec, d, exif) == d[..a] + ExifSegment(codec, exif) + d[b..]
  {
    var (a, b) := EditRange(d);
    assert d[0..a] == d[..a];
    if Editable(codec, d, 0) {
      EditChangesOnlyExif(codec, d, exif);
      EditableLaterEncode(codec, d, 0, ScanOf(Parse(codec, d, 0)));
    } else if LaterEncode(codec, Parse(codec, d, 0).sections)
              && Edited(codec, d, exif) == Spliced(codec, d, 0, (a, b), exif) {
      OnlyExifEditable(codec, d, exif);
    }
  }

  // ---------- a file with two `APP1` segments ----------

  /** An empty Exif segment, and a second `APP1` segment of two bytes, such as one with XMP would be. */
  const TWO_EXIF: seq<byte> := [0xff, SOI, 0xff, APP1, 0, 2, 0xff, APP1, 0, 4, 1, 2]

  lemma TwoEnds(d: seq<byte>)
    requires d == TWO_EXIF
    ensures SegmentEnd(d, 0) == 2 && Full(d, 2) && PayloadEnd(d, 2) == SegmentEnd(d, 2) == 6
    ensures Full(d, 6) && PayloadEnd(d, 6) == SegmentEnd(d, 6) == |d| == 12
    ensures EditRange(d) == (2, 6) && d[6..12] == d[6..] && d[10..12] == [1, 2]
  {
    assert PayloadLength(d, 4) == 0 && PayloadLength(d, 8) == 2;
    assert FindExif(d, 2) == Some((2, 6));
  }

  lemma TwoEditable<E>(codec: Codec<E>, d: seq<byte>)
    requires d == TWO_EXIF
    ensures Editable(codec, d, 0) <==> codec.encode(codec.decode(d[6..])) == Some([1, 2])
  {
    TwoEnds(d);
    assert Canonical(codec, d, 12);
    assert Canonical(codec, d, 6) <==> CanonicalSegment(codec, d, 6);
    assert Editable(codec, d, 0) <==> Editable(codec, d, 2);
  }

  lemma TwoRead<E>(codec: Codec<E>, d: seq<byte>, o: nat)
    requires d == TWO_EXIF && (o == 2 || o == 6)
    ensures StepAt(codec, d, o)
         == Next(Section(APP1, App1(Some(codec.decode(d[o..SegmentEnd(d, o)])))), None, SegmentEnd(d, o))
  {
    TwoEnds(d);
    MarkerRead(codec, d, o);
  }

  lemma TwoSections<E>(codec: Codec<E>, d: seq<byte>, first: E, second: E)
    requires d == TWO_EXIF && first == codec.decode(d[2..6]) && second == codec.decode(d[6..])
    ensures Parse(codec, d, 0).sections
         == [Section(SOI, Nothing)] + ([ExifSection(first)] + [ExifSection(second)])
  {
    TwoEnds(d);
    MarkerRead(codec, d, 0);
    TwoRead(codec, d, 2);
    TwoRead(codec, d, 6);
    assert Parse(codec, d, 12).sections == [];
    assert Parse(codec, d, 6).sections == [ExifSection(second)];
  }

  lemma TwoSaved<E>(codec: Codec<E>, soi: Section<E>, first: E, second: E, exif: E, scan: seq<byte>)
    requires soi == Section(SOI, Nothing)
    ensures var all := WithExif([soi] + ([ExifSection(first)] + [ExifSection(second)]), exif);
            && AllFit(all)
            && Saved(codec, all, scan) == [0xff, SOI] + (ExifSegment(codec, exif) + ExifSegment(codec, second))
  {
    var last := [ExifSection(second)];
    var rest := [ExifSection(exif)] + last;
    IndexOfCons(ExifSection(first), last, APP1);
    IndexOfCons(soi, [ExifSection(first)] + last, APP1);
    assert WithExif([soi] + ([ExifSection(first)] + last), exif) == [soi] + rest;
    SavedCons(codec, [soi] + rest, scan, soi, rest);
    SavedNew(codec, exif, last, scan);
    SavedCons(codec, last, scan, ExifSection(second), []);
  }

  /** The second one is decoded and encoded as Exif data too, and only if that gives back its two bytes, an edit changes
      the first one alone. */
  lemma SecondRewritten<E>(codec: Codec<E>, exif: E)
    ensures EditRange(TWO_EXIF) == (2, 6)
    ensures Editable(codec, TWO_EXIF, 0) <==> codec.encode(codec.decode(TWO_EXIF[6..])) == Some([1, 2])
    ensures Edited(codec, TWO_EXIF, exif)
         == TWO_EXIF[..2] + (ExifSegment(codec, exif) + ExifSegment(codec, codec.decode(TWO_EXIF[6..])))
  {
    var d := TWO_EXIF;
    TwoEnds(d);
    TwoEditable(codec, d);
    TwoSections(codec, d, codec.decode(d[2..6]), codec.decode(d[6..]));
    TwoSaved(codec, Section(SOI, Nothing), codec.decode(d[2..6]), codec.decode(d[6..]), exif,
             ScanOf(Parse(codec, d, 0)));
    assert d[..2] == [0xff, SOI];
  }
}
