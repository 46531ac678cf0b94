/** Loading an edited file again. */
module JpegReload {
  import opened Basics
  import opened Bytes
  import opened JpegFormat
  import opened JpegRoundTrip
  import opened JpegCanonical
  import opened JpegData
  import opened JpegEdit

  /** Where an edit puts the Exif section. */
  function EditIndex<E>(sections: seq<Section<E>>): nat {
    var i := IndexOf(sections, APP1);
    if i < |sections| then i else 1
  }

  /** No scan data comes before the edited section. */
  predicate ScanAfter<E>(sections: seq<Section<E>>, k: nat) {
    forall j | 0 <= j < k && j < |sections| :: sections[j].marker != SOS
  }

  // ---------- a canonical file holds a well-formed section list ----------

  lemma SegmentStorable<E>(codec: Codec<E>, d: seq<byte>, o: nat)
    requires CanStep(d, o) && CanonicalSegment(codec, d, o)
    ensures StepAt(codec, d, o).Next?
    ensures var s := StepAt(codec, d, o).section;
            Storable(codec, s) || (Stub(s) && SegmentEnd(d, o) == |d|)
  {
    MarkerRead(codec, d, o);
    if !Bare(d[o + 1]) && Full(d, o) {
      FieldIsLength(d, o);
      SegmentIsSlice(d, o, PayloadEnd(d, o));
    }
  }

  /** What follows the scan data of a canonical file. */
  lemma TailCanonical<E>(codec: Codec<E>, d: seq<byte>, q: nat, scan: seq<byte>)
    requires |d| < UINT && 0 < q <= |d| && scan == d[q..ScanEnd(d, q)]
    requires Canonical(codec, d, ScanEnd(d, q))
    ensures TailOk(scan, Parse(codec, d, ScanEnd(d, q)).sections)
  {
  }

  lemma WellFormedCons<E>(codec: Codec<E>, s: Section<E>, rest: seq<Section<E>>, scan: seq<byte>)
    requires Storable(codec, s) || (Stub(s) && rest == [])
    requires if s.marker == SOS then TailOk(scan, rest) else WellFormed(codec, rest, scan)
    ensures WellFormed(codec, [s] + rest, scan)
  {
  }

  lemma {:induction false} CanonicalWellFormed<E>(codec: Codec<E>, d: seq<byte>, o: nat, scan: seq<byte>)
    requires |d| < UINT && o <= |d| && Canonical(codec, d, o) && (o == |d| || CanStep(d, o))
    requires Carries(Parse(codec, d, o), scan)
    ensures WellFormed(codec, Parse(codec, d, o).sections, scan)
    decreases |d| - o
  {
    if o < |d| {
      Unfold(codec, d, o, scan);
      FirstStep(codec, d, o);
      SegmentStorable(codec, d, o);
      MarkerRead(codec, d, o);
      var next := SegmentEnd(d, o);
      if d[o + 1] == SOS {
        TailCanonical(codec, d, PayloadEnd(d, o), scan);
      } else {
        CanonicalWellFormed(codec, d, next, scan);
      }
      WellFormedCons(codec, StepAt(codec, d, o).section, Parse(codec, d, next).sections, scan);
    }
  }

  /** A section list that is well-formed but for its first `APP1` section, which may hold anything. */
  ghost predicate Replaceable<E>(codec: Codec<E>, sections: seq<Section<E>>, scan: seq<byte>) {
    if sections == [] then true
    else if sections[0].marker == APP1 then sections[0].Fits() && WellFormed(codec, sections[1..], scan)
    else if sections[0].marker == SOS then Storable(codec, sections[0]) && TailOk(scan, sections[1..])
    else Storable(codec, sections[0]) && Replaceable(codec, sections[1..], scan)
  }

  lemma ReplaceableCons<E>(codec: Codec<E>, s: Section<E>, rest: seq<Section<E>>, scan: seq<byte>)
    requires if s.marker == APP1 then s.Fits() && WellFormed(codec, rest, scan)
             else if s.marker == SOS then Storable(codec, s) && TailOk(scan, rest)
             else Storable(codec, s) && Replaceable(codec, rest, scan)
    ensures Replaceable(codec, [s] + rest, scan)
  {
    assert ([s] + rest)[1..] == rest;
  }

  lemma {:induction false} EditableReplaceable<E>(codec: Codec<E>, d: seq<byte>, o: nat, scan: seq<byte>)
    requires |d| < UINT && o <= |d| && Editable(codec, d, o) && (o == |d| || CanStep(d, o))
    requires Carries(Parse(codec, d, o), scan)
    ensures Replaceable(codec, Parse(codec, d, o).sections, scan)
    decreases |d| - o
  {
    if o < |d| {
      var next := SegmentEnd(d, o);
      if d[o + 1] == APP1 {
        UnfoldExif(codec, d, o);
        CanonicalWellFormed(codec, d, next, scan);
      } else {
        UnfoldSegment(codec, d, o, scan);
        SegmentStorable(codec, d, o);
        if d[o + 1] == SOS {
          ScanBefore(codec, d, o, scan);
          TailCanonical(codec, d, PayloadEnd(d, o), scan);
        } else {
          EditableReplaceable(codec, d, next, scan);
        }
      }
      ReplaceableCons(codec, StepAt(codec, d, o).section, Parse(codec, d, next).sections, scan);
    }
  }

  /** The scan data behind a canonical `SOS` segment, and the little that may follow it. */
  lemma ScanBefore<E>(codec: Codec<E>, d: seq<byte>, o: nat, scan: seq<byte>)
    requires CanStep(d, o) && CanonicalSegment(codec, d, o) && d[o + 1] == SOS && Editable(codec, d, SegmentEnd(d, o))
    requires Carries(Parse(codec, d, o), scan)
    ensures Full(d, o) && scan == d[PayloadEnd(d, o)..SegmentEnd(d, o)] && Canonical(codec, d, SegmentEnd(d, o))
  {
    MarkerRead(codec, d, o);
    FirstStep(codec, d, o);
  }

  /** There is scan data exactly when there is an `SOS` section. */
  lemma {:induction false} ScanTold<E>(codec: Codec<E>, d: seq<byte>, o: nat)
    requires |d| < UINT && o <= |d| && Editable(codec, d, o) && (o == |d| || CanStep(d, o))
    ensures Parse(codec, d, o).scan.Some? <==> HasScan(Parse(codec, d, o).sections)
    decreases |d| - o
  {
    if o < |d| {
      var next := SegmentEnd(d, o);
      if d[o + 1] == APP1 {
        UnfoldExif(codec, d, o);
        CanonicalEditable(codec, d, next);
      } else {
        UnfoldSegment(codec, d, o, ScanOf(Parse(codec, d, o)));
        ScanStep(codec, d, o);
      }
      ScanTold(codec, d, next);
      HasScanRest(Parse(codec, d, o).sections);
      assert Parse(codec, d, o).sections[1..] == Parse(codec, d, next).sections;
    }
  }

  lemma ScanStep<E>(codec: Codec<E>, d: seq<byte>, o: nat)
    requires CanStep(d, o) && CanonicalSegment(codec, d, o) && d[o + 1] != APP1
    ensures StepAt(codec, d, o).Next?
    ensures var p, rest := Parse(codec, d, o), Parse(codec, d, StepAt(codec, d, o).o);
            p.scan.Some? <==> d[o + 1] == SOS || rest.scan.Some?
  {
    MarkerRead(codec, d, o);
    FirstStep(codec, d, o);
  }

  // ---------- an edit before the scan data makes it well-formed ----------

  lemma {:induction false} ReplaceWellFormed<E>(codec: Codec<E>, sections: seq<Section<E>>, k: nat, exif: E,
                                                 scan: seq<byte>)
    requires k < |sections| && sections[k].marker == APP1 && Replaceable(codec, sections, scan)
    requires forall j | 0 <= j < k :: sections[j].marker != APP1
    requires Storable(codec, ExifSection(exif)) && ScanAfter(sections, k)
    ensures WellFormed(codec, sections[k := ExifSection(exif)], scan)
  {
    var s, rest := sections[0], sections[1..];
    if k == 0 {
      assert sections[0 := ExifSection(exif)] == [ExifSection(exif)] + rest;
      WellFormedCons(codec, ExifSection(exif), rest, scan);
    } else {
      assert forall j | 0 <= j < |rest| :: rest[j] == sections[j + 1];
      ReplaceWellFormed(codec, rest, k - 1, exif, scan);
      assert sections[k := ExifSection(exif)] == [s] + rest[k - 1 := ExifSection(exif)];
      WellFormedCons(codec, s, rest[k - 1 := ExifSection(exif)], scan);
    }
  }

  /** Without an `APP1` section there is nothing to be excused. */
  lemma {:induction false} NothingToReplace<E>(codec: Codec<E>, sections: seq<Section<E>>, scan: seq<byte>)
    requires Replaceable(codec, sections, scan) && IndexOf(sections, APP1) == |sections|
    ensures WellFormed(codec, sections, scan)
  {
    if sections != [] && sections[0].marker != SOS {
      NothingToReplace(codec, sections[1..], scan);
    }
  }

  /** An edit in front of the scan data makes the section list well-formed, whatever the old Exif section was. */
  lemma EditWellFormed<E>(codec: Codec<E>, sections: seq<Section<E>>, exif: E, scan: seq<byte>)
    requires sections != [] && Replaceable(codec, sections, scan)
    requires Storable(codec, ExifSection(exif)) && ScanAfter(sections, EditIndex(sections))
    ensures WellFormed(codec, WithExif(sections, exif), scan)
  {
    var i := IndexOf(sections, APP1);
    if i < |sections| {
      ReplaceWellFormed(codec, sections, i, exif, scan);
    } else {
      var tail := [ExifSection(exif)] + sections[1..];
      assert sections[0].marker != SOS;
      NothingToReplace(codec, sections, scan);
      WellFormedCons(codec, ExifSection(exif), sections[1..], scan);
      WellFormedCons(codec, sections[0], tail, scan);
      assert WithExif(sections, exif) == [sections[0]] + tail;
    }
  }

  /** The edited section is where it was put, and it is the first of its kind. */
  lemma EditFound<E>(sections: seq<Section<E>>, exif: E)
    requires sections != [] && AllFit(sections)
    ensures var edited, k := WithExif(sections, exif), EditIndex(sections);
            && AllFit(edited) && k < |edited| && edited[k] == ExifSection(exif)
            && IndexOf(edited, APP1) == k && ExifOf(edited) == Some(exif)
            && forall j | 0 <= j < k :: j < |sections| && edited[j] == sections[j]
  {
  }

  lemma EditKeepsScan<E>(sections: seq<Section<E>>, exif: E)
    requires sections != []
    ensures HasScan(WithExif(sections, exif)) == HasScan(sections)
  {
    var edited, i := WithExif(sections, exif), IndexOf(sections, APP1);
    forall j | 0 <= j < |sections| && sections[j].marker == SOS ensures HasScan(edited) {
      var k := if i < |sections| || j == 0 then j else j + 1;
      assert edited[k].marker == SOS;
    }
    forall k | 0 <= k < |edited| && edited[k].marker == SOS ensures HasScan(sections) {
      var j := if i < |sections| || k == 0 then k else k - 1;
      assert sections[j].marker == SOS;
    }
  }

  // ---------- an edit behind the scan data is lost ----------

  predicate NoExif<E>(sections: seq<Section<E>>) {
    forall i | 0 <= i < |sections| :: sections[i].content.App1? ==> sections[i].content.exif.None?
  }

  /** Two bytes hold no Exif data. */
  lemma NoExifInTail<E>(codec: Codec<E>, d: seq<byte>, o: nat)
    requires |d| < UINT && 0 < o <= |d| <= o + 2
    ensures NoExif(Parse(codec, d, o).sections)
    decreases |d| - o
  {
    if o < |d| && StepAt(codec, d, o).Next? {
      NoExifInTail(codec, d, StepAt(codec, d, o).o);
      FirstStep(codec, d, o);
    }
  }

  /** Storable sections up to the first `SOS`, which is there. */
  ghost predicate ReachesScan<E>(codec: Codec<E>, sections: seq<Section<E>>) {
    && sections != [] && Storable(codec, sections[0])
    && (sections[0].marker == SOS || ReachesScan(codec, sections[1..]))
  }

  /** The sections up to the first `SOS`. */
  function UpToScan<E>(sections: seq<Section<E>>): seq<Section<E>> {
    if sections == [] then []
    else [sections[0]] + (if sections[0].marker == SOS then [] else UpToScan(sections[1..]))
  }

  /** These sections, and no Exif data behind them. */
  ghost predicate OnlyThese<E>(sections: seq<Section<E>>, front: seq<Section<E>>) {
    |front| <= |sections| && sections[..|front|] == front && NoExif(sections[|front|..])
  }

  lemma OnlyTheseCons<E>(s: Section<E>, sections: seq<Section<E>>, front: seq<Section<E>>)
    requires OnlyThese(sections, front)
    ensures OnlyThese([s] + sections, [s] + front)
  {
    assert ([s] + sections)[|front| + 1..] == sections[|front|..];
  }

  lemma LostAtScan<E>(codec: Codec<E>, d: seq<byte>, o: nat, s: Section<E>, scan: seq<byte>, tail: seq<byte>)
    requires CanStep(d, o) && Storable(codec, s) && s.marker == SOS && d[o..] == SectionBytes(codec, s, scan) + tail
    ensures OnlyThese(Parse(codec, d, o).sections, [s] + [])
  {
    assert d[o..] == Segment(SOS, s.content.data) + (scan + tail);
    GenericReads(codec, d, o, SOS, s.content.data, scan + tail, o + 4 + |s.content.data|);
    var rest := Parse(codec, d, StepAt(codec, d, o).o).sections;
    NoExifInTail(codec, d, StepAt(codec, d, o).o);
    FirstStep(codec, d, o);
    assert rest[0..] == rest;
    OnlyTheseCons(s, rest, []);
  }

  /** Exif data behind an `SOS` section does not come back: its bytes are read as scan data, and only the sections up to
      that one are found again. */
  lemma {:induction false} LostBehindScan<E>(codec: Codec<E>, d: seq<byte>, o: nat, sections: seq<Section<E>>,
                                             scan: seq<byte>)
    requires |d| < UINT && o <= |d| && AllFit(sections) && d[o..] == Saved(codec, sections, scan)
    requires ReachesScan(codec, sections)
    ensures CanStep(d, o) && OnlyThese(Parse(codec, d, o).sections, UpToScan(sections))
    decreases |sections|
  {
    var s, rest := sections[0], sections[1..];
    var tail := Saved(codec, rest, scan);
    assert d[o] == d[o..][0] == 0xff;
    if s.marker == SOS {
      LostAtScan(codec, d, o, s, scan, tail);
    } else {
      var next := o + |SectionBytes(codec, s, scan)|;
      StepReads(codec, d, o, s, scan, tail, next);
      LostBehindScan(codec, d, next, rest, scan);
      FirstStep(codec, d, o);
      OnlyTheseCons(s, Parse(codec, d, next).sections, UpToScan(rest));
    }
  }

  /** No Exif data is found if there is none up to the `SOS` section. */
  lemma NoneFound<E>(sections: seq<Section<E>>, front: seq<Section<E>>)
    requires AllFit(sections) && OnlyThese(sections, front)
    requires forall i | 0 <= i < |front| :: front[i].marker != APP1
    ensures ExifOf(sections).None?
  {
    assert forall i | 0 <= i < |front| :: sections[i] == sections[..|front|][i] == front[i];
    assert forall i | |front| <= i < |sections| :: sections[i] == sections[|front|..][i - |front|];
  }

  /** Replacing the first `APP1` section behind an `SOS` section. */
  lemma {:induction false} ReplacedBehindScan<E>(codec: Codec<E>, sections: seq<Section<E>>, scan: seq<byte>, exif: E,
                                                 k: nat)
    requires Replaceable(codec, sections, scan) && k < |sections| && !ScanAfter(sections, k)
    requires forall j | 0 <= j < k :: sections[j].marker != APP1
    ensures var edited := sections[k := ExifSection(exif)];
            && ReachesScan(codec, edited)
            && forall i | 0 <= i < |UpToScan(edited)| :: UpToScan(edited)[i].marker != APP1
  {
    var edited := sections[k := ExifSection(exif)];
    var rest := sections[1..];
    assert sections[0].marker != APP1 && edited[0] == sections[0];
    assert edited[1..] == rest[k - 1 := ExifSection(exif)];
    if sections[0].marker != SOS {
      assert forall j | 0 <= j < |rest| :: rest[j] == sections[j + 1];
      ScanAfterRest(sections, k);
      ReplacedBehindScan(codec, rest, scan, exif, k - 1);
      assert UpToScan(edited) == [sections[0]] + UpToScan(edited[1..]);
    }
  }

  lemma ScanAfterRest<E>(sections: seq<Section<E>>, k: nat)
    requires sections != [] && k > 0 && sections[0].marker != SOS && !ScanAfter(sections, k)
    ensures !ScanAfter(sections[1..], k - 1)
  {
    var j :| 0 <= j < k && j < |sections| && sections[j].marker == SOS;
    assert sections[1..][j - 1] == sections[j];
  }

  /** What a canonical file loads to. */
  lemma CanonicalLoads<E>(codec: Codec<E>, d: seq<byte>)
    requires 0 < |d| < UINT && Canonical(codec, d, 0)
    ensures d[0] == 0xff
    ensures var p := Parse(codec, d, 0);
            && p.sections != [] && WellFormed(codec, p.sections, ScanOf(p))
            && (p.scan.Some? <==> HasScan(p.sections))
  {
    CanonicalEditable(codec, d, 0);
    EditableLoads(codec, d);
    CanonicalWellFormed(codec, d, 0, ScanOf(Parse(codec, d, 0)));
  }

  /** What an editable file loads to. */
  lemma EditableLoads<E>(codec: Codec<E>, d: seq<byte>)
    requires 0 < |d| < UINT && Editable(codec, d, 0)
    ensures d[0] == 0xff
    ensures var p := Parse(codec, d, 0);
            && p.sections != [] && Replaceable(codec, p.sections, ScanOf(p))
            && (p.scan.Some? <==> HasScan(p.sections))
  {
    FirstByte(codec, d);
    var p := Parse(codec, d, 0);
    if d[1] == APP1 {
      UnfoldExif(codec, d, 0);
    } else {
      UnfoldSegment(codec, d, 0, ScanOf(p));
    }
    EditableReplaceable(codec, d, 0, ScanOf(p));
    ScanTold(codec, d, 0);
  }

  lemma EditLost<E>(codec: Codec<E>, sections: seq<Section<E>>, scan: seq<byte>, exif: E)
    requires sections != [] && AllFit(sections) && Replaceable(codec, sections, scan)
    requires !ScanAfter(sections, EditIndex(sections)) && |Saved(codec, WithExif(sections, exif), scan)| < UINT
    ensures var out := Saved(codec, WithExif(sections, exif), scan);
            CanStep(out, 0) && ExifOf(Parse(codec, out, 0).sections).None?
  {
    var edited, i := WithExif(sections, exif), IndexOf(sections, APP1);
    EditFound(sections, exif);
    if i < |sections| {
      ReplacedBehindScan(codec, sections, scan, exif, i);
    } else {
      assert edited[0] == sections[0] && sections[0].marker == SOS;
    }
    var out := Saved(codec, edited, scan);
    assert out[0..] == out;
    LostBehindScan(codec, out, 0, edited, scan);
    NoneFound(Parse(codec, out, 0).sections, UpToScan(edited));
  }

  /** Loading an edited file gives the new Exif data exactly when no scan data comes before the place of the edit: then
      it gives all edited sections and the old scan data, and otherwise no Exif data at all. */
  lemma EditReloadsIff<E>(codec: Codec<E>, d: seq<byte>, exif: E)
    requires 0 < |d| < UINT && d[0] == 0xff && Editable(codec, d, 0) && Storable(codec, ExifSection(exif))
    requires |Edited(codec, d, exif)| < UINT
    ensures var p, out := Parse(codec, d, 0), Edited(codec, d, exif);
            && CanStep(out, 0) && AllFit(WithExif(p.sections, exif))
            && ExifOf(WithExif(p.sections, exif)) == Some(exif)
            && (Parse(codec, out, 0) == Parsed(WithExif(p.sections, exif), p.scan)
                <==> ScanAfter(p.sections, EditIndex(p.sections)))
            && (ExifOf(Parse(codec, out, 0).sections)
                == if ScanAfter(p.sections, EditIndex(p.sections)) then Some(exif) else None)
  {
    var p := Parse(codec, d, 0);
    EditableLoads(codec, d);
    EditFound(p.sections, exif);
    if ScanAfter(p.sections, EditIndex(p.sections)) {
      EditWellFormed(codec, p.sections, exif, ScanOf(p));
      EditKeepsScan(p.sections, exif);
      LoadOfSave(codec, WithExif(p.sections, exif), ScanOf(p));
    } else {
      EditLost(codec, p.sections, ScanOf(p), exif);
    }
  }

  /** The smallest file in which an edit is lost: an empty scan header and nothing before it. */
  const SCAN_ONLY: seq<byte> := [0xff, SOS, 0x00, 0x02]

  lemma ScanOnlyCanonical<E>(codec: Codec<E>)
    ensures Canonical(codec, SCAN_ONLY, 0) && FindExif(SCAN_ONLY, 0).None? && SegmentEnd(SCAN_ONLY, 0) == 4
    ensures Parse(codec, SCAN_ONLY, 0).sections == [Section(SOS, Generic([]))]
  {
    var d := SCAN_ONLY;
    assert PayloadLength(d, 2) == 0 && Full(d, 0) && SegmentEnd(d, 0) == 4;
    MarkerRead(codec, d, 0);
    FirstStep(codec, d, 0);
    assert Parse(codec, d, 4).sections == [];
    assert Canonical(codec, d, 4) && CanonicalSegment(codec, d, 0);
    assert FindExif(d, 4).None?;
  }

  lemma ScanOnlyLosesExif<E>(codec: Codec<E>, exif: E)
    requires Storable(codec, ExifSection(exif))
    ensures Editable(codec, SCAN_ONLY, 0)
    ensures Edited(codec, SCAN_ONLY, exif) == SCAN_ONLY + ExifSegment(codec, exif)
    ensures ExifOf(Parse(codec, Edited(codec, SCAN_ONLY, exif), 0).sections).None?
  {
    var d := SCAN_ONLY;
    ScanOnlyCanonical(codec);
    CanonicalEditable(codec, d, 0);
    EditChangesOnlyExif(codec, d, exif);
    assert d[..4] == d && d[4..] == [];
    assert Edited(codec, d, exif) == d + ExifSegment(codec, exif);
    var sections := Parse(codec, d, 0).sections;
    assert sections[0].marker == SOS && IndexOf(sections, APP1) == 1;
    assert !ScanAfter(sections, EditIndex(sections));
    EditReloadsIff(codec, d, exif);
  }
}
