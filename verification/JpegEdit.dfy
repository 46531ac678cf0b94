/** Replacing the Exif segment of a file: what changes, and when the result can be loaded again. */
module JpegEdit {
  import opened Basics
  import opened Bytes
  import opened JpegFormat
  import opened JpegRoundTrip
  import opened JpegCanonical
  import opened JpegData

  /** The segment written for new Exif data. */
  function ExifSegment<E>(codec: Codec<E>, exif: E): seq<byte> {
    if codec.encode(exif).Some? then Segment(APP1, codec.encode(exif).value) else [0xff, APP1]
  }

  /** Where the first `APP1` segment of the file starts and ends. */
  function FindExif(d: seq<byte>, o: nat): (r: Option<(nat, nat)>)
    ensures r.Some? ==> o <= r.value.0 <= r.value.1 <= |d|
    decreases |d| - o
  {
    if o + 2 > |d| || d[o] != 0xff then None
    else if d[o + 1] == APP1 then Some((o, SegmentEnd(d, o)))
    else FindExif(d, SegmentEnd(d, o))
  }

  /** The byte range that an edit replaces: the first `APP1` segment, or nothing behind the first segment. */
  function EditRange(d: seq<byte>): (r: (nat, nat))
    requires |d| >= 2
    ensures r.0 <= r.1 <= |d|
  {
    var found := FindExif(d, 0);
    if found.Some? then found.value else (SegmentEnd(d, 0), SegmentEnd(d, 0))
  }

  /** The rest of the file is made of canonical segments, but for the first `APP1` segment: that one is replaced, so
      its Exif data need not survive re-encoding, nor be there at all. */
  ghost predicate Editable<E>(codec: Codec<E>, d: seq<byte>, o: nat)
    requires o <= |d|
    decreases |d| - o
  {
    o == |d|
    || (o + 2 <= |d| && d[o] == 0xff
        && if d[o + 1] == APP1 then Canonical(codec, d, SegmentEnd(d, o))
           else CanonicalSegment(codec, d, o) && Editable(codec, d, SegmentEnd(d, o)))
  }

  /** The file after loading, replacing the Exif data and saving. */
  ghost function Edited<E>(codec: Codec<E>, d: seq<byte>, exif: E): seq<byte>
    requires |d| < UINT && (d == [] || d[0] == 0xff)
  {
    var p := Parse(codec, d, 0);
    Saved(codec, WithExif(p.sections, exif), ScanOf(p))
  }

  // ---------- nothing else changes ----------

  lemma SavedNew<E>(codec: Codec<E>, exif: E, rest: seq<Section<E>>, scan: seq<byte>)
    requires AllFit(rest)
    ensures Saved(codec, [ExifSection(exif)] + rest, scan) == ExifSegment(codec, exif) + Saved(codec, rest, scan)
  {
  }

  lemma IndexOfCons<E>(s: Section<E>, rest: seq<Section<E>>, m: byte)
    ensures IndexOf([s] + rest, m) == if s.marker == m then 0 else 1 + IndexOf(rest, m)
  {
  }

  lemma RegroupFour(a: seq<byte>, b: seq<byte>, c: seq<byte>, t: seq<byte>)
    ensures a + (b + c + t) == (a + b) + c + t
  {
  }

  /** The first segment of a canonical rest, and what follows it. */
  lemma Unfold<E>(codec: Codec<E>, d: seq<byte>, o: nat, scan: seq<byte>)
    requires |d| < UINT && o < |d| && Canonical(codec, d, o) && (o > 0 || d[0] == 0xff)
    requires Carries(Parse(codec, d, o), scan)
    ensures o + 2 <= |d| && o < SegmentEnd(d, o) && StepAt(codec, d, o).Next?
    ensures var s, next := StepAt(codec, d, o).section, SegmentEnd(d, o);
            var rest := Parse(codec, d, next);
            && StepAt(codec, d, o).o == next && s.marker == d[o + 1] && s.Fits()
            && Parse(codec, d, o).sections == [s] + rest.sections
            && SectionBytes(codec, s, scan) == d[o..next]
            && Canonical(codec, d, next) && Carries(rest, scan) && Saved(codec, rest.sections, scan) == d[next..]
  {
    MarkerRead(codec, d, o);
    FirstStep(codec, d, o);
    SegmentSaved(codec, d, o, scan);
    CanonicalSaved(codec, d, SegmentEnd(d, o), scan);
  }

  /** A canonical segment in front, whatever follows it. */
  lemma UnfoldSegment<E>(codec: Codec<E>, d: seq<byte>, o: nat, scan: seq<byte>)
    requires CanStep(d, o) && CanonicalSegment(codec, d, o) && Carries(Parse(codec, d, o), scan)
    ensures o < SegmentEnd(d, o) && StepAt(codec, d, o).Next?
    ensures var s, next := StepAt(codec, d, o).section, SegmentEnd(d, o);
            && StepAt(codec, d, o).o == next && s.marker == d[o + 1] && s.Fits()
            && Parse(codec, d, o).sections == [s] + Parse(codec, d, next).sections
            && SectionBytes(codec, s, scan) == d[o..next] && Carries(Parse(codec, d, next), scan)
  {
    MarkerRead(codec, d, o);
    FirstStep(codec, d, o);
    SegmentSaved(codec, d, o, scan);
  }

  /** An `APP1` segment in front, whole or not. */
  lemma UnfoldExif<E>(codec: Codec<E>, d: seq<byte>, o: nat)
    requires CanStep(d, o) && o + 2 <= |d| && d[o] == 0xff && d[o + 1] == APP1
    ensures o < SegmentEnd(d, o) && StepAt(codec, d, o).Next?
    ensures var s, next := StepAt(codec, d, o).section, SegmentEnd(d, o);
            && StepAt(codec, d, o).o == next && s.marker == APP1 && s.Fits()
            && Parse(codec, d, o).sections == [s] + Parse(codec, d, next).sections
            && Parse(codec, d, o).scan == Parse(codec, d, next).scan
  {
    MarkerRead(codec, d, o);
    FirstStep(codec, d, o);
  }

  /** Without an `APP1` segment there is nothing to be excused. */
  lemma {:induction false} NoExifCanonical<E>(codec: Codec<E>, d: seq<byte>, o: nat)
    requires o <= |d| && Editable(codec, d, o) && FindExif(d, o).None?
    ensures Canonical(codec, d, o)
    decreases |d| - o
  {
    if o < |d| {
      NoExifCanonical(codec, d, SegmentEnd(d, o));
    }
  }

  /** Canonical files are editable. */
  lemma {:induction false} CanonicalEditable<E>(codec: Codec<E>, d: seq<byte>, o: nat)
    requires o <= |d| && Canonical(codec, d, o)
    ensures Editable(codec, d, o)
    decreases |d| - o
  {
    if o < |d| && d[o + 1] != APP1 {
      CanonicalEditable(codec, d, SegmentEnd(d, o));
    }
  }

  /** The saved bytes after the edit, when the `APP1` segment at `range` is the first one from `o` on. */
  ghost predicate Replaced<E>(codec: Codec<E>, d: seq<byte>, o: nat, sections: seq<Section<E>>, k: nat,
                              range: (nat, nat), exif: E, scan: seq<byte>) {
    && AllFit(sections) && k < |sections| && o <= range.0 <= range.1 <= |d|
    && Saved(codec, sections[k := ExifSection(exif)], scan)
       == d[o..range.0] + ExifSegment(codec, exif) + d[range.1..]
  }

  /** Replacing the section in front. */
  lemma ReplaceFirst<E>(codec: Codec<E>, d: seq<byte>, o: nat, next: nat, s: Section<E>, rest: seq<Section<E>>, exif: E,
                        scan: seq<byte>)
    requires s.Fits() && AllFit(rest) && o <= next <= |d| && Saved(codec, rest, scan) == d[next..]
    ensures Replaced(codec, d, o, [s] + rest, 0, (o, next), exif, scan)
  {
    assert ([s] + rest)[0 := ExifSection(exif)] == [ExifSection(exif)] + rest;
    SavedNew(codec, exif, rest, scan);
    assert d[o..o] == [];
  }

  /** Replacing a later one. */
  lemma ReplaceBehind<E>(codec: Codec<E>, d: seq<byte>, o: nat, next: nat, range: (nat, nat), s: Section<E>,
                         rest: seq<Section<E>>, k: nat, j: nat, exif: E, scan: seq<byte>)
    requires o <= next && s.Fits() && j == 1 + k
    requires next <= |d| && SectionBytes(codec, s, scan) == d[o..next]
    requires Replaced(codec, d, next, rest, k, range, exif, scan)
    ensures Replaced(codec, d, o, [s] + rest, j, range, exif, scan)
  {
    var changed := rest[k := ExifSection(exif)];
    assert ([s] + rest)[j := ExifSection(exif)] == [s] + changed;
    SavedCons(codec, [s] + changed, scan, s, changed);
    RegroupFour(d[o..next], d[next..range.0], ExifSegment(codec, exif), d[range.1..]);
    JoinSlices(d, o, next, range.0);
  }

  ghost predicate EditOk<E>(codec: Codec<E>, d: seq<byte>, o: nat, sections: seq<Section<E>>, found: Option<(nat, nat)>,
                            exif: E, scan: seq<byte>) {
    var k := IndexOf(sections, APP1);
    if found.None? then k == |sections| else Replaced(codec, d, o, sections, k, found.value, exif, scan)
  }

  lemma EditOkFirst<E>(codec: Codec<E>, d: seq<byte>, o: nat, next: nat, s: Section<E>, rest: seq<Section<E>>, exif: E,
                       scan: seq<byte>)
    requires o <= next <= |d| && s.Fits() && AllFit(rest) && s.marker == APP1 && Saved(codec, rest, scan) == d[next..]
    ensures EditOk(codec, d, o, [s] + rest, Some((o, next)), exif, scan)
  {
    IndexOfCons(s, rest, APP1);
    ReplaceFirst(codec, d, o, next, s, rest, exif, scan);
  }

  lemma EditOkBehind<E>(codec: Codec<E>, d: seq<byte>, o: nat, next: nat, found: Option<(nat, nat)>, s: Section<E>,
                        rest: seq<Section<E>>, exif: E, scan: seq<byte>)
    requires o <= next <= |d| && s.Fits() && AllFit(rest) && s.marker != APP1
    requires SectionBytes(codec, s, scan) == d[o..next] && EditOk(codec, d, next, rest, found, exif, scan)
    ensures EditOk(codec, d, o, [s] + rest, found, exif, scan)
  {
    IndexOfCons(s, rest, APP1);
    if found.Some? {
      var k := IndexOf(rest, APP1);
      ReplaceBehind(codec, d, o, next, found.value, s, rest, k, 1 + k, exif, scan);
    }
  }

  lemma {:induction false} ReplaceAt<E>(codec: Codec<E>, d: seq<byte>, o: nat, exif: E, scan: seq<byte>)
    requires |d| < UINT && o <= |d| && Editable(codec, d, o) && (o == |d| || CanStep(d, o))
    requires Carries(Parse(codec, d, o), scan)
    ensures EditOk(codec, d, o, Parse(codec, d, o).sections, FindExif(d, o), exif, scan)
    decreases |d| - o
  {
    if o < |d| {
      var next := SegmentEnd(d, o);
      var s, rest := StepAt(codec, d, o).section, Parse(codec, d, next).sections;
      if d[o + 1] == APP1 {
        UnfoldExif(codec, d, o);
        CanonicalSaved(codec, d, next, scan);
        EditOkFirst(codec, d, o, next, s, rest, exif, scan);
      } else {
        UnfoldSegment(codec, d, o, scan);
        ReplaceAt(codec, d, next, exif, scan);
        EditOkBehind(codec, d, o, next, FindExif(d, o), s, rest, exif, scan);
      }
    }
  }

  /** Adding a section behind the first. */
  lemma InsertSecond<E>(codec: Codec<E>, d: seq<byte>, next: nat, s: Section<E>, rest: seq<Section<E>>, exif: E,
                        scan: seq<byte>)
    requires AllFit(rest) && s.Fits() && next <= |d|
    requires SectionBytes(codec, s, scan) == d[..next] && Saved(codec, rest, scan) == d[next..]
    ensures AllFit([s, ExifSection(exif)] + rest)
    ensures Saved(codec, [s, ExifSection(exif)] + rest, scan) == d[..next] + ExifSegment(codec, exif) + d[next..]
  {
    var tail := [ExifSection(exif)] + rest;
    assert [s, ExifSection(exif)] + rest == [s] + tail;
    SavedNew(codec, exif, rest, scan);
    SavedCons(codec, [s] + tail, scan, s, tail);
  }

  lemma FirstByte<E>(codec: Codec<E>, d: seq<byte>)
    requires 0 < |d| && Editable(codec, d, 0)
    ensures |d| >= 2 && d[0] == 0xff
  {
  }

  /** An edit replaces exactly the first `APP1` segment, whatever is in it, or adds one behind the first segment:
      every other byte, scan data included, keeps its value and its order. */
  lemma EditChangesOnlyExif<E>(codec: Codec<E>, d: seq<byte>, exif: E)
    requires 0 < |d| < UINT && Editable(codec, d, 0)
    ensures |d| >= 2 && d[0] == 0xff
    ensures var (a, b) := EditRange(d);
            Edited(codec, d, exif) == d[..a] + ExifSegment(codec, exif) + d[b..]
  {
    FirstByte(codec, d);
    var sections, scan := Parse(codec, d, 0).sections, ScanOf(Parse(codec, d, 0));
    ReplaceAt(codec, d, 0, exif, scan);
    if FindExif(d, 0).None? {
      NoExifCanonical(codec, d, 0);
      Unfold(codec, d, 0, scan);
      var s, next := StepAt(codec, d, 0).section, SegmentEnd(d, 0);
      var rest := Parse(codec, d, next).sections;
      assert sections == [s] + rest && sections[1..] == rest;
      assert d[0..next] == d[..next];
      InsertSecond(codec, d, next, s, rest, exif, scan);
    } else {
      var a := FindExif(d, 0).value.0;
      assert d[0..a] == d[..a];
    }
  }

  lemma LoadedFresh<E>(p: Parsed<E>)
    ensures [] + p.sections == p.sections
  {
  }

  /** `action_save`: load, replace the Exif data, save. */
  method ActionSave<E>(codec: Codec<E>, d: seq<byte>, exif: E) returns (out: seq<byte>)
    requires |d| < UINT && (d == [] || d[0] == 0xff)
    ensures out == Edited(codec, d, exif)
  {
    var jpeg := new JpegData(codec);
    jpeg.Load(d);
    ghost var p := Parse(codec, d, 0);
    LoadedFresh(p);
    assert jpeg.sections == p.sections && jpeg.data == ScanOf(p);
    jpeg.SetExif(exif);
    out := jpeg.Save();
  }

  /** The length field of a segment tells its length exactly up to 65533 bytes: two less than the size up to which
      `action_save` does not warn. */
  lemma LengthFieldIff(m: byte, payload: seq<byte>, n: nat)
    requires n == |payload| < UINT - 2
    ensures PayloadLength(Segment(m, payload), 2) == n <==> n <= 65533
  {
  }
}
