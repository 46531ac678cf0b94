/** `JPEGData`: loading, saving and replacing the Exif segment. */
module JpegData {
  import opened Basics
  import opened Bytes
  import opened JpegFormat
  import opened JpegCanonical

  // ---------- the editing of section lists ----------

  /** The first section with the marker, or the length of the list. */
  function IndexOf<E>(sections: seq<Section<E>>, m: byte): (i: nat)
    ensures i <= |sections|
    ensures i < |sections| ==> sections[i].marker == m
    ensures forall j | 0 <= j < i :: sections[j].marker != m
  {
    if sections == [] || sections[0].marker == m then 0 else 1 + IndexOf(sections[1..], m)
  }

  function ExifSection<E>(exif: E): Section<E> {
    Section(APP1, App1(Some(exif)))
  }

  /** The first `APP1` section is replaced; without one, a new section goes right after the first. */
  function WithExif<E>(sections: seq<Section<E>>, exif: E): seq<Section<E>> {
    var i := IndexOf(sections, APP1);
    if i < |sections| then sections[i := ExifSection(exif)]
    else if sections == [] then [Blank(0)]
    else [sections[0], ExifSection(exif)] + sections[1..]
  }

  /** The Exif data of the first `APP1` section. */
  function ExifOf<E>(sections: seq<Section<E>>): Option<E>
    requires AllFit(sections)
  {
    var i := IndexOf(sections, APP1);
    if i < |sections| then sections[i].content.exif else None
  }

  class JpegData<E> {
    var sections: seq<Section<E>>
    /** The scan data. */
    var data: seq<byte>
    const codec: Codec<E>

    ghost predicate Valid()
      reads this
    {
      AllFit(sections)
    }

    constructor (codec: Codec<E>)
      ensures Valid() && sections == [] && data == [] && this.codec == codec
    {
      this.codec := codec;
      sections, data := [], [];
    }

    /** Adds a zeroed section. Its marker is set later. */
    method AppendSection()
      requires Valid()
      modifies this`sections
      ensures Valid() && sections == old(sections) + [Blank(0)]
    {
      sections := sections + [Blank(0)];
    }

    /** Reads the section whose marker is at `p - 1`; returns where the next one starts. */
    method LoadSection(d: seq<byte>, p: nat) returns (next: nat)
      requires Valid() && 2 <= p <= |d| < UINT
      modifies this
      ensures Valid()
      ensures var step := SectionAt(codec, d, p);
              && next == step.o && sections == old(sections) + [step.section]
              && data == if step.scan.Some? then step.scan.value else old(data)
    {
      var m := d[p - 1];
      AppendSection();
      var last := |sections| - 1;
      sections := sections[last := Blank(m)];
      if Bare(m) {
        return p;
      }
      if 2 > |d| - p {
        return |d|;
      }
      var len := PayloadLength(d, p);
      if len > |d| {
        return |d|;
      }
      var o := p + 2;
      if len > |d| - o {
        return |d|;
      }
      if m == APP1 {
        sections := sections[last := Section(m, App1(Some(codec.decode(d[o - 2 - 2..o + len]))))];
      } else {
        sections := sections[last := Section(m, Generic(d[o..o + len]))];
        if m == SOS {
          var size := |d| - o - len;
          if size >= 2 {
            size := size - 2;
            if d[o + len + size] != 0xff {
              size := size + 2;
            }
          }
          data := d[o + len..o + len + size];
          o := o + size;
        }
      }
      next := o + len;
    }

    /** Counts the 0xff bytes before a marker. */
    method SkipFill(d: seq<byte>, o: nat) returns (i: nat)
      requires o <= |d|
      ensures i == Fill(d, o, 0) <= |d| - o
    {
      i := 0;
      while i < Min(7, |d| - o) && d[o + i] == 0xff
        invariant i <= Min(7, |d| - o) && Fill(d, o, i) == Fill(d, o, 0)
        decreases 7 - i
      {
        i := i + 1;
      }
    }

    /** One turn of the load loop; it stops at bytes that are no marker. */
    method LoadStep(d: seq<byte>, o: nat) returns (next: nat, stopped: bool)
      requires Valid() && CanStep(d, o)
      modifies this
      ensures Valid()
      ensures stopped == StepAt(codec, d, o).Stop?
      ensures stopped ==> sections == old(sections) && data == old(data)
      ensures !stopped ==>
                var step := StepAt(codec, d, o);
                && next == step.o && sections == old(sections) + [step.section]
                && data == if step.scan.Some? then step.scan.value else old(data)
    {
      var i := SkipFill(d, o);
      var p := o + i + 1;
      StepIs(codec, d, o, i, p);
      if i >= |d| - o || !IsMarker(d[o + i]) {
        return o, true;
      }
      next := LoadSection(d, p);
      stopped := false;
    }

    /** Reads the sections of `d`, which must not start with anything but 0xff: there the loop would not advance. */
    method Load(d: seq<byte>)
      requires Valid() && |d| < UINT && (d == [] || d[0] == 0xff)
      modifies this
      ensures Valid()
      ensures sections == old(sections) + Parse(codec, d, 0).sections
      ensures data == Final(Parse(codec, d, 0), old(data))
    {
      var o := 0;
      while o < |d|
        invariant Valid() && (o == |d| || CanStep(d, o))
        invariant Loading(codec, d, o, sections, data, old(sections), old(data))
        decreases |d| - o
      {
        ghost var before, was := sections, data;
        var next, stopped := LoadStep(d, o);
        if stopped {
          LoadStops(codec, d, o, sections, data, old(sections), old(data));
          return;
        }
        LoadAdvances(codec, d, o, before, was, old(sections), old(data));
        o := next;
      }
    }

    /** Appends one section to the output. */
    method WriteSection(before: seq<byte>, s: Section<E>) returns (d: seq<byte>)
      requires s.Fits()
      ensures d == before + SectionBytes(codec, s, data)
    {
      d := before + [0xff, s.marker];
      if s.marker == SOI || s.marker == EOI {
      } else if s.marker == APP1 {
        if s.content.exif.Some? {
          var encoded := codec.encode(s.content.exif.value);
          if encoded.Some? {
            d := d + Length16(|encoded.value| + 2);
            d := d + encoded.value;
            assert d == before + Segment(APP1, encoded.value);
          }
        }
      } else {
        d := d + Length16(|s.content.data| + 2);
        d := d + s.content.data;
        assert d == before + Segment(s.marker, s.content.data);
        if s.marker == SOS {
          d := d + data;
        }
      }
    }

    /** `jpeg_data_save_data`: every section behind its marker, the scan data behind `SOS`. */
    method Save() returns (d: seq<byte>)
      requires Valid()
      ensures d == Saved(codec, sections, data)
    {
      d := [];
      var i := 0;
      while i < |sections|
        invariant i <= |sections|
        invariant d + Saved(codec, sections[i..], data) == Saved(codec, sections, data)
      {
        SavedStep(codec, sections, i, d, data);
        d := WriteSection(d, sections[i]);
        i := i + 1;
      }
    }

    method GetSection(m: byte) returns (i: nat)
      ensures i == IndexOf(sections, m)
    {
      i := 0;
      while i < |sections| && sections[i].marker != m
        invariant i <= |sections| && i + IndexOf(sections[i..], m) == IndexOf(sections, m)
      {
        assert sections[i..][1..] == sections[i + 1..];
        i := i + 1;
      }
    }

    method GetExif() returns (exif: Option<E>)
      requires Valid()
      ensures exif == ExifOf(sections)
    {
      var i := GetSection(APP1);
      exif := if i < |sections| then sections[i].content.exif else None;
    }

    method SetExif(exif: E)
      requires Valid()
      modifies this`sections
      ensures sections == WithExif(old(sections), exif)
      ensures Valid()
    {
      var i := GetSection(APP1);
      if i == |sections| {
        AppendSection();
        if |sections| < 2 {
          return;
        }
        // Every section but the first moves up by one.
        ghost var before := old(sections);
        assert sections == before + [Blank(0)];
        ShiftUp(before, ExifSection(exif));
        sections := sections[..2] + sections[1..|sections| - 1];
        sections := sections[1 := ExifSection(exif)];
        assert sections == [before[0], ExifSection(exif)] + before[1..];
      } else {
        sections := sections[i := ExifSection(exif)];
      }
    }
  }

  lemma StepIs<E>(codec: Codec<E>, d: seq<byte>, o: nat, i: nat, p: nat)
    requires CanStep(d, o) && i == Fill(d, o, 0) && p == o + i + 1
    ensures i >= |d| - o || !IsMarker(d[o + i]) ==> StepAt(codec, d, o).Stop?
    ensures i < |d| - o && IsMarker(d[o + i]) ==> 2 <= p <= |d| && StepAt(codec, d, o) == SectionAt(codec, d, p)
  {
  }

  lemma ShiftUp<E>(sections: seq<Section<E>>, s: Section<E>)
    requires sections != []
    ensures var more := sections + [Blank(0)];
            (more[..2] + more[1..|more| - 1])[1 := s] == [sections[0], s] + sections[1..]
  {
  }

  /** A load has come to `o`: what it has and what is still to come make up the result. */
  ghost predicate Loading<E>(codec: Codec<E>, d: seq<byte>, o: nat, sections: seq<Section<E>>, data: seq<byte>,
                             sections0: seq<Section<E>>, data0: seq<byte>)
    requires |d| < UINT && (d == [] || d[0] == 0xff)
    requires o == |d| || CanStep(d, o)
  {
    && sections + Parse(codec, d, o).sections == sections0 + Parse(codec, d, 0).sections
    && Final(Parse(codec, d, o), data) == Final(Parse(codec, d, 0), data0)
  }

  lemma LoadStops<E>(codec: Codec<E>, d: seq<byte>, o: nat, sections: seq<Section<E>>, data: seq<byte>,
                     sections0: seq<Section<E>>, data0: seq<byte>)
    requires CanStep(d, 0) && CanStep(d, o) && StepAt(codec, d, o).Stop?
    requires Loading(codec, d, o, sections, data, sections0, data0)
    ensures sections == sections0 + Parse(codec, d, 0).sections
    ensures data == Final(Parse(codec, d, 0), data0)
  {
  }

  lemma LoadAdvances<E>(codec: Codec<E>, d: seq<byte>, o: nat, sections: seq<Section<E>>, data: seq<byte>,
                        sections0: seq<Section<E>>, data0: seq<byte>)
    requires CanStep(d, 0) && CanStep(d, o) && StepAt(codec, d, o).Next?
    requires Loading(codec, d, o, sections, data, sections0, data0)
    ensures var step := StepAt(codec, d, o);
            Loading(codec, d, step.o, sections + [step.section],
                    if step.scan.Some? then step.scan.value else data, sections0, data0)
  {
  }

  lemma SavedStep<E>(codec: Codec<E>, sections: seq<Section<E>>, i: nat, d: seq<byte>, scan: seq<byte>)
    requires AllFit(sections) && i < |sections|
    ensures d + Saved(codec, sections[i..], scan)
         == (d + SectionBytes(codec, sections[i], scan)) + Saved(codec, sections[i + 1..], scan)
  {
  }
}
