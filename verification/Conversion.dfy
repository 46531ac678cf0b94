/** The class `Converter`, as far as it goes from Exif to XMP. */
module Conversion {
  import opened Basics
  import opened ConvertTable
  import opened ConvertFlash
  import opened Convert
  import opened ConvertMove

  /** An entry with these elements, or none. */
  function Put(x: Xmp, k: Property, texts: seq<string>): Xmp {
    if texts == [] then x else x[k := texts]
  }

  /** The texts of the first `i` components. */
  ghost predicate ReadSoFar(c: seq<Component>, texts: seq<string>, i: nat) {
    i <= |c| && |texts| == i && texts + Readable(c[i..]) == Readable(c)
  }

  lemma ReadOn(c: seq<Component>, texts: seq<string>, i: nat)
    requires i < |c| && ReadSoFar(c, texts, i) && c[i].text.Some?
    ensures ReadSoFar(c, texts + [c[i].text.value], i + 1)
  {
    assert c[i..][0] == c[i] && c[i..][1..] == c[i + 1..];
    assert texts + ([c[i].text.value] + Readable(c[i + 1..])) == texts + [c[i].text.value] + Readable(c[i + 1..]);
  }

  /** Reading stops here. */
  lemma ReadEnds(c: seq<Component>, texts: seq<string>, i: nat, k: Property, base: Xmp)
    requires ReadSoFar(c, texts, i) && (i == |c| || c[i].text.None?)
    ensures var o := ArrayOutcome(k, c); Put(base, k, texts) == base + o.written && (o.taken <==> i == |c|)
  {
    assert Readable(c[i..]) == [];
    assert texts + [] == texts;
  }

  /** The loop of `cnvExifVersion`. */
  method BytesOf(c: seq<Component>) returns (text: string)
    ensures text == Bytes(c)
  {
    text := "";
    var i := 0;
    while i < |c|
      invariant i <= |c| && text + Bytes(c[i..]) == Bytes(c)
    {
      text := text + [(c[i].integer % 256) as char];
      i := i + 1;
    }
  }

  /** The loop of `cnvExifGPSVersion`. */
  method PointedOf(f: Formats, c: seq<Component>) returns (text: string)
    ensures text == Pointed(f, c)
  {
    text := "";
    var i := 0;
    while i < |c|
      invariant i <= |c|
      invariant text + (if 0 < i < |c| then "." else "") + Pointed(f, c[i..]) == Pointed(f, c)
    {
      if i > 0 {
        text := text + ".";
      }
      text := text + f.decimal(c[i].integer);
      i := i + 1;
    }
  }

  /** The tags and the properties after all rows. */
  function Result(f: Formats, erase: bool, overwrite: bool, rows: seq<Source>, e: Exif, x: Xmp): (Exif, Xmp) {
    if erase then Moved(f, overwrite, rows, e, x) else (e, Copied(f, overwrite, rows, e, x))
  }

  lemma ResultBehind(f: Formats, erase: bool, overwrite: bool, rows: seq<Source>, i: nat, e: Exif, x: Xmp)
    requires i < |rows|
    ensures var o := OutcomeOf(f, rows[i], e);
            var g := if erase then Remaining(overwrite, rows[i], o, e, x) else e;
            Result(f, erase, overwrite, rows[i..], e, x)
              == Result(f, erase, overwrite, rows[i + 1..], g, Applied(overwrite, rows[i], o, x))
  {
    assert rows[i..][0] == rows[i] && rows[i..][1..] == rows[i + 1..];
  }

  class Converter {
    const formats: Formats
    var erase: bool
    var overwrite: bool
    var exif: Exif
    var xmp: Xmp

    constructor (formats: Formats, exif: Exif, xmp: Xmp)
      ensures this.formats == formats && this.exif == exif && this.xmp == xmp && !erase && overwrite
    {
      this.formats, this.exif, this.xmp, erase, overwrite := formats, exif, xmp, false, true;
    }

    /** The row has been converted, from these tags and properties. */
    predicate Did(s: Source, e: Exif, x: Xmp)
      reads this
    {
      && xmp == Converted(formats, overwrite, s, e, x)
      && exif == if erase then Remaining(overwrite, s, OutcomeOf(formats, s, e), e, x) else e
    }

    /** Makes room for a property; fails if it is there and must stay. */
    method PrepareXmpTarget(to: Property) returns (ok: bool)
      modifies this`xmp
      ensures ok <==> !(to in old(xmp) && !overwrite)
      ensures xmp == if ok then Without(old(xmp), to) else old(xmp)
    {
      if to !in xmp {
        assert Without(xmp, to) == xmp;
        return true;
      }
      if !overwrite {
        return false;
      }
      xmp := Without(xmp, to);
      return true;
    }

    method Erase(k: Tag)
      modifies this`exif
      ensures exif == if erase then old(exif) - {k} else old(exif)
    {
      if erase {
        exif := exif - {k};
      }
    }

    /** Sets the target and erases the tag, as most conversions end. */
    method Finish(s: Source, text: string)
      modifies this`exif, this`xmp
      ensures xmp == old(xmp) + map[Target(s) := [text]]
      ensures exif == if erase then old(exif) - {Listed(s)} else old(exif)
    {
      xmp := xmp[Target(s) := [text]];
      Erase(Listed(s));
    }

    method CnvExifValue(s: Source)
      requires KindOf(s) == Plain
      modifies this`exif, this`xmp
      ensures Did(s, old(exif), old(xmp))
    {
      if Listed(s) !in exif || !exif[Listed(s)].ok {
        return;
      }
      var ok := PrepareXmpTarget(Target(s));
      if ok {
        Finish(s, exif[Listed(s)].text);
      }
    }

    method CnvExifComment(s: Source)
      requires KindOf(s) == Comment
      modifies this`exif, this`xmp
      ensures Did(s, old(exif), old(xmp))
    {
      if Listed(s) !in exif {
        return;
      }
      var ok := PrepareXmpTarget(Target(s));
      if !ok || exif[Listed(s)].remark.NoRemark? {
        return;
      }
      if exif[Listed(s)].remark.Remark? {
        xmp := xmp[Target(s) := [exif[Listed(s)].remark.text]];
      }
      Erase(Listed(s));
    }

    /** Each component is appended to the property, up to the first unreadable one. */
    method AppendAll(to: Property, c: seq<Component>) returns (all: bool)
      requires to !in xmp
      modifies this`xmp
      ensures xmp == old(xmp) + ArrayOutcome(to, c).written && all == ArrayOutcome(to, c).taken
    {
      ghost var texts: seq<string> := [];
      var i := 0;
      assert c[i..] == c;
      while i < |c|
        invariant i <= |c| && ReadSoFar(c, texts, i) && xmp == Put(old(xmp), to, texts)
      {
        if c[i].text.None? {
          ReadEnds(c, texts, i, to, old(xmp));
          return false;
        }
        ReadOn(c, texts, i);
        xmp := xmp[to := (if to in xmp then xmp[to] else []) + [c[i].text.value]];
        texts := texts + [c[i].text.value];
        i := i + 1;
      }
      ReadEnds(c, texts, i, to, old(xmp));
      return true;
    }

    method CnvExifArray(s: Source)
      requires KindOf(s) == Array
      modifies this`exif, this`xmp
      ensures Did(s, old(exif), old(xmp))
    {
      if Listed(s) !in exif {
        return;
      }
      var ok := PrepareXmpTarget(Target(s));
      if !ok {
        return;
      }
      var all := AppendAll(Target(s), exif[Listed(s)].components);
      if all {
        Erase(Listed(s));
      }
    }

    /** A date and time. */
    method CnvExifDate(s: Source)
      requires KindOf(s) == Date
      modifies this`exif, this`xmp
      ensures Did(s, old(exif), old(xmp))
    {
      if Listed(s) !in exif {
        return;
      }
      var ok := PrepareXmpTarget(Target(s));
      var text := DateText(formats, s, exif);
      if ok && text.Some? {
        Erase(SubSecOf(s));
        Finish(s, text.value);
      }
    }

    /** The other half of `cnvExifDate`: the GPS time stamp. */
    method CnvGpsTime()
      modifies this`exif, this`xmp
      ensures Did(CLOCK, old(exif), old(xmp))
    {
      if Listed(CLOCK) !in exif {
        return;
      }
      var ok := PrepareXmpTarget(Target(CLOCK));
      var text := ClockText(formats, exif);
      if ok && text.Some? {
        Finish(CLOCK, text.value);
      }
    }

    method CnvExifVersion(s: Source)
      requires KindOf(s) == Version
      modifies this`exif, this`xmp
      ensures Did(s, old(exif), old(xmp))
    {
      if Listed(s) !in exif {
        return;
      }
      var ok := PrepareXmpTarget(Target(s));
      if ok {
        var text := BytesOf(exif[Listed(s)].components);
        Finish(s, text);
      }
    }

    method CnvExifGPSVersion(s: Source)
      requires KindOf(s) == GpsVersion
      modifies this`exif, this`xmp
      ensures Did(s, old(exif), old(xmp))
    {
      if Listed(s) !in exif {
        return;
      }
      var ok := PrepareXmpTarget(Target(s));
      if ok {
        var text := PointedOf(formats, exif[Listed(s)].components);
        Finish(s, text);
      }
    }

    method CnvExifFlash(s: Source)
      requires KindOf(s) == Structure
      modifies this`exif, this`xmp
      ensures Did(s, old(exif), old(xmp))
    {
      if Listed(s) !in exif || exif[Listed(s)].components == [] {
        return;
      }
      var ok := PrepareXmpTarget(Target(s));
      if ok && exif[Listed(s)].number.Some? {
        xmp := xmp + FlashFields(exif[Listed(s)].number.value);
        Erase(Listed(s));
      }
    }

    method CnvExifGPSCoord(s: Source)
      requires KindOf(s) == Coordinate
      modifies this`exif, this`xmp
      ensures Did(s, old(exif), old(xmp))
    {
      if Listed(s) !in exif {
        return;
      }
      var ok := PrepareXmpTarget(Target(s));
      var text := CoordinateText(formats, s, exif);
      if ok && text.Some? {
        Finish(s, text.value);
        Erase(RefOf(s));
      }
    }

    /** The function in the row. */
    method Convert(s: Source)
      modifies this`exif, this`xmp
      ensures Did(s, old(exif), old(xmp))
    {
      match KindOf(s)
      case Plain => CnvExifValue(s);
      case Comment => CnvExifComment(s);
      case Array => CnvExifArray(s);
      case Date => CnvExifDate(s);
      case Clock => CnvGpsTime();
      case Version => CnvExifVersion(s);
      case GpsVersion => CnvExifGPSVersion(s);
      case Structure => CnvExifFlash(s);
      case Coordinate => CnvExifGPSCoord(s);
    }

    /** `cnvToXmp`: every row of the table, in its order. */
    method CnvToXmp()
      modifies this`exif, this`xmp
      ensures (exif, xmp) == Result(formats, erase, overwrite, TABLE, old(exif), old(xmp))
    {
      var i := 0;
      while i < |TABLE|
        invariant i <= |TABLE|
        invariant Result(formats, erase, overwrite, TABLE[i..], exif, xmp)
               == Result(formats, erase, overwrite, TABLE, old(exif), old(xmp))
      {
        ResultBehind(formats, erase, overwrite, TABLE, i, exif, xmp);
        Convert(TABLE[i]);
        i := i + 1;
      }
    }
  }
}
