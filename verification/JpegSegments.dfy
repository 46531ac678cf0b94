/** Files of whole segments, byte by byte: they are read as what they are, and written back unchanged. */
module JpegSegments {
  import opened Basics
  import opened Bytes
  import opened JpegFormat
  import opened JpegRoundTrip
  import opened JpegCanonical

  /** A marker alone, or one with a length and a payload. */
  datatype Piece = Lone(m: byte) | Whole(m: byte, payload: seq<byte>)

  /** `SOI` and `EOI` stand alone; all others from `SOF0` to `COM` have a payload. */
  predicate PieceOk(p: Piece) {
    match p
    case Lone(m) => m == 0xd8 || m == 0xd9
    case Whole(m, payload) => 0xc0 <= m <= 0xfe && m != 0xd8 && m != 0xd9 && |payload| <= 65533
  }

  function PieceBytes(p: Piece): seq<byte>
    requires PieceOk(p)
  {
    match p
    case Lone(m) => [0xff, m]
    case Whole(m, payload) => [0xff, m, (|payload| + 2) / 0x100, (|payload| + 2) % 0x100] + payload
  }

  /** What a piece is read as: the Exif library gets a whole `APP1` segment. */
  function SectionOf<E>(codec: Codec<E>, p: Piece): Section<E>
    requires PieceOk(p)
  {
    match p
    case Lone(m) => Section(m, Nothing)
    case Whole(m, payload) =>
      if m == 0xe1 then Section(m, App1(Some(codec.decode(PieceBytes(p))))) else Section(m, Generic(payload))
  }

  /** A file: pieces, and perhaps scan data behind an `SOS` piece, with one more marker or nothing behind it. */
  datatype File = File(pieces: seq<Piece>, scan: Option<Scan>)

  datatype Scan = Scan(header: seq<byte>, data: seq<byte>, last: Option<Piece>)

  predicate PiecesOk(pieces: seq<Piece>) {
    forall i | 0 <= i < |pieces| :: PieceOk(pieces[i]) && pieces[i].m != 0xda
  }

  /** The last two bytes of scan data at the end of the file must not look like a marker. */
  predicate ScanOk(s: Scan) {
    && |s.header| <= 65533
    && if s.last.Some? then s.last.value.Lone? && PieceOk(s.last.value)
       else |s.data| < 2 || s.data[|s.data| - 2] != 0xff
  }

  predicate FileOk(f: File) {
    PiecesOk(f.pieces) && (f.scan.Some? ==> ScanOk(f.scan.value))
  }

  function PiecesBytes(pieces: seq<Piece>): seq<byte>
    requires PiecesOk(pieces)
  {
    if pieces == [] then [] else PieceBytes(pieces[0]) + PiecesBytes(pieces[1..])
  }

  function ScanBytes(s: Scan): seq<byte>
    requires ScanOk(s)
  {
    PieceBytes(Whole(0xda, s.header)) + s.data + (if s.last.Some? then PieceBytes(s.last.value) else [])
  }

  function FileBytes(f: File): seq<byte>
    requires FileOk(f)
  {
    PiecesBytes(f.pieces) + (if f.scan.Some? then ScanBytes(f.scan.value) else [])
  }

  function SectionsOf<E>(codec: Codec<E>, pieces: seq<Piece>): seq<Section<E>>
    requires PiecesOk(pieces)
  {
    if pieces == [] then [] else [SectionOf(codec, pieces[0])] + SectionsOf(codec, pieces[1..])
  }

  function ScanSections<E>(codec: Codec<E>, s: Scan): seq<Section<E>>
    requires ScanOk(s)
  {
    [Section(0xda, Generic(s.header))] + (if s.last.Some? then [SectionOf(codec, s.last.value)] else [])
  }

  /** What a file is read as. */
  function Read<E>(codec: Codec<E>, f: File): Parsed<E>
    requires FileOk(f)
  {
    Parsed(SectionsOf(codec, f.pieces) + (if f.scan.Some? then ScanSections(codec, f.scan.value) else []),
           if f.scan.Some? then Some(f.scan.value.data) else None)
  }

  // ---------- one turn of the load loop ----------

  /** A turn stops exactly when no byte follows the fill bytes, of which seven at most are skipped, or when that byte is
      no marker: below 0xc0, or 0xff. Otherwise it reads that marker. */
  lemma StopIff<E>(codec: Codec<E>, d: seq<byte>, o: nat, i: nat)
    requires CanStep(d, o) && i <= 7 && o + i <= |d| && forall k | o <= k < o + i :: d[k] == 0xff
    requires i == 7 || o + i == |d| || d[o + i] != 0xff
    ensures StepAt(codec, d, o).Stop? <==> o + i == |d| || d[o + i] < 0xc0 || d[o + i] == 0xff
    ensures StepAt(codec, d, o).Next? ==> StepAt(codec, d, o).section.marker == d[o + i]
  {
    FillIs(d, o, 0, i);
  }

  lemma {:induction false} FillIs(d: seq<byte>, o: nat, j: nat, i: nat)
    requires j <= i <= 7 && o + i <= |d| && forall k | o <= k < o + i :: d[k] == 0xff
    requires i == 7 || o + i == |d| || d[o + i] != 0xff
    ensures Fill(d, o, j) == i
    decreases i - j
  {
    if j < i {
      FillIs(d, o, j + 1, i);
    }
  }

  /** A marker other than `SOI` and `EOI` whose length field is cut, too small or too large is read without payload, and
      ends the file. */
  lemma CutRead<E>(codec: Codec<E>, d: seq<byte>, o: nat)
    requires CanStep(d, o) && o + 2 <= |d| && d[o] == 0xff && 0xc0 <= d[o + 1] <= 0xfe
    requires d[o + 1] != 0xd8 && d[o + 1] != 0xd9
    requires o + 4 <= |d| ==> var n := (d[o + 2] as int) * 0x100 + (d[o + 3] as int); n < 2 || n > |d| - o - 2
    ensures var s := StepAt(codec, d, o);
            && s.Next? && s.section.marker == d[o + 1] && s.scan.None? && s.o == |d|
            && s.section.content == if d[o + 1] == 0xe1 then App1(None) else Generic([])
  {
    MarkerRead(codec, d, o);
    if o + 4 <= |d| {
      var n := (d[o + 2] as int) * 0x100 + (d[o + 3] as int);
      assert n < 2 ==> (n - 2) % UINT == n - 2 + UINT;
    }
  }

  lemma PieceRead<E>(codec: Codec<E>, d: seq<byte>, o: nat, p: Piece, rest: seq<byte>, next: nat)
    requires CanStep(d, o) && PieceOk(p) && p.m != 0xda && d[o..] == PieceBytes(p) + rest
    requires next == o + |PieceBytes(p)|
    ensures next <= |d| && d[next..] == rest && StepAt(codec, d, o) == Next(SectionOf(codec, p), None, next)
  {
    match p
    case Lone(m) => BareReads(codec, d, o, m, rest, next);
    case Whole(m, payload) =>
      WholeIs(m, payload);
      if m == 0xe1 {
        ExifReads(codec, d, o, payload, rest, next);
      } else {
        GenericReads(codec, d, o, m, payload, rest, next);
      }
  }

  lemma WholeIs(m: byte, payload: seq<byte>)
    requires PieceOk(Whole(m, payload))
    ensures PieceBytes(Whole(m, payload)) == Segment(m, payload) && |Segment(m, payload)| == 4 + |payload|
  {
    var n := |payload| + 2;
    assert n / 0x100 % 0x100 == n / 0x100;
  }

  lemma ScanPieceRead<E>(codec: Codec<E>, d: seq<byte>, o: nat, s: Scan, next: nat)
    requires CanStep(d, o) && ScanOk(s) && d[o..] == ScanBytes(s) && next == o + 4 + |s.header| + |s.data|
    ensures next <= |d| && d[next..] == if s.last.Some? then PieceBytes(s.last.value) else []
    ensures StepAt(codec, d, o) == Next(Section(0xda, Generic(s.header)), Some(s.data), next)
  {
    var last, q := if s.last.Some? then PieceBytes(s.last.value) else [], o + 4 + |s.header|;
    WholeIs(0xda, s.header);
    assert d[o..] == Segment(0xda, s.header) + (s.data + last);
    GenericReads(codec, d, o, 0xda, s.header, s.data + last, q);
    ScanRead(d, q, s.data, last, next);
  }

  // ---------- whole files ----------

  /** The pieces stand from `o` up to `next`. */
  ghost predicate Stand(d: seq<byte>, o: nat, pieces: seq<Piece>, next: nat) {
    && |d| < UINT && o <= next <= |d| && PiecesOk(pieces)
    && d[o..] == PiecesBytes(pieces) + d[next..] && next == o + |PiecesBytes(pieces)|
  }

  /** The first piece and what is behind it. */
  lemma PiecesSplit(d: seq<byte>, o: nat, pieces: seq<Piece>, next: nat, mid: nat)
    requires pieces != [] && Stand(d, o, pieces, next) && mid == o + |PieceBytes(pieces[0])|
    ensures mid <= |d| && d[o..] == PieceBytes(pieces[0]) + d[mid..] && o < |d| && d[o] == 0xff
    ensures Stand(d, mid, pieces[1..], next)
  {
    var b, rest := PieceBytes(pieces[0]), PiecesBytes(pieces[1..]) + d[next..];
    Regroup(b, PiecesBytes(pieces[1..]), d[next..]);
    assert d[o] == d[o..][0] == b[0];
    DropDrop(d, o, |b|, mid);
  }

  lemma {:induction false} PiecesRead<E>(codec: Codec<E>, d: seq<byte>, o: nat, pieces: seq<Piece>, next: nat)
    requires Stand(d, o, pieces, next) && (next == |d| || CanStep(d, next))
    ensures o == |d| || CanStep(d, o)
    ensures var p, rest := Parse(codec, d, o), Parse(codec, d, next);
            p == Parsed(SectionsOf(codec, pieces) + rest.sections, rest.scan)
    decreases |pieces|
  {
    if pieces == [] {
      assert SectionsOf(codec, pieces) == [];
    } else {
      var mid := o + |PieceBytes(pieces[0])|;
      PiecesSplit(d, o, pieces, next, mid);
      PieceRead(codec, d, o, pieces[0], d[mid..], mid);
      PiecesRead(codec, d, mid, pieces[1..], next);
      ParsedCons(codec, d, o, pieces, mid, Parse(codec, d, next).sections);
    }
  }

  lemma ParsedCons<E>(codec: Codec<E>, d: seq<byte>, o: nat, pieces: seq<Piece>, mid: nat, rest: seq<Section<E>>)
    requires CanStep(d, o) && pieces != [] && PiecesOk(pieces) && (mid == |d| || CanStep(d, mid))
    requires StepAt(codec, d, o) == Next(SectionOf(codec, pieces[0]), None, mid)
    requires Parse(codec, d, mid).sections == SectionsOf(codec, pieces[1..]) + rest
    ensures Parse(codec, d, o) == Parsed(SectionsOf(codec, pieces) + rest, Parse(codec, d, mid).scan)
  {
    Regroup([SectionOf(codec, pieces[0])], SectionsOf(codec, pieces[1..]), rest);
  }

  /** What is behind the scan data. */
  lemma LastRead<E>(codec: Codec<E>, d: seq<byte>, o: nat, last: Option<Piece>)
    requires |d| < UINT && 0 < o <= |d| && (last.Some? ==> last.value.Lone? && PieceOk(last.value))
    requires d[o..] == if last.Some? then PieceBytes(last.value) else []
    ensures Parse(codec, d, o) == Parsed(if last.Some? then [SectionOf(codec, last.value)] else [], None)
  {
    if last.Some? {
      assert d[o..] == PieceBytes(last.value) + [];
      PieceRead(codec, d, o, last.value, [], o + 2);
      assert Parse(codec, d, o + 2) == Parsed([], None);
    }
  }

  lemma ScanFileRead<E>(codec: Codec<E>, d: seq<byte>, o: nat, s: Scan)
    requires |d| < UINT && o <= |d| && ScanOk(s) && d[o..] == ScanBytes(s)
    ensures CanStep(d, o) && Parse(codec, d, o) == Parsed(ScanSections(codec, s), Some(s.data))
  {
    var next := o + 4 + |s.header| + |s.data|;
    assert d[o] == d[o..][0] == 0xff;
    ScanPieceRead(codec, d, o, s, next);
    LastRead(codec, d, next, s.last);
    FirstStep(codec, d, o);
  }

  /** A file is read as its pieces, whatever their markers are. */
  lemma FileRead<E>(codec: Codec<E>, f: File)
    requires FileOk(f) && |FileBytes(f)| < UINT
    ensures var d := FileBytes(f);
            (d == [] || CanStep(d, 0)) && Parse(codec, d, 0) == Read(codec, f)
  {
    var d, next := FileBytes(f), |PiecesBytes(f.pieces)|;
    assert d[0..] == d && d[next..] == if f.scan.Some? then ScanBytes(f.scan.value) else [];
    if f.scan.Some? {
      ScanFileRead(codec, d, next, f.scan.value);
    }
    PiecesRead(codec, d, 0, f.pieces, next);
  }

  /** The Exif library gives back the payload of every `APP1` segment. */
  ghost predicate Kept<E>(codec: Codec<E>, pieces: seq<Piece>)
    requires PiecesOk(pieces)
  {
    forall i | 0 <= i < |pieces| && pieces[i].m == 0xe1 ::
      codec.encode(codec.decode(PieceBytes(pieces[i]))) == Some(pieces[i].payload)
  }

  lemma PieceSaved<E>(codec: Codec<E>, p: Piece, scan: seq<byte>)
    requires PieceOk(p) && p.m != 0xda
    requires p.m == 0xe1 ==> codec.encode(codec.decode(PieceBytes(p))) == Some(p.payload)
    ensures SectionOf(codec, p).Fits() && SectionBytes(codec, SectionOf(codec, p), scan) == PieceBytes(p)
  {
    if p.Whole? {
      WholeIs(p.m, p.payload);
      assert PieceBytes(p) + [] == PieceBytes(p);
    }
  }

  lemma {:induction false} PiecesSaved<E>(codec: Codec<E>, pieces: seq<Piece>, rest: seq<Section<E>>, scan: seq<byte>)
    requires PiecesOk(pieces) && Kept(codec, pieces) && AllFit(rest)
    ensures AllFit(SectionsOf(codec, pieces) + rest)
    ensures Saved(codec, SectionsOf(codec, pieces) + rest, scan) == PiecesBytes(pieces) + Saved(codec, rest, scan)
    decreases |pieces|
  {
    if pieces == [] {
      assert SectionsOf(codec, pieces) + rest == rest;
    } else {
      var s, later := SectionOf(codec, pieces[0]), SectionsOf(codec, pieces[1..]) + rest;
      PieceSaved(codec, pieces[0], scan);
      assert forall i | 0 <= i < |pieces| - 1 :: pieces[1..][i] == pieces[i + 1];
      PiecesSaved(codec, pieces[1..], rest, scan);
      Regroup([s], SectionsOf(codec, pieces[1..]), rest);
      SavedCons(codec, [s] + later, scan, s, later);
      Regroup(PieceBytes(pieces[0]), PiecesBytes(pieces[1..]), Saved(codec, rest, scan));
    }
  }

  lemma ScanSaved<E>(codec: Codec<E>, s: Scan)
    requires ScanOk(s)
    ensures AllFit(ScanSections(codec, s)) && Saved(codec, ScanSections(codec, s), s.data) == ScanBytes(s)
  {
    var all := ScanSections(codec, s);
    WholeIs(0xda, s.header);
    if s.last.Some? {
      PieceSaved(codec, s.last.value, s.data);
      assert all[1..] == [SectionOf(codec, s.last.value)];
      assert all[1..][1..] == [];
      assert Saved(codec, all[1..], s.data) == PieceBytes(s.last.value) + [];
    } else {
      assert all[1..] == [];
    }
  }

  /** And it is written back byte for byte, if the Exif library keeps its data. */
  lemma FileSaved<E>(codec: Codec<E>, f: File)
    requires FileOk(f) && Kept(codec, f.pieces)
    ensures var p := Read(codec, f);
            AllFit(p.sections) && Saved(codec, p.sections, if p.scan.Some? then p.scan.value else []) == FileBytes(f)
  {
    if f.scan.Some? {
      ScanSaved(codec, f.scan.value);
      PiecesSaved(codec, f.pieces, ScanSections(codec, f.scan.value), f.scan.value.data);
    } else {
      PiecesSaved(codec, f.pieces, [], []);
    }
  }
}
