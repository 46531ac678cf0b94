/** ASF objects as bytes, written out, and how far reading them moves. */
module AsfWriter {
  import opened Bytes
  import opened AsfDecoders
  import D = AsfDecoders
  import opened Asf

  // ---------- numbers, least significant byte first ----------

  function Little16(n: nat): (s: seq<byte>)
    ensures |s| == 2
  {
    [n % 0x100, n / 0x100 % 0x100]
  }

  function Little32(n: nat): (s: seq<byte>)
    ensures |s| == 4
  {
    [n % 0x100, n / 0x100 % 0x100, n / 0x1_0000 % 0x100, n / 0x100_0000 % 0x100]
  }

  function Little64(n: nat): (s: seq<byte>)
    ensures |s| == 8
  {
    Little32(n % 0x1_0000_0000) + Little32(n / 0x1_0000_0000)
  }

  lemma Read16(d: seq<byte>, at: nat, n: nat)
    requires n < 0x1_0000 && At(d, at, Little16(n))
    ensures U16(d, at) == n
  {
    AtBytes(d, at, Little16(n));
    assert d[at + 0] == n % 0x100 && d[at + 1] == n / 0x100;
  }

  lemma Read32(d: seq<byte>, at: nat, n: nat)
    requires n < 0x1_0000_0000 && At(d, at, Little32(n))
    ensures U32(d, at) == n
  {
    AtBytes(d, at, Little32(n));
    var a := n / 0x100;
    var b := a / 0x100;
    assert b == n / 0x1_0000 && b / 0x100 == n / 0x100_0000;
    assert d[at + 0] == n % 0x100 && d[at + 1] == a % 0x100 && d[at + 2] == b % 0x100 && d[at + 3] == b / 0x100;
  }

  lemma Read64(d: seq<byte>, at: nat, n: nat)
    requires n < 0x1_0000_0000_0000_0000 && At(d, at, Little64(n))
    ensures U64(d, at) == n
  {
    AtSplit(d, at, Little32(n % 0x1_0000_0000), Little32(n / 0x1_0000_0000));
    Read32(d, at, n % 0x1_0000_0000);
    Read32(d, at + 4, n / 0x1_0000_0000);
  }

  // ---------- repeated parts ----------

  /** A codec: a type, a name in characters of two bytes, a description and some information. */
  datatype Codec = Codec(kind: seq<byte>, name: seq<byte>, description: seq<byte>, info: seq<byte>)

  /** A descriptor: its name, the type and the stated length of its value, and the value. */
  datatype Descriptor = Descriptor(name: seq<byte>, kind: nat, length: nat, value: seq<byte>)

  /** A text behind bytes that are not looked at. */
  datatype Labelled = Labelled(ignored: seq<byte>, text: seq<byte>)

  predicate CodecOk(c: Codec) {
    && |c.kind| == 2 && |c.name| % 2 == 0 && |c.name| < 0x1_0000 && |c.description| < 0x1_0000
    && 0 < |c.info| < 0x1_0000
  }

  /** How many bytes a value takes: for texts and bytes as many as stated, for numbers two, four or eight, and none if
      no length is stated or the type is another one. */
  predicate ValueWidth(kind: nat, length: nat, n: nat) {
    if length == 0 then n == 0
    else if kind == 0 || kind == 1 then n == length
    else if kind == 2 || kind == 5 then n == 2
    else if kind == 3 then n == 4
    else if kind == 4 then n == 8
    else n == 0
  }

  predicate DescriptorOk(e: Descriptor) {
    |e.name| < 0x1_0000 && e.kind < 0x1_0000 && e.length < 0x1_0000 && ValueWidth(e.kind, e.length, |e.value|)
  }

  function TextBytes(text: seq<byte>): seq<byte> {
    Little16(|text|) + text
  }

  function CodecBytes(c: Codec): seq<byte> {
    (c.kind + Little16(|c.name| / 2)) + (c.name + (TextBytes(c.description) + TextBytes(c.info)))
  }

  function DescriptorBytes(e: Descriptor): seq<byte> {
    TextBytes(e.name) + ((Little16(e.kind) + Little16(e.length)) + e.value)
  }

  function LabelledBytes(l: Labelled): seq<byte> {
    l.ignored + TextBytes(l.text)
  }

  lemma TextRead(d: seq<byte>, pos: nat, text: seq<byte>)
    requires |text| < 0x1_0000 && At(d, pos, TextBytes(text))
    ensures pos + 2 + |text| <= |d| && U16(d, pos) == |text|
    ensures TakenText(d, pos) == Next(pos + 2 + |text|) && PastText(d, pos) == Next(pos + 2 + |text|)
  {
    AtSplit(d, pos, Little16(|text|), text);
    Read16(d, pos, |text|);
  }

  /** A codec takes its eight bytes of lengths and type, and its texts. */
  lemma CodecRead(d: seq<byte>, pos: nat, c: Codec, end: nat)
    requires CodecOk(c) && At(d, pos, CodecBytes(c))
    requires end == pos + 8 + |c.name| + |c.description| + |c.info| < |d|
    ensures D.Codec(d, pos) == Next(end) && |CodecBytes(c)| == end - pos
  {
    var name := pos + 4 + |c.name|;
    var info := name + 2 + |c.description|;
    CodecAt(d, pos, c, name, info);
    CodecEnds(d, pos, |c.name|, |c.description|, |c.info|, name, info);
  }

  /** Where the texts of a codec stand. */
  lemma CodecAt(d: seq<byte>, pos: nat, c: Codec, name: nat, info: nat)
    requires CodecOk(c) && At(d, pos, CodecBytes(c))
    requires name == pos + 4 + |c.name| && info == name + 2 + |c.description|
    ensures info + 2 + |c.info| <= |d| && U16(d, pos + 2) == |c.name| / 2
    ensures U16(d, name) == |c.description| && U16(d, info) == |c.info|
  {
    var texts := TextBytes(c.description) + TextBytes(c.info);
    AtSplit(d, pos, c.kind + Little16(|c.name| / 2), c.name + texts);
    AtSplit(d, pos, c.kind, Little16(|c.name| / 2));
    AtSplit(d, pos + 4, c.name, texts);
    AtSplit(d, name, TextBytes(c.description), TextBytes(c.info));
    Read16(d, pos + 2, |c.name| / 2);
    TextRead(d, name, c.description);
    TextRead(d, info, c.info);
  }

  lemma CodecEnds(d: seq<byte>, pos: nat, n: nat, m: nat, k: nat, name: nat, info: nat)
    requires name == pos + 4 + n && info == name + 2 + m && info + 2 + k < |d| && n % 2 == 0 && n < 0x1_0000 && k > 0
    requires U16(d, pos + 2) == n / 2 && U16(d, name) == m && U16(d, info) == k
    ensures D.Codec(d, pos) == Next(info + 2 + k)
  {
  }

  lemma DescriptorRead(d: seq<byte>, pos: nat, e: Descriptor, end: nat)
    requires DescriptorOk(e) && At(d, pos, DescriptorBytes(e)) && end == pos + 6 + |e.name| + |e.value|
    ensures D.Descriptor(d, pos) == Next(end) && |DescriptorBytes(e)| == end - pos
  {
    DescriptorAt(d, pos, e, pos + 2 + |e.name|);
  }

  lemma DescriptorAt(d: seq<byte>, pos: nat, e: Descriptor, kind: nat)
    requires DescriptorOk(e) && At(d, pos, DescriptorBytes(e)) && kind == pos + 2 + |e.name|
    ensures kind + 4 + |e.value| <= |d| && TakenText(d, pos) == Next(kind)
    ensures U16(d, kind) == e.kind && U16(d, kind + 2) == e.length
  {
    var type16 := Little16(e.kind) + Little16(e.length);
    AtSplit(d, pos, TextBytes(e.name), type16 + e.value);
    TextRead(d, pos, e.name);
    AtSplit(d, kind, type16, e.value);
    AtSplit(d, kind, Little16(e.kind), Little16(e.length));
    Read16(d, kind, e.kind);
    Read16(d, kind + 2, e.length);
  }

  // ---------- rows of them ----------

  function CodecsBytes(cs: seq<Codec>): seq<byte> {
    if cs == [] then [] else CodecBytes(cs[0]) + CodecsBytes(cs[1..])
  }

  function DescriptorsBytes(es: seq<Descriptor>): seq<byte> {
    if es == [] then [] else DescriptorBytes(es[0]) + DescriptorsBytes(es[1..])
  }

  function AllLabelledBytes(ls: seq<Labelled>): seq<byte> {
    if ls == [] then [] else LabelledBytes(ls[0]) + AllLabelledBytes(ls[1..])
  }

  lemma {:induction false} CodecsRead(d: seq<byte>, pos: nat, cs: seq<Codec>)
    requires (forall i | 0 <= i < |cs| :: CodecOk(cs[i])) && At(d, pos, CodecsBytes(cs))
    requires pos + |CodecsBytes(cs)| < |d|
    ensures D.Codecs(d, pos, |cs|) == Next(pos + |CodecsBytes(cs)|)
    decreases |cs|
  {
    if cs != [] {
      var next := pos + |CodecBytes(cs[0])|;
      FirstCodec(d, pos, cs[0], CodecsBytes(cs[1..]), next);
      CodecsRead(d, next, cs[1..]);
    }
  }

  lemma FirstCodec(d: seq<byte>, pos: nat, c: Codec, rest: seq<byte>, next: nat)
    requires CodecOk(c) && At(d, pos, CodecBytes(c) + rest) && next == pos + |CodecBytes(c)| && next + |rest| < |d|
    ensures D.Codec(d, pos) == Next(next) && At(d, next, rest)
  {
    AtSplit(d, pos, CodecBytes(c), rest);
    CodecRead(d, pos, c, pos + 8 + |c.name| + |c.description| + |c.info|);
  }

  lemma {:induction false} DescriptorsRead(d: seq<byte>, pos: nat, es: seq<Descriptor>)
    requires (forall i | 0 <= i < |es| :: DescriptorOk(es[i])) && At(d, pos, DescriptorsBytes(es))
    ensures D.Descriptors(d, pos, |es|) == Next(pos + |DescriptorsBytes(es)|)
    decreases |es|
  {
    if es != [] {
      var next := pos + |DescriptorBytes(es[0])|;
      FirstDescriptor(d, pos, es[0], DescriptorsBytes(es[1..]), next);
      DescriptorsRead(d, next, es[1..]);
    }
  }

  lemma FirstDescriptor(d: seq<byte>, pos: nat, e: Descriptor, rest: seq<byte>, next: nat)
    requires DescriptorOk(e) && At(d, pos, DescriptorBytes(e) + rest) && next == pos + |DescriptorBytes(e)|
    ensures D.Descriptor(d, pos) == Next(next) && At(d, next, rest)
  {
    AtSplit(d, pos, DescriptorBytes(e), rest);
    DescriptorRead(d, pos, e, pos + 6 + |e.name| + |e.value|);
  }

  /** The bytes before a text are skipped in one step or in two. */
  predicate SkipRow(skips: seq<nat>, skip: nat) {
    (skips == [2] && skip == 2) || (skips == [16, 2] && skip == 18)
  }

  lemma {:induction false} NamesRead(d: seq<byte>, pos: nat, ls: seq<Labelled>, skips: seq<nat>, skip: nat)
    requires SkipRow(skips, skip) && AllSkip(ls, skip) && At(d, pos, AllLabelledBytes(ls))
    ensures D.Names(d, pos, skips, |ls|) == Next(pos + |AllLabelledBytes(ls)|)
    decreases |ls|
  {
    if ls != [] {
      var next := pos + |LabelledBytes(ls[0])|;
      FirstName(d, pos, ls[0], AllLabelledBytes(ls[1..]), skips, skip, next);
      NamesRead(d, next, ls[1..], skips, skip);
    }
  }

  predicate AllSkip(ls: seq<Labelled>, skip: nat) {
    forall i | 0 <= i < |ls| :: |ls[i].ignored| == skip && |ls[i].text| < 0x1_0000
  }

  lemma FirstName(d: seq<byte>, pos: nat, l: Labelled, rest: seq<byte>, skips: seq<nat>, skip: nat, next: nat)
    requires SkipRow(skips, skip) && |l.ignored| == skip && |l.text| < 0x1_0000
    requires At(d, pos, LabelledBytes(l) + rest) && next == pos + |LabelledBytes(l)|
    ensures PastText(d, PastAll(d, pos, skips)) == Next(next) && At(d, next, rest)
  {
    AtSplit(d, pos, LabelledBytes(l), rest);
    AtSplit(d, pos, l.ignored, TextBytes(l.text));
    Skipped(d, pos, skips, skip);
    TextRead(d, pos + skip, l.text);
  }

  lemma Skipped(d: seq<byte>, pos: nat, skips: seq<nat>, skip: nat)
    requires pos + skip <= |d| && SkipRow(skips, skip)
    ensures PastAll(d, pos, skips) == pos + skip
  {
    PastFirst(d, pos + skip - 2, 2, [], [2]);
    if skips == [16, 2] {
      PastFirst(d, pos, 16, [2], skips);
    }
  }

  lemma PastFirst(d: seq<byte>, pos: nat, n: nat, rest: seq<nat>, ns: seq<nat>)
    requires ns == [n] + rest && pos + n <= |d|
    ensures PastAll(d, pos, ns) == PastAll(d, pos + n, rest)
  {
    assert ns[1..] == rest;
  }

  lemma PastFours(d: seq<byte>, pos: nat, rest: seq<nat>, ns: seq<nat>)
    requires ns == [4, 4, 4, 4] + rest && pos + 16 <= |d|
    ensures PastAll(d, pos, ns) == PastAll(d, pos + 16, rest)
  {
    PastFirst(d, pos, 4, [4, 4, 4] + rest, ns);
    PastFirst(d, pos + 4, 4, [4, 4] + rest, [4, 4, 4] + rest);
    PastFirst(d, pos + 8, 4, [4] + rest, [4, 4] + rest);
    PastFirst(d, pos + 12, 4, rest, [4] + rest);
  }

  lemma SkippedTen(d: seq<byte>, pos: nat)
    requires pos + 36 <= |d|
    ensures PastAll(d, pos, [4, 4, 4, 4, 4, 4, 4, 4, 2, 2]) == pos + 36
  {
    PastFours(d, pos, [4, 4, 4, 4, 2, 2], [4, 4, 4, 4, 4, 4, 4, 4, 2, 2]);
    PastFours(d, pos + 16, [2, 2], [4, 4, 4, 4, 2, 2]);
    PastFirst(d, pos + 32, 2, [2], [2, 2]);
    PastFirst(d, pos + 34, 2, [], [2]);
  }

  // ---------- payloads ----------

  datatype Payload =
    | FileProps(id: seq<byte>, numbers: seq<byte>, flags: seq<byte>, rate: seq<byte>)
    | Stream(kind: seq<byte>, correction: seq<byte>, offset: seq<byte>, specific: seq<byte>, corrected: seq<byte>,
             flags: seq<byte>)
    | OddStream(kind: seq<byte>)
    | Extension(reserved: seq<byte>, data: seq<byte>)
    | Jpeg(size: seq<byte>, reserved: seq<byte>, data: seq<byte>)
    | CodecList(reserved: seq<byte>, codecs: seq<Codec>)
    | Content(title: seq<byte>, author: seq<byte>, copyright: seq<byte>, description: seq<byte>, rating: seq<byte>)
    | MoreContent(descriptors: seq<Descriptor>)
    | MoreStream(times: seq<byte>, skipped: seq<byte>, rate: seq<byte>, names: seq<Labelled>, systems: seq<Labelled>)

  /** The identifiers, as they stand in files. */
  function IdOf(p: Payload): (id: seq<byte>)
    ensures |id| == 16
  {
    match p
    case FileProps(_, _, _, _) =>
      [0xa1, 0xdc, 0xab, 0x8c, 0x47, 0xa9, 0xcf, 0x11, 0x8e, 0xe4, 0x00, 0xc0, 0x0c, 0x20, 0x53, 0x65]
    case Stream(_, _, _, _, _, _) =>
      [0x91, 0x07, 0xdc, 0xb7, 0xb7, 0xa9, 0xcf, 0x11, 0x8e, 0xe6, 0x00, 0xc0, 0x0c, 0x20, 0x53, 0x65]
    case OddStream(_) =>
      [0x91, 0x07, 0xdc, 0xb7, 0xb7, 0xa9, 0xcf, 0x11, 0x8e, 0xe6, 0x00, 0xc0, 0x0c, 0x20, 0x53, 0x65]
    case Extension(_, _) =>
      [0xb5, 0x03, 0xbf, 0x5f, 0x2e, 0xa9, 0xcf, 0x11, 0x8e, 0xe3, 0x00, 0xc0, 0x0c, 0x20, 0x53, 0x65]
    case Jpeg(_, _, _) =>
      [0xe0, 0x7d, 0x90, 0x35, 0x15, 0xe4, 0xcf, 0x11, 0xa9, 0x17, 0x00, 0x80, 0x5f, 0x5c, 0x44, 0x2b]
    case CodecList(_, _) =>
      [0x40, 0x52, 0xd1, 0x86, 0x1d, 0x31, 0xd0, 0x11, 0xa3, 0xa4, 0x00, 0xa0, 0xc9, 0x03, 0x48, 0xf6]
    case Content(_, _, _, _, _) =>
      [0x33, 0x26, 0xb2, 0x75, 0x8e, 0x66, 0xcf, 0x11, 0xa6, 0xd9, 0x00, 0xaa, 0x00, 0x62, 0xce, 0x6c]
    case MoreContent(_) =>
      [0x40, 0xa4, 0xd0, 0xd2, 0x07, 0xe3, 0xd2, 0x11, 0x97, 0xf0, 0x00, 0xa0, 0xc9, 0x5e, 0xa8, 0x50]
    case MoreStream(_, _, _, _, _) =>
      [0xcb, 0xa5, 0xe6, 0x14, 0x72, 0xc6, 0x32, 0x43, 0x83, 0x99, 0xa9, 0x69, 0x52, 0x06, 0x5b, 0x5a]
  }

  /** The fields have their widths, and the lengths can be told. */
  predicate PayloadOk(listed: Guid -> bool, p: Payload) {
    match p
    case FileProps(id, numbers, flags, rate) => |id| == 16 && |numbers| == 48 && |flags| == 12 && |rate| == 4
    case Stream(kind, correction, offset, specific, corrected, flags) =>
      && |kind| == 16 && listed(Number(kind)) && |correction| == 16 && |offset| == 8 && |flags| == 6
      && |specific| < 0x1_0000_0000 && |corrected| < 0x1_0000_0000
    case OddStream(kind) => |kind| == 16 && !listed(Number(kind))
    case Extension(reserved, data) => |reserved| == 18 && |data| < 0x1_0000_0000
    case Jpeg(size, reserved, data) => |size| == 8 && |reserved| == 6 && |data| < 0x1_0000
    case CodecList(reserved, codecs) =>
      |reserved| == 16 && |codecs| < 0x1_0000_0000 && forall i | 0 <= i < |codecs| :: CodecOk(codecs[i])
    case Content(title, author, copyright, description, rating) =>
      && |title| < 0x1_0000 && |author| < 0x1_0000 && |copyright| < 0x1_0000 && |description| < 0x1_0000
      && |rating| < 0x1_0000
    case MoreContent(descriptors) =>
      |descriptors| < 0x1_0000 && forall i | 0 <= i < |descriptors| :: DescriptorOk(descriptors[i])
    case MoreStream(times, skipped, rate, names, systems) =>
      && |times| == 10 && |skipped| == 36 && |rate| == 2 && |names| < 0x1_0000 && |systems| < 0x1_0000
      && AllSkip(names, 2) && AllSkip(systems, 18)
  }

  function PayloadBytes(p: Payload): seq<byte> {
    match p
    case FileProps(id, numbers, flags, rate) => (id + numbers) + (flags + rate)
    case Stream(kind, correction, offset, specific, corrected, flags) =>
      (kind + correction) + (offset + ((Little32(|specific|) + Little32(|corrected|)) + (flags + specific + corrected)))
    case OddStream(kind) => kind
    case Extension(reserved, data) => reserved + (Little32(|data|) + data)
    case Jpeg(size, reserved, data) => size + (reserved + TextBytes(data))
    case CodecList(reserved, codecs) => reserved + (Little32(|codecs|) + CodecsBytes(codecs))
    case Content(title, author, copyright, description, rating) =>
      ((Little16(|title|) + Little16(|author|)) + (Little16(|copyright|) + Little16(|description|)))
      + (Little16(|rating|) + (title + author + copyright + description + rating))
    case MoreContent(descriptors) => Little16(|descriptors|) + DescriptorsBytes(descriptors)
    case MoreStream(times, skipped, rate, names, systems) =>
      (times + skipped)
      + ((rate + (Little16(|names|) + Little16(|systems|))) + (AllLabelledBytes(names) + AllLabelledBytes(systems)))
  }

  /** Sixteen bytes as the two numbers of an identifier. */
  function Number(b: seq<byte>): Guid
    requires |b| == 16
  {
    (Eight(b[..8]), Eight(b[8..]))
  }

  function Eight(b: seq<byte>): nat
    requires |b| == 8
  {
    (b[0] as int) + (b[1] as int) * 0x100 + (b[2] as int) * 0x1_0000 + (b[3] as int) * 0x100_0000
    + (b[4] as int) * 0x1_0000_0000 + (b[5] as int) * 0x100_0000_0000 + (b[6] as int) * 0x1_0000_0000_0000
    + (b[7] as int) * 0x100_0000_0000_0000
  }

  lemma EightRead(d: seq<byte>, at: nat, b: seq<byte>)
    requires |b| == 8 && At(d, at, b)
    ensures U64(d, at) == Eight(b)
  {
    AtBytes(d, at, b);
    assert d[at + 0] == b[0];
  }

  lemma IdRead(d: seq<byte>, at: nat, b: seq<byte>)
    requires |b| == 16 && At(d, at, b)
    ensures GuidAt(d, at) == Number(b)
  {
    assert b == b[..8] + b[8..];
    AtSplit(d, at, b[..8], b[8..]);
    EightRead(d, at, b[..8]);
    EightRead(d, at + 8, b[8..]);
  }

  lemma EightSame(a: seq<byte>, b: seq<byte>)
    requires |a| == |b| == 8 && Eight(a) == Eight(b)
    ensures a == b
  {
    assert a[7] == b[7];
    assert a[6] == b[6];
    assert a[5] == b[5];
    assert a[4] == b[4];
    assert a[3] == b[3];
    assert a[2] == b[2];
    assert a[1] == b[1];
  }

  /** Different bytes are different identifiers. */
  lemma NumberSame(a: seq<byte>, b: seq<byte>)
    requires |a| == |b| == 16 && Number(a) == Number(b)
    ensures a == b
  {
    EightSame(a[..8], b[..8]);
    EightSame(a[8..], b[8..]);
    assert a == a[..8] + a[8..] && b == b[..8] + b[8..];
  }

  // ---------- each decoder ends behind its payload ----------

  lemma FilePropsRead(d: seq<byte>, at: nat)
    requires at + 80 <= |d|
    ensures D.FileProperties(d, at) == Next(at + 80)
  {
  }

  lemma StreamRead(listed: Guid -> bool, d: seq<byte>, at: nat, p: Payload, end: nat)
    requires p.Stream? && PayloadOk(listed, p) && At(d, at, PayloadBytes(p))
    requires end == at + 54 + |p.specific| + |p.corrected|
    ensures |PayloadBytes(p)| == end - at && D.StreamProperties(d, at, listed) == Next(end)
  {
    var lengths, rest := Little32(|p.specific|) + Little32(|p.corrected|), p.flags + p.specific + p.corrected;
    AtSplit(d, at, p.kind + p.correction, p.offset + (lengths + rest));
    AtSplit(d, at, p.kind, p.correction);
    IdRead(d, at, p.kind);
    AtSplit(d, at + 32, p.offset, lengths + rest);
    AtSplit(d, at + 40, lengths, rest);
    AtSplit(d, at + 40, Little32(|p.specific|), Little32(|p.corrected|));
    Read32(d, at + 40, |p.specific|);
    Read32(d, at + 44, |p.corrected|);
  }

  lemma OddStreamRead(listed: Guid -> bool, d: seq<byte>, at: nat, kind: seq<byte>)
    requires PayloadOk(listed, OddStream(kind)) && At(d, at, kind)
    ensures D.StreamProperties(d, at, listed) == Next(at + 16)
  {
    IdRead(d, at, kind);
  }

  lemma ExtensionRead(d: seq<byte>, at: nat, reserved: seq<byte>, data: seq<byte>)
    requires |reserved| == 18 && |data| < 0x1_0000_0000 && At(d, at, reserved + (Little32(|data|) + data))
    ensures D.HeaderExtension(d, at) == Next(at + 22 + |data|)
  {
    AtSplit(d, at, reserved, Little32(|data|) + data);
    AtSplit(d, at + 18, Little32(|data|), data);
    Read32(d, at + 18, |data|);
  }

  lemma JpegRead(d: seq<byte>, at: nat, size: seq<byte>, reserved: seq<byte>, data: seq<byte>)
    requires |size| == 8 && |reserved| == 6 && |data| < 0x1_0000 && At(d, at, size + (reserved + TextBytes(data)))
    ensures D.DegradableJpegMedia(d, at) == Next(at + 16 + |data|)
  {
    AtSplit(d, at, size, reserved + TextBytes(data));
    AtSplit(d, at + 8, reserved, TextBytes(data));
    TextRead(d, at + 14, data);
  }

  lemma CodecListRead(d: seq<byte>, at: nat, reserved: seq<byte>, codecs: seq<Codec>, end: nat)
    requires |reserved| == 16 && |codecs| < 0x1_0000_0000 && (forall i | 0 <= i < |codecs| :: CodecOk(codecs[i]))
    requires At(d, at, reserved + (Little32(|codecs|) + CodecsBytes(codecs)))
    requires end == at + 20 + |CodecsBytes(codecs)| < |d|
    ensures D.CodecList(d, at) == Next(end)
  {
    AtSplit(d, at, reserved, Little32(|codecs|) + CodecsBytes(codecs));
    AtSplit(d, at + 16, Little32(|codecs|), CodecsBytes(codecs));
    Read32(d, at + 16, |codecs|);
    CodecsRead(d, at + 20, codecs);
  }

  lemma MoreContentRead(d: seq<byte>, at: nat, es: seq<Descriptor>, end: nat)
    requires |es| < 0x1_0000 && (forall i | 0 <= i < |es| :: DescriptorOk(es[i]))
    requires At(d, at, Little16(|es|) + DescriptorsBytes(es)) && end == at + 2 + |DescriptorsBytes(es)|
    ensures D.ExtendedContentDescription(d, at) == Next(end)
  {
    AtSplit(d, at, Little16(|es|), DescriptorsBytes(es));
    Read16(d, at, |es|);
    DescriptorsRead(d, at + 2, es);
  }

  lemma ContentRead(listed: Guid -> bool, d: seq<byte>, at: nat, p: Payload, end: nat)
    requires p.Content? && PayloadOk(listed, p) && At(d, at, PayloadBytes(p))
    requires end == at + 10 + |p.title| + |p.author| + |p.copyright| + |p.description| + |p.rating|
    ensures |PayloadBytes(p)| == end - at && D.ContentDescription(d, at) == Next(end)
  {
    var two, four := Little16(|p.title|) + Little16(|p.author|), Little16(|p.copyright|) + Little16(|p.description|);
    var texts := p.title + p.author + p.copyright + p.description + p.rating;
    AtSplit(d, at, two + four, Little16(|p.rating|) + texts);
    AtSplit(d, at, two, four);
    AtSplit(d, at, Little16(|p.title|), Little16(|p.author|));
    AtSplit(d, at + 4, Little16(|p.copyright|), Little16(|p.description|));
    AtSplit(d, at + 8, Little16(|p.rating|), texts);
    Read16(d, at, |p.title|);
    Read16(d, at + 2, |p.author|);
    Read16(d, at + 4, |p.copyright|);
    Read16(d, at + 6, |p.description|);
    Read16(d, at + 8, |p.rating|);
  }

  lemma MoreStreamRead(listed: Guid -> bool, d: seq<byte>, at: nat, p: Payload, end: nat)
    requires p.MoreStream? && PayloadOk(listed, p) && At(d, at, PayloadBytes(p))
    requires end == at + 52 + |AllLabelledBytes(p.names)| + |AllLabelledBytes(p.systems)|
    ensures |PayloadBytes(p)| == end - at && D.ExtendedStreamProperties(d, at) == Next(end)
  {
    var names, systems := AllLabelledBytes(p.names), AllLabelledBytes(p.systems);
    MoreStreamAt(d, at, p.times, p.skipped, p.rate, |p.names|, |p.systems|, names, systems);
    ListsRead(d, at + 52, p.names, p.systems, at + 52 + |names|, end);
    MoreStreamEnds(d, at, |p.names|, |p.systems|, at + 52 + |names|, end);
  }

  lemma ListsRead(d: seq<byte>, pos: nat, names: seq<Labelled>, systems: seq<Labelled>, mid: nat, end: nat)
    requires AllSkip(names, 2) && AllSkip(systems, 18) && At(d, pos, AllLabelledBytes(names))
    requires mid == pos + |AllLabelledBytes(names)| && end == mid + |AllLabelledBytes(systems)|
    requires At(d, mid, AllLabelledBytes(systems))
    ensures mid <= |d| && D.Names(d, pos, [2], |names|) == Next(mid) && D.Names(d, mid, [16, 2], |systems|) == Next(end)
  {
    NamesRead(d, pos, names, [2], 2);
    NamesRead(d, mid, systems, [16, 2], 18);
  }

  lemma MoreStreamEnds(d: seq<byte>, at: nat, n: nat, m: nat, mid: nat, end: nat)
    requires at + 52 <= |d| && U16(d, at + 48) == n && U16(d, at + 50) == m && at + 52 <= mid <= |d|
    requires D.Names(d, at + 52, [2], n) == Next(mid) && D.Names(d, mid, [16, 2], m) == Next(end)
    ensures D.ExtendedStreamProperties(d, at) == Next(end)
  {
    SkippedTen(d, at + 10);
  }

  /** Where the counts and the lists of stream names and payload systems stand. */
  lemma MoreStreamAt(d: seq<byte>, at: nat, times: seq<byte>, skipped: seq<byte>, rate: seq<byte>, n: nat, m: nat,
                     names: seq<byte>, systems: seq<byte>)
    requires |times| == 10 && |skipped| == 36 && |rate| == 2 && n < 0x1_0000 && m < 0x1_0000
    requires At(d, at, (times + skipped) + ((rate + (Little16(n) + Little16(m))) + (names + systems)))
    ensures at + 52 <= |d| && U16(d, at + 48) == n && U16(d, at + 50) == m
    ensures At(d, at + 52, names) && At(d, at + 52 + |names|, systems)
  {
    var counts := Little16(n) + Little16(m);
    AtSplit(d, at, times + skipped, (rate + counts) + (names + systems));
    AtSplit(d, at + 46, rate + counts, names + systems);
    AtSplit(d, at + 46, rate, counts);
    AtSplit(d, at + 48, Little16(n), Little16(m));
    AtSplit(d, at + 52, names, systems);
    Read16(d, at + 48, n);
    Read16(d, at + 50, m);
  }

  /** The decoder that the identifier of a payload selects. */
  lemma DecodeIs(listed: Guid -> bool, d: seq<byte>, at: nat, p: Payload)
    requires at <= |d|
    ensures Number(IdOf(p)) != HEADER && Decoded(Number(IdOf(p)))
    ensures Decode(listed, d, Number(IdOf(p)), at) == match p
                                                      case FileProps(_, _, _, _) => D.FileProperties(d, at)
                                                      case Stream(_, _, _, _, _, _) => D.StreamProperties(d, at, listed)
                                                      case OddStream(_) => D.StreamProperties(d, at, listed)
                                                      case Extension(_, _) => D.HeaderExtension(d, at)
                                                      case Jpeg(_, _, _) => D.DegradableJpegMedia(d, at)
                                                      case CodecList(_, _) => D.CodecList(d, at)
                                                      case Content(_, _, _, _, _) => D.ContentDescription(d, at)
                                                      case MoreContent(_) => D.ExtendedContentDescription(d, at)
                                                      case MoreStream(_, _, _, _, _) =>
                                                        D.ExtendedStreamProperties(d, at)
  {
    IdIs(p);
  }

  /** Each decoder ends right behind its payload, as long as that does not end the file. */
  lemma PayloadRead(listed: Guid -> bool, d: seq<byte>, at: nat, p: Payload, end: nat)
    requires PayloadOk(listed, p) && At(d, at, PayloadBytes(p)) && end == at + |PayloadBytes(p)| < |d|
    ensures Number(IdOf(p)) != HEADER && Decoded(Number(IdOf(p))) && Decode(listed, d, Number(IdOf(p)), at) == Next(end)
  {
    DecodeIs(listed, d, at, p);
    match p
    case FileProps(_, _, _, _) => FilePropsRead(d, at);
    case Stream(_, _, _, _, _, _) => StreamRead(listed, d, at, p, end);
    case OddStream(kind) => OddStreamRead(listed, d, at, kind);
    case Extension(reserved, data) => ExtensionRead(d, at, reserved, data);
    case Jpeg(size, reserved, data) => JpegRead(d, at, size, reserved, data);
    case CodecList(reserved, codecs) => CodecListRead(d, at, reserved, codecs, end);
    case Content(_, _, _, _, _) => ContentRead(listed, d, at, p, end);
    case MoreContent(descriptors) => MoreContentRead(d, at, descriptors, end);
    case MoreStream(_, _, _, _, _) => MoreStreamRead(listed, d, at, p, end);
  }

  function KnownId(p: Payload): Guid {
    match p
    case FileProps(_, _, _, _) => FILE_PROPERTIES
    case Stream(_, _, _, _, _, _) => STREAM_PROPERTIES
    case OddStream(_) => STREAM_PROPERTIES
    case Extension(_, _) => HEADER_EXTENSION
    case Jpeg(_, _, _) => DEGRADABLE_JPEG_MEDIA
    case CodecList(_, _) => CODEC_LIST
    case Content(_, _, _, _, _) => CONTENT_DESCRIPTION
    case MoreContent(_) => EXTENDED_CONTENT_DESCRIPTION
    case MoreStream(_, _, _, _, _) => EXTENDED_STREAM_PROPERTIES
  }

  /** The identifiers are those that the table names. */
  lemma IdIs(p: Payload)
    ensures Number(IdOf(p)) == KnownId(p)
  {
  }

  // ---------- objects ----------

  const HEAD_ID: seq<byte> :=
    [0x30, 0x26, 0xb2, 0x75, 0x8e, 0x66, 0xcf, 0x11, 0xa6, 0xd9, 0x00, 0xaa, 0x00, 0x62, 0xce, 0x6c]

  /** An object with a decoder, one that is skipped, or a header with other objects in it. */
  datatype Obj =
    | Known(payload: Payload)
    | Skipped(id: seq<byte>, data: seq<byte>)
    | Head(reserved: seq<byte>, inner: Objs)

  datatype Objs = Nil | Cons(first: Obj, rest: Objs)

  function Count(os: Objs): nat {
    if os.Nil? then 0 else 1 + Count(os.rest)
  }

  function BodyOf(o: Obj): seq<byte>
    decreases o, 0
  {
    match o
    case Known(p) => PayloadBytes(p)
    case Skipped(_, data) => data
    case Head(reserved, inner) => Little32(Count(inner)) + (reserved + ObjsBytes(inner))
  }

  function IdBytes(o: Obj): seq<byte> {
    match o
    case Known(p) => IdOf(p)
    case Skipped(id, _) => id
    case Head(_, _) => HEAD_ID
  }

  /** An identifier, the length of the whole object, and what is in it. */
  function ObjBytes(o: Obj): seq<byte>
    decreases o, 1
  {
    (IdBytes(o) + Little64(24 + |BodyOf(o)|)) + BodyOf(o)
  }

  function ObjsBytes(os: Objs): seq<byte>
    decreases os
  {
    if os.Nil? then [] else ObjBytes(os.first) + ObjsBytes(os.rest)
  }

  /** An identifier without a decoder. */
  predicate Strange(id: seq<byte>) {
    && |id| == 16 && id != HEAD_ID
    && id != [0xa1, 0xdc, 0xab, 0x8c, 0x47, 0xa9, 0xcf, 0x11, 0x8e, 0xe4, 0x00, 0xc0, 0x0c, 0x20, 0x53, 0x65]
    && id != [0x91, 0x07, 0xdc, 0xb7, 0xb7, 0xa9, 0xcf, 0x11, 0x8e, 0xe6, 0x00, 0xc0, 0x0c, 0x20, 0x53, 0x65]
    && id != [0xb5, 0x03, 0xbf, 0x5f, 0x2e, 0xa9, 0xcf, 0x11, 0x8e, 0xe3, 0x00, 0xc0, 0x0c, 0x20, 0x53, 0x65]
    && id != [0xe0, 0x7d, 0x90, 0x35, 0x15, 0xe4, 0xcf, 0x11, 0xa9, 0x17, 0x00, 0x80, 0x5f, 0x5c, 0x44, 0x2b]
    && id != [0x40, 0x52, 0xd1, 0x86, 0x1d, 0x31, 0xd0, 0x11, 0xa3, 0xa4, 0x00, 0xa0, 0xc9, 0x03, 0x48, 0xf6]
    && id != [0x33, 0x26, 0xb2, 0x75, 0x8e, 0x66, 0xcf, 0x11, 0xa6, 0xd9, 0x00, 0xaa, 0x00, 0x62, 0xce, 0x6c]
    && id != [0x40, 0xa4, 0xd0, 0xd2, 0x07, 0xe3, 0xd2, 0x11, 0x97, 0xf0, 0x00, 0xa0, 0xc9, 0x5e, 0xa8, 0x50]
    && id != [0xcb, 0xa5, 0xe6, 0x14, 0x72, 0xc6, 0x32, 0x43, 0x83, 0x99, 0xa9, 0x69, 0x52, 0x06, 0x5b, 0x5a]
  }

  lemma HeadId()
    ensures |HEAD_ID| == 16 && Number(HEAD_ID) == HEADER
  {
  }

  /** It has another number than those in the table. */
  lemma StrangeNumber(id: seq<byte>)
    requires Strange(id)
    ensures Number(id) != HEADER && !Decoded(Number(id))
  {
    HeadId();
    Apart(id, HEAD_ID);
    KnownNumber(id, FileProps([], [], [], []));
    KnownNumber(id, OddStream([]));
    KnownNumber(id, Extension([], []));
    KnownNumber(id, Jpeg([], [], []));
    KnownNumber(id, CodecList([], []));
    KnownNumber(id, Content([], [], [], [], []));
    KnownNumber(id, MoreContent([]));
    KnownNumber(id, MoreStream([], [], [], [], []));
    NotDecoded(Number(id));
  }

  lemma NotDecoded(id: Guid)
    requires id != FILE_PROPERTIES && id != STREAM_PROPERTIES && id != HEADER_EXTENSION && id != CODEC_LIST
    requires id != CONTENT_DESCRIPTION && id != EXTENDED_CONTENT_DESCRIPTION && id != EXTENDED_STREAM_PROPERTIES
    requires id != DEGRADABLE_JPEG_MEDIA
    ensures !Decoded(id)
  {
  }

  lemma Apart(a: seq<byte>, b: seq<byte>)
    requires |a| == |b| == 16 && a != b
    ensures Number(a) != Number(b)
  {
    if Number(a) == Number(b) {
      NumberSame(a, b);
    }
  }

  lemma KnownNumber(id: seq<byte>, p: Payload)
    requires Strange(id)
    ensures Number(id) != KnownId(p)
  {
    IdIs(p);
    Apart(id, IdOf(p));
  }

  predicate ObjOk(listed: Guid -> bool, o: Obj) {
    && 24 + |BodyOf(o)| < 0x1_0000_0000_0000_0000
    && match o
       case Known(p) => PayloadOk(listed, p)
       case Skipped(id, data) => Strange(id) && data != []
       case Head(reserved, inner) => |reserved| == 2 && Count(inner) < 0xffff_ffff && ObjsOk(listed, inner)
  }

  predicate ObjsOk(listed: Guid -> bool, os: Objs) {
    os.Cons? ==> ObjOk(listed, os.first) && ObjsOk(listed, os.rest)
  }

  lemma IdSixteen(listed: Guid -> bool, o: Obj)
    requires ObjOk(listed, o)
    ensures |IdBytes(o)| == 16 && |ObjBytes(o)| == 24 + |BodyOf(o)|
  {
    HeadId();
  }

  /** The identifier and the size of an object are read, and its body is behind them. */
  lemma FrontRead(d: seq<byte>, pos: nat, id: seq<byte>, size: nat, body: seq<byte>)
    requires |id| == 16 && size < 0x1_0000_0000_0000_0000 && At(d, pos, (id + Little64(size)) + body)
    ensures pos + 24 <= |d| && GuidAt(d, pos) == Number(id) && U64(d, pos + 16) == size && At(d, pos + 24, body)
  {
    AtSplit(d, pos, id + Little64(size), body);
    AtSplit(d, pos, id, Little64(size));
    IdRead(d, pos, id);
    Read64(d, pos + 16, size);
  }

  /** The object stands here, and ends at least 24 bytes before the end of the file. */
  ghost predicate Stands(listed: Guid -> bool, d: seq<byte>, pos: nat, o: Obj, end: nat) {
    ObjOk(listed, o) && At(d, pos, ObjBytes(o)) && end == pos + |ObjBytes(o)| && end + 24 <= |d|
  }

  ghost predicate AllStand(listed: Guid -> bool, d: seq<byte>, pos: nat, os: Objs, end: nat) {
    ObjsOk(listed, os) && At(d, pos, ObjsBytes(os)) && end == pos + |ObjsBytes(os)| && end + 24 <= |d|
  }

  lemma StandsSplit(listed: Guid -> bool, d: seq<byte>, pos: nat, os: Objs, mid: nat, end: nat)
    requires os.Cons? && AllStand(listed, d, pos, os, end) && mid == pos + |ObjBytes(os.first)|
    ensures Stands(listed, d, pos, os.first, mid) && AllStand(listed, d, mid, os.rest, end)
  {
    AtSplit(d, pos, ObjBytes(os.first), ObjsBytes(os.rest));
  }

  /** An object without inner objects. */
  lemma LoneRead(listed: Guid -> bool, d: seq<byte>, pos: nat, o: Obj, end: nat)
    requires Stands(listed, d, pos, o, end) && !o.Head?
    ensures Object(listed, d, pos) == Next(end)
  {
    IdSixteen(listed, o);
    FrontRead(d, pos, IdBytes(o), 24 + |BodyOf(o)|, BodyOf(o));
    if o.Known? {
      PayloadRead(listed, d, pos + 24, o.payload, end);
    } else {
      StrangeNumber(o.id);
    }
  }

  /** A header: where its objects stand. */
  lemma HeadSplit(listed: Guid -> bool, d: seq<byte>, pos: nat, o: Obj, end: nat)
    requires Stands(listed, d, pos, o, end) && o.Head?
    ensures pos + 30 <= |d| && GuidAt(d, pos) == HEADER && U64(d, pos + 16) <= |d| - pos - 24
    ensures U32(d, pos + 24) == Count(o.inner) && AllStand(listed, d, pos + 30, o.inner, end)
  {
    HeadId();
    IdSixteen(listed, o);
    FrontRead(d, pos, HEAD_ID, 24 + |BodyOf(o)|, BodyOf(o));
    AtSplit(d, pos + 24, Little32(Count(o.inner)), o.reserved + ObjsBytes(o.inner));
    AtSplit(d, pos + 28, o.reserved, ObjsBytes(o.inner));
    Read32(d, pos + 24, Count(o.inner));
  }

  /** An object that does not reach into the last 24 bytes of the file is read up to its end: if it is a header, it
      declares the number of its objects, and ends right behind them, with its two reserved bytes skipped. */
  lemma {:induction false} ObjRead(listed: Guid -> bool, d: seq<byte>, pos: nat, o: Obj, end: nat)
    requires Stands(listed, d, pos, o, end)
    ensures Object(listed, d, pos) == Next(end)
    decreases o, 1
  {
    if o.Head? {
      HeadSplit(listed, d, pos, o, end);
      ObjsRead(listed, d, pos + 30, o.inner, end);
    } else {
      LoneRead(listed, d, pos, o, end);
    }
  }

  lemma {:induction false} ObjsRead(listed: Guid -> bool, d: seq<byte>, pos: nat, os: Objs, end: nat)
    requires AllStand(listed, d, pos, os, end)
    ensures Objects(listed, d, pos, Count(os)) == Next(end)
    decreases os, 0
  {
    if os.Cons? {
      var mid := pos + |ObjBytes(os.first)|;
      StandsSplit(listed, d, pos, os, mid, end);
      ObjRead(listed, d, pos, os.first, mid);
      ObjsRead(listed, d, mid, os.rest, end);
      ObjectsCons(listed, d, pos, Count(os.rest), mid, end);
    }
  }

  lemma ObjectsCons(listed: Guid -> bool, d: seq<byte>, pos: nat, n: nat, mid: nat, end: nat)
    requires pos <= mid <= |d| && Object(listed, d, pos) == Next(mid) && Objects(listed, d, mid, n) == Next(end)
    ensures Objects(listed, d, pos, n + 1) == Next(end)
  {
  }
}
