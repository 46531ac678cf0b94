/** The decoders of single ASF objects: how far each of them moves the cursor. */
module AsfDecoders {
  import opened Bytes

  /** Where the cursor is afterwards, or that the file is corrupt. */
  datatype Result = Next(pos: nat) | Corrupt {
    predicate IsFailure() {
      Corrupt?
    }

    function PropagateFailure(): Result
      requires IsFailure()
    {
      this
    }

    function Extract(): nat
      requires !IsFailure()
    {
      pos
    }
  }

  function U16(d: seq<byte>, at: nat): nat
    requires at + 2 <= |d|
  {
    (d[at] as int) + (d[at + 1] as int) * 0x100
  }

  function U32(d: seq<byte>, at: nat): nat
    requires at + 4 <= |d|
  {
    U16(d, at) + U16(d, at + 2) * 0x1_0000
  }

  function U64(d: seq<byte>, at: nat): nat
    requires at + 8 <= |d|
  {
    U32(d, at) + U32(d, at + 4) * 0x1_0000_0000
  }

  /** An identifier, as two little-endian numbers. */
  type Guid = (nat, nat)

  function GuidAt(d: seq<byte>, at: nat): Guid
    requires at + 16 <= |d|
  {
    (U64(d, at), U64(d, at + 8))
  }

  // ---------- reading and seeking ----------

  /** Reading: it must all be there. */
  function Taken(d: seq<byte>, pos: nat, n: nat): (r: Result)
    requires pos <= |d|
    ensures r.Next? ==> r.pos == pos + n <= |d|
  {
    if n <= |d| - pos then Next(pos + n) else Corrupt
  }

  /** Seeking: a position behind the end is refused, and the cursor stays. */
  function Past(d: seq<byte>, pos: nat, n: nat): (p: nat)
    requires pos <= |d|
    ensures pos <= p <= |d|
  {
    if n <= |d| - pos then pos + n else pos
  }

  function PastAll(d: seq<byte>, pos: nat, ns: seq<nat>): (p: nat)
    requires pos <= |d|
    ensures pos <= p <= |d|
    decreases |ns|
  {
    if ns == [] then pos else PastAll(d, Past(d, pos, ns[0]), ns[1..])
  }

  /** A 16-bit length, and as many bytes. */
  function TakenText(d: seq<byte>, pos: nat): (r: Result)
    requires pos <= |d|
    ensures r.Next? ==> pos + 2 <= r.pos <= |d|
  {
    var p :- Taken(d, pos, 2);
    Taken(d, p, U16(d, pos))
  }

  /** A 16-bit length, and as many bytes skipped. */
  function PastText(d: seq<byte>, pos: nat): (r: Result)
    requires pos <= |d|
    ensures r.Next? ==> pos + 2 <= r.pos <= |d|
  {
    var p :- Taken(d, pos, 2);
    Next(Past(d, p, U16(d, pos)))
  }

  // ---------- decoders without loops ----------

  function FileProperties(d: seq<byte>, pos: nat): (r: Result)
    requires pos <= |d|
    ensures r.Next? ==> pos <= r.pos <= |d|
  {
    var p :- Taken(d, pos, 16);
    var q :- Taken(d, p, 48);
    Taken(d, Past(d, q, 12), 4)
  }

  /** The stream type decides whether anything follows: it must be an identifier that is listed. */
  function StreamProperties(d: seq<byte>, pos: nat, listed: Guid -> bool): (r: Result)
    requires pos <= |d|
    ensures r.Next? ==> pos <= r.pos <= |d|
  {
    var p :- Taken(d, pos, 16);
    if !listed(GuidAt(d, pos)) then Next(p)
    else
      var offset :- Taken(d, Past(d, p, 16), 8);
      var specific :- Taken(d, offset, 4);
      var correction :- Taken(d, specific, 4);
      Next(Past(d, correction, 6 + U32(d, offset) + U32(d, specific)))
  }

  function HeaderExtension(d: seq<byte>, pos: nat): (r: Result)
    requires pos <= |d|
    ensures r.Next? ==> pos <= r.pos <= |d|
  {
    var p := Past(d, pos, 18);
    var q :- Taken(d, p, 4);
    Next(Past(d, q, U32(d, p)))
  }

  function DegradableJpegMedia(d: seq<byte>, pos: nat): (r: Result)
    requires pos <= |d|
    ensures r.Next? ==> pos <= r.pos <= |d|
  {
    var p :- Taken(d, pos, 8);
    PastText(d, Past(d, p, 6))
  }

  /** Five lengths, and then the texts. */
  function ContentDescription(d: seq<byte>, pos: nat): (r: Result)
    requires pos <= |d|
    ensures r.Next? ==> pos <= r.pos <= |d|
  {
    var p :- Taken(d, pos, 10);
    var title :- Taken(d, p, U16(d, pos));
    var author :- Taken(d, title, U16(d, pos + 2));
    var copyright :- Taken(d, author, U16(d, pos + 4));
    var description :- Taken(d, copyright, U16(d, pos + 6));
    Taken(d, description, U16(d, pos + 8))
  }

  // ---------- decoders with loops ----------

  /** A codec: its type, its name, counted in characters of two bytes in 16-bit arithmetic, its description, and some
      information, which must be there and must not end the file. */
  function Codec(d: seq<byte>, pos: nat): (r: Result)
    requires pos <= |d|
    ensures r.Next? ==> pos + 9 <= r.pos <= |d|
  {
    var p :- Taken(d, pos, 4);
    var name :- Taken(d, p, U16(d, pos + 2) * 2 % 0x1_0000);
    var description :- TakenText(d, name);
    var info :- Taken(d, description, 2);
    if 0 < U16(d, description) < |d| - info then Taken(d, info, U16(d, description)) else Corrupt
  }

  function Codecs(d: seq<byte>, pos: nat, n: nat): (r: Result)
    requires pos <= |d|
    ensures r.Next? ==> pos <= r.pos <= |d|
    decreases n
  {
    if n == 0 then Next(pos)
    else
      var p :- Codec(d, pos);
      Codecs(d, p, n - 1)
  }

  function CodecList(d: seq<byte>, pos: nat): (r: Result)
    requires pos <= |d|
    ensures r.Next? ==> pos <= r.pos <= |d|
  {
    var p := Past(d, pos, 16);
    var q :- Taken(d, p, 4);
    Codecs(d, q, U32(d, p))
  }

  /** The length of a value of the given type. */
  function ValueLength(kind: nat, length: nat): nat {
    if length == 0 || kind > 5 then 0
    else if kind <= 1 then length
    else if kind == 3 then 4
    else if kind == 4 then 8
    else 2
  }

  function Descriptor(d: seq<byte>, pos: nat): (r: Result)
    requires pos <= |d|
    ensures r.Next? ==> pos + 6 <= r.pos <= |d|
  {
    var name :- TakenText(d, pos);
    var p :- Taken(d, name, 4);
    Taken(d, p, ValueLength(U16(d, name), U16(d, name + 2)))
  }

  function Descriptors(d: seq<byte>, pos: nat, n: nat): (r: Result)
    requires pos <= |d|
    ensures r.Next? ==> pos <= r.pos <= |d|
    decreases n
  {
    if n == 0 then Next(pos)
    else
      var p :- Descriptor(d, pos);
      Descriptors(d, p, n - 1)
  }

  function ExtendedContentDescription(d: seq<byte>, pos: nat): (r: Result)
    requires pos <= |d|
    ensures r.Next? ==> pos <= r.pos <= |d|
  {
    var p :- Taken(d, pos, 2);
    Descriptors(d, p, U16(d, pos))
  }

  /** Some bytes skipped, and a text, `n` times over. */
  function Names(d: seq<byte>, pos: nat, skips: seq<nat>, n: nat): (r: Result)
    requires pos <= |d|
    ensures r.Next? ==> pos <= r.pos <= |d|
    decreases n
  {
    if n == 0 then Next(pos)
    else
      var p :- PastText(d, PastAll(d, pos, skips));
      Names(d, p, skips, n - 1)
  }

  function ExtendedStreamProperties(d: seq<byte>, pos: nat): (r: Result)
    requires pos <= |d|
    ensures r.Next? ==> pos <= r.pos <= |d|
  {
    var p :- Taken(d, pos, 10);
    var q := PastAll(d, p, [4, 4, 4, 4, 4, 4, 4, 4, 2, 2]);
    var counts :- Taken(d, q, 6);
    var names :- Names(d, counts, [2], U16(d, q + 2));
    Names(d, names, [16, 2], U16(d, q + 4))
  }

  // ---------- the loops ----------

  /** The loop over the codecs. */
  method DecodeCodecs(d: seq<byte>, pos: nat, n: nat) returns (r: Result)
    requires pos <= |d|
    ensures r == Codecs(d, pos, n)
  {
    var p: nat := pos;
    for i := 0 to n
      invariant p <= |d| && Codecs(d, p, n - i) == Codecs(d, pos, n)
    {
      p :- Codec(d, p);
    }
    return Next(p);
  }

  method DecodeDescriptors(d: seq<byte>, pos: nat, n: nat) returns (r: Result)
    requires pos <= |d|
    ensures r == Descriptors(d, pos, n)
  {
    var p: nat := pos;
    for i := 0 to n
      invariant p <= |d| && Descriptors(d, p, n - i) == Descriptors(d, pos, n)
    {
      p :- Descriptor(d, p);
    }
    return Next(p);
  }

  method SkipNames(d: seq<byte>, pos: nat, skips: seq<nat>, n: nat) returns (r: Result)
    requires pos <= |d|
    ensures r == Names(d, pos, skips, n)
  {
    var p: nat := pos;
    for i := 0 to n
      invariant p <= |d| && Names(d, p, skips, n - i) == Names(d, pos, skips, n)
    {
      p :- PastText(d, PastAll(d, p, skips));
    }
    return Next(p);
  }

  /** However many codecs a list declares, it is accepted only if there is room for them. */
  lemma {:induction false} CodecsFit(d: seq<byte>, pos: nat, n: nat)
    requires pos <= |d|
    ensures Codecs(d, pos, n).Next? ==> pos + 9 * n <= Codecs(d, pos, n).pos
    decreases n
  {
    if n > 0 && Codec(d, pos).Next? {
      CodecsFit(d, Codec(d, pos).pos, n - 1);
    }
  }

  lemma {:induction false} DescriptorsFit(d: seq<byte>, pos: nat, n: nat)
    requires pos <= |d|
    ensures Descriptors(d, pos, n).Next? ==> pos + 6 * n <= Descriptors(d, pos, n).pos
    decreases n
  {
    if n > 0 && Descriptor(d, pos).Next? {
      DescriptorsFit(d, Descriptor(d, pos).pos, n - 1);
    }
  }
}
