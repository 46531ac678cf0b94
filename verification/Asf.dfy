/** `AsfVideo`: the recursion over the objects of an ASF file. */
module Asf {
  import opened AsfDecoders
  import opened Bytes

  const HEADER: Guid := (0x11cf668e75b22630, 0x6cce6200aa00d9a6)
  const FILE_PROPERTIES: Guid := (0x11cfa9478cabdca1, 0x6553200cc000e48e)
  const STREAM_PROPERTIES: Guid := (0x11cfa9b7b7dc0791, 0x6553200cc000e68e)
  const HEADER_EXTENSION: Guid := (0x11cfa92e5fbf03b5, 0x6553200cc000e38e)
  const CODEC_LIST: Guid := (0x11d0311d86d15240, 0xf64803c9a000a4a3)
  const CONTENT_DESCRIPTION: Guid := (0x11cf668e75b22633, 0x6cce6200aa00d9a6)
  const EXTENDED_CONTENT_DESCRIPTION: Guid := (0x11d2e307d2d0a440, 0x50a85ec9a000f097)
  const EXTENDED_STREAM_PROPERTIES: Guid := (0x4332c67214e6a5cb, 0x5a5b065269a99983)
  const DEGRADABLE_JPEG_MEDIA: Guid := (0x11cfe41535907de0, 0x2b445c5f800017a9)

  const UINT_MAX: nat := 0xffff_ffff

  /** An object with a decoder of its own. */
  predicate Decoded(id: Guid) {
    || id == FILE_PROPERTIES || id == STREAM_PROPERTIES || id == HEADER_EXTENSION || id == CODEC_LIST
    || id == CONTENT_DESCRIPTION || id == EXTENDED_CONTENT_DESCRIPTION || id == EXTENDED_STREAM_PROPERTIES
    || id == DEGRADABLE_JPEG_MEDIA
  }

  // ---------- what a file says ----------

  /** What a decoder does, whatever size its object has. */
  function Decode(listed: Guid -> bool, d: seq<byte>, id: Guid, at: nat): (r: Result)
    requires Decoded(id) && at <= |d|
    ensures r.Next? ==> at <= r.pos <= |d|
  {
    if id == FILE_PROPERTIES then FileProperties(d, at)
    else if id == STREAM_PROPERTIES then StreamProperties(d, at, listed)
    else if id == HEADER_EXTENSION then HeaderExtension(d, at)
    else if id == CODEC_LIST then CodecList(d, at)
    else if id == CONTENT_DESCRIPTION then ContentDescription(d, at)
    else if id == EXTENDED_CONTENT_DESCRIPTION then ExtendedContentDescription(d, at)
    else if id == EXTENDED_STREAM_PROPERTIES then ExtendedStreamProperties(d, at)
    else DegradableJpegMedia(d, at)
  }

  /** The end of an object without a decoder: past its payload, which must not be empty. */
  function Skipped(at: nat, size: nat): Result {
    if size > 24 then Next(at + size - 24) else Corrupt
  }

  /** The object at `pos`: an identifier, a size that must not exceed what is left behind both, and a payload. */
  function Object(listed: Guid -> bool, d: seq<byte>, pos: nat): (r: Result)
    requires pos <= |d|
    ensures r.Next? ==> pos + 24 <= r.pos <= |d|
    decreases |d| - pos, 0
  {
    if |d| - pos < 24 then Corrupt
    else
      var id, size, at := GuidAt(d, pos), U64(d, pos + 16), pos + 24;
      if size > |d| - at then Corrupt
      else if id == HEADER then Header(listed, d, at)
      else if Decoded(id) then Decode(listed, d, id, at)
      else Skipped(at, size)
  }

  /** The payload of a header object: a count, two reserved bytes, and as many objects. */
  function Header(listed: Guid -> bool, d: seq<byte>, at: nat): (r: Result)
    requires at <= |d|
    ensures r.Next? ==> at <= r.pos <= |d|
    decreases |d| - at, 2
  {
    if |d| - at < 6 || U32(d, at) == UINT_MAX then Corrupt else Objects(listed, d, at + 6, U32(d, at))
  }

  function Objects(listed: Guid -> bool, d: seq<byte>, pos: nat, n: nat): (r: Result)
    requires pos <= |d|
    ensures r.Next? ==> pos <= r.pos <= |d|
    decreases |d| - pos, 1
  {
    if n == 0 then Next(pos)
    else
      var next :- Object(listed, d, pos);
      Objects(listed, d, next, n - 1)
  }

  // ---------- what follows for the file ----------

  /** However many objects a header declares, they are accepted only if there is room for them. */
  lemma {:induction false} ObjectsFit(listed: Guid -> bool, d: seq<byte>, pos: nat, n: nat)
    requires pos <= |d|
    ensures Objects(listed, d, pos, n).Next? ==> pos + 24 * n <= Objects(listed, d, pos, n).pos
    decreases n
  {
    if n > 0 && Object(listed, d, pos).Next? {
      ObjectsFit(listed, d, Object(listed, d, pos).pos, n - 1);
    }
  }

  /** A header object with too many declared objects is corrupt, whatever is in them. */
  lemma HeaderFits(listed: Guid -> bool, d: seq<byte>, at: nat)
    requires at + 6 <= |d| && U32(d, at) * 24 > |d| - at - 6
    ensures Header(listed, d, at) == Corrupt
  {
    ObjectsFit(listed, d, at + 6, U32(d, at));
  }

  /** Objects without a decoder that have a payload and end at least 24 bytes before the end are skipped, and only
      those: the size is compared with what is left behind the identifier and the size, which it counts too. */
  lemma SkippedIff(listed: Guid -> bool, d: seq<byte>, pos: nat)
    requires pos + 24 <= |d| && GuidAt(d, pos) != HEADER && !Decoded(GuidAt(d, pos))
    ensures var size := U64(d, pos + 16);
            Object(listed, d, pos) == if 24 < size && pos + size + 24 <= |d| then Next(pos + size) else Corrupt
  {
  }

  /** So a file that holds one whole object and nothing else is rejected. */
  lemma LoneObjectRejected(listed: Guid -> bool, d: seq<byte>)
    requires |d| >= 24 && U64(d, 16) == |d|
    ensures Object(listed, d, 0) == Corrupt
  {
  }

  // ---------- the object ----------

  /** Each address is at least an object header behind the one before. */
  ghost predicate Apart(addresses: seq<nat>, pos: nat) {
    && (forall i, j | 0 <= i < j < |addresses| :: addresses[i] + 24 <= addresses[j])
    && (forall i | 0 <= i < |addresses| :: addresses[i] + 24 <= pos)
  }

  lemma ApartSnoc(addresses: seq<nat>, pos: nat)
    requires Apart(addresses, pos)
    ensures Apart(addresses + [pos], pos + 24)
  {
  }

  lemma {:induction false} ApartBound(addresses: seq<nat>, end: nat)
    requires Apart(addresses, end)
    ensures 24 * |addresses| <= end
  {
    if addresses != [] {
      var last := |addresses| - 1;
      ApartBound(addresses[..last], addresses[last]);
    }
  }

  class AsfVideo {
    const file: seq<byte>
    /** The identifiers in the program's table, those without a decoder included. */
    const listed: Guid -> bool
    var pos: nat
    /** The addresses of all object headers read so far. */
    ghost var headers: seq<nat>

    ghost predicate Valid()
      reads this
    {
      pos <= |file| && Apart(headers, pos)
    }

    constructor (file: seq<byte>, listed: Guid -> bool)
      ensures Valid() && this.file == file && this.listed == listed && pos == 0 && headers == []
    {
      this.file, this.listed := file, listed;
      pos, headers := 0, [];
    }

    /** The constructor of `HeaderReader`. */
    method ReadHeader() returns (id: Guid, size: nat)
      requires Valid() && pos + 24 <= |file|
      modifies this
      ensures Valid() && pos == old(pos) + 24 && headers == old(headers) + [old(pos)]
      ensures id == GuidAt(file, old(pos)) && size == U64(file, old(pos) + 16)
    {
      id, size := GuidAt(file, pos), U64(file, pos + 16);
      ApartSnoc(headers, pos);
      headers := headers + [pos];
      pos := pos + 24;
    }

    method DecodeBlock() returns (r: Result)
      requires Valid()
      modifies this
      ensures Valid() && pos >= old(pos) && old(headers) <= headers
      ensures r == Object(listed, file, old(pos)) && (r.Next? ==> r.pos == pos)
      decreases |file| - pos, 0
    {
      if |file| - pos < 24 {
        return Corrupt;
      }
      var id, size := ReadHeader();
      if size > |file| - pos {
        return Corrupt;
      }
      if id == HEADER {
        r := DecodeHeader();
      } else {
        if Decoded(id) {
          r := DecodePayload(id);
        } else {
          r := Skipped(pos, size);
        }
        if r.Next? {
          pos := r.pos;
        }
      }
    }

    /** The decoders, with their loops. */
    method DecodePayload(id: Guid) returns (r: Result)
      requires Decoded(id) && pos <= |file|
      ensures r == Decode(listed, file, id, pos)
    {
      if id == CODEC_LIST {
        var p := Past(file, pos, 16);
        var q :- Taken(file, p, 4);
        r := DecodeCodecs(file, q, U32(file, p));
      } else if id == EXTENDED_CONTENT_DESCRIPTION {
        var p :- Taken(file, pos, 2);
        r := DecodeDescriptors(file, p, U16(file, pos));
      } else if id == EXTENDED_STREAM_PROPERTIES {
        r := DecodeStream();
      } else {
        r := Decode(listed, file, id, pos);
      }
    }

    method DecodeStream() returns (r: Result)
      requires pos <= |file|
      ensures r == ExtendedStreamProperties(file, pos)
    {
      var p :- Taken(file, pos, 10);
      var q := PastAll(file, p, [4, 4, 4, 4, 4, 4, 4, 4, 2, 2]);
      var counts :- Taken(file, q, 6);
      var names :- SkipNames(file, counts, [2], U16(file, q + 2));
      r := SkipNames(file, names, [16, 2], U16(file, q + 4));
    }

    method DecodeHeader() returns (r: Result)
      requires Valid()
      modifies this
      ensures Valid() && pos >= old(pos) && old(headers) <= headers
      ensures r == Header(listed, file, old(pos)) && (r.Next? ==> r.pos == pos)
      decreases |file| - pos, 1
    {
      if |file| - pos < 4 {
        return Corrupt;
      }
      var count := U32(file, pos);
      if count == UINT_MAX || |file| - pos < 6 {
        return Corrupt;
      }
      pos := pos + 6;
      ghost var start, wanted := pos, Objects(listed, file, pos, count);
      var i := 0;
      while i < count
        invariant Valid() && start <= pos && old(headers) <= headers && i <= count
        invariant Objects(listed, file, pos, count - i) == wanted
        decreases count - i
      {
        r := DecodeBlock();
        if r.Corrupt? {
          return;
        }
        i := i + 1;
      }
      r := Next(pos);
    }

    /** The walk that `readMetadata` makes: it ends, with no more headers read than there is room for. */
    method ReadMetadata() returns (r: Result)
      requires Valid()
      modifies this
      ensures Valid() && r == Object(listed, file, 0)
      ensures 24 * |headers| <= |file|
    {
      pos, headers := 0, [];
      r := DecodeBlock();
      ApartBound(headers, pos);
    }
  }
}
