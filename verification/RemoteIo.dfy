/** `RemoteIo`: a remote file read through a lazily filled block map. */
module RemoteIo {
  import Basics
  import opened Bytes
  import opened RemoteBlocks
  import opened RemoteDiff
  import M = MemIo

  /** What the remote end offers. A range request may be answered with the range or with the whole file. */
  class Server {
    var file: seq<byte>
    /** The block ranges asked for so far. */
    var requests: seq<(nat, nat)>

    const script: Script

    constructor (content: seq<byte>, script: Script)
      ensures file == content && requests == [] && this.script == script
    {
      file, requests, this.script := content, [], script;
    }

    /** The length of the file, or -1 when the server does not tell. */
    method GetFileLength() returns (length: int)
      ensures length == -1 || length == |file|
    {
      if * {
        length := -1;
      } else {
        length := |file|;
      }
    }

    method GetAll() returns (data: seq<byte>)
      ensures data == file
    {
      data := file;
    }

    method GetDataByRange(low: nat, high: nat, size: nat) returns (data: seq<byte>)
      requires low <= high && Start(low, size) <= Start(high, size) <= |file|
      modifies this`requests
      ensures requests == old(requests) + [(low, high)]
      ensures data == file[Start(low, size)..Stop(|file|, size, high)] || data == file
    {
      requests := requests + [(low, high)];
      if * {
        data := file[Start(low, size)..Stop(|file|, size, high)];
      } else {
        data := file;
      }
    }

    /** Hands data and range to the script. */
    method WriteRemote(data: seq<byte>, from: nat, to: nat)
      modifies this`file
      ensures file == script(old(file), data, from, to)
    {
      file := script(file, data, from, to);
    }
  }

  datatype Opened = Opened | EmptyFile

  class RemoteIo {
    const server: Server
    const blockSize: nat
    var blocks: array<Block>
    var size: nat
    var idx: nat
    var isMalloced: bool
    var eof: bool

    ghost predicate Valid()
      reads this, blocks, server
    {
      && blockSize > 0
      && (isMalloced ==> Ready())
    }

    ghost predicate Ready()
      reads this, blocks, server
    {
      && size == |server.file| && idx <= size
      && Coherent(blocks[..], server.file, blockSize)
    }

    constructor (server: Server, blockSize: nat)
      requires blockSize > 0
      ensures Valid() && !isMalloced && this.server == server && this.blockSize == blockSize
    {
      this.server, this.blockSize := server, blockSize;
      blocks := new Block[0];
      size, idx, isMalloced, eof := 0, 0, false, false;
    }

    /** Copies `data`, the bytes of blocks `first` to `end` (exclusive), into the block map. */
    method FillBlocks(data: seq<byte>, first: nat, ghost end: nat, ghost upto: nat)
      requires blockSize > 0 && first <= end <= blocks.Length
      requires Start(first, blockSize) <= upto == Min(Start(end, blockSize), |server.file|)
      requires first < end ==> Start(end - 1, blockSize) < |server.file|
      requires data == server.file[Start(first, blockSize)..upto]
      modifies blocks
      ensures forall i | first <= i < end :: Holds(blocks[i], server.file, blockSize, i)
      ensures forall i | 0 <= i < blocks.Length && !(first <= i < end) :: blocks[i] == old(blocks[i])
    {
      ghost var before, length, lo := blocks[..], |server.file|, Start(first, blockSize);
      FillStart(server.file, blockSize, first, end);
      var remain: nat, totalRead: nat, iBlock := |data|, 0, first;
      while remain > 0
        invariant first <= iBlock <= end && totalRead + remain == |data|
        invariant lo + totalRead == Min(Start(iBlock, blockSize), length) && (remain == 0 ==> iBlock == end)
        invariant Filling(server.file, blockSize, before, blocks[..], first, iBlock)
      {
        ghost var now := blocks[..];
        var allow := Min(remain, blockSize);
        FillStep(server.file, data, blockSize, lo, upto, end, iBlock, totalRead, allow);
        blocks[iBlock] := Memory(data[totalRead..totalRead + allow]);
        FillOne(server.file, blockSize, before, now, first, iBlock, blocks[iBlock], blocks[..]);
        remain, totalRead, iBlock := remain - allow, totalRead + allow, iBlock + 1;
      }
    }

    /** Skips the blocks at both ends of a range that are already there. */
    method Trim(low: nat, high: nat) returns (lowBlock: nat, highBlock: nat)
      requires low <= high < blocks.Length
      ensures low <= lowBlock <= highBlock <= high
      ensures forall i | low <= i < lowBlock :: !blocks[i].None?
      ensures forall i | highBlock < i <= high :: !blocks[i].None?
      ensures if blocks[highBlock].None? then blocks[lowBlock].None? else lowBlock == highBlock
    {
      lowBlock, highBlock := low, high;
      while !blocks[lowBlock].None? && lowBlock < highBlock
        invariant low <= lowBlock <= high
        invariant forall i | low <= i < lowBlock :: !blocks[i].None?
      {
        lowBlock := lowBlock + 1;
      }
      while !blocks[highBlock].None? && highBlock > lowBlock
        invariant lowBlock <= highBlock <= high
        invariant forall i | highBlock < i <= high :: !blocks[i].None?
      {
        highBlock := highBlock - 1;
      }
    }

    /** One request, and its answer copied into the block map. */
    method Fetch(lowBlock: nat, highBlock: nat) returns (rcount: nat)
      requires Valid() && Ready() && lowBlock <= highBlock < blocks.Length
      modifies blocks, server`requests
      ensures Ready() && Fetched(old(blocks[..]), blocks[..])
      ensures forall i | lowBlock <= i <= highBlock :: blocks[i].Memory?
      ensures rcount > 0 && server.requests == old(server.requests) + [(lowBlock, highBlock)]
    {
      ghost var before, length := blocks[..], |server.file|;
      BlocksCover(length, blockSize, highBlock);
      StartMonotone(lowBlock, highBlock, blockSize);
      var data := server.GetDataByRange(lowBlock, highBlock, blockSize);
      rcount := |data|;
      if rcount == size {
        WholeAnswer(data, server.file, lowBlock, highBlock, blockSize);
        WholeStop(before, server.file, blockSize);
        FillBlocks(data, 0, blocks.Length, length);
        FilledAll(before, blocks[..], server.file, blockSize, 0, blocks.Length);
      } else {
        FillBlocks(data, lowBlock, highBlock + 1, Stop(length, blockSize, highBlock));
        FilledAll(before, blocks[..], server.file, blockSize, lowBlock, highBlock + 1);
      }
    }

    /** Fetches what is missing between two blocks, in one request that starts and ends at a missing block. */
    method PopulateBlocks(low: nat, high: nat) returns (rcount: nat, ghost request: (nat, nat))
      requires Valid() && Ready() && low <= high < blocks.Length
      modifies blocks, server`requests
      ensures Ready() && Fetched(old(blocks[..]), blocks[..])
      ensures forall i | low <= i <= high :: !blocks[i].None?
      ensures rcount == 0 <==> forall i | low <= i <= high :: !old(blocks[i]).None?
      ensures rcount == 0 ==> blocks[..] == old(blocks[..]) && server.requests == old(server.requests)
      ensures rcount > 0 ==> server.requests == old(server.requests) + [request]
                             && IsGap(old(blocks[..]), low, high, request)
    {
      var lowBlock, highBlock := Trim(low, high);
      rcount, request := 0, (lowBlock, highBlock);
      if blocks[highBlock].None? {
        assert IsGap(blocks[..], low, high, request);
        rcount := Fetch(lowBlock, highBlock);
      }
    }

    method Open() returns (r: Opened)
      requires Valid()
      modifies this`blocks, this`size, this`idx, this`isMalloced, this`eof
      ensures Valid() && (r == Opened <==> isMalloced)
      ensures isMalloced ==> idx == 0 && !eof
      ensures old(isMalloced) ==> isMalloced && blocks == old(blocks)
      ensures !old(isMalloced) && isMalloced ==>
                fresh(blocks) && forall i | 0 <= i < blocks.Length :: !blocks[i].Known?
      ensures server.file != [] ==> isMalloced
    {
      Close();
      if isMalloced {
        return Opened;
      }
      var length := server.GetFileLength();
      if length < 0 {
        var data := server.GetAll();
        Allocate(|data|);
        assert data[..] == data;
        CoherentInside(blocks[..], data, blockSize);
        if blocks.Length > 0 {
          BlocksCover(|data|, blockSize, blocks.Length - 1);
        }
        FillBlocks(data, 0, blocks.Length, |data|);
      } else if length == 0 {
        return EmptyFile;
      } else {
        Allocate(length);
      }
      isMalloced, idx, eof := true, 0, false;
      return Opened;
    }

    method Allocate(length: nat)
      requires blockSize > 0 && length == |server.file|
      modifies this`blocks, this`size
      ensures fresh(blocks) && size == length
      ensures Coherent(blocks[..], server.file, blockSize)
      ensures forall i | 0 <= i < blocks.Length :: blocks[i] == None
    {
      size := length;
      blocks := new Block[BlockCount(length, blockSize)](_ => None);
    }

    method Close()
      requires Valid()
      modifies this`idx, this`eof
      ensures Valid()
      ensures if isMalloced then idx == 0 && !eof else idx == old(idx) && eof == old(eof)
    {
      if isMalloced {
        eof, idx := false, 0;
      }
    }

    /** The bytes `[startPos, startPos + count)` of block `i`, zeros for a placeholder. */
    method CopyFromBlock(i: nat, startPos: nat, count: nat, ghost from: nat, ghost to: nat) returns (s: seq<byte>)
      requires Valid() && Ready() && i < blocks.Length && !blocks[i].None?
      requires startPos + count <= blockSize && from == Start(i, blockSize) + startPos && to == from + count <= size
      ensures s == Whole(blocks[..], server.file, blockSize)[from..to]
    {
      SourceShows(blocks[..], server.file, blockSize, i, startPos, startPos + count, from, to);
      s := Source(blocks[i], blockSize)[startPos..startPos + count];
    }

    method Read(rcount: nat) returns (out: seq<byte>)
      requires Valid() && isMalloced
      requires eof || ReadInBounds(size, blockSize, idx, rcount)
      modifies this`idx, this`eof, blocks, server`requests
      ensures Valid() && isMalloced
      ensures old(eof) ==> out == [] && idx == old(idx) && eof && blocks[..] == old(blocks[..])
      ensures !old(eof) ==>
                && idx == After(size, old(idx), rcount) && eof == (idx == size)
                && Fetched(old(blocks[..]), blocks[..])
                && out == Whole(blocks[..], server.file, blockSize)[old(idx)..idx]
      ensures !old(eof) && (forall i | 0 <= i < blocks.Length :: !old(blocks[i]).Known?) ==>
                out == server.file[old(idx)..idx]
    {
      out := [];
      if eof {
        return;
      }
      var allow: nat := Min(rcount, size - idx);
      ReadRange(size, blockSize, idx, rcount);
      var lowBlock, highBlock := idx / blockSize, (idx + allow) / blockSize;
      var rc, _ := PopulateBlocks(lowBlock, highBlock);

      out := CopyOut(lowBlock, allow, highBlock);
      idx := idx + |out|;
      eof := idx == size;
      if forall i | 0 <= i < blocks.Length :: !old(blocks[i]).Known? {
        WholeIsFile(blocks[..], server.file, blockSize);
      }
    }

    /** The copy loop of `read`, over blocks that are all there. */
    method CopyOut(lowBlock: nat, count: nat, ghost highBlock: nat) returns (out: seq<byte>)
      requires Valid() && Ready() && idx + count <= size
      requires lowBlock == idx / blockSize && highBlock == (idx + count) / blockSize < blocks.Length
      requires forall i | lowBlock <= i <= highBlock :: !blocks[i].None?
      ensures out == Whole(blocks[..], server.file, blockSize)[idx..idx + count]
    {
      ghost var shown, end := Whole(blocks[..], server.file, blockSize), idx + count;
      var allow, iBlock, pos := count, lowBlock, idx;
      BlockHolding(idx, blockSize);
      StartIsProduct(lowBlock, blockSize);
      var startPos: nat := idx - lowBlock * blockSize;
      out := [];
      var more := true;
      while more
        invariant idx <= pos <= end && pos + allow == end && out == shown[idx..pos]
        invariant more ==> lowBlock <= iBlock && startPos < blockSize && pos == Start(iBlock, blockSize) + startPos
        invariant !more ==> allow == 0
        decreases if more then allow + 1 else 0
      {
        BlockOfPosition(pos, end, blockSize, iBlock, startPos, highBlock);
        var blockR := Min(allow, blockSize - startPos);
        var next := pos + blockR;
        var piece := CopyFromBlock(iBlock, startPos, blockR, pos, next);
        Basics.JoinSlices(shown, idx, pos, next);
        out := out + piece;
        pos, iBlock, startPos, allow := next, iBlock + 1, 0, allow - blockR;
        more := allow > 0;
      }
    }

    method GetB() returns (r: int)
      requires Valid() && isMalloced
      requires idx < size ==> idx / blockSize < blocks.Length && !blocks[idx / blockSize].Known?
      modifies this`idx, this`eof, blocks, server`requests
      ensures Valid() && isMalloced && Fetched(old(blocks[..]), blocks[..])
      ensures old(idx) == size ==> r == -1 && eof && idx == old(idx)
      ensures old(idx) < size ==> r == server.file[old(idx)] && idx == old(idx) + 1 && eof == old(eof)
    {
      if idx == size {
        eof := true;
        return -1;
      }
      var expected := idx / blockSize;
      var rc, _ := PopulateBlocks(expected, expected);
      BlockHolding(idx, blockSize);
      StartIsProduct(expected, blockSize);
      assert BlockOk(blocks[expected], server.file, blockSize, expected);
      r := blocks[expected].data[idx - expected * blockSize];
      idx := idx + 1;
    }

    /** Never fails: a position outside the file means its end, and only one past it sets the flag. */
    method Seek(offset: int, from: M.Position) returns (failed: bool)
      requires Valid() && isMalloced
      modifies this`idx, this`eof
      ensures Valid() && isMalloced && !failed
      ensures var target := match from { case Cur => old(idx) + offset case Beg => offset case End => size + offset };
              idx == (if 0 <= target <= size then target else size) && eof == (target > size)
    {
      var newIdx: int := 0;
      match from {
        case Cur => newIdx := idx + offset;
        case Beg => newIdx := offset;
        case End => newIdx := size + offset;
      }
      eof := newIdx > size;
      // A negative position wraps to a huge one.
      idx := if newIdx < 0 || newIdx > size then size else newIdx;
      failed := false;
    }

    method PopulateFakeData()
      requires Valid() && isMalloced
      modifies blocks
      ensures Valid() && isMalloced
      ensures forall i | 0 <= i < blocks.Length ::
                blocks[i] == if old(blocks[i]).None? then Known(blockSize) else old(blocks[i])
    {
      for i := 0 to blocks.Length
        invariant forall j | 0 <= j < i ::
                    blocks[j] == if old(blocks[j]).None? then Known(blockSize) else old(blocks[j])
        invariant forall j | i <= j < blocks.Length :: blocks[j] == old(blocks[j])
      {
        if blocks[i].None? {
          blocks[i] := Known(blockSize);
        }
      }
    }

    // ---------- write ----------

    /** Compares a buffer with the data of a block from the front. */
    method CompareForward(buf: seq<byte>, b: Block) returns (n: nat, differ: bool)
      requires |buf| <= |b.Shown()|
      ensures n == CommonPrefix(buf, b.Shown()) && differ == (n < |buf|)
    {
      ghost var shown := b.Shown();
      n, differ := 0, false;
      while n < |buf| && !differ
        invariant n <= |buf| && buf[..n] == shown[..n]
        invariant differ ==> n < |buf| && buf[n] != shown[n]
        decreases |buf| - n, !differ
      {
        if (b.Memory? && buf[n] != b.data[n]) || (b.Known? && buf[n] != 0) {
          differ := true;
        } else {
          n := n + 1;
        }
      }
      CommonPrefixUnique(buf, shown, n);
    }

    method CompareBackward(buf: seq<byte>, b: Block) returns (n: nat, differ: bool)
      requires |buf| == |b.Shown()|
      ensures n == CommonSuffix(buf, b.Shown()) && differ == (n < |buf|)
    {
      ghost var shown := b.Shown();
      n, differ := 0, false;
      while n < |buf| && !differ
        invariant n <= |buf|
        invariant forall j | |buf| - n <= j < |buf| :: buf[j] == shown[j]
        invariant differ ==> n < |buf| && buf[|buf| - 1 - n] != shown[|buf| - 1 - n]
        decreases |buf| - n, !differ
      {
        var last := |buf| - 1 - n;
        if (b.Memory? && buf[last] != b.data[last]) || (b.Known? && buf[last] != 0) {
          differ := true;
        } else {
          n := n + 1;
        }
      }
      CommonSuffixUnique(buf, shown, n);
    }

    /** One turn of the first loop: the next block against the next bytes of the source. */
    method CompareNext(src: M.MemIo, i: nat, left: nat, ghost c: seq<byte>, ghost bs: seq<Block>)
      returns (next: nat, differ: bool)
      requires src.Valid() && src.Contents() == c && blocks[..] == bs
      requires i < |bs| && !src.eof && Prefixing(c, bs, i, left, false, false, src.idx)
      modifies src`idx, src`eof
      ensures src.Valid() && src.Contents() == c
      ensures Prefixing(c, bs, i + 1, next, differ, src.eof, src.idx)
    {
      ghost var hi := |ShownUpto(bs, i + 1)|;
      ShownBlock(bs, i, left, hi);
      ghost var to := left + Min(hi - left, src.size - left);
      M.AvailableSlice(src.Abs(), |bs[i].Shown()|, left, to);
      var buf := src.Read(|blocks[i].Shown()|);
      var n;
      n, differ := CompareForward(buf, blocks[i]);
      next := left + n;
      PrefixInBlock(c, Shown(bs), bs[i].Shown(), left, hi, to, buf, n, next);
    }

    /** The first loop of `write`. */
    method FindLeft(src: M.MemIo) returns (left: nat)
      requires src.Valid()
      modifies src`idx, src`eof
      ensures src.Valid() && src.Contents() == old(src.Contents())
      ensures left == Left(src.Contents(), blocks[..]) <= src.size
    {
      ghost var c, bs := src.Contents(), blocks[..];
      var failed := src.Seek(0, M.Beg);
      var blockIndex := 0;
      var findDiff := false;
      left := 0;
      while blockIndex < blocks.Length && !src.eof && !findDiff
        invariant src.Valid() && src.Contents() == c
        invariant Prefixing(c, bs, blockIndex, left, findDiff, src.eof, src.idx)
      {
        left, findDiff := CompareNext(src, blockIndex, left, c, bs);
        blockIndex := blockIndex + 1;
      }
      PrefixFound(c, bs, blockIndex, left, findDiff, src.eof, src.idx);
    }

    /** Compares block `i` with the bytes `[from, to)` of the source, if the source reaches back that far. */
    method CompareBlock(src: M.MemIo, i: nat, right: nat, ghost from: int, ghost to: int)
      returns (n: nat, differ: bool, failed: bool)
      requires src.Valid() && i < blocks.Length
      requires right <= src.size && to == src.size - right && from == to - |blocks[i].Shown()|
      modifies src`idx, src`eof
      ensures src.Valid() && src.Contents() == old(src.Contents())
      ensures failed <==> from < 0
      ensures failed ==> n == 0 && differ
      ensures !failed ==> n == CommonSuffix(src.Contents()[from..to], blocks[i].Shown()) && differ == (n < to - from)
    {
      n, differ := 0, true;
      failed := src.Seek(-(|blocks[i].Shown()| + right), M.End);
      if !failed {
        ghost var f := src.Abs();
        var buf := src.Read(|blocks[i].Shown()|);
        M.AvailableSlice(f, |blocks[i].Shown()|, from, to);
        n, differ := CompareBackward(buf, blocks[i]);
      }
    }

    /** One turn of the second loop: block `i` against the bytes of the source that end `right` before its end. */
    method ComparePrevious(src: M.MemIo, i: nat, right: nat, ghost c: seq<byte>, ghost bs: seq<Block>)
      returns (next: nat, stop: bool)
      requires src.Valid() && src.Contents() == c && blocks[..] == bs
      requires i < |bs| && Matching(c, bs, i + 1, right)
      modifies src`idx, src`eof
      ensures src.Valid() && src.Contents() == c
      ensures if stop then next == Right(c, bs) else Matching(c, bs, i, next)
    {
      ghost var to := |c| - right;
      ghost var from := to - |bs[i].Shown()|;
      var n, failed;
      n, stop, failed := CompareBlock(src, i, right, from, to);
      next := right + n;
      if failed {
        MatchStop(c, bs, i, right);
      } else {
        BlockMatched(c, bs, i, right, from, to, n, next);
      }
    }

    /** The second loop of `write`. */
    method FindRight(src: M.MemIo) returns (right: nat)
      requires src.Valid()
      modifies src`idx, src`eof
      ensures src.Valid() && src.Contents() == old(src.Contents())
      ensures right == Right(src.Contents(), blocks[..]) <= src.size
    {
      ghost var c, bs := src.Contents(), blocks[..];
      var blockIndex: nat := blocks.Length;
      var findDiff := false;
      right := 0;
      MatchStart(c, bs);
      while blockIndex > 0 && right < src.size && !findDiff
        invariant src.Valid() && src.Contents() == c
        invariant if findDiff then right == Right(c, bs) else Matching(c, bs, blockIndex, right)
      {
        blockIndex := blockIndex - 1;
        right, findDiff := ComparePrevious(src, blockIndex, right, c, bs);
      }
      if !findDiff {
        MatchEnd(c, bs, blockIndex, right);
      }
    }

    /** The last part of `write`: one replacement, if there is a buffer for it. */
    method Submit(src: M.MemIo, left: nat, right: nat) returns (o: Outcome)
      requires src.Valid() && src.size <= MAX_VECTOR
      requires left == Left(src.Contents(), blocks[..]) <= src.size
      requires right == Right(src.Contents(), blocks[..]) <= src.size
      modifies src`idx, src`eof, server`file
      ensures src.Valid() && src.Contents() == old(src.Contents())
      ensures o == Submission(src.Contents(), blocks[..], size)
      ensures server.file == Remote(server.script, old(server.file), o)
    {
      var dataSize := DataSize(src.size, left, right);
      ghost var source, end := src.Contents(), left + dataSize;
      SubmissionIs(source, blocks[..], size, left, right, dataSize, end);
      if dataSize == 0 {
        return Unsent;
      }
      if dataSize > MAX_VECTOR {
        return LengthError;
      }
      var failed := src.Seek(left, M.Beg);
      ghost var f := src.Abs();
      var data := src.Read(dataSize);
      M.AvailableSlice(f, dataSize, left, end);
      o := Patched(data, left, ToOffset(size, right));
      server.WriteRemote(data, o.from, o.to);
      assert src.Contents() == source;
    }

    /** Compares the source with the block map and submits the part that differs. */
    method WriteFrom(src: M.MemIo) returns (o: Outcome)
      requires Valid() && isMalloced && src.Valid() && src.size <= MAX_VECTOR
      modifies src`idx, src`eof, server`file
      ensures src.Valid() && src.Contents() == old(src.Contents())
      ensures o == Submission(src.Contents(), blocks[..], size)
      ensures server.file == Remote(server.script, old(server.file), o)
      ensures !o.Patched? ==> Valid()
    {
      var left := FindLeft(src);
      var right := FindRight(src);
      o := Submit(src, left, right);
    }
  }

  /** The first `i` blocks have been compared with the source: they agree with it up to `left`, where they differ,
      or the source ends, or the next block starts. */
  ghost predicate Prefixing(c: seq<byte>, blocks: seq<Block>, i: nat, left: nat, differ: bool, eof: bool, idx: nat) {
    var s := Shown(blocks);
    && i <= |blocks| && left <= |c| && left <= |s| && c[..left] == s[..left]
    && (differ ==> left < |c| && left < |s| && c[left] != s[left])
    && (!differ && eof ==> left == |c|)
    && (!differ && !eof ==> left == idx == |ShownUpto(blocks, i)|)
  }

  lemma PrefixFound(c: seq<byte>, blocks: seq<Block>, i: nat, left: nat, differ: bool, eof: bool, idx: nat)
    requires Prefixing(c, blocks, i, left, differ, eof, idx) && (i == |blocks| || eof || differ)
    ensures left == Left(c, blocks)
  {
    CommonPrefixUnique(c, Shown(blocks), left);
  }

  /** Comparing one block, read at `left`, extends the common prefix. */
  lemma PrefixInBlock(c: seq<byte>, s: seq<byte>, block: seq<byte>, left: nat, hi: nat, to: nat, buf: seq<byte>,
                      n: nat, next: nat)
    requires left <= |c| && left <= hi <= |s| && c[..left] == s[..left] && block == s[left..hi]
    requires to == Min(|c|, hi) && buf == c[left..to] && n == CommonPrefix(buf, block) && next == left + n
    ensures next <= |c| && next <= hi && c[..next] == s[..next]
    ensures n < |buf| ==> next < |c| && next < hi && c[next] != s[next]
    ensures n == |buf| ==> next == Min(|c|, hi)
  {
    CommonPrefixIs(buf, block);
    SliceOfSlice(c, left, to, 0, n, left, next);
    SliceOfSlice(s, left, hi, 0, n, left, next);
    PrefixExtends(c, s, left, n, next);
  }

  lemma BlockOfPosition(pos: nat, end: nat, size: nat, i: nat, startPos: nat, high: nat)
    requires 0 < size && pos <= end && pos == Start(i, size) + startPos && high == end / size
    ensures i <= high
  {
    BlockHolding(end, size);
    if high < i {
      StartMonotone(high, i, size);
    }
  }

  /** The blocks from `first` to `i` are filled, all others are as they were. */
  ghost predicate Filling(file: seq<byte>, size: nat, before: seq<Block>, now: seq<Block>, first: nat, i: nat) {
    && |now| == |before| && first <= i <= |now|
    && (forall j | first <= j < i :: Holds(now[j], file, size, j))
    && (forall j | 0 <= j < |now| && !(first <= j < i) :: now[j] == before[j])
  }

  lemma FillStart(file: seq<byte>, size: nat, first: nat, end: nat)
    requires first <= end && (first < end ==> Start(end - 1, size) < |file|)
    ensures Start(first, size) <= Start(end, size)
    ensures first < end ==> Start(first, size) < |file| && Start(first, size) + size <= Start(end, size)
  {
    StartMonotone(first, end, size);
    if first < end {
      StartMonotone(first, end - 1, size);
    }
  }

  lemma FillOne(file: seq<byte>, size: nat, before: seq<Block>, now: seq<Block>, first: nat, i: nat, b: Block,
                next: seq<Block>)
    requires Filling(file, size, before, now, first, i) && i < |now| && Holds(b, file, size, i)
    requires |next| == |now| && next[i] == b && forall j | 0 <= j < |now| && j != i :: next[j] == now[j]
    ensures Filling(file, size, before, next, first, i + 1)
  {
  }

  /** The bytes that go into block `i`, and how far the copy has come after it. */
  lemma FillStep(file: seq<byte>, data: seq<byte>, size: nat, lo: nat, upto: nat, end: nat, i: nat, read: nat,
                 allow: nat)
    requires 0 < size && i <= end && lo <= upto == Min(Start(end, size), |file|) && data == file[lo..upto]
    requires i < end ==> Start(end - 1, size) < |file|
    requires lo + read == Min(Start(i, size), |file|) && read < |data| && allow == Min(|data| - read, size)
    ensures i < end && read + allow <= |data|
    ensures Holds(Memory(data[read..read + allow]), file, size, i)
    ensures lo + read + allow == Min(Start(i + 1, size), |file|)
    ensures read + allow == |data| ==> i + 1 == end
  {
    assert i < end;
    StartMonotone(i, end - 1, size);
    StartMonotone(i + 1, end, size);
    SliceOfSlice(file, lo, upto, read, read + allow, Start(i, size), Stop(|file|, size, i));
    if i + 1 < end {
      StartMonotone(i + 1, end - 1, size);
    }
  }

  /** The request spans from the first to the last missing block of the range. */
  ghost predicate IsGap(blocks: seq<Block>, low: nat, high: nat, request: (nat, nat))
    requires low <= high < |blocks|
  {
    && low <= request.0 <= request.1 <= high
    && blocks[request.0].None? && blocks[request.1].None?
    && (forall i | low <= i < request.0 :: !blocks[i].None?)
    && (forall i | request.1 < i <= high :: !blocks[i].None?)
  }

  /** All blocks end with the file. */
  lemma WholeStop(blocks: seq<Block>, file: seq<byte>, size: nat)
    requires Coherent(blocks, file, size) && blocks != []
    ensures Start(0, size) == 0 && |file| == Min(Start(|blocks|, size), |file|) && Start(|blocks| - 1, size) < |file|
    ensures file[Start(0, size)..|file|] == file
  {
    CoherentInside(blocks, file, size);
    BlocksCover(|file|, size, |blocks| - 1);
  }

  /** Filling some blocks keeps the map coherent. */
  lemma FilledAll(before: seq<Block>, after: seq<Block>, file: seq<byte>, size: nat, first: nat, end: nat)
    requires Coherent(before, file, size) && |before| == |after| && first <= end <= |after|
    requires forall i | first <= i < end :: Holds(after[i], file, size, i)
    requires forall i | 0 <= i < |after| && !(first <= i < end) :: after[i] == before[i]
    ensures Coherent(after, file, size) && Fetched(before, after)
    ensures forall i | first <= i < end :: after[i].Memory?
  {
  }

  /** An answer as long as the file is the whole file, even when it answers a range request. */
  lemma WholeAnswer(data: seq<byte>, file: seq<byte>, low: nat, high: nat, size: nat)
    requires low <= high && Start(low, size) <= Start(high, size) < |file|
    requires data == file[Start(low, size)..Stop(|file|, size, high)] || data == file
    requires |data| == |file|
    ensures data == file
  {
  }
}
