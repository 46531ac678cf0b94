/** What a write sends while parts of the remote file are only placeholders, and what becomes of the file. */
module RemotePlaceholders {
  import Basics
  import opened Bytes
  import opened RemoteBlocks
  import opened RemoteDiff

  /** How far the bytes that are compared go beyond the end of the file: a placeholder always has a whole block. */
  function Pad(blocks: seq<Block>, length: nat, size: nat): nat {
    var end := Start(|blocks|, size);
    if blocks != [] && blocks[|blocks| - 1].Known? && length < end then end - length else 0
  }

  lemma ZerosSplit(m: nat, n: nat, k: nat)
    requires k == m + n
    ensures Zeros(k) == Zeros(m) + Zeros(n)
  {
  }

  /** A block that is not the last is compared as it is read. */
  lemma ShownPiece(blocks: seq<Block>, file: seq<byte>, size: nat, i: nat)
    requires Coherent(blocks, file, size) && i + 1 < |blocks| && !blocks[i].None?
    ensures Start(i, size) <= |file| && Piece(blocks[i], file, size, i) == blocks[i].Shown()
  {
    BlocksCover(|file|, size, i);
    BlocksCover(|file|, size, i + 1);
    assert BlockOk(blocks[i], file, size, i);
  }

  lemma {:induction false} ShownIsView(blocks: seq<Block>, file: seq<byte>, size: nat, k: nat)
    requires Coherent(blocks, file, size) && k < |blocks|
    requires forall i | 0 <= i < |blocks| :: !blocks[i].None?
    ensures Inside(blocks, file, size, k) && ShownUpto(blocks, k) == View(blocks, file, size, k)
  {
    if k > 0 {
      var i := k - 1;
      ShownIsView(blocks, file, size, i);
      ShownPiece(blocks, file, size, i);
      SamePiece(blocks, file, size, i, View(blocks, file, size, i), blocks[i].Shown());
    }
  }

  lemma SamePiece(blocks: seq<Block>, file: seq<byte>, size: nat, i: nat, v: seq<byte>, p: seq<byte>)
    requires i < |blocks| && Inside(blocks, file, size, i) && Inside(blocks, file, size, i + 1)
    requires ShownUpto(blocks, i) == v == View(blocks, file, size, i)
    requires blocks[i].Shown() == p == Piece(blocks[i], file, size, i)
    ensures ShownUpto(blocks, i + 1) == View(blocks, file, size, i + 1)
  {
  }

  /** The last block: a placeholder is compared as a whole block of zeros, whatever of it is in the file. */
  lemma ShownLast(blocks: seq<Block>, file: seq<byte>, size: nat, i: nat, length: nat)
    requires Coherent(blocks, file, size) && i + 1 == |blocks| && !blocks[i].None? && length == |file|
    ensures Start(i, size) <= length
    ensures blocks[i].Shown() == Piece(blocks[i], file, size, i) + Zeros(Pad(blocks, length, size))
  {
    BlocksCover(length, size, i);
    BlocksCover(length, size, i + 1);
    assert BlockOk(blocks[i], file, size, i);
    if blocks[i].Known? {
      ZerosSplit(length - Start(i, size), Pad(blocks, length, size), size);
    }
  }

  /** The bytes that are compared are the file as a reader is shown it, and zeros up to the end of the last block. */
  lemma ShownIsWhole(blocks: seq<Block>, file: seq<byte>, size: nat)
    requires Coherent(blocks, file, size)
    requires forall i | 0 <= i < |blocks| :: !blocks[i].None?
    ensures Shown(blocks) == Whole(blocks, file, size) + Zeros(Pad(blocks, |file|, size))
  {
    CoherentInside(blocks, file, size);
    if blocks != [] {
      var i := |blocks| - 1;
      ShownIsView(blocks, file, size, i);
      ShownLast(blocks, file, size, i, |file|);
      Basics.Regroup(View(blocks, file, size, i), Piece(blocks[i], file, size, i), Zeros(Pad(blocks, |file|, size)));
    }
  }

  // ---------- the patched file ----------

  /** The bytes of a patch: from the front of the file, from the source, from the end of the file. */
  lemma PatchedAt(file: seq<byte>, source: seq<byte>, shown: seq<byte>, left: nat, right: nat, cut: nat, i: nat)
    requires left <= |file| && right <= |file| && left <= |shown| && right <= |shown|
    requires left + right <= |source| && cut == |source| - right && i < |source|
    requires source[..left] == shown[..left] && Tail(source, right) == Tail(shown, right)
    ensures var remote := file[..left] + source[left..cut] + file[|file| - right..];
            && |remote| == |source|
            && (i < left ==> remote[i] == file[i] && source[i] == shown[i])
            && (left <= i < cut ==> remote[i] == source[i])
            && (i >= cut ==>
                  && remote[i] == file[|file| - |source| + i]
                  && source[i] == shown[|shown| - |source| + i])
  {
    if i < left {
      assert source[i] == source[..left][i] == shown[..left][i];
    } else if i >= cut {
      var k := i - cut;
      assert source[i] == Tail(source, right)[k] == Tail(shown, right)[k];
    }
  }

  /** Every block has been fetched or is a placeholder. */
  ghost predicate Told(blocks: seq<Block>, file: seq<byte>, size: nat, source: seq<byte>) {
    && Coherent(blocks, file, size) && (forall i | 0 <= i < |blocks| :: !blocks[i].None?)
    && |source| <= MAX_VECTOR && |file| <= MAX_VECTOR
  }

  lemma OffsetCases(length: nat, right: nat)
    requires length <= MAX_VECTOR && right <= MAX_VECTOR
    ensures right <= length ==> ToOffset(length, right) == length - right
    ensures right > length ==> ToOffset(length, right) > length
  {
    if right > length {
      assert (length - right) % SIZE_T == (SIZE_T + length - right) % SIZE_T;
    }
  }

  /** The submission, case by case. */
  lemma SentIs(blocks: seq<Block>, file: seq<byte>, size: nat, source: seq<byte>, left: nat, right: nat, o: Outcome)
    requires Told(blocks, file, size, source) && o == Submission(source, blocks, |file|)
    requires left == Left(source, blocks) && right == Right(source, blocks)
    ensures left + right < |source| ==> o == Patched(source[left..|source| - right], left, ToOffset(|file|, right))
    ensures left + right == |source| ==> o == Unsent
    ensures left + right > |source| ==> o == LengthError
  {
    DataSizeCases(|source|, left, right);
    SubmissionIs(source, blocks, |file|, left, right, DataSize(|source|, left, right),
                 left + DataSize(|source|, left, right));
  }

  // ---------- the length of the result ----------

  /** The remote file ends with the source's length exactly when neither prefix nor suffix goes beyond its end, where
      only zeros of a placeholder are compared; or if nothing is sent and it had that length. */
  predicate LengthKept(length: nat, n: nat, left: nat, right: nat) {
    if left + right < n then left <= length && right <= length else length == n
  }

  lemma LengthKeptIff(script: Script, blocks: seq<Block>, file: seq<byte>, size: nat, source: seq<byte>, left: nat,
                      right: nat, o: Outcome)
    requires Clips(script) && Told(blocks, file, size, source) && o == Submission(source, blocks, |file|)
    requires left == Left(source, blocks) && right == Right(source, blocks)
    ensures |Remote(script, file, o)| == |source| <==> LengthKept(|file|, |source|, left, right)
  {
    SentIs(blocks, file, size, source, left, right, o);
    OffsetCases(|file|, right);
    if left + right < |source| {
      SplicedLength(file, source[left..|source| - right], left, ToOffset(|file|, right));
    }
  }

  lemma SplicedLength(file: seq<byte>, data: seq<byte>, from: nat, to: nat)
    ensures |Spliced(file, data, from, to)| == Min(from, |file|) + |data| + |file| - Min(to, |file|)
  {
  }

  // ---------- its bytes ----------

  /** A byte that a reader is shown, or zero behind the end. */
  function ByteOf(whole: seq<byte>, j: nat): byte {
    if j < |whole| then whole[j] else 0
  }

  /** The remote file has the source's length, keeps its own bytes at both ends and has the source's in between. The
      source has at both ends what a reader is shown, but behind the data moved by the zeros beyond the end. */
  ghost predicate Kept(file: seq<byte>, source: seq<byte>, whole: seq<byte>, pad: nat, left: nat, right: nat,
                       remote: seq<byte>) {
    && |remote| == |source| && |whole| == |file| && left <= |file| && right <= |file| && left + right <= |source|
    && (forall i | 0 <= i < left :: remote[i] == file[i] && source[i] == whole[i])
    && (forall i | left <= i < |source| - right :: remote[i] == source[i])
    && (forall i | |source| - right <= i < |source| ::
          && remote[i] == file[|file| - |source| + i]
          && source[i] == ByteOf(whole, |file| - |source| + i + pad))
  }

  /** With placeholders a write keeps what was not sent, whenever it does not fail, the length is right, and prefix and
      suffix do not overlap in the remote file or the script keeps both ends even for a reversed range. */
  lemma WriteKeepsUnsent(script: Script, blocks: seq<Block>, file: seq<byte>, size: nat, source: seq<byte>, left: nat,
                         right: nat, o: Outcome)
    requires Replaces(script) && Told(blocks, file, size, source) && o == Submission(source, blocks, |file|)
    requires left == Left(source, blocks) && right == Right(source, blocks)
    requires left + right <= |source| && LengthKept(|file|, |source|, left, right)
    requires left + right <= |file| || Clips(script)
    ensures Kept(file, source, Whole(blocks, file, size), Pad(blocks, |file|, size), left, right,
                 Remote(script, file, o))
  {
    RemoteIs(script, blocks, file, size, source, left, right, o);
    CommonPrefixIs(source, Shown(blocks));
    CommonSuffixPart(source, Shown(blocks), right);
    ShownBytes(blocks, file, size);
    PatchBytes(file, source, Whole(blocks, file, size), Shown(blocks), Pad(blocks, |file|, size), left, right,
               Remote(script, file, o));
  }

  lemma RemoteIs(script: Script, blocks: seq<Block>, file: seq<byte>, size: nat, source: seq<byte>, left: nat,
                 right: nat, o: Outcome)
    requires Replaces(script) && Told(blocks, file, size, source) && o == Submission(source, blocks, |file|)
    requires left == Left(source, blocks) && right == Right(source, blocks)
    requires left + right <= |source| && LengthKept(|file|, |source|, left, right)
    requires left + right <= |file| || Clips(script)
    ensures left <= |file| && right <= |file|
    ensures Remote(script, file, o) == file[..left] + source[left..|source| - right] + file[|file| - right..]
  {
    SentIs(blocks, file, size, source, left, right, o);
    OffsetCases(|file|, right);
  }

  /** What is compared: what a reader is shown, and zeros behind it. */
  ghost predicate Compared(file: seq<byte>, whole: seq<byte>, shown: seq<byte>, pad: nat) {
    && |whole| == |file| && |shown| == |file| + pad
    && forall k | 0 <= k < |shown| :: shown[k] == ByteOf(whole, k)
  }

  lemma PatchBytes(file: seq<byte>, source: seq<byte>, whole: seq<byte>, shown: seq<byte>, pad: nat, left: nat,
                   right: nat, remote: seq<byte>)
    requires Compared(file, whole, shown, pad) && left <= |file| && right <= |file| && left + right <= |source|
    requires source[..left] == shown[..left] && Tail(source, right) == Tail(shown, right)
    requires remote == file[..left] + source[left..|source| - right] + file[|file| - right..]
    ensures Kept(file, source, whole, pad, left, right, remote)
  {
    var cut := |source| - right;
    forall i | 0 <= i < left ensures remote[i] == file[i] && source[i] == whole[i] {
      PatchedAt(file, source, shown, left, right, cut, i);
    }
    forall i | left <= i < cut ensures remote[i] == source[i] {
      PatchedAt(file, source, shown, left, right, cut, i);
    }
    forall i | cut <= i < |source|
      ensures remote[i] == file[|file| - |source| + i] && source[i] == ByteOf(whole, |file| - |source| + i + pad)
    {
      PatchedAt(file, source, shown, left, right, cut, i);
    }
  }

  lemma ShownBytes(blocks: seq<Block>, file: seq<byte>, size: nat)
    requires Coherent(blocks, file, size)
    requires forall i | 0 <= i < |blocks| :: !blocks[i].None?
    ensures Compared(file, Whole(blocks, file, size), Shown(blocks), Pad(blocks, |file|, size))
  {
    ShownIsWhole(blocks, file, size);
  }

  // ---------- when a write does what it should ----------

  /** The byte is the source's, or it was kept at its end of the file from a placeholder, where the source has zero. */
  ghost predicate ByteServed(blocks: seq<Block>, file: seq<byte>, size: nat, source: seq<byte>, left: nat, right: nat,
                             remote: seq<byte>, i: nat)
    requires size > 0 && i < |remote| == |source|
  {
    || remote[i] == source[i]
    || (source[i] == 0 && i < left && remote[i] == ByteOf(file, i) && Hidden(blocks, size, i))
    || (source[i] == 0 && i >= |source| - right && |file| - |source| + i >= 0
        && remote[i] == ByteOf(file, |file| - |source| + i) && Hidden(blocks, size, |file| - |source| + i))
  }

  ghost predicate Serves(blocks: seq<Block>, file: seq<byte>, size: nat, source: seq<byte>, left: nat, right: nat,
                         remote: seq<byte>)
    requires size > 0
  {
    && |remote| == |source|
    && forall i | 0 <= i < |source| :: ByteServed(blocks, file, size, source, left, right, remote, i)
  }

  /** The byte stays the same when it is moved by `pad`, or is in a placeholder, and a zero falls on it. */
  ghost predicate ByteMoves(blocks: seq<Block>, file: seq<byte>, size: nat, whole: seq<byte>, pad: nat, j: nat)
    requires size > 0 && j < |file|
  {
    ByteOf(whole, j + pad) == file[j] || (ByteOf(whole, j + pad) == 0 && Hidden(blocks, size, j))
  }

  /** The end that is kept stays the same when it is moved by the zeros beyond the end of the file, but for bytes in
      placeholders, on which a zero may fall. */
  ghost predicate EndMoves(blocks: seq<Block>, file: seq<byte>, size: nat, right: nat)
    requires Coherent(blocks, file, size)
  {
    var whole, pad := Whole(blocks, file, size), Pad(blocks, |file|, size);
    forall j | 0 <= j < |file| && |file| - right <= j :: ByteMoves(blocks, file, size, whole, pad, j)
  }

  /** A write with placeholders returns and does what it should exactly when prefix and suffix do not overlap in the
      source, the length comes out right, and the end that is kept may be moved. */
  lemma WriteServesIff(script: Script, blocks: seq<Block>, file: seq<byte>, size: nat, source: seq<byte>, left: nat,
                       right: nat, o: Outcome)
    requires Replaces(script) && Told(blocks, file, size, source) && o == Submission(source, blocks, |file|)
    requires left == Left(source, blocks) && right == Right(source, blocks)
    requires left + right <= |file| || Clips(script)
    ensures !o.LengthError? && Serves(blocks, file, size, source, left, right, Remote(script, file, o))
      <==> left + right <= |source| && LengthKept(|file|, |source|, left, right) && EndMoves(blocks, file, size, right)
  {
    var remote := Remote(script, file, o);
    SentIs(blocks, file, size, source, left, right, o);
    if left + right <= |source| {
      if LengthKept(|file|, |source|, left, right) {
        WriteKeepsUnsent(script, blocks, file, size, source, left, right, o);
        KeptServesIff(blocks, file, size, source, left, right, remote);
      } else if left + right == |source| {
        assert |remote| != |source|;
      } else {
        LengthKeptIff(script, blocks, file, size, source, left, right, o);
      }
    }
  }

  lemma KeptServesIff(blocks: seq<Block>, file: seq<byte>, size: nat, source: seq<byte>, left: nat, right: nat,
                      remote: seq<byte>)
    requires Coherent(blocks, file, size)
    requires Kept(file, source, Whole(blocks, file, size), Pad(blocks, |file|, size), left, right, remote)
    ensures Serves(blocks, file, size, source, left, right, remote) <==> EndMoves(blocks, file, size, right)
  {
    var whole, pad, shift := Whole(blocks, file, size), Pad(blocks, |file|, size), |file| - |source|;
    forall i | 0 <= i < |source| - right ensures ByteServed(blocks, file, size, source, left, right, remote, i) {
      if i < left {
        WholeByte(blocks, file, size, i);
      }
    }
    forall i | |source| - right <= i < |source|
      ensures ByteServed(blocks, file, size, source, left, right, remote, i)
         <==> ByteMoves(blocks, file, size, whole, pad, i + shift)
    {
      KeptByte(blocks, file, size, source, whole, pad, left, right, remote, i, i + shift);
    }
    if Serves(blocks, file, size, source, left, right, remote) {
      forall j | 0 <= j < |file| && |file| - right <= j ensures ByteMoves(blocks, file, size, whole, pad, j) {
        assert ByteServed(blocks, file, size, source, left, right, remote, j - shift);
      }
    }
  }

  lemma KeptByte(blocks: seq<Block>, file: seq<byte>, size: nat, source: seq<byte>, whole: seq<byte>, pad: nat,
                 left: nat, right: nat, remote: seq<byte>, i: nat, j: nat)
    requires size > 0 && Kept(file, source, whole, pad, left, right, remote)
    requires |source| - right <= i < |source| && j == i + |file| - |source|
    ensures ByteServed(blocks, file, size, source, left, right, remote, i)
       <==> ByteMoves(blocks, file, size, whole, pad, j)
  {
  }

  /** Without zeros beyond the end of the file the end may always be moved. */
  lemma UnpaddedMoves(blocks: seq<Block>, file: seq<byte>, size: nat, right: nat)
    requires Coherent(blocks, file, size) && Pad(blocks, |file|, size) == 0
    ensures EndMoves(blocks, file, size, right)
  {
    forall j | 0 <= j < |file| ensures ByteMoves(blocks, file, size, Whole(blocks, file, size), 0, j) {
      WholeByte(blocks, file, size, j);
    }
  }

  /** With every block in memory, doing what it should means bringing the file to the source. */
  lemma ServesFetched(blocks: seq<Block>, file: seq<byte>, size: nat, source: seq<byte>, left: nat, right: nat,
                      remote: seq<byte>)
    requires Coherent(blocks, file, size) && forall i | 0 <= i < |blocks| :: !blocks[i].Known?
    ensures Serves(blocks, file, size, source, left, right, remote) <==> remote == source
  {
    if Serves(blocks, file, size, source, left, right, remote) {
      forall i | 0 <= i < |source| ensures remote[i] == source[i] {
        assert ByteServed(blocks, file, size, source, left, right, remote, i);
      }
    }
  }

  // ---------- writes that do not ----------

  lemma PaddedShown(blocks: seq<Block>, file: seq<byte>)
    requires blocks == [Memory([1, 2]), Known(2)] && file == [1, 2, 3]
    ensures Coherent(blocks, file, 2) && Whole(blocks, file, 2) == [1, 2, 0] && Shown(blocks) == [1, 2, 0, 0]
  {
    assert Start(1, 2) == 2 && Start(2, 2) == 4;
    assert forall i | 0 <= i < 2 :: BlockOk(blocks[i], file, 2, i);
    assert Zeros(2) == [0, 0] && ShownUpto(blocks, 1) == [1, 2];
    assert ShownUpto(blocks, 2) == [1, 2] + [0, 0];
    ShownIsWhole(blocks, file, 2);
    assert Shown(blocks)[..3] == Whole(blocks, file, 2);
  }

  lemma PaddedLeftRight(source: seq<byte>, blocks: seq<Block>)
    requires blocks == [Memory([1, 2]), Known(2)] && source == [7, 1, 2, 0, 0] && Shown(blocks) == [1, 2, 0, 0]
    ensures Left(source, blocks) == 0 && Right(source, blocks) == 4
  {
    CommonPrefixUnique(source, Shown(blocks), 0);
    assert Tail(source, 4) == Shown(blocks) == Tail(Shown(blocks), 4);
    CommonSuffixUnique(source, Shown(blocks), 4);
    ReachAtLeast(blocks, 2, 5);
  }

  /** A file of three bytes in blocks of two, whose last block is a placeholder: one byte put in front makes the suffix
      four bytes long, longer than the file, and the remote file is left with that one byte. */
  lemma PaddingLost(script: Script, blocks: seq<Block>, file: seq<byte>, source: seq<byte>)
    requires Clips(script) && blocks == [Memory([1, 2]), Known(2)] && file == [1, 2, 3] && source == [7, 1, 2, 0, 0]
    ensures Coherent(blocks, file, 2) && Whole(blocks, file, 2) == [1, 2, 0]
    ensures Submission(source, blocks, 3) == Patched([7], 0, SIZE_T - 1)
    ensures Remote(script, file, Submission(source, blocks, 3)) == [7]
  {
    PaddedShown(blocks, file);
    PaddedLeftRight(source, blocks);
    SentIs(blocks, file, 2, source, 0, 4, Submission(source, blocks, 3));
    assert source[0..1] == [7] && ToOffset(3, 4) == SIZE_T - 1;
  }

  lemma ChangedShown(blocks: seq<Block>, file: seq<byte>, source: seq<byte>)
    requires blocks == [Memory([1, 2, 5]), Known(3)] && file == [1, 2, 5, 3] && source == [7, 2, 0, 0]
    ensures Coherent(blocks, file, 3) && Shown(blocks) == [1, 2, 5, 0, 0, 0] && Pad(blocks, 4, 3) == 2
    ensures Whole(blocks, file, 3) == [1, 2, 5, 0]
  {
    assert Start(1, 3) == 3 && Start(2, 3) == 6;
    assert forall i | 0 <= i < 2 :: BlockOk(blocks[i], file, 3, i);
    assert Zeros(3) == [0, 0, 0] && ShownUpto(blocks, 1) == [1, 2, 5];
    assert ShownUpto(blocks, 2) == [1, 2, 5] + [0, 0, 0];
    ShownIsWhole(blocks, file, 3);
    assert Shown(blocks)[..4] == Whole(blocks, file, 3);
  }

  lemma ChangedLeftRight(source: seq<byte>, blocks: seq<Block>)
    requires blocks == [Memory([1, 2, 5]), Known(3)] && source == [7, 2, 0, 0] && Shown(blocks) == [1, 2, 5, 0, 0, 0]
    ensures Left(source, blocks) == 0 && Right(source, blocks) == 2
  {
    CommonPrefixUnique(source, Shown(blocks), 0);
    assert Tail(source, 2) == [0, 0] == Tail(Shown(blocks), 2);
    CommonSuffixUnique(source, Shown(blocks), 2);
    assert Zeros(3) == [0, 0, 0];
    assert Reach(blocks, 2, 4) == 3 + Reach(blocks, 1, 1);
  }

  /** Two fetched bytes of a file of four are changed, in blocks of three whose last one is a placeholder: the suffix of
      zeros is taken to be the end of the file, and one of the two keeps its old value. */
  lemma ChangeIsHidden(script: Script, blocks: seq<Block>, file: seq<byte>, source: seq<byte>)
    requires Replaces(script)
    requires blocks == [Memory([1, 2, 5]), Known(3)] && file == [1, 2, 5, 3] && source == [7, 2, 0, 0]
    ensures Coherent(blocks, file, 3) && Whole(blocks, file, 3) == [1, 2, 5, 0]
    ensures var o := Submission(source, blocks, 4);
            o == Patched([7, 2], 0, 2) && Remote(script, file, o) == [7, 2, 5, 3]
    ensures !Serves(blocks, file, 3, source, 0, 2, [7, 2, 5, 3])
  {
    var o := Submission(source, blocks, 4);
    ChangedShown(blocks, file, source);
    ChangedLeftRight(source, blocks);
    SentIs(blocks, file, 3, source, 0, 2, o);
    OffsetCases(4, 2);
    assert source[0..2] == [7, 2];
    assert file[..0] + [7, 2] + file[2..] == [7, 2, 5, 3];
    assert !ByteServed(blocks, file, 3, source, 0, 2, [7, 2, 5, 3], 2);
  }

  /** One fetched byte of a file of three is set to zero: nothing is sent. */
  lemma ChangeIsUnsent(blocks: seq<Block>, file: seq<byte>, source: seq<byte>)
    requires blocks == [Memory([1, 2]), Known(2)] && file == [1, 2, 3] && source == [1, 0, 0]
    ensures Coherent(blocks, file, 2) && Whole(blocks, file, 2) == [1, 2, 0]
    ensures Submission(source, blocks, 3) == Unsent && !Serves(blocks, file, 2, source, 1, 2, file)
  {
    PaddedShown(blocks, file);
    CommonPrefixUnique(source, Shown(blocks), 1);
    assert Tail(source, 2) == [0, 0] == Tail(Shown(blocks), 2);
    CommonSuffixUnique(source, Shown(blocks), 2);
    assert Zeros(2) == [0, 0];
    assert Reach(blocks, 2, 3) == 2 + Reach(blocks, 1, 1);
    SentIs(blocks, file, 2, source, 1, 2, Submission(source, blocks, 3));
    assert !ByteServed(blocks, file, 2, source, 1, 2, file, 1);
  }
}
