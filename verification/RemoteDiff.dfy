/** What `RemoteIo::write` compares and sends: a common prefix, a common suffix in whole blocks, one patch. */
module RemoteDiff {
  import opened Bytes
  import opened RemoteBlocks

  const SIZE_T: nat := 0x1_0000_0000_0000_0000
  /** The largest `std::vector<byte>`. */
  const MAX_VECTOR: nat := 0x7fff_ffff_ffff_ffff

  /** The bytes of the first `k` blocks, as `write` compares them. */
  function ShownUpto(blocks: seq<Block>, k: nat): (s: seq<byte>)
    requires k <= |blocks|
  {
    if k == 0 then [] else ShownUpto(blocks, k - 1) + blocks[k - 1].Shown()
  }

  function Shown(blocks: seq<Block>): seq<byte> {
    ShownUpto(blocks, |blocks|)
  }

  /** How many bytes a walk over whole blocks, from block `k` backwards, covers within `room` bytes. */
  function Reach(blocks: seq<Block>, k: nat, room: nat): (n: nat)
    requires k <= |blocks|
    ensures n <= room
  {
    if k == 0 then 0
    else
      var z := |blocks[k - 1].Shown()|;
      if z > room then 0 else z + Reach(blocks, k - 1, room - z)
  }

  /** The start of the differing part. */
  function Left(source: seq<byte>, blocks: seq<Block>): nat {
    CommonPrefix(source, Shown(blocks))
  }

  /** The length of the matching end: the longest common suffix, cut at the last block that fits the source. */
  function Right(source: seq<byte>, blocks: seq<Block>): nat {
    Min(CommonSuffix(source, Shown(blocks)), Reach(blocks, |blocks|, |source|))
  }

  /** The script on the remote machine: what it makes of the file, given data and a range `[from, to)`. */
  type Script = (seq<byte>, seq<byte>, nat, nat) -> seq<byte>

  /** It replaces the range, if it is one of the file. Of other ranges nothing is known. */
  ghost predicate Replaces(script: Script) {
    forall file, data, from: nat, to: nat | from <= to <= |file| ::
      script(file, data, from, to) == file[..from] + data + file[to..]
  }

  /** It also takes positions behind the end for the end, and keeps both ends of the file when `from` is behind `to`. */
  ghost predicate Clips(script: Script) {
    forall file, data, from: nat, to: nat :: script(file, data, from, to) == Spliced(file, data, from, to)
  }

  /** The file with `[from, to)` replaced; positions beyond its end mean its end. */
  function Spliced(file: seq<byte>, data: seq<byte>, from: nat, to: nat): seq<byte> {
    file[..Min(from, |file|)] + data + file[Min(to, |file|)..]
  }

  /** `src.size() - left - right`, in the unsigned arithmetic of the original. */
  function DataSize(source: nat, left: nat, right: nat): nat {
    (source - left - right) % SIZE_T
  }

  /** `size_ - right`, in the same arithmetic. */
  function ToOffset(length: nat, right: nat): nat {
    (length - right) % SIZE_T
  }

  datatype Outcome =
    | Unsent                                        // nothing to submit
    | Patched(data: seq<byte>, from: nat, to: nat)  // one replacement was submitted
    | LengthError                                   // no buffer of that size exists

  /** What a write sends to the remote end. */
  function Submission(source: seq<byte>, blocks: seq<Block>, length: nat): Outcome
    requires |source| <= MAX_VECTOR
  {
    var left, right := Left(source, blocks), Right(source, blocks);
    var dataSize := DataSize(|source|, left, right);
    DataSizeCases(|source|, left, right);
    if dataSize == 0 then Unsent
    else if dataSize > MAX_VECTOR then LengthError
    else
      Patched(source[left..left + dataSize], left, ToOffset(length, right))
  }

  lemma DataSizeCases(n: nat, left: nat, right: nat)
    requires n <= MAX_VECTOR && left <= n && right <= n
    ensures left + right <= n ==> DataSize(n, left, right) == n - left - right
    ensures left + right > n ==> DataSize(n, left, right) > MAX_VECTOR
  {
  }

  lemma SubmissionIs(source: seq<byte>, blocks: seq<Block>, length: nat, left: nat, right: nat, dataSize: nat, end: nat)
    requires |source| <= MAX_VECTOR && left == Left(source, blocks) && right == Right(source, blocks)
    requires dataSize == DataSize(|source|, left, right) && end == left + dataSize
    ensures dataSize == 0 ==> Submission(source, blocks, length) == Unsent
    ensures dataSize > MAX_VECTOR ==> Submission(source, blocks, length) == LengthError
    ensures 0 < dataSize <= MAX_VECTOR ==>
              && end == |source| - right
              && Submission(source, blocks, length) == Patched(source[left..end], left, ToOffset(length, right))
  {
  }

  // ---------- the two searches, one block at a time ----------

  lemma {:induction false} ShownPrefix(blocks: seq<Block>, j: nat, k: nat)
    requires j <= k <= |blocks|
    ensures |ShownUpto(blocks, j)| <= |ShownUpto(blocks, k)|
    ensures ShownUpto(blocks, k)[..|ShownUpto(blocks, j)|] == ShownUpto(blocks, j)
  {
    if j < k {
      ShownPrefix(blocks, j, k - 1);
    }
  }

  /** Where block `k` lies among the compared bytes. */
  lemma ShownBlock(blocks: seq<Block>, k: nat, lo: nat, hi: nat)
    requires k < |blocks| && lo == |ShownUpto(blocks, k)| && hi == |ShownUpto(blocks, k + 1)|
    ensures lo <= hi <= |Shown(blocks)| && Shown(blocks)[lo..hi] == blocks[k].Shown()
  {
    ShownPrefix(blocks, k + 1, |blocks|);
    assert Shown(blocks)[..hi] == ShownUpto(blocks, k) + blocks[k].Shown();
    assert Shown(blocks)[..hi][lo..] == Shown(blocks)[lo..hi];
  }

  /** `n` more equal bytes after an equal prefix. */
  lemma PrefixExtends(a: seq<byte>, b: seq<byte>, left: nat, n: nat, next: nat)
    requires next == left + n <= |a| && next <= |b|
    requires a[..left] == b[..left] && a[left..next] == b[left..next]
    ensures a[..next] == b[..next]
  {
  }

  /** The blocks from `k` on match the end of the source, `right` bytes of it. */
  ghost predicate Matching(c: seq<byte>, blocks: seq<Block>, k: nat, right: nat) {
    && k <= |blocks| && right <= |c| && right + |ShownUpto(blocks, k)| == |Shown(blocks)|
    && Tail(c, right) == Tail(Shown(blocks), right)
    && Reach(blocks, |blocks|, |c|) == right + Reach(blocks, k, |c| - right)
  }

  lemma MatchStart(c: seq<byte>, blocks: seq<Block>)
    ensures Matching(c, blocks, |blocks|, 0)
  {
  }

  lemma MatchEnd(c: seq<byte>, blocks: seq<Block>, k: nat, right: nat)
    requires Matching(c, blocks, k, right) && (k == 0 || right == |c|)
    ensures right == Right(c, blocks)
  {
    CommonSuffixUnique(c, Shown(blocks), right);
  }

  /** Block `k` does not fit in what is left of the source. */
  lemma MatchStop(c: seq<byte>, blocks: seq<Block>, k: nat, right: nat)
    requires k < |blocks| && Matching(c, blocks, k + 1, right) && |blocks[k].Shown()| + right > |c|
    ensures right == Right(c, blocks)
  {
    CommonSuffixUnique(c, Shown(blocks), right);
  }

  /** Block `k` fits; `next` bytes match with it. */
  lemma MatchStep(c: seq<byte>, blocks: seq<Block>, k: nat, right: nat, next: nat, left: nat)
    requires k < |blocks| && Matching(c, blocks, k + 1, right)
    requires right <= next <= right + |blocks[k].Shown()| <= |c|
    requires next <= |Shown(blocks)| && Tail(c, next) == Tail(Shown(blocks), next) && left == |c| - next
    ensures next == right + |blocks[k].Shown()| ==> Matching(c, blocks, k, next)
    ensures next == CommonSuffix(c, Shown(blocks)) ==> next == Right(c, blocks)
  {
  }

  /** A piece of `n` bytes that ends where the equal suffixes start. */
  lemma PieceExtends(a: seq<byte>, right: nat, lo: nat, hi: nat, n: nat, next: nat, start: nat)
    requires lo <= start <= hi <= |a| && hi == |a| - right && start == hi - n && next == right + n
    ensures Tail(a, next) == Tail(a[lo..hi], n) + Tail(a, right)
  {
  }

  lemma PieceDiffers(c: seq<byte>, s: seq<byte>, right: nat, from: nat, to: nat, lo: nat, hi: nat, n: nat, next: nat)
    requires from <= to <= |c| && lo <= hi <= |s| && to - from == hi - lo
    requires to == |c| - right && hi == |s| - right && next == right + n && n < hi - lo
    requires StopsBefore(c[from..to], s[lo..hi], n)
    ensures StopsBefore(c, s, next)
  {
  }

  /** One block of the source, read at `[from, to)` and compared with block `k`. */
  lemma BlockMatched(c: seq<byte>, blocks: seq<Block>, k: nat, right: nat, from: nat, to: nat, n: nat, next: nat)
    requires k < |blocks| && Matching(c, blocks, k + 1, right)
    requires from <= to == |c| - right && to - from == |blocks[k].Shown()|
    requires n == CommonSuffix(c[from..to], blocks[k].Shown()) && next == right + n
    ensures if n < to - from then next == Right(c, blocks) else Matching(c, blocks, k, next)
  {
    var lo, hi, s := |ShownUpto(blocks, k)|, |ShownUpto(blocks, k + 1)|, Shown(blocks);
    ShownBlock(blocks, k, lo, hi);
    CommonSuffixIs(c[from..to], s[lo..hi]);
    PieceExtends(c, right, from, to, n, next, to - n);
    PieceExtends(s, right, lo, hi, n, next, hi - n);
    if n < to - from {
      PieceDiffers(c, s, right, from, to, lo, hi, n, next);
      CommonSuffixUnique(c, s, next);
    }
    MatchStep(c, blocks, k, right, next, |c| - next);
  }

  lemma {:induction false} ReachAtLeast(blocks: seq<Block>, k: nat, room: nat)
    requires k <= |blocks| && |ShownUpto(blocks, k)| <= room
    ensures Reach(blocks, k, room) == |ShownUpto(blocks, k)|
  {
    if k > 0 {
      ReachAtLeast(blocks, k - 1, room - |blocks[k - 1].Shown()|);
    }
  }

  // ---------- correctness of the patch ----------

  /** With every block in memory, the compared bytes are the remote file. */
  lemma {:induction false} ShownIsFile(blocks: seq<Block>, file: seq<byte>, size: nat, k: nat, end: nat)
    requires Coherent(blocks, file, size) && k <= |blocks| && end == Min(Start(k, size), |file|)
    requires forall i | 0 <= i < |blocks| :: blocks[i].Memory?
    ensures ShownUpto(blocks, k) == file[..end]
    decreases k
  {
    if k > 0 {
      var i := k - 1;
      var start := Start(i, size);
      assert BlockOk(blocks[i], file, size, i);
      assert start < |file| && blocks[i].data == file[start..end];
      ShownIsFile(blocks, file, size, i, start);
      ShownNext(blocks, file, size, i, start, end);
    }
  }

  lemma ShownNext(blocks: seq<Block>, file: seq<byte>, size: nat, i: nat, lo: nat, hi: nat)
    requires i < |blocks| && lo <= hi <= |file| && ShownUpto(blocks, i) == file[..lo]
    requires blocks[i] == Memory(file[lo..hi])
    ensures ShownUpto(blocks, i + 1) == file[..hi]
  {
  }

  lemma AllShownIsFile(blocks: seq<Block>, file: seq<byte>, size: nat)
    requires Coherent(blocks, file, size)
    requires forall i | 0 <= i < |blocks| :: blocks[i].Memory?
    ensures Shown(blocks) == file
  {
    CoherentInside(blocks, file, size);
    ShownIsFile(blocks, file, size, |blocks|, |file|);
  }

  /** What lies before a common prefix's end and behind a common suffix's start, in the one file, and what lies between
      them, in the other, make up the other. */
  lemma PatchRestores(file: seq<byte>, source: seq<byte>, left: nat, right: nat)
    requires left <= |file| && right <= |file| && left + right <= |source|
    requires source[..left] == file[..left]
    requires Tail(source, right) == Tail(file, right)
    ensures file[..left] + source[left..|source| - right] + file[|file| - right..] == source
  {
  }

  /** The remote file after the submission. */
  function Remote(script: Script, file: seq<byte>, o: Outcome): seq<byte> {
    if o.Patched? then script(file, o.data, o.from, o.to) else file
  }

  /** A write returned and left the remote file equal to the source. */
  ghost predicate Succeeds(script: Script, file: seq<byte>, source: seq<byte>, o: Outcome) {
    !o.LengthError? && Remote(script, file, o) == source
  }

  /** The submission, case by case: the guard of the original compares `left + right` with the source's length. */
  lemma SubmissionCases(blocks: seq<Block>, file: seq<byte>, source: seq<byte>)
    requires Shown(blocks) == file
    requires |source| <= MAX_VECTOR && |file| <= MAX_VECTOR
    ensures var left, right, o := Left(source, blocks), Right(source, blocks), Submission(source, blocks, |file|);
            && (left + right < |source| ==> o == Patched(source[left..|source| - right], left, |file| - right))
            && (left + right == |source| ==> o == Unsent)
            && (left + right > |source| ==> o == LengthError)
  {
    var left, right := Left(source, blocks), Right(source, blocks);
    DataSizeCases(|source|, left, right);
    DataSizeCases(|file|, 0, right);
  }

  /** With every block in memory and something to send, the data sent and both ends of the file make up the source. */
  lemma SentRestores(blocks: seq<Block>, file: seq<byte>, size: nat, source: seq<byte>, left: nat, right: nat)
    requires Coherent(blocks, file, size) && forall i | 0 <= i < |blocks| :: blocks[i].Memory?
    requires |source| <= MAX_VECTOR && |file| <= MAX_VECTOR
    requires left == Left(source, blocks) && right == Right(source, blocks) && left + right < |source|
    ensures left <= |file| && right <= |file|
    ensures Submission(source, blocks, |file|) == Patched(source[left..|source| - right], left, |file| - right)
    ensures file[..left] + source[left..|source| - right] + file[|file| - right..] == source
  {
    AllShownIsFile(blocks, file, size);
    SubmissionCases(blocks, file, source);
    CommonPrefixIs(source, file);
    CommonSuffixPart(source, file, right);
    PatchRestores(file, source, left, right);
  }

  lemma SearchBounds(blocks: seq<Block>, file: seq<byte>, size: nat, source: seq<byte>)
    requires Coherent(blocks, file, size) && forall i | 0 <= i < |blocks| :: blocks[i].Memory?
    ensures Left(source, blocks) <= |source| && Left(source, blocks) <= |file|
    ensures Right(source, blocks) <= |source| && Right(source, blocks) <= |file|
  {
    AllShownIsFile(blocks, file, size);
  }

  /** With nothing to send a write fails, unless both are empty. */
  lemma NothingSent(script: Script, blocks: seq<Block>, file: seq<byte>, size: nat, source: seq<byte>, o: Outcome)
    requires Coherent(blocks, file, size) && forall i | 0 <= i < |blocks| :: blocks[i].Memory?
    requires |source| <= MAX_VECTOR && |file| <= MAX_VECTOR
    requires Left(source, blocks) + Right(source, blocks) >= |source| && o == Submission(source, blocks, |file|)
    ensures Succeeds(script, file, source, o) <==> source == [] && file == []
  {
    AllShownIsFile(blocks, file, size);
    SubmissionCases(blocks, file, source);
    if file == source {
      IdenticalOverlaps(blocks, file, size);
    }
  }

  lemma SentSucceedsIff(script: Script, blocks: seq<Block>, file: seq<byte>, size: nat, source: seq<byte>, left: nat,
                        right: nat, o: Outcome)
    requires Replaces(script) && Coherent(blocks, file, size) && forall i | 0 <= i < |blocks| :: blocks[i].Memory?
    requires |source| <= MAX_VECTOR && |file| <= MAX_VECTOR && o == Submission(source, blocks, |file|)
    requires left == Left(source, blocks) && right == Right(source, blocks) && left + right < |source|
    ensures left + right <= |file| ==> Succeeds(script, file, source, o)
    ensures right <= |file|
    ensures Succeeds(script, file, source, o)
            <==> script(file, source[left..|source| - right], left, |file| - right) == source
  {
    SentRestores(blocks, file, size, source, left, right);
    PatchSucceedsIff(script, file, source, source[left..|source| - right], left, |file| - right, o);
  }

  /** As long as prefix and suffix do not overlap in the remote file, a write brings it to the source exactly when they
      leave something of the source to send. If they do overlap, the range sent is reversed, and a write succeeds
      exactly when there is something to send and the script makes the source of it. */
  lemma WriteSucceedsIff(script: Script, blocks: seq<Block>, file: seq<byte>, size: nat, source: seq<byte>, left: nat,
                         right: nat, o: Outcome)
    requires Replaces(script) && Coherent(blocks, file, size) && forall i | 0 <= i < |blocks| :: blocks[i].Memory?
    requires |source| <= MAX_VECTOR && |file| <= MAX_VECTOR && o == Submission(source, blocks, |file|)
    requires left == Left(source, blocks) && right == Right(source, blocks)
    ensures left <= |source| && right <= |source| && right <= |file|
    ensures left + right <= |file| ==>
              (Succeeds(script, file, source, o) <==> left + right < |source| || (source == [] && file == []))
    ensures left + right > |file| ==>
              (Succeeds(script, file, source, o)
               <==> left + right < |source|
                    && script(file, source[left..|source| - right], left, |file| - right) == source)
  {
    SearchBounds(blocks, file, size, source);
    if left + right < |source| {
      SentSucceedsIff(script, blocks, file, size, source, left, right, o);
    } else {
      NothingSent(script, blocks, file, size, source, o);
    }
  }

  /** A patch whose range is one of the file succeeds when the parts make up the source; any other, when the script
      makes the source of it. */
  lemma PatchSucceedsIff(script: Script, file: seq<byte>, source: seq<byte>, data: seq<byte>, from: nat, to: nat,
                         o: Outcome)
    requires Replaces(script) && o == Patched(data, from, to) && from <= |file| && to <= |file|
    requires file[..from] + data + file[to..] == source
    ensures from <= to ==> Succeeds(script, file, source, o)
    ensures Succeeds(script, file, source, o) <==> script(file, data, from, to) == source
  {
  }

  /** A script that keeps both ends of the file makes the source of a reversed range too. */
  lemma ReversedRange(script: Script, blocks: seq<Block>, file: seq<byte>, size: nat, source: seq<byte>)
    requires Clips(script) && Coherent(blocks, file, size)
    requires forall i | 0 <= i < |blocks| :: blocks[i].Memory?
    requires |source| <= MAX_VECTOR && |file| <= MAX_VECTOR
    ensures Succeeds(script, file, source, Submission(source, blocks, |file|))
            <==> Left(source, blocks) + Right(source, blocks) < |source| || (source == [] && file == [])
  {
    if Left(source, blocks) + Right(source, blocks) < |source| {
      SentRestores(blocks, file, size, source, Left(source, blocks), Right(source, blocks));
    } else {
      NothingSent(script, blocks, file, size, source, Submission(source, blocks, |file|));
    }
  }

  lemma CommonSuffixPart(a: seq<byte>, b: seq<byte>, n: nat)
    requires n <= CommonSuffix(a, b)
    ensures Tail(a, n) == Tail(b, n)
  {
    var m := CommonSuffix(a, b);
    CommonSuffixIs(a, b);
    TailOfTail(a, m, n, m - n);
    TailOfTail(b, m, n, m - n);
  }

  lemma TailOfTail(s: seq<byte>, m: nat, n: nat, k: nat)
    requires n <= m <= |s| && k == m - n
    ensures Tail(s, n) == Tail(s, m)[k..]
  {
  }

  lemma SameContent(a: seq<byte>)
    ensures CommonPrefix(a, a) == |a| && CommonSuffix(a, a) == |a|
  {
    CommonPrefixUnique(a, a, |a|);
    CommonSuffixUnique(a, a, |a|);
  }

  /** Writing back unchanged content: prefix and suffix are both the whole file. */
  lemma IdenticalOverlaps(blocks: seq<Block>, file: seq<byte>, size: nat)
    requires Coherent(blocks, file, size)
    requires forall i | 0 <= i < |blocks| :: blocks[i].Memory?
    ensures Left(file, blocks) == Right(file, blocks) == |file|
  {
    AllShownIsFile(blocks, file, size);
    SameContent(file);
    ReachAtLeast(blocks, |blocks|, |file|);
  }

  /** So writing back unchanged content always fails, instead of doing nothing. */
  lemma IdenticalFails(blocks: seq<Block>, file: seq<byte>, size: nat)
    requires Coherent(blocks, file, size) && file != [] && |file| <= MAX_VECTOR
    requires forall i | 0 <= i < |blocks| :: blocks[i].Memory?
    ensures Submission(file, blocks, |file|) == LengthError
  {
    IdenticalOverlaps(blocks, file, size);
    AllShownIsFile(blocks, file, size);
    SubmissionCases(blocks, file, file);
  }

  /** From block `j` on the blocks fit in the room, and with the one before they do not. */
  lemma {:induction false} ReachIs(blocks: seq<Block>, j: nat, k: nat, room: nat, total: nat)
    requires j <= k <= |blocks| && total + |ShownUpto(blocks, j)| == |ShownUpto(blocks, k)| && total <= room
    requires j > 0 ==> total + |blocks[j - 1].Shown()| > room
    ensures Reach(blocks, k, room) == total
    decreases k
  {
    if j < k {
      ShownPrefix(blocks, j, k - 1);
      ReachIs(blocks, j, k - 1, room - |blocks[k - 1].Shown()|, total - |blocks[k - 1].Shown()|);
    }
  }

  /** The suffix is the longest common one, but no longer than the last blocks that fit in the source together. */
  lemma RightIs(source: seq<byte>, blocks: seq<Block>, j: nat, total: nat)
    requires j <= |blocks| && total + |ShownUpto(blocks, j)| == |Shown(blocks)| && total <= |source|
    requires j > 0 ==> total + |blocks[j - 1].Shown()| > |source|
    ensures Right(source, blocks)
         == if CommonSuffix(source, Shown(blocks)) <= total then CommonSuffix(source, Shown(blocks)) else total
  {
    ReachIs(blocks, j, |blocks|, |source|, total);
  }

  /** When the source is no shorter than the remote file, the suffix is the longest common one. */
  lemma RightIsLongest(blocks: seq<Block>, source: seq<byte>)
    requires |Shown(blocks)| <= |source|
    ensures Right(source, blocks) == CommonSuffix(source, Shown(blocks))
  {
    ReachAtLeast(blocks, |blocks|, |source|);
  }

  lemma DeletionLeftRight(source: seq<byte>, blocks: seq<Block>)
    requires blocks == [Memory([1]), Memory([2]), Memory([3])] && source == [1, 3] && Shown(blocks) == [1, 2, 3]
    ensures Left(source, blocks) == 1 && Right(source, blocks) == 1
  {
    var shown := Shown(blocks);
    assert source[..1] == [1] == shown[..1];
    CommonPrefixUnique(source, shown, 1);
    assert Tail(source, 1) == [3] == Tail(shown, 1);
    assert FromEnd(source, 1) == 1 && FromEnd(shown, 1) == 2;
    CommonSuffixUnique(source, shown, 1);
    assert |blocks[2].Shown()| == 1;
    assert Reach(blocks, 3, 2) == 1 + Reach(blocks, 2, 1);
  }

  /** A pure deletion in the middle of the file sends nothing: the remote file keeps the deleted bytes. */
  lemma DeletionIsLost(blocks: seq<Block>, file: seq<byte>, source: seq<byte>)
    requires blocks == [Memory([1]), Memory([2]), Memory([3])] && file == [1, 2, 3] && source == [1, 3]
    ensures Coherent(blocks, file, 1) && Submission(source, blocks, 3) == Unsent
  {
    assert Start(1, 1) == 1 && Start(2, 1) == 2;
    assert forall i | 0 <= i < 3 :: BlockOk(blocks[i], file, 1, i);
    AllShownIsFile(blocks, file, 1);
    DeletionLeftRight(source, blocks);
  }
}
