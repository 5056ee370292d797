/**
 Cache keys of streaming chunks (internal/streaming/window.go).
 */
module ChunkKeys {
  import opened GoText

  datatype ChunkId = ChunkId(streamKey: string, seqNum: int)

  const PREFIX := "stream/"
  const MARK := "/seq_"

  function ChunkCacheKey(streamKey: string, seqNum: int): string {
    PREFIX + streamKey + MARK + Format010d(seqNum)
  }

  function ParseChunkKey(key: string): Option<ChunkId> {
    if !HasPrefix(key, PREFIX) then None else ParseRest(key[|PREFIX|..])
  }

  // What follows the prefix.
  function ParseRest(rest: string): Option<ChunkId> {
    var idx := LastIndex(rest, MARK);
    if idx < 0 then None
    else
      var n := ParseInt64(rest[idx + |MARK|..]);
      if n.None? then None else Some(ChunkId(rest[..idx], n.value))
  }

  // A marker begins with a slash, so none can begin inside what follows the last one.
  lemma LastMark(streamKey: string, digits: string)
    requires '/' !in digits
    ensures LastIndex(streamKey + MARK + digits, MARK) == |streamKey|
  {
    var s := streamKey + MARK + digits;
    assert OccursAt(s, MARK, |streamKey|);
    forall j | |streamKey| < j <= |s| - |MARK|
      ensures !OccursAt(s, MARK, j)
    {
      assert s[j..j + |MARK|][0] == s[j] && MARK[0] == '/';
      if j < |streamKey| + |MARK| {
        assert s[j] == MARK[j - |streamKey|];
      } else {
        assert s[j] == digits[j - |streamKey| - |MARK|];
      }
    }
  }

  lemma RestSplits(streamKey: string, digits: string)
    requires '/' !in digits && ParseInt64(digits).Some?
    ensures ParseRest(streamKey + MARK + digits) == Some(ChunkId(streamKey, ParseInt64(digits).value))
  {
    var rest := streamKey + MARK + digits;
    LastMark(streamKey, digits);
    assert rest[..|streamKey|] == streamKey && rest[|streamKey| + |MARK|..] == digits;
  }

  lemma ParseSplits(streamKey: string, digits: string)
    requires '/' !in digits && ParseInt64(digits).Some?
    ensures ParseChunkKey(PREFIX + streamKey + MARK + digits) == Some(ChunkId(streamKey, ParseInt64(digits).value))
  {
    var key := PREFIX + streamKey + MARK + digits;
    assert key == PREFIX + (streamKey + MARK + digits);
    assert key[|PREFIX|..] == streamKey + MARK + digits;
    RestSplits(streamKey, digits);
  }

  /** Parsing inverts key making for every stream key, also one that itself contains "/seq_",
      and every int64. */
  lemma ParseInvertsKey(streamKey: string, seqNum: int)
    requires InInt64(seqNum)
    ensures ParseChunkKey(ChunkCacheKey(streamKey, seqNum)) == Some(ChunkId(streamKey, seqNum))
  {
    ParseInvertsFormat(seqNum);
    ParseSplits(streamKey, Format010d(seqNum));
  }

  lemma KeysAreDistinct(a: ChunkId, b: ChunkId)
    requires InInt64(a.seqNum) && InInt64(b.seqNum)
    requires ChunkCacheKey(a.streamKey, a.seqNum) == ChunkCacheKey(b.streamKey, b.seqNum)
    ensures a == b
  {
    ParseInvertsKey(a.streamKey, a.seqNum);
    ParseInvertsKey(b.streamKey, b.seqNum);
  }

  /** A key is the word "stream", the stream key, and "seq_" with the number in ten characters or more. */
  lemma KeyLayout(streamKey: string, seqNum: int)
    requires InInt64(seqNum)
    ensures
      var key, start := ChunkCacheKey(streamKey, seqNum), |"stream/"| + |streamKey| + |"/seq_"|;
      && HasPrefix(key, "stream/" + streamKey + "/seq_") && |key| >= start + 10
      && ParseInt64(key[start..]) == Some(seqNum)
  {
    var key, digits := ChunkCacheKey(streamKey, seqNum), Format010d(seqNum);
    FormatIsWide(seqNum);
    ParseInvertsFormat(seqNum);
    assert key == ("stream/" + streamKey + "/seq_") + digits;
    assert key[|"stream/"| + |streamKey| + |"/seq_"|..] == digits;
  }
}
