/**
 * Chunking of long documents for the layout model, the attention mask of a
 * chunk, and the tensor cache of the unified memory manager.  Characters and
 * tensors are opaque here (type parameters); the device, the tokenizer and
 * tensor arithmetic are not modelled.
 */
module TensorUtils {
  import opened Wrappers
  import opened Ints

  /** `ChunkConfig`. */
  datatype ChunkConfig = ChunkConfig(maxTokens: nat, overlapTokens: nat, stride: nat)

  /** `ChunkConfig::default`: 512-token windows overlapping by 64, so the stride is 512 - 64. */
  function DefaultConfig(): (c: ChunkConfig)
    ensures c.maxTokens == 512 && c.overlapTokens == 64
    ensures c.stride == c.maxTokens - c.overlapTokens
  {
    ChunkConfig(512, 64, 448)
  }

  /** `DocumentChunk`: the characters of `[startIdx, endIdx)`, the chunk's index and the number of chunks. */
  datatype DocumentChunk<C> = DocumentChunk(characters: seq<C>, startIdx: nat, endIdx: nat, chunkId: nat, totalChunks: nat)

  // ---------------------------------------------------------------------
  // create_chunks as written

  /** The next window start, as the loop of `create_chunks` computes it. */
  function NextStart(start: nat, total: nat, config: ChunkConfig): nat {
    var s := start + config.stride;
    if s < total && s + config.maxTokens >= total then SatSub(total, config.maxTokens) else s
  }

  /** The window start after `n` turns of the loop. */
  function StartAfter(n: nat, total: nat, config: ChunkConfig): nat {
    if n == 0 then 0 else NextStart(StartAfter(n - 1, total, config), total, config)
  }

  /** The states the loop stays in: strictly inside the text, and either short of the last window or at it. */
  predicate InLoop(start: nat, total: nat, config: ChunkConfig) {
    start < total && (start + config.maxTokens < total || start == total - config.maxTokens)
  }

  lemma NextStartInLoop(start: nat, total: nat, config: ChunkConfig)
    requires config.stride < config.maxTokens < total
    requires InLoop(start, total, config)
    ensures InLoop(NextStart(start, total, config), total, config)
  {
  }

  /**
   * The loop of `create_chunks` never ends when the stride is shorter than
   * the window and the text is longer than one window: after any number of
   * turns the start is still below the length, so `while start < total_chars`
   * holds forever.  The default configuration is such a case.
   */
  lemma {:induction false} ChunkLoopNeverEnds(n: nat, total: nat, config: ChunkConfig)
    requires config.stride < config.maxTokens < total
    ensures StartAfter(n, total, config) < total
    ensures InLoop(StartAfter(n, total, config), total, config)
  {
    if n > 0 {
      ChunkLoopNeverEnds(n - 1, total, config);
      NextStartInLoop(StartAfter(n - 1, total, config), total, config);
    }
  }

  /** With the default configuration and 513 characters the loop revisits start 1 forever. */
  lemma DefaultLoopsAt513()
    ensures StartAfter(1, 513, DefaultConfig()) == 1
    ensures NextStart(1, 513, DefaultConfig()) == 1
  {
  }

  // ---------------------------------------------------------------------
  // create_chunks, ending after the chunk that reaches the end

  /** Every chunk holds its slice of the characters, is at most one window long and knows its index and the count. */
  predicate WellFormedChunks<C(==)>(characters: seq<C>, config: ChunkConfig, chunks: seq<DocumentChunk<C>>) {
    forall k :: 0 <= k < |chunks| ==>
      chunks[k].startIdx <= chunks[k].endIdx <= |characters| &&
      chunks[k].endIdx - chunks[k].startIdx <= config.maxTokens &&
      chunks[k].characters == characters[chunks[k].startIdx..chunks[k].endIdx] &&
      chunks[k].chunkId == k && chunks[k].totalChunks == |chunks|
  }

  /** Each chunk starts after the previous one and no later than its end: the windows cover the text without gaps. */
  predicate Covering<C>(chunks: seq<DocumentChunk<C>>) {
    forall k :: 0 < k < |chunks| ==>
      chunks[k - 1].startIdx < chunks[k].startIdx <= chunks[k - 1].endIdx
  }

  /**
   * `create_chunks` with the loop ending once a chunk reaches the end of the
   * text.  A text of at most one window is a single chunk `[0, total)`;
   * otherwise the chunks are non-empty windows of at most `max_tokens`
   * characters, from 0 to the end, each starting after the last and without
   * gaps, every one holding its slice, its index and the chunk count.
   */
  method CreateChunks<C(==)>(characters: seq<C>, config: ChunkConfig) returns (chunks: seq<DocumentChunk<C>>)
    requires 0 < config.stride <= config.maxTokens
    ensures |characters| <= config.maxTokens ==> chunks == [DocumentChunk(characters, 0, |characters|, 0, 1)]
    ensures |chunks| >= 1 && WellFormedChunks(characters, config, chunks) && Covering(chunks)
    ensures chunks[0].startIdx == 0 && chunks[|chunks| - 1].endIdx == |characters|
    ensures |characters| > config.maxTokens ==> forall k :: 0 <= k < |chunks| ==> chunks[k].startIdx < chunks[k].endIdx
  {
    var totalChars := |characters|;
    if totalChars <= config.maxTokens {
      return [DocumentChunk(characters, 0, totalChars, 0, 1)];
    }
    var windows := Windows(characters, config);
    chunks := SetTotalChunks(windows);
    CountedChunks(characters, config, windows, chunks);
  }

  /** Setting the count on windowed chunks gives well-formed chunks with the same bounds. */
  lemma CountedChunks<C>(characters: seq<C>, config: ChunkConfig, windows: seq<DocumentChunk<C>>,
                             chunks: seq<DocumentChunk<C>>)
    requires Windowed(characters, config, windows) && Covering(windows)
    requires |chunks| == |windows|
    requires forall k :: 0 <= k < |chunks| ==> chunks[k] == windows[k].(totalChunks := |windows|)
    ensures WellFormedChunks(characters, config, chunks) && Covering(chunks)
    ensures forall k :: 0 <= k < |chunks| ==>
      chunks[k].startIdx == windows[k].startIdx < chunks[k].endIdx == windows[k].endIdx
  {
  }

  /** Chunks before the count is known: slices, indices and the window bounds. */
  predicate Windowed<C(==)>(characters: seq<C>, config: ChunkConfig, chunks: seq<DocumentChunk<C>>) {
    forall k :: 0 <= k < |chunks| ==>
      chunks[k].startIdx < chunks[k].endIdx <= |characters| &&
      chunks[k].endIdx - chunks[k].startIdx <= config.maxTokens &&
      chunks[k].characters == characters[chunks[k].startIdx..chunks[k].endIdx] &&
      chunks[k].chunkId == k
  }

  /** The `while` loop, stopping after the chunk whose end is the end of the text. */
  method Windows<C(==)>(characters: seq<C>, config: ChunkConfig) returns (chunks: seq<DocumentChunk<C>>)
    requires 0 < config.stride <= config.maxTokens < |characters|
    ensures |chunks| >= 1 && Windowed(characters, config, chunks) && Covering(chunks)
    ensures chunks[0].startIdx == 0 && chunks[|chunks| - 1].endIdx == |characters|
  {
    var totalChars := |characters|;
    chunks := [];
    var start := 0;
    var chunkId := 0;
    while start < totalChars
      invariant chunkId == |chunks| && Windowed(characters, config, chunks) && Covering(chunks)
      invariant chunks == [] ==> start == 0
      invariant chunks != [] ==> chunks[0].startIdx == 0
      invariant chunks != [] ==> var last := chunks[|chunks| - 1];
        (last.endIdx == totalChars == start) || (last.startIdx < start <= last.endIdx < totalChars)
      decreases totalChars - start
    {
      var end := if start + config.maxTokens <= totalChars then start + config.maxTokens else totalChars;
      AppendWindow(characters, config, chunks, start, end);
      chunks := chunks + [DocumentChunk(characters[start..end], start, end, chunkId, 0)];
      chunkId := chunkId + 1;
      if end == totalChars {
        start := totalChars;
      } else {
        start := start + config.stride;
        if start < totalChars && start + config.maxTokens >= totalChars {
          start := SatSub(totalChars, config.maxTokens);
        }
      }
    }
  }

  /** One turn of `Windows`: the next window, starting inside the last one, keeps the chunks windowed and covering. */
  lemma AppendWindow<C>(characters: seq<C>, config: ChunkConfig, chunks: seq<DocumentChunk<C>>, start: nat, end: nat)
    requires Windowed(characters, config, chunks) && Covering(chunks)
    requires start < end <= |characters| && end - start <= config.maxTokens
    requires chunks != [] ==> chunks[|chunks| - 1].startIdx < start <= chunks[|chunks| - 1].endIdx
    ensures var next := chunks + [DocumentChunk(characters[start..end], start, end, |chunks|, 0)];
      Windowed(characters, config, next) && Covering(next)
  {
    var w := DocumentChunk(characters[start..end], start, end, |chunks|, 0);
    var next := chunks + [w];
    forall k | 0 <= k < |next|
      ensures next[k].startIdx < next[k].endIdx <= |characters|
      ensures next[k].endIdx - next[k].startIdx <= config.maxTokens
      ensures next[k].characters == characters[next[k].startIdx..next[k].endIdx]
      ensures next[k].chunkId == k
    {
      if k < |chunks| {
        assert next[k] == chunks[k];
      } else {
        assert next[k] == w;
      }
    }
    forall k | 0 < k < |next| ensures next[k - 1].startIdx < next[k].startIdx <= next[k - 1].endIdx {
      if k < |chunks| {
        assert next[k - 1] == chunks[k - 1] && next[k] == chunks[k];
      } else {
        assert next[k - 1] == chunks[|chunks| - 1] && next[k] == w;
      }
    }
  }

  /** The last loop of `create_chunks`: every chunk learns the count. */
  method SetTotalChunks<C>(chunks: seq<DocumentChunk<C>>) returns (r: seq<DocumentChunk<C>>)
    ensures |r| == |chunks|
    ensures forall k :: 0 <= k < |r| ==> r[k] == chunks[k].(totalChunks := |chunks|)
  {
    var totalChunks := |chunks|;
    r := chunks;
    for k := 0 to |r|
      invariant |r| == |chunks|
      invariant forall j :: 0 <= j < |r| ==> r[j] == if j < k then chunks[j].(totalChunks := totalChunks) else chunks[j]
    {
      r := r[k := r[k].(totalChunks := totalChunks)];
    }
  }

  // ---------------------------------------------------------------------
  // create_attention_mask

  /**
   * The mask entry where token `j` attends to token `i` (`mask[j * seq_len + i]`).
   * After the first chunk the leading overlap is hidden from the other
   * tokens; before the last chunk the trailing overlap is hidden from the
   * tokens ahead of it.
   */
  function MaskEntry(seqLen: nat, chunkId: nat, totalChunks: nat, overlap: nat, j: nat, i: nat): real
    requires totalChunks >= 1
    requires chunkId < totalChunks - 1 ==> overlap <= seqLen
  {
    if chunkId > 0 && i < overlap && overlap <= j then 0.0
    else if chunkId < totalChunks - 1 && seqLen - overlap <= i && j < seqLen - overlap then 0.0
    else 1.0
  }

  /**
   * `create_attention_mask`: a `seq_len` by `seq_len` mask (the tensor's
   * `[1, seq_len, seq_len]` shape, row `j` and column `i`) of ones with the
   * overlaps hidden.  A chunk that is not the last needs at least
   * `overlap_tokens` characters, or `seq_len - overlap_tokens` underflows;
   * and the chunk count must be positive, or `total_chunks - 1` does.
   */
  method CreateAttentionMask<C>(chunk: DocumentChunk<C>, config: ChunkConfig) returns (mask: array2<real>)
    requires chunk.totalChunks >= 1
    requires chunk.chunkId < chunk.totalChunks - 1 ==> config.overlapTokens <= |chunk.characters|
    ensures fresh(mask)
    ensures mask.Length0 == |chunk.characters| && mask.Length1 == |chunk.characters|
    ensures forall j, i :: 0 <= j < mask.Length0 && 0 <= i < mask.Length1 ==>
      mask[j, i] == MaskEntry(|chunk.characters|, chunk.chunkId, chunk.totalChunks, config.overlapTokens, j, i)
  {
    var seqLen := |chunk.characters|;
    var overlap := config.overlapTokens;
    mask := new real[seqLen, seqLen]((_, _) => 1.0);
    if chunk.chunkId > 0 {
      HideLeadingOverlap(mask, overlap);
    }
    if chunk.chunkId < chunk.totalChunks - 1 {
      HideTrailingOverlap(mask, seqLen - overlap);
    }
    forall j, i | 0 <= j < seqLen && 0 <= i < seqLen
      ensures mask[j, i] == MaskEntry(seqLen, chunk.chunkId, chunk.totalChunks, overlap, j, i)
    {
    }
  }

  /** The first pair of loops: entries `[j, i]` with `i < overlap <= j` become 0. */
  method HideLeadingOverlap(mask: array2<real>, overlap: nat)
    requires mask.Length0 == mask.Length1
    modifies mask
    ensures forall j, i :: 0 <= j < mask.Length0 && 0 <= i < mask.Length1 ==>
      mask[j, i] == if i < overlap && overlap <= j then 0.0 else old(mask[j, i])
  {
    var seqLen := mask.Length0;
    for i := 0 to overlap
      invariant forall j, c :: 0 <= j < seqLen && 0 <= c < seqLen ==>
        mask[j, c] == if c < i && overlap <= j then 0.0 else old(mask[j, c])
    {
      var j := overlap;
      while j < seqLen
        invariant j >= overlap
        invariant forall r, c :: 0 <= r < seqLen && 0 <= c < seqLen ==>
          mask[r, c] == if (c < i && overlap <= r) || (c == i && overlap <= r < j) then 0.0 else old(mask[r, c])
      {
        mask[j, i] := 0.0;
        j := j + 1;
      }
    }
  }

  /** The second pair of loops: entries `[j, i]` with `j < start <= i` become 0. */
  method HideTrailingOverlap(mask: array2<real>, start: nat)
    requires mask.Length0 == mask.Length1 && start <= mask.Length0
    modifies mask
    ensures forall j, i :: 0 <= j < mask.Length0 && 0 <= i < mask.Length1 ==>
      mask[j, i] == if start <= i && j < start then 0.0 else old(mask[j, i])
  {
    var seqLen := mask.Length0;
    for i := start to seqLen
      invariant forall j, c :: 0 <= j < seqLen && 0 <= c < seqLen ==>
        mask[j, c] == if start <= c < i && j < start then 0.0 else old(mask[j, c])
    {
      for j := 0 to start
        invariant forall r, c :: 0 <= r < seqLen && 0 <= c < seqLen ==>
          mask[r, c] == if (start <= c < i && r < start) || (c == i && r < j) then 0.0 else old(mask[r, c])
      {
        mask[j, i] := 0.0;
      }
    }
  }

  /** Every mask entry is 0 or 1. */
  lemma MaskIsBinary(seqLen: nat, chunkId: nat, totalChunks: nat, overlap: nat, j: nat, i: nat)
    requires totalChunks >= 1 && (chunkId < totalChunks - 1 ==> overlap <= seqLen)
    ensures MaskEntry(seqLen, chunkId, totalChunks, overlap, j, i) in {0.0, 1.0}
  {
  }

  /** A document that is one chunk attends everywhere. */
  lemma SingleChunkSeesAll(seqLen: nat, overlap: nat, j: nat, i: nat)
    ensures MaskEntry(seqLen, 0, 1, overlap, j, i) == 1.0
  {
  }

  /** No token is ever hidden from itself. */
  lemma TokenSeesItself(seqLen: nat, chunkId: nat, totalChunks: nat, overlap: nat, i: nat)
    requires totalChunks >= 1 && (chunkId < totalChunks - 1 ==> overlap <= seqLen)
    ensures MaskEntry(seqLen, chunkId, totalChunks, overlap, i, i) == 1.0
  {
  }

  // ---------------------------------------------------------------------
  // UnifiedMemoryManager::cache and get_cached

  /** The cache after `cache(key, tensor)`: past 100 entries the oldest goes, then the new pair is appended. */
  function CacheAfter<T>(entries: seq<(string, T)>, key: string, tensor: T): (r: seq<(string, T)>)
    ensures |r| >= 1 && r[|r| - 1] == (key, tensor)
    ensures |entries| <= 100 ==> r == entries + [(key, tensor)]
    ensures |entries| > 100 ==> r == entries[1..] + [(key, tensor)]
  {
    (if |entries| > 100 then entries[1..] else entries) + [(key, tensor)]
  }

  /** `get_cached`: the tensor of the oldest entry with the key. */
  function Lookup<T>(entries: seq<(string, T)>, key: string): (r: Option<T>)
    ensures r.None? <==> forall k :: 0 <= k < |entries| ==> entries[k].0 != key
    ensures r.Some? ==> exists k :: 0 <= k < |entries| && entries[k] == (key, r.value) &&
                                   forall j :: 0 <= j < k ==> entries[j].0 != key
  {
    if entries == [] then None
    else if entries[0].0 == key then Some(entries[0].1)
    else
      var rest := Lookup(entries[1..], key);
      assert forall k :: 1 <= k < |entries| ==> entries[k] == entries[1..][k - 1];
      rest
  }

  /** The cache never holds more than 101 entries, and once it has 101 it keeps 101. */
  lemma {:induction false} CacheBound<T>(entries: seq<(string, T)>, key: string, tensor: T)
    requires |entries| <= 101
    ensures |CacheAfter(entries, key, tensor)| <= 101
    ensures |entries| == 101 ==> |CacheAfter(entries, key, tensor)| == 101
  {
  }

  lemma LookupAppend<T>(entries: seq<(string, T)>, extra: seq<(string, T)>, key: string)
    requires Lookup(entries, key).Some?
    ensures Lookup(entries + extra, key) == Lookup(entries, key)
    decreases |entries|
  {
    if entries[0].0 != key {
      assert (entries + extra)[1..] == entries[1..] + extra;
      LookupAppend(entries[1..], extra, key);
    }
  }

  /**
   * Caching a key that is already cached does not change what `get_cached`
   * returns for it, unless the oldest entry, evicted by this call, is that
   * key's first one.
   */
  lemma RecacheKeepsLookup<T>(entries: seq<(string, T)>, key: string, tensor: T)
    requires Lookup(entries, key).Some?
    requires |entries| > 100 ==> entries[0].0 != key
    ensures Lookup(CacheAfter(entries, key, tensor), key) == Lookup(entries, key)
  {
    if |entries| > 100 {
      assert Lookup(entries[1..], key) == Lookup(entries, key);
      LookupAppend(entries[1..], [(key, tensor)], key);
    } else {
      LookupAppend(entries, [(key, tensor)], key);
    }
  }

  /** A key cached for the first time is found with its tensor. */
  lemma {:induction false} NewKeyFound<T>(entries: seq<(string, T)>, key: string, tensor: T)
    requires Lookup(entries, key).None?
    ensures Lookup(CacheAfter(entries, key, tensor), key) == Some(tensor)
  {
    var r := CacheAfter(entries, key, tensor);
    var k :| 0 <= k < |r| && r[k] == (key, Lookup(r, key).value) && forall j :: 0 <= j < k ==> r[j].0 != key;
    assert k == |r| - 1;
  }

  /** `UnifiedMemoryManager`, with only its tensor cache. */
  class MemoryManager<T> {
    var cachedTensors: seq<(string, T)>

    predicate Valid()
      reads this
    {
      |cachedTensors| <= 101
    }

    /** `new`: an empty cache. */
    constructor ()
      ensures Valid() && cachedTensors == []
    {
      cachedTensors := [];
    }

    /** `cache`. */
    method Cache(key: string, tensor: T)
      requires Valid()
      modifies this
      ensures Valid()
      ensures cachedTensors == CacheAfter(old(cachedTensors), key, tensor)
    {
      if |cachedTensors| > 100 {
        cachedTensors := cachedTensors[1..];
      }
      cachedTensors := cachedTensors + [(key, tensor)];
    }

    /** `get_cached`: nothing when no entry has the key, otherwise the tensor of the oldest one that does. */
    function GetCached(key: string): (r: Option<T>)
      reads this
      ensures r.None? <==> forall k :: 0 <= k < |cachedTensors| ==> cachedTensors[k].0 != key
      ensures r.Some? ==> exists k :: 0 <= k < |cachedTensors| && cachedTensors[k] == (key, r.value) &&
                                     forall j :: 0 <= j < k ==> cachedTensors[j].0 != key
    {
      Lookup(cachedTensors, key)
    }
  }
}
