/** string.dump and load together. */
module Chunks {
  import opened Wrappers
  import opened ChunkInputs
  import opened ChunkFormat
  import opened ChunkWriters
  import opened ChunkDecoders

  /** What is dumped is loaded again, in whatever pieces: the same tree but for inherited names and empty debug
      records, unless its functions nest too deeply for the loader. */
  method DumpAndLoad(layout: Layout, canonical: nat -> nat, verified: Prototype -> bool, p: Prototype, sizes: seq<nat>, controlled: bool)
    returns (r: Option<Result<Prototype>>)
    requires (layout.wordSize == 4 || layout.wordSize == 8) && Readable(canonical, verified, p, FALLBACK_SOURCE)
    ensures r.Some? <==> Dumpable(layout, p, None)
    ensures r.Some? ==> r.value == if Height(p) <= MAX_DEPTH then Ok(Decoded(p, FALLBACK_SOURCE)) else Err(TooDeep)
  {
    var chunk := DumpPrototype(layout, p);
    if chunk.None? {
      return None;
    }
    CutUnread(chunk.value, sizes);
    var input := new ChunkInput.FromRefills(Cut(chunk.value, sizes), controlled);
    var decoder := new ChunkDecoder(layout, canonical, verified, input);
    var loaded := decoder.DecodeBinaryChunk(true, p, []);
    return Some(loaded);
  }
}
