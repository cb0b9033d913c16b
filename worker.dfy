/**
 * The tile worker of src/core/worker.ts: the ring counter that assigns atlas slots,
 * the decode loop that copies one tile of 256 x 256 heights into its slot of the
 * height buffer while tracking the lowest and highest height, and the batch loop
 * of the message handler.
 *
 * Loading a file is a parameter `files` from file names to their bytes; `None`
 * stands for a file that cannot be loaded.  When a load does not complete, the
 * promise the handler awaits never resolves and no answer is posted, so the
 * batch result is `None`.
 */
module Worker {
  import opened Common
  import TileIndex
  import TileKey

  /** Number of slots in the height atlas: `maxTextures`. */
  const MaxTextures: int := 500
  /** Heights in one tile: `256 * 256`. */
  const TileSamples: int := 65536
  const MaxHeight: real := 800.0

  newtype byte = b: int | 0 <= b < 256

  // ---------------------------------------------------------------------------
  // The ring counter `textureIdx++ % maxTextures`
  // ---------------------------------------------------------------------------

  /** The slot of the `k`-th request (counting from 0) since the worker started. */
  function SlotOf(k: nat): int {
    (1 + k) % MaxTextures
  }

  /** The module-level counter `textureIdx`. */
  class SlotAllocator {
    var textureIdx: int

    predicate Valid()
      reads this
    {
      textureIdx >= 1
    }

    /** `let textureIdx = 1`. */
    constructor ()
      ensures Valid() && textureIdx == 1
    {
      textureIdx := 1;
    }

    /** `textureIdx++ % maxTextures`: the slot for the next request. */
    method Next() returns (slot: int)
      requires Valid()
      modifies this
      ensures Valid() && textureIdx == old(textureIdx) + 1
      ensures slot == old(textureIdx) % MaxTextures == SlotOf(old(textureIdx) - 1)
      ensures 0 <= slot < MaxTextures
    {
      slot := textureIdx % MaxTextures;
      textureIdx := textureIdx + 1;
    }
  }

  /** Every slot is an atlas index. */
  lemma SlotInRange(k: nat)
    ensures 0 <= SlotOf(k) < MaxTextures
  {
  }

  /** The counter starts at 1, so the first request gets slot 1. */
  lemma FirstSlot()
    ensures SlotOf(0) == 1
  {
  }

  /** Any 500 consecutive requests get pairwise distinct slots. */
  lemma SlotsDistinct(j: nat, k: nat)
    requires j < k < j + MaxTextures
    ensures SlotOf(j) != SlotOf(k)
  {
    CounterSlotsDistinct(1, j, k);
  }

  /** With the counter at `counter`, requests fewer than 500 places apart take distinct slots. */
  lemma CounterSlotsDistinct(counter: int, j: nat, k: nat)
    requires j < k < j + MaxTextures
    ensures (counter + j) % MaxTextures != (counter + k) % MaxTextures
  {
    var a, b := counter + j, counter + k;
    assert a == (a / MaxTextures) * MaxTextures + a % MaxTextures;
    assert b == (b / MaxTextures) * MaxTextures + b % MaxTextures;
  }

  /** The 501st request gets the slot of the first again: the slots repeat with period 500. */
  lemma SlotsRepeat(k: nat)
    ensures SlotOf(k + MaxTextures) == SlotOf(k)
  {
  }

  // ---------------------------------------------------------------------------
  // Decoding one tile
  // ---------------------------------------------------------------------------

  /** `new Uint16Array(data)` on a little-endian host; a byte length that is not even throws. */
  function Samples(bytes: seq<byte>): (r: Option<seq<int>>)
    ensures r.Some? <==> |bytes| % 2 == 0
    ensures r.Some? ==>
      (|r.value| == |bytes| / 2 && forall i :: 0 <= i < |r.value| ==> 0 <= r.value[i] < 65536)
  {
    if |bytes| % 2 != 0 then None
    else Some(seq(|bytes| / 2, i requires 0 <= i < |bytes| / 2 =>
      bytes[2 * i] as int + 256 * bytes[2 * i + 1] as int))
  }

  /** `(dataBuffer[i] / 65535.0) * 800`; reading past the end of the samples yields NaN. */
  function Height(data: seq<int>, i: nat): F32 {
    if i < |data| then Num(data[i] as real / 65535.0 * MaxHeight) else NaN
  }

  /** The 65536 heights the loop reads, in order. */
  function Heights(data: seq<int>): (hs: seq<F32>)
    ensures |hs| == TileSamples
  {
    seq(TileSamples, i requires 0 <= i < TileSamples => Height(data, i))
  }

  /** The running extremes `minY` and `maxY`. */
  datatype Extremes = Extremes(minY: real, maxY: real)

  /** One loop step: `if (height > maxY) maxY = height; else if (height < minY) minY = height;` (NaN compares false). */
  function Track(e: Extremes, h: F32): Extremes {
    if h.Num? && h.value > e.maxY then Extremes(e.minY, h.value)
    else if h.Num? && h.value < e.minY then Extremes(h.value, e.maxY)
    else e
  }

  /** The extremes after the loop has seen `hs`, starting from `minY = 800`, `maxY = 0`. */
  function Scan(hs: seq<F32>): Extremes
    decreases |hs|
  {
    if |hs| == 0 then Extremes(MaxHeight, 0.0) else Track(Scan(hs[..|hs| - 1]), hs[|hs| - 1])
  }

  /** The first index of the slot `texIdx` in the height buffer. */
  function SlotBase(texIdx: nat): nat {
    texIdx * TileSamples
  }

  /** `buf` with the first `n` heights of `data` written from index `base` on; indices past its end are not written. */
  function Written(buf: seq<F32>, base: nat, data: seq<int>, n: nat): (r: seq<F32>)
    ensures |r| == |buf|
  {
    seq(|buf|, j requires 0 <= j < |buf| => if base <= j < base + n then Height(data, j - base) else buf[j])
  }

  /** The buffer after tile `data` is written into slot `texIdx`. */
  function WriteTile(buf: seq<F32>, texIdx: nat, data: seq<int>): (r: seq<F32>)
    ensures |r| == |buf|
  {
    Written(buf, SlotBase(texIdx), data, TileSamples)
  }

  /** Writing one more height extends the written range by the index `base + n`, if it exists. */
  lemma WrittenStep(buf: seq<F32>, base: nat, data: seq<int>, n: nat)
    ensures base + n < |buf| ==>
      Written(buf, base, data, n + 1) == Written(buf, base, data, n)[base + n := Height(data, n)]
    ensures base + n >= |buf| ==> Written(buf, base, data, n + 1) == Written(buf, base, data, n)
  {
  }

  /** The decode loop of `loadTileFromFile`: writes the heights into slot `texIdx` and returns their extremes. */
  method DecodeTile(buffer: array<F32>, data: seq<int>, texIdx: nat) returns (e: Extremes)
    modifies buffer
    ensures buffer[..] == WriteTile(old(buffer[..]), texIdx, data)
    ensures e == Scan(Heights(data))
  {
    var minY, maxY := MaxHeight, 0.0;
    var i := 0;
    var base := texIdx * TileSamples;
    ghost var hs := Heights(data);
    ghost var buf0 := buffer[..];
    while i < TileSamples
      invariant 0 <= i <= TileSamples
      invariant Extremes(minY, maxY) == Scan(hs[..i])
      invariant buffer[..] == Written(buf0, base, data, i)
    {
      var stride := base + i;
      var height := Height(data, i);
      WrittenStep(buf0, base, data, i);
      if stride < buffer.Length {
        buffer[stride] := height;
      }
      if height.Num? && height.value > maxY {
        maxY := height.value;
      } else if height.Num? && height.value < minY {
        minY := height.value;
      }
      assert hs[..i + 1][..i] == hs[..i];
      i := i + 1;
    }
    assert hs[..TileSamples] == hs;
    e := Extremes(minY, maxY);
  }

  // ---------------------------------------------------------------------------
  // What the extremes are
  // ---------------------------------------------------------------------------

  /** The final `maxY` bounds every height from above and is 0 or one of the heights: it is max(0, all heights). */
  lemma {:induction false} ScanMax(hs: seq<F32>)
    decreases |hs|
    ensures forall i :: 0 <= i < |hs| && hs[i].Num? ==> hs[i].value <= Scan(hs).maxY
    ensures Scan(hs).maxY >= 0.0
    ensures Scan(hs).maxY == 0.0 || exists i :: 0 <= i < |hs| && hs[i] == Num(Scan(hs).maxY)
  {
    if hs != [] {
      var p := hs[..|hs| - 1];
      ScanMax(p);
      assert forall i :: 0 <= i < |p| ==> p[i] == hs[i];
      if Scan(hs).maxY != 0.0 && Scan(hs).maxY == Scan(p).maxY {
        var i :| 0 <= i < |p| && p[i] == Num(Scan(p).maxY);
        assert hs[i] == Num(Scan(hs).maxY);
      }
    }
  }

  /**
   * The final `minY` is 800 or one of the heights, so it is at least min(800, all heights),
   * and it is below every height that did not raise `maxY` when it was read.
   */
  lemma {:induction false} ScanMin(hs: seq<F32>)
    decreases |hs|
    ensures Scan(hs).minY <= MaxHeight
    ensures Scan(hs).minY == MaxHeight || exists i :: 0 <= i < |hs| && hs[i] == Num(Scan(hs).minY)
    ensures forall i :: 0 <= i < |hs| && hs[i].Num? && hs[i].value <= Scan(hs[..i]).maxY ==>
      Scan(hs).minY <= hs[i].value
  {
    if hs != [] {
      var p := hs[..|hs| - 1];
      ScanMin(p);
      assert forall i :: 0 <= i < |p| ==> p[i] == hs[i] && p[..i] == hs[..i];
      assert hs[..|hs| - 1] == p;
      if Scan(hs).minY != MaxHeight && Scan(hs).minY == Scan(p).minY {
        var i :| 0 <= i < |p| && p[i] == Num(Scan(p).minY);
        assert hs[i] == Num(Scan(hs).minY);
      }
    }
  }

  /** Because of the `else if`, a height that raises `maxY` is never compared with `minY`: ascending heights leave it at 800. */
  lemma ScanMinMissesRisingHeights()
    ensures Scan([Num(10.0), Num(20.0)]) == Extremes(MaxHeight, 20.0)
  {
    assert [Num(10.0), Num(20.0)][..1] == [Num(10.0)];
    assert [Num(10.0)][..0] == [];
  }

  /** Heights decoded from 16-bit samples lie in [0, 800]. */
  lemma HeightRange(data: seq<int>, i: nat)
    requires forall k :: 0 <= k < |data| ==> 0 <= data[k] < 65536
    ensures Height(data, i).Num? ==> 0.0 <= Height(data, i).value <= MaxHeight
  {
  }

  /** The slots of distinct atlas indices are disjoint ranges of the height buffer. */
  lemma SlotsDisjoint(s1: nat, s2: nat, j: int)
    requires s1 != s2
    ensures !(SlotBase(s1) <= j < SlotBase(s1) + TileSamples && SlotBase(s2) <= j < SlotBase(s2) + TileSamples)
  {
  }

  /**
   * Decoding a tile into slot `s1` writes its heights there and nowhere else, and
   * decoding another tile into a different slot `s2` afterwards leaves them intact.
   */
  lemma WritesDoNotInterfere(buf: seq<F32>, s1: nat, d1: seq<int>, s2: nat, d2: seq<int>)
    requires s1 != s2
    ensures forall j :: 0 <= j < |buf| && !(SlotBase(s1) <= j < SlotBase(s1) + TileSamples) ==>
      WriteTile(buf, s1, d1)[j] == buf[j]
    ensures forall j :: 0 <= j < |buf| && SlotBase(s1) <= j < SlotBase(s1) + TileSamples ==>
      WriteTile(WriteTile(buf, s1, d1), s2, d2)[j] == Height(d1, j - SlotBase(s1))
  {
    var w1 := WriteTile(buf, s1, d1);
    forall j | 0 <= j < |buf| && SlotBase(s1) <= j < SlotBase(s1) + TileSamples
      ensures WriteTile(w1, s2, d2)[j] == Height(d1, j - SlotBase(s1))
    {
      SlotsDisjoint(s1, s2, j);
    }
  }

  // ---------------------------------------------------------------------------
  // The message handler
  // ---------------------------------------------------------------------------

  /** One element of `ev.data`: the level and the world position of a requested tile. */
  datatype Request = Request(level: int, x: real, y: real)

  /** One element of the posted `result`. */
  datatype Response = Response(level: int, x: real, y: real, texId: int, minY: real, maxY: real)

  /** `tileIdx`: the Z-order index of the tile cell holding the request's position. */
  function TileIdx(r: Request): int {
    var size := TileIndex.TileSizeAt(if r.level < 0 then 0 else r.level);
    TileIndex.ZOrder(TileIndex.TileCoord(r.x, size), TileIndex.TileCoord(r.y, size))
  }

  /** The 16-bit samples of the request's tile file, when the file loads and decodes. */
  function Load(files: string -> Option<seq<byte>>, r: Request): Option<seq<int>> {
    match files(TileKey.FileName(r.level, TileIdx(r)))
    case None => None
    case Some(bytes) => Samples(bytes)
  }

  /**
   * Where the handler stands: the responses so far (`None` once a load has failed and
   * the handler waits forever), the number of slots taken and the height buffer.
   */
  datatype Progress = Progress(answer: Option<seq<Response>>, taken: nat, heights: seq<F32>)

  /** One pass of the `for...of` body, with the counter at `counter + taken`. */
  function Step(counter: int, p: Progress, r: Request, loaded: Option<seq<int>>): Progress {
    if p.answer.None? then p
    else match loaded
      case None => Progress(None, p.taken + 1, p.heights)
      case Some(data) =>
        var slot := (counter + p.taken) % MaxTextures;
        var e := Scan(Heights(data));
        Progress(Some(p.answer.value + [Response(r.level, r.x, r.y, slot, e.minY, e.maxY)]),
                 p.taken + 1, WriteTile(p.heights, slot, data))
  }

  lemma StepLoaded(counter: int, p: Progress, r: Request, data: seq<int>, slot: int, e: Extremes)
    requires p.answer.Some? && slot == (counter + p.taken) % MaxTextures && e == Scan(Heights(data))
    ensures Step(counter, p, r, Some(data)) ==
      Progress(Some(p.answer.value + [Response(r.level, r.x, r.y, slot, e.minY, e.maxY)]),
               p.taken + 1, WriteTile(p.heights, slot, data))
  {
  }

  /** The handler after the requests `rs`, starting with the counter at `counter` and the buffer `buf`. */
  function Run(counter: int, buf: seq<F32>, rs: seq<Request>, files: string -> Option<seq<byte>>): Progress
    decreases |rs|
  {
    if rs == [] then Progress(Some([]), 0, buf)
    else Step(counter, Run(counter, buf, rs[..|rs| - 1], files), rs[|rs| - 1], Load(files, rs[|rs| - 1]))
  }

  lemma RunSnoc(counter: int, buf: seq<F32>, rs: seq<Request>, files: string -> Option<seq<byte>>, i: nat)
    requires i < |rs|
    ensures Run(counter, buf, rs[..i + 1], files) == Step(counter, Run(counter, buf, rs[..i], files), rs[i], Load(files, rs[i]))
  {
    assert rs[..i + 1][..i] == rs[..i];
  }

  /** A batch is its last request's step after all the others. */
  lemma RunLast(counter: int, buf: seq<F32>, rs: seq<Request>, files: string -> Option<seq<byte>>)
    requires rs != []
    ensures Run(counter, buf, rs, files) ==
      Step(counter, Run(counter, buf, rs[..|rs| - 1], files), rs[|rs| - 1], Load(files, rs[|rs| - 1]))
  {
  }

  /** Once a load has failed, later requests change nothing. */
  lemma {:induction false} RunAfterFailure(counter: int, buf: seq<F32>, rs: seq<Request>,
                                           files: string -> Option<seq<byte>>, k: nat)
    requires k <= |rs| && Run(counter, buf, rs[..k], files).answer.None?
    decreases |rs| - k
    ensures Run(counter, buf, rs, files) == Run(counter, buf, rs[..k], files)
  {
    if k < |rs| {
      RunSnoc(counter, buf, rs, files, k);
      RunAfterFailure(counter, buf, rs, files, k + 1);
    } else {
      assert rs[..k] == rs;
    }
  }

  /**
   * One pass of the `for...of` body while every earlier load has succeeded: takes the
   * next slot, loads the tile and, when it decodes, writes it into that slot and
   * returns its response; `None` when the file is missing or does not decode.
   */
  method ServeRequest(alloc: SlotAllocator, buffer: array<F32>, r: Request,
                      files: string -> Option<seq<byte>>, ghost counter: int, ghost p: Progress)
    returns (resp: Option<Response>)
    requires alloc.Valid() && p.answer.Some?
    requires alloc.textureIdx == counter + p.taken && buffer[..] == p.heights
    modifies alloc, buffer
    ensures alloc.Valid() && alloc.textureIdx == old(alloc.textureIdx) + 1
    ensures Step(counter, p, r, Load(files, r)) ==
      Progress(if resp.None? then None else Some(p.answer.value + [resp.value]), p.taken + 1, buffer[..])
  {
    var tileSize := TileIndex.TileSize(r.level);
    var tileX := TileIndex.TileCoord(r.x, tileSize);
    var tileY := TileIndex.TileCoord(r.y, tileSize);
    var tileIdx := TileIndex.ZOrder(tileX, tileY);
    var slot := alloc.Next();
    var fetched := files(TileKey.FileName(r.level, tileIdx));
    var data := if fetched.None? then None else Samples(fetched.value);
    assert data == Load(files, r);
    if data.None? {
      return None;
    }
    var e := DecodeTile(buffer, data.value, slot);
    StepLoaded(counter, p, r, data.value, slot, e);
    resp := Some(Response(r.level, r.x, r.y, slot, e.minY, e.maxY));
  }

  /**
   * The `onmessage` handler: serves the requests in order, and stops without an answer
   * at the first tile that does not load.
   */
  method HandleBatch(alloc: SlotAllocator, buffer: array<F32>, requests: seq<Request>,
                     files: string -> Option<seq<byte>>) returns (result: Option<seq<Response>>)
    requires alloc.Valid()
    modifies alloc, buffer
    ensures alloc.Valid() && alloc.textureIdx >= old(alloc.textureIdx)
    ensures Run(old(alloc.textureIdx), old(buffer[..]), requests, files) ==
      Progress(result, alloc.textureIdx - old(alloc.textureIdx), buffer[..])
  {
    ghost var counter := alloc.textureIdx;
    ghost var buf0 := buffer[..];
    var out: seq<Response> := [];
    var i := 0;
    while i < |requests|
      invariant 0 <= i <= |requests|
      invariant alloc.Valid() && alloc.textureIdx == counter + i
      invariant Run(counter, buf0, requests[..i], files) == Progress(Some(out), i, buffer[..])
    {
      RunSnoc(counter, buf0, requests, files, i);
      var resp := ServeRequest(alloc, buffer, requests[i], files, counter, Progress(Some(out), i, buffer[..]));
      if resp.None? {
        RunAfterFailure(counter, buf0, requests, files, i + 1);
        return None;
      }
      out := out + [resp.value];
      i := i + 1;
    }
    assert requests[..i] == requests;
    result := Some(out);
  }

  /**
   * The handler answers exactly when every load succeeds.  The answer then holds one
   * response per request, in request order, each with the request's level and position,
   * the slot of its place in the counter sequence and the extremes of its tile, and the
   * handler has taken one slot per request.
   */
  lemma {:induction false} RunShape(counter: int, buf: seq<F32>, rs: seq<Request>, files: string -> Option<seq<byte>>)
    decreases |rs|
    ensures Run(counter, buf, rs, files).answer.Some? <==> forall i :: 0 <= i < |rs| ==> Load(files, rs[i]).Some?
    ensures Run(counter, buf, rs, files).answer.Some? ==> ShapeOk(counter, rs, files, Run(counter, buf, rs, files))
  {
    if rs != [] {
      var p := rs[..|rs| - 1];
      RunShape(counter, buf, p, files);
      assert forall i :: 0 <= i < |p| ==> p[i] == rs[i];
      if Run(counter, buf, rs, files).answer.Some? {
        ShapeSnoc(counter, buf, rs, files);
      }
    }
  }

  /** The answer of `p` has one response per request of `rs`, built as the source builds it. */
  predicate ShapeOk(counter: int, rs: seq<Request>, files: string -> Option<seq<byte>>, p: Progress)
    requires p.answer.Some?
  {
    p.taken == |rs| && ResponsesOk(counter, rs, files, p.answer.value)
  }

  /** One response per request, each built as the source builds it. */
  predicate ResponsesOk(counter: int, rs: seq<Request>, files: string -> Option<seq<byte>>, out: seq<Response>) {
    |out| == |rs| && forall i :: 0 <= i < |rs| ==> ResponseOk(counter, i, rs[i], files, out[i])
  }

  predicate ResponseOk(counter: int, i: nat, r: Request, files: string -> Option<seq<byte>>, resp: Response) {
    && resp.level == r.level && resp.x == r.x && resp.y == r.y
    && resp.texId == (counter + i) % MaxTextures
    && Load(files, r).Some?
    && Extremes(resp.minY, resp.maxY) == Scan(Heights(Load(files, r).value))
  }

  lemma ShapeSnoc(counter: int, buf: seq<F32>, rs: seq<Request>, files: string -> Option<seq<byte>>)
    requires rs != [] && Run(counter, buf, rs, files).answer.Some?
    requires ShapeOk(counter, rs[..|rs| - 1], files, Run(counter, buf, rs[..|rs| - 1], files))
    ensures ShapeOk(counter, rs, files, Run(counter, buf, rs, files))
  {
    var p, last := rs[..|rs| - 1], rs[|rs| - 1];
    RunLastResponse(counter, buf, rs, files);
    ResponseForOk(counter, |p|, last, files);
    ResponsesSnoc(counter, rs, files, Run(counter, buf, p, files).answer.value,
                  ResponseFor(counter, |p|, last, Load(files, last).value));
  }

  /** The response the handler pushes for request `r`, the `i`-th since the counter stood at `counter`. */
  function ResponseFor(counter: int, i: int, r: Request, data: seq<int>): Response {
    var e := Scan(Heights(data));
    Response(r.level, r.x, r.y, (counter + i) % MaxTextures, e.minY, e.maxY)
  }

  /** The response pushed for a request whose tile loads is the one the source builds for it. */
  lemma ResponseForOk(counter: int, i: nat, r: Request, files: string -> Option<seq<byte>>)
    requires Load(files, r).Some?
    ensures ResponseOk(counter, i, r, files, ResponseFor(counter, i, r, Load(files, r).value))
  {
  }

  /** The last request of an answered batch, after one slot per earlier request, appended its response. */
  lemma RunLastResponse(counter: int, buf: seq<F32>, rs: seq<Request>, files: string -> Option<seq<byte>>)
    requires rs != [] && Run(counter, buf, rs, files).answer.Some?
    requires Run(counter, buf, rs[..|rs| - 1], files).taken == |rs| - 1
    ensures Run(counter, buf, rs[..|rs| - 1], files).answer.Some? && Load(files, rs[|rs| - 1]).Some?
    ensures Run(counter, buf, rs, files).taken == |rs|
    ensures Run(counter, buf, rs, files).answer.value == Run(counter, buf, rs[..|rs| - 1], files).answer.value +
      [ResponseFor(counter, |rs| - 1, rs[|rs| - 1], Load(files, rs[|rs| - 1]).value)]
  {
    var p, last := rs[..|rs| - 1], rs[|rs| - 1];
    var prev, loaded := Run(counter, buf, p, files), Load(files, last);
    RunLast(counter, buf, rs, files);
    StepWrite(counter, prev, last, loaded);
    assert ResponseFor(counter, prev.taken, last, loaded.value) == ResponseFor(counter, |rs| - 1, last, loaded.value);
  }

  lemma ResponsesSnoc(counter: int, rs: seq<Request>, files: string -> Option<seq<byte>>,
                                         out: seq<Response>, resp: Response)
    requires rs != [] && ResponsesOk(counter, rs[..|rs| - 1], files, out)
    requires ResponseOk(counter, |rs| - 1, rs[|rs| - 1], files, resp)
    ensures ResponsesOk(counter, rs, files, out + [resp])
  {
    var p, o := rs[..|rs| - 1], out + [resp];
    forall i | 0 <= i < |rs|
      ensures ResponseOk(counter, i, rs[i], files, o[i])
    {
      if i < |p| {
        assert ResponseOk(counter, i, p[i], files, out[i]);
        assert p[i] == rs[i] && o[i] == out[i];
      }
    }
  }

  /** Slot `slot` of `heights` holds the heights of `data`, as far as the buffer reaches. */
  predicate HoldsTile(heights: seq<F32>, slot: nat, data: seq<int>) {
    forall j :: 0 <= j < |heights| && SlotBase(slot) <= j < SlotBase(slot) + TileSamples ==>
      heights[j] == Height(data, j - SlotBase(slot))
  }

  /** Writing a tile into `slot` makes the slot hold it and keeps every tile held in another slot. */
  lemma WriteTileHolds(heights: seq<F32>, slot: nat, data: seq<int>, other: nat, held: seq<int>)
    ensures HoldsTile(WriteTile(heights, slot, data), slot, data)
    ensures other != slot && HoldsTile(heights, other, held) ==>
      HoldsTile(WriteTile(heights, slot, data), other, held)
  {
    if other != slot {
      forall j | 0 <= j < |heights| && SlotBase(other) <= j < SlotBase(other) + TileSamples
        ensures WriteTile(heights, slot, data)[j] == heights[j]
      {
        SlotsDisjoint(other, slot, j);
      }
    }
  }

  /**
   * A step that leaves an answer had one before and loaded its tile. It appended the
   * tile's response, took one slot and wrote the tile into it.
   */
  lemma StepWrite(counter: int, p: Progress, r: Request, loaded: Option<seq<int>>)
    requires Step(counter, p, r, loaded).answer.Some?
    ensures p.answer.Some? && loaded.Some?
    ensures Step(counter, p, r, loaded).taken == p.taken + 1
    ensures Step(counter, p, r, loaded).answer.value == p.answer.value + [ResponseFor(counter, p.taken, r, loaded.value)]
    ensures Step(counter, p, r, loaded).heights ==
      WriteTile(p.heights, (counter + p.taken) % MaxTextures, loaded.value)
  {
  }

  /** What each request of `rs` loads, in request order. */
  function Loads(files: string -> Option<seq<byte>>, rs: seq<Request>): (r: seq<Option<seq<int>>>)
    decreases |rs|
    ensures |r| == |rs|
  {
    if rs == [] then [] else Loads(files, rs[..|rs| - 1]) + [Load(files, rs[|rs| - 1])]
  }

  /** Element `i` of `Loads(files, rs)` is what request `i` loads. */
  lemma {:induction false} LoadsAt(files: string -> Option<seq<byte>>, rs: seq<Request>, i: nat)
    requires i < |rs|
    decreases |rs|
    ensures Loads(files, rs)[i] == Load(files, rs[i])
  {
    if i < |rs| - 1 {
      var p := rs[..|rs| - 1];
      LoadsAt(files, p, i);
      assert p[i] == rs[i];
    }
  }

  /** A batch that answers has taken one slot per request. */
  lemma {:induction false} RunTaken(counter: int, buf: seq<F32>, rs: seq<Request>, files: string -> Option<seq<byte>>)
    requires Run(counter, buf, rs, files).answer.Some?
    decreases |rs|
    ensures Run(counter, buf, rs, files).taken == |rs|
  {
    if rs != [] {
      var p, last := rs[..|rs| - 1], rs[|rs| - 1];
      RunLast(counter, buf, rs, files);
      StepWrite(counter, Run(counter, buf, p, files), last, Load(files, last));
      RunTaken(counter, buf, p, files);
    }
  }

  /** Every tile of `loads` loaded and is held in the slot of its place after `counter`. */
  predicate AllHeld(heights: seq<F32>, counter: int, loads: seq<Option<seq<int>>>) {
    forall i :: 0 <= i < |loads| ==>
      && loads[i].Some?
      && HoldsTile(heights, (counter + i) % MaxTextures, loads[i].value)
  }

  /** A step of a batch of fewer than 500 answers writes the next slot and keeps every earlier tile. */
  lemma AllHeldStep(counter: int, p: Progress, r: Request, loaded: Option<seq<int>>, loads: seq<Option<seq<int>>>)
    requires Step(counter, p, r, loaded).answer.Some?
    requires p.taken == |loads| < MaxTextures && AllHeld(p.heights, counter, loads)
    ensures AllHeld(Step(counter, p, r, loaded).heights, counter, loads + [loaded])
  {
    StepWrite(counter, p, r, loaded);
    var slot := (counter + |loads|) % MaxTextures;
    var next, all := Step(counter, p, r, loaded).heights, loads + [loaded];
    forall i | 0 <= i < |all|
      ensures all[i].Some? && HoldsTile(next, (counter + i) % MaxTextures, all[i].value)
    {
      if i < |loads| {
        CounterSlotsDistinct(counter, i, |loads|);
        WriteTileHolds(p.heights, slot, loaded.value, (counter + i) % MaxTextures, loads[i].value);
      } else {
        WriteTileHolds(p.heights, slot, loaded.value, slot, loaded.value);
      }
    }
  }

  /**
   * After a batch of at most 500 requests that all load, the slot of every request
   * holds that request's tile: no later write of the batch overwrites an earlier one.
   */
  lemma {:induction false} BatchTilesIntact(counter: int, buf: seq<F32>, rs: seq<Request>,
                                            files: string -> Option<seq<byte>>)
    requires |rs| <= MaxTextures && Run(counter, buf, rs, files).answer.Some?
    decreases |rs|
    ensures |Run(counter, buf, rs, files).heights| == |buf|
    ensures AllHeld(Run(counter, buf, rs, files).heights, counter, Loads(files, rs))
  {
    if rs != [] {
      var p, last := rs[..|rs| - 1], rs[|rs| - 1];
      RunLast(counter, buf, rs, files);
      StepWrite(counter, Run(counter, buf, p, files), last, Load(files, last));
      BatchTilesIntact(counter, buf, p, files);
      RunTaken(counter, buf, p, files);
      assert Loads(files, rs) == Loads(files, p) + [Load(files, last)];
      AllHeldStep(counter, Run(counter, buf, p, files), last, Load(files, last), Loads(files, p));
    }
  }
}
