/** In-place differential update, as functions: what the commit engine leaves in the partition,
    what a run of the patch library sees through it, and what an out-of-place run would see. */
module PatchSpec {
  import opened Bits
  import opened Storage

  datatype Option<+T> = None | Some(value: T)

  /** One callback of the patch library, or its return. */
  datatype Call =
    | ReadOld(addr: U32, size: U32)
    | ReadPatch(size: U32)
    | WriteNew(data: seq<Byte>)
    | Finish(ok: bool)

  /** The library: its next call may depend on every answer it got so far. */
  type Library = seq<seq<Byte>> -> Call

  /** What the run is about: the partition as found, the package from the patch file on, the length
      of the patch file, swap capacity and sector size. */
  datatype Job = Job(orig: seq<Byte>, patch: seq<Byte>, patchLen: int, capacity: nat, sector: nat) {
    predicate Valid() {
      && 0 < capacity && 0 < sector
      && Whole(|orig|, sector)
    }
  }

  function PackageFrom(package: seq<Byte>, offset: nat): seq<Byte> {
    if offset <= |package| then package[offset..] else []
  }

  // Partition contents

  /** New bytes, erased cells up to `mark`, and the original from there on. */
  function ImageAt(done: seq<Byte>, orig: seq<Byte>, mark: nat): (r: seq<Byte>)
    requires |done| <= mark <= |orig|
    ensures |r| == |orig|
  {
    done + Fill(mark - |done|) + orig[mark..]
  }

  /** Partition after the bytes `done` were committed: erased up to the next sector boundary. */
  function Image(done: seq<Byte>, orig: seq<Byte>, sector: nat): seq<Byte>
    requires sector > 0 && Whole(|orig|, sector) && |done| <= |orig|
  {
    AlignUpLeast(|done|, sector, |orig|);
    ImageAt(done, orig, AlignUp(|done|, sector))
  }

  /** Bytes committed after `w` bytes went through a swap of capacity `c`: whole buffers only. */
  function Committed(w: nat, c: nat): nat
    requires c > 0
  {
    AlignDown(w, c)
  }

  lemma CommittedUnique(w: nat, c: nat, k: nat)
    requires c > 0 && Whole(k, c) && k <= w < k + c
    ensures k == Committed(w, c)
  {
    if k < Committed(w, c) {
      WholeApart(k, Committed(w, c), c);
    } else if Committed(w, c) < k {
      WholeApart(Committed(w, c), k, c);
    }
  }

  lemma CommittedWholeBuffers(w: nat, c: nat)
    requires c > 0
    ensures Committed(w, c) == c * (w / c) && w - Committed(w, c) == w % c
  {
    AlignDownMod(w, c);
  }

  /** First offset at which the partition still holds original bytes, after `w` new bytes. */
  function Watermark(w: nat, j: Job): nat
    requires j.Valid()
  {
    AlignUp(Committed(w, j.capacity), j.sector)
  }

  /** What the old partition holds after the library has written `stream`. */
  function Contents(stream: seq<Byte>, j: Job): seq<Byte>
    requires j.Valid() && Committed(|stream|, j.capacity) <= |j.orig|
  {
    Image(stream[..Committed(|stream|, j.capacity)], j.orig, j.sector)
  }

  // Runs of the library

  /** The next piece of the patch file: clipped to its declared length, an error when the
      package partition ends before that. */
  function PatchRead(j: Job, pos: nat, size: nat): Option<seq<Byte>> {
    if pos >= j.patchLen || size == 0 then Some([])
    else
      var n := if size > j.patchLen - pos then j.patchLen - pos else size;
      if pos + n > |j.patch| then None else Some(j.patch[pos..pos + n])
  }

  /** How far a run got: position in the patch file and all new bytes. */
  datatype Progress = Progress(pos: nat, out: seq<Byte>)

  /** The answer to one callback when the old partition reads as `old_`. */
  function Serve(call: Call, j: Job, old_: seq<Byte>, p: Progress): (r: Option<(seq<Byte>, Progress)>)
    ensures r.Some? ==> p.out <= r.value.1.out
  {
    match call
    case Finish(_) => None
    case ReadOld(a, k) => if RangeOk(old_, a, k) then Some((old_[a..a + k], p)) else None
    case ReadPatch(k) =>
      var data := PatchRead(j, p.pos, k);
      if data.Some? then Some((data.value, p.(pos := p.pos + |data.value|))) else None
    case WriteNew(data) => Some(([], p.(out := p.out + data)))
  }

  /** Whole buffers committed so far fit into the partition. */
  predicate Fits(p: Progress, j: Job)
    requires j.Valid()
  {
    Committed(|p.out|, j.capacity) <= |j.orig|
  }

  /** A run against an untouched copy of the old image: `Some(all new bytes)` on success. */
  function OutOfPlace(lib: Library, n: nat, hist: seq<seq<Byte>>, j: Job, p: Progress): (r: Option<seq<Byte>>)
    ensures r.Some? ==> p.out <= r.value
    decreases n
  {
    if n == 0 then None
    else if lib(hist).Finish? then if lib(hist).ok then Some(p.out) else None
    else
      var r := Serve(lib(hist), j, j.orig, p);
      if r.None? then None else OutOfPlace(lib, n - 1, hist + [r.value.0], j, r.value.1)
  }

  /** The same run against the partition that it is overwriting. */
  function InPlace(lib: Library, n: nat, hist: seq<seq<Byte>>, j: Job, p: Progress): Option<seq<Byte>>
    requires j.Valid() && Fits(p, j)
    decreases n
  {
    if n == 0 then None
    else if lib(hist).Finish? then if lib(hist).ok then Some(p.out) else None
    else
      var r := Serve(lib(hist), j, Contents(p.out, j), p);
      if r.None? || !Fits(r.value.1, j) then None
      else InPlace(lib, n - 1, hist + [r.value.0], j, r.value.1)
  }

  /** Along the out-of-place run, every old read stays at or above the watermark of the bytes
      written before it. */
  predicate ReadsAhead(lib: Library, n: nat, hist: seq<seq<Byte>>, j: Job, p: Progress)
    requires j.Valid()
    decreases n
  {
    if n == 0 || lib(hist).Finish? then true
    else
      var call, r := lib(hist), Serve(lib(hist), j, j.orig, p);
      r.Some? ==>
        && (call.ReadOld? && call.size > 0 ==> call.addr >= Watermark(|p.out|, j))
        && ReadsAhead(lib, n - 1, hist + [r.value.0], j, r.value.1)
  }

  // Theorems

  /** Reads at or above the watermark return original bytes. */
  lemma ReadAboveWatermark(stream: seq<Byte>, j: Job, a: nat, k: nat)
    requires j.Valid() && Committed(|stream|, j.capacity) <= |j.orig|
    requires a + k <= |j.orig| && (k == 0 || a >= Watermark(|stream|, j))
    ensures Contents(stream, j)[a..a + k] == j.orig[a..a + k]
  {
    AlignUpLeast(Committed(|stream|, j.capacity), j.sector, |j.orig|);
  }

  /** The watermark is exact: an offset is safe to read for all images and all data
      if and only if it is at or above it. */
  lemma WatermarkExact(j: Job, w: nat, a: nat)
    requires j.Valid() && Committed(w, j.capacity) <= |j.orig| && a < |j.orig|
    ensures a >= Watermark(w, j) <==>
            forall stream: seq<Byte>, orig: seq<Byte> | |stream| == w && |orig| == |j.orig| ::
              Contents(stream, j.(orig := orig))[a] == orig[a]
  {
    if a < Watermark(w, j) {
      var stream, orig: seq<Byte> := Fill(w), seq(|j.orig|, _ => 0);
      assert Contents(stream, j.(orig := orig))[a] == 0xFF;
    } else {
      forall stream: seq<Byte>, orig: seq<Byte> | |stream| == w && |orig| == |j.orig|
        ensures Contents(stream, j.(orig := orig))[a] == orig[a]
      {
        ReadAboveWatermark(stream, j.(orig := orig), a, 1);
        assert Contents(stream, j.(orig := orig))[a..a + 1][0] == orig[a..a + 1][0];
      }
    }
  }

  lemma CommittedMonotone(v: nat, w: nat, c: nat)
    requires c > 0 && v <= w
    ensures Committed(v, c) <= Committed(w, c)
  {
    if Committed(w, c) < Committed(v, c) {
      WholeApart(Committed(w, c), Committed(v, c), c);
    }
  }

  /** In-place patching refines out-of-place patching: with reads ahead of the watermark, the two
      runs succeed together with the same bytes, unless the new image outgrows the partition. */
  lemma {:induction false} InPlaceRefinesOutOfPlace(lib: Library, n: nat, hist: seq<seq<Byte>>, j: Job, p: Progress)
    requires j.Valid() && Fits(p, j) && ReadsAhead(lib, n, hist, j, p)
    ensures InPlace(lib, n, hist, j, p) ==
            var r := OutOfPlace(lib, n, hist, j, p);
            if r.Some? && Committed(|r.value|, j.capacity) <= |j.orig| then r else None
  {
    if n > 0 && !lib(hist).Finish? {
      var call, r := lib(hist), Serve(lib(hist), j, j.orig, p);
      if call.ReadOld? && r.Some? {
        ReadAboveWatermark(p.out, j, call.addr, call.size);
      }
      assert Serve(call, j, Contents(p.out, j), p) == r;
      if r.Some? {
        var next, all := r.value.1, OutOfPlace(lib, n - 1, hist + [r.value.0], j, r.value.1);
        if Fits(next, j) {
          InPlaceRefinesOutOfPlace(lib, n - 1, hist + [r.value.0], j, next);
        } else if all.Some? {
          CommittedMonotone(|next.out|, |all.value|, j.capacity);
        }
      }
    }
  }

  /** What a whole update comes to: the new image, if the run succeeds, its length is the announced
      one and it fits. */
  function PatchOutcome(lib: Library, n: nat, j: Job, newerLen: int): Option<seq<Byte>> {
    if !j.Valid() then None
    else
      var r := InPlace(lib, n, [], j, Progress(0, []));
      if r.Some? && |r.value| <= |j.orig| && |r.value| == newerLen then r else None
  }

  /** A differential update with reads ahead of the watermark succeeds exactly when the
      out-of-place run yields an image of the announced length that fits, and then yields it. */
  lemma DifferentialUpdate(lib: Library, n: nat, j: Job, newerLen: int)
    requires j.Valid() && ReadsAhead(lib, n, [], j, Progress(0, []))
    ensures PatchOutcome(lib, n, j, newerLen) ==
            var r := OutOfPlace(lib, n, [], j, Progress(0, []));
            if r.Some? && |r.value| <= |j.orig| && |r.value| == newerLen then r else None
  {
    InPlaceRefinesOutOfPlace(lib, n, [], j, Progress(0, []));
  }

  // One commit

  lemma CommitFits(a: nat, n: nat, size: nat, sector: nat)
    requires sector > 0 && a <= size && Whole(size, sector)
    ensures AlignDown(a, sector) <= AlignUp(a, sector) <= AlignUp(a + n, sector)
    ensures AlignUp(a, sector) <= size
    ensures a + n <= size <==> AlignUp(a + n, sector) <= size
  {
    AlignUpLeast(a, sector, AlignUp(a + n, sector));
    AlignUpLeast(a, sector, size);
    if a + n <= size {
      AlignUpLeast(a + n, sector, size);
    }
  }

  function EraseSpan(m: seq<Byte>, lo: nat, hi: nat): seq<Byte>
    requires hi <= |m|
  {
    if lo < hi then m[..lo] + Fill(hi - lo) + m[hi..] else m
  }

  /** The erase of a commit: from the old watermark to the new one. */
  lemma EraseStep(done: seq<Byte>, orig: seq<Byte>, lo: nat, hi: nat)
    requires |done| <= lo <= hi <= |orig|
    ensures EraseSpan(ImageAt(done, orig, lo), lo, hi) == ImageAt(done, orig, hi)
  {
  }

  /** The copy of a commit: programs the swap contents behind the bytes already there. */
  lemma ProgramStep(done: seq<Byte>, data: seq<Byte>, orig: seq<Byte>, hi: nat)
    requires |done| + |data| <= hi <= |orig|
    ensures Programmed(ImageAt(done, orig, hi), |done|, data) == ImageAt(done + data, orig, hi)
  {
    var m := ImageAt(done, orig, hi);
    ProgramErased(m, |done|, data);
    assert m[|done| + |data|..] == Fill(hi - |done| - |data|) + orig[hi..];
    assert m[..|done|] == done;
  }

  // Flash discipline

  /** Marks of a log read so far: the end of the last erase, the end of the erased front of the partition,
      the end of the last program, and whether every operation kept the discipline. */
  datatype Span = Span(erased: nat, covered: nat, programmed: nat, ok: bool)

  const FRESH_SPAN := Span(0, 0, 0, true)

  function TileStep(p: Span, op: Op, sector: nat): Span
    requires sector > 0
  {
    match op
    case Erase(_, off, len) =>
      Span(off + len, if off == p.covered then off + len else p.covered, p.programmed,
           p.ok && off >= p.erased && Whole(off, sector) && Whole(off + len, sector))
    case Program(_, off, data) =>
      Span(p.erased, p.covered, off + |data|, p.ok && off == p.programmed && off + |data| <= p.covered)
  }

  /** Reads a log of one partition: erases must go upwards on whole sectors, programs must follow each
      other and stay inside the erased front. */
  function Tile(ops: seq<Op>, sector: nat): Span
    requires sector > 0
  {
    if ops == [] then FRESH_SPAN
    else TileStep(Tile(ops[..|ops| - 1], sector), ops[|ops| - 1], sector)
  }

  lemma TileAppend(ops: seq<Op>, op: Op, sector: nat)
    requires sector > 0
    ensures Tile(ops + [op], sector) == TileStep(Tile(ops, sector), op, sector)
  {
    assert (ops + [op])[..|ops|] == ops;
  }

  /** Operations on the old partition since the last mark, and their reading. */
  function RunOps(log: Log): seq<Op> {
    match log
    case Empty => []
    case Mark(_) => []
    case Then(init, op) => if op.t == App then RunOps(init) + [op] else RunOps(init)
  }

  function RunSpan(log: Log, sector: nat): Span
    requires sector > 0
  {
    match log
    case Empty => FRESH_SPAN
    case Mark(_) => FRESH_SPAN
    case Then(init, op) => if op.t == App then TileStep(RunSpan(init, sector), op, sector) else RunSpan(init, sector)
  }

  lemma {:induction false} RunSpanTiles(log: Log, sector: nat)
    requires sector > 0
    ensures RunSpan(log, sector) == Tile(RunOps(log), sector)
  {
    match log
    case Empty =>
    case Mark(_) =>
    case Then(init, op) =>
      RunSpanTiles(init, sector);
      TileAppend(RunOps(init), op, sector);
  }

  predicate Touches(op: Op, x: nat) {
    match op
    case Erase(_, off, len) => off <= x < off + len
    case Program(_, off, data) => off <= x < off + |data|
  }

  lemma {:induction false} TilePrefix(ops: seq<Op>, sector: nat, i: nat)
    requires sector > 0 && i <= |ops| && Tile(ops, sector).ok
    ensures var p, q := Tile(ops[..i], sector), Tile(ops, sector);
            && p.ok && p.erased <= q.erased
            && p.covered <= q.covered <= q.erased && p.programmed <= q.programmed <= q.covered
    decreases |ops|
  {
    if i == |ops| {
      assert ops[..i] == ops;
      if ops != [] {
        TilePrefix(ops[..|ops| - 1], sector, |ops| - 1);
      }
    } else {
      TilePrefix(ops[..|ops| - 1], sector, i);
      assert ops[..|ops| - 1][..i] == ops[..i];
    }
  }

  lemma {:induction false} ErasedCovers(ops: seq<Op>, sector: nat, x: nat)
    requires sector > 0 && Tile(ops, sector).ok && x < Tile(ops, sector).covered
    ensures exists i :: 0 <= i < |ops| && ops[i].Erase? && Touches(ops[i], x)
  {
    var n := |ops| - 1;
    if ops[n].Erase? && Touches(ops[n], x) {
    } else {
      ErasedCovers(ops[..n], sector, x);
      var i :| 0 <= i < n && ops[..n][i].Erase? && Touches(ops[..n][i], x);
      assert ops[i] == ops[..n][i];
    }
  }

  lemma StepEnds(ops: seq<Op>, sector: nat, i: nat)
    requires sector > 0 && Tile(ops, sector).ok && i < |ops|
    ensures var p, q := Tile(ops[..i], sector), Tile(ops[..i + 1], sector);
            && p.programmed <= p.covered <= p.erased
            && (ops[i].Erase? ==> ops[i].off >= p.erased && ops[i].off + ops[i].len == q.erased)
            && (ops[i].Program? ==>
                && ops[i].off == p.programmed
                && ops[i].off + |ops[i].data| == q.programmed <= p.covered)
  {
    TilePrefix(ops, sector, i);
    TilePrefix(ops[..i], sector, i);
    TilePrefix(ops, sector, i + 1);
    TileAppend(ops[..i], ops[i], sector);
    assert ops[..i] + [ops[i]] == ops[..i + 1];
  }

  /** In a tiled log every programmed byte was erased before. */
  lemma ProgramsErasedBytes(ops: seq<Op>, sector: nat, k: nat, x: nat)
    requires sector > 0 && Tile(ops, sector).ok && k < |ops| && ops[k].Program? && Touches(ops[k], x)
    ensures exists e :: 0 <= e < k && ops[e].Erase? && Touches(ops[e], x)
  {
    StepEnds(ops, sector, k);
    TilePrefix(ops, sector, k);
    ErasedCovers(ops[..k], sector, x);
    var e :| 0 <= e < k && ops[..k][e].Erase? && Touches(ops[..k][e], x);
    assert ops[e] == ops[..k][e];
  }

  /** In a tiled log no byte is erased twice, and a programmed byte is neither programmed again
      nor erased afterwards. */
  lemma Discipline(ops: seq<Op>, sector: nat, i: nat, k: nat, x: nat)
    requires sector > 0 && Tile(ops, sector).ok && i < k < |ops| && Touches(ops[k], x)
    ensures !(ops[i].Erase? && ops[k].Erase? && Touches(ops[i], x))
    ensures !(ops[i].Program? && Touches(ops[i], x))
  {
    StepEnds(ops, sector, i);
    StepEnds(ops, sector, k);
    TilePrefix(ops, sector, k);
    TilePrefix(ops[..k], sector, i + 1);
    assert ops[..k][..i + 1] == ops[..i + 1];
  }

  // Joint invariant

  /** Partition bytes, swap bytes and counters all follow from the old image and the bytes written. */
  ghost predicate Joint(app: seq<Byte>, swap: seq<Byte>, erased: nat, committed: nat,
                        orig: seq<Byte>, stream: seq<Byte>, sector: nat)
  {
    && 0 < sector && Whole(|orig|, sector)
    && committed <= |orig| && committed <= |stream|
    && swap == stream[committed..]
    && erased == AlignUp(committed, sector)
    && app == Image(stream[..committed], orig, sector)
  }

  /** A commit keeps the joint invariant and empties the swap. */
  lemma CommitJoint(app: seq<Byte>, swap: seq<Byte>, erased: nat, committed: nat,
                    orig: seq<Byte>, stream: seq<Byte>, sector: nat)
    requires Joint(app, swap, erased, committed, orig, stream, sector) && |stream| <= |orig|
    ensures var hi := AlignUp(|stream|, sector);
            && erased <= hi <= |app| == |orig|
            && Joint(Programmed(EraseSpan(app, erased, hi), committed, swap), [], hi, |stream|, orig, stream, sector)
  {
    var done, hi := stream[..committed], AlignUp(|stream|, sector);
    assert done + swap == stream && stream[..|stream|] == stream && stream[|stream|..] == [];
    CommitFits(committed, |swap|, |orig|, sector);
    EraseStep(done, orig, erased, hi);
    ProgramStep(done, swap, orig, hi);
  }

  /** Buffering keeps the joint invariant. */
  lemma JointAppend(app: seq<Byte>, swap: seq<Byte>, erased: nat, committed: nat,
                    orig: seq<Byte>, stream: seq<Byte>, sector: nat, data: seq<Byte>)
    requires Joint(app, swap, erased, committed, orig, stream, sector)
    ensures Joint(app, swap + data, erased, committed, orig, stream + data, sector)
  {
    assert (stream + data)[..committed] == stream[..committed];
    assert (stream + data)[committed..] == stream[committed..] + data;
  }

  lemma ConcatSplit(a: seq<Byte>, b: seq<Byte>, n: nat)
    requires n <= |b|
    ensures a + b[..n] + b[n..] == a + b
  {
  }

  lemma PackageSlice(package: seq<Byte>, offset: nat, pos: nat, n: nat)
    requires 0 < n
    ensures var p := PackageFrom(package, offset);
            && (pos + n <= |p| <==> RangeOk(package, offset + pos, n))
            && (pos + n <= |p| ==> p[pos..pos + n] == package[offset + pos..offset + pos + n])
  {
  }

  lemma WholeNext(k: nat, c: nat)
    requires c > 0 && Whole(k, c)
    ensures Whole(k + c, c) && Committed(k + c, c) == k + c
  {
    AlignWhole(k + c, c);
  }

  lemma JointStart(orig: seq<Byte>, sector: nat)
    requires sector > 0 && Whole(|orig|, sector)
    ensures Joint(orig, [], 0, 0, orig, [], sector)
  {
    AlignWhole(0, sector);
    assert ImageAt([], orig, 0) == orig;
  }

  /** The erase behind the last commit leaves the new image followed by erased cells. */
  lemma FinalImage(app: seq<Byte>, erased: nat, committed: nat, orig: seq<Byte>, stream: seq<Byte>, sector: nat)
    requires Joint(app, [], erased, committed, orig, stream, sector)
    ensures committed == |stream| && AlignUp(|orig|, sector) == |orig| && erased <= |orig| == |app|
    ensures Whole(erased, sector)
    ensures EraseSpan(app, erased, |orig|) == stream + Fill(|orig| - |stream|)
  {
    AlignWhole(|orig|, sector);
    AlignUpLeast(committed, sector, |orig|);
    assert stream[..committed] == stream;
    EraseStep(stream, orig, erased, |orig|);
  }

  /** What an update, finished or not, leaves of the old image: bytes of the new image, erased cells up to a
      sector boundary, original bytes, and erased cells from `lo` on. */
  ghost predicate LeftAs(app: seq<Byte>, orig: seq<Byte>, done: seq<Byte>, lo: nat, sector: nat) {
    && 0 < sector && Whole(|orig|, sector) && |done| <= |orig|
    && AlignUp(|done|, sector) <= lo <= |orig| && Whole(lo, sector)
    && app == EraseSpan(Image(done, orig, sector), lo, |orig|)
  }

  /** Between commits, the committed bytes and nothing else have replaced original ones. */
  lemma JointLeaves(app: seq<Byte>, swap: seq<Byte>, erased: nat, committed: nat, orig: seq<Byte>, stream: seq<Byte>,
                    sector: nat)
    requires Joint(app, swap, erased, committed, orig, stream, sector)
    ensures LeftAs(app, orig, stream[..committed], |orig|, sector)
  {
    AlignUpLeast(committed, sector, |orig|);
  }

  /** Where the erase behind an image of the announced length starts. */
  function TailStart(newerLen: nat, erased: nat, sector: nat): nat
    requires sector > 0
  {
    var rounded := AlignUp(newerLen, sector);
    if rounded < erased then erased else rounded
  }

  lemma TailFits(newerLen: nat, erased: nat, size: nat, sector: nat)
    requires sector > 0 && Whole(size, sector) && Whole(erased, sector) && newerLen <= size && erased <= size
    ensures erased <= TailStart(newerLen, erased, sector) <= size && Whole(TailStart(newerLen, erased, sector), sector)
  {
    AlignUpLeast(newerLen, sector, size);
  }
}
