/** The commit engine of the in-place differential update: new bytes collect in a swap buffer (RAM or
    a storage area) and are committed to the old partition when the buffer is full. */
module Hpatch {
  import opened Bits
  import opened Storage
  import opened PatchSpec

  datatype Backend = RamSwap | StorageSwap(offset: U32)

  class Patcher {
    const store: Store
    const backend: Backend
    const ramBuf: array<Byte>   // the swap itself in RAM mode, the copy buffer in storage mode
    const patchOffset: U32
    const patchLen: int
    var writePos: nat
    var capacity: nat
    var committedLen: nat
    var patchReadPos: nat
    var erasedEnd: U32

    ghost var orig: seq<Byte>     // the old partition as found
    ghost var stream: seq<Byte>   // all new bytes so far

    constructor (store: Store, backend: Backend, bufSize: nat, patchOffset: U32, patchLen: int)
      ensures this.store == store && this.backend == backend && fresh(ramBuf) && ramBuf.Length == bufSize
      ensures this.patchOffset == patchOffset && this.patchLen == patchLen
      ensures writePos == committedLen == patchReadPos == 0 && erasedEnd == 0
      ensures stream == [] && orig == Mem(store.parts, App)
    {
      this.store, this.backend, this.patchOffset, this.patchLen := store, backend, patchOffset, patchLen;
      ramBuf := new Byte[bufSize](_ => 0);
      writePos, capacity, committedLen, patchReadPos, erasedEnd := 0, 0, 0, 0, 0;
      stream, orig := [], Mem(store.parts, App);
    }

    // Swap backends

    ghost predicate SwapOk()
      reads this, store
    {
      && 0 < capacity && writePos <= capacity && 0 < store.sector
      && match backend
         case RamSwap => capacity == ramBuf.Length
         case StorageSwap(o) =>
           && ramBuf.Length > 0
           && SwapArea in store.parts && o + capacity == |store.parts[SwapArea]| < 0x8000_0000
           && forall i :: o + writePos <= i < o + capacity ==> store.parts[SwapArea][i] == 0xFF
    }

    /** The bytes in the swap, whichever backend holds them. */
    ghost function SwapBytes(): (r: seq<Byte>)
      requires SwapOk()
      reads this, store, ramBuf
      ensures |r| == writePos
    {
      match backend
      case RamSwap => ramBuf[..writePos]
      case StorageSwap(o) => store.parts[SwapArea][o..o + writePos]
    }

    /** Only the swap area may differ. */
    twostate predicate OnlySwap()
      reads store
    {
      && store.parts.Keys == old(store.parts.Keys)
      && (forall t :: t in store.parts && t != SwapArea ==> store.parts[t] == old(store.parts[t]))
      && store.sector > 0 && RunSpan(store.log, store.sector) == RunSpan(old(store.log), store.sector)
    }

    /** Prepares the swap; the storage backend erases its area first. */
    method InitSwap() returns (ok: bool)
      requires 0 < store.sector && 0 < ramBuf.Length && writePos == 0
      requires |Mem(store.parts, SwapArea)| < 0x8000_0000
      modifies this`capacity, store
      ensures ok <==> backend.RamSwap? || backend.offset < |old(Mem(store.parts, SwapArea))|
      ensures ok ==> SwapOk() && capacity == Capacity(backend, ramBuf.Length, |old(Mem(store.parts, SwapArea))|)
      ensures OnlySwap()
    {
      match backend
      case RamSwap =>
        capacity := ramBuf.Length;
        ok := true;
      case StorageSwap(o) =>
        var size := |Mem(store.parts, SwapArea)|;
        ok := o < size;
        if ok {
          capacity := size - o;
          ok := EraseSwap(o);
        }
    }

    method EraseSwap(o: U32) returns (ok: bool)
      requires 0 < store.sector && 0 < capacity
      requires SwapArea in store.parts && o + capacity == |store.parts[SwapArea]| < 0x8000_0000
      modifies store
      ensures ok && OnlySwap()
      ensures |store.parts[SwapArea]| == |old(store.parts[SwapArea])|
      ensures forall i :: o <= i < o + capacity ==> store.parts[SwapArea][i] == 0xFF
    {
      ok := store.EraseWithFeed(SwapArea, o, capacity);
    }

    method Append(data: seq<Byte>) returns (ok: bool)
      requires SwapOk() && writePos + |data| <= capacity
      modifies this`writePos, store, ramBuf
      ensures ok && SwapOk() && OnlySwap()
      ensures SwapBytes() == old(SwapBytes()) + data
    {
      match backend
      case RamSwap =>
        forall i | 0 <= i < |data| {
          ramBuf[writePos + i] := data[i];
        }
        writePos := writePos + |data|;
        ok := true;
      case StorageSwap(o) =>
        ok := AppendStorage(o, data);
    }

    method AppendStorage(o: U32, data: seq<Byte>) returns (ok: bool)
      requires backend == StorageSwap(o)
      requires SwapOk() && writePos + |data| <= capacity
      modifies this`writePos, store
      ensures ok && SwapOk() && OnlySwap()
      ensures SwapBytes() == old(SwapBytes()) + data
    {
      hide And, Programmed, TileStep;
      ProgramErased(store.parts[SwapArea], o + writePos, data);
      ok := store.Write(SwapArea, o + writePos, data);
      if ok {
        writePos := writePos + |data|;
      }
    }

    method Reset() returns (ok: bool)
      requires SwapOk()
      modifies this`writePos, store
      ensures ok && SwapOk() && OnlySwap() && writePos == 0
    {
      match backend
      case RamSwap =>
        writePos := 0;
        ok := true;
      case StorageSwap(o) =>
        ok := EraseSwap(o);
        if ok {
          writePos := 0;
        }
    }

    /** The old partition may be programmed here: erased that far, programmed up to `committedLen`. */
    ghost predicate Programmable(size: nat)
      reads this, store
    {
      && 0 < store.sector && 0 < size
      && committedLen + size <= |Mem(store.parts, App)| < 0x8000_0000
      && committedLen + size <= erasedEnd
      && RunSpan(store.log, store.sector) == Span(erasedEnd, erasedEnd, committedLen, true)
    }

    /** The effect of programming `data` there. */
    twostate predicate Copied(data: seq<Byte>)
      requires old(Programmable(|data|))
      reads this, store
    {
      && store.parts == old(store.parts)[App := Programmed(old(store.parts[App]), old(committedLen), data)]
      && RunSpan(store.log, store.sector) == Span(old(erasedEnd), old(erasedEnd), old(committedLen) + |data|, true)
    }

    /** Copies the swap bytes to the old partition at `committedLen`. */
    method CopyToOld(size: nat) returns (ok: bool)
      requires SwapOk() && size == writePos && Programmable(size)
      modifies store, ramBuf
      ensures ok && SwapOk() && SwapBytes() == old(SwapBytes())
      ensures Copied(old(SwapBytes()))
    {
      match backend
      case RamSwap => ok := CopyRamToOld(size);
      case StorageSwap(o) => ok := CopyStorageToOld(size, o);
    }

    method CopyRamToOld(size: nat) returns (ok: bool)
      requires Programmable(size) && size <= ramBuf.Length
      modifies store
      ensures ok && Copied(ramBuf[..size])
    {
      ok := store.Write(App, committedLen, ramBuf[..size]);
    }

    /** Moves one piece of the swap area through the RAM buffer. */
    method CopyPiece(src: U32, dst: U32, chunk: U32) returns (ok: bool)
      requires 0 < store.sector && chunk <= ramBuf.Length
      modifies store, ramBuf
      ensures ok <==>
        && RangeOk(old(Mem(store.parts, SwapArea)), src, chunk)
        && RangeOk(old(Mem(store.parts, App)), dst, chunk)
      ensures ok ==> var piece := old(store.parts[SwapArea])[src..src + chunk];
                     && store.parts == old(store.parts)[App := Programmed(old(store.parts[App]), dst, piece)]
                     && store.log == Then(old(store.log), Program(App, dst, piece))
    {
      var data;
      ok, data := store.Read(SwapArea, src, chunk);
      if ok {
        forall i | 0 <= i < chunk {
          ramBuf[i] := data[i];
        }
        assert ramBuf[..chunk] == data;
        ok := store.Write(App, dst, ramBuf[..chunk]);
      }
    }

    /** The storage backend copies through its RAM buffer, chunk by chunk. */
    method CopyStorageToOld(size: nat, o: U32) returns (ok: bool)
      requires Programmable(size) && 0 < ramBuf.Length
      requires o + size <= |Mem(store.parts, SwapArea)| < 0x8000_0000
      modifies store, ramBuf
      ensures ok && Copied(old(store.parts[SwapArea])[o..o + size])
    {
      ghost var m, swap, done := store.parts[App], store.parts[SwapArea], [];
      var remaining, src, dst := size, o, committedLen;
      ok := true;
      assert Programmed(m, committedLen, done) == m;
      while ok && remaining > 0
        invariant ok && 0 <= remaining && src + remaining == o + size
        invariant o <= src && done == swap[o..src] && dst == committedLen + |done|
        invariant store.parts == old(store.parts)[App := Programmed(m, committedLen, done)]
        invariant RunSpan(store.log, store.sector) == Span(erasedEnd, erasedEnd, dst, true)
        decreases remaining
      {
        var chunk := if remaining > ramBuf.Length then ramBuf.Length else remaining;
        ghost var piece := swap[src..src + chunk];
        ok := CopyPiece(src, dst, chunk);
        SliceJoin(swap, o, src, src + chunk);
        ProgramChunks(m, committedLen, done, piece);
        done := done + piece;
        src, dst, remaining := src + chunk, dst + chunk, remaining - chunk;
      }
    }

    // Commit engine

    ghost predicate Valid()
      reads this, store, ramBuf
    {
      && SwapOk() && App in store.parts
      && IsPow2(store.sector) && |orig| + capacity + store.sector < 0x8000_0000
      && RunSpan(store.log, store.sector) == Span(erasedEnd, erasedEnd, committedLen, true)
      && Joint(store.parts[App], SwapBytes(), erasedEnd, committedLen, orig, stream, store.sector)
    }

    /** A byte range rounded to sectors with the alignment macros. */
    method SectorRange(start: U32, end: U32, alignStartUp: bool) returns (eraseStart: U32, eraseEnd: U32)
      requires IsPow2(store.sector) && start + store.sector < 0x1_0000_0000 && end + store.sector < 0x1_0000_0000
      ensures eraseStart == if alignStartUp then AlignUp(start, store.sector) else AlignDown(start, store.sector)
      ensures eraseEnd == AlignUp(end, store.sector)
    {
      RtAlignExact(start, store.sector);
      RtAlignExact(end, store.sector);
      eraseStart := if alignStartUp then RtAlign(start, store.sector) else RtAlignDown(start, store.sector);
      eraseEnd := RtAlign(end, store.sector);
    }

    /** Erases the whole sectors of a range that are not erased yet. */
    method EraseAlignedRange(start: U32, end: U32, alignStartUp: bool, ghost lo: nat, ghost hi: nat) returns (ok: bool)
      requires IsPow2(store.sector) && end + store.sector < 0x1_0000_0000
      requires Whole(erasedEnd, store.sector)
      requires var first := if alignStartUp then AlignUp(start, store.sector) else AlignDown(start, store.sector);
               lo == if first < erasedEnd then erasedEnd else first
      requires hi == AlignUp(end, store.sector)
      modifies this`erasedEnd, store
      ensures end <= start || hi <= lo ==> ok && unchanged(this) && unchanged(store)
      ensures start < end && lo < hi ==> ok == (hi <= |Mem(old(store.parts), App)|)
      ensures !ok ==> unchanged(this) && unchanged(store)
      ensures start < end && lo < hi && ok ==>
                && store.parts == old(store.parts)[App := EraseSpan(old(store.parts[App]), lo, hi)]
                && store.log == Then(old(store.log), Erase(App, lo, hi - lo))
                && erasedEnd == hi
    {
      if end <= start {
        return true;
      }
      var eraseStart, eraseEnd := SectorRange(start, end, alignStartUp);
      if eraseEnd <= erasedEnd {
        return true;
      }
      if eraseStart < erasedEnd {
        eraseStart := erasedEnd;
      }
      ok := true;
      if eraseEnd > eraseStart {
        ok := EraseSectors(eraseStart, eraseEnd);
      }
    }

    method EraseSectors(lo: U32, hi: U32) returns (ok: bool)
      requires 0 < store.sector && lo < hi && Whole(lo, store.sector) && Whole(hi, store.sector)
      modifies this`erasedEnd, store
      ensures ok == (hi <= |Mem(old(store.parts), App)|)
      ensures !ok ==> unchanged(this) && unchanged(store)
      ensures ok ==>
                && store.parts == old(store.parts)[App := EraseSpan(old(store.parts[App]), lo, hi)]
                && store.log == Then(old(store.log), Erase(App, lo, hi - lo))
                && erasedEnd == hi
    {
      if hi <= |Mem(store.parts, App)| {
        EraseAligned(store.parts[App], lo, hi, store.sector);
      }
      ok := store.EraseWithFeed(App, lo, hi - lo);
      if ok {
        erasedEnd := hi;
      }
    }

    /** Erases what the buffered bytes will need; fails when the partition is too small for them. */
    method EraseForCommit() returns (ok: bool)
      requires Valid() && 0 < writePos
      modifies this`erasedEnd, store
      ensures ok <==> |stream| <= |orig|
      ensures !ok ==> unchanged(this) && unchanged(store)
      ensures SwapOk() && SwapBytes() == old(SwapBytes())
      ensures ok ==>
                var hi := AlignUp(|stream|, store.sector);
                && App in store.parts && hi <= |orig| == |store.parts[App]| && erasedEnd == hi
                && store.parts == old(store.parts)[App := EraseSpan(old(store.parts[App]), old(erasedEnd), hi)]
                && RunSpan(store.log, store.sector) == Span(hi, hi, committedLen, true)
    {
      hide ImageAt, And, AlignDown, Whole, IsPow2, Fill, Programmed, Erased;
      ghost var hi := AlignUp(|stream|, store.sector);
      CommitFits(committedLen, writePos, |orig|, store.sector);
      ok := EraseAlignedRange(committedLen, committedLen + writePos, false, erasedEnd, hi);
    }

    /** What a run that stops between commits leaves. */
    lemma LeavesCommitted()
      requires Valid()
      ensures App in store.parts && committedLen + writePos == |stream| && committedLen <= |orig|
      ensures RunSpan(store.log, store.sector).ok
      ensures LeftAs(store.parts[App], orig, stream[..committedLen], |orig|, store.sector)
    {
      JointLeaves(store.parts[App], SwapBytes(), erasedEnd, committedLen, orig, stream, store.sector);
    }

    /** What a commit comes to in the partition, and that the joint invariant holds of it. */
    lemma CommitStands()
      requires Valid() && |stream| <= |orig|
      ensures App in store.parts && committedLen + writePos == |stream|
      ensures var hi := AlignUp(|stream|, store.sector);
              && erasedEnd <= hi <= |store.parts[App]| == |orig|
              && Joint(Programmed(EraseSpan(store.parts[App], erasedEnd, hi), committedLen, SwapBytes()), [],
                       hi, |stream|, orig, stream, store.sector)
    {
      CommitJoint(store.parts[App], SwapBytes(), erasedEnd, committedLen, orig, stream, store.sector);
    }

    /** Commits the buffered bytes. */
    method SwapCommit() returns (ok: bool)
      requires Valid()
      modifies this`writePos, this`committedLen, this`erasedEnd, store, ramBuf
      ensures ok <==> old(writePos) == 0 || |stream| <= |orig|
      ensures Valid() && (ok ==> writePos == 0 && committedLen == |stream|)
      ensures store.parts.Keys == old(store.parts.Keys) && Mem(store.parts, Download) == old(Mem(store.parts, Download))
    {
      hide Image, ImageAt, And, TileStep, RunSpan, AlignDown, AlignUp, Whole, IsPow2, Fill, Programmed, EraseSpan,
           SwapOk, SwapBytes, Joint;
      var used := writePos;
      if used == 0 {
        LeavesCommitted();
        return true;
      }
      if |stream| <= |orig| {
        CommitStands();
      }
      ok := EraseForCommit();
      if !ok {
        return;
      }
      ghost var app := Programmed(store.parts[App], committedLen, SwapBytes());
      ok := CopyToOld(used);
      if ok {
        committedLen := committedLen + used;
        ok := Reset();
        assert store.parts[App] == app && SwapBytes() == [];
      }
    }

    // Listener callbacks

    /** The package partition is never touched by a run. */
    ghost predicate ForJob(j: Job)
      reads this, store
    {
      && j.orig == orig && j.capacity == capacity && j.sector == store.sector && j.patchLen == patchLen
      && j.patch == PackageFrom(Mem(store.parts, Download), patchOffset)
      && patchOffset + (if patchLen > 0 then patchLen else 0) < 0x1_0000_0000
    }

    /** State between two callbacks: the invariant, and only whole buffers committed. */
    ghost predicate Ready()
      reads this, store, ramBuf
    {
      Valid() && committedLen == Committed(|stream|, capacity)
    }

    twostate predicate KeepsPackage()
      reads store
    {
      store.parts.Keys == old(store.parts.Keys) && Mem(store.parts, Download) == old(Mem(store.parts, Download))
    }

    method DoReadOld(addr: U32, size: U32) returns (ok: bool, data: seq<Byte>)
      ensures ok == RangeOk(Mem(store.parts, App), addr, size)
      ensures ok ==> data == store.parts[App][addr..addr + size]
    {
      ok, data := store.Read(App, addr, size);
    }

    method DoReadPatch(size: U32, ghost j: Job) returns (ok: bool, data: seq<Byte>)
      requires ForJob(j)
      modifies this`patchReadPos
      ensures PatchRead(j, old(patchReadPos), size) == if ok then Some(data) else None
      ensures patchReadPos == old(patchReadPos) + |data|
      ensures ForJob(j) && (old(Ready()) ==> Ready())
    {
      if patchReadPos >= patchLen {
        return true, [];
      }
      var remaining := patchLen - patchReadPos;
      var n := if size > remaining then remaining else size;
      if n == 0 {
        return true, [];
      }
      PackageSlice(Mem(store.parts, Download), patchOffset, patchReadPos, n);
      ok, data := store.Read(Download, patchOffset + patchReadPos, n);
      if ok {
        patchReadPos := patchReadPos + n;
      }
    }

    /** Buffers bytes that fit. */
    method BufferBytes(data: seq<Byte>) returns (ok: bool)
      requires Valid() && |data| <= capacity - writePos
      modifies this`writePos, this`stream, store, ramBuf
      ensures ok && Valid() && stream == old(stream) + data && writePos == old(writePos) + |data|
      ensures KeepsPackage()
    {
      JointAppend(store.parts[App], SwapBytes(), erasedEnd, committedLen, orig, stream, store.sector, data);
      ok := Append(data);
      stream := stream + data;
    }

    /** One round of the write loop: buffers a piece that fits and commits a full buffer. */
    method WriteChunk(data: seq<Byte>) returns (ok: bool)
      requires Ready() && 0 < |data| <= capacity - writePos
      modifies this`writePos, this`committedLen, this`erasedEnd, this`stream, store, ramBuf
      ensures Valid() && stream == old(stream) + data && KeepsPackage()
      ensures ok ==> Ready()
      ensures !ok ==> Committed(|stream|, capacity) > |orig|
    {
      hide Image, ImageAt, RunSpan, IsPow2, Fill;
      ok := BufferBytes(data);
      if writePos >= capacity {
        WholeNext(committedLen, capacity);
        ok := SwapCommit();
      } else {
        CommittedUnique(|stream|, capacity, committedLen);
      }
    }

    /** Takes new bytes into the swap, committing every full buffer. */
    method DoWriteNew(data: seq<Byte>) returns (ok: bool)
      requires Ready()
      modifies this`writePos, this`committedLen, this`erasedEnd, this`stream, store, ramBuf
      ensures ok <==> Committed(|old(stream) + data|, capacity) <= |orig|
      ensures ok ==> Ready() && stream == old(stream) + data
      ensures Valid() && KeepsPackage()
    {
      var rest := data;
      ghost var all := stream + data;
      ok := true;
      while ok && |rest| > 0
        invariant Valid() && KeepsPackage() && stream + rest == all
        invariant ok ==> Ready()
        invariant !ok ==> Committed(|all|, capacity) > |orig|
        decreases |rest|
      {
        var free := capacity - writePos;
        var chunk := if |rest| < free then |rest| else free;
        ConcatSplit(stream, rest, chunk);
        ok := WriteChunk(rest[..chunk]);
        rest := rest[chunk..];
        if !ok {
          CommittedMonotone(|stream|, |all|, capacity);
        }
      }
    }

    /** Prepares the swap and establishes the invariant. */
    method Start(ghost j: Job) returns (ok: bool)
      requires App in store.parts && 0 < ramBuf.Length && patchLen < 0x8000_0000 && patchOffset < 0x8000_0000
      requires IsPow2(store.sector) && Whole(|store.parts[App]|, store.sector)
      requires |store.parts[App]| + ramBuf.Length + |Mem(store.parts, SwapArea)| + store.sector < 0x8000_0000
      requires writePos == committedLen == patchReadPos == 0 && erasedEnd == 0
      requires stream == [] && orig == store.parts[App] && store.log.Mark?
      requires j == JobOf(store.parts, store.sector, backend, ramBuf.Length, patchOffset, patchLen)
      modifies this`capacity, store
      ensures ok <==> j.Valid()
      ensures ok ==> Ready() && ForJob(j)
      ensures !ok ==> Mem(store.parts, App) == orig && RunSpan(store.log, store.sector) == FRESH_SPAN
      ensures KeepsPackage()
    {
      ok := InitSwap();
      JointStart(orig, store.sector);
      if ok {
        assert SwapBytes() == [];
      }
    }

    ghost function Sofar(): Progress
      reads this
    {
      Progress(patchReadPos, stream)
    }

    /** The old partition reads as the abstract run has it. */
    lemma PartitionIsContents(j: Job)
      requires Ready() && ForJob(j) && j.Valid()
      ensures App in store.parts && Fits(Sofar(), j) && Sofar().out == stream
      ensures store.parts[App] == Contents(stream, j) && Valid()
    {
      hide Image, RunSpan;
    }

    /** Serves one callback. */
    method ServeCall(call: Call, ghost j: Job) returns (ok: bool, answer: seq<Byte>)
      requires Ready() && ForJob(j) && j.Valid() && !call.Finish?
      modifies this`patchReadPos, this`writePos, this`committedLen, this`erasedEnd, this`stream, store, ramBuf
      ensures var r := Serve(call, j, Contents(old(stream), j), old(Sofar()));
              && (ok <==> r.Some? && Fits(r.value.1, j))
              && (ok ==> r.value == (answer, Sofar()))
      ensures ok ==> Ready()
      ensures Valid() && ForJob(j) && KeepsPackage()
    {
      hide Valid, Ready, Contents, PatchRead, Committed;
      PartitionIsContents(j);
      match call
      case ReadOld(addr, size) => ok, answer := DoReadOld(addr, size);
      case ReadPatch(size) => ok, answer := DoReadPatch(size, j);
      case WriteNew(data) =>
        ok := DoWriteNew(data);
        answer := [];
    }

    /** The patch library at work: up to `n` callbacks, the next one chosen from all answers so far. */
    method HpiPatch(lib: Library, n: nat, hist: seq<seq<Byte>>, ghost j: Job) returns (ok: bool)
      requires Ready() && ForJob(j) && j.Valid()
      modifies this`patchReadPos, this`writePos, this`committedLen, this`erasedEnd, this`stream, store, ramBuf
      ensures InPlace(lib, n, hist, j, old(Sofar())) == if ok then Some(stream) else None
      ensures ok ==> Ready()
      ensures Valid() && ForJob(j) && KeepsPackage()
      decreases n
    {
      hide Valid, ForJob, Serve, Contents, Fits, Committed;
      if n == 0 {
        return false;
      }
      var call := lib(hist);
      if call.Finish? {
        return call.ok;
      }
      var answer;
      ok, answer := ServeCall(call, j);
      if ok {
        ok := HpiPatch(lib, n - 1, hist + [answer], j);
      }
    }

    /** Where the tail lies. */
    lemma TailFacts()
      requires Valid()
      ensures App in store.parts && erasedEnd <= |orig| == |store.parts[App]| < 0x8000_0000 - store.sector
      ensures IsPow2(store.sector) && Whole(erasedEnd, store.sector) && Whole(|orig|, store.sector)
      ensures AlignUp(|orig|, store.sector) == |orig| && (|orig| <= committedLen ==> erasedEnd == |orig|)
      ensures TailStart(committedLen, erasedEnd, store.sector) == erasedEnd
      ensures RunSpan(store.log, store.sector) == Span(erasedEnd, erasedEnd, committedLen, true)
      ensures EraseSpan(store.parts[App], |orig|, |orig|) == store.parts[App]
    {
      AlignUpLeast(committedLen, store.sector, |orig|);
      AlignWhole(|orig|, store.sector);
    }

    /** Erases the whole sectors behind the announced length that are not erased yet. */
    method EraseTail(newerLen: int) returns (ok: bool, ghost lo: nat)
      requires Valid() && -0x8000_0000 <= newerLen < 0x8000_0000
      modifies this`erasedEnd, store
      ensures ok && old(erasedEnd) <= lo <= |orig| == |old(store.parts[App])| && Whole(lo, store.sector)
      ensures store.parts == old(store.parts)[App := EraseSpan(old(store.parts[App]), lo, |orig|)]
      ensures newerLen == committedLen ==> lo == old(erasedEnd)
      ensures RunSpan(store.log, store.sector).ok
    {
      hide Valid, Image, AlignUp, AlignDown, Whole, IsPow2, Fill, Erased, EraseSpan;
      TailFacts();
      var partLen := |store.parts[App]|;
      ok, lo := true, |orig|;
      if newerLen < partLen {
        if 0 <= newerLen {
          TailFits(newerLen, erasedEnd, |orig|, store.sector);
          lo := TailStart(newerLen, erasedEnd, store.sector);
        }
        ok := EraseAlignedRange(Wrap32(newerLen), partLen, true, TailStart(Wrap32(newerLen), erasedEnd, store.sector),
                                partLen);
      }
    }

    /** Finalization: erases what is left behind a shorter new image and checks its length. */
    method FinishUpdate(newerLen: int) returns (ok: bool, ghost lo: nat)
      requires Valid() && writePos == 0 && -0x8000_0000 <= newerLen < 0x8000_0000
      modifies this`erasedEnd, store
      ensures ok <==> committedLen == newerLen
      ensures App in store.parts && LeftAs(store.parts[App], orig, stream, lo, store.sector)
      ensures ok ==> store.parts[App] == stream + Fill(|orig| - |stream|)
      ensures RunSpan(store.log, store.sector).ok
      ensures KeepsPackage()
    {
      hide Image, AlignUp, Whole, IsPow2, Fill, RunSpan, EraseSpan;
      FinalImage(store.parts[App], erasedEnd, committedLen, orig, stream, store.sector);
      assert stream[..committedLen] == stream;
      ok, lo := EraseTail(newerLen);
      ok := ok && committedLen == newerLen;
    }
  }

  lemma NothingLeft(orig: seq<Byte>, sector: nat)
    requires IsPow2(sector) && Whole(|orig|, sector)
    ensures LeftAs(orig, orig, [], |orig|, sector)
  {
    JointStart(orig, sector);
    JointLeaves(orig, [], 0, 0, orig, [], sector);
  }

  /** Swap capacity a backend gets: the RAM buffer, or the swap area from the offset on. */
  function Capacity(backend: Backend, bufSize: nat, swapSize: nat): nat {
    match backend
    case RamSwap => bufSize
    case StorageSwap(o) => if o < swapSize then swapSize - o else 0
  }

  function JobOf(parts: Parts, sector: nat, backend: Backend, bufSize: nat, patchOffset: nat, patchLen: int): Job {
    Job(Mem(parts, App), PackageFrom(Mem(parts, Download), patchOffset), patchLen,
        Capacity(backend, bufSize, |Mem(parts, SwapArea)|), sector)
  }

  /** In-place differential update of the APP partition. */
  method ReleaseFromPart(store: Store, backend: Backend, bufSize: nat, lib: Library, n: nat,
                         patchLen: int, newerLen: int, patchOffset: U32)
    returns (result: bool, ghost done: seq<Byte>, ghost lo: nat)
    requires App in store.parts && 0 < bufSize
    requires IsPow2(store.sector) && Whole(|store.parts[App]|, store.sector)
    requires |store.parts[App]| + bufSize + |Mem(store.parts, SwapArea)| + store.sector < 0x8000_0000
    requires -0x8000_0000 <= newerLen < 0x8000_0000 && patchLen < 0x8000_0000 && patchOffset < 0x8000_0000
    modifies store
    ensures var j := JobOf(old(store.parts), store.sector, backend, bufSize, patchOffset, patchLen);
            var r := PatchOutcome(lib, n, j, newerLen);
            && (result <==> r.Some?)
            && App in store.parts && LeftAs(store.parts[App], j.orig, done, lo, store.sector)
            && (result ==> done == r.value && store.parts[App] == r.value + Fill(|j.orig| - |r.value|))
    ensures RunSpan(store.log, store.sector).ok
    ensures store.parts.Keys == old(store.parts.Keys) && Mem(store.parts, Download) == old(Mem(store.parts, Download))
  {
    hide InPlace, Image, ImageAt, Serve, TileStep, AlignUp, Whole, IsPow2, Fill, LeftAs, RunSpan, Joint,
         Patcher.Valid, Patcher.ForJob;
    store.log := Mark(store.log);
    var p := new Patcher(store, backend, bufSize, patchOffset, patchLen);
    ghost var j := JobOf(store.parts, store.sector, backend, bufSize, patchOffset, patchLen);
    done, lo := [], |p.orig|;
    NothingLeft(p.orig, store.sector);
    result := p.Start(j);
    if result {
      result := p.HpiPatch(lib, n, [], j);
      if result && p.writePos > 0 {
        result := p.SwapCommit();
      }
      p.LeavesCommitted();
      done := p.stream[..p.committedLen];
      if result {
        done := p.stream;
        result, lo := p.FinishUpdate(newerLen);
      }
    }
  }
}
