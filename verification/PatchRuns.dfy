/** What the patch library gets to see and hands over in a whole run, callback by callback. */
module PatchRuns {
  import opened Bits
  import opened Storage
  import opened PatchSpec

  /** What the old partition reads as when the new bytes `out` have been written. */
  type View = seq<Byte> -> seq<Byte>

  /** An untouched copy of the old image. */
  function Copy(j: Job): View { out => j.orig }

  /** The partition that is being overwritten. */
  function Partition(j: Job): View
    requires j.Valid()
  {
    (out: seq<Byte>) => if Committed(|out|, j.capacity) <= |j.orig| then Contents(out, j) else j.orig
  }

  // What a history of answers amounts to

  /** The answers to the reads of the patch file, joined. */
  function Given(lib: Library, hist: seq<seq<Byte>>): seq<Byte> {
    if hist == [] then []
    else
      var init := hist[..|hist| - 1];
      Given(lib, init) + if lib(init).ReadPatch? then hist[|hist| - 1] else []
  }

  /** The bytes of the patch file asked for, in all. */
  function Asked(lib: Library, hist: seq<seq<Byte>>): nat {
    if hist == [] then 0
    else
      var init := hist[..|hist| - 1];
      Asked(lib, init) + if lib(init).ReadPatch? then lib(init).size else 0
  }

  /** The new bytes handed over, joined. */
  function Handed(lib: Library, hist: seq<seq<Byte>>): seq<Byte> {
    if hist == [] then []
    else
      var init := hist[..|hist| - 1];
      Handed(lib, init) + if lib(init).WriteNew? then lib(init).data else []
  }

  /** How much of the patch file has been given out when so much was asked for. */
  function Clip(asked: nat, patchLen: int): nat {
    if patchLen <= 0 then 0 else if asked < patchLen then asked else patchLen
  }

  /** `answer` is right after the answers `hist`: the bytes that the old partition holds in the range; the
      bytes of the patch file that come next, up to its length; or nothing for new bytes. There is no right
      answer to a range outside the partition, nor to a piece behind the end of the package. */
  predicate Right(lib: Library, j: Job, view: View, hist: seq<seq<Byte>>, answer: seq<Byte>) {
    match lib(hist)
    case ReadOld(addr, size) =>
      var m := view(Handed(lib, hist));
      RangeOk(m, addr, size) && answer == m[addr..addr + size]
    case ReadPatch(size) =>
      var lo, hi := Clip(Asked(lib, hist), j.patchLen), Clip(Asked(lib, hist) + size, j.patchLen);
      hi <= |j.patch| && answer == j.patch[lo..hi]
    case WriteNew(_) => answer == []
    case Finish(_) => false
  }

  predicate History(lib: Library, j: Job, view: View, hist: seq<seq<Byte>>) {
    forall k :: 0 <= k < |hist| ==> Right(lib, j, view, hist[..k], hist[k])
  }

  /** How far a run is after a history. */
  function Reached(lib: Library, j: Job, hist: seq<seq<Byte>>): Progress {
    Progress(Clip(Asked(lib, hist), j.patchLen), Handed(lib, hist))
  }

  lemma HistoryNext(lib: Library, hist: seq<seq<Byte>>, answer: seq<Byte>)
    ensures Given(lib, hist + [answer]) == Given(lib, hist) + if lib(hist).ReadPatch? then answer else []
    ensures Asked(lib, hist + [answer]) == Asked(lib, hist) + if lib(hist).ReadPatch? then lib(hist).size else 0
    ensures Handed(lib, hist + [answer]) == Handed(lib, hist) + if lib(hist).WriteNew? then lib(hist).data else []
  {
    assert (hist + [answer])[..|hist + [answer]| - 1] == hist;
  }

  lemma HistoryLonger(lib: Library, j: Job, view: View, hist: seq<seq<Byte>>, answer: seq<Byte>)
    requires History(lib, j, view, hist) && Right(lib, j, view, hist, answer)
    ensures History(lib, j, view, hist + [answer])
  {
    hide Right;
    var next := hist + [answer];
    forall k | 0 <= k < |next|
      ensures Right(lib, j, view, next[..k], next[k])
    {
      if k < |hist| {
        assert next[..k] == hist[..k];
      } else {
        assert next[..k] == hist;
      }
    }
  }

  lemma HistoryFront(lib: Library, j: Job, view: View, hist: seq<seq<Byte>>, n: nat)
    requires History(lib, j, view, hist) && n <= |hist|
    ensures History(lib, j, view, hist[..n])
  {
    hide Right;
    forall k | 0 <= k < n
      ensures Right(lib, j, view, hist[..n][..k], hist[..n][k])
    {
      assert hist[..n][..k] == hist[..k];
    }
  }

  /** The pieces given out make up the front of the patch file, without gap or overlap: as much as was
      asked for, and never more than its length. */
  lemma {:induction false} PatchInOrder(lib: Library, j: Job, view: View, hist: seq<seq<Byte>>)
    requires History(lib, j, view, hist)
    ensures var n := Clip(Asked(lib, hist), j.patchLen); n <= |j.patch| && Given(lib, hist) == j.patch[..n]
    decreases |hist|
  {
    hide Given, Asked, Handed, Clip;
    if hist == [] {
      NothingAsked(lib, j);
    } else {
      var init, last := hist[..|hist| - 1], hist[|hist| - 1];
      HistoryFront(lib, j, view, hist, |hist| - 1);
      PatchInOrder(lib, j, view, init);
      HistoryNext(lib, init, last);
      assert init + [last] == hist;
      assert Right(lib, j, view, init, last);
      if lib(init).ReadPatch? {
        ClipGrows(Asked(lib, init), lib(init).size, j.patchLen);
        SliceJoin(j.patch, 0, Clip(Asked(lib, init), j.patchLen), Clip(Asked(lib, hist), j.patchLen));
      }
    }
  }

  lemma NothingAsked(lib: Library, j: Job)
    ensures Reached(lib, j, []) == Progress(0, []) && Clip(Asked(lib, []), j.patchLen) == 0 && Given(lib, []) == []
  {
  }

  lemma ClipGrows(asked: nat, size: nat, patchLen: int)
    ensures Clip(asked, patchLen) <= Clip(asked + size, patchLen)
  {
  }

  /** A callback is answered rightly or fails, and it fails only when there is no right answer. */
  lemma ServeRight(lib: Library, j: Job, view: View, hist: seq<seq<Byte>>)
    requires History(lib, j, view, hist) && !lib(hist).Finish?
    ensures var r := Serve(lib(hist), j, view(Handed(lib, hist)), Reached(lib, j, hist));
            && (r.Some? ==> Right(lib, j, view, hist, r.value.0) && r.value.1 == Reached(lib, j, hist + [r.value.0]))
            && forall answer | Right(lib, j, view, hist, answer) :: r.Some? && r.value.0 == answer
  {
    hide Given, Asked, Handed, History;
    PatchInOrder(lib, j, view, hist);
    var r := Serve(lib(hist), j, view(Handed(lib, hist)), Reached(lib, j, hist));
    if r.Some? {
      HistoryNext(lib, hist, r.value.0);
    }
  }

  // Whole runs

  /** From a history on, an out-of-place run succeeds only along right answers. */
  lemma {:induction false} OutOfPlaceRuns(lib: Library, n: nat, hist: seq<seq<Byte>>, j: Job)
      returns (all: seq<seq<Byte>>)
    requires History(lib, j, Copy(j), hist) && OutOfPlace(lib, n, hist, j, Reached(lib, j, hist)).Some?
    ensures History(lib, j, Copy(j), all) && lib(all) == Finish(true) && |all| < |hist| + n
    ensures OutOfPlace(lib, n, hist, j, Reached(lib, j, hist)) == Some(Handed(lib, all))
    decreases n
  {
    hide History, Serve, Right, Asked, Handed;
    if lib(hist).Finish? {
      all := hist;
    } else {
      var r := Serve(lib(hist), j, j.orig, Reached(lib, j, hist));
      ServeRight(lib, j, Copy(j), hist);
      HistoryLonger(lib, j, Copy(j), hist, r.value.0);
      all := OutOfPlaceRuns(lib, n - 1, hist + [r.value.0], j);
    }
  }

  /** And along right answers it does succeed. */
  lemma {:induction false} OutOfPlaceFollows(lib: Library, n: nat, all: seq<seq<Byte>>, k: nat, j: Job)
    requires History(lib, j, Copy(j), all) && lib(all) == Finish(true) && k <= |all| < k + n
    ensures OutOfPlace(lib, n, all[..k], j, Reached(lib, j, all[..k])) == Some(Handed(lib, all))
    decreases n
  {
    hide History, Serve, Right, Asked, Handed;
    if k == |all| {
      assert all[..k] == all;
    } else {
      HistoryFront(lib, j, Copy(j), all, k);
      AnswerOf(lib, j, Copy(j), all, k);
      ServeRight(lib, j, Copy(j), all[..k]);
      assert all[..k] + [all[k]] == all[..k + 1];
      OutOfPlaceFollows(lib, n - 1, all, k + 1, j);
    }
  }

  lemma AnswerOf(lib: Library, j: Job, view: View, all: seq<seq<Byte>>, k: nat)
    requires History(lib, j, view, all) && k < |all|
    ensures Right(lib, j, view, all[..k], all[k]) && !lib(all[..k]).Finish?
  {
  }

  /** The same of runs against the partition that is being overwritten. */
  lemma {:induction false} InPlaceRuns(lib: Library, n: nat, hist: seq<seq<Byte>>, j: Job)
      returns (all: seq<seq<Byte>>)
    requires j.Valid() && Fits(Reached(lib, j, hist), j) && History(lib, j, Partition(j), hist)
    requires InPlace(lib, n, hist, j, Reached(lib, j, hist)).Some?
    ensures History(lib, j, Partition(j), all) && lib(all) == Finish(true) && |all| < |hist| + n
    ensures Committed(|Handed(lib, all)|, j.capacity) <= |j.orig|
    ensures InPlace(lib, n, hist, j, Reached(lib, j, hist)) == Some(Handed(lib, all))
    decreases n
  {
    hide History, Serve, Right, Asked, Handed, Contents, Committed;
    if lib(hist).Finish? {
      all := hist;
    } else {
      var r := Serve(lib(hist), j, Contents(Handed(lib, hist), j), Reached(lib, j, hist));
      ServeRight(lib, j, Partition(j), hist);
      HistoryLonger(lib, j, Partition(j), hist, r.value.0);
      all := InPlaceRuns(lib, n - 1, hist + [r.value.0], j);
    }
  }

  lemma {:induction false} HandedGrows(lib: Library, all: seq<seq<Byte>>, k: nat)
    requires k <= |all|
    ensures |Handed(lib, all[..k])| <= |Handed(lib, all)|
    decreases |all|
  {
    if k == |all| {
      assert all[..k] == all;
    } else {
      HandedGrows(lib, all[..|all| - 1], k);
      assert all[..|all| - 1][..k] == all[..k];
    }
  }

  lemma FitsEarlier(lib: Library, j: Job, all: seq<seq<Byte>>, k: nat)
    requires j.Valid() && Committed(|Handed(lib, all)|, j.capacity) <= |j.orig| && k <= |all|
    ensures Fits(Reached(lib, j, all[..k]), j)
  {
    HandedGrows(lib, all, k);
    CommittedMonotone(|Handed(lib, all[..k])|, |Handed(lib, all)|, j.capacity);
  }

  lemma {:induction false} InPlaceFollows(lib: Library, n: nat, all: seq<seq<Byte>>, k: nat, j: Job)
    requires j.Valid() && Committed(|Handed(lib, all)|, j.capacity) <= |j.orig|
    requires History(lib, j, Partition(j), all) && lib(all) == Finish(true) && k <= |all| < k + n
    ensures Fits(Reached(lib, j, all[..k]), j)
    ensures InPlace(lib, n, all[..k], j, Reached(lib, j, all[..k])) == Some(Handed(lib, all))
    decreases n
  {
    hide History, Serve, Right, Asked, Handed, Contents, Committed;
    FitsEarlier(lib, j, all, k);
    if k == |all| {
      assert all[..k] == all;
    } else {
      HistoryFront(lib, j, Partition(j), all, k);
      AnswerOf(lib, j, Partition(j), all, k);
      ServeRight(lib, j, Partition(j), all[..k]);
      assert all[..k] + [all[k]] == all[..k + 1];
      FitsEarlier(lib, j, all, k + 1);
      InPlaceFollows(lib, n - 1, all, k + 1, j);
    }
  }

  /** A run in which the library got right answers only, returned success within `n` calls and had handed
      over `r` by then. */
  predicate Completes(lib: Library, j: Job, view: View, hist: seq<seq<Byte>>, n: nat, r: seq<Byte>) {
    |hist| < n && History(lib, j, view, hist) && lib(hist) == Finish(true) && Handed(lib, hist) == r
  }

  /** The out-of-place run yields an image exactly when some run with right answers hands it over. */
  lemma OutOfPlaceMeans(lib: Library, n: nat, j: Job, r: seq<Byte>)
    ensures OutOfPlace(lib, n, [], j, Progress(0, [])) == Some(r) <==>
            exists hist :: Completes(lib, j, Copy(j), hist, n, r)
  {
    hide OutOfPlace, History, Handed;
    NothingAsked(lib, j);
    NoHistory(lib, j, Copy(j));
    if OutOfPlace(lib, n, [], j, Progress(0, [])) == Some(r) {
      var hist := OutOfPlaceRuns(lib, n, [], j);
      assert Completes(lib, j, Copy(j), hist, n, r);
    }
    if hist :| Completes(lib, j, Copy(j), hist, n, r) {
      assert hist[..0] == [];
      OutOfPlaceFollows(lib, n, hist, 0, j);
    }
  }

  lemma NoHistory(lib: Library, j: Job, view: View)
    ensures History(lib, j, view, [])
  {
  }

  /** And so does the in-place run, when whole buffers of the image fit, with the partition as it reads at
      each moment. */
  lemma InPlaceMeans(lib: Library, n: nat, j: Job, r: seq<Byte>)
    requires j.Valid()
    ensures Fits(Progress(0, []), j)
    ensures InPlace(lib, n, [], j, Progress(0, [])) == Some(r) <==>
            && Committed(|r|, j.capacity) <= |j.orig|
            && exists hist :: Completes(lib, j, Partition(j), hist, n, r)
  {
    hide InPlace, History, Handed;
    NothingAsked(lib, j);
    NoHistory(lib, j, Partition(j));
    if InPlace(lib, n, [], j, Progress(0, [])) == Some(r) {
      var hist := InPlaceRuns(lib, n, [], j);
      assert Completes(lib, j, Partition(j), hist, n, r);
    }
    if hist :| Committed(|r|, j.capacity) <= |j.orig| && Completes(lib, j, Partition(j), hist, n, r) {
      assert hist[..0] == [];
      InPlaceFollows(lib, n, hist, 0, j);
    }
  }

  /** In such a run the pieces of the patch file, joined, are its first bytes, as many as were asked for, and
      the whole of it when that many or more were asked for, in whatever pieces. */
  lemma PatchDelivered(lib: Library, j: Job, view: View, hist: seq<seq<Byte>>, n: nat, r: seq<Byte>)
    requires Completes(lib, j, view, hist, n, r)
    ensures Given(lib, hist) <= j.patch && |Given(lib, hist)| == Clip(Asked(lib, hist), j.patchLen)
    ensures 0 <= j.patchLen <= Asked(lib, hist) ==> j.patchLen <= |j.patch| && Given(lib, hist) == j.patch[..j.patchLen]
  {
    hide Given, Asked, Handed, History;
    PatchInOrder(lib, j, view, hist);
  }

  /** What it means that a run reads ahead: whenever it has got right answers only and asks for old bytes,
      they lie at or above the watermark of what it has handed over. */
  predicate AheadAt(lib: Library, j: Job, hist: seq<seq<Byte>>)
    requires j.Valid()
  {
    lib(hist).ReadOld? && lib(hist).size > 0 && RangeOk(j.orig, lib(hist).addr, lib(hist).size) ==>
      lib(hist).addr >= Watermark(|Handed(lib, hist)|, j)
  }

  lemma {:induction false} AheadFollows(lib: Library, n: nat, all: seq<seq<Byte>>, k: nat, j: Job)
    requires j.Valid() && History(lib, j, Copy(j), all) && k <= |all| < k + n
    requires ReadsAhead(lib, n, all[..k], j, Reached(lib, j, all[..k]))
    ensures AheadAt(lib, j, all)
    decreases n
  {
    hide History, Serve, Right, Asked, Handed, Watermark;
    if k == |all| {
      assert all[..k] == all;
      AheadNow(lib, n, all, j);
    } else {
      HistoryFront(lib, j, Copy(j), all, k);
      AnswerOf(lib, j, Copy(j), all, k);
      ServeRight(lib, j, Copy(j), all[..k]);
      assert all[..k] + [all[k]] == all[..k + 1];
      AheadFollows(lib, n - 1, all, k + 1, j);
    }
  }

  lemma AheadNow(lib: Library, n: nat, hist: seq<seq<Byte>>, j: Job)
    requires j.Valid() && n > 0 && ReadsAhead(lib, n, hist, j, Reached(lib, j, hist))
    ensures AheadAt(lib, j, hist)
  {
    hide Asked, Handed, Watermark;
  }

  lemma {:induction false} AheadRuns(lib: Library, n: nat, hist: seq<seq<Byte>>, j: Job)
    requires j.Valid() && History(lib, j, Copy(j), hist)
    requires forall all | History(lib, j, Copy(j), all) && |all| < |hist| + n :: AheadAt(lib, j, all)
    ensures ReadsAhead(lib, n, hist, j, Reached(lib, j, hist))
    decreases n
  {
    hide History, Right, Asked, Handed, Watermark, AheadAt;
    if n > 0 && !lib(hist).Finish? {
      var r := Serve(lib(hist), j, j.orig, Reached(lib, j, hist));
      ServeRight(lib, j, Copy(j), hist);
      assert AheadAt(lib, j, hist);
      AheadHere(lib, hist, j);
      if r.Some? {
        HistoryLonger(lib, j, Copy(j), hist, r.value.0);
        AheadRuns(lib, n - 1, hist + [r.value.0], j);
      }
    }
  }

  lemma AheadHere(lib: Library, hist: seq<seq<Byte>>, j: Job)
    requires j.Valid() && AheadAt(lib, j, hist) && !lib(hist).Finish?
    ensures var call := lib(hist);
            Serve(call, j, j.orig, Reached(lib, j, hist)).Some? && call.ReadOld? && call.size > 0 ==>
              call.addr >= Watermark(|Handed(lib, hist)|, j)
  {
    hide Asked, Handed, Watermark;
  }

  /** The condition of the refinement, in terms of histories. */
  lemma ReadsAheadMeans(lib: Library, n: nat, j: Job)
    requires j.Valid()
    ensures ReadsAhead(lib, n, [], j, Progress(0, [])) <==>
            forall hist | History(lib, j, Copy(j), hist) && |hist| < n :: AheadAt(lib, j, hist)
  {
    hide History, ReadsAhead, AheadAt;
    NothingAsked(lib, j);
    NoHistory(lib, j, Copy(j));
    if ReadsAhead(lib, n, [], j, Progress(0, [])) {
      forall hist | History(lib, j, Copy(j), hist) && |hist| < n
        ensures AheadAt(lib, j, hist)
      {
        assert hist[..0] == [];
        AheadFollows(lib, n, hist, 0, j);
      }
    } else if forall hist | History(lib, j, Copy(j), hist) && |hist| < n :: AheadAt(lib, j, hist) {
      AheadRuns(lib, n, [], j);
    }
  }
}
