/**
 * The master's side of a wheel upload (`TransferState` in
 * piwheels/master/__init__.py): a credit-driven protocol in which the master
 * asks the worker for chunks of the file it still misses, one request per
 * unit of credit, and writes each chunk it receives into its copy of the file.
 */
module MasterTransfer {
  import opened Wrappers
  import opened Ranges

  /** `TransferState.chunk_size`: the largest range asked for in one request. */
  const ChunkSize: int := 65536
  /** `TransferState.pipeline_size`: the most requests allowed in flight. */
  const PipelineSize: int := 10

  type Byte = b: int | 0 <= b < 256

  function Zeros(n: nat): (r: seq<Byte>)
    ensures |r| == n && forall i :: 0 <= i < n ==> r[i] == 0
  {
    seq(n, _ => 0)
  }

  /** The window of one chunk that starts at `start`. */
  function Window(start: int): Range
  {
    Range(start, start + ChunkSize)
  }

  /** The first chunk of a non-empty missing range. */
  function HeadChunk(a: Range): Range
  {
    Range(a.start, Min(a.stop, a.start + ChunkSize))
  }

  /** The credit a new transfer starts with: `max(1, min(pipeline_size, filesize // chunk_size))`. */
  function InitialCredit(filesize: nat): (c: int)
    ensures 1 <= c <= PipelineSize
    ensures c == 1 || c * ChunkSize <= filesize
    ensures filesize >= PipelineSize * ChunkSize ==> c == PipelineSize
    ensures c == PipelineSize || filesize < (c + 1) * ChunkSize
  {
    Max(1, Min(PipelineSize, filesize / ChunkSize))
  }

  /**
   * The missing-range list of a new transfer of `filesize` bytes, as the
   * source writes it: `[range(filesize)]`, which holds an empty range when
   * the file is empty.
   */
  function InitialMissingAsWritten(filesize: nat): seq<Range>
  {
    [Range(0, filesize)]
  }

  /**
   * The missing-range list of a new transfer: every byte of the file is
   * missing. An empty file has nothing missing, so its transfer is done at
   * once (the source keeps the empty range instead; see
   * `ZeroSizeFetchNeverEnds`).
   */
  function InitialMissing(filesize: nat): (m: seq<Range>)
    ensures WellFormed(m)
    ensures forall x :: Missing(m, x) <==> 0 <= x < filesize
    ensures m == [] <==> filesize == 0
    ensures filesize > 0 ==> m == InitialMissingAsWritten(filesize)
  {
    if filesize == 0 then []
    else
      assert forall x :: 0 <= x < filesize ==> [Range(0, filesize)][0].Contains(x);
      [Range(0, filesize)]
  }

  /**
   * Python's `seek(pos)` followed by `write(data)` on a file whose contents
   * are `file`: writing past the end first pads the gap with zero bytes.
   */
  function Overwrite(file: seq<Byte>, pos: nat, data: seq<Byte>): (r: seq<Byte>)
    ensures |r| == Max(|file|, pos + |data|)
    ensures forall i :: 0 <= i < |data| ==> r[pos + i] == data[i]
    ensures forall i :: 0 <= i < |r| && !(pos <= i < pos + |data|) ==>
              r[i] == (if i < |file| then file[i] else 0)
  {
    var padded := if pos <= |file| then file else file + Zeros(pos - |file|);
    padded[..pos] + data + (if pos + |data| < |padded| then padded[pos + |data|..] else [])
  }

  /** What one sweep of the `for` loop in `fetch` ends with. */
  datatype SweepEnd = Found(chunk: Range) | Moved(window: Range)

  predicate IsWindow(w: Range) { w.stop == w.start + ChunkSize }

  /**
   * One sweep of `fetch` over the missing ranges `m` with the current fetch
   * window `w`: the first range that overlaps the window yields the overlap;
   * a range that lies wholly after the window's start moves the window to
   * that range's start (without looking at that range again).
   */
  function Sweep(m: seq<Range>, w: Range): (s: SweepEnd)
    requires IsWindow(w)
    ensures s.Found? ==> !s.chunk.IsEmpty() && s.chunk.Length() <= ChunkSize
    ensures s.Found? ==> w.start <= s.chunk.start
    ensures s.Found? ==> exists k :: 0 <= k < |m| && s.chunk.Within(m[k])
    ensures s.Moved? ==> IsWindow(s.window) && w.start <= s.window.start
  {
    if m == [] then Moved(w)
    else
      var x := Intersect(m[0], w);
      if !x.IsEmpty() then Found(x)
      else
        var s := Sweep(m[1..], if m[0].start > w.start then Window(m[0].start) else w);
        assert s.Found? ==> exists k :: 0 <= k < |m| && s.chunk.Within(m[k]) by {
          if s.Found? {
            var k :| 0 <= k < |m[1..]| && s.chunk.Within(m[1..][k]);
            assert s.chunk.Within(m[k + 1]);
          }
        }
        s
  }

  /**
   * The range `fetch` asks for next, given the missing ranges and the offset,
   * when it has credit: a first sweep from the offset; if that finds nothing,
   * a second sweep from the start of the first missing range, which always
   * finds that range's first chunk (`WrapSweepFindsHead`); `None` when
   * nothing is missing.
   */
  function FetchResult(m: seq<Range>, offset: int): (r: Option<Range>)
    requires WellFormed(m)
    ensures r.None? <==> m == []
  {
    match Sweep(m, Window(offset))
    case Found(x) => Some(x)
    case Moved(_) => if m == [] then None else Some(HeadChunk(m[0]))
  }

  /** The second sweep of `fetch` finds the first chunk of the first missing range. */
  lemma WrapSweepFindsHead(m: seq<Range>)
    requires m != [] && !m[0].IsEmpty()
    ensures Sweep(m, Window(m[0].start)) == Found(HeadChunk(m[0]))
  {
  }

  /** Every range fetched is a non-empty piece of one missing range, at most one chunk long. */
  lemma FetchWithinMissing(m: seq<Range>, offset: int)
    requires WellFormed(m) && m != []
    ensures var r := FetchResult(m, offset).value;
      && !r.IsEmpty() && r.Length() <= ChunkSize
      && (exists k :: 0 <= k < |m| && r.Within(m[k]))
      && (forall x :: r.Contains(x) ==> Missing(m, x))
      && (offset <= r.start || r == HeadChunk(m[0]))
  {
    var r := FetchResult(m, offset).value;
    if Sweep(m, Window(offset)).Moved? {
      assert r.Within(m[0]);
    }
    var k :| 0 <= k < |m| && r.Within(m[k]);
    assert !r.IsEmpty() && r.Within(m[k]);
    forall x | r.Contains(x) ensures Missing(m, x) {
      assert m[k].Contains(x);
    }
  }

  /** A sweep passes over ranges that end at or before the window start without moving it. */
  lemma SweepSkipsEarlier(m: seq<Range>, n: nat, offset: int)
    requires WellFormed(m) && n <= |m|
    requires forall k :: 0 <= k < n ==> m[k].stop <= offset
    ensures Sweep(m, Window(offset)) == Sweep(m[n..], Window(offset))
    decreases n
  {
    if n > 0 {
      assert Intersect(m[0], Window(offset)).IsEmpty();
      SweepSkipsEarlier(m[1..], n - 1, offset);
      assert m[1..][n - 1..] == m[n..];
    }
  }

  /** When the offset lies inside a missing range, `fetch` continues from exactly there. */
  lemma {:induction false} FetchAtOffset(m: seq<Range>, offset: int, k: nat)
    requires WellFormed(m) && k < |m| && m[k].Contains(offset)
    ensures FetchResult(m, offset) == Some(Range(offset, Min(m[k].stop, offset + ChunkSize)))
  {
    SweepSkipsEarlier(m, k, offset);
  }

  /** When nothing missing lies at or after the offset, `fetch` wraps to the first missing range. */
  lemma {:induction false} FetchWraps(m: seq<Range>, offset: int)
    requires WellFormed(m) && m != []
    requires forall k :: 0 <= k < |m| ==> m[k].stop <= offset
    ensures FetchResult(m, offset) == Some(HeadChunk(m[0]))
  {
    SweepSkipsEarlier(m, |m|, offset);
  }

  /**
   * With the list the source builds for an empty file, neither sweep of
   * `fetch` finds anything nor moves the window, so its `while True` loop
   * repeats the same sweep forever; and `done` never holds.
   */
  lemma ZeroSizeFetchNeverEnds()
    ensures var m := InitialMissingAsWritten(0);
      && m != []
      && Sweep(m, Window(0)) == Moved(Window(0))
      && Sweep(m, Window(m[0].start)) == Moved(Window(m[0].start))
      && !WellFormed(m)
  {
  }

  /**
   * The `for map_range in self._map` loop of `fetch`: returns the first
   * overlap of a missing range with the window, sliding the window forward
   * past ranges that lie after it.
   */
  method SweepLoop(m: seq<Range>, w: Range) returns (s: SweepEnd)
    requires IsWindow(w)
    ensures s == Sweep(m, w)
  {
    var fetchRange := w;
    var i := 0;
    while i < |m|
      invariant 0 <= i <= |m| && IsWindow(fetchRange)
      invariant Sweep(m, w) == Sweep(m[i..], fetchRange)
    {
      var mapRange := m[i];
      var r := Intersect(mapRange, fetchRange);
      if !r.IsEmpty() {
        return Found(r);
      } else if mapRange.start > fetchRange.start {
        fetchRange := Window(mapRange.start);
      }
      assert m[i..][1..] == m[i + 1..];
      i := i + 1;
    }
    return Moved(fetchRange);
  }

  class TransferState {
    /** The master's copy of the file being received. */
    var file: seq<Byte>
    /** How many more chunk requests may be sent before a chunk arrives. */
    var credit: int
    /** The lowest position the next request starts its search from. */
    var offset: int
    /** The byte ranges not yet received, ascending. */
    var missing: seq<Range>

    ghost predicate Valid()
      reads this
    {
      credit >= 0 && WellFormed(missing)
    }

    constructor (filesize: nat)
      ensures Valid()
      ensures file == Zeros(filesize)
      ensures credit == InitialCredit(filesize)
      ensures offset == 0
      ensures missing == InitialMissing(filesize)
    {
      file := Zeros(filesize);
      credit := InitialCredit(filesize);
      offset := 0;
      missing := InitialMissing(filesize);
    }

    /** `done`: the transfer is complete exactly when no byte is missing. */
    function Done(): (d: bool)
      reads this
      requires Valid()
      ensures d <==> forall x :: !Missing(missing, x)
    {
      if missing == [] then true
      else
        assert Missing(missing, missing[0].start) by {
          assert missing[0].Contains(missing[0].start);
        }
        false
    }

    /**
     * `fetch`: with no credit, returns `None` and changes nothing; otherwise
     * spends one unit of credit and returns the next range to request
     * (`FetchResult`), moving the offset to its end.
     */
    method Fetch() returns (result: Option<Range>)
      requires Valid()
      modifies this
      ensures Valid()
      ensures file == old(file) && missing == old(missing)
      ensures old(credit) == 0 ==> result == None && credit == 0 && offset == old(offset)
      ensures old(credit) > 0 ==> credit == old(credit) - 1
      ensures old(credit) > 0 ==> result == FetchResult(missing, old(offset))
      ensures result.Some? ==> offset == result.value.stop
      ensures result.None? ==> offset == old(offset)
    {
      if credit == 0 {
        return None;
      }
      credit := credit - 1;
      assert credit >= 0;
      var fetchRange := Window(offset);
      ghost var passes := 0;
      while true
        invariant Valid() && credit == old(credit) - 1
        invariant file == old(file) && missing == old(missing) && offset == old(offset)
        invariant 0 <= passes <= 1
        invariant passes == 0 ==> fetchRange == Window(offset)
        invariant passes == 1 ==> missing != [] && fetchRange == Window(missing[0].start)
        invariant passes == 1 ==> Sweep(missing, Window(offset)).Moved?
        decreases 1 - passes
      {
        var swept := SweepLoop(missing, fetchRange);
        if swept.Found? {
          offset := swept.chunk.stop;
          return Some(swept.chunk);
        }
        if |missing| == 0 {
          return None;
        }
        WrapSweepFindsHead(missing);
        fetchRange := Window(missing[0].start);
        passes := passes + 1;
      }
    }

    /**
     * `chunk`: writes `data` at `position`, marks those bytes as received and
     * earns one unit of credit, unless nothing is missing any more, in which
     * case the credit drops to zero.
     */
    method Chunk(position: nat, data: seq<Byte>)
      requires Valid()
      modifies this
      ensures Valid()
      ensures file == Overwrite(old(file), position, data)
      ensures missing == Exclude(old(missing), Range(position, position + |data|))
      ensures forall x :: Missing(missing, x) <==>
                Missing(old(missing), x) && !(position <= x < position + |data|)
      ensures offset == old(offset)
      ensures credit == if missing == [] then 0 else old(credit) + 1
    {
      var written := Overwrite(file, position, data);
      var left := Exclude(missing, Range(position, position + |data|));
      file, missing := written, left;
      if left == [] {
        credit := 0;
      } else {
        credit := credit + 1;
      }
    }

    /** `reset_credit`: refills the credit only when it has run dry. */
    method ResetCredit()
      requires Valid()
      modifies this
      ensures Valid()
      ensures credit == if old(credit) == 0 then PipelineSize else old(credit)
      ensures file == old(file) && missing == old(missing) && offset == old(offset)
    {
      if credit == 0 {
        credit := PipelineSize;
      }
    }
  }
}
