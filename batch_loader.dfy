/**
 * The chunked insert loop: rows go to the health_data table in consecutive
 * chunks of at most BatchSize rows, one call at a time, stopping at the first
 * call the database refuses.
 */
module BatchLoader {
  import opened Wrappers
  import opened UploadStatus
  import opened HealthRecords

  /** What one insert call returns: no error, or an error with its message. */
  datatype InsertResult = Inserted | InsertError(message: string)

  /**
   * The database, abstracted: the answer it gives to insert call number `k`
   * (counted from 0) carrying the given chunk of rows.
   */
  type Inserter = (nat, seq<Row>) -> InsertResult

  // ---------------------------------------------------------------------------
  // The partition of the rows into chunks

  /** Consecutive slices of `size` elements; the last one may be shorter. */
  function Chunks<T>(s: seq<T>, size: nat): seq<seq<T>>
    requires size > 0
    decreases |s|
  {
    if s == [] then []
    else
      var n := Min(size, |s|);
      [s[..n]] + Chunks(s[n..], size)
  }

  function Flatten<T>(css: seq<seq<T>>): seq<T>
    decreases |css|
  {
    if css == [] then [] else css[0] + Flatten(css[1..])
  }

  lemma {:induction false} FlattenConcat<T>(a: seq<seq<T>>, b: seq<seq<T>>)
    ensures Flatten(a + b) == Flatten(a) + Flatten(b)
    decreases |a|
  {
    if a == [] {
      assert a + b == b;
    } else {
      assert (a + b)[1..] == a[1..] + b;
      FlattenConcat(a[1..], b);
    }
  }

  /** Putting the chunks back together gives the rows: nothing lost, duplicated or reordered. */
  lemma {:induction false} FlattenChunks<T>(s: seq<T>, size: nat)
    requires size > 0
    ensures Flatten(Chunks(s, size)) == s
    decreases |s|
  {
    if s != [] {
      var n := Min(size, |s|);
      FlattenChunks(s[n..], size);
      assert s == s[..n] + s[n..];
    }
  }

  lemma MulSucc(k: nat, d: nat)
    ensures (k + 1) * d == k * d + d
  {
  }

  lemma MulMono(a: nat, b: nat, d: nat)
    requires a <= b
    ensures a * d <= b * d
  {
  }

  lemma DivUnique(x: nat, d: nat, q: nat)
    requires d > 0 && q * d <= x < q * d + d
    ensures x / d == q
  {
    var q' := x / d;
    if q' < q {
      MulMono(q' + 1, q, d);
      MulSucc(q', d);
    } else if q' > q {
      MulMono(q + 1, q', d);
      MulSucc(q, d);
    }
  }

  lemma SliceOfSuffix<T>(s: seq<T>, n: nat, lo: nat, hi: nat)
    requires n <= |s| && lo <= hi <= |s| - n
    ensures s[n..][lo..hi] == s[n + lo .. n + hi]
  {
  }

  /** Chunk k is the slice [k*size, min(k*size + size, |s|)), and it starts inside `s`. */
  lemma {:induction false} ChunkAt<T>(s: seq<T>, size: nat, k: nat)
    requires size > 0 && k < |Chunks(s, size)|
    ensures k * size < |s|
    ensures Chunks(s, size)[k] == s[k * size .. Min(k * size + size, |s|)]
    decreases k
  {
    if k > 0 {
      var t := s[Min(size, |s|)..];
      assert Chunks(s, size)[k] == Chunks(t, size)[k - 1];
      ChunkAt(t, size, k - 1);
      assert |s| > size && t == s[size..];
      var lo := (k - 1) * size;
      var m := k * size;
      MulSucc(k - 1, size);
      assert lo + size == m;
      var hi := Min(lo + size, |t|);
      assert size + hi == Min(m + size, |s|);
      SliceOfSuffix(s, size, lo, hi);
    }
  }

  /** The chunks reach the end of `s`. */
  lemma {:induction false} ChunksCover<T>(s: seq<T>, size: nat)
    requires size > 0
    ensures |Chunks(s, size)| * size >= |s|
    decreases |s|
  {
    if s != [] {
      var n := Min(size, |s|);
      ChunksCover(s[n..], size);
      MulSucc(|Chunks(s[n..], size)|, size);
    }
  }

  /** There are ceil(|s| / size) chunks. */
  lemma ChunkCount<T>(s: seq<T>, size: nat)
    requires size > 0
    ensures |Chunks(s, size)| == (|s| + size - 1) / size
  {
    var count := |Chunks(s, size)|;
    ChunksCover(s, size);
    if count == 0 {
      DivUnique(|s| + size - 1, size, 0);
    } else {
      ChunkAt(s, size, count - 1);
      MulSucc(count - 1, size);
      DivUnique(|s| + size - 1, size, count);
    }
  }

  /** Every chunk but the last holds exactly `size` rows; the last holds the rest. */
  lemma ChunkSizes<T>(s: seq<T>, size: nat, k: nat)
    requires size > 0 && k < |Chunks(s, size)|
    ensures k < |Chunks(s, size)| - 1 ==> |Chunks(s, size)[k]| == size
    ensures k == |Chunks(s, size)| - 1 ==> |Chunks(s, size)[k]| == |s| - k * size
  {
    ChunkAt(s, size, k);
    if k < |Chunks(s, size)| - 1 {
      ChunkAt(s, size, k + 1);
      MulSucc(k, size);
    } else {
      ChunksCover(s, size);
      MulSucc(k, size);
    }
  }

  /** The first k chunks together are the first min(k*size, |s|) elements. */
  lemma {:induction false} FlattenChunksPrefix<T>(s: seq<T>, size: nat, k: nat)
    requires size > 0 && k <= |Chunks(s, size)|
    ensures Flatten(Chunks(s, size)[..k]) == s[..Min(k * size, |s|)]
    decreases k
  {
    var cs := Chunks(s, size);
    if k == 0 {
      assert cs[..0] == [];
    } else {
      var j := k - 1;
      FlattenChunksPrefix(s, size, j);
      ChunkAt(s, size, j);
      MulSucc(j, size);
      PrefixSnoc(cs, j);
      FlattenConcat(cs[..j], [cs[j]]);
      assert Flatten([cs[j]]) == cs[j] by {
        assert [cs[j]][1..] == [];
      }
      assert s[..j * size] + s[j * size .. Min(j * size + size, |s|)] == s[..Min(k * size, |s|)];
    }
  }

  /** 12000 rows in batches of 5000 go out as three calls of 5000, 5000 and 2000 rows. */
  lemma TwelveThousandRows<T>(s: seq<T>)
    requires |s| == 12000
    ensures |Chunks(s, BatchSize)| == 3
    ensures Chunks(s, BatchSize) == [s[..5000], s[5000..10000], s[10000..]]
  {
    var cs := Chunks(s, BatchSize);
    ChunkCount(s, BatchSize);
    assert |cs| == 3;
    ChunkAt(s, BatchSize, 0);
    ChunkAt(s, BatchSize, 1);
    ChunkAt(s, BatchSize, 2);
    assert cs[0] == s[..5000] && cs[1] == s[5000..10000] && cs[2] == s[10000..];
  }

  // ---------------------------------------------------------------------------
  // What the loop is specified to do

  /** The index of the first chunk at or after `from` that the database refuses, if any. */
  function FirstFailure(chunks: seq<seq<Row>>, insert: Inserter, from: nat := 0): (k: Option<nat>)
    requires from <= |chunks|
    ensures k.Some? ==>
      from <= k.value < |chunks| && insert(k.value, chunks[k.value]).InsertError? &&
      forall j :: from <= j < k.value ==> insert(j, chunks[j]).Inserted?
    ensures k.None? <==> forall j :: from <= j < |chunks| ==> insert(j, chunks[j]).Inserted?
    decreases |chunks| - from
  {
    if from == |chunks| then None
    else if insert(from, chunks[from]).InsertError? then Some(from)
    else FirstFailure(chunks, insert, from + 1)
  }

  /** A refused chunk after only accepted ones is the first failure. */
  lemma FirstFailureAt(chunks: seq<seq<Row>>, insert: Inserter, k: nat)
    requires k < |chunks| && insert(k, chunks[k]).InsertError?
    requires forall j :: 0 <= j < k ==> insert(j, chunks[j]).Inserted?
    ensures FirstFailure(chunks, insert) == Some(k)
  {
  }

  /** What the loop is specified to do when chunk k is the first one refused. */
  lemma RefusedAt(rows: seq<Row>, size: nat, insert: Inserter, k: nat)
    requires size > 0 && k < |Chunks(rows, size)|
    requires insert(k, Chunks(rows, size)[k]).InsertError?
    requires forall j :: 0 <= j < k ==> insert(j, Chunks(rows, size)[j]).Inserted?
    ensures ExpectedCalls(rows, size, insert) == Chunks(rows, size)[..k + 1]
    ensures ExpectedCalls(rows, size, insert) == Chunks(rows, size)[..k] + [Chunks(rows, size)[k]]
    ensures ExpectedTrace(rows, size, insert) ==
      Progress(|rows|, size, k) + [BatchFailed(k + 1, insert(k, Chunks(rows, size)[k]).message)]
  {
    FirstFailureAt(Chunks(rows, size), insert, k);
    PrefixSnoc(Chunks(rows, size), k);
  }

  /** The progress statuses after the first k stored chunks of `total` rows. */
  function Progress(total: nat, size: nat, k: nat): (p: seq<Status>)
    ensures |p| == k
    decreases k
  {
    if k == 0 then [] else Progress(total, size, k - 1) + [Uploading(Min(k * size, total), total)]
  }

  /**
   * The j-th progress status counts min((j+1)*size, total) rows: the counts never
   * decrease and never exceed the total.
   */
  lemma {:induction false} ProgressAt(total: nat, size: nat, k: nat, j: nat)
    requires j < k
    ensures |Progress(total, size, k)| == k
    ensures Progress(total, size, k)[j] == Uploading(Min((j + 1) * size, total), total)
    decreases k
  {
    if j < k - 1 {
      ProgressAt(total, size, k - 1, j);
    } else if k > 1 {
      ProgressAt(total, size, k - 1, 0);
    }
  }

  /** The chunks handed to the database: all of them, or those up to the first refused one. */
  function ExpectedCalls(rows: seq<Row>, size: nat, insert: Inserter): seq<seq<Row>>
    requires size > 0
  {
    var chunks := Chunks(rows, size);
    match FirstFailure(chunks, insert)
    case None => chunks
    case Some(k) => chunks[..k + 1]
  }

  /** The statuses the loop shows: one per stored chunk, then the outcome. */
  function ExpectedTrace(rows: seq<Row>, size: nat, insert: Inserter): seq<Status>
    requires size > 0
  {
    var chunks := Chunks(rows, size);
    match FirstFailure(chunks, insert)
    case None => Progress(|rows|, size, |chunks|) + [Uploaded(|rows|)]
    case Some(k) => Progress(|rows|, size, k) + [BatchFailed(k + 1, insert(k, chunks[k]).message)]
  }

  function Last<T>(s: seq<T>): T
    requires s != []
  {
    s[|s| - 1]
  }

  /** Call k carries rows[k*size .. min(k*size + size, N)], whatever the database answers. */
  lemma CallContents(rows: seq<Row>, size: nat, insert: Inserter, k: nat)
    requires size > 0 && k < |ExpectedCalls(rows, size, insert)|
    ensures k * size < |rows|
    ensures ExpectedCalls(rows, size, insert)[k] == rows[k * size .. Min(k * size + size, |rows|)]
  {
    ChunkAt(rows, size, k);
  }

  /**
   * When every call succeeds, ceil(N/size) calls are made, together they are
   * exactly the rows, and the last status reports all N rows.
   */
  lemma AllInserted(rows: seq<Row>, size: nat, insert: Inserter)
    requires size > 0
    requires FirstFailure(Chunks(rows, size), insert).None?
    ensures |ExpectedCalls(rows, size, insert)| == (|rows| + size - 1) / size
    ensures Flatten(ExpectedCalls(rows, size, insert)) == rows
    ensures ExpectedTrace(rows, size, insert) != []
    ensures Last(ExpectedTrace(rows, size, insert)) == Uploaded(|rows|)
  {
    ChunkCount(rows, size);
    FlattenChunks(rows, size);
  }

  /**
   * When call k is the first refused one: exactly k+1 calls are made, the k
   * calls before it were stored and hold the first k*size rows, and the last
   * status names batch k+1 with the database's message.
   */
  lemma FailFast(rows: seq<Row>, size: nat, insert: Inserter, k: nat)
    requires size > 0
    requires FirstFailure(Chunks(rows, size), insert) == Some(k)
    ensures var calls := ExpectedCalls(rows, size, insert);
      && |calls| == k + 1
      && k * size < |rows|
      && (forall j :: 0 <= j < k ==> insert(j, calls[j]).Inserted?)
      && insert(k, calls[k]).InsertError?
      && Flatten(calls[..k]) == rows[..k * size]
    ensures var trace := ExpectedTrace(rows, size, insert);
      trace[|trace| - 1] == BatchFailed(k + 1, insert(k, Chunks(rows, size)[k]).message)
  {
    var chunks := Chunks(rows, size);
    ChunkAt(rows, size, k);
    FlattenChunksPrefix(rows, size, k);
    assert chunks[..k + 1][..k] == chunks[..k];
  }

  lemma PrefixSnoc<T>(s: seq<T>, k: nat)
    requires k < |s|
    ensures s[..k] + [s[k]] == s[..k + 1]
  {
  }

  /** One step of the loop: the chunk that starts at offset i = k*size. */
  lemma NextChunk<T>(s: seq<T>, size: nat, k: nat, i: nat)
    requires size > 0 && i == k * size && i < |s|
    ensures k < |Chunks(s, size)|
    ensures i / size == k
    ensures Chunks(s, size)[k] == s[i .. Min(i + size, |s|)]
    ensures k + 1 < |Chunks(s, size)| <==> i + size < |s|
  {
    ChunksCover(s, size);
    if |Chunks(s, size)| <= k {
      MulMono(|Chunks(s, size)|, k, size);
    }
    DivUnique(i, size, k);
    ChunkAt(s, size, k);
    if k + 1 < |Chunks(s, size)| {
      ChunkAt(s, size, k + 1);
      MulSucc(k, size);
    } else {
      MulSucc(k, size);
    }
  }

  // ---------------------------------------------------------------------------
  // The loop

  /**
   * The state of the loop after `|calls|` accepted chunks: `i` is the offset of
   * the next chunk, the calls are the first chunks in order and all were stored,
   * `inserted` counts their rows and one progress status was shown for each.
   */
  ghost predicate Sent(rows: seq<Row>, insert: Inserter, i: nat, calls: seq<seq<Row>>, inserted: nat, trace: seq<Status>) {
    var chunks := Chunks(rows, BatchSize);
    && i == |calls| * BatchSize
    && |calls| <= |chunks| && calls == chunks[..|calls|]
    && (|calls| < |chunks| <==> i < |rows|)
    && inserted == Min(i, |rows|)
    && (forall j :: 0 <= j < |calls| ==> insert(j, calls[j]).Inserted?)
    && trace == Progress(|rows|, BatchSize, |calls|)
  }

  /** An accepted chunk moves the loop to its next state. */
  lemma SentStep(rows: seq<Row>, insert: Inserter, i: nat, calls: seq<seq<Row>>, inserted: nat, trace: seq<Status>)
    requires Sent(rows, insert, i, calls, inserted, trace) && i < |rows|
    requires insert(|calls|, rows[i..Min(i + BatchSize, |rows|)]).Inserted?
    ensures var chunk := rows[i..Min(i + BatchSize, |rows|)];
      Sent(rows, insert, i + BatchSize, calls + [chunk], inserted + |chunk|,
           trace + [Uploading(inserted + |chunk|, |rows|)])
  {
    NextChunk(rows, BatchSize, |calls|, i);
    PrefixSnoc(Chunks(rows, BatchSize), |calls|);
  }

  /** Once the offset passes the end, every chunk was sent and stored. */
  lemma SentAll(rows: seq<Row>, insert: Inserter, i: nat, calls: seq<seq<Row>>, inserted: nat, trace: seq<Status>)
    requires Sent(rows, insert, i, calls, inserted, trace) && i >= |rows|
    ensures FirstFailure(Chunks(rows, BatchSize), insert).None?
    ensures calls == ExpectedCalls(rows, BatchSize, insert)
    ensures trace + [Uploaded(inserted)] == ExpectedTrace(rows, BatchSize, insert)
    ensures inserted == |rows|
  {
    var chunks := Chunks(rows, BatchSize);
    assert |calls| == |chunks|;
    assert calls == chunks by {
      assert calls == chunks[..|chunks|];
    }
    assert forall j :: 0 <= j < |chunks| ==> insert(j, chunks[j]).Inserted?;
  }

  /** A refused chunk ends the loop in the state its specification names. */
  lemma SentThenRefused(rows: seq<Row>, insert: Inserter, i: nat, calls: seq<seq<Row>>, inserted: nat, trace: seq<Status>)
    requires Sent(rows, insert, i, calls, inserted, trace) && i < |rows|
    requires insert(|calls|, rows[i..Min(i + BatchSize, |rows|)]).InsertError?
    ensures var chunk := rows[i..Min(i + BatchSize, |rows|)];
      && FirstFailure(Chunks(rows, BatchSize), insert).Some?
      && calls + [chunk] == ExpectedCalls(rows, BatchSize, insert)
      && trace + [BatchFailed(|calls| + 1, insert(|calls|, chunk).message)] == ExpectedTrace(rows, BatchSize, insert)
      && inserted == |calls| * BatchSize
  {
    var chunks := Chunks(rows, BatchSize);
    var k := |calls|;
    NextChunk(rows, BatchSize, k, i);
    assert calls == chunks[..k];
    assert forall j :: 0 <= j < k ==> insert(j, chunks[j]).Inserted? by {
      assert forall j :: 0 <= j < k ==> calls[j] == chunks[j];
    }
    RefusedAt(rows, BatchSize, insert, k);
  }

  /**
   * Sends the rows in chunks of BatchSize, in order, one call at a time. Returns
   * the statuses it shows, the chunks it handed to the database, and the running
   * count of stored rows when it stopped.
   */
  method UploadRows(rows: seq<Row>, insert: Inserter)
    returns (trace: seq<Status>, calls: seq<seq<Row>>, inserted: nat)
    ensures calls == ExpectedCalls(rows, BatchSize, insert)
    ensures trace == ExpectedTrace(rows, BatchSize, insert)
    ensures FirstFailure(Chunks(rows, BatchSize), insert).None? ==> inserted == |rows|
    ensures FirstFailure(Chunks(rows, BatchSize), insert).Some? ==> inserted == (|calls| - 1) * BatchSize
  {
    var n := |rows|;
    trace, calls, inserted := [], [], 0;
    var i := 0;
    while i < n
      invariant Sent(rows, insert, i, calls, inserted, trace)
      decreases n - i
    {
      NextChunk(rows, BatchSize, |calls|, i);
      var chunk := rows[i..Min(i + BatchSize, n)];
      var result := insert(i / BatchSize, chunk);
      if result.InsertError? {
        SentThenRefused(rows, insert, i, calls, inserted, trace);
        calls := calls + [chunk];
        trace := trace + [BatchFailed(i / BatchSize + 1, result.message)];
        return;
      }
      SentStep(rows, insert, i, calls, inserted, trace);
      calls := calls + [chunk];
      inserted := inserted + |chunk|;
      trace := trace + [Uploading(inserted, n)];
      // the await on a zero-delay timer that yields to the browser is a no-op here
      i := i + BatchSize;
    }
    SentAll(rows, insert, i, calls, inserted, trace);
    trace := trace + [Uploaded(inserted)];
  }
}
