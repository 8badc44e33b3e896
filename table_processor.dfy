/**
 * The DataTableProcessor flow: it takes the chunk table of an upstream MarkdownChunker run, keeps
 * the rows whose word and character counts are strictly above two thresholds, adds a `tld`
 * column derived from `page_url`, and re-indexes the result densely while keeping each row's
 * upstream index label in an `index` column.
 */
module DataTableProcessor {
  import opened Wrappers
  import opened Runs

  /** A row of the chunker's table, with the columns this stage reads. */
  datatype Chunk = Chunk(pageUrl: string, contents: string, charCount: int, wordCount: int)

  /** A row after the `tld` column has been added. */
  datatype EnrichedChunk = EnrichedChunk(chunk: Chunk, tld: string)

  /** A row after `reset_index`: its former index label now sits in the `index` column. */
  datatype ProcessedRow = ProcessedRow(index: int, chunk: Chunk, tld: string)

  /** One row of a data frame together with its index label. */
  datatype Labelled<R> = Labelled(key: int, row: R)

  /** A data frame: its rows in order, each with its index label. */
  type Frame<R> = seq<Labelled<R>>

  const DefaultParentFlow := "MarkdownChunker"
  const DefaultWordCountThreshold := 10
  const DefaultCharCountThreshold := 25
  const DefaultNBins := 100

  predicate StrictlyIncreasing(s: seq<int>) {
    forall i, j :: 0 <= i < j < |s| ==> s[i] < s[j]
  }

  /** The positions of the rows that `keep` accepts, in table order. */
  function KeptPositions<R>(f: Frame<R>, keep: R -> bool): (ps: seq<int>)
    ensures forall j :: 0 <= j < |ps| ==> 0 <= ps[j] < |f|
    ensures StrictlyIncreasing(ps)
    ensures forall i :: 0 <= i < |f| ==> (i in ps <==> keep(f[i].row))
    decreases |f|
  {
    if f == [] then []
    else
      var ps := KeptPositions(f[..|f| - 1], keep);
      assert forall i :: 0 <= i < |f| - 1 ==> f[..|f| - 1][i] == f[i];
      if keep(f[|f| - 1].row) then ps + [|f| - 1] else ps
  }

  /** `df[mask]` for the mask `keep`: the rows it accepts, in order, with their labels. */
  function Select<R>(f: Frame<R>, keep: R -> bool): (g: Frame<R>)
    ensures |g| <= |f|
    ensures forall j :: 0 <= j < |g| ==> keep(g[j].row)
    decreases |f|
  {
    if f == [] then []
    else Select(f[..|f| - 1], keep) + (if keep(f[|f| - 1].row) then [f[|f| - 1]] else [])
  }

  /** Selection is the order-preserving subsequence at the kept positions. */
  lemma {:induction false} SelectAtKeptPositions<R>(f: Frame<R>, keep: R -> bool)
    ensures |Select(f, keep)| == |KeptPositions(f, keep)|
    ensures forall j :: 0 <= j < |Select(f, keep)| ==> Select(f, keep)[j] == f[KeptPositions(f, keep)[j]]
    decreases |f|
  {
    if f != [] {
      var init := f[..|f| - 1];
      SelectAtKeptPositions(init, keep);
      assert forall i :: 0 <= i < |init| ==> init[i] == f[i];
    }
  }

  lemma {:induction false} SelectAppend<R>(a: Frame<R>, b: Frame<R>, keep: R -> bool)
    ensures Select(a + b, keep) == Select(a, keep) + Select(b, keep)
    decreases |b|
  {
    if b == [] {
      assert a + b == a;
    } else {
      var b' := b[..|b| - 1];
      assert (a + b)[..|a + b| - 1] == a + b';
      SelectAppend(a, b', keep);
    }
  }

  /** Masking by `p` and then by `q` is masking by their conjunction. */
  lemma {:induction false} SelectTwice<R>(f: Frame<R>, p: R -> bool, q: R -> bool, both: R -> bool)
    requires forall r :: both(r) == (p(r) && q(r))
    ensures Select(Select(f, p), q) == Select(f, both)
    decreases |f|
  {
    if f != [] {
      var init, last := f[..|f| - 1], f[|f| - 1];
      SelectTwice(init, p, q, both);
      var tail := if p(last.row) then [last] else [];
      SelectAppend(Select(init, p), tail, q);
      assert Select(tail, q) == (if p(last.row) && q(last.row) then [last] else []) by {
        if tail != [] {
          assert tail[..0] == [];
        }
      }
    }
  }

  /** A mask that accepts every row selects the whole frame. */
  lemma {:induction false} SelectAll<R>(f: Frame<R>, keep: R -> bool)
    requires forall j :: 0 <= j < |f| ==> keep(f[j].row)
    ensures Select(f, keep) == f
    decreases |f|
  {
    if f != [] {
      SelectAll(f[..|f| - 1], keep);
    }
  }

  /** Masking twice by the same mask is masking once. */
  lemma SelectIdempotent<R>(f: Frame<R>, keep: R -> bool)
    ensures Select(Select(f, keep), keep) == Select(f, keep)
  {
    SelectAll(Select(f, keep), keep);
  }

  /** Masking keeps rows of the frame only. */
  lemma {:induction false} SelectWithin<R>(f: Frame<R>, keep: R -> bool)
    ensures forall j :: 0 <= j < |Select(f, keep)| ==> Select(f, keep)[j] in f
    decreases |f|
  {
    if f != [] {
      var init := f[..|f| - 1];
      SelectWithin(init, keep);
      assert forall x :: x in init ==> x in f;
    }
  }

  /** The stage's retention rule: both counts strictly above their thresholds. */
  predicate Retained(r: Chunk, wordCountThreshold: int, charCountThreshold: int) {
    r.wordCount > wordCountThreshold && r.charCount > charCountThreshold
  }

  /** `df[df.word_count > w]` followed by `_df[_df.char_count > c]`. */
  function FilterByCounts(df: Frame<Chunk>, w: int, c: int): (kept: Frame<Chunk>)
    ensures |kept| <= |df|
    ensures forall j :: 0 <= j < |kept| ==> kept[j] in df && Retained(kept[j].row, w, c)
  {
    var words := Select(df, (r: Chunk) => r.wordCount > w);
    SelectWithin(df, (r: Chunk) => r.wordCount > w);
    SelectWithin(words, (r: Chunk) => r.charCount > c);
    Select(Select(df, (r: Chunk) => r.wordCount > w), (r: Chunk) => r.charCount > c)
  }

  /** The two masks keep exactly the rows that meet both thresholds, as an order-preserving subsequence. */
  lemma FilterKeepsRetained(df: Frame<Chunk>, w: int, c: int)
    ensures var ps := KeptPositions(df, (r: Chunk) => Retained(r, w, c));
      && |FilterByCounts(df, w, c)| == |ps| <= |df|
      && StrictlyIncreasing(ps)
      && (forall j :: 0 <= j < |ps| ==> FilterByCounts(df, w, c)[j] == df[ps[j]])
      && (forall i :: 0 <= i < |df| ==> (i in ps <==> Retained(df[i].row, w, c)))
  {
    var both := (r: Chunk) => Retained(r, w, c);
    SelectTwice(df, (r: Chunk) => r.wordCount > w, (r: Chunk) => r.charCount > c, both);
    SelectAtKeptPositions(df, both);
  }

  /** Filtering a filtered table with the same thresholds changes nothing. */
  lemma FilterIdempotent(df: Frame<Chunk>, w: int, c: int)
    ensures FilterByCounts(FilterByCounts(df, w, c), w, c) == FilterByCounts(df, w, c)
  {
    var both := (r: Chunk) => Retained(r, w, c);
    var words := (r: Chunk) => r.wordCount > w;
    var chars := (r: Chunk) => r.charCount > c;
    SelectTwice(df, words, chars, both);
    SelectTwice(FilterByCounts(df, w, c), words, chars, both);
    SelectIdempotent(df, both);
  }

  /** `_df['tld'] = _df['page_url'].apply(lambda url: "https://" + tldextract.extract(url).fqdn)`. */
  function AddTld(f: Frame<Chunk>, fqdn: string -> string): (g: Frame<EnrichedChunk>)
    ensures |g| == |f|
    ensures forall i :: 0 <= i < |f| ==>
      && g[i].key == f[i].key
      && g[i].row.chunk == f[i].row
      && g[i].row.tld == "https://" + fqdn(f[i].row.pageUrl)
  {
    seq(|f|, i requires 0 <= i < |f| => Labelled(f[i].key, EnrichedChunk(f[i].row, "https://" + fqdn(f[i].row.pageUrl))))
  }

  /** `reset_index(inplace=True)`: each label moves into the `index` column and the rows are labelled 0..n-1. */
  function ResetIndex(f: Frame<EnrichedChunk>): (g: Frame<ProcessedRow>)
    ensures |g| == |f|
    ensures forall i :: 0 <= i < |f| ==>
      g[i].key == i && g[i].row == ProcessedRow(f[i].key, f[i].row.chunk, f[i].row.tld)
  {
    seq(|f|, i requires 0 <= i < |f| => Labelled(i, ProcessedRow(f[i].key, f[i].row.chunk, f[i].row.tld)))
  }

  /** `_df.index = range(len(_df))`. */
  function SetRangeIndex<R>(f: Frame<R>): (g: Frame<R>)
    ensures |g| == |f|
    ensures forall i :: 0 <= i < |f| ==> g[i] == Labelled(i, f[i].row)
  {
    seq(|f|, i requires 0 <= i < |f| => Labelled(i, f[i].row))
  }

  /** A frame whose labels are its positions. */
  predicate HasRangeIndex<R>(f: Frame<R>) {
    forall i :: 0 <= i < |f| ==> f[i].key == i
  }

  /** After `reset_index` the frame already has the range index, so the explicit assignment is a no-op. */
  lemma RangeIndexAfterReset(f: Frame<EnrichedChunk>)
    ensures HasRangeIndex(ResetIndex(f))
    ensures SetRangeIndex(ResetIndex(f)) == ResetIndex(f)
  {
  }

  /** The table the stage produces from an upstream table. */
  function Process(df: Frame<Chunk>, w: int, c: int, fqdn: string -> string): (out: Frame<ProcessedRow>)
    ensures |out| <= |df| && HasRangeIndex(out)
    ensures forall j :: 0 <= j < |out| ==>
      Retained(out[j].row.chunk, w, c) && Labelled(out[j].row.index, out[j].row.chunk) in df
  {
    SetRangeIndex(ResetIndex(AddTld(FilterByCounts(df, w, c), fqdn)))
  }

  /**
   * What the processed table is: one row per retained upstream row, in upstream order, labelled
   * 0..n-1, each carrying its upstream label in `index`, its upstream columns unchanged and its `tld`.
   */
  lemma ProcessSpec(df: Frame<Chunk>, w: int, c: int, fqdn: string -> string)
    ensures var out, ps := Process(df, w, c, fqdn), KeptPositions(df, (r: Chunk) => Retained(r, w, c));
      && |out| == |ps| <= |df|
      && HasRangeIndex(out)
      && (forall i :: 0 <= i < |df| ==> (i in ps <==> Retained(df[i].row, w, c)))
      && forall j :: 0 <= j < |out| ==>
        && Retained(out[j].row.chunk, w, c)
        && out[j].row.index == df[ps[j]].key
        && out[j].row.chunk == df[ps[j]].row
        && out[j].row.tld == "https://" + fqdn(df[ps[j]].row.pageUrl)
  {
    FilterKeepsRetained(df, w, c);
  }

  /** With a range-indexed upstream table, the `index` column lists the kept positions in increasing order. */
  lemma ProcessedIndexIncreases(df: Frame<Chunk>, w: int, c: int, fqdn: string -> string)
    requires HasRangeIndex(df)
    ensures var out := Process(df, w, c, fqdn);
      && StrictlyIncreasing(seq(|out|, j requires 0 <= j < |out| => out[j].row.index))
      && forall j :: 0 <= j < |out| ==> 0 <= out[j].row.index < |df|
  {
    ProcessSpec(df, w, c, fqdn);
  }

  /** An empty upstream table gives an empty processed table. */
  lemma ProcessEmpty(w: int, c: int, fqdn: string -> string)
    ensures Process([], w, c, fqdn) == []
  {
  }

  /**
   * What `start` leaves in `processed_df`, or the exception it raises while finding its input:
   * `None` when the upstream run was unsuccessful, the processed table otherwise.
   */
  function StartResult(trigger: Option<Run<Frame<Chunk>>>, registry: Registry<Frame<Chunk>>, parentFlow: string,
                       w: int, c: int, fqdn: string -> string): (r: Result<Option<Frame<ProcessedRow>>>)
    ensures var up := TriggerOrLatestRun(trigger, registry, parentFlow);
      && (r.Err? <==> up.Err?)
      && (r.Err? ==> r.error == up.error)
      && (r.Ok? ==> (r.value.None? <==> !up.value.successful))
    ensures r.Ok? && r.value.Some? ==>
      var up := TriggerOrLatestRun(trigger, registry, parentFlow).value;
      && |r.value.value| <= |up.data| && HasRangeIndex(r.value.value)
      && forall j :: 0 <= j < |r.value.value| ==> Retained(r.value.value[j].row.chunk, w, c)
  {
    var run :- TriggerOrLatestRun(trigger, registry, parentFlow);
    if !run.successful then Ok(None) else Ok(Some(Process(run.data, w, c, fqdn)))
  }

  /** What `end` reads: the number of rows of `processed_df`, or the exception `None.shape` raises. */
  function EndResult(processedDf: Option<Frame<ProcessedRow>>): (r: Result<nat>)
    ensures r.Err? <==> processedDf.None?
    ensures r.Err? ==> r.error == AttributeError
    ensures processedDf.Some? ==> r == Ok(|processedDf.value|)
  {
    match processedDf
    case None => Err(AttributeError)
    case Some(t) => Ok(|t|)
  }

  /** The flow run succeeds when neither step raises. */
  predicate RunSucceeds(trigger: Option<Run<Frame<Chunk>>>, registry: Registry<Frame<Chunk>>, parentFlow: string,
                        w: int, c: int, fqdn: string -> string)
  {
    var s := StartResult(trigger, registry, parentFlow, w, c, fqdn);
    s.Ok? && EndResult(s.value).Ok?
  }

  /**
   * Skipping an unsuccessful upstream run leaves `processed_df` as `None`, which makes `end` raise:
   * a DataTableProcessor run succeeds exactly when its upstream run was found and was successful,
   * and then its artifact is the processed upstream table.
   */
  lemma SuccessMeansProcessed(trigger: Option<Run<Frame<Chunk>>>, registry: Registry<Frame<Chunk>>, parentFlow: string,
                              w: int, c: int, fqdn: string -> string)
    ensures var up := TriggerOrLatestRun(trigger, registry, parentFlow);
      RunSucceeds(trigger, registry, parentFlow, w, c, fqdn) <==> up.Ok? && up.value.successful
    ensures RunSucceeds(trigger, registry, parentFlow, w, c, fqdn) ==>
      var up := TriggerOrLatestRun(trigger, registry, parentFlow).value;
      StartResult(trigger, registry, parentFlow, w, c, fqdn) == Ok(Some(Process(up.data, w, c, fqdn)))
  {
  }

  /** Five chunks of 100 characters each with word counts 5, 11, 20, 10, 50, labelled 0 to 4. */
  function WorkedFrame(): (df: Frame<Chunk>)
    ensures |df| == 5
    ensures forall i :: 0 <= i < 5 ==> df[i].key == i && df[i].row.charCount == 100
  {
    seq(5, i requires 0 <= i < 5 => Labelled(i, Chunk("", "", 100, [5, 11, 20, 10, 50][i])))
  }

  /** The worked example: with thresholds 10 and 25 the rows labelled 1, 2 and 4 remain. */
  lemma WorkedExample(fqdn: string -> string)
    ensures var out := Process(WorkedFrame(), 10, 25, fqdn);
      |out| == 3 && out[0].row.index == 1 && out[1].row.index == 2 && out[2].row.index == 4
  {
    ProcessSpec(WorkedFrame(), 10, 25, fqdn);
    WorkedKeptPositions();
  }

  /** Of the worked example's rows, exactly those at positions 1, 2 and 4 pass both thresholds. */
  lemma WorkedKeptPositions()
    ensures KeptPositions(WorkedFrame(), (r: Chunk) => Retained(r, 10, 25)) == [1, 2, 4]
  {
    var df := WorkedFrame();
    var ps := KeptPositions(df, (r: Chunk) => Retained(r, 10, 25));
    assert Retained(df[1].row, 10, 25) && Retained(df[2].row, 10, 25) && Retained(df[4].row, 10, 25);
    assert !Retained(df[0].row, 10, 25) && !Retained(df[3].row, 10, 25);
    forall x ensures x in ps <==> x in [1, 2, 4] {
      if x in ps {
        assert 0 <= x < 5;
        assert x == 0 || x == 1 || x == 2 || x == 3 || x == 4;
      }
    }
    IncreasingSameElements(ps, [1, 2, 4]);
  }

  /** Two strictly increasing sequences with the same elements are equal. */
  lemma {:induction false} IncreasingSameElements(a: seq<int>, b: seq<int>)
    requires StrictlyIncreasing(a) && StrictlyIncreasing(b)
    requires forall x :: x in a <==> x in b
    ensures a == b
    decreases |a| + |b|
  {
    if a != [] && b != [] {
      assert a[0] == b[0] by {
        HeadIsLeast(a, b[0]);
        HeadIsLeast(b, a[0]);
      }
      forall x ensures x in a[1..] <==> x in b[1..] {
        if x in a[1..] {
          HeadIsLeast(a[1..], a[1]);
          assert x != b[0] && x in b;
          TailHoldsRest(b, x);
        }
        if x in b[1..] {
          assert x != a[0] && x in a;
          TailHoldsRest(a, x);
        }
      }
      IncreasingSameElements(a[1..], b[1..]);
      assert a == [a[0]] + a[1..] && b == [b[0]] + b[1..];
    } else {
      HeadIsElement(a);
      HeadIsElement(b);
    }
  }

  lemma HeadIsElement(s: seq<int>)
    ensures s == [] || s[0] in s
  {
  }

  lemma HeadIsLeast(s: seq<int>, x: int)
    requires StrictlyIncreasing(s) && x in s
    ensures s[0] <= x
    ensures forall y :: y in s[1..] ==> s[0] < y
  {
    forall y | y in s[1..] ensures s[0] < y {
      var k :| 0 <= k < |s[1..]| && s[1..][k] == y;
      assert s[k + 1] == y;
    }
  }

  lemma TailHoldsRest(s: seq<int>, x: int)
    requires s != [] && x in s && x != s[0]
    ensures x in s[1..]
  {
    var k :| 0 <= k < |s| && s[k] == x;
    assert s[1..][k - 1] == x;
  }

  /** The flow object; its parameters are fixed at launch and `start` sets `processed_df`. */
  class Flow {
    const saveProcessedDf: bool
    const parentFlow: string
    const nBins: int
    const wordCountThreshold: int
    const charCountThreshold: int
    var processedDf: Option<Frame<ProcessedRow>>

    constructor (saveProcessedDf: bool := true, parentFlow: string := DefaultParentFlow, nBins: int := DefaultNBins,
                 wordCountThreshold: int := DefaultWordCountThreshold, charCountThreshold: int := DefaultCharCountThreshold)
      ensures this.saveProcessedDf == saveProcessedDf && this.parentFlow == parentFlow && this.nBins == nBins
      ensures this.wordCountThreshold == wordCountThreshold && this.charCountThreshold == charCountThreshold
      ensures processedDf.None?
    {
      this.saveProcessedDf := saveProcessedDf;
      this.parentFlow := parentFlow;
      this.nBins := nBins;
      this.wordCountThreshold := wordCountThreshold;
      this.charCountThreshold := charCountThreshold;
      processedDf := None;
    }

    /**
     * The `start` step: find the upstream run, skip it when it was unsuccessful, and otherwise
     * filter, enrich and re-index its table into `processed_df`.
     */
    method Start(trigger: Option<Run<Frame<Chunk>>>, registry: Registry<Frame<Chunk>>, fqdn: string -> string)
      returns (outcome: Outcome)
      modifies this
      ensures var r := StartResult(trigger, registry, parentFlow, wordCountThreshold, charCountThreshold, fqdn);
        && (r.Err? ==> outcome == Fail(r.error) && processedDf == old(processedDf))
        && (r.Ok? ==> outcome == Pass && processedDf == r.value)
    {
      var resolved := TriggerOrLatestRun(trigger, registry, parentFlow);
      if resolved.Err? {
        return Fail(resolved.error);
      }
      var run := resolved.value;
      if !run.successful {
        processedDf := None;
      } else {
        var df := run.data;
        var filtered := Select(df, (r: Chunk) => r.wordCount > wordCountThreshold);
        filtered := Select(filtered, (r: Chunk) => r.charCount > charCountThreshold);
        var enriched := AddTld(filtered, fqdn);
        var reset := ResetIndex(enriched);
        reset := SetRangeIndex(reset);
        processedDf := Some(reset);
      }
      outcome := Pass;
    }

    /** The `end` step: report the shape of `processed_df`; it raises when `processed_df` is `None`. */
    method End() returns (rows: Result<nat>)
      ensures rows.Err? <==> processedDf.None?
      ensures rows.Err? ==> rows.error == AttributeError
      ensures processedDf.Some? ==> rows == Ok(|processedDf.value|)
    {
      match processedDf
      case None => rows := Err(AttributeError);
      case Some(t) => rows := Ok(|t|);
    }
  }
}
