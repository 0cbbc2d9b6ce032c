/** Job logs: chunks are stored up to a cap per job and read back page by page. */
module RunnerLogs {
  import opened Sequences

  datatype Row = Row(id: int, job: int, chunk: string)

  datatype Sent = Sent(job: int, chunk: string)

  /** All text sent for a job, in order. */
  function Full(sent: seq<Sent>, job: int): string {
    if sent == [] then ""
    else
      var last := sent[|sent| - 1];
      var before := Full(sent[..|sent| - 1], job);
      if last.job == job then before + last.chunk else before
  }

  /** Rows of a job, in table order. */
  function JobRows(rows: seq<Row>, job: int): seq<Row> {
    if rows == [] then []
    else
      var last := rows[|rows| - 1];
      var before := JobRows(rows[..|rows| - 1], job);
      if last.job == job then before + [last] else before
  }

  /** The text of some rows. */
  function Text(rows: seq<Row>): string {
    if rows == [] then "" else Text(rows[..|rows| - 1]) + rows[|rows| - 1].chunk
  }

  function Cut(s: string, n: nat): (r: string)
    ensures r <= s && |r| <= n && (|r| < n ==> r == s)
  {
    if n < |s| then s[..n] else s
  }

  lemma FullAppend(sent: seq<Sent>, e: Sent, job: int)
    ensures Full(sent + [e], job) == if e.job == job then Full(sent, job) + e.chunk else Full(sent, job)
  {
    assert (sent + [e])[..|sent|] == sent;
  }

  lemma JobRowsAppend(rows: seq<Row>, r: Row, job: int)
    ensures JobRows(rows + [r], job) == if r.job == job then JobRows(rows, job) + [r] else JobRows(rows, job)
  {
    assert (rows + [r])[..|rows|] == rows;
  }

  lemma TextAppend(rows: seq<Row>, r: Row)
    ensures Text(rows + [r]) == Text(rows) + r.chunk
  {
    assert (rows + [r])[..|rows|] == rows;
  }

  /** Cutting after each append gives the same text as cutting once at the end. */
  lemma CutAppend(full: string, chunk: string, n: nat)
    ensures Cut(full + chunk, n) == Cut(full, n) + Cut(chunk, n - |Cut(full, n)|)
  {
  }

  /** What is kept of a job's log is the first `cap` bytes sent for it. */
  ghost predicate KeptPrefix(rows: seq<Row>, sent: seq<Sent>, cap: nat, job: int) {
    Text(JobRows(rows, job)) == Cut(Full(sent, job), cap)
  }

  /** The row that stores what still fits of a chunk. */
  function FittingRow(rows: seq<Row>, cap: nat, e: Sent, id: int): Row {
    var stored := |Text(JobRows(rows, e.job))|;
    Row(id, e.job, if stored < cap then Cut(e.chunk, cap - stored) else "")
  }

  /** Storing what still fits of a new chunk keeps the prefix, for its job and the others. */
  lemma AppendKeepsPrefix(rows: seq<Row>, sent: seq<Sent>, cap: nat, e: Sent, id: int, j: int)
    requires KeptPrefix(rows, sent, cap, j)
    ensures KeptPrefix(rows + [FittingRow(rows, cap, e, id)], sent + [e], cap, j)
    ensures FittingRow(rows, cap, e, id).chunk == "" ==> KeptPrefix(rows, sent + [e], cap, j)
  {
    var r := FittingRow(rows, cap, e, id);
    FullAppend(sent, e, j);
    JobRowsAppend(rows, r, j);
    if e.job == j {
      TextAppend(JobRows(rows, j), r);
      CutAppend(Full(sent, j), e.chunk, cap);
    }
  }

  // ---------------------------------------------------------------------
  // Reading pages
  // ---------------------------------------------------------------------

  function After(rows: seq<Row>, id: int): seq<Row> {
    if rows == [] then []
    else if rows[0].id > id then [rows[0]] + After(rows[1..], id)
    else After(rows[1..], id)
  }

  /** The rows of a job, and no others. */
  lemma {:induction false} JobRowsExactly(rows: seq<Row>, job: int, r: Row)
    ensures r in JobRows(rows, job) <==> r in rows && r.job == job
  {
    if rows != [] {
      var n := |rows| - 1;
      JobRowsExactly(rows[..n], job, r);
      assert rows == rows[..n] + [rows[n]];
    }
  }

  /** The rows with a larger id, and no others. */
  lemma {:induction false} AfterExactly(rows: seq<Row>, id: int, r: Row)
    ensures r in After(rows, id) <==> r in rows && r.id > id
  {
    if rows != [] {
      AfterExactly(rows[1..], id, r);
      assert rows == [rows[0]] + rows[1..];
    }
  }

  function Least(a: nat, b: nat): nat { if a < b then a else b }

  function PageSize(limit: int): nat {
    if limit <= 0 || limit > 1000 then 500 else limit
  }

  ghost predicate Increasing(rows: seq<Row>) {
    forall i, j :: 0 <= i < j < |rows| ==> rows[i].id < rows[j].id
  }

  lemma AfterStep(rows: seq<Row>, i: nat, id: int)
    requires i < |rows|
    ensures After(rows[i..], id) == (if rows[i].id > id then [rows[i]] else []) + After(rows[i + 1..], id)
  {
    DropDrop(rows, i, 1);
    Whole(After(rows[i + 1..], id));
  }

  /** The page holds what the first `i` rows contribute. */
  ghost predicate PageSoFar(all: seq<Row>, page: seq<Row>, rows: seq<Row>, i: nat, id: int) {
    i <= |rows| && all == page + After(rows[i..], id)
  }

  lemma PageStarts(rows: seq<Row>, id: int)
    ensures PageSoFar(After(rows, id), [], rows, 0, id)
  {
    Whole(rows);
    Whole(After(rows, id));
  }

  lemma PageStep(all: seq<Row>, page: seq<Row>, rows: seq<Row>, i: nat, id: int)
    requires i < |rows| && PageSoFar(all, page, rows, i, id)
    ensures PageSoFar(all, if rows[i].id > id then page + [rows[i]] else page, rows, i + 1, id)
  {
    AfterStep(rows, i, id);
    if rows[i].id > id {
      ConcatAssoc(page, [rows[i]], After(rows[i + 1..], id));
    }
  }

  lemma PageEnds(all: seq<Row>, page: seq<Row>, rows: seq<Row>, i: nat, id: int, size: nat)
    requires PageSoFar(all, page, rows, i, id) && |page| <= size && (i == |rows| || |page| == size)
    ensures page == all[..if size < |all| then size else |all|]
  {
    ConcatSlices(page, After(rows[i..], id));
  }

  lemma {:induction false} AfterFirst(rows: seq<Row>, n: nat)
    requires Increasing(rows) && n < |rows|
    ensures After(rows, rows[n].id) == rows[n + 1..]
  {
    if n == 0 {
      AfterAll(rows[1..], rows[0].id);
    } else {
      AfterFirst(rows[1..], n - 1);
      assert rows[1..][n - 1] == rows[n] && rows[1..][n..] == rows[n + 1..];
    }
  }

  lemma {:induction false} AfterAll(rows: seq<Row>, id: int)
    requires forall r :: r in rows ==> r.id > id
    ensures After(rows, id) == rows
  {
    if rows != [] {
      AfterAll(rows[1..], id);
      assert rows == [rows[0]] + rows[1..];
    }
  }

  lemma {:induction false} JobRowsIncreasing(rows: seq<Row>, job: int)
    requires Increasing(rows)
    ensures Increasing(JobRows(rows, job)) && forall r :: r in JobRows(rows, job) ==> r in rows
  {
    if rows != [] {
      var n := |rows| - 1;
      JobRowsIncreasing(rows[..n], job);
      var before := JobRows(rows[..n], job);
      forall i | 0 <= i < |before| ensures before[i].id < rows[n].id {
        assert before[i] in rows[..n];
      }
    }
  }

  // ---------------------------------------------------------------------
  // The store
  // ---------------------------------------------------------------------

  class LogStore {
    var rows: seq<Row>
    var nextId: int
    const logMax: nat

    ghost var sent: seq<Sent>

    ghost predicate Valid()
      reads this
    {
      && 0 < nextId && Increasing(rows)
      && (forall i :: 0 <= i < |rows| ==> 0 < rows[i].id < nextId && rows[i].chunk != "")
      && forall job: int :: KeptPrefix(rows, sent, logMax, job)
    }

    constructor (logMaxMB: int)
      ensures Valid() && rows == [] && sent == []
      ensures logMax == (if logMaxMB <= 0 then 10 else logMaxMB) * 1048576
    {
      logMax := (if logMaxMB <= 0 then 10 else logMaxMB) * 1048576;
      rows, nextId, sent := [], 1, [];
    }

    /** The sum of the stored chunk lengths of a job. */
    method LogSize(job: int) returns (n: nat)
      ensures n == |Text(JobRows(rows, job))|
    {
      n := 0;
      for i := 0 to |rows|
        invariant n == |Text(JobRows(rows[..i], job))|
      {
        assert rows[..i + 1] == rows[..i] + [rows[i]];
        JobRowsAppend(rows[..i], rows[i], job);
        TextAppend(JobRows(rows[..i], job), rows[i]);
        if rows[i].job == job {
          n := n + |rows[i].chunk|;
        }
      }
      assert rows[..|rows|] == rows;
    }

    method AppendLog(job: int, chunk: string)
      requires Valid()
      modifies this
      ensures Valid() && sent == old(sent) + [Sent(job, chunk)]
    {
      ghost var id, was := nextId, rows;
      if chunk != "" {
        var current := LogSize(job);
        if current < logMax {
          var remaining := logMax - current;
          var kept := if |chunk| > remaining then chunk[..remaining] else chunk;
          rows := rows + [Row(nextId, job, kept)];
          nextId := nextId + 1;
        }
      }
      sent := sent + [Sent(job, chunk)];
      ghost var row := FittingRow(was, logMax, Sent(job, chunk), id);
      assert if row.chunk == "" then rows == was else rows == was + [row];
      forall j ensures KeptPrefix(rows, sent, logMax, j) {
        assert KeptPrefix(was, old(sent), logMax, j);
        AppendKeepsPrefix(was, old(sent), logMax, Sent(job, chunk), id, j);
      }
    }

    /** One page: the rows of a job with a larger id, in order, up to the limit. */
    method Logs(job: int, afterId: int, limit: int) returns (page: seq<Row>)
      ensures page <= After(JobRows(rows, job), afterId)
      ensures 1 <= limit <= 1000 ==> |page| == Least(limit, |After(JobRows(rows, job), afterId)|)
      ensures limit < 1 || 1000 < limit ==> |page| == Least(500, |After(JobRows(rows, job), afterId)|)
    {
      page := [];
      var i := 0;
      var mine := JobRows(rows, job);
      ghost var all := After(mine, afterId);
      PageStarts(mine, afterId);
      while i < |mine| && |page| < PageSize(limit)
        invariant 0 <= i <= |mine|
        invariant |page| <= PageSize(limit)
        invariant PageSoFar(all, page, mine, i, afterId)
      {
        PageStep(all, page, mine, i, afterId);
        if mine[i].id > afterId {
          page := page + [mine[i]];
        }
        i := i + 1;
      }
      PageEnds(all, page, mine, i, afterId, PageSize(limit));
    }

    /** Asks for page after page, each time after the last id seen, until one is empty. */
    method Pages(job: int, limits: nat -> int, ghost mine: seq<Row>) returns (out: seq<Row>)
      requires mine == JobRows(rows, job) && Increasing(mine) && After(mine, 0) == mine
      ensures out == mine
    {
      out := [];
      var after := 0;
      var calls := 0;
      ghost var k := 0;
      while true
        invariant k <= |mine| && out == mine[..k]
        invariant After(mine, after) == mine[k..]
        decreases |mine| - k
      {
        var page := Logs(job, after, limits(calls));
        if page == [] {
          break;
        }
        assert page == mine[k..][..|page|];
        NextPage(mine, k, |page|, page);
        k := k + |page|;
        out := out + page;
        after := page[|page| - 1].id;
        calls := calls + 1;
      }
    }

    /** Paging with any limits returns every stored row of a job once, in order. */
    method ReadAll(job: int, limits: nat -> int) returns (out: seq<Row>)
      requires Valid()
      ensures out == JobRows(rows, job)
      ensures Text(out) == Cut(Full(sent, job), logMax)
    {
      ghost var mine := JobRows(rows, job);
      JobRowsIncreasing(rows, job);
      AfterAll(mine, 0);
      assert KeptPrefix(rows, sent, logMax, job);
      out := Pages(job, limits, mine);
    }
  }

  /** After the last row of a page the rows behind the page follow. */
  lemma NextPage(mine: seq<Row>, k: nat, n: nat, page: seq<Row>)
    requires Increasing(mine) && 0 < n && k + n <= |mine| && page == mine[k..][..n]
    ensures mine[..k] + page == mine[..k + n]
    ensures After(mine, page[n - 1].id) == mine[k + n..]
  {
    DropTake(mine, k, n);
    TakeConcat(mine, k, n);
    assert page[n - 1] == mine[k + n - 1];
    AfterFirst(mine, k + n - 1);
  }
}
