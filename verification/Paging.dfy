/** The limit/offset window every store listing ends with (internal/store/memory.go:403-443), on Go's
    64-bit integers. */
module Paging {
  import opened Words

  /** Panics is Go's run-time error for a slice whose bounds are out of order. */
  datatype Page<T> = Panics | Rows(rows: seq<T>)

  function Start(offset: int): nat {
    if offset < 0 then 0 else offset
  }

  function Window<T>(input: seq<T>, limit: int, offset: int): Page<T> {
    if offset >= |input| then Rows([])
    else
      var start := Start(offset);
      var end := if limit > 0 && Wrap(start + limit) < |input| then Wrap(start + limit) else |input|;
      if start <= end then Rows(input[start..end]) else Panics
  }

  /** The window is the clipped slice, except that the sum of offset and limit must not overflow: it
      panics exactly when it does and there is something to show. */
  lemma WindowExact<T>(input: seq<T>, limit: int, offset: int)
    requires IsInt(limit) && IsInt(offset) && |input| <= MAX_INT
    ensures Window(input, limit, offset) == Panics <==>
            offset < |input| && limit > 0 && Start(offset) + limit > MAX_INT
    ensures Window(input, limit, offset) != Panics ==>
            Window(input, limit, offset) == Rows(
              if offset >= |input| then []
              else if limit > 0 && Start(offset) + limit < |input| then input[Start(offset)..Start(offset) + limit]
              else input[Start(offset)..])
  {
    hide Wrap;
    var sum := Start(offset) + limit;
    if limit > 0 && sum > MAX_INT {
      WrapOverflow(sum);
    }
  }

  function Prefix<T>(input: seq<T>, k: nat): seq<T> {
    if k < |input| then input[..k] else input
  }

  lemma OnePage<T>(input: seq<T>, limit: int, offset: nat)
    requires 0 < limit && offset + limit <= MAX_INT && |input| <= MAX_INT
    ensures Window(input, limit, offset).Rows?
    ensures Prefix(input, offset) + Window(input, limit, offset).rows == Prefix(input, offset + limit)
  {
    WindowExact(input, limit, offset);
    hide Window, Wrap;
    if offset < |input| {
      assert input[..offset] + input[offset..] == input;
      if offset + limit < |input| {
        assert input[..offset] + input[offset..offset + limit] == input[..offset + limit];
      }
    }
  }

  /** The first `n` pages of `limit` rows, in order. */
  function Pages<T>(input: seq<T>, limit: int, n: nat): seq<T> {
    if n == 0 then []
    else
      var page := Window(input, limit, (n - 1) * limit);
      Pages(input, limit, n - 1) + if page.Rows? then page.rows else []
  }

  /** Walking the pages shows every row once and in order: n pages are the first n * limit rows, so as
      soon as they reach the length they are everything. No page panics. */
  lemma {:induction false} PagesConcatenate<T>(input: seq<T>, limit: int, n: nat)
    requires 0 < limit && n * limit <= MAX_INT && |input| <= MAX_INT
    ensures 0 <= n * limit && Pages(input, limit, n) == Prefix(input, n * limit)
    ensures n > 0 ==> Window(input, limit, (n - 1) * limit).Rows?
  {
    if n == 0 {
    } else {
      var offset := (n - 1) * limit;
      assert offset + limit == n * limit && 0 <= offset;
      PagesConcatenate(input, limit, n - 1);
      OnePage(input, limit, offset);
      hide Window, Prefix;
    }
  }
}
