/**
 * `api_log_list` of src/api/log.rs: the groups of one type (or of every type),
 * newest report first, cut into pages, with the pending and solved counts.
 * The database query is replaced by a sequence of rows already in
 * `last_time` descending order.
 */
module LogList {
  import opened Basics
  import opened Text
  import opened Auth
  import opened LogStore

  /** A row of `upload_log` with its key. */
  datatype Row = Row(hash: string, group: Group)

  /** One entry of the `items` array. */
  datatype ListItem = ListItem(hash: string, firstTime: int, lastTime: int, totalCount: int, status: int, message: string)

  /** The JSON answer of `api_log_list`. */
  datatype ListResponse = ListResponse(
    total: int,
    pending: int,
    solved: int,
    totalPages: int,
    isAdmin: bool,
    items: seq<ListItem>)

  const MaxPageSize: int := 100

  /** The order the query asks for: `order_by_desc(last_time)`. */
  predicate NewestFirst(rows: seq<Row>) {
    forall i, j | 0 <= i < j < |rows| :: rows[i].group.lastTime >= rows[j].group.lastTime
  }

  /** The rows of one type, in their original order. */
  function OfLogType(rows: seq<Row>, logType: string): (r: seq<Row>)
    ensures |r| <= |rows|
    ensures forall x :: x in r <==> x in rows && x.group.logType == logType
  {
    if rows == [] then []
    else
      var init := rows[..|rows| - 1];
      var last := rows[|rows| - 1];
      assert rows == init + [last];
      OfLogType(init, logType) + if last.group.logType == logType then [last] else []
  }

  /** The rows of one type in two lists one after the other: those of each, in the same order. */
  lemma {:induction false} OfLogTypeAppend(a: seq<Row>, b: seq<Row>, logType: string)
    ensures OfLogType(a + b, logType) == OfLogType(a, logType) + OfLogType(b, logType)
    decreases |b|
  {
    if b == [] {
      assert a + b == a;
    } else {
      var init := b[..|b| - 1];
      assert (a + b)[..|a + b| - 1] == a + init;
      assert (a + b)[|a + b| - 1] == b[|b| - 1];
      OfLogTypeAppend(a, init, logType);
    }
  }

  /** Filtering a list with a first row: the row itself if it has the type, then the rest filtered. */
  lemma OfLogTypeCons(x: Row, rest: seq<Row>, logType: string)
    ensures OfLogType([x] + rest, logType) == (if x.group.logType == logType then [x] else []) + OfLogType(rest, logType)
  {
    OfLogTypeAppend([x], rest, logType);
    assert [x][..0] == [];
  }

  /** Of two rows of the type, the earlier one comes first in the filtered list. */
  lemma OfLogTypeInOrder(rows: seq<Row>, i: nat, j: nat, logType: string)
    requires i < j < |rows|
    requires rows[i].group.logType == logType && rows[j].group.logType == logType
    ensures exists p, q :: 0 <= p < q < |OfLogType(rows, logType)| &&
                           OfLogType(rows, logType)[p] == rows[i] && OfLogType(rows, logType)[q] == rows[j]
  {
    var front, back := rows[..j], rows[j..];
    var kf, kb := OfLogType(front, logType), OfLogType(back, logType);
    assert OfLogType(rows, logType) == kf + kb by {
      assert rows == front + back;
      OfLogTypeAppend(front, back, logType);
    }
    assert rows[i] in kf by {
      assert front[i] == rows[i];
    }
    assert kb != [] && kb[0] == rows[j] by {
      assert back == [rows[j]] + back[1..];
      OfLogTypeCons(rows[j], back[1..], logType);
    }
    BeforeAcrossAppend(kf, kb, rows[i], rows[j]);
  }

  /** An element of the first part comes before the head of the second. */
  lemma BeforeAcrossAppend<T>(f: seq<T>, b: seq<T>, x: T, y: T)
    requires x in f && b != [] && b[0] == y
    ensures exists p, q :: 0 <= p < q < |f + b| && (f + b)[p] == x && (f + b)[q] == y
  {
    var p :| 0 <= p < |f| && f[p] == x;
    assert (f + b)[p] == x && (f + b)[|f|] == y;
  }

  /** An empty `log_type` lists every group; any other lists that type only. */
  function Matching(rows: seq<Row>, logType: string): (r: seq<Row>)
    ensures logType == "" ==> r == rows
    ensures logType != "" ==> forall x :: x in r <==> x in rows && x.group.logType == logType
  {
    if logType == "" then rows else OfLogType(rows, logType)
  }

  /** Keeping the rows of one type keeps them newest first. */
  lemma {:induction false} OfLogTypeNewestFirst(rows: seq<Row>, logType: string)
    requires NewestFirst(rows)
    ensures NewestFirst(OfLogType(rows, logType))
  {
    if rows != [] {
      var init := rows[..|rows| - 1];
      var last := rows[|rows| - 1];
      assert NewestFirst(init);
      OfLogTypeNewestFirst(init, logType);
      var r := OfLogType(rows, logType);
      forall x | x in OfLogType(init, logType) ensures x.group.lastTime >= last.group.lastTime {
        var i :| 0 <= i < |init| && init[i] == x;
      }
    }
  }

  /** How many of the rows have the given status. */
  function CountStatus(rows: seq<Row>, status: int): (n: nat)
    ensures n <= |rows|
  {
    if rows == [] then 0
    else CountStatus(rows[..|rows| - 1], status) + if rows[|rows| - 1].group.status == status then 1 else 0
  }

  /** Pending and solved groups are distinct, so together they are at most all of them. */
  lemma {:induction false} PendingSolvedWithinTotal(rows: seq<Row>)
    ensures CountStatus(rows, 0) + CountStatus(rows, 1) <= |rows|
  {
    if rows != [] {
      PendingSolvedWithinTotal(rows[..|rows| - 1]);
    }
  }

  /** `page.max(1)` */
  function ClampPage(page: int): (p: int)
    ensures p >= 1 && p >= page
    ensures page >= 1 ==> p == page
  {
    if page < 1 then 1 else page
  }

  /** `page_size.max(1).min(100)` */
  function ClampSize(size: int): (s: int)
    ensures 1 <= s <= MaxPageSize
    ensures 1 <= size <= MaxPageSize ==> s == size
    ensures size < 1 ==> s == 1
    ensures size > MaxPageSize ==> s == MaxPageSize
  {
    if size < 1 then 1 else if size > MaxPageSize then MaxPageSize else size
  }

  /** The number of rows before a page, computed exactly. */
  function PageOffset(page: int, size: int): (offset: nat)
    requires page >= 1 && size >= 1
    ensures offset % size == 0 && offset / size == page - 1
  {
    MulDivExact(page - 1, size);
    (page - 1) * size
  }

  /** Dividing a multiple by its factor is exact. */
  lemma MulDivExact(a: nat, b: int)
    requires b >= 1
    ensures (a * b) / b == a && (a * b) % b == 0
  {
    var q, r := (a * b) / b, (a * b) % b;
    assert (a - q) * b == r;
    if a - q >= 1 {
      assert false;
    } else if a - q <= -1 {
      assert false;
    }
  }

  lemma MulMonotone(x: int, y: int, c: nat)
    requires x <= y
    ensures x * c <= y * c
  {
    assert y * c - x * c == (y - x) * c;
  }

  /** `(total / page_size).ceil()`, or 0 when there is nothing to list. */
  function TotalPages(total: nat, size: int): (pages: nat)
    requires size >= 1
    ensures pages == 0 <==> total == 0
    ensures total > 0 ==> (pages - 1) * size < total <= pages * size
  {
    if total == 0 then 0
    else
      var q := (total + size - 1) / size;
      assert q * size <= total + size - 1 < q * size + size;
      q
  }

  /** The rows `offset(offset).limit(limit)` selects. */
  function Window(rows: seq<Row>, offset: nat, limit: nat): (w: seq<Row>)
    ensures |w| <= limit
    ensures offset <= |rows| ==> |w| == if |rows| - offset < limit then |rows| - offset else limit
    ensures offset > |rows| ==> w == []
    ensures forall k | 0 <= k < |w| :: offset + k < |rows| && w[k] == rows[offset + k]
  {
    var lo := if offset < |rows| then offset else |rows|;
    var hi := if offset + limit < |rows| then offset + limit else |rows|;
    rows[lo..hi]
  }

  function ItemOf(row: Row): ListItem {
    ListItem(row.hash, row.group.firstTime, row.group.lastTime, row.group.totalCount, row.group.status, row.group.message)
  }

  function Items(rows: seq<Row>): (items: seq<ListItem>)
    ensures |items| == |rows|
    ensures forall k | 0 <= k < |rows| :: items[k] == ItemOf(rows[k])
  {
    if rows == [] then [] else Items(rows[..|rows| - 1]) + [ItemOf(rows[|rows| - 1])]
  }

  /** The page a listing shows: its rows, newest first, after skipping the earlier pages. */
  function PageItems(rows: seq<Row>, logType: string, page: int, pageSize: int): (items: seq<ListItem>)
    ensures |items| <= ClampSize(pageSize)
    ensures forall k | 0 <= k < |items| :: items[k].hash in set row | row in Matching(rows, logType) :: row.hash
  {
    var size := ClampSize(pageSize);
    Items(Window(Matching(rows, logType), PageOffset(ClampPage(page), size), size))
  }

  /**
   * `api_log_list`. Any authenticated caller may list. The counts cover every
   * matching group; the items are the requested page of them.
   */
  function ListLogs(cfg: Config, username: string, password: Option<string>,
                    rows: seq<Row>, logType: string, page: int, pageSize: int): (r: Reply<ListResponse>)
    ensures r.Challenge? <==> UserAuthentication(cfg, username, password) == Denied
    ensures !r.Forbidden?
    ensures r.Done? ==>
              var m := Matching(rows, logType);
              var size := ClampSize(pageSize);
              var offset := PageOffset(ClampPage(page), size);
              && r.body.total == |m|
              && r.body.pending == CountStatus(m, 0)
              && r.body.solved == CountStatus(m, 1)
              && r.body.pending + r.body.solved <= r.body.total
              && r.body.totalPages == TotalPages(|m|, size)
              && (r.body.totalPages == 0 <==> |m| == 0)
              && r.body.totalPages * size >= |m|
              && r.body.isAdmin == (UserAuthentication(cfg, username, password) == Granted(true))
              && |r.body.items| <= size
              && (offset < |m| ==> |r.body.items| == if |m| - offset < size then |m| - offset else size)
              && (offset >= |m| ==> r.body.items == [])
              && forall k | 0 <= k < |r.body.items| :: offset + k < |m| && r.body.items[k] == ItemOf(m[offset + k])
  {
    var auth := UserAuthentication(cfg, username, password);
    if auth == Denied then Challenge
    else
      var m := Matching(rows, logType);
      var size := ClampSize(pageSize);
      PendingSolvedWithinTotal(m);
      Done(ListResponse(
        |m|,
        CountStatus(m, 0),
        CountStatus(m, 1),
        TotalPages(|m|, size),
        auth.isAdmin,
        PageItems(rows, logType, page, pageSize)))
  }

  /** A page of newest-first rows is itself newest first. */
  lemma PageNewestFirst(rows: seq<Row>, logType: string, page: int, pageSize: int)
    requires NewestFirst(rows)
    ensures var items := PageItems(rows, logType, page, pageSize);
            forall i, j | 0 <= i < j < |items| :: items[i].lastTime >= items[j].lastTime
  {
    if logType != "" {
      OfLogTypeNewestFirst(rows, logType);
    }
  }

  /** Every matching row is shown on exactly the page its position puts it on. */
  lemma RowOnItsPage(rows: seq<Row>, logType: string, pageSize: int, k: nat)
    requires k < |Matching(rows, logType)|
    ensures var size := ClampSize(pageSize);
            var items := PageItems(rows, logType, k / size + 1, pageSize);
            k % size < |items| && items[k % size] == ItemOf(Matching(rows, logType)[k])
  {
    var size := ClampSize(pageSize);
    var offset := PageOffset(k / size + 1, size);
    assert offset + k % size == k;
  }

  /** A page past the last one is empty. */
  lemma PagePastEndIsEmpty(rows: seq<Row>, logType: string, page: int, pageSize: int)
    requires ClampPage(page) > TotalPages(|Matching(rows, logType)|, ClampSize(pageSize))
    ensures PageItems(rows, logType, page, pageSize) == []
  {
    var size := ClampSize(pageSize);
    var total := |Matching(rows, logType)|;
    var p := ClampPage(page);
    var pages := TotalPages(total, size);
    MulMonotone(pages, p - 1, size);
  }

  // ---------------------------------------------------------------------
  // The offset as the code computes it
  // ---------------------------------------------------------------------

  /** An i32 multiplication result as a release build keeps it: wrapped into the 32-bit range. */
  function WrapI32(x: int): (w: int)
    ensures I32Min <= w <= I32Max
    ensures (x - w) % 0x1_0000_0000 == 0
    ensures I32Min <= x <= I32Max ==> w == x
  {
    var m := x % 0x1_0000_0000;
    if m > I32Max then m - 0x1_0000_0000 else m
  }

  /** `x as u64` for an i32: a negative value is sign-extended into the top of the range. */
  function I32AsU64(x: int): (u: nat)
    requires I32Min <= x <= I32Max
    ensures x >= 0 ==> u == x
    ensures x < 0 ==> u == x + 0x1_0000_0000_0000_0000
  {
    if x < 0 then x + 0x1_0000_0000_0000_0000 else x
  }

  /** `((page - 1) * page_size) as u64` with i32 operands, as written. */
  function PageOffsetAsWritten(page: int, size: int): (offset: nat)
    requires 1 <= page <= I32Max && 1 <= size <= MaxPageSize
    ensures (page - 1) * size <= I32Max ==> offset == PageOffset(page, size)
  {
    I32AsU64(WrapI32((page - 1) * size))
  }

  /**
   * Page 67108865 of size 64 starts 2^32 rows in, which wraps to 0: as
   * written that page repeats the first page.
   */
  lemma OffsetWrapsToFirstPage()
    ensures PageOffset(67108865, 64) == 0x1_0000_0000
    ensures PageOffsetAsWritten(67108865, 64) == 0
    ensures PageOffsetAsWritten(67108865, 64) == PageOffset(1, 64)
  {
    assert (67108865 - 1) * 64 == 0x1_0000_0000;
  }
}
