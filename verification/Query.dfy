/** Querying stored logs (`pkg/logpoller/query.go`, `pkg/logpoller/store.go`): byte comparisons at
    offsets, sorting and pagination, in 64-bit arithmetic. */
module Query {
  import opened Prelude
  import opened Bits
  import opened Sorting
  import opened Filters
  import opened LogPoller

  const TWO_TO_63: int := 0x8000_0000_0000_0000

  type Int = n: int | -TWO_TO_63 <= n < TWO_TO_63

  /** An operator that is none of the six is refused. */
  datatype Operator = EQ | NEQ | GT | GTE | LT | LTE | Unsupported
  datatype CellQuery = CellQuery(offset: Uint64, operator: Operator, value: seq<Byte>)

  /** A computation may also stop with an out-of-range slice. */
  datatype Outcome<+T> = Done(value: T) | Error | Panic

  /* ---------- comparing bytes ---------- */

  /** Lexicographic comparison: negative, zero or positive. */
  function Compare(a: seq<Byte>, b: seq<Byte>): int {
    if a == [] || b == [] then |a| - |b|
    else if a[0] != b[0] then a[0] as int - b[0] as int
    else Compare(a[1..], b[1..])
  }

  /** A smaller leading digit makes a smaller number. */
  lemma {:induction false} LeadingDigitDecides(x: nat, y: nat, p: nat, r: nat, s: nat)
    requires x < y && r < p
    ensures x * p + r < y * p + s
  {
    assert (x + 1) * p <= y * p;
    assert (x + 1) * p == x * p + p;
  }

  /** On equally long strings the comparison is that of the big-endian numbers. */
  lemma {:induction false} CompareIsNumeric(a: seq<Byte>, b: seq<Byte>)
    requires |a| == |b|
    ensures Compare(a, b) < 0 <==> BigEndian(a) < BigEndian(b)
    ensures Compare(a, b) == 0 <==> BigEndian(a) == BigEndian(b)
    ensures Compare(a, b) > 0 <==> BigEndian(a) > BigEndian(b)
  {
    if a == [] {
    } else {
      var p, r, s := Pow2(8 * (|a| - 1)), BigEndian(a[1..]), BigEndian(b[1..]);
      BigEndianStep(a);
      BigEndianStep(b);
      FromBitsBound(BytesToBits(a[1..]));
      FromBitsBound(BytesToBits(b[1..]));
      if a[0] == b[0] {
        CompareIsNumeric(a[1..], b[1..]);
      } else if a[0] < b[0] {
        LeadingDigitDecides(a[0], b[0], p, r, s);
      } else {
        LeadingDigitDecides(b[0], a[0], p, s, r);
      }
    }
  }

  function CompareBytes(data: seq<Byte>, value: seq<Byte>, operator: Operator): Outcome<bool> {
    var c := Compare(data, value);
    match operator
    case EQ => Done(c == 0)
    case NEQ => Done(c != 0)
    case GT => Done(c > 0)
    case GTE => Done(c >= 0)
    case LT => Done(c < 0)
    case LTE => Done(c <= 0)
    case Unsupported => Error
  }

  /** The relation that an operator denotes on numbers. */
  predicate Related(x: nat, operator: Operator, y: nat) {
    match operator
    case EQ => x == y
    case NEQ => x != y
    case GT => x > y
    case GTE => x >= y
    case LT => x < y
    case LTE => x <= y
    case Unsupported => false
  }

  /* ---------- queries ---------- */

  /** The end of the compared range wraps around at 64 bits. */
  function RangeEnd(q: CellQuery): Uint64 {
    (q.offset + |q.value|) % TWO_TO_64
  }

  function PassesQuery(payload: seq<Byte>, q: CellQuery): Outcome<bool> {
    if |payload| < RangeEnd(q) then Done(false)
    else if q.offset > RangeEnd(q) then Panic
    else CompareBytes(payload[q.offset..RangeEnd(q)], q.value, q.operator)
  }

  function PassesAll(payload: seq<Byte>, queries: seq<CellQuery>): Outcome<bool> {
    if queries == [] then Done(true)
    else if PassesQuery(payload, queries[0]) == Done(true) then PassesAll(payload, queries[1..])
    else PassesQuery(payload, queries[0])
  }

  method PassesAllQueries(payload: seq<Byte>, queries: seq<CellQuery>) returns (r: Outcome<bool>)
    ensures r == PassesAll(payload, queries)
  {
    for j := 0 to |queries|
      invariant PassesAll(payload, queries) == PassesAll(payload, queries[j..])
    {
      assert queries[j..][1..] == queries[j + 1..];
      r := PassesQuery(payload, queries[j]);
      if r != Done(true) { return; }
    }
    r := Done(true);
  }

  /** What a query asks for: its range lies in the payload and, read as a big-endian number, stands
      in the given relation to the value. */
  ghost predicate Holds(payload: seq<Byte>, q: CellQuery) {
    && q.offset + |q.value| <= |payload|
    && Related(BigEndian(payload[q.offset..q.offset + |q.value|]), q.operator, BigEndian(q.value))
  }

  /** Ranges that do not wrap around, and supported operators. */
  ghost predicate Sane(queries: seq<CellQuery>) {
    forall i :: 0 <= i < |queries| ==>
      queries[i].offset + |queries[i].value| < TWO_TO_64 && !queries[i].operator.Unsupported?
  }

  lemma {:induction false} QueryMeaning(payload: seq<Byte>, q: CellQuery)
    requires q.offset + |q.value| < TWO_TO_64 && !q.operator.Unsupported?
    ensures PassesQuery(payload, q) == Done(Holds(payload, q))
  {
    if q.offset + |q.value| <= |payload| {
      CompareIsNumeric(payload[q.offset..q.offset + |q.value|], q.value);
    }
  }

  /** Without wrap-around and with supported operators, a payload passes exactly if every query holds. */
  lemma {:induction false} PassesIffAllHold(payload: seq<Byte>, queries: seq<CellQuery>)
    requires Sane(queries)
    ensures PassesAll(payload, queries) == Done(forall i :: 0 <= i < |queries| ==> Holds(payload, queries[i]))
  {
    if queries == [] {
    } else {
      QueryMeaning(payload, queries[0]);
      PassesIffAllHold(payload, queries[1..]);
      if Holds(payload, queries[0]) {
        assert (forall i :: 0 <= i < |queries| ==> Holds(payload, queries[i])) <==>
               forall i :: 0 <= i < |queries[1..]| ==> Holds(payload, queries[1..][i]);
      }
    }
  }

  /** A single query makes the slice expression panic exactly if the end of its range wraps around to
      a value inside the payload. */
  lemma {:induction false} PanicsIffWrapped(payload: seq<Byte>, q: CellQuery)
    requires |q.value| < TWO_TO_63
    ensures PassesQuery(payload, q).Panic? <==>
            q.offset + |q.value| >= TWO_TO_64 && q.offset + |q.value| - TWO_TO_64 <= |payload|
  {
    var sum := q.offset + |q.value|;
    if sum >= TWO_TO_64 { assert sum % TWO_TO_64 == sum - TWO_TO_64; }
  }

  /* ---------- sorting ---------- */

  datatype SortField = TxLT | OtherField
  datatype SortOrder = ASC | DESC
  datatype SortCriterion = SortCriterion(field: SortField, order: SortOrder)

  /** The comparator: the first criterion that tells two logs apart decides. */
  function Before(criteria: seq<SortCriterion>, a: Log, b: Log): bool {
    if criteria == [] then false
    else if criteria[0].field == TxLT && a.lt != b.lt then
      if criteria[0].order == DESC then a.lt > b.lt else a.lt < b.lt
    else Before(criteria[1..], a, b)
  }

  function Comparator(criteria: seq<SortCriterion>): (Log, Log) -> bool {
    (a: Log, b: Log) => Before(criteria, a, b)
  }

  /** The order of the first criterion on the logical time, if there is one. */
  function Deciding(criteria: seq<SortCriterion>): Option<SortOrder> {
    if criteria == [] then None
    else if criteria[0].field == TxLT then Some(criteria[0].order)
    else Deciding(criteria[1..])
  }

  /** However many criteria there are, only the first on the logical time has an effect. */
  lemma {:induction false} FirstCriterionDecides(criteria: seq<SortCriterion>, a: Log, b: Log)
    ensures Before(criteria, a, b) <==>
            match Deciding(criteria)
            case None => false
            case Some(ASC) => a.lt < b.lt
            case Some(DESC) => a.lt > b.lt
  {
    if criteria == [] {
    } else {
      FirstCriterionDecides(criteria[1..], a, b);
      if criteria[0].field == TxLT && a.lt == b.lt { EqualTimesNeverDiffer(criteria, a, b); }
    }
  }

  lemma {:induction false} EqualTimesNeverDiffer(criteria: seq<SortCriterion>, a: Log, b: Log)
    requires a.lt == b.lt
    ensures !Before(criteria, a, b)
  {
    if criteria == [] {
    } else {
      EqualTimesNeverDiffer(criteria[1..], a, b);
    }
  }

  lemma {:induction false} ComparatorIsOrder(criteria: seq<SortCriterion>)
    ensures StrictWeakOrder(Comparator(criteria))
  {
    forall a, b ensures Comparator(criteria)(a, b) <==>
      match Deciding(criteria) case None => false case Some(ASC) => a.lt < b.lt case Some(DESC) => a.lt > b.lt
    {
      FirstCriterionDecides(criteria, a, b);
    }
  }

  /** Sorts in place; without criteria the logs stay as they are. */
  method ApplySorting(logs: array<Log>, criteria: seq<SortCriterion>)
    modifies logs
    ensures multiset(logs[..]) == multiset(old(logs[..]))
    ensures InOrder(Comparator(criteria), logs[..])
    ensures criteria == [] ==> logs[..] == old(logs[..])
  {
    ComparatorIsOrder(criteria);
    if |criteria| == 0 { return; }
    var sorted := SortBy(Comparator(criteria), logs[..]);
    assert |multiset(sorted)| == |sorted| && |multiset(logs[..])| == logs.Length;
    forall i | 0 <= i < logs.Length { logs[i] := sorted[i]; }
    assert logs[..] == sorted;
  }

  /* ---------- pagination ---------- */

  datatype Page = Page(logs: seq<Log>, hasMore: bool, total: nat)

  /** Two's-complement wrap-around of a 64-bit sum. */
  function Wrap(n: int): Int {
    (n + TWO_TO_63) % TWO_TO_64 - TWO_TO_63
  }

  function ApplyPagination(logs: seq<Log>, limit: Int, offset: Int): Outcome<Page> {
    var total := |logs|;
    if offset >= total then Done(Page([], false, total))
    else
      var end := if limit > 0 && Wrap(offset + limit) < total then Wrap(offset + limit) else total;
      if 0 <= offset <= end <= total then Done(Page(logs[offset..end], end < total, total)) else Panic
  }

  /** Pagination is in bounds exactly for an offset that is not negative and, while there are logs
      after it, a limit that does not overflow when added to it. */
  lemma {:induction false} PaginationSucceedsIff(logs: seq<Log>, limit: Int, offset: Int)
    requires |logs| < TWO_TO_63
    ensures ApplyPagination(logs, limit, offset).Done? <==>
            offset >= |logs| || (offset >= 0 && (limit > 0 ==> offset + limit < TWO_TO_63))
  {
    if limit > 0 && offset + limit >= TWO_TO_63 {
      assert Wrap(offset + limit) == offset + limit - TWO_TO_64;
    }
  }

  /** The pages at offset, offset + limit, ... until there are no more. */
  function PagesFrom(logs: seq<Log>, limit: Int, offset: Int): seq<Log>
    requires limit > 0 && offset >= 0 && |logs| + limit < TWO_TO_63
    decreases |logs| - offset
  {
    match ApplyPagination(logs, limit, offset)
    case Done(page) => page.logs + if page.hasMore then PagesFrom(logs, limit, offset + limit) else []
    case _ => []
  }

  /** What a page holds, whatever limit and offset, unless the slice expression panics: nothing past the
      end, everything from the offset on without a positive limit, and otherwise at most `limit` logs; there
      are more exactly if the page ends before the last log. */
  lemma {:induction false} PageHolds(logs: seq<Log>, limit: Int, offset: Int)
    requires |logs| < TWO_TO_63 && ApplyPagination(logs, limit, offset).Done?
    ensures var page := ApplyPagination(logs, limit, offset).value;
            && page.total == |logs|
            && (offset >= |logs| ==> page.logs == [] && !page.hasMore)
            && (offset < |logs| && (limit <= 0 || offset + limit >= |logs|) ==>
                  offset >= 0 && page.logs == logs[offset..] && !page.hasMore)
            && (offset < |logs| && limit > 0 && offset + limit < |logs| ==>
                  offset >= 0 && page.logs == logs[offset..offset + limit] && page.hasMore)
  {
    PaginationSucceedsIff(logs, limit, offset);
    if limit > 0 && offset >= 0 && offset + limit < TWO_TO_63 { assert Wrap(offset + limit) == offset + limit; }
    if 0 <= offset < |logs| { assert logs[offset..|logs|] == logs[offset..]; }
  }

  /** The sizes of the machine words. */
  lemma {:induction false} WordSizes()
    ensures TWO_TO_64 == Pow2(64) && TWO_TO_63 == Pow2(63)
  {
    Width64();
    assert Pow2(64) == 2 * Pow2(63);
  }

  lemma {:induction false} PagesConcatenate(logs: seq<Log>, limit: Int, offset: Int)
    requires limit > 0 && 0 <= offset <= |logs| && |logs| + limit < TWO_TO_63
    ensures PagesFrom(logs, limit, offset) == logs[offset..]
    decreases |logs| - offset
  {
    assert logs[offset..] == logs[offset..|logs|];
    if offset == |logs| {
    } else {
      PaginationSucceedsIff(logs, limit, offset);
      PageHolds(logs, limit, offset);
      if offset + limit < |logs| {
        PagesConcatenate(logs, limit, offset + limit);
        SliceJoins(logs, offset, offset + limit, |logs|);
      }
    }
  }

  /* ---------- the query over the store ---------- */

  /** What selecting logs for a query gives: an undecodable body or an unsupported operator is an error. */
  function Select(logs: seq<Log>, a: Address, t: Topic, queries: seq<CellQuery>, payload: seq<Byte> -> Option<seq<Byte>>)
    : Outcome<seq<Log>>
  {
    if logs == [] then Done([])
    else
      var n := |logs| - 1;
      match Select(logs[..n], a, t, queries, payload)
      case Error => Error
      case Panic => Panic
      case Done(earlier) =>
        if logs[n].topic != t || logs[n].address != a then Done(earlier)
        else if payload(logs[n].data).None? then Error
        else
          match PassesAll(payload(logs[n].data).value, queries)
          case Error => Error
          case Panic => Panic
          case Done(passes) => Done(if passes then earlier + [logs[n]] else earlier)
  }

  /** The logs that a query is after. */
  ghost predicate Wanted(log: Log, a: Address, t: Topic, queries: seq<CellQuery>, payload: seq<Byte> -> Option<seq<Byte>>) {
    && log.topic == t && log.address == a
    && payload(log.data).Some?
    && forall i :: 0 <= i < |queries| ==> Holds(payload(log.data).value, queries[i])
  }

  /** A selection that succeeds contains every wanted log as often as the store does, and no other. */
  lemma {:induction false} SelectsExactlyWanted(
    logs: seq<Log>, a: Address, t: Topic, queries: seq<CellQuery>, payload: seq<Byte> -> Option<seq<Byte>>, log: Log)
    requires Sane(queries) && Select(logs, a, t, queries, payload).Done?
    ensures multiset(Select(logs, a, t, queries, payload).value)[log] ==
            if Wanted(log, a, t, queries, payload) then multiset(logs)[log] else 0
  {
    if logs == [] {
    } else {
      var n := |logs| - 1;
      SelectsExactlyWanted(logs[..n], a, t, queries, payload, log);
      assert logs == logs[..n] + [logs[n]];
      var body := payload(logs[n].data);
      if body.Some? { PassesIffAllHold(body.value, queries); }
    }
  }

  /** With supported operators and without wrap-around a selection succeeds if and only if the body of
      every log for the address and topic can be read; otherwise it ends with an error, never a panic. */
  lemma {:induction false} SelectSucceedsIff(
    logs: seq<Log>, a: Address, t: Topic, queries: seq<CellQuery>, payload: seq<Byte> -> Option<seq<Byte>>)
    requires Sane(queries)
    ensures Select(logs, a, t, queries, payload).Done? <==>
            forall log :: log in logs && log.topic == t && log.address == a ==> payload(log.data).Some?
    ensures !Select(logs, a, t, queries, payload).Panic?
  {
    if logs == [] {
    } else {
      var n := |logs| - 1;
      SelectSucceedsIff(logs[..n], a, t, queries, payload);
      assert forall log :: log in logs <==> log in logs[..n] || log == logs[n];
      var body := payload(logs[n].data);
      if body.Some? { PassesIffAllHold(body.value, queries); }
    }
  }

  /** Filter, sort, paginate: the page is a slice of a sorted permutation of the selected logs. */
  method FilteredLogs(
    logs: seq<Log>, a: Address, t: Topic, queries: seq<CellQuery>, limit: Int, offset: Int, criteria: seq<SortCriterion>,
    payload: seq<Byte> -> Option<seq<Byte>>)
    returns (r: Outcome<Page>, ghost sorted: seq<Log>)
    ensures Select(logs, a, t, queries, payload).Error? ==> r.Error?
    ensures Select(logs, a, t, queries, payload).Panic? ==> r.Panic?
    ensures Select(logs, a, t, queries, payload).Done? ==>
              && multiset(sorted) == multiset(Select(logs, a, t, queries, payload).value)
              && InOrder(Comparator(criteria), sorted)
              && (criteria == [] ==> sorted == Select(logs, a, t, queries, payload).value)
              && r == ApplyPagination(sorted, limit, offset)
  {
    var matching: seq<Log> := [];
    sorted := [];
    for i := 0 to |logs|
      invariant Select(logs[..i], a, t, queries, payload) == Done(matching)
    {
      var log := logs[i];
      SelectStops(logs, i + 1, a, t, queries, payload);
      assert logs[..i + 1][..i] == logs[..i];
      if log.topic != t || log.address != a { continue; }
      var cell := payload(log.data);
      if cell.None? { return Error, []; }
      var passes := PassesAllQueries(cell.value, queries);
      if passes.Error? { return Error, []; }
      if passes.Panic? { return Panic, []; }
      if passes.value { matching := matching + [log]; }
    }
    assert logs[..|logs|] == logs;
    var buffer := new Log[|matching|](i requires 0 <= i < |matching| => matching[i]);
    assert buffer[..] == matching;
    ApplySorting(buffer, criteria);
    sorted := buffer[..];
    r := ApplyPagination(buffer[..], limit, offset);
  }

  /** A failure on a prefix is the failure of the whole. */
  lemma {:induction false} SelectStops(
    logs: seq<Log>, n: nat, a: Address, t: Topic, queries: seq<CellQuery>, payload: seq<Byte> -> Option<seq<Byte>>)
    requires n <= |logs|
    ensures !Select(logs[..n], a, t, queries, payload).Done? ==>
              Select(logs, a, t, queries, payload) == Select(logs[..n], a, t, queries, payload)
    decreases |logs|
  {
    if n < |logs| {
      var m := |logs| - 1;
      SelectStops(logs[..m], n, a, t, queries, payload);
      assert logs[..m][..n] == logs[..n];
    } else {
      assert logs[..n] == logs;
    }
  }
}
