/** The Cloudkick plugin line protocol: status lines `status <type> <message>`
    and metric lines `metric <name> <type> <value>`, how they are recognised,
    taken apart and put back together, and how a plugin's output is reduced
    to one status line of the highest priority plus its metric lines. */
module Cloudkick {
  import opened Common
  import opened Strings
  import Sorting

  /** The valid status types and their relative priority. */
  const StatusPriority: map<string, nat> := map["ok" := 0, "warn" := 1, "err" := 2]

  /** The valid metric types. */
  const ValidMetrics: seq<string> := ["int", "float", "gauge", "string"]

  /** Split limits and type positions of the two line kinds. */
  const StatusFieldCount: nat := 3
  const StatusTypeField: nat := 1
  const MetricFieldCount: nat := 4
  const MetricTypeField: nat := 2

  predicate ValidStatusType(status: string)
    ensures ValidStatusType(status) <==> status == "ok" || status == "warn" || status == "err"
  {
    status in StatusPriority
  }

  predicate ValidMetricType(metricType: string)
    ensures ValidMetricType(metricType)
        <==> metricType == "int" || metricType == "float" || metricType == "gauge" || metricType == "string"
  {
    metricType in ValidMetrics
  }

  /** The priority of a status. An invalid status yields Python's `False`,
      which every comparison treats as 0, the priority of "ok". */
  function Priority(status: string): (p: nat)
    ensures status == "ok" ==> p == 0
    ensures status == "warn" ==> p == 1
    ensures status == "err" ==> p == 2
    ensures !ValidStatusType(status) ==> p == 0
  {
    if ValidStatusType(status) then StatusPriority[status] else 0
  }

  /** Three-way comparison of two statuses by priority. */
  function ComparePriority(a: string, b: string): (r: int)
    ensures r == -1 <==> Priority(a) < Priority(b)
    ensures r == 0 <==> Priority(a) == Priority(b)
    ensures r == 1 <==> Priority(a) > Priority(b)
  {
    if Priority(a) < Priority(b) then -1
    else if Priority(a) == Priority(b) then 0
    else 1
  }

  /** `ComparePriority` is a comparator: antisymmetric, transitive, and it
      orders ok below warn below err. */
  lemma ComparePriorityLaws(a: string, b: string, c: string)
    ensures ComparePriority(a, b) == -ComparePriority(b, a)
    ensures ComparePriority(a, a) == 0
    ensures ComparePriority(a, b) <= 0 && ComparePriority(b, c) <= 0 ==> ComparePriority(a, c) <= 0
    ensures ComparePriority("ok", "warn") == -1 && ComparePriority("warn", "err") == -1
    ensures ComparePriority("ok", "err") == -1
  {
  }

  /** Field `field` of `line` split with limit `splits`; Python raises
      IndexError when there are not that many fields. */
  function GetField(field: nat, line: string, splits: nat): (r: Result<string>)
    ensures r.Returns? <==> field < Min(WordCount(line), splits + 1)
    ensures r.Returns? && field < splits ==> r.value == NthWord(line, field)
  {
    SplitWsCount(line, splits);
    var fields := SplitWs(line, splits);
    if field < |fields| then
      (if field < splits then NthWordAnyLimit(line, field, splits); Returns(fields[field])
       else Returns(fields[field]))
    else Raises(IndexError)
  }

  /** The two kinds of line a plugin prints besides free text. */
  datatype LineKind = StatusKind | MetricKind {
    function Keyword(): string
    {
      if StatusKind? then "status" else "metric"
    }

    function FieldCount(): nat
    {
      if StatusKind? then StatusFieldCount else MetricFieldCount
    }

    function TypeField(): nat
    {
      if StatusKind? then StatusTypeField else MetricTypeField
    }

    predicate ValidType(t: string)
    {
      if StatusKind? then ValidStatusType(t) else ValidMetricType(t)
    }
  }

  /** Whether `line` is a line of the given kind. Both tests are evaluated,
      so a line with too few words raises IndexError whatever it starts with. */
  function IsLine(kind: LineKind, line: string): (r: Result<bool>)
    ensures r.Raises? <==> WordCount(line) <= kind.TypeField()
    ensures r == Returns(true)
        <==> && kind.Keyword() + " " <= line
             && kind.TypeField() < WordCount(line)
             && kind.ValidType(NthWord(line, kind.TypeField()))
  {
    match GetField(kind.TypeField(), line, kind.FieldCount())
    case Raises(e) => Raises(e)
    case Returns(t) => Returns(kind.Keyword() + " " <= line && kind.ValidType(t))
  }

  function IsStatusLine(line: string): (r: Result<bool>)
    ensures r.Raises? <==> WordCount(line) < 2
    ensures r == Returns(true)
        <==> "status " <= line && WordCount(line) >= 2 && ValidStatusType(NthWord(line, 1))
  {
    IsLine(StatusKind, line)
  }

  function IsMetricLine(line: string): (r: Result<bool>)
    ensures r.Raises? <==> WordCount(line) < 3
    ensures r == Returns(true)
        <==> "metric " <= line && WordCount(line) >= 3 && ValidMetricType(NthWord(line, 2))
  {
    IsLine(MetricKind, line)
  }

  /** The type a line of the given kind declares, `None` (Python's `False`)
      when the line is not of that kind. */
  function GetType(kind: LineKind, line: string): (r: Result<Option<string>>)
    ensures r.Raises? <==> WordCount(line) <= kind.TypeField()
    ensures r.Returns? && r.value.Some? <==> IsLine(kind, line) == Returns(true)
    ensures r.Returns? && r.value.Some? ==>
              && r.value.value == NthWord(line, kind.TypeField())
              && kind.ValidType(r.value.value)
  {
    match IsLine(kind, line)
    case Raises(e) => Raises(e)
    case Returns(isLine) =>
      if isLine then
        match GetField(kind.TypeField(), line, kind.FieldCount())
        case Raises(e) => Raises(e)
        case Returns(t) => Returns(Some(t))
      else Returns(None)
  }

  function GetStatusType(line: string): (r: Result<Option<string>>)
    ensures r.Raises? <==> WordCount(line) < 2
    ensures r.Returns? && r.value.Some? <==> IsStatusLine(line) == Returns(true)
    ensures r.Returns? && r.value.Some? ==>
              r.value.value == NthWord(line, 1) && ValidStatusType(r.value.value)
  {
    GetType(StatusKind, line)
  }

  function GetMetricType(line: string): (r: Result<Option<string>>)
    ensures r.Raises? <==> WordCount(line) < 3
    ensures r.Returns? && r.value.Some? <==> IsMetricLine(line) == Returns(true)
    ensures r.Returns? && r.value.Some? ==>
              r.value.value == NthWord(line, 2) && ValidMetricType(r.value.value)
  {
    GetType(MetricKind, line)
  }

  /** A line of the given kind taken apart: split with one less than the
      kind's field count, so the last field keeps its inner whitespace. */
  function ToTuple(kind: LineKind, line: string): (r: Result<Option<seq<string>>>)
    ensures r.Raises? <==> WordCount(line) <= kind.TypeField()
    ensures r.Returns? && r.value.Some? <==> IsLine(kind, line) == Returns(true)
  {
    match IsLine(kind, line)
    case Raises(e) => Raises(e)
    case Returns(isLine) =>
      Returns(if isLine then Some(SplitWs(line, kind.FieldCount() - 1)) else None)
  }

  /** A tuple put back together with single spaces, if that gives a line of
      the given kind. */
  function FromTuple(kind: LineKind, tpl: seq<string>): (r: Result<Option<string>>)
    ensures r.Raises? <==> WordCount(JoinSp(tpl)) <= kind.TypeField()
    ensures r.Returns? && r.value.Some? ==> r.value.value == JoinSp(tpl)
    ensures r.Returns? && r.value.Some? <==> IsLine(kind, JoinSp(tpl)) == Returns(true)
  {
    var line := JoinSp(tpl);
    match IsLine(kind, line)
    case Raises(e) => Raises(e)
    case Returns(isLine) => Returns(if isLine then Some(line) else None)
  }

  /** The shape of the tuple a line of the given kind comes apart into: the
      keyword, then words up to the type (which is valid), then optionally
      one field holding the rest. */
  predicate WellFormedTuple(kind: LineKind, tpl: seq<string>)
  {
    && (|tpl| == kind.TypeField() + 1 || |tpl| == kind.TypeField() + 2)
    && tpl[0] == kind.Keyword()
    && (forall i :: 0 <= i <= kind.TypeField() ==> IsWord(tpl[i]))
    && kind.ValidType(tpl[kind.TypeField()])
    && (|tpl| == kind.TypeField() + 2 ==> IsField(tpl[kind.TypeField() + 1]))
  }

  lemma KeywordSplit(kind: LineKind, rest: string, n: nat)
    ensures SplitWs(kind.Keyword() + " " + rest, n + 1) == [kind.Keyword()] + SplitWs(rest, n)
  {
    var k := kind.Keyword();
    assert k + " " + rest == k + (" " + rest);
    SplitAfterWord(k, " " + rest, n);
    SplitAfterSpace(rest, n);
  }

  /** Tuple to line to tuple: a well-formed tuple joins into a line of its
      kind whose type field is the tuple's, and splits back into itself. */
  lemma {:induction false} TupleRoundTrip(kind: LineKind, tpl: seq<string>)
    requires WellFormedTuple(kind, tpl)
    ensures IsLine(kind, JoinSp(tpl)) == Returns(true)
    ensures NthWord(JoinSp(tpl), kind.TypeField()) == tpl[kind.TypeField()]
    ensures FromTuple(kind, tpl) == Returns(Some(JoinSp(tpl)))
    ensures ToTuple(kind, JoinSp(tpl)) == Returns(Some(tpl))
  {
    var tf := kind.TypeField();
    var line := JoinSp(tpl);
    SplitJoinExact(tpl);
    assert kind.Keyword() + " " <= line by {
      assert |tpl| > 1;
      assert line == kind.Keyword() + " " + JoinSp(tpl[1..]);
    }
    SplitJoin(tpl, tf + 1);
    if |tpl| == tf + 1 {
      SplitWord(tpl[tf], 1);
      assert tpl[..tf] + [tpl[tf]] == tpl;
    }
    assert SplitWs(line, tf + 1)[tf] == tpl[tf];
    NthWordAnyLimit(line, tf, tf + 1);
  }

  /** Line to tuple: every line of a kind comes apart into a well-formed
      tuple carrying the line's type. */
  lemma {:induction false} LineToTuple(kind: LineKind, line: string)
    requires IsLine(kind, line) == Returns(true)
    ensures ToTuple(kind, line) == Returns(Some(SplitWs(line, kind.FieldCount() - 1)))
    ensures WellFormedTuple(kind, SplitWs(line, kind.FieldCount() - 1))
    ensures SplitWs(line, kind.FieldCount() - 1)[kind.TypeField()] == NthWord(line, kind.TypeField())
  {
    var tf := kind.TypeField();
    var tpl := SplitWs(line, tf + 1);
    SplitWsCount(line, tf + 1);
    NthWordAnyLimit(line, tf, tf + 1);
    assert tpl[tf] == NthWord(line, tf);
    assert kind.FieldCount() - 1 == tf + 1;
    var rest := line[|kind.Keyword()| + 1..];
    assert line == kind.Keyword() + " " + rest;
    KeywordSplit(kind, rest, tf);
    assert tpl[0] == kind.Keyword();
  }

  /** What `status_line(status_tuple(l))` makes of a line `l` of the kind:
      the words before the last field joined by single spaces, and the last
      field (the message or value) as it was, inner and trailing whitespace
      included. */
  function Normalize(kind: LineKind, line: string): string
  {
    JoinSp(SplitWs(line, kind.FieldCount() - 1))
  }

  /** Line to tuple to line gives a line of the same kind and type, and gives
      back exactly `line` when `line` was joined from a well-formed tuple. */
  lemma {:induction false} LineRoundTrip(kind: LineKind, line: string)
    requires IsLine(kind, line) == Returns(true)
    ensures FromTuple(kind, ToTuple(kind, line).value.value) == Returns(Some(Normalize(kind, line)))
    ensures IsLine(kind, Normalize(kind, line)) == Returns(true)
    ensures NthWord(Normalize(kind, line), kind.TypeField()) == NthWord(line, kind.TypeField())
    ensures Normalize(kind, Normalize(kind, line)) == Normalize(kind, line)
    ensures (exists tpl :: WellFormedTuple(kind, tpl) && line == JoinSp(tpl))
        ==> FromTuple(kind, ToTuple(kind, line).value.value) == Returns(Some(line))
  {
    LineToTuple(kind, line);
    var tpl := SplitWs(line, kind.FieldCount() - 1);
    TupleRoundTrip(kind, tpl);
    if exists t :: WellFormedTuple(kind, t) && line == JoinSp(t) {
      var t :| WellFormedTuple(kind, t) && line == JoinSp(t);
      TupleRoundTrip(kind, t);
    }
  }

  /** A line of a kind comes apart into a well-formed tuple. */
  lemma ToTupleShape(kind: LineKind, line: string)
    ensures IsLine(kind, line) == Returns(true) ==>
              && ToTuple(kind, line) == Returns(Some(SplitWs(line, kind.FieldCount() - 1)))
              && WellFormedTuple(kind, SplitWs(line, kind.FieldCount() - 1))
  {
    if IsLine(kind, line) == Returns(true) {
      LineToTuple(kind, line);
    }
  }

  /** A well-formed tuple joins into a line of its kind. */
  lemma FromTupleShape(kind: LineKind, tpl: seq<string>)
    ensures WellFormedTuple(kind, tpl) ==> FromTuple(kind, tpl) == Returns(Some(JoinSp(tpl)))
  {
    if WellFormedTuple(kind, tpl) {
      TupleRoundTrip(kind, tpl);
    }
  }

  function StatusTuple(line: string): (r: Result<Option<seq<string>>>)
    ensures r.Raises? <==> WordCount(line) < 2
    ensures r.Returns? && r.value.Some? <==> IsStatusLine(line) == Returns(true)
    ensures r.Returns? && r.value.Some? ==> WellFormedTuple(StatusKind, r.value.value)
  {
    ToTupleShape(StatusKind, line);
    ToTuple(StatusKind, line)
  }

  function StatusLine(tpl: seq<string>): (r: Result<Option<string>>)
    ensures r.Raises? <==> WordCount(JoinSp(tpl)) < 2
    ensures WellFormedTuple(StatusKind, tpl) ==> r == Returns(Some(JoinSp(tpl)))
    ensures r.Returns? && r.value.Some? <==> IsStatusLine(JoinSp(tpl)) == Returns(true)
    ensures r.Returns? && r.value.Some? ==> r.value.value == JoinSp(tpl)
    ensures r.Returns? && r.value.Some? ==> IsStatusLine(r.value.value) == Returns(true)
  {
    FromTupleShape(StatusKind, tpl);
    FromTuple(StatusKind, tpl)
  }

  function MetricTuple(line: string): (r: Result<Option<seq<string>>>)
    ensures r.Raises? <==> WordCount(line) < 3
    ensures r.Returns? && r.value.Some? <==> IsMetricLine(line) == Returns(true)
    ensures r.Returns? && r.value.Some? ==> WellFormedTuple(MetricKind, r.value.value)
  {
    ToTupleShape(MetricKind, line);
    ToTuple(MetricKind, line)
  }

  function MetricLine(tpl: seq<string>): (r: Result<Option<string>>)
    ensures r.Raises? <==> WordCount(JoinSp(tpl)) < 3
    ensures WellFormedTuple(MetricKind, tpl) ==> r == Returns(Some(JoinSp(tpl)))
    ensures r.Returns? && r.value.Some? <==> IsMetricLine(JoinSp(tpl)) == Returns(true)
    ensures r.Returns? && r.value.Some? ==> r.value.value == JoinSp(tpl)
    ensures r.Returns? && r.value.Some? ==> IsMetricLine(r.value.value) == Returns(true)
  {
    FromTupleShape(MetricKind, tpl);
    FromTuple(MetricKind, tpl)
  }

  lemma JoinThree(a: string, b: string, c: string)
    ensures JoinSp([a, b, c]) == a + " " + b + " " + c
  {
    assert [a, b, c][1..] == [b, c];
    assert [b, c][1..] == [c];
    assert JoinSp([b, c]) == b + " " + c;
  }

  lemma JoinFour(a: string, b: string, c: string, d: string)
    ensures JoinSp([a, b, c, d]) == a + " " + b + " " + c + " " + d
  {
    assert [a, b, c, d][1..] == [b, c, d];
    JoinThree(b, c, d);
  }

  /** The status round trip on a single-spaced line with a message. */
  lemma StatusRoundTrip(status: string, message: string)
    requires ValidStatusType(status) && IsField(message)
    ensures StatusTuple("status " + status + " " + message) == Returns(Some(["status", status, message]))
    ensures StatusLine(["status", status, message]) == Returns(Some("status " + status + " " + message))
  {
    var tpl := ["status", status, message];
    JoinThree("status", status, message);
    assert "status" + " " == "status ";
    TupleRoundTrip(StatusKind, tpl);
  }

  /** The metric round trip on a single-spaced line with a value. */
  lemma MetricRoundTrip(name: string, metricType: string, value: string)
    requires IsWord(name) && ValidMetricType(metricType) && IsField(value)
    ensures MetricTuple("metric " + name + " " + metricType + " " + value)
         == Returns(Some(["metric", name, metricType, value]))
    ensures MetricLine(["metric", name, metricType, value])
         == Returns(Some("metric " + name + " " + metricType + " " + value))
  {
    var tpl := ["metric", name, metricType, value];
    JoinFour("metric", name, metricType, value);
    assert "metric" + " " == "metric ";
    TupleRoundTrip(MetricKind, tpl);
  }

  lemma SplitStatusOf(status: string, message: string)
    requires IsWord(status)
    ensures SplitWs("status " + status + " " + message, 2) == ["status", status] + SplitWs(" " + message, 0)
  {
    var line := "status " + status + " " + message;
    var afterStatus := " " + message;
    var afterKeyword := " " + (status + afterStatus);
    assert line == "status" + afterKeyword;
    SplitAfterWord("status", afterKeyword, 1);
    SplitAfterSpace(status + afterStatus, 1);
    SplitAfterWord(status, afterStatus, 0);
  }

  /** `status <status> <anything>` is a status line of that status, even
      when the message is empty or starts with whitespace. */
  lemma StatusOfIsStatusLine(status: string, message: string)
    requires ValidStatusType(status)
    ensures IsStatusLine("status " + status + " " + message) == Returns(true)
    ensures NthWord("status " + status + " " + message, 1) == status
  {
    var line := "status " + status + " " + message;
    SplitStatusOf(status, message);
    assert SplitWs(line, 2)[1] == status;
    NthWordAnyLimit(line, 1, 2);
    assert "status " <= line;
  }

  /** The status line `status <status> <message>`, for any message. */
  function StatusOf(status: string, message: string): (r: Result<Option<string>>)
    requires ValidStatusType(status)
    ensures r == Returns(Some("status " + status + " " + message))
    ensures GetStatusType(r.value.value) == Returns(Some(status))
  {
    JoinThree("status", status, message);
    assert "status" + " " == "status ";
    StatusOfIsStatusLine(status, message);
    StatusLine(["status", status, message])
  }

  function Ok(message: string): (r: Result<Option<string>>)
    ensures r == Returns(Some("status ok " + message))
    ensures GetStatusType(r.value.value) == Returns(Some("ok"))
  {
    assert "status " + "ok" + " " + message == "status ok " + message;
    StatusOf("ok", message)
  }

  function Warn(message: string): (r: Result<Option<string>>)
    ensures r == Returns(Some("status warn " + message))
    ensures GetStatusType(r.value.value) == Returns(Some("warn"))
  {
    assert "status " + "warn" + " " + message == "status warn " + message;
    StatusOf("warn", message)
  }

  function Err(message: string): (r: Result<Option<string>>)
    ensures r == Returns(Some("status err " + message))
    ensures GetStatusType(r.value.value) == Returns(Some("err"))
  {
    assert "status " + "err" + " " + message == "status err " + message;
    StatusOf("err", message)
  }

  /** The lines of the given kind, in order; the first line with too few
      words raises IndexError. */
  function GetLines(kind: LineKind, lines: seq<string>): (r: Result<seq<string>>)
    ensures r.Returns? <==> forall i :: 0 <= i < |lines| ==> kind.TypeField() < WordCount(lines[i])
    ensures r.Returns? ==> forall i :: 0 <= i < |r.value| ==> IsLine(kind, r.value[i]) == Returns(true)
    decreases |lines|
  {
    if lines == [] then Returns([])
    else
      match IsLine(kind, lines[0])
      case Raises(e) => Raises(e)
      case Returns(keep) =>
        match GetLines(kind, lines[1..])
        case Raises(e) => Raises(e)
        case Returns(rest) => Returns(if keep then [lines[0]] + rest else rest)
  }

  /** The filter keeps the order of what it keeps, and keeps every line of
      its kind as often as it occurs. */
  lemma {:induction false} GetLinesKeeps(kind: LineKind, lines: seq<string>)
    requires GetLines(kind, lines).Returns?
    ensures IsSubsequence(GetLines(kind, lines).value, lines)
    ensures forall l :: IsLine(kind, l) == Returns(true)
              ==> multiset(GetLines(kind, lines).value)[l] == multiset(lines)[l]
    ensures forall l :: IsLine(kind, l) != Returns(true) ==> multiset(GetLines(kind, lines).value)[l] == 0
    decreases |lines|
  {
    if lines != [] {
      var rest := GetLines(kind, lines[1..]).value;
      GetLinesKeeps(kind, lines[1..]);
      assert lines == [lines[0]] + lines[1..];
      if IsLine(kind, lines[0]) == Returns(true) {
        assert GetLines(kind, lines).value == [lines[0]] + rest;
        assert ([lines[0]] + rest)[1..] == rest;
      }
    }
  }

  /** What the filter returns, it returns in order. */
  lemma GetLinesInOrder(kind: LineKind, lines: seq<string>)
    ensures GetLines(kind, lines).Returns? ==> IsSubsequence(GetLines(kind, lines).value, lines)
  {
    if GetLines(kind, lines).Returns? {
      GetLinesKeeps(kind, lines);
    }
  }

  function GetStatusLines(lines: seq<string>): (r: Result<seq<string>>)
    ensures r.Returns? <==> forall i :: 0 <= i < |lines| ==> WordCount(lines[i]) >= 2
    ensures r.Returns? ==> IsSubsequence(r.value, lines)
    ensures r.Returns? ==> forall i :: 0 <= i < |r.value| ==> IsStatusLine(r.value[i]) == Returns(true)
  {
    GetLinesInOrder(StatusKind, lines);
    GetLines(StatusKind, lines)
  }

  function GetMetricLines(lines: seq<string>): (r: Result<seq<string>>)
    ensures r.Returns? <==> forall i :: 0 <= i < |lines| ==> WordCount(lines[i]) >= 3
    ensures r.Returns? ==> IsSubsequence(r.value, lines)
    ensures r.Returns? ==> forall i :: 0 <= i < |r.value| ==> IsMetricLine(r.value[i]) == Returns(true)
  {
    GetLinesInOrder(MetricKind, lines);
    GetLines(MetricKind, lines)
  }

  /** Filtering twice keeps what filtering once kept. */
  lemma {:induction false} GetLinesIdempotent(kind: LineKind, lines: seq<string>)
    requires GetLines(kind, lines).Returns?
    ensures GetLines(kind, GetLines(kind, lines).value) == GetLines(kind, lines)
    decreases |lines|
  {
    if lines != [] {
      GetLinesIdempotent(kind, lines[1..]);
    }
  }

  /** `status_line(status_tuple(line))` of a status line. */
  function NormalizeStatus(line: string): string
  {
    Normalize(StatusKind, line)
  }

  /** The priority of a line that has a status field. */
  function LinePriority(line: string): nat
    requires WordCount(line) >= 2
  {
    Priority(NthWord(line, StatusTypeField))
  }

  /** Normalizing a status line keeps it a status line of the same priority. */
  lemma NormalizeStatusKeeps(line: string)
    requires IsStatusLine(line) == Returns(true)
    ensures IsStatusLine(NormalizeStatus(line)) == Returns(true)
    ensures LinePriority(NormalizeStatus(line)) == LinePriority(line)
    ensures NormalizeStatus(NormalizeStatus(line)) == NormalizeStatus(line)
  {
    LineRoundTrip(StatusKind, line);
  }

  // ---------------------------------------------------------------------
  // Sorting by priority. `sorted(tuples, cmp=compare_priority,
  // key=itemgetter(1))` is a stable sort of the tuples ascending by the
  // priority of their status field; `compare_priority` orders two statuses
  // exactly as their priorities do (see its contract).

  /** `itemgetter(1)` of a status tuple, compared by priority. */
  function TupleKey(tpl: seq<string>): nat
  {
    if |tpl| >= 2 then Priority(tpl[1]) else 0
  }

  /** The tuple sort: ascending by priority, stable, a permutation. */
  function SortTuples(ts: seq<seq<string>>): (r: seq<seq<string>>)
    ensures |r| == |ts|
    ensures Sorting.Ascending(TupleKey, r)
    ensures multiset(r) == multiset(ts)
    ensures forall p :: Sorting.OfKey(TupleKey, p, r) == Sorting.OfKey(TupleKey, p, ts)
  {
    var r := Sorting.SortBy(TupleKey, ts);
    forall p ensures Sorting.OfKey(TupleKey, p, r) == Sorting.OfKey(TupleKey, p, ts) {
      Sorting.SortByStable(TupleKey, p, ts);
    }
    r
  }

  /** Elements of a permutation of well-formed status tuples are well formed. */
  lemma WellFormedPermutation(a: seq<seq<string>>, b: seq<seq<string>>)
    requires multiset(a) == multiset(b)
    requires forall i :: 0 <= i < |b| ==> WellFormedTuple(StatusKind, b[i])
    ensures forall i :: 0 <= i < |a| ==> WellFormedTuple(StatusKind, a[i])
  {
    forall i | 0 <= i < |a|
      ensures WellFormedTuple(StatusKind, a[i])
    {
      assert a[i] in multiset(b);
      var j :| 0 <= j < |b| && b[j] == a[i];
    }
  }

  /** `line.split(None, 2)`: the tuple of a status line. */
  function StatusSplit(line: string): seq<string>
  {
    SplitWs(line, StatusFieldCount - 1)
  }

  /** `[status_tuple(line) for line in sl]` over status lines. */
  function StatusTuples(sl: seq<string>): (r: seq<seq<string>>)
    requires forall i :: 0 <= i < |sl| ==> IsStatusLine(sl[i]) == Returns(true)
    ensures |r| == |sl|
    ensures forall i :: 0 <= i < |sl| ==> StatusTuple(sl[i]) == Returns(Some(r[i]))
    ensures forall i :: 0 <= i < |r| ==> WellFormedTuple(StatusKind, r[i])
  {
    forall i | 0 <= i < |sl| ensures WellFormedTuple(StatusKind, StatusSplit(sl[i])) {
      assert IsLine(StatusKind, sl[i]) == IsStatusLine(sl[i]);
      LineToTuple(StatusKind, sl[i]);
    }
    Map(StatusSplit, sl)
  }

  /** `[status_line(tpl) for tpl in ts]` over well-formed status tuples. */
  function StatusLines(ts: seq<seq<string>>): (r: seq<string>)
    requires forall i :: 0 <= i < |ts| ==> WellFormedTuple(StatusKind, ts[i])
    ensures |r| == |ts|
    ensures forall i :: 0 <= i < |ts| ==> StatusLine(ts[i]) == Returns(Some(r[i]))
  {
    Map(JoinSp, ts)
  }

  /** `sort_by_priority`: the status lines among `lines`, each normalized,
      highest priority first. */
  function SortByPriority(lines: seq<string>): (r: Result<seq<string>>)
    ensures r.Returns? <==> forall i :: 0 <= i < |lines| ==> WordCount(lines[i]) >= 2
    ensures r.Returns? ==> |r.value| == |GetStatusLines(lines).value|
  {
    match GetStatusLines(lines)
    case Raises(e) => Raises(e)
    case Returns(sl) =>
      var sorted := SortTuples(StatusTuples(sl));
      WellFormedPermutation(sorted, StatusTuples(sl));
      Returns(Reverse(StatusLines(sorted)))
  }

  lemma AscendingLines(ts: seq<seq<string>>)
    requires forall i :: 0 <= i < |ts| ==> WellFormedTuple(StatusKind, ts[i])
    requires Sorting.Ascending(TupleKey, ts)
    ensures forall i :: 0 <= i < |ts| ==> IsStatusLine(StatusLines(ts)[i]) == Returns(true)
    ensures forall i, j :: 0 <= i < j < |ts|
              ==> LinePriority(StatusLines(ts)[i]) <= LinePriority(StatusLines(ts)[j])
  {
    var ls := StatusLines(ts);
    forall i | 0 <= i < |ts|
      ensures IsStatusLine(ls[i]) == Returns(true) && LinePriority(ls[i]) == Priority(ts[i][1])
    {
      TupleRoundTrip(StatusKind, ts[i]);
    }
  }

  /** The normalized lines of a status-line list's tuples. */
  lemma StatusLinesOfTuples(sl: seq<string>)
    requires forall i :: 0 <= i < |sl| ==> IsStatusLine(sl[i]) == Returns(true)
    ensures StatusLines(StatusTuples(sl)) == Map(NormalizeStatus, sl)
  {
  }

  /** The sorted lines are status lines, highest priority first. */
  lemma SortByPriorityOrder(lines: seq<string>)
    requires SortByPriority(lines).Returns?
    ensures var r := SortByPriority(lines).value;
            && (forall i :: 0 <= i < |r| ==> IsStatusLine(r[i]) == Returns(true))
            && (forall i, j :: 0 <= i < j < |r| ==> LinePriority(r[i]) >= LinePriority(r[j]))
  {
    var sl := GetStatusLines(lines).value;
    var ts := StatusTuples(sl);
    var sorted := SortTuples(ts);
    WellFormedPermutation(sorted, ts);
    var ls := StatusLines(sorted);
    assert SortByPriority(lines).value == Reverse(ls);
    AscendingLines(sorted);
  }

  /** The sorted lines are the status lines of the input, each normalized,
      with their multiplicities. */
  lemma SortByPriorityPermutes(lines: seq<string>)
    requires SortByPriority(lines).Returns?
    ensures multiset(SortByPriority(lines).value) == multiset(Map(NormalizeStatus, GetStatusLines(lines).value))
  {
    var sl := GetStatusLines(lines).value;
    var ts := StatusTuples(sl);
    var sorted := SortTuples(ts);
    WellFormedPermutation(sorted, ts);
    var ls := StatusLines(sorted);
    assert SortByPriority(lines).value == Reverse(ls);
    ReversePermutes(ls);
    MapPermutes(JoinSp, sorted, ts);
    StatusLinesOfTuples(sl);
  }

  /** The sorted result holds every status line of the input, normalized,
      with its multiplicity, and nothing else; its priorities descend. */
  lemma SortByPriorityIsSorted(lines: seq<string>)
    requires SortByPriority(lines).Returns?
    ensures var r := SortByPriority(lines).value;
            && (forall i :: 0 <= i < |r| ==> IsStatusLine(r[i]) == Returns(true))
            && (forall i, j :: 0 <= i < j < |r| ==> LinePriority(r[i]) >= LinePriority(r[j]))
            && multiset(r) == multiset(Map(NormalizeStatus, GetStatusLines(lines).value))
  {
    SortByPriorityOrder(lines);
    SortByPriorityPermutes(lines);
  }

  /** A filter finds something exactly when its input holds a line of its kind. */
  lemma GetLinesNonEmpty(kind: LineKind, lines: seq<string>)
    requires GetLines(kind, lines).Returns?
    ensures GetLines(kind, lines).value != []
        <==> exists i :: 0 <= i < |lines| && IsLine(kind, lines[i]) == Returns(true)
  {
    var r := GetLines(kind, lines).value;
    GetLinesKeeps(kind, lines);
    if r != [] {
      assert r[0] in multiset(r);
      assert r[0] in multiset(lines);
      var i :| 0 <= i < |lines| && lines[i] == r[0];
    }
    if exists i :: 0 <= i < |lines| && IsLine(kind, lines[i]) == Returns(true) {
      var i :| 0 <= i < |lines| && IsLine(kind, lines[i]) == Returns(true);
      assert lines[i] in multiset(lines);
      assert lines[i] in multiset(r);
    }
  }

  /** `highest_priority`: the first line `sort_by_priority` gives for the
      status lines of `lines`; IndexError when there is none. */
  function HighestPriority(lines: seq<string>): (r: Result<string>)
    ensures r.Returns?
        <==> && (forall i :: 0 <= i < |lines| ==> WordCount(lines[i]) >= 2)
             && (exists i :: 0 <= i < |lines| && IsStatusLine(lines[i]) == Returns(true))
  {
    match GetStatusLines(lines)
    case Raises(e) => Raises(e)
    case Returns(sl) =>
      GetLinesNonEmpty(StatusKind, lines);
      GetLinesIdempotent(StatusKind, lines);
      match SortByPriority(sl)
      case Raises(e) => Raises(e)
      case Returns(sorted) => if sorted == [] then Raises(IndexError) else Returns(sorted[0])
  }

  /** A status line among `lines` is among their status lines, and what is
      among their status lines is a status line among `lines`. */
  lemma StatusLinesMembers(lines: seq<string>, l: string)
    requires GetStatusLines(lines).Returns?
    ensures l in multiset(GetStatusLines(lines).value)
        <==> l in multiset(lines) && IsStatusLine(l) == Returns(true)
  {
    GetLinesKeeps(StatusKind, lines);
    if l in multiset(GetStatusLines(lines).value) {
      var k := IndexOf(l, GetStatusLines(lines).value);
    }
  }

  /** Sorting a list of status lines puts a line of the highest priority first. */
  lemma SortedHeadIsMax(sl: seq<string>, l: string)
    requires GetStatusLines(sl) == Returns(sl)
    requires l in multiset(sl)
    ensures SortByPriority(sl).Returns? && SortByPriority(sl).value != []
    ensures LinePriority(SortByPriority(sl).value[0]) >= LinePriority(l)
  {
    var j := IndexOf(l, sl);
    StatusLinesMembers(sl, l);
    var sorted := SortByPriority(sl).value;
    SortByPriorityPermutes(sl);
    var normal := Map(NormalizeStatus, sl);
    assert normal[j] in multiset(normal);
    var k := IndexOf(normal[j], sorted);
    NormalizeStatusKeeps(l);
    assert sorted[k] == NormalizeStatus(l);
    SortByPriorityOrder(sl);
    if k > 0 {
      assert LinePriority(sorted[0]) >= LinePriority(sorted[k]);
    }
  }

  /** The first sorted line is the normalized form of one of the lines. */
  lemma SortedHeadFrom(sl: seq<string>)
    requires GetStatusLines(sl) == Returns(sl) && sl != []
    ensures SortByPriority(sl).Returns? && SortByPriority(sl).value != []
    ensures exists j :: 0 <= j < |sl| && SortByPriority(sl).value[0] == NormalizeStatus(sl[j])
  {
    var sorted := SortByPriority(sl).value;
    SortByPriorityPermutes(sl);
    var normal := Map(NormalizeStatus, sl);
    assert sorted[0] in multiset(normal);
    var j := IndexOf(sorted[0], normal);
    assert sorted[0] == NormalizeStatus(sl[j]);
  }

  /** `highest_priority` is the head of the sorted status lines. */
  lemma HeadOfSorted(lines: seq<string>)
    requires HighestPriority(lines).Returns?
    ensures GetStatusLines(lines).Returns?
    ensures GetStatusLines(GetStatusLines(lines).value) == GetStatusLines(lines)
    ensures GetStatusLines(lines).value != []
    ensures SortByPriority(GetStatusLines(lines).value).Returns?
    ensures SortByPriority(GetStatusLines(lines).value).value != []
    ensures HighestPriority(lines).value == SortByPriority(GetStatusLines(lines).value).value[0]
  {
    GetLinesIdempotent(StatusKind, lines);
  }

  lemma TopIsMax(lines: seq<string>, i: nat)
    requires HighestPriority(lines).Returns?
    requires i < |lines| && IsStatusLine(lines[i]) == Returns(true)
    ensures IsStatusLine(HighestPriority(lines).value) == Returns(true)
    ensures LinePriority(HighestPriority(lines).value) >= LinePriority(lines[i])
  {
    TopFrom(lines);
    HeadOfSorted(lines);
    var sl := GetStatusLines(lines).value;
    StatusLinesMembers(lines, lines[i]);
    SortedHeadIsMax(sl, lines[i]);
  }

  lemma TopFrom(lines: seq<string>)
    requires HighestPriority(lines).Returns?
    ensures IsStatusLine(HighestPriority(lines).value) == Returns(true)
    ensures exists i :: && 0 <= i < |lines| && IsStatusLine(lines[i]) == Returns(true)
                        && HighestPriority(lines).value == NormalizeStatus(lines[i])
  {
    HeadOfSorted(lines);
    var sl := GetStatusLines(lines).value;
    var top := HighestPriority(lines).value;
    SortedHeadFrom(sl);
    var j :| 0 <= j < |sl| && top == NormalizeStatus(sl[j]);
    assert sl[j] in multiset(sl);
    StatusLinesMembers(lines, sl[j]);
    NormalizeStatusKeeps(sl[j]);
    var i := IndexOf(sl[j], lines);
  }

  /** On an input with a status line and no line under two words,
      `highest_priority` is the head of the sorted status lines. */
  lemma HighestPriorityIsHead(lines: seq<string>)
    requires forall j :: 0 <= j < |lines| ==> WordCount(lines[j]) >= 2
    requires exists j :: 0 <= j < |lines| && IsStatusLine(lines[j]) == Returns(true)
    ensures HighestPriority(lines).Returns?
    ensures GetStatusLines(lines).Returns? && GetStatusLines(lines).value != []
    ensures SortByPriority(GetStatusLines(lines).value).Returns?
    ensures SortByPriority(GetStatusLines(lines).value).value != []
    ensures HighestPriority(lines).value == SortByPriority(GetStatusLines(lines).value).value[0]
  {
    HeadOfSorted(lines);
  }

  /** What `highest_priority` returns is at least as urgent as every
      status line of its input. */
  lemma HighestPriorityIsMax(lines: seq<string>, i: nat)
    requires forall j :: 0 <= j < |lines| ==> WordCount(lines[j]) >= 2
    requires i < |lines| && IsStatusLine(lines[i]) == Returns(true)
    ensures HighestPriority(lines).Returns?
    ensures IsStatusLine(HighestPriority(lines).value) == Returns(true)
    ensures LinePriority(HighestPriority(lines).value) >= LinePriority(lines[i])
  {
    TopIsMax(lines, i);
  }

  /** What `highest_priority` returns is a status line of its input,
      normalized. */
  lemma HighestPriorityFrom(lines: seq<string>)
    requires forall j :: 0 <= j < |lines| ==> WordCount(lines[j]) >= 2
    requires exists j :: 0 <= j < |lines| && IsStatusLine(lines[j]) == Returns(true)
    ensures HighestPriority(lines).Returns?
    ensures IsStatusLine(HighestPriority(lines).value) == Returns(true)
    ensures exists i :: && 0 <= i < |lines| && IsStatusLine(lines[i]) == Returns(true)
                        && HighestPriority(lines).value == NormalizeStatus(lines[i])
  {
    TopFrom(lines);
  }

  /** On a list of status lines, `highest_priority` fails only when the
      list is empty. */
  lemma HighestPriorityOfStatusLines(sl: seq<string>)
    requires GetStatusLines(sl) == Returns(sl)
    ensures HighestPriority(sl).Returns? <==> sl != []
  {
  }

  /** The three steps of `add_lines` all succeed exactly when every line
      has three words and one is a status line. */
  lemma AddLinesSteps(all: seq<string>)
    ensures && GetStatusLines(all).Returns?
            && HighestPriority(GetStatusLines(all).value).Returns?
            && GetMetricLines(all).Returns?
        <==> && (forall i :: 0 <= i < |all| ==> WordCount(all[i]) >= 3)
             && (exists i :: 0 <= i < |all| && IsStatusLine(all[i]) == Returns(true))
  {
    if GetStatusLines(all).Returns? {
      var sl := GetStatusLines(all).value;
      GetLinesNonEmpty(StatusKind, all);
      GetLinesIdempotent(StatusKind, all);
      HighestPriorityOfStatusLines(sl);
    }
  }

  /** `add_lines`: the most urgent status line of `lines + outputLines`,
      followed by all their metric lines in order. It raises IndexError
      unless every line has at least three words (the metric filter reads
      the third) and one of them is a status line (`highest_priority`
      takes the head of the status lines). */
  function AddLines(lines: seq<string>, outputLines: seq<string>): (r: Result<seq<string>>)
    ensures r.Returns?
        <==> && (forall i :: 0 <= i < |lines + outputLines| ==> WordCount((lines + outputLines)[i]) >= 3)
             && (exists i :: 0 <= i < |lines + outputLines| && IsStatusLine((lines + outputLines)[i]) == Returns(true))
  {
    var all := lines + outputLines;
    AddLinesSteps(all);
    match GetStatusLines(all)
    case Raises(e) => Raises(e)
    case Returns(sl) =>
      match HighestPriority(sl)
      case Raises(e) => Raises(e)
      case Returns(status) =>
        match GetMetricLines(all)
        case Raises(e) => Raises(e)
        case Returns(metrics) => Returns([status] + metrics)
  }

  lemma AddedStatusIsMax(lines: seq<string>, outputLines: seq<string>, i: nat)
    requires AddLines(lines, outputLines).Returns?
    requires i < |lines + outputLines| && IsStatusLine((lines + outputLines)[i]) == Returns(true)
    ensures |AddLines(lines, outputLines).value| >= 1
    ensures IsStatusLine(AddLines(lines, outputLines).value[0]) == Returns(true)
    ensures LinePriority(AddLines(lines, outputLines).value[0]) >= LinePriority((lines + outputLines)[i])
  {
    var all := lines + outputLines;
    var sl := GetStatusLines(all).value;
    StatusLinesMembers(all, all[i]);
    var j := IndexOf(all[i], sl);
    TopIsMax(sl, j);
    TopFrom(sl);
  }

  lemma AddedStatusFrom(lines: seq<string>, outputLines: seq<string>)
    requires AddLines(lines, outputLines).Returns?
    ensures |AddLines(lines, outputLines).value| >= 1
    ensures exists i :: && 0 <= i < |lines + outputLines| && IsStatusLine((lines + outputLines)[i]) == Returns(true)
                        && AddLines(lines, outputLines).value[0] == NormalizeStatus((lines + outputLines)[i])
  {
    var all := lines + outputLines;
    var sl := GetStatusLines(all).value;
    var top := HighestPriority(sl).value;
    TopFrom(sl);
    var j :| 0 <= j < |sl| && IsStatusLine(sl[j]) == Returns(true) && top == NormalizeStatus(sl[j]);
    assert sl[j] in multiset(sl);
    StatusLinesMembers(all, sl[j]);
    var i := IndexOf(sl[j], all);
  }

  lemma AddedMetrics(lines: seq<string>, outputLines: seq<string>)
    requires AddLines(lines, outputLines).Returns?
    ensures var r := AddLines(lines, outputLines).value; var all := lines + outputLines;
            && |r| >= 1
            && IsSubsequence(r[1..], all)
            && (forall i :: 1 <= i < |r| ==> IsMetricLine(r[i]) == Returns(true))
            && (forall l :: IsMetricLine(l) == Returns(true) ==> multiset(r[1..])[l] == multiset(all)[l])
  {
    var all := lines + outputLines;
    var r := AddLines(lines, outputLines).value;
    assert r[1..] == GetMetricLines(all).value;
    GetLinesKeeps(MetricKind, all);
  }

  /** The status line `add_lines` puts first is at least as urgent as every
      status line given to it. */
  lemma AddLinesStatusIsMax(lines: seq<string>, outputLines: seq<string>, i: nat)
    requires forall j :: 0 <= j < |lines + outputLines| ==> WordCount((lines + outputLines)[j]) >= 3
    requires i < |lines + outputLines| && IsStatusLine((lines + outputLines)[i]) == Returns(true)
    ensures AddLines(lines, outputLines).Returns?
    ensures |AddLines(lines, outputLines).value| >= 1
    ensures IsStatusLine(AddLines(lines, outputLines).value[0]) == Returns(true)
    ensures LinePriority(AddLines(lines, outputLines).value[0]) >= LinePriority((lines + outputLines)[i])
  {
    AddedStatusIsMax(lines, outputLines, i);
  }

  /** The status line `add_lines` puts first is one of the status lines
      given to it, normalized. */
  lemma AddLinesStatusFrom(lines: seq<string>, outputLines: seq<string>)
    requires forall j :: 0 <= j < |lines + outputLines| ==> WordCount((lines + outputLines)[j]) >= 3
    requires exists j :: 0 <= j < |lines + outputLines| && IsStatusLine((lines + outputLines)[j]) == Returns(true)
    ensures AddLines(lines, outputLines).Returns?
    ensures |AddLines(lines, outputLines).value| >= 1
    ensures exists i :: && 0 <= i < |lines + outputLines| && IsStatusLine((lines + outputLines)[i]) == Returns(true)
                        && AddLines(lines, outputLines).value[0] == NormalizeStatus((lines + outputLines)[i])
  {
    AddedStatusFrom(lines, outputLines);
  }

  /** After its status line, `add_lines` gives exactly the metric lines
      given to it, in order. */
  lemma AddLinesMetrics(lines: seq<string>, outputLines: seq<string>)
    requires forall j :: 0 <= j < |lines + outputLines| ==> WordCount((lines + outputLines)[j]) >= 3
    requires exists j :: 0 <= j < |lines + outputLines| && IsStatusLine((lines + outputLines)[j]) == Returns(true)
    ensures AddLines(lines, outputLines).Returns?
    ensures var r := AddLines(lines, outputLines).value; var all := lines + outputLines;
            && |r| >= 1
            && IsSubsequence(r[1..], all)
            && (forall i :: 1 <= i < |r| ==> IsMetricLine(r[i]) == Returns(true))
            && (forall l :: IsMetricLine(l) == Returns(true) ==> multiset(r[1..])[l] == multiset(all)[l])
  {
    AddedMetrics(lines, outputLines);
  }

  /** Normalizing a status line with a message keeps its message. */
  lemma NormalizeStatusWords(line: string)
    requires IsStatusLine(line) == Returns(true) && WordCount(line) >= 3
    ensures WordCount(NormalizeStatus(line)) >= 3
  {
    var tpl := SplitWs(line, 2);
    LineToTuple(StatusKind, line);
    SplitWsCount(line, 2);
    TupleRoundTrip(StatusKind, tpl);
    SplitWsCount(NormalizeStatus(line), 2);
  }

  /** A metric line is not a status line. */
  lemma MetricNotStatus(line: string)
    requires IsMetricLine(line) == Returns(true)
    ensures IsStatusLine(line) == Returns(false)
  {
    assert line[0] == 'm';
  }

  /** A status line is not a metric line. */
  lemma StatusNotMetric(line: string)
    requires IsStatusLine(line) == Returns(true) && WordCount(line) >= 3
    ensures IsMetricLine(line) == Returns(false)
  {
    assert line[0] == 's';
  }

  lemma {:induction false} GetLinesSkipsHead(kind: LineKind, x: string, rest: seq<string>)
    requires IsLine(kind, x) == Returns(false)
    ensures GetLines(kind, [x] + rest) == GetLines(kind, rest)
  {
    assert ([x] + rest)[1..] == rest;
  }

  lemma {:induction false} GetLinesKeepsHead(kind: LineKind, x: string, rest: seq<string>)
    requires IsLine(kind, x) == Returns(true)
    ensures GetLines(kind, [x] + rest)
         == if GetLines(kind, rest).Returns? then Returns([x] + GetLines(kind, rest).value)
            else GetLines(kind, rest)
  {
    assert ([x] + rest)[1..] == rest;
  }

  lemma {:induction false} StatusLinesOfMetricLines(ml: seq<string>)
    requires forall i :: 0 <= i < |ml| ==> IsMetricLine(ml[i]) == Returns(true)
    ensures GetStatusLines(ml) == Returns([])
    decreases |ml|
  {
    if ml != [] {
      MetricNotStatus(ml[0]);
      StatusLinesOfMetricLines(ml[1..]);
      GetLinesSkipsHead(StatusKind, ml[0], ml[1..]);
      assert ml == [ml[0]] + ml[1..];
    }
  }

  lemma AddedIdempotent(lines: seq<string>, outputLines: seq<string>)
    requires AddLines(lines, outputLines).Returns?
    ensures AddLines(AddLines(lines, outputLines).value, []) == AddLines(lines, outputLines)
  {
    var all := lines + outputLines;
    var r := AddLines(lines, outputLines).value;
    var top := r[0];
    var ml := r[1..];
    assert r == [top] + ml;
    assert r + [] == r;
    AddedStatusFrom(lines, outputLines);
    AddedMetrics(lines, outputLines);
    ResultStatusLines(top, ml);
    var i :| 0 <= i < |all| && IsStatusLine(all[i]) == Returns(true) && top == NormalizeStatus(all[i]);
    NormalizedIsHighest(all[i]);
    ResultMetricLines(lines, outputLines);
  }

  /** Feeding the result of `add_lines` back in with no new output changes
      nothing: its status line is already normalized and the most urgent. */
  lemma AddLinesIdempotent(lines: seq<string>, outputLines: seq<string>)
    requires forall j :: 0 <= j < |lines + outputLines| ==> WordCount((lines + outputLines)[j]) >= 3
    requires exists j :: 0 <= j < |lines + outputLines| && IsStatusLine((lines + outputLines)[j]) == Returns(true)
    ensures AddLines(lines, outputLines).Returns?
    ensures AddLines(AddLines(lines, outputLines).value, []) == AddLines(lines, outputLines)
  {
    AddedIdempotent(lines, outputLines);
  }

  /** The status lines of `[top] + ml`, when `ml` holds metric lines only. */
  lemma ResultStatusLines(top: string, ml: seq<string>)
    requires IsStatusLine(top) == Returns(true)
    requires forall i :: 0 <= i < |ml| ==> IsMetricLine(ml[i]) == Returns(true)
    ensures GetStatusLines([top] + ml) == Returns([top])
  {
    StatusLinesOfMetricLines(ml);
    GetLinesKeepsHead(StatusKind, top, ml);
    assert [top] + [] == [top];
  }

  /** The most urgent of a single normalized status line is that line. */
  lemma NormalizedIsHighest(line: string)
    requires IsStatusLine(line) == Returns(true)
    ensures HighestPriority([NormalizeStatus(line)]) == Returns(NormalizeStatus(line))
  {
    var top := NormalizeStatus(line);
    NormalizeStatusKeeps(line);
    assert IsStatusLine([top][0]) == Returns(true);
    HighestPriorityFrom([top]);
  }

  /** The metric lines of what `add_lines` returns are its tail. */
  lemma ResultMetricLines(lines: seq<string>, outputLines: seq<string>)
    requires AddLines(lines, outputLines).Returns?
    ensures var r := AddLines(lines, outputLines).value; GetMetricLines(r) == Returns(r[1..])
  {
    var all := lines + outputLines;
    var r := AddLines(lines, outputLines).value;
    var ml := r[1..];
    assert r == [r[0]] + ml;
    AddedStatusFrom(lines, outputLines);
    var i :| 0 <= i < |all| && IsStatusLine(all[i]) == Returns(true) && r[0] == NormalizeStatus(all[i]);
    NormalizeStatusKeeps(all[i]);
    NormalizeStatusWords(all[i]);
    StatusNotMetric(r[0]);
    GetLinesSkipsHead(MetricKind, r[0], ml);
    GetLinesIdempotent(MetricKind, all);
  }

  /** Two words joined by a space split back into those two words. */
  lemma SplitTwoWords(a: string, b: string)
    requires IsWord(a) && IsWord(b)
    ensures SplitWs(a + " " + b, 3) == [a, b]
  {
    assert a + " " + b == a + (" " + b);
    SplitAfterWord(a, " " + b, 2);
    SplitAfterSpace(b, 2);
    SplitWord(b, 2);
  }

  /** A word followed by whitespace starts with `status ` only if it is
      `status`. */
  lemma StatusKeywordWord(a: string, rest: string)
    requires IsWord(a) && rest != [] && IsWs(rest[0])
    requires "status " <= a + rest
    ensures a == "status"
  {
    var line := a + rest;
    assert IsWs(line[6]);
    assert |a| <= 6;
    assert IsWs(line[|a|]);
    assert forall k :: 0 <= k < 6 ==> !IsWs("status "[k]);
    assert |a| == 6;
    assert a == line[..6];
  }

  /** A line of two words: too short for a metric line, which raises
      IndexError, and a status line only when it reads `status <type>`. */
  lemma TwoWordLine(a: string, b: string)
    requires IsWord(a) && IsWord(b)
    ensures WordCount(a + " " + b) == 2
    ensures IsMetricLine(a + " " + b) == Raises(IndexError)
    ensures IsStatusLine(a + " " + b) == Returns(a == "status" && ValidStatusType(b))
  {
    var line := a + " " + b;
    SplitTwoWords(a, b);
    SplitWsCount(line, 3);
    NthWordAnyLimit(line, 1, 3);
    if "status " <= line {
      assert line == a + (" " + b);
      StatusKeywordWord(a, " " + b);
    }
  }

  /** An `err` line among the input makes `highest_priority` an `err` line. */
  lemma ErrIsHighest(lines: seq<string>, i: nat)
    requires forall j :: 0 <= j < |lines| ==> WordCount(lines[j]) >= 2
    requires i < |lines| && IsStatusLine(lines[i]) == Returns(true) && NthWord(lines[i], 1) == "err"
    ensures HighestPriority(lines).Returns?
    ensures GetStatusType(HighestPriority(lines).value) == Returns(Some("err"))
  {
    HighestPriorityIsMax(lines, i);
    HighestPriorityFrom(lines);
  }
}
