/**
 In-memory catalog search (crates/eo-catalog/src/client.rs): the time filter compares
 RFC 3339 texts as strings. On second-precision UTC texts that is the interval test on
 instants; on a bare date as upper bound it is not.
 */
module Catalog {
  import opened Wrappers
  import opened Calendar
  import opened TextOrder
  import opened Timestamps

  datatype Box = Box(west: real, south: real, east: real, north: real)

  datatype Item = Item(id: string, collection: string, bbox: Box, datetime: string)

  datatype Request = Request(collections: seq<string>, bbox: Option<Box>, datetime: Option<string>, limit: Option<nat>, ids: seq<string>)

  datatype Range = Range(start: Option<string>, end: Option<string>)

  datatype SearchError = BadDatetime(text: string)

  /** The parts before and after the first `sep`, if there is one. */
  function SplitOnce(s: string, sep: char): Option<(string, string)> {
    if s == "" then None
    else if s[0] == sep then Some(("", s[1..]))
    else
      var rest := SplitOnce(s[1..], sep);
      if rest.None? then None else Some(([s[0]] + rest.value.0, rest.value.1))
  }

  function Bound(s: string): Option<string> {
    if s == ".." then None else Some(s)
  }

  function ParseDatetime(s: string): Result<Range, SearchError> {
    if s == "" then Failure(BadDatetime(s))
    else
      var parts := SplitOnce(s, '/');
      if parts.None? then Success(Range(Some(s), Some(s)))
      else
        var r := Range(Bound(parts.value.0), Bound(parts.value.1));
        if r.start.None? && r.end.None? then Failure(BadDatetime(s)) else Success(r)
  }

  predicate DatetimeMatches(r: Range, item: string) {
    && !(r.start.Some? && LexLess(item, r.start.value))
    && !(r.end.Some? && LexLess(r.end.value, item))
  }

  predicate BoxesIntersect(a: Box, b: Box) {
    !(a.east < b.west || b.east < a.west || a.north < b.south || b.north < a.south)
  }

  /** Whether an item passes the request's filters; ids, when given, are the only filter. */
  predicate Keeps(req: Request, range: Option<Range>, it: Item) {
    if req.ids != [] then it.id in req.ids
    else
      && (req.collections == [] || it.collection in req.collections)
      && (req.bbox.Some? ==> BoxesIntersect(req.bbox.value, it.bbox))
      && (range.Some? ==> DatetimeMatches(range.value, it.datetime))
  }

  function KeptIds(req: Request, range: Option<Range>, items: seq<Item>): seq<string> {
    if items == [] then []
    else (if Keeps(req, range, items[0]) then [items[0].id] else []) + KeptIds(req, range, items[1..])
  }

  function Truncated(s: seq<string>, n: nat): seq<string> {
    if |s| <= n then s else s[..n]
  }

  function Limit(req: Request): nat {
    if req.limit.Some? then req.limit.value else 100
  }

  function Search(req: Request, items: seq<Item>): Result<seq<string>, SearchError> {
    if req.datetime.None? then Success(Truncated(KeptIds(req, None, items), Limit(req)))
    else
      var range :- ParseDatetime(req.datetime.value);
      Success(Truncated(KeptIds(req, Some(range), items), Limit(req)))
  }

  // ------------------------------------------------------ intervals of instants

  /** A closed, half-open or one-point interval of instants. */
  datatype Interval = Between(from: nat, to: nat) | Since(from: nat) | Until(to: nat) | At(at: nat)

  predicate Holds(i: Interval, t: nat) {
    match i
    case Between(a, b) => a <= t <= b
    case Since(a) => a <= t
    case Until(b) => t <= b
    case At(a) => t == a
  }

  predicate Printable(i: Interval) {
    match i
    case Between(a, b) => BeforeYear10000(a) && BeforeYear10000(b)
    case Since(a) => BeforeYear10000(a)
    case Until(b) => BeforeYear10000(b)
    case At(a) => BeforeYear10000(a)
  }

  /** The STAC datetime expression for an interval. */
  function Expression(i: Interval): string {
    match i
    case Between(a, b) => Iso8601(a) + "/" + Iso8601(b)
    case Since(a) => Iso8601(a) + "/" + ".."
    case Until(b) => ".." + "/" + Iso8601(b)
    case At(a) => Iso8601(a)
  }

  function RangeOf(i: Interval): Range {
    match i
    case Between(a, b) => Range(Some(Iso8601(a)), Some(Iso8601(b)))
    case Since(a) => Range(Some(Iso8601(a)), None)
    case Until(b) => Range(None, Some(Iso8601(b)))
    case At(a) => Range(Some(Iso8601(a)), Some(Iso8601(a)))
  }

  lemma {:induction false} SplitAtFirst(a: string, b: string)
    requires '/' !in a
    ensures SplitOnce(a + "/" + b, '/') == Some((a, b))
  {
    if a == "" {
      assert (a + "/" + b)[0] == '/';
      assert (a + "/" + b)[1..] == b;
    } else {
      assert a[0] in a && a == [a[0]] + a[1..];
      assert (a + "/" + b)[0] == a[0] && (a + "/" + b)[1..] == a[1..] + "/" + b;
      SplitAtFirst(a[1..], b);
    }
  }

  lemma {:induction false} SplitNowhere(a: string)
    requires '/' !in a
    ensures SplitOnce(a, '/') == None
  {
    if a != "" {
      SplitNowhere(a[1..]);
    }
  }

  lemma {:induction false} DecimalHasNoSlash(n: nat)
    ensures '/' !in Decimal(n) && '.' !in Decimal(n)
  {
    if n >= 10 {
      DecimalHasNoSlash(n / 10);
    }
  }

  lemma PaddedHasNoSlash(n: nat, width: nat)
    ensures '/' !in Padded(n, width) && '.' !in Padded(n, width)
  {
    DecimalHasNoSlash(n);
  }

  lemma Iso8601HasNoSlash(t: nat)
    ensures '/' !in Iso8601(t) && '.' !in Iso8601(t) && Iso8601(t) != ""
  {
    DayIsPrintable(t);
    var d, s := DayOf(t), t % SECONDS_PER_DAY;
    hide DaysToYmd, IsDate;
    PaddedHasNoSlash(d.y, 4);
    PaddedHasNoSlash(d.m, 2);
    PaddedHasNoSlash(d.d, 2);
    PaddedHasNoSlash(s / 3600, 2);
    PaddedHasNoSlash(s / 60 % 60, 2);
    PaddedHasNoSlash(s % 60, 2);
    hide Padded;
  }

  /** The expression of an interval is parsed into the texts of its ends. */
  lemma ExpressionParses(i: Interval)
    ensures ParseDatetime(Expression(i)) == Success(RangeOf(i))
  {
    hide Iso8601;
    match i
    case Between(a, b) =>
      Iso8601HasNoSlash(a);
      Iso8601HasNoSlash(b);
      SplitAtFirst(Iso8601(a), Iso8601(b));
      NotDotDot(Iso8601(a));
      NotDotDot(Iso8601(b));
    case Since(a) =>
      Iso8601HasNoSlash(a);
      SplitAtFirst(Iso8601(a), "..");
      NotDotDot(Iso8601(a));
    case Until(b) =>
      Iso8601HasNoSlash(b);
      SplitAtFirst("..", Iso8601(b));
      NotDotDot(Iso8601(b));
    case At(a) =>
      Iso8601HasNoSlash(a);
      SplitNowhere(Iso8601(a));
  }

  lemma NotDotDot(s: string)
    requires '.' !in s
    ensures s != ".."
  {
    assert ".."[0] in "..";
  }

  /** String comparison decides the interval test on instants. */
  lemma StringTestIsIntervalTest(i: Interval, t: nat)
    requires Printable(i) && BeforeYear10000(t)
    ensures DatetimeMatches(RangeOf(i), Iso8601(t)) <==> Holds(i, t)
  {
    hide Iso8601, LexLess, DayOf;
    match i
    case Between(a, b) =>
      Iso8601Order(t, a);
      Iso8601Order(b, t);
    case Since(a) => Iso8601Order(t, a);
    case Until(b) => Iso8601Order(b, t);
    case At(a) =>
      Iso8601Order(t, a);
      Iso8601Order(a, t);
  }

  /** The filter as meant: instants compared as numbers. */
  predicate KeepsAt(req: Request, i: Interval, it: Item, t: nat) {
    if req.ids != [] then it.id in req.ids
    else
      && (req.collections == [] || it.collection in req.collections)
      && (req.bbox.Some? ==> BoxesIntersect(req.bbox.value, it.bbox))
      && Holds(i, t)
  }

  function KeptIdsAt(req: Request, i: Interval, items: seq<Item>, times: seq<nat>): seq<string>
    requires |items| == |times|
  {
    if items == [] then []
    else (if KeepsAt(req, i, items[0], times[0]) then [items[0].id] else []) + KeptIdsAt(req, i, items[1..], times[1..])
  }

  /** Items stamped with the texts of their instants. */
  predicate Stamped(items: seq<Item>, times: seq<nat>) {
    && |items| == |times|
    && forall k :: 0 <= k < |items| ==> BeforeYear10000(times[k]) && items[k].datetime == Iso8601(times[k])
  }

  lemma KeepsByInstant(req: Request, i: Interval, it: Item, t: nat)
    requires Printable(i) && BeforeYear10000(t) && it.datetime == Iso8601(t)
    ensures Keeps(req, Some(RangeOf(i)), it) <==> KeepsAt(req, i, it, t)
  {
    hide Iso8601, DayOf, Holds, DatetimeMatches, BoxesIntersect, RangeOf, Printable, BeforeYear10000;
    StringTestIsIntervalTest(i, t);
  }

  lemma {:induction false} KeptByInstant(req: Request, i: Interval, items: seq<Item>, times: seq<nat>)
    requires Stamped(items, times) && Printable(i)
    ensures KeptIds(req, Some(RangeOf(i)), items) == KeptIdsAt(req, i, items, times)
    decreases |items|
  {
    hide Iso8601, Keeps, KeepsAt, RangeOf, Printable;
    if items != [] {
      KeepsByInstant(req, i, items[0], times[0]);
      TailIsStamped(items, times);
      hide Stamped;
      KeptByInstant(req, i, items[1..], times[1..]);
    }
  }

  lemma TailIsStamped(items: seq<Item>, times: seq<nat>)
    requires Stamped(items, times) && items != []
    ensures Stamped(items[1..], times[1..])
  {
    hide Iso8601;
  }

  /** Searching by an interval expression keeps the items whose instants lie in the interval. */
  lemma SearchByInstants(req: Request, i: Interval, items: seq<Item>, times: seq<nat>)
    requires Stamped(items, times) && Printable(i) && req.datetime == Some(Expression(i))
    ensures Search(req, items) == Success(Truncated(KeptIdsAt(req, i, items, times), Limit(req)))
  {
    hide Iso8601, DayOf, Expression, Stamped, Printable, KeptIds, KeptIdsAt;
    ExpressionParses(i);
    KeptByInstant(req, i, items, times);
  }

  /**
   A bare date as upper bound excludes every instant of that day: with mixed widths the
   string test is not the closed interval of days that the expression is documented to be.
   */
  lemma DateOnlyEndExcludesItsDay(end: Date, t: nat)
    requires FourDigitDate(end) && BeforeYear10000(t)
    ensures DatetimeMatches(Range(None, Some(DateText(end))), Iso8601(t)) <==> Before(DayOf(t), end)
  {
    YearsBefore10000(t);
    DayIsPrintable(t);
    hide DaysToYmd, DateText, TimeText, LexLess;
    var d, s := DateText(DayOf(t)), TimeText(t % SECONDS_PER_DAY);
    var e := DateText(end);
    DateTextOrder(end, DayOf(t));
    assert Iso8601(t) == d + (['T'] + s + "Z");
    assert e == e + "";
    LexConcat(e, "", d, ['T'] + s + "Z");
    EmptyIsLess(['T'] + s + "Z");
    DatesAreOrdered(end, DayOf(t));
  }

  /** A bare date as lower bound admits exactly the instants of that day and later. */
  lemma DateOnlyStartIncludesItsDay(start: Date, t: nat)
    requires FourDigitDate(start) && BeforeYear10000(t)
    ensures DatetimeMatches(Range(Some(DateText(start)), None), Iso8601(t)) <==> !Before(DayOf(t), start)
  {
    YearsBefore10000(t);
    DayIsPrintable(t);
    hide DaysToYmd, DateText, TimeText, LexLess;
    var d, s := DateText(DayOf(t)), TimeText(t % SECONDS_PER_DAY);
    var e := DateText(start);
    DateTextOrder(DayOf(t), start);
    assert Iso8601(t) == d + (['T'] + s + "Z");
    assert e == e + "";
    LexConcat(d, ['T'] + s + "Z", e, "");
    NothingIsLessThanEmpty(['T'] + s + "Z");
  }

  lemma NothingIsLessThanEmpty(s: string)
    ensures !LexLess(s, "")
  {
  }

  lemma DateTextHasNoSlash(t: Date)
    requires FourDigitDate(t)
    ensures '/' !in DateText(t) && '.' !in DateText(t) && DateText(t) != ""
  {
    hide IsLeap;
    PaddedHasNoSlash(t.y, 4);
    PaddedHasNoSlash(t.m, 2);
    PaddedHasNoSlash(t.d, 2);
    hide Padded;
  }

  /** The documented interval of dates is the half-open one, without the days of its end. */
  lemma DateIntervalIsHalfOpen(start: Date, end: Date, t: nat)
    requires FourDigitDate(start) && FourDigitDate(end) && BeforeYear10000(t)
    ensures var r := Range(Some(DateText(start)), Some(DateText(end)));
            && ParseDatetime(DateText(start) + "/" + DateText(end)) == Success(r)
            && (DatetimeMatches(r, Iso8601(t)) <==> !Before(DayOf(t), start) && Before(DayOf(t), end))
  {
    DateTextHasNoSlash(start);
    DateTextHasNoSlash(end);
    hide DateText, Iso8601, LexLess, DayOf, IsDate;
    SplitAtFirst(DateText(start), DateText(end));
    NotDotDot(DateText(start));
    NotDotDot(DateText(end));
    DateOnlyStartIncludesItsDay(start, t);
    DateOnlyEndExcludesItsDay(end, t);
  }

  /** A bare date is parsed as an exact match and matches no timestamp at all. */
  lemma BareDateMatchesNothing(day: Date, t: nat)
    requires FourDigitDate(day) && BeforeYear10000(t)
    ensures var r := Range(Some(DateText(day)), Some(DateText(day)));
            ParseDatetime(DateText(day)) == Success(r) && !DatetimeMatches(r, Iso8601(t))
  {
    DateTextHasNoSlash(day);
    hide DateText, Iso8601, LexLess, DayOf, IsDate;
    SplitNowhere(DateText(day));
    DateOnlyStartIncludesItsDay(day, t);
    DateOnlyEndExcludesItsDay(day, t);
  }

  lemma EmptyIsLess(s: string)
    requires s != ""
    ensures LexLess("", s)
  {
  }

  lemma DatesAreOrdered(a: Date, b: Date)
    ensures Before(a, b) || a == b || Before(b, a)
    ensures !(Before(a, b) && Before(b, a)) && !Before(a, a)
  {
  }

  // ------------------------------------------------------------ every request

  /** The expressions that name no interval: the empty one, and the one without any end. */
  predicate NamesNoInterval(expression: string) {
    expression == "" || expression == "../.."
  }

  /** The first slash is at position `k`. */
  predicate SlashAt(expression: string, k: nat) {
    k < |expression| && expression[k] == '/' && '/' !in expression[..k]
  }

  /** The text is the expression, or lies between the texts on the two sides of its first slash, those left open apart. */
  ghost predicate PassesTime(expression: string, text: string) {
    if '/' !in expression then text == expression
    else exists k: nat :: SlashAt(expression, k)
                     && (expression[..k] == ".." || !LexLess(text, expression[..k]))
                     && (expression[k + 1..] == ".." || !LexLess(expression[k + 1..], text))
  }

  /** What a request asks of an item. */
  ghost predicate Qualifies(req: Request, it: Item) {
    if req.ids != [] then it.id in req.ids
    else
      && (req.collections != [] ==> it.collection in req.collections)
      && (req.bbox.Some? ==>
            var a, b := req.bbox.value, it.bbox;
            a.west <= b.east && b.west <= a.east && a.south <= b.north && b.south <= a.north)
      && (req.datetime.Some? ==> PassesTime(req.datetime.value, it.datetime))
  }

  /** Ascending, and exactly the positions of the items that qualify. */
  ghost predicate AreQualifying(req: Request, items: seq<Item>, positions: seq<nat>) {
    && (forall j, k :: 0 <= j < k < |positions| ==> positions[j] < positions[k])
    && (forall p: nat :: p in positions <==> p < |items| && Qualifies(req, items[p]))
  }

  /** The ids at the first of the positions, as many as the limit allows. */
  predicate ListsFirst(req: Request, items: seq<Item>, positions: seq<nat>, ids: seq<string>)
  {
    && |ids| <= |positions|
    && |ids| <= (if req.limit.Some? then req.limit.value else 100)
    && (|ids| < |positions| ==> |ids| == (if req.limit.Some? then req.limit.value else 100))
    && (forall k :: 0 <= k < |ids| ==> positions[k] < |items| && ids[k] == items[positions[k]].id)
  }

  lemma {:induction false} SplitIsAtSlash(s: string)
    ensures SplitOnce(s, '/').None? <==> '/' !in s
    ensures forall k: nat :: SlashAt(s, k) ==> SplitOnce(s, '/') == Some((s[..k], s[k + 1..]))
    ensures '/' in s ==> exists k: nat :: SlashAt(s, k)
  {
    if '/' !in s {
      SplitNowhere(s);
    } else {
      SlashIsSomewhere(s);
      forall k: nat | SlashAt(s, k)
        ensures SplitOnce(s, '/') == Some((s[..k], s[k + 1..]))
      {
        assert s == s[..k] + "/" + s[k + 1..];
        SplitAtFirst(s[..k], s[k + 1..]);
      }
    }
  }

  lemma {:induction false} SlashIsSomewhere(s: string)
    requires '/' in s
    ensures exists k: nat :: SlashAt(s, k)
  {
    if s[0] == '/' {
      assert SlashAt(s, 0);
    } else {
      SlashIsSomewhere(s[1..]);
      var k: nat :| SlashAt(s[1..], k);
      assert s[..k + 1] == [s[0]] + s[1..][..k];
      assert SlashAt(s, k + 1);
    }
  }

  lemma ParsesUnlessNoInterval(expression: string)
    ensures ParseDatetime(expression) == Failure(BadDatetime(expression)) <==> NamesNoInterval(expression)
    ensures ParseDatetime(expression).Failure? ==> ParseDatetime(expression) == Failure(BadDatetime(expression))
  {
    SplitIsAtSlash(expression);
    if '/' in expression {
      var k: nat :| SlashAt(expression, k);
      OpenOnBothSides(expression, k);
    }
  }

  lemma OpenOnBothSides(expression: string, k: nat)
    requires SlashAt(expression, k)
    ensures expression == "../.." <==> expression[..k] == ".." && expression[k + 1..] == ".."
  {
    var both := "../..";
    if expression[..k] == ".." && expression[k + 1..] == ".." {
      assert expression == expression[..k] + [expression[k]] + expression[k + 1..];
    }
    if expression == both {
      assert both[2] == '/';
      assert k == 2;
    }
  }

  lemma RangePasses(expression: string, text: string)
    requires !NamesNoInterval(expression)
    ensures ParseDatetime(expression).Success?
    ensures DatetimeMatches(ParseDatetime(expression).value, text) <==> PassesTime(expression, text)
  {
    ParsesUnlessNoInterval(expression);
    SplitIsAtSlash(expression);
    if '/' !in expression {
      LexTotal(text, expression);
    }
  }

  ghost function PositionsFrom(req: Request, items: seq<Item>, from: nat): (r: seq<nat>)
    requires from <= |items|
    ensures forall k :: 0 <= k < |r| ==> from <= r[k] < |items|
    decreases |items| - from
  {
    if from == |items| then []
    else (if Qualifies(req, items[from]) then [from] else []) + PositionsFrom(req, items, from + 1)
  }

  lemma {:induction false} PositionsAreThose(req: Request, items: seq<Item>, from: nat)
    requires from <= |items|
    ensures var at := PositionsFrom(req, items, from);
            && (forall j, k :: 0 <= j < k < |at| ==> at[j] < at[k])
            && (forall p: nat :: p in at <==> from <= p < |items| && Qualifies(req, items[p]))
    decreases |items| - from
  {
    hide Qualifies;
    if from < |items| {
      PositionsAreThose(req, items, from + 1);
    }
  }

  lemma {:induction false} KeptAreAtPositions(req: Request, range: Option<Range>, items: seq<Item>, from: nat)
    requires from <= |items| && forall k :: 0 <= k < |items| ==> (Keeps(req, range, items[k]) <==> Qualifies(req, items[k]))
    ensures var at, kept := PositionsFrom(req, items, from), KeptIds(req, range, items[from..]);
            |kept| == |at| && forall k :: 0 <= k < |at| ==> kept[k] == items[at[k]].id
    decreases |items| - from
  {
    hide Qualifies, Keeps;
    if from < |items| {
      assert items[from..][0] == items[from] && items[from..][1..] == items[from + 1..];
      KeptAreAtPositions(req, range, items, from + 1);
    }
  }

  /**
   Every request, said on positions: it fails exactly when a datetime is given that names no
   interval, and otherwise lists, in order, the items that qualify up to the limit.
   */
  lemma SearchListsWhatQualifies(req: Request, items: seq<Item>)
    ensures Search(req, items).Failure? <==> req.datetime.Some? && NamesNoInterval(req.datetime.value)
    ensures Search(req, items).Failure? ==> Search(req, items).error == BadDatetime(req.datetime.value)
    ensures Search(req, items).Success? ==>
              exists positions :: AreQualifying(req, items, positions) && ListsFirst(req, items, positions, Search(req, items).value)
  {
    if req.datetime.Some? {
      ParsesUnlessNoInterval(req.datetime.value);
    }
    if Search(req, items).Success? {
      hide PassesTime, DatetimeMatches, ParseDatetime, NamesNoInterval;
      var range := if req.datetime.Some? then Some(ParseDatetime(req.datetime.value).value) else None;
      forall k | 0 <= k < |items|
        ensures Keeps(req, range, items[k]) <==> Qualifies(req, items[k])
      {
        if req.datetime.Some? {
          RangePasses(req.datetime.value, items[k].datetime);
        }
      }
      hide Keeps, Qualifies;
      PositionsAreThose(req, items, 0);
      KeptAreAtPositions(req, range, items, 0);
      assert items[0..] == items;
      assert ListsFirst(req, items, PositionsFrom(req, items, 0), Search(req, items).value);
    }
  }

  // ---------------------------------------------------------------- boxes

  predicate InBox(b: Box, x: real, y: real) {
    b.west <= x <= b.east && b.south <= y <= b.north
  }

  /** Ends in the order that a box of the plane has them. */
  predicate IsProper(b: Box) {
    b.west <= b.east && b.south <= b.north
  }

  /**
   Boxes have a point in common exactly when both are proper and the comparison of their
   ends says so. Touching boxes do, although the documentation says that they do not.
   */
  lemma IntersectIffCommonPoint(a: Box, b: Box)
    ensures BoxesIntersect(a, b) && IsProper(a) && IsProper(b) <==> exists x, y :: InBox(a, x, y) && InBox(b, x, y)
  {
    if BoxesIntersect(a, b) && IsProper(a) && IsProper(b) {
      var x := if a.west < b.west then b.west else a.west;
      var y := if a.south < b.south then b.south else a.south;
      assert InBox(a, x, y) && InBox(b, x, y);
    }
  }

  /** A box with its west end beyond its east end runs over the antimeridian (section 5.2 of RFC 7946). */
  predicate SpansLongitude(b: Box, x: real) {
    if b.west <= b.east then b.west <= x <= b.east else b.west <= x <= 180.0 || -180.0 <= x <= b.east
  }

  /** The antimeridian is at 180 and at -180 degrees. */
  predicate LongitudeIn(b: Box, x: real) {
    || SpansLongitude(b, x)
    || (x == 180.0 && SpansLongitude(b, -180.0))
    || (x == -180.0 && SpansLongitude(b, 180.0))
  }

  predicate InWrapped(b: Box, x: real, y: real) {
    LongitudeIn(b, x) && b.south <= y <= b.north
  }

  predicate IsGeographic(b: Box) {
    -180.0 <= b.west <= 180.0 && -180.0 <= b.east <= 180.0
  }

  predicate HasLatitudes(b: Box) {
    b.south <= b.north
  }

  predicate ReachesAntimeridian(b: Box) {
    b.west > b.east || b.west == -180.0 || b.east == 180.0
  }

  /** Boxes with a point in common that the comparison of ends takes for disjoint. */
  predicate Missed(a: Box, b: Box) {
    && HasLatitudes(a) && HasLatitudes(b)
    && a.south <= b.north && b.south <= a.north
    && !(b.west <= a.east && a.west <= b.east)
    && ((ReachesAntimeridian(a) && ReachesAntimeridian(b))
        || ((a.west > a.east || b.west > b.east) && (b.west <= a.east || a.west <= b.east)))
  }

  /** A box without points that the comparison takes for meeting another. */
  predicate Imagined(a: Box, b: Box) {
    BoxesIntersect(a, b) && !(HasLatitudes(a) && HasLatitudes(b))
  }

  /**
   On geographic boxes, those over the antimeridian included, the comparison decides rightly
   exactly unless it misses a meeting or imagines one.
   */
  lemma WrappedBoxesIntersectIff(a: Box, b: Box)
    requires IsGeographic(a) && IsGeographic(b)
    ensures (BoxesIntersect(a, b) <==> exists x, y :: InWrapped(a, x, y) && InWrapped(b, x, y)) <==> !Missed(a, b) && !Imagined(a, b)
  {
    var y := if a.south < b.south then b.south else a.south;
    var larger := if a.west < b.west then b.west else a.west;
    var start := if b.west <= a.east then b.west else a.west;
    var end := if b.west <= a.east then a.east else b.east;
    var meet := exists x, y :: InWrapped(a, x, y) && InWrapped(b, x, y);
    assert InWrapped(a, larger, y) && InWrapped(b, larger, y) ==> meet;
    assert InWrapped(a, start, y) && InWrapped(b, start, y) ==> meet;
    assert InWrapped(a, end, y) && InWrapped(b, end, y) ==> meet;
    assert InWrapped(a, 180.0, y) && InWrapped(b, 180.0, y) ==> meet;
  }

  /** A box over the antimeridian, and one within it, that the comparison takes for disjoint. */
  lemma BoxWithinIsMissed() returns (a: Box, b: Box)
    ensures IsGeographic(a) && IsGeographic(b) && a.west > a.east && Missed(a, b) && !BoxesIntersect(a, b)
    ensures forall x, y :: InWrapped(b, x, y) ==> InWrapped(a, x, y)
    ensures exists x, y :: InWrapped(b, x, y)
  {
    a, b := Box(170.0, -20.0, -170.0, -10.0), Box(-176.0, -18.0, -174.0, -12.0);
    assert InWrapped(b, -175.0, -15.0);
  }
}
