/** The bucket report: written by `persistence_close_buckets`, read back by the
    analysis script's `parse_buckets`. */
module BucketFile {
  import opened Histogram
  import opened Payload

  datatype Option<T> = None | Some(value: T)

  // --------------------------------------------------------------- decimals

  function Digit(d: nat): char
    requires d < 10
  {
    '0' + d as char
  }

  predicate IsDigit(c: char) { '0' <= c <= '9' }

  predicate AllDigits(s: string) {
    forall k :: 0 <= k < |s| ==> IsDigit(s[k])
  }

  /** `%lu` */
  function Dec(n: nat): (s: string)
    ensures s != [] && AllDigits(s)
  {
    if n < 10 then [Digit(n)] else Dec(n / 10) + [Digit(n % 10)]
  }

  function Number(s: string): nat
    requires AllDigits(s)
  {
    if s == [] then 0 else 10 * Number(s[..|s| - 1]) + (s[|s| - 1] - '0') as nat
  }

  lemma {:induction false} DecThenNumber(n: nat)
    ensures Number(Dec(n)) == n
  {
    if n < 10 {
      assert Dec(n)[..0] == [];
    } else {
      DecThenNumber(n / 10);
      assert Dec(n)[..|Dec(n)| - 1] == Dec(n / 10);
    }
  }

  // ---------------------------------------------------------------- writing

  /** Numbers separated by single spaces. */
  function Fields(ns: seq<nat>): string
    requires ns != []
  {
    if |ns| == 1 then Dec(ns[0]) else Dec(ns[0]) + " " + Fields(ns[1..])
  }

  /** A header line: a tag, then numbers. */
  function HeaderLine(tag: string, ns: seq<nat>): string
    requires ns != []
  {
    tag + " " + Fields(ns) + "\n"
  }

  function RowLine(row: seq<nat>): string
    requires row != []
  {
    Fields(row) + "\n"
  }

  predicate IsTable(rows: seq<seq<nat>>) {
    forall k :: 0 <= k < |rows| ==> |rows[k]| == COLUMNS
  }

  function RowLines(rows: seq<seq<nat>>): string
    requires IsTable(rows)
  {
    if rows == [] then "" else RowLine(rows[0]) + RowLines(rows[1..])
  }

  /** What is reported: counters and extremes of one run. */
  datatype Report = Report(tot: nat, interval: Interval, mins: seq<nat>, maxs: seq<nat>, rows: seq<seq<nat>>)

  predicate WellFormedReport(r: Report) {
    |r.mins| == |r.maxs| == COLUMNS && IsTable(r.rows)
  }

  /** The bounds of a range, unsigned, and the size of a bucket. */
  function RangeFields(min: nat, max: nat): seq<nat> {
    [min, max, Sub64(max, min) / NUM_BUCKETS]
  }

  function RelFields(interval: Interval): seq<nat> { RangeFields(RelMin(interval), RelMax(interval)) }

  function AbsFields(interval: Interval): seq<nat> { RangeFields(0, AbsMax(interval)) }

  /** The text that `persistence_close_buckets` prints. */
  function Print(r: Report): string
    requires WellFormedReport(r)
  {
    HeaderLine("TOT", [r.tot]) +
    (HeaderLine("REL", RelFields(r.interval)) +
    (HeaderLine("ABS", AbsFields(r.interval)) +
    (HeaderLine("MIN", r.mins) +
    (HeaderLine("MAX", r.maxs) + RowLines(r.rows)))))
  }

  // ---------------------------------------------------------------- reading

  /** `file.readline ()`: up to and including the first newline, and what is left. */
  function ReadLine(t: string): (string, string) {
    if t == "" then ("", "")
    else if t[0] == '\n' then (t[..1], t[1..])
    else
      var (line, rest) := ReadLine(t[1..]);
      ([t[0]] + line, rest)
  }

  /** `line.split (" ")` */
  function Split(s: string): (r: seq<string>)
    ensures r != []
  {
    if s == "" then [""]
    else
      var r := Split(s[1..]);
      if s[0] == ' ' then [""] + r else [[s[0]] + r[0]] + r[1..]
  }

  predicate IsSpace(c: char) { c == ' ' || c == '\n' || c == '\t' || c == '\r' }

  function StripRight(s: string): string {
    if s != "" && IsSpace(s[|s| - 1]) then StripRight(s[..|s| - 1]) else s
  }

  function StripLeft(s: string): string {
    if s != "" && IsSpace(s[0]) then StripLeft(s[1..]) else s
  }

  /** `int (x)` for the unsigned numbers in the file; anything else is an error. */
  function Int(x: string): Option<nat> {
    var s := StripLeft(StripRight(x));
    if s != "" && AllDigits(s) then Some(Number(s)) else None
  }

  /** `[int (x) for x in xs]` */
  function Ints(xs: seq<string>): Option<seq<nat>> {
    if xs == [] then Some([])
    else
      match (Int(xs[0]), Ints(xs[1..]))
      case (Some(n), Some(ns)) => Some([n] + ns)
      case _ => None
  }

  /** `np.fromfile (file, sep=" ", dtype=int)`: the numbers between blanks, each within
      int64; `pending` holds the digits read so far of the current one. */
  function FromFile(t: string, pending: string): Option<seq<nat>>
    requires AllDigits(pending)
    decreases |t|
  {
    if t == "" then
      if pending == "" then Some([])
      else if Number(pending) < TWO_TO_63 then Some([Number(pending)]) else None
    else if IsDigit(t[0]) then FromFile(t[1..], pending + [t[0]])
    else if !IsSpace(t[0]) then None
    else if pending == "" then FromFile(t[1..], "")
    else if Number(pending) >= TWO_TO_63 then None
    else
      match FromFile(t[1..], "")
      case Some(ns) => Some([Number(pending)] + ns)
      case None => None
  }

  /** `reshape ((size//5, 5))`, an error unless the size is a multiple of five. */
  function Reshape(ns: seq<nat>): Option<seq<seq<nat>>> {
    if ns == [] then Some([])
    else if |ns| < COLUMNS then None
    else
      match Reshape(ns[COLUMNS..])
      case Some(rows) => Some([ns[..COLUMNS]] + rows)
      case None => None
  }

  datatype Parsed = Parsed(
    tot: nat,
    relMin: nat, relMax: nat,
    absMin: nat, absMax: nat,
    mins: seq<nat>, maxs: seq<nat>,
    rows: seq<seq<nat>>)
  {
    /** `(max_val - min_val) / num_buckets`, where num_buckets is the number of rows less two. */
    function RelBucketSize(): real
      requires |rows| > 2
    {
      (relMax - relMin) as real / (|rows| - 2) as real
    }
  }

  /** The numbers of one header line: `[int (x) for x in file.readline ().split (" ")[1:]]`. */
  function HeaderInts(t: string): (Option<seq<nat>>, string) {
    var (line, rest) := ReadLine(t);
    (Ints(Split(line)[1..]), rest)
  }

  /** `int (file.readline ().split (" ")[1])` */
  function HeaderInt(t: string): (Option<nat>, string) {
    var (line, rest) := ReadLine(t);
    (if |Split(line)| < 2 then None else Int(Split(line)[1]), rest)
  }

  function ParseBuckets(t: string): Option<Parsed> {
    var (tot, t1) := HeaderInt(t);
    var (rel, t2) := HeaderInts(t1);
    var (abs, t3) := HeaderInts(t2);
    var (mins, t4) := HeaderInts(t3);
    var (maxs, t5) := HeaderInts(t4);
    match (tot, rel, abs, mins, maxs, FromFile(t5, ""))
    case (Some(tot), Some(rel), Some(abs), Some(mins), Some(maxs), Some(all)) =>
      if |rel| < 2 || |abs| < 2 then None
      else (match Reshape(all)
            case Some(rows) => Some(Parsed(tot, rel[0], rel[1], abs[0], abs[1], mins, maxs, rows))
            case None => None)
    case _ => None
  }

  // ------------------------------------------------------------- round trip

  lemma {:induction false} ReadLineTakesLine(line: string, rest: string)
    requires '\n' !in line
    ensures ReadLine(line + "\n" + rest) == (line + "\n", rest)
  {
    var t := line + "\n" + rest;
    if line == "" {
      assert t == "\n" + rest;
    } else {
      ReadLineTakesLine(line[1..], rest);
      assert t[1..] == line[1..] + "\n" + rest;
      assert [line[0]] + (line[1..] + "\n") == line + "\n";
    }
  }

  lemma {:induction false} SplitToken(tok: string, rest: string)
    requires ' ' !in tok
    ensures Split(tok + " " + rest) == [tok] + Split(rest)
  {
    var t := tok + " " + rest;
    if tok == "" {
      assert t[1..] == rest;
    } else {
      SplitToken(tok[1..], rest);
      assert t[1..] == tok[1..] + " " + rest;
      assert [tok[0]] + tok[1..] == tok;
    }
  }

  lemma {:induction false} SplitLast(tok: string)
    requires ' ' !in tok
    ensures Split(tok) == [tok]
  {
    if tok != "" {
      SplitLast(tok[1..]);
      assert [tok[0]] + tok[1..] == tok;
    }
  }

  lemma DecHasNoBlank(n: nat)
    ensures forall c :: c in Dec(n) ==> !IsSpace(c)
  {
  }

  lemma IntOfDec(n: nat)
    ensures Int(Dec(n)) == Some(n)
    ensures Int(Dec(n) + "\n") == Some(n)
  {
    DecThenNumber(n);
    DecHasNoBlank(n);
    var s := Dec(n) + "\n";
    assert s[..|s| - 1] == Dec(n);
    assert IsDigit(Dec(n)[0]) && IsDigit(Dec(n)[|Dec(n)| - 1]);
    assert StripRight(Dec(n)) == Dec(n);
    assert StripRight(s) == Dec(n);
  }

  lemma IntsOfMore(tok: string, n: nat, tokens: seq<string>, ns: seq<nat>)
    requires Int(tok) == Some(n) && Ints(tokens) == Some(ns)
    ensures Ints([tok] + tokens) == Some([n] + ns)
  {
    assert ([tok] + tokens)[1..] == tokens;
  }

  lemma {:induction false} IntsOfFields(ns: seq<nat>)
    requires ns != []
    ensures Ints(Split(Fields(ns) + "\n")) == Some(ns)
    ensures '\n' !in Fields(ns)
  {
    var tok := Dec(ns[0]);
    DecHasNoBlank(ns[0]);
    IntOfDec(ns[0]);
    if |ns| == 1 {
      SplitLast(tok + "\n");
      IntsOfMore(tok + "\n", ns[0], [], []);
      assert [tok + "\n"] + [] == [tok + "\n"] && [ns[0]] + [] == ns;
    } else {
      IntsOfFields(ns[1..]);
      IntsOfMoreFields(ns);
    }
  }

  lemma IntsOfMoreFields(ns: seq<nat>)
    requires |ns| > 1 && Ints(Split(Fields(ns[1..]) + "\n")) == Some(ns[1..])
    ensures Ints(Split(Fields(ns) + "\n")) == Some(ns)
  {
    DecHasNoBlank(ns[0]);
    IntOfDec(ns[0]);
    IntsOfTokenAndMore(Dec(ns[0]), ns[0], Fields(ns[1..]), ns[1..]);
    assert [ns[0]] + ns[1..] == ns;
  }

  lemma IntsOfTokenAndMore(tok: string, n: nat, tail: string, ns: seq<nat>)
    requires ' ' !in tok && Int(tok) == Some(n) && Ints(Split(tail + "\n")) == Some(ns)
    ensures Ints(Split(tok + " " + tail + "\n")) == Some([n] + ns)
  {
    SplitToken(tok, tail + "\n");
    assert tok + " " + tail + "\n" == tok + " " + (tail + "\n");
    IntsOfMore(tok, n, Split(tail + "\n"), ns);
  }

  /** Reading a header line gives its numbers back and moves on to the next line. */
  lemma HeaderRoundTrip(tag: string, ns: seq<nat>, rest: string)
    requires ns != [] && ' ' !in tag && '\n' !in tag
    ensures HeaderInts(HeaderLine(tag, ns) + rest) == (Some(ns), rest)
    ensures |ns| == 1 ==> HeaderInt(HeaderLine(tag, ns) + rest) == (Some(ns[0]), rest)
  {
    var fields := Fields(ns) + "\n";
    IntsOfFields(ns);
    ReadLineTakesLine(tag + " " + Fields(ns), rest);
    assert HeaderLine(tag, ns) == tag + " " + fields;
    SplitToken(tag, fields);
    assert Split(HeaderLine(tag, ns))[1..] == Split(fields);
    if |ns| == 1 {
      DecHasNoBlank(ns[0]);
      SplitLast(fields);
      IntOfDec(ns[0]);
    }
  }

  lemma {:induction false} FromFileDigits(ds: string, rest: string, pending: string)
    requires AllDigits(ds) && AllDigits(pending)
    ensures FromFile(ds + rest, pending) == FromFile(rest, pending + ds)
    decreases |ds|
  {
    if ds == "" {
      assert ds + rest == rest && pending + ds == pending;
    } else {
      FromFileDigits(ds[1..], rest, pending + [ds[0]]);
      assert (ds + rest)[1..] == ds[1..] + rest;
      assert pending + [ds[0]] + ds[1..] == pending + ds;
    }
  }

  function Prepend(n: nat, r: Option<seq<nat>>): Option<seq<nat>> {
    match r
    case Some(ns) => Some([n] + ns)
    case None => None
  }

  lemma FromFileBlank(pending: string, blank: char, rest: string)
    requires AllDigits(pending) && pending != "" && Number(pending) < TWO_TO_63 && IsSpace(blank)
    ensures FromFile([blank] + rest, pending) == Prepend(Number(pending), FromFile(rest, ""))
  {
    assert ([blank] + rest)[1..] == rest;
  }

  lemma FromFileToken(digits: string, blank: char, rest: string)
    requires AllDigits(digits) && digits != "" && Number(digits) < TWO_TO_63 && IsSpace(blank)
    ensures FromFile(digits + [blank] + rest, "") == Prepend(Number(digits), FromFile(rest, ""))
  {
    assert digits + [blank] + rest == digits + ([blank] + rest);
    FromFileDigits(digits, [blank] + rest, "");
    assert "" + digits == digits;
    FromFileBlank(digits, blank, rest);
  }

  lemma FromFileNumber(n: nat, blank: char, rest: string)
    requires IsSpace(blank) && n < TWO_TO_63
    ensures FromFile(Dec(n) + [blank] + rest, "") == Prepend(n, FromFile(rest, ""))
  {
    var digits := Dec(n);
    DecThenNumber(n);
    FromFileToken(digits, blank, rest);
  }

  function PrependAll(ns: seq<nat>, r: Option<seq<nat>>): Option<seq<nat>> {
    match r
    case Some(ms) => Some(ns + ms)
    case None => None
  }

  lemma {:induction false} FromFileLine(ns: seq<nat>, rest: string)
    requires ns != [] && forall k :: 0 <= k < |ns| ==> ns[k] < TWO_TO_63
    ensures FromFile(Fields(ns) + "\n" + rest, "") == PrependAll(ns, FromFile(rest, ""))
  {
    if |ns| == 1 {
      FromFileNumber(ns[0], '\n', rest);
      assert ns == [ns[0]];
    } else {
      var tail := Fields(ns[1..]) + "\n" + rest;
      FromFileLine(ns[1..], rest);
      FromFileNumber(ns[0], ' ', tail);
      assert Fields(ns) + "\n" + rest == Dec(ns[0]) + " " + tail;
      PrependTwice(ns, FromFile(rest, ""));
    }
  }

  lemma PrependTwice(ns: seq<nat>, r: Option<seq<nat>>)
    requires ns != []
    ensures Prepend(ns[0], PrependAll(ns[1..], r)) == PrependAll(ns, r)
  {
    if r.Some? {
      assert [ns[0]] + (ns[1..] + r.value) == ns + r.value;
    }
  }

  function Flatten(rows: seq<seq<nat>>): seq<nat> {
    if rows == [] then [] else rows[0] + Flatten(rows[1..])
  }

  predicate Small(rows: seq<seq<nat>>) {
    forall k, c :: 0 <= k < |rows| && 0 <= c < |rows[k]| ==> rows[k][c] < TWO_TO_63
  }

  lemma {:induction false} RowsRoundTrip(rows: seq<seq<nat>>)
    requires IsTable(rows) && Small(rows)
    ensures FromFile(RowLines(rows), "") == Some(Flatten(rows))
    ensures Reshape(Flatten(rows)) == Some(rows)
  {
    if rows != [] {
      RowsRoundTrip(rows[1..]);
      FromFileLine(rows[0], RowLines(rows[1..]));
      var all := Flatten(rows);
      assert all[..COLUMNS] == rows[0] && all[COLUMNS..] == Flatten(rows[1..]);
      assert [rows[0]] + rows[1..] == rows;
    }
  }

  /** Parsing what was printed gives back the total, both ranges, the extremes and every row. */
  lemma PrintThenParse(r: Report)
    requires WellFormedReport(r) && Small(r.rows)
    ensures ParseBuckets(Print(r)) ==
      Some(Parsed(r.tot, RelMin(r.interval), RelMax(r.interval), 0, AbsMax(r.interval), r.mins, r.maxs, r.rows))
  {
    var rel, abs := RelFields(r.interval), AbsFields(r.interval);
    var t5 := RowLines(r.rows);
    var t4 := HeaderLine("MAX", r.maxs) + t5;
    var t3 := HeaderLine("MIN", r.mins) + t4;
    var t2 := HeaderLine("ABS", abs) + t3;
    var t1 := HeaderLine("REL", rel) + t2;
    HeaderRoundTrip("TOT", [r.tot], t1);
    HeaderRoundTrip("REL", rel, t2);
    HeaderRoundTrip("ABS", abs, t3);
    HeaderRoundTrip("MIN", r.mins, t4);
    HeaderRoundTrip("MAX", r.maxs, t5);
    RowsRoundTrip(r.rows);
  }

  lemma PrintedSize(interval: Interval)
    ensures RelFields(interval)[2] == 100
    ensures RelMax(interval) - RelMin(interval) ==
      2 * OFFSET - if interval + OFFSET < TWO_TO_64 then 0 else TWO_TO_64
  {
    var n: int := interval;
    if n + OFFSET >= TWO_TO_64 {
      assert RelMax(interval) == n + OFFSET - TWO_TO_64;
    }
  }

  lemma ExactDivision(a: int, b: int, q: int)
    requires b > 0
    ensures a as real / b as real == q as real <==> a == b * q
  {
    var quotient := a as real / b as real;
    assert quotient * b as real == a as real;
    if quotient == q as real {
      assert (q * b) as real == q as real * b as real;
    }
  }

  /** The relative bucket size that the script recomputes is the one that was printed, unless
      the upper bound wrapped around. */
  lemma RecomputedSizeAgreesExactlyWhen(r: Report)
    requires WellFormedReport(r) && Small(r.rows) && |r.rows| == ROWS
    ensures var p := ParseBuckets(Print(r));
      && p.Some? && |p.value.rows| == ROWS
      && (p.value.RelBucketSize() == RelFields(r.interval)[2] as real <==> r.interval + OFFSET < TWO_TO_64)
  {
    PrintThenParse(r);
    PrintedSize(r.interval);
    ExactDivision(RelMax(r.interval) - RelMin(r.interval), NUM_BUCKETS, 100);
  }

  // ------------------------------------------------------- the code, in place

  lemma {:induction false} RowLinesExtend(rows: seq<seq<nat>>, row: seq<nat>)
    requires IsTable(rows) && |row| == COLUMNS
    ensures RowLines(rows + [row]) == RowLines(rows) + RowLine(row)
  {
    if rows == [] {
      assert rows + [row] == [row];
      assert [row][1..] == [];
    } else {
      var first, rest := RowLine(rows[0]), RowLines(rows[1..]);
      RowLinesExtend(rows[1..], row);
      assert (rows + [row])[1..] == rows[1..] + [row];
      assert first + (rest + RowLine(row)) == first + rest + RowLine(row);
    }
  }

  /** The header lines of a report, in the order in which they are printed. */
  function Header(tot: nat, interval: Interval, mins: seq<nat>, maxs: seq<nat>): string
    requires |mins| == |maxs| == COLUMNS
  {
    HeaderLine("TOT", [tot]) +
    HeaderLine("REL", RelFields(interval)) +
    HeaderLine("ABS", AbsFields(interval)) +
    HeaderLine("MIN", mins) +
    HeaderLine("MAX", maxs)
  }

  lemma HeaderThenRows(r: Report)
    requires WellFormedReport(r)
    ensures Header(r.tot, r.interval, r.mins, r.maxs) + RowLines(r.rows) == Print(r)
  {
    var a, b := HeaderLine("TOT", [r.tot]), HeaderLine("REL", RelFields(r.interval));
    var c, d := HeaderLine("ABS", AbsFields(r.interval)), HeaderLine("MIN", r.mins);
    var e, f := HeaderLine("MAX", r.maxs), RowLines(r.rows);
    ConcatFromTheRight(a, b, c, d, e, f);
  }

  lemma ConcatFromTheRight(a: string, b: string, c: string, d: string, e: string, f: string)
    ensures a + b + c + d + e + f == a + (b + (c + (d + (e + f))))
  {
  }

  /** The first line of a text is this tag and these numbers, and this is the rest. */
  predicate StartsWith(t: string, tag: string, ns: seq<nat>, rest: string)
    requires ns != []
  {
    ReadLine(t) == (tag + " " + Fields(ns) + "\n", rest)
  }

  lemma HeaderComesFirst(tag: string, ns: seq<nat>, rest: string)
    requires ns != [] && '\n' !in tag
    ensures StartsWith(HeaderLine(tag, ns) + rest, tag, ns, rest)
  {
    IntsOfFields(ns);
    ReadLineTakesLine(tag + " " + Fields(ns), rest);
  }

  /** The lines of the report, in their order. */
  lemma ReportLines(r: Report) returns (t1: string, t2: string, t3: string, t4: string, t5: string)
    requires WellFormedReport(r)
    ensures StartsWith(Print(r), "TOT", [r.tot], t1)
    ensures StartsWith(t1, "REL", [RelMin(r.interval), RelMax(r.interval), 100], t2)
    ensures StartsWith(t2, "ABS", [0, AbsMax(r.interval), AbsMax(r.interval) / 20000], t3)
    ensures StartsWith(t3, "MIN", r.mins, t4)
    ensures StartsWith(t4, "MAX", r.maxs, t5)
    ensures t5 == RowLines(r.rows)
  {
    t5 := RowLines(r.rows);
    t4 := HeaderLine("MAX", r.maxs) + t5;
    t3 := HeaderLine("MIN", r.mins) + t4;
    t2 := HeaderLine("ABS", AbsFields(r.interval)) + t3;
    t1 := HeaderLine("REL", RelFields(r.interval)) + t2;
    PrintedFields(r.interval);
    HeaderComesFirst("TOT", [r.tot], t1);
    HeaderComesFirst("REL", RelFields(r.interval), t2);
    HeaderComesFirst("ABS", AbsFields(r.interval), t3);
    HeaderComesFirst("MIN", r.mins, t4);
    HeaderComesFirst("MAX", r.maxs, t5);
  }

  lemma PrintedFields(interval: Interval)
    ensures RelFields(interval) == [RelMin(interval), RelMax(interval), 100]
    ensures AbsFields(interval) == [0, AbsMax(interval), AbsMax(interval) / 20000]
  {
    PrintedSize(interval);
  }

  /** `persistence_close_buckets`: header lines, then a loop over the rows of the table. */
  method CloseBuckets(tot: nat, interval: Interval, mins: seq<nat>, maxs: seq<nat>, buckets: array2<nat>)
    returns (text: string, ghost rows: seq<seq<nat>>)
    requires |mins| == |maxs| == COLUMNS && buckets.Length1 == COLUMNS
    ensures |rows| == buckets.Length0 && IsTable(rows)
    ensures forall i, c :: 0 <= i < |rows| && 0 <= c < COLUMNS ==> rows[i][c] == buckets[i, c]
    ensures text == Print(Report(tot, interval, mins, maxs, rows))
  {
    var body;
    body, rows := PrintRows(buckets);
    HeaderThenRows(Report(tot, interval, mins, maxs, rows));
    text := Header(tot, interval, mins, maxs) + body;
  }

  method PrintRows(buckets: array2<nat>) returns (body: string, ghost rows: seq<seq<nat>>)
    requires buckets.Length1 == COLUMNS
    ensures |rows| == buckets.Length0 && IsTable(rows)
    ensures forall i, c :: 0 <= i < |rows| && 0 <= c < COLUMNS ==> rows[i][c] == buckets[i, c]
    ensures body == RowLines(rows)
  {
    body, rows := "", [];
    for i := 0 to buckets.Length0
      invariant |rows| == i && IsTable(rows)
      invariant forall k, c :: 0 <= k < i && 0 <= c < COLUMNS ==> rows[k][c] == buckets[k, c]
      invariant body == RowLines(rows)
    {
      var row := [buckets[i, 0], buckets[i, 1], buckets[i, 2], buckets[i, 3], buckets[i, 4]];
      RowLinesExtend(rows, row);
      body := body + RowLine(row);
      rows := rows + [row];
    }
  }

  lemma {:induction false} CountAtMostSamples(interval: Interval, xs: seq<Sample>, b: nat, c: nat)
    requires AllWellFormed(xs) && c < COLUMNS
    ensures CountIn(interval, xs, b, c) <= |xs|
  {
    if xs != [] {
      CountAtMostSamples(interval, xs[..|xs| - 1], b, c);
    }
  }

  /** The file describes the run ps: the number of packets, the ranges, the extremes of its
      samples and, cell by cell, their plain counts. */
  ghost predicate Describes(p: Parsed, interval: Interval, ps: seq<Payload>)
    requires AllFit(ps)
  {
    && p.tot == |ps|
    && p.relMin == (if interval < 1000000 then 0 else interval - 1000000)
    && p.relMax == (if interval < 1000000 then 2000000 else Top(interval))
    && p.absMin == 0 && p.absMax == Top(interval)
    && DescribesTable(p.mins, p.maxs, p.rows, interval, Samples(ps))
  }

  ghost predicate DescribesTable(mins: seq<nat>, maxs: seq<nat>, rows: seq<seq<nat>>, interval: Interval, xs: seq<Sample>)
    requires AllWellFormed(xs)
  {
    && |mins| == |maxs| == COLUMNS && |rows| == ROWS && IsTable(rows)
    && (forall c :: 0 <= c < COLUMNS ==> mins[c] == MinOf(xs, c) && maxs[c] == MaxOf(xs, c))
    && (forall b, c :: 0 <= b < ROWS && 0 <= c < COLUMNS ==> rows[b][c] == CountIn(interval, xs, b, c))
  }

  lemma CountsAreSmall(mins: seq<nat>, maxs: seq<nat>, rows: seq<seq<nat>>, interval: Interval, xs: seq<Sample>)
    requires AllWellFormed(xs) && |xs| < TWO_TO_63
    requires DescribesTable(mins, maxs, rows, interval, xs)
    ensures Small(rows)
  {
    forall b, c | 0 <= b < |rows| && 0 <= c < |rows[b]|
      ensures rows[b][c] < TWO_TO_63
    {
      CountAtMostSamples(interval, xs, b, c);
    }
  }

  lemma AgentHolds(agent: BucketData, rows: seq<seq<nat>>)
    requires agent.Valid()
    requires |rows| == ROWS && IsTable(rows)
    requires forall i, c :: 0 <= i < ROWS && 0 <= c < COLUMNS ==> rows[i][c] == agent.buckets[i, c]
    ensures DescribesTable(agent.minValues[..], agent.maxValues[..], rows, agent.sendInterval, Samples(agent.history))
  {
    var xs := Samples(agent.history);
    forall c | 0 <= c < COLUMNS
      ensures agent.minValues[c] == MinOf(xs, c) && agent.maxValues[c] == MaxOf(xs, c)
    {
      assert agent.Holds(xs, c);
    }
    forall b, c | 0 <= b < ROWS && 0 <= c < COLUMNS
      ensures rows[b][c] == CountIn(agent.sendInterval, xs, b, c)
    {
      assert agent.Holds(xs, c);
    }
  }

  /** The bounds as printed, in plain numbers. */
  lemma PrintedBounds(interval: Interval)
    ensures RelMin(interval) == if interval < 1000000 then 0 else interval - 1000000
    ensures RelMax(interval) == if interval < 1000000 then 2000000 else Top(interval)
    ensures AbsMax(interval) == Top(interval)
  {
    var n: int := interval;
    if n + OFFSET >= TWO_TO_64 {
      assert AbsMax(interval) == n + OFFSET - TWO_TO_64;
    }
  }

  /** From the packets to the analysis: what the script reads back after any run describes
      exactly that run. */
  method CloseAgent(agent: BucketData) returns (text: string)
    requires agent.Valid() && agent.totPackets < TWO_TO_63
    ensures ParseBuckets(text).Some?
    ensures Describes(ParseBuckets(text).value, agent.sendInterval, agent.history)
  {
    var mins, maxs := agent.minValues[..], agent.maxValues[..];
    ghost var rows;
    text, rows := CloseBuckets(agent.totPackets, agent.sendInterval, mins, maxs, agent.buckets);
    AgentHolds(agent, rows);
    VerdictsAddUp(agent.history);
    CountsAreSmall(mins, maxs, rows, agent.sendInterval, Samples(agent.history));
    PrintThenParse(Report(agent.totPackets, agent.sendInterval, mins, maxs, rows));
    PrintedBounds(agent.sendInterval);
  }

  // -------------------------------------------------- the list of all timestamps

  /** One line of `persistence_write_all_timestamps` per payload: the id, then the timestamps. */
  function TimestampRows(ps: seq<Payload>): (rows: seq<seq<nat>>)
    requires AllStamped(ps)
    ensures |rows| == |ps| && IsTable(rows)
    ensures forall k :: 0 <= k < |ps| ==> rows[k] == [ps[k].id] + ps[k].ts
  {
    if ps == [] then [] else [[ps[0].id] + ps[0].ts] + TimestampRows(ps[1..])
  }

  /** `parse_timestamps` */
  function ParseTimestamps(t: string): Option<seq<seq<nat>>> {
    match FromFile(t, "")
    case Some(ns) => Reshape(ns)
    case None => None
  }

  /** Reading the list back gives the id and the timestamps of every payload. */
  lemma TimestampsRoundTrip(ps: seq<Payload>)
    requires AllStamped(ps) && Small(TimestampRows(ps))
    ensures ParseTimestamps(RowLines(TimestampRows(ps))) == Some(TimestampRows(ps))
  {
    RowsRoundTrip(TimestampRows(ps));
  }

  /** The script's `compute_latency`, in 64-bit signed arithmetic with floor division. */
  function ScriptLatency(ts: seq<nat>): (r: int)
    requires |ts| == 4
    ensures var n := SignedNumerator(ts); 2 * r <= n < 2 * r + 2
  {
    SignedNumerator(ts) / 2
  }

  /** The round trip less the time at the server, wrapped into int64. */
  function SignedNumerator(ts: seq<nat>): (n: int)
    requires |ts| == 4
    ensures 0 <= n + TWO_TO_63 && n < TWO_TO_63
    ensures ts[0] + ts[2] <= ts[1] + ts[3] + TWO_TO_63 && ts[1] + ts[3] < ts[0] + ts[2] + TWO_TO_63 ==>
      n + ts[0] + ts[2] == ts[1] + ts[3]
  {
    var t0: int, t1: int, t2: int, t3: int := ts[0], ts[1], ts[2], ts[3];
    AsInt64(((t3 - t0) - (t2 - t1)) % TWO_TO_64)
  }

  /** The script and the C code agree on the latency exactly when the wrapped round trip less
      the time at the server is not negative as a signed number. */
  lemma LatenciesAgreeExactlyWhen(p: Payload)
    requires Fits(p)
    ensures ScriptLatency(p.ts) == ComputeLatency(p) <==>
      Sub64(Sub64(p.ts[3], p.ts[0]), Sub64(p.ts[2], p.ts[1])) < TWO_TO_63
  {
    var t0: int, t1: int, t2: int, t3: int := p.ts[0], p.ts[1], p.ts[2], p.ts[3];
    Sub64OfWrapped(t3 - t0, t2 - t1);
  }

  /** They do disagree: with the server's stamps two further apart than the client's. */
  lemma LatenciesCanDisagree()
    ensures var p := Payload(1, [10, 0, 12, 20], PINGPONG_MAGIC);
      && Fits(p) && ValidPayload(p)
      && ScriptLatency(p.ts) == -1 && ComputeLatency(p) == TWO_TO_63 - 1
  {
    assert Sub64(20, 10) == 10 && Sub64(12, 0) == 12;
    assert Sub64(10, 12) == TWO_TO_64 - 2;
  }
}
