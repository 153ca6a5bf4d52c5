/** The scoring logic of SpamDetector.cpp: the digit-string check, the
    acceptance of a database row and the blank-line rule while loading, the
    counting of phrase occurrences, the score, the verdict and the validation of
    the threshold argument.  File reading, the CSV tokenizer and printing
    are not part of the model: lines arrive as strings, a tokenizer as a
    function, and verdicts and failures as results. */
module SpamScoring {
  import opened Tables
  import opened Cursors
  import opened HashMaps

  /** Why loading or checking fails.  main reports every one of them with
      a failing exit status. */
  datatype Failure =
    | InvalidRow        // hashExceptions("invalid input")
    | FirstLineEmpty    // hashExceptions("first line empty")
    | BadThreshold      // the threshold argument is not a positive number
    | OutOfRange        // std::stoi throws std::out_of_range

  datatype Outcome<T> = Done(value: T) | Fail(failure: Failure)

  datatype Verdict = Spam | NotSpam

  /** The largest value of a 32-bit int, the result type of std::stoi. */
  const IntMax: nat := 0x7FFF_FFFF

  // ------------------------------------------------------------------
  // Digit strings

  /** std::isdigit in the "C" locale. */
  predicate IsDigit(c: char) {
    '0' <= c <= '9'
  }

  predicate AllDigits(s: string) {
    forall i | 0 <= i < |s| :: IsDigit(s[i])
  }

  /** What isNum accepts. */
  predicate IsNumber(s: string) {
    |s| > 0 && AllDigits(s)
  }

  /** The number a digit string denotes in base ten. */
  function DecimalValue(s: string): nat
    requires AllDigits(s)
  {
    if s == [] then 0
    else 10 * DecimalValue(s[..|s| - 1]) + (s[|s| - 1] as int - '0' as int)
  }

  /** std::stoi on a digit string: its value, or out_of_range above IntMax. */
  function Stoi(s: string): (r: Outcome<int>)
    requires IsNumber(s)
    ensures r.Done? <==> DecimalValue(s) <= IntMax
    ensures r.Done? ==> r.value == DecimalValue(s) && 0 <= r.value
    ensures r.Fail? ==> r.failure == OutOfRange
  {
    var n := DecimalValue(s);
    if n <= IntMax then Done(n) else Fail(OutOfRange)
  }

  /** `isNum`: advance over the leading digits, then accept iff the string
      is not empty and the scan reached its end. */
  method IsNum(s: string) returns (b: bool)
    ensures b <==> IsNumber(s)
  {
    var i := 0;
    while i < |s| && IsDigit(s[i])
      invariant 0 <= i <= |s|
      invariant forall j | 0 <= j < i :: IsDigit(s[j])
    {
      i := i + 1;
    }
    return |s| > 0 && i == |s|;
  }

  /** A digit string denotes zero exactly when all its digits are '0'. */
  lemma {:induction false} ValueZeroIff(s: string)
    requires AllDigits(s)
    ensures DecimalValue(s) == 0 <==> forall i | 0 <= i < |s| :: s[i] == '0'
  {
    if s != [] {
      var p := s[..|s| - 1];
      assert AllDigits(p) by {
        forall i | 0 <= i < |p| ensures IsDigit(p[i]) {
          assert p[i] == s[i];
        }
      }
      ValueZeroIff(p);
      if DecimalValue(s) == 0 {
        assert s[|s| - 1] == '0';
        forall i | 0 <= i < |s| ensures s[i] == '0' {
          if i < |p| {
            assert p[i] == s[i];
          }
        }
      }
      if forall i | 0 <= i < |s| :: s[i] == '0' {
        forall i | 0 <= i < |p| ensures p[i] == '0' {
          assert p[i] == s[i];
        }
      }
    }
  }

  // ------------------------------------------------------------------
  // Lower case

  /** ::tolower on an ASCII character. */
  function LowerChar(c: char): char {
    if 'A' <= c <= 'Z' then (c as int + 32) as char else c
  }

  /** std::transform(..., ::tolower) */
  function Lower(s: string): (r: string)
    ensures |r| == |s|
    ensures forall i | 0 <= i < |s| :: r[i] == LowerChar(s[i])
  {
    seq(|s|, i requires 0 <= i < |s| => LowerChar(s[i]))
  }

  /** Lowering twice is lowering once. */
  lemma LowerIdempotent(s: string)
    ensures Lower(Lower(s)) == Lower(s)
  {
    assert forall i | 0 <= i < |s| :: LowerChar(LowerChar(s[i])) == LowerChar(s[i]);
  }

  // ------------------------------------------------------------------
  // Counting the occurrences of a phrase

  /** The phrase s sits in m at position i. */
  predicate MatchAt(m: string, s: string, i: nat) {
    i + |s| <= |m| && forall k | 0 <= k < |s| :: m[i + k] == s[k]
  }

  /** std::string::find(s, from): the first position at or after from where
      s sits in m, or npos (None). */
  function FindFrom(m: string, s: string, from: nat): (r: Option<nat>)
    ensures r.Some? ==> from <= r.value && MatchAt(m, s, r.value)
    decreases |m| - from
  {
    if from + |s| > |m| then None
    else if MatchAt(m, s, from) then Some(from)
    else FindFrom(m, s, from + 1)
  }

  /** find returns the leftmost match at or after from, and npos only when
      there is none. */
  lemma {:induction false} FindFromSpec(m: string, s: string, from: nat)
    ensures match FindFrom(m, s, from)
              case Some(i) => forall q | from <= q < i :: !MatchAt(m, s, q)
              case None => forall q | from <= q :: !MatchAt(m, s, q)
    decreases |m| - from
  {
    if from + |s| > |m| {
    } else if !MatchAt(m, s, from) {
      FindFromSpec(m, s, from + 1);
    }
  }

  /** The positions the loop of calculateSpam stops at: find from `from`,
      and after each match find again from its start plus the phrase length. */
  function Matches(m: string, s: string, from: nat): seq<nat>
    requires |s| > 0
    decreases |m| + 1 - from
  {
    match FindFrom(m, s, from)
    case None => []
    case Some(i) => [i] + Matches(m, s, i + |s|)
  }

  /** Each position of ps is a match of s in m at or after from. */
  predicate MatchesFrom(m: string, s: string, from: nat, ps: seq<nat>) {
    forall k | 0 <= k < |ps| :: from <= ps[k] && MatchAt(m, s, ps[k])
  }

  /** Each position of ps starts at least len after the one before. */
  predicate Spaced(ps: seq<nat>, len: nat) {
    forall k | 0 < k < |ps| :: ps[k - 1] + len <= ps[k]
  }

  /** Every counted position is a match at or after from, and each starts
      at least a phrase length after the one before: the counted
      occurrences do not overlap. */
  lemma {:induction false} MatchesSound(m: string, s: string, from: nat)
    requires |s| > 0
    ensures MatchesFrom(m, s, from, Matches(m, s, from)) && Spaced(Matches(m, s, from), |s|)
    decreases |m| + 1 - from
  {
    match FindFrom(m, s, from)
    case None =>
    case Some(i) =>
      var next := i + |s|;
      MatchesSound(m, s, next);
      var ps := Matches(m, s, from);
      var rest := Matches(m, s, next);
      assert ps == [i] + rest;
      forall k | 0 <= k < |ps| ensures from <= ps[k] && MatchAt(m, s, ps[k]) {
        if k > 0 {
          assert ps[k] == rest[k - 1];
        }
      }
      forall k | 0 < k < |ps| ensures ps[k - 1] + |s| <= ps[k] {
        if k > 1 {
          assert ps[k - 1] == rest[k - 2] && ps[k] == rest[k - 1];
        } else if |rest| > 0 {
          assert ps[k] == rest[0];
        }
      }
  }

  /** No occurrence is missed: every match at or after from starts inside
      the span of a counted one (which is itself when it is counted). */
  lemma {:induction false} MatchesCover(m: string, s: string, from: nat, q: nat)
    requires |s| > 0 && from <= q && MatchAt(m, s, q)
    ensures exists k | 0 <= k < |Matches(m, s, from)| :: Matches(m, s, from)[k] <= q < Matches(m, s, from)[k] + |s|
    decreases |m| + 1 - from
  {
    FindFromSpec(m, s, from);
    match FindFrom(m, s, from)
    case None =>
    case Some(i) =>
      var next := i + |s|;
      var ps := Matches(m, s, from);
      var rest := Matches(m, s, next);
      assert ps == [i] + rest;
      assert i <= q;
      if q < next {
        assert ps[0] <= q < ps[0] + |s|;
      } else {
        MatchesCover(m, s, next, q);
        var k :| 0 <= k < |rest| && rest[k] <= q < rest[k] + |s|;
        assert ps[k + 1] == rest[k];
      }
  }

  /** The count is zero exactly when the phrase does not occur. */
  lemma NoMatchesIff(m: string, s: string)
    requires |s| > 0
    ensures Matches(m, s, 0) == [] <==> forall q :: !MatchAt(m, s, q)
  {
    FindFromSpec(m, s, 0);
  }

  /** Non-overlapping occurrences fit in the message. */
  lemma {:induction false} MatchesBound(m: string, s: string, from: nat)
    requires |s| > 0 && from <= |m|
    ensures |Matches(m, s, from)| * |s| <= |m| - from
    decreases |m| + 1 - from
  {
    match FindFrom(m, s, from)
    case None =>
    case Some(i) =>
      MatchesBound(m, s, i + |s|);
      var r := |Matches(m, s, i + |s|)|;
      assert |Matches(m, s, from)| == 1 + r;
      SuccTimes(r, |s|);
  }

  lemma SuccTimes(r: nat, l: nat)
    ensures (1 + r) * l == l + r * l
  {
  }

  /** The inner loop of calculateSpam: times is bumped once per find that
      does not return npos, each next find starting at the match plus the
      phrase length.  The phrase must not be empty, or find would return the
      same position forever. */
  method CountOccurrences(m: string, s: string) returns (times: nat)
    requires |s| > 0
    ensures times == |Matches(m, s, 0)|
  {
    times := 0;
    ghost var from := 0;
    ghost var all := Matches(m, s, from);
    var indexInMsg := FindFrom(m, s, 0);
    while indexInMsg.Some?
      invariant from <= |m| + 1 && indexInMsg == FindFrom(m, s, from)
      invariant times + |Matches(m, s, from)| == |all|
      decreases |m| + 1 - from
    {
      var next := indexInMsg.value + |s|;
      MatchesStep(m, s, from);
      times := times + 1;
      from := next;
      indexInMsg := FindFrom(m, s, next);
    }
    MatchesStep(m, s, from);
  }

  /** One step of Matches. */
  lemma MatchesStep(m: string, s: string, from: nat)
    requires |s| > 0
    ensures FindFrom(m, s, from).None? ==> |Matches(m, s, from)| == 0
    ensures FindFrom(m, s, from).Some? ==>
              var i := FindFrom(m, s, from).value;
              i + |s| <= |m| && |Matches(m, s, from)| == 1 + |Matches(m, s, i + |s|)|
  {
  }

  // ------------------------------------------------------------------
  // Rows of the database and the score

  /** The acceptance rule of fromFileToHash on the fields of one CSV row:
      exactly two fields, both non-empty, the second a digit string. */
  predicate RowOk(fields: seq<string>) {
    |fields| == 2 && |fields[0]| >= 1 && |fields[1]| >= 1 && IsNumber(fields[1])
  }

  /** What every stored (phrase, score) pair satisfies once it was accepted. */
  predicate Accepted(es: seq<Entry<string, string>>) {
    forall e | e in es :: e.key != "" && IsNumber(e.value)
  }

  /** fromFileToHash on a table: the row is rejected, or its phrase is
      inserted with its score (insert keeps an existing binding). */
  function AddRow(t: Table<string, string>, hash: string -> nat, fields: seq<string>): (r: Outcome<Table<string, string>>)
    requires Shaped(t)
    ensures r.Done? ==> Shaped(r.value)
  {
    if !RowOk(fields) then Fail(InvalidRow)
    else Done(Insert(t, hash, fields[0], fields[1]).0)
  }

  /** A row is accepted iff it passes the rule; an accepted phrase is bound
      to its score unless it was already bound, in which case the first
      score stays; no other phrase changes, and every stored pair is still
      an accepted one. */
  lemma AddRowSpec(t: Table<string, string>, hash: string -> nat, fields: seq<string>)
    requires Valid(t, hash) && Accepted(Flatten(t.buckets))
    ensures AddRow(t, hash, fields).Done? <==> RowOk(fields)
    ensures AddRow(t, hash, fields).Fail? ==> AddRow(t, hash, fields).failure == InvalidRow
    ensures AddRow(t, hash, fields).Done? ==>
              var r := AddRow(t, hash, fields).value;
              && Valid(r, hash) && Accepted(Flatten(r.buckets))
              && Lookup(r.buckets, fields[0]) == (if Lookup(t.buckets, fields[0]).Some? then Lookup(t.buckets, fields[0]) else Some(fields[1]))
              && forall k | k != fields[0] :: Lookup(r.buckets, k) == Lookup(t.buckets, k)
  {
    if RowOk(fields) {
      InsertSpec(t, hash, fields[0], fields[1]);
      var r := Insert(t, hash, fields[0], fields[1]).0;
      forall e | e in Flatten(r.buckets) ensures e.key != "" && IsNumber(e.value) {
        assert e in multiset(Flatten(r.buckets));
        if r != t {
          assert e in multiset(Flatten(t.buckets)) || e == Entry(fields[0], fields[1]);
        }
      }
    }
  }

  /** loadDataBase over the lines of the file, from the state (table,
      firstLine) it starts in: an empty line while firstLine is set fails,
      an empty line later is skipped, any other line is tokenized and added,
      which clears firstLine. */
  function Load(t: Table<string, string>, hash: string -> nat, first: bool, lines: seq<string>,
                tokenize: string -> seq<string>): (r: Outcome<(Table<string, string>, bool)>)
    requires Shaped(t)
    ensures r.Done? ==> Shaped(r.value.0)
    decreases |lines|
  {
    if lines == [] then Done((t, first))
    else if lines[0] == "" then
      if first then Fail(FirstLineEmpty) else Load(t, hash, first, lines[1..], tokenize)
    else
      match AddRow(t, hash, tokenize(lines[0]))
      case Fail(f) => Fail(f)
      case Done(t') => Load(t', hash, false, lines[1..], tokenize)
  }

  /** The lines that are not empty. */
  function NonBlank(lines: seq<string>): (r: seq<string>)
    ensures forall i | 0 <= i < |r| :: r[i] != ""
  {
    if lines == [] then []
    else (if lines[0] == "" then [] else [lines[0]]) + NonBlank(lines[1..])
  }

  /** Loading succeeds iff the first line (if any, while firstLine is set)
      is not empty and every non-empty line is an acceptable row. */
  lemma {:induction false} LoadOkIff(t: Table<string, string>, hash: string -> nat, first: bool,
                                     lines: seq<string>, tokenize: string -> seq<string>)
    requires Shaped(t)
    ensures Load(t, hash, first, lines, tokenize).Done? <==>
              && (first && lines != [] ==> lines[0] != "")
              && forall i | 0 <= i < |lines| && lines[i] != "" :: RowOk(tokenize(lines[i]))
    decreases |lines|
  {
    if lines != [] {
      var rest := lines[1..];
      assert forall i | 0 <= i < |rest| :: rest[i] == lines[i + 1];
      if lines[0] == "" {
        if !first {
          LoadOkIff(t, hash, first, rest, tokenize);
        }
      } else if RowOk(tokenize(lines[0])) {
        LoadOkIff(AddRow(t, hash, tokenize(lines[0])).value, hash, false, rest, tokenize);
      }
    }
  }

  /** Once the first line is behind, empty lines change nothing: loading the
      lines is loading the non-empty ones. */
  lemma {:induction false} LoadSkipsBlank(t: Table<string, string>, hash: string -> nat,
                                          lines: seq<string>, tokenize: string -> seq<string>)
    requires Shaped(t)
    ensures Load(t, hash, false, lines, tokenize) == Load(t, hash, false, NonBlank(lines), tokenize)
    decreases |lines|
  {
    if lines != [] {
      var n := NonBlank(lines);
      if lines[0] == "" {
        assert n == NonBlank(lines[1..]);
        LoadSkipsBlank(t, hash, lines[1..], tokenize);
      } else {
        assert n == [lines[0]] + NonBlank(lines[1..]);
        assert n[0] == lines[0] && n[1..] == NonBlank(lines[1..]);
        match AddRow(t, hash, tokenize(lines[0]))
        case Fail(_) =>
        case Done(t') =>
          LoadSkipsBlank(t', hash, lines[1..], tokenize);
      }
    }
  }

  /** A load of a non-empty file that succeeds leaves at least one phrase in
      the table: while firstLine is set the first line must be a row, and a
      row, once stored, is never removed. */
  lemma {:induction false} LoadNonEmpty(t: Table<string, string>, hash: string -> nat, first: bool,
                                        lines: seq<string>, tokenize: string -> seq<string>)
    requires Valid(t, hash) && Accepted(Flatten(t.buckets)) && (first || t.size > 0)
    requires lines != [] && Load(t, hash, first, lines, tokenize).Done?
    ensures Load(t, hash, first, lines, tokenize).value.0.size > 0
    decreases |lines|
  {
    var rest := lines[1..];
    if lines[0] == "" {
      if rest != [] {
        LoadNonEmpty(t, hash, first, rest, tokenize);
      }
    } else {
      var fields := tokenize(lines[0]);
      AddRowSpec(t, hash, fields);
      InsertSpec(t, hash, fields[0], fields[1]);
      var t' := AddRow(t, hash, fields).value;
      if Lookup(t.buckets, fields[0]).Some? {
        LookupNoneIffEmpty(t.buckets);
      }
      assert t'.size > 0;
      if rest != [] {
        LoadNonEmpty(t', hash, false, rest, tokenize);
      }
    }
  }

  /** What loadMessage appends for the lines getline returns before end of
      file: each line followed by a newline. */
  function Joined(lines: seq<string>): string
    decreases |lines|
  {
    if lines == [] then "" else Joined(lines[..|lines| - 1]) + lines[|lines| - 1] + "\n"
  }

  /** Reading the message file in two parts appends the same text as
      reading it at once. */
  lemma {:induction false} JoinedAppend(a: seq<string>, b: seq<string>)
    ensures Joined(a + b) == Joined(a) + Joined(b)
    decreases |b|
  {
    if b != [] {
      var b' := b[..|b| - 1];
      assert (a + b)[..|a + b| - 1] == a + b' && (a + b)[|a + b| - 1] == b[|b| - 1];
      JoinedAppend(a, b');
    } else {
      assert a + b == a;
    }
  }

  /** The points a stored (phrase, score) pair earns in the lowered
      message m: its score times the occurrences of its lowered phrase.
      Every stored pair is an accepted one, so the last branch is never
      taken for a pair of the table. */
  function Earned(m: string): Entry<string, string> -> nat {
    (e: Entry<string, string>) => if e.key != "" && IsNumber(e.value) then DecimalValue(e.value) * |Matches(m, Lower(e.key), 0)| else 0
  }

  /** The sum of f over xs, from the front. */
  function Total<T>(xs: seq<T>, f: T -> nat): nat {
    if xs == [] then 0 else Total(xs[..|xs| - 1], f) + f(xs[|xs| - 1])
  }

  /** Every score fits std::stoi. */
  predicate InRange(es: seq<Entry<string, string>>) {
    forall i | 0 <= i < |es| :: AllDigits(es[i].value) && DecimalValue(es[i].value) <= IntMax
  }

  lemma {:induction false} TotalAppend<T>(a: seq<T>, b: seq<T>, f: T -> nat)
    ensures Total(a + b, f) == Total(a, f) + Total(b, f)
    decreases |b|
  {
    if b == [] {
      assert a + b == a;
    } else {
      var b' := b[..|b| - 1];
      assert (a + b)[..|a + b| - 1] == a + b';
      assert (a + b)[|a + b| - 1] == b[|b| - 1];
      TotalAppend(a, b', f);
    }
  }

  /** Taking the element at j out of xs takes its value out of the sum. */
  lemma TotalRemove<T>(xs: seq<T>, j: nat, f: T -> nat)
    requires j < |xs|
    ensures Total(xs, f) == Total(xs[..j] + xs[j + 1..], f) + f(xs[j])
  {
    var u, w, v := xs[..j], xs[j..], xs[j + 1..];
    TotalSplit(xs, j, f);
    TotalCons(w, f);
    assert w[1..] == v;
    TotalAppend(u, v, f);
  }

  lemma TotalSplit<T>(xs: seq<T>, j: nat, f: T -> nat)
    requires j <= |xs|
    ensures Total(xs, f) == Total(xs[..j], f) + Total(xs[j..], f)
  {
    assert xs == xs[..j] + xs[j..];
    TotalAppend(xs[..j], xs[j..], f);
  }

  lemma TotalCons<T>(w: seq<T>, f: T -> nat)
    requires w != []
    ensures Total(w, f) == f(w[0]) + Total(w[1..], f)
  {
    assert w == [w[0]] + w[1..];
    TotalAppend([w[0]], w[1..], f);
    assert [w[0]][..0] == [];
  }

  /** One more pair adds its own score to the running total. */
  lemma TotalNext(es: seq<Entry<string, string>>, n: nat, m: string)
    requires n < |es| && Accepted(es)
    ensures Total(es[..n + 1], Earned(m))
            == Total(es[..n], Earned(m)) + DecimalValue(es[n].value) * |Matches(m, Lower(es[n].key), 0)|
  {
    assert es[n] in es;
    assert es[..n + 1][..n] == es[..n];
  }

  lemma InRangeNext(es: seq<Entry<string, string>>, n: nat)
    requires n < |es| && InRange(es[..n]) && AllDigits(es[n].value) && DecimalValue(es[n].value) <= IntMax
    ensures InRange(es[..n + 1])
  {
    assert forall i | 0 <= i < n :: es[..n + 1][i] == es[..n][i];
  }

  lemma MultisetRemove<T>(xs: seq<T>, j: nat)
    requires j < |xs|
    ensures multiset(xs) == multiset(xs[..j] + xs[j + 1..]) + multiset{xs[j]}
  {
    assert xs == xs[..j] + [xs[j]] + xs[j + 1..];
  }

  /** The score does not depend on the order in which the pairs are
      visited: any permutation sums to the same total. */
  lemma {:induction false} TotalPermutation<T>(a: seq<T>, b: seq<T>, f: T -> nat)
    requires multiset(a) == multiset(b)
    ensures Total(a, f) == Total(b, f)
    decreases |a|
  {
    if a == [] {
      assert |b| == |multiset(b)| == 0;
    } else {
      var n := |a| - 1;
      var x := a[n];
      assert x in multiset(b);
      var j :| 0 <= j < |b| && b[j] == x;
      TotalRemove(a, n, f);
      TotalRemove(b, j, f);
      MultisetRemove(a, n);
      MultisetRemove(b, j);
      assert a[..n] + a[n + 1..] == a[..n];
      MultisetCancel(multiset(a[..n]), multiset{x}, multiset(b[..j] + b[j + 1..]));
      TotalPermutation(a[..n], b[..j] + b[j + 1..], f);
    }
  }

  // ------------------------------------------------------------------
  // The verdict and the threshold argument

  /** dedection: SPAM iff the score reaches the threshold. */
  function Classify(badPoints: int, threshold: int): (v: Verdict)
    ensures v == Spam <==> badPoints >= threshold
  {
    if badPoints >= threshold then Spam else NotSpam
  }

  /** A higher score never turns SPAM into NOT_SPAM, and a higher threshold
      never turns NOT_SPAM into SPAM. */
  lemma ClassifyMonotone(p1: int, p2: int, t1: int, t2: int)
    requires p1 <= p2 && t2 <= t1
    ensures Classify(p1, t1) == Spam ==> Classify(p2, t2) == Spam
  {
  }

  /** The threshold check of main: isNum, then std::stoi, then > 0. */
  method CheckThreshold(arg: string) returns (r: Outcome<int>)
    ensures r.Done? <==> IsNumber(arg) && 0 < DecimalValue(arg) <= IntMax
    ensures r.Done? ==> r.value == DecimalValue(arg)
    ensures r.Fail? ==> r.failure == (if IsNumber(arg) && DecimalValue(arg) > IntMax then OutOfRange else BadThreshold)
  {
    var ok := IsNum(arg);
    if !ok {
      return Fail(BadThreshold);
    }
    var threshold := Stoi(arg);
    if threshold.Fail? {
      return threshold;
    }
    if threshold.value <= 0 {
      return Fail(BadThreshold);
    }
    return threshold;
  }

  /** A digit string passes the threshold check iff it has a non-zero digit
      and denotes at most IntMax: "0" and "000" are refused. */
  lemma ThresholdNonZeroDigit(arg: string)
    requires IsNumber(arg) && DecimalValue(arg) <= IntMax
    ensures 0 < DecimalValue(arg) <==> exists i | 0 <= i < |arg| :: arg[i] != '0'
  {
    ValueZeroIff(arg);
  }

  // ------------------------------------------------------------------
  // The detector

  class SpamDetector {
    var msg: string
    const badWords: HashMap<string, string>
    var threshold: int
    var badPoints: int
    var firstLine: bool

    /** The phrase table is a valid map whose pairs were all accepted. */
    ghost predicate Valid()
      reads this, badWords, badWords.table
    {
      badWords.Valid() && Accepted(Flatten(badWords.table[..]))
    }

    /** `SpamDetector(threshold, points, msg)`: the phrase table is default
        constructed and then assigned a default-constructed temporary;
        hash is std::hash<std::string>. */
    constructor (threshold: int, points: int, msg: string, hash: string -> nat)
      ensures Valid() && fresh(badWords) && fresh(badWords.table)
      ensures badWords.State() == Empty() && badWords.hash == hash
      ensures this.threshold == threshold && badPoints == points && this.msg == msg && firstLine
    {
      this.msg := msg;
      this.threshold := threshold;
      badPoints := points;
      firstLine := true;
      badWords := new HashMap(hash, "");
      new;
      var empty := new HashMap(hash, "");
      badWords.Assign(empty);
      EmptyBucketsFlatten(badWords.table[..]);
    }

    /** `fromFileToHash` on the fields the tokenizer produced from a line. */
    method FromFileToHash(fields: seq<string>) returns (r: Outcome<()>)
      requires Valid()
      modifies badWords, badWords.table
      ensures Valid() && (badWords.table == old(badWords.table) || fresh(badWords.table))
      ensures var want := AddRow(old(badWords.State()), badWords.hash, fields);
              && (r.Done? <==> want.Done?)
              && (r.Fail? ==> r.failure == want.failure && badWords.State() == old(badWords.State()))
              && (want.Done? ==> badWords.State() == want.value)
    {
      ghost var t := badWords.State();
      AddRowSpec(t, badWords.hash, fields);
      var ok := |fields| == 2 && |fields[0]| >= 1 && |fields[1]| >= 1;
      if ok {
        ok := IsNum(fields[1]);
      }
      if !ok {
        return Fail(InvalidRow);
      }
      var _ := badWords.Insert(fields[0], fields[1]);
      return Done(());
    }

    /** `loadDataBase` over the lines of the database file; tokenize is the
        boost CSV tokenizer.  Stops at the first failure. */
    method LoadDataBase(lines: seq<string>, tokenize: string -> seq<string>) returns (r: Outcome<()>)
      requires Valid()
      modifies this`firstLine, badWords, badWords.table
      ensures Valid() && (badWords.table == old(badWords.table) || fresh(badWords.table))
      ensures msg == old(msg) && threshold == old(threshold) && badPoints == old(badPoints)
      ensures var want := Load(old(badWords.State()), badWords.hash, old(firstLine), lines, tokenize);
              && (r.Done? <==> want.Done?)
              && (r.Fail? ==> r.failure == want.failure)
              && (want.Done? ==> badWords.State() == want.value.0 && firstLine == want.value.1)
    {
      ghost var want := Load(badWords.State(), badWords.hash, firstLine, lines, tokenize);
      var i := 0;
      while i < |lines|
        invariant 0 <= i <= |lines|
        invariant Valid() && (badWords.table == old(badWords.table) || fresh(badWords.table))
        invariant Load(badWords.State(), badWords.hash, firstLine, lines[i..], tokenize) == want
      {
        var line := lines[i];
        assert lines[i..][1..] == lines[i + 1..];
        i := i + 1;
        if line == "" && firstLine {
          return Fail(FirstLineEmpty);
        }
        if line == "" && !firstLine {
          continue;
        }
        firstLine := false;
        r := FromFileToHash(tokenize(line));
        if r.Fail? {
          return;
        }
      }
      return Done(());
    }

    /** `loadMessage` over the lines getline returns before end of file: each
        line and a newline are appended to the message. */
    method LoadMessage(lines: seq<string>)
      modifies this`msg
      ensures msg == old(msg) + Joined(lines)
    {
      var i := 0;
      while i < |lines|
        invariant 0 <= i <= |lines|
        invariant msg == old(msg) + Joined(lines[..i])
      {
        assert lines[..i + 1][..i] == lines[..i];
        msg := msg + lines[i] + "\n";
        i := i + 1;
      }
      assert lines[..i] == lines;
    }

    /** `calculateSpam`: the message is lowered in place, the score starts
        at 0 and, for each pair in iteration order, gains the score times the
        occurrences of the lowered phrase.  A score above IntMax makes
        std::stoi throw. */
    method CalculateSpam() returns (r: Outcome<()>)
      requires Valid() && badWords.size > 0
      modifies this`msg, this`badPoints
      ensures Valid() && badWords.State() == old(badWords.State())
      ensures threshold == old(threshold) && firstLine == old(firstLine)
      ensures msg == Lower(old(msg))
      ensures r.Done? <==> InRange(Flatten(badWords.table[..]))
      ensures r.Fail? ==> r.failure == OutOfRange
      ensures r.Done? ==> badPoints == Total(Flatten(badWords.table[..]), Earned(msg))
    {
      badPoints := 0;
      msg := Lower(msg);
      ghost var bs := badWords.table[..];
      var it := badWords.Begin();
      var stop := badWords.End();
      r := ScoreAll(it, stop, bs);
    }

    /** The loop of calculateSpam, from begin to end. */
    method ScoreAll(it: ConstIterator<string, string>, stop: ConstIterator<string, string>,
                    ghost bs: seq<seq<Entry<string, string>>>) returns (r: Outcome<()>)
      requires it != stop && it.hashMap == badWords && badPoints == 0
      requires badWords.table.Length == badWords.capacity && badWords.table[..] == bs && Accepted(Flatten(bs))
      requires Reached(bs, it.Position(), 0) && Reached(bs, stop.Position(), |Flatten(bs)|)
      modifies this`badPoints, it
      ensures r.Done? <==> InRange(Flatten(bs))
      ensures r.Fail? ==> r.failure == OutOfRange
      ensures r.Done? ==> badPoints == Total(Flatten(bs), Earned(msg))
    {
      ghost var F := Flatten(bs);
      ghost var last := stop.Position();
      ghost var n := 0;
      assert Reached(bs, last, |F|) && Accepted(F);
      while it.NotEquals(stop)
        invariant n <= |F| && Reached(bs, it.Position(), n) && stop.Position() == last
        invariant InRange(F[..n]) && badPoints == Total(F[..n], Earned(msg))
        decreases |F| - n
      {
        var ok := ScoreEntry(it, bs, n, last);
        if !ok {
          return Fail(OutOfRange);
        }
        n := n + 1;
      }
      AtEnd(bs, it.Position(), last, n);
      assert F[..n] == F;
      return Done(());
    }

    /** The body of calculateSpam's loop: the lowered phrase at the iterator
        is counted in the message, its score parsed (which fails above
        IntMax) and their product added; then `++it`. */
    method ScoreEntry(it: ConstIterator<string, string>, ghost bs: seq<seq<Entry<string, string>>>,
                      ghost n: nat, ghost last: Cursor) returns (ok: bool)
      requires it.hashMap == badWords && badWords.table.Length == badWords.capacity
      requires badWords.table[..] == bs && Accepted(Flatten(bs)) && n <= |Flatten(bs)|
      requires Reached(bs, it.Position(), n) && Reached(bs, last, |Flatten(bs)|) && !SamePosition(it.Position(), last)
      requires InRange(Flatten(bs)[..n]) && badPoints == Total(Flatten(bs)[..n], Earned(msg))
      modifies this`badPoints, it
      ensures n < |Flatten(bs)|
      ensures ok <==> DecimalValue(Flatten(bs)[n].value) <= IntMax
      ensures ok ==> && Reached(bs, it.Position(), n + 1) && InRange(Flatten(bs)[..n + 1])
                     && badPoints == Total(Flatten(bs)[..n + 1], Earned(msg))
    {
      ghost var F := Flatten(bs);
      AtEnd(bs, it.Position(), last, n);
      Step(bs, it.Position(), n);
      var e := it.Deref();
      assert e == F[n] && e in F;
      var s := Lower(e.key);
      var times := CountOccurrences(msg, s);
      var points := Stoi(e.value);
      if points.Fail? {
        return false;
      }
      TotalNext(F, n, msg);
      InRangeNext(F, n);
      badPoints := badPoints + points.value * times;
      it.Next();
      return true;
    }

    /** `dedection`: the verdict printed for the current score. */
    method Dedection() returns (v: Verdict)
      ensures v == Spam <==> badPoints >= threshold
    {
      return Classify(badPoints, threshold);
    }
  }

  /** The tail of main once the arguments and files have been checked: a
      detector with the threshold, no points and main's message " ", then
      loadDataBase, loadMessage, calculateSpam and dedection.  A rejected
      database (hashExceptions) or a score beyond IntMax (std::stoi) ends in
      failure.  The database has at least one line, since main stops early on
      an empty file. */
  method Detect(threshold: int, hash: string -> nat, lines: seq<string>, tokenize: string -> seq<string>,
                msgLines: seq<string>) returns (r: Outcome<Verdict>)
    requires lines != []
    ensures var load := Load(Empty(), hash, true, lines, tokenize);
            && (load.Fail? ==> r == Fail(load.failure))
            && (load.Done? ==> var pairs := Flatten(load.value.0.buckets);
                               && (r.Done? <==> InRange(pairs))
                               && (r.Fail? ==> r.failure == OutOfRange)
                               && (r.Done? ==> (r.value == Spam <==> Total(pairs, Earned(Lower(" " + Joined(msgLines)))) >= threshold)))
  {
    var d := new SpamDetector(threshold, 0, " ", hash);
    var loaded := d.LoadDataBase(lines, tokenize);
    if loaded.Fail? {
      return Fail(loaded.failure);
    }
    d.LoadMessage(msgLines);
    EmptyValid<string, string>(hash);
    LoadNonEmpty(Empty(), hash, true, lines, tokenize);
    var scored := d.CalculateSpam();
    if scored.Fail? {
      return Fail(scored.failure);
    }
    var v := d.Dedection();
    return Done(v);
  }
}
