/** Source positions of the script front end: `Pos`, `Span`, their equality,
    partial ordering and `Debug` renderings, and the line/column rule by which
    a scanner moves a position over one character (src/script/span.rs). */
module ScriptSpan {

  datatype Option<+T> = None | Some(value: T)

  /** The outcome of comparing two values (Rust's `core::cmp::Ordering`). */
  datatype Ordering = Less | Equal | Greater

  /** An interned file name. The model can only compare two handles for
      equality; the text behind a handle is never looked at. */
  datatype Symbol = Symbol(handle: nat)

  /** A place in a script: 1-based row and column, 0-based character index
      and the file it belongs to. `Pos::new` is this constructor. */
  datatype Pos = Pos(row: nat, col: nat, idx: nat, file: Symbol)

  /** A start/end pair of positions. `Span::new_simple` is this constructor:
      it checks nothing about the two ends. */
  datatype Span = Span(start: Pos, end: Pos)

  // ---------------------------------------------------------------------
  // Equality and ordering

  /** `usize::cmp`. */
  function Cmp(a: nat, b: nat): (o: Ordering)
    ensures o == Less <==> a < b
    ensures o == Equal <==> a == b
    ensures o == Greater <==> a > b
  {
    if a < b then Less else if a == b then Equal else Greater
  }

  /** `PartialEq for Pos`: same file, row and column. */
  predicate Eq(p: Pos, q: Pos)
    ensures Eq(p, q) <==> p.(idx := 0) == q.(idx := 0)
  {
    p.file == q.file && p.row == q.row && p.col == q.col
  }

  /** `PartialOrd for Pos`: no order across files, otherwise row first and
      then column. */
  function PartialCmp(p: Pos, q: Pos): (o: Option<Ordering>)
    ensures o.Some? <==> p.file == q.file
    ensures o == Some(Equal) <==> Eq(p, q)
  {
    if p.file != q.file then None
    else
      match Cmp(p.row, q.row)
      case Equal => Some(Cmp(p.col, q.col))
      case other => Some(other)
  }

  /** `p < q` as Rust derives it from `partial_cmp`. */
  predicate Lt(p: Pos, q: Pos)
    ensures Lt(p, q) <==> p.file == q.file && (p.row < q.row || (p.row == q.row && p.col < q.col))
  {
    PartialCmp(p, q) == Some(Less)
  }

  /** `p <= q` as Rust derives it from `partial_cmp`. */
  predicate Le(p: Pos, q: Pos)
    ensures Le(p, q) <==> p.file == q.file && (p.row < q.row || (p.row == q.row && p.col <= q.col))
  {
    PartialCmp(p, q) == Some(Less) || PartialCmp(p, q) == Some(Equal)
  }

  /** Equality looks at everything except the character index. */
  lemma EqIgnoresIdx(p: Pos, q: Pos)
    ensures Eq(p, q) <==> p.(idx := 0) == q.(idx := 0)
    ensures Eq(p, p.(idx := q.idx))
  {
  }

  /** Equality is an equivalence relation. */
  lemma EqIsEquivalence(p: Pos, q: Pos, r: Pos)
    ensures Eq(p, p)
    ensures Eq(p, q) ==> Eq(q, p)
    ensures Eq(p, q) && Eq(q, r) ==> Eq(p, r)
  {
  }

  /** Positions in different files are neither ordered nor equal. */
  lemma DifferentFilesIncomparable(p: Pos, q: Pos)
    requires p.file != q.file
    ensures PartialCmp(p, q) == None
    ensures !Eq(p, q) && !Lt(p, q) && !Le(p, q)
  {
  }

  /** Within one file the order is total: comparison fails only across files. */
  lemma ComparableIffSameFile(p: Pos, q: Pos)
    ensures PartialCmp(p, q).Some? <==> p.file == q.file
  {
  }

  /** The order agrees with equality: `Some(Equal)` exactly when `eq` holds. */
  lemma PartialCmpEqualIffEq(p: Pos, q: Pos)
    ensures PartialCmp(p, q) == Some(Equal) <==> Eq(p, q)
  {
  }

  /** Within one file the order is lexicographic on (row, col). */
  lemma PartialCmpLexicographic(p: Pos, q: Pos)
    ensures Lt(p, q) <==> p.file == q.file && (p.row < q.row || (p.row == q.row && p.col < q.col))
    ensures PartialCmp(p, q) == Some(Greater) <==>
              p.file == q.file && (p.row > q.row || (p.row == q.row && p.col > q.col))
  {
  }

  /** Comparing the other way round gives the opposite answer. */
  lemma PartialCmpDual(p: Pos, q: Pos)
    ensures PartialCmp(p, q) == Some(Less) <==> PartialCmp(q, p) == Some(Greater)
    ensures PartialCmp(p, q) == Some(Equal) <==> PartialCmp(q, p) == Some(Equal)
    ensures PartialCmp(p, q) == None <==> PartialCmp(q, p) == None
  {
  }

  /** `<=` is antisymmetric up to `eq`, and `<` and `<=` are transitive. */
  lemma OrderLaws(p: Pos, q: Pos, r: Pos)
    ensures Le(p, q) && Le(q, p) ==> Eq(p, q)
    ensures Lt(p, q) ==> !Lt(q, p) && !Eq(p, q)
    ensures Lt(p, q) && Lt(q, r) ==> Lt(p, r)
    ensures Le(p, q) && Le(q, r) ==> Le(p, r)
  {
  }

  /** The comparison only sees a position up to `eq`. */
  lemma PartialCmpRespectsEq(p: Pos, p': Pos, q: Pos)
    requires Eq(p, p')
    ensures PartialCmp(p, q) == PartialCmp(p', q)
    ensures PartialCmp(q, p) == PartialCmp(q, p')
  {
  }

  // ---------------------------------------------------------------------
  // Moving a position over the characters a scanner consumes

  /** The position after the character `c` that occurs at `p`: a newline
      moves to column 1 of the next row, any other character one column to
      the right; the index counts one more character and the file stays. */
  function Advance(p: Pos, c: char): (r: Pos)
    ensures r.file == p.file && r.idx == p.idx + 1
    ensures c == '\n' ==> r.row == p.row + 1 && r.col == 1
    ensures c != '\n' ==> r.row == p.row && r.col == p.col + 1
    ensures Lt(p, r)
  {
    if c == '\n' then Pos(p.row + 1, 1, p.idx + 1, p.file)
    else Pos(p.row, p.col + 1, p.idx + 1, p.file)
  }

  /** The position reached from `p` by consuming the characters of `s` in order. */
  function PosAfter(p: Pos, s: seq<char>): Pos
    decreases |s|
  {
    if s == [] then p else Advance(PosAfter(p, s[..|s| - 1]), s[|s| - 1])
  }

  /** Where consuming `s` from `p` ends up, without replaying it: the index
      grows by `|s|`, the row by the number of newlines in `s`, and the
      column counts the characters after the last newline (from `p.col` when
      `s` holds no newline, from column 1 otherwise). */
  lemma {:induction false} PosAfterClosedForm(p: Pos, s: seq<char>)
    ensures PosAfter(p, s).file == p.file
    ensures PosAfter(p, s).idx == p.idx + |s|
    ensures PosAfter(p, s).row == p.row + multiset(s)['\n']
    ensures '\n' !in s ==> PosAfter(p, s).col == p.col + |s|
    ensures forall k :: 0 <= k < |s| && s[k] == '\n' && '\n' !in s[k + 1..] ==>
              PosAfter(p, s).col == |s| - k
  {
    if s != [] {
      var n := |s|;
      var init, c := s[..n - 1], s[n - 1];
      assert s == init + [c];
      PosAfterClosedForm(p, init);
      assert multiset(s) == multiset(init) + multiset{c};
      forall k | 0 <= k < n && s[k] == '\n' && '\n' !in s[k + 1..]
        ensures PosAfter(p, s).col == n - k
      {
        if k < n - 1 {
          assert s[n - 1] in s[k + 1..];
          assert s[k + 1..] == init[k + 1..] + [c];
          assert init[k] == '\n';
        }
      }
    }
  }

  /** Consuming characters from a 1-based position keeps row and column 1-based. */
  lemma {:induction false} PosAfterOneBased(p: Pos, s: seq<char>)
    requires p.row >= 1 && p.col >= 1
    ensures PosAfter(p, s).row >= 1 && PosAfter(p, s).col >= 1
    decreases |s|
  {
    if s != [] {
      PosAfterOneBased(p, s[..|s| - 1]);
    }
  }

  /** Consuming `s` and then `t` is consuming `s + t`. */
  lemma {:induction false} PosAfterConcat(p: Pos, s: seq<char>, t: seq<char>)
    ensures PosAfter(p, s + t) == PosAfter(PosAfter(p, s), t)
    decreases |t|
  {
    if t == [] {
      assert s + t == s;
    } else {
      var st := s + t;
      assert st[..|st| - 1] == s + t[..|t| - 1];
      assert st[|st| - 1] == t[|t| - 1];
      PosAfterConcat(p, s, t[..|t| - 1]);
    }
  }

  /** Consuming at least one character always moves strictly forward. */
  lemma {:induction false} PosAfterAdvances(p: Pos, s: seq<char>)
    requires s != []
    ensures Lt(p, PosAfter(p, s))
    decreases |s|
  {
    var init := s[..|s| - 1];
    if init != [] {
      PosAfterAdvances(p, init);
      OrderLaws(p, PosAfter(p, init), PosAfter(p, s));
    }
  }

  /** The positions of the characters of one input strictly increase, so two
      of them at different indices are never equal. */
  lemma PrefixPositionsIncrease(p: Pos, s: seq<char>, i: nat, j: nat)
    requires i < j <= |s|
    ensures Lt(PosAfter(p, s[..i]), PosAfter(p, s[..j]))
    ensures !Eq(PosAfter(p, s[..i]), PosAfter(p, s[..j]))
  {
    assert s[..j] == s[..i] + s[i..j];
    PosAfterConcat(p, s[..i], s[i..j]);
    PosAfterAdvances(PosAfter(p, s[..i]), s[i..j]);
  }

  // ---------------------------------------------------------------------
  // Debug renderings: "row:col" and "(start - end)"

  predicate IsDigit(c: char)
  {
    '0' <= c <= '9'
  }

  predicate AllDigits(s: string)
  {
    forall i :: 0 <= i < |s| ==> IsDigit(s[i])
  }

  /** The decimal numeral of `n`, as `{}` formats a `usize`. */
  function Decimal(n: nat): (s: string)
    ensures |s| >= 1 && AllDigits(s)
    decreases n
  {
    if n < 10 then [('0' as int + n) as char]
    else Decimal(n / 10) + [('0' as int + n % 10) as char]
  }

  /** The number a string of decimal digits denotes. */
  function DecimalValue(s: string): nat
    requires AllDigits(s)
    decreases |s|
  {
    if s == [] then 0
    else DecimalValue(s[..|s| - 1]) * 10 + (s[|s| - 1] as int - '0' as int)
  }

  /** Reading back a numeral gives the number it was made from. */
  lemma {:induction false} DecimalRoundTrip(n: nat)
    ensures DecimalValue(Decimal(n)) == n
    decreases n
  {
    var s := Decimal(n);
    if n >= 10 {
      DecimalRoundTrip(n / 10);
      assert s[..|s| - 1] == Decimal(n / 10);
    }
  }

  /** `Debug for Pos`: "row:col". */
  function PosDebug(p: Pos): (r: string)
    ensures |r| >= 3 && ':' in r
    ensures forall i :: 0 <= i < |r| ==> IsDigit(r[i]) || r[i] == ':'
  {
    var a, b := Decimal(p.row), Decimal(p.col);
    assert (a + ":" + b)[|a|] == ':';
    a + ":" + b
  }

  /** `Debug for Span`: "(start - end)". */
  function SpanDebug(s: Span): (r: string)
    ensures |r| >= 11 && r[0] == '(' && r[|r| - 1] == ')'
  {
    "(" + PosDebug(s.start) + " - " + PosDebug(s.end) + ")"
  }

  /** A string that does not contain `sep` is recovered from `a + [sep] + b`. */
  lemma SplitAtFirst(a: string, b: string, c: string, d: string, sep: char)
    requires sep !in a && sep !in c
    requires a + [sep] + b == c + [sep] + d
    ensures a == c && b == d
  {
    var x, y := a + [sep] + b, c + [sep] + d;
    assert forall i :: 0 <= i < |a| ==> x[i] == a[i] != sep;
    assert forall i :: 0 <= i < |c| ==> y[i] == c[i] != sep;
    assert x[|a|] == sep && y[|c|] == sep;
    assert a == x[..|a|] && c == y[..|c|];
    assert b == x[|a| + 1..] && d == y[|c| + 1..];
  }

  /** The rendering of a position shows exactly its row and column: two
      positions print alike exactly when they agree on both. */
  lemma PosDebugShowsRowCol(p: Pos, q: Pos)
    ensures PosDebug(p) == PosDebug(q) <==> p.row == q.row && p.col == q.col
    ensures Eq(p, q) ==> PosDebug(p) == PosDebug(q)
  {
    if PosDebug(p) == PosDebug(q) {
      SplitAtFirst(Decimal(p.row), Decimal(p.col), Decimal(q.row), Decimal(q.col), ':');
      DecimalRoundTrip(p.row);
      DecimalRoundTrip(q.row);
      DecimalRoundTrip(p.col);
      DecimalRoundTrip(q.col);
    }
  }

  /** A position's rendering holds digits and one ':', never a space. */
  lemma PosDebugHasNoSpace(p: Pos)
    ensures ' ' !in PosDebug(p)
  {
    var r := PosDebug(p);
    forall i | 0 <= i < |r| ensures r[i] != ' ' {
      if i < |Decimal(p.row)| {
        assert r[i] == Decimal(p.row)[i];
      } else if i > |Decimal(p.row)| {
        assert r[i] == Decimal(p.col)[i - |Decimal(p.row)| - 1];
      }
    }
  }

  /** A span's rendering after its opening parenthesis, cut at the first space. */
  lemma SpanDebugTail(s: Span)
    ensures SpanDebug(s)[1..] == PosDebug(s.start) + [' '] + ("- " + PosDebug(s.end) + ")")
  {
    var a, b := PosDebug(s.start), PosDebug(s.end);
    assert SpanDebug(s) == "(" + (a + [' '] + ("- " + b + ")"));
  }

  /** The rendering of a span shows exactly the rows and columns of its two ends. */
  lemma SpanDebugShowsEnds(s: Span, t: Span)
    ensures SpanDebug(s) == SpanDebug(t) <==>
              s.start.row == t.start.row && s.start.col == t.start.col &&
              s.end.row == t.end.row && s.end.col == t.end.col
  {
    PosDebugShowsRowCol(s.start, t.start);
    PosDebugShowsRowCol(s.end, t.end);
    if SpanDebug(s) == SpanDebug(t) {
      var a, b, c, d := PosDebug(s.start), PosDebug(s.end), PosDebug(t.start), PosDebug(t.end);
      SpanDebugTail(s);
      SpanDebugTail(t);
      PosDebugHasNoSpace(s.start);
      PosDebugHasNoSpace(t.start);
      var b', d' := "- " + b + ")", "- " + d + ")";
      SplitAtFirst(a, b', c, d', ' ');
      assert b == b'[2..|b'| - 1];
      assert d == d'[2..|d'| - 1];
    }
  }
}
