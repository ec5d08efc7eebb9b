/** Conflict records: an ambiguous parse decision, described by the display
    names and precedences involved, and its human-readable text. */
module Conflicts {

  /** One recorded ambiguity. Names are display names, already looked up. */
  datatype Conflict =
    | ShiftReduce(lookahead: string, shiftPrecedences: set<int>,
                  reduceSymbol: string, reducePrecedence: int)
    | ReduceReduce(lookahead: string, candidateSymbol: string, candidatePrecedence: int,
                   existingSymbol: string, existingPrecedence: int)

  /** The text shown to the grammar author. The shift's precedences are listed
      in ascending order, separated by ", "; a reduce/reduce record names the
      candidate's symbol first. */
  function Render(c: Conflict): (r: string)
    ensures c.ShiftReduce? ==> c.lookahead + ": shift (precedence " <= r
    ensures c.ReduceReduce? ==> c.lookahead + ": reduce " + c.candidateSymbol + " (precedence " <= r
    ensures |r| > 0 && r[|r| - 1] == ')'
  {
    match c
    case ShiftReduce(la, s, sym, p) =>
      la + ": shift (precedence " + JoinInts(SortedElements(s)) + ") / reduce "
      + sym + " (precedence " + IntToString(p) + ")"
    case ReduceReduce(la, cs, cp, es, ep) =>
      la + ": reduce " + cs + " (precedence " + IntToString(cp) + ") / reduce "
      + es + " (precedence " + IntToString(ep) + ")"
  }

  // ---------------------------------------------------------------------------
  // Decimal text of integers

  predicate IsDigit(ch: char) { '0' <= ch <= '9' }

  function DigitChar(d: nat): (ch: char)
    requires d < 10
    ensures IsDigit(ch) && ch as int - '0' as int == d
  {
    "0123456789"[d]
  }

  /** The decimal digits of `n`, most significant first, with no leading zero. */
  function NatToString(n: nat): (r: string)
    ensures |r| > 0 && forall i :: 0 <= i < |r| ==> IsDigit(r[i])
    ensures |r| > 1 ==> r[0] != '0'
  {
    if n < 10 then [DigitChar(n)]
    else NatToString(n / 10) + [DigitChar(n % 10)]
  }

  /** Decimal text of an integer, with a leading '-' when it is negative. */
  function IntToString(i: int): string
  {
    if i < 0 then "-" + NatToString(-i) else NatToString(i)
  }

  /** The value of a string of decimal digits (the inverse of NatToString). */
  function DigitsValue(s: string): int
  {
    if s == [] then 0
    else DigitsValue(s[..|s| - 1]) * 10 + (s[|s| - 1] as int - '0' as int)
  }

  /** The value of decimal text with an optional leading '-'. */
  function ParseInt(s: string): int
  {
    if |s| > 0 && s[0] == '-' then -DigitsValue(s[1..]) else DigitsValue(s)
  }

  lemma {:induction false} NatToStringRoundTrip(n: nat)
    ensures DigitsValue(NatToString(n)) == n
  {
    if n >= 10 {
      var r := NatToString(n);
      NatToStringRoundTrip(n / 10);
      assert r[..|r| - 1] == NatToString(n / 10);
    }
  }

  /** Reading back the rendered precedence gives the precedence: distinct
      precedences are never rendered alike. */
  lemma IntToStringRoundTrip(i: int)
    ensures ParseInt(IntToString(i)) == i
  {
    if i < 0 {
      NatToStringRoundTrip(-i);
      assert IntToString(i)[1..] == NatToString(-i);
    } else {
      NatToStringRoundTrip(i);
    }
  }

  lemma IntToStringInjective(i: int, j: int)
    ensures IntToString(i) == IntToString(j) ==> i == j
  {
    IntToStringRoundTrip(i);
    IntToStringRoundTrip(j);
  }

  // ---------------------------------------------------------------------------
  // Precedence sets in ascending order

  predicate StrictlyIncreasing(r: seq<int>)
  {
    forall i, j :: 0 <= i < j < |r| ==> r[i] < r[j]
  }

  predicate IsLeast(m: int, s: set<int>)
  {
    m in s && forall x :: x in s ==> m <= x
  }

  lemma {:induction false} LeastExists(s: set<int>)
    requires s != {}
    ensures exists m :: IsLeast(m, s)
    decreases |s|
  {
    if forall y :: y !in s {
      assert false;
    }
    var x :| x in s;
    if s == {x} {
      assert IsLeast(x, s);
    } else {
      LeastExists(s - {x});
      var m :| IsLeast(m, s - {x});
      var least := if x < m then x else m;
      forall y | y in s ensures least <= y {
        if y != x {
          assert y in s - {x};
        }
      }
      assert IsLeast(least, s);
    }
  }

  /** The elements of `s` in ascending order. */
  function SortedElements(s: set<int>): (r: seq<int>)
    ensures StrictlyIncreasing(r)
    ensures forall x :: x in r <==> x in s
    decreases |s|
  {
    if s == {} then []
    else
      LeastExists(s);
      var m :| IsLeast(m, s);
      [m] + SortedElements(s - {m})
  }

  /** Only one strictly increasing sequence lists a given set, so the rendered
      precedence list is determined by the set alone. */
  lemma {:induction false} StrictlyIncreasingUnique(a: seq<int>, b: seq<int>)
    requires StrictlyIncreasing(a) && StrictlyIncreasing(b)
    requires forall x :: x in a <==> x in b
    ensures a == b
  {
    if a != [] && b != [] {
      assert a[0] in a && b[0] in b;
      assert a[0] in b && b[0] in a;
      assert a[0] == b[0];
      forall x | x in a[1..] ensures x in b[1..] {
        assert x in b && x != b[0];
      }
      forall x | x in b[1..] ensures x in a[1..] {
        assert x in a && x != a[0];
      }
      StrictlyIncreasingUnique(a[1..], b[1..]);
    } else if a != [] {
      HeadIsElement(a);
      assert false;
    } else if b != [] {
      HeadIsElement(b);
      assert false;
    }
  }

  /** A step the solver does not take by itself when its other facts clash:
      a non-empty sequence holds its head. */
  lemma HeadIsElement(s: seq<int>)
    ensures s != [] ==> s[0] in s
  {
  }

  lemma SortedElementsOf(s: set<int>, r: seq<int>)
    requires StrictlyIncreasing(r) && forall x :: x in r <==> x in s
    ensures SortedElements(s) == r
  {
    StrictlyIncreasingUnique(SortedElements(s), r);
  }

  /** `xs` in decimal, separated by ", ". */
  function JoinInts(xs: seq<int>): string
  {
    if xs == [] then ""
    else if |xs| == 1 then IntToString(xs[0])
    else IntToString(xs[0]) + ", " + JoinInts(xs[1..])
  }

  // ---------------------------------------------------------------------------
  // Reading a record's text back

  /** The part of `s` before its first `sep`, or all of `s` when it has none. */
  function Before(s: string, sep: char): (r: string)
    ensures r <= s
  {
    if s == [] || s[0] == sep then [] else [s[0]] + Before(s[1..], sep)
  }

  lemma {:induction false} BeforeAbsent(s: string, sep: char)
    requires sep !in s
    ensures Before(s, sep) == s
  {
    if s != [] {
      assert s[0] in s;
      assert sep !in s[1..] by {
        forall k | 0 <= k < |s[1..]| ensures s[1..][k] != sep {
          assert s[1..][k] == s[k + 1];
        }
      }
      BeforeAbsent(s[1..], sep);
    }
  }

  lemma {:induction false} BeforeSeparator(a: string, b: string, sep: char)
    requires sep !in a
    ensures Before(a + [sep] + b, sep) == a
  {
    if a != [] {
      assert a[0] in a;
      assert sep !in a[1..] by {
        forall k | 0 <= k < |a[1..]| ensures a[1..][k] != sep {
          assert a[1..][k] == a[k + 1];
        }
      }
      assert (a + [sep] + b)[1..] == a[1..] + [sep] + b;
      BeforeSeparator(a[1..], b, sep);
    } else {
      assert a + [sep] + b == [sep] + b;
    }
  }

  /** A separator that neither left part holds splits two equal strings into
      equal parts. */
  lemma SplitAtSeparator(a: string, b: string, c: string, d: string, sep: char)
    requires sep !in a && sep !in c
    requires a + [sep] + b == c + [sep] + d
    ensures a == c && b == d
  {
    BeforeSeparator(a, b, sep);
    BeforeSeparator(c, d, sep);
    assert (a + [sep] + b)[|a| + 1..] == b;
    assert (c + [sep] + d)[|c| + 1..] == d;
  }

  /** Decimal text holds neither of the separators "," and ")". */
  lemma IntToStringHasNoSeparator(i: int)
    ensures ',' !in IntToString(i) && ')' !in IntToString(i)
  {
    var r := IntToString(i);
    forall k | 0 <= k < |r| ensures r[k] != ',' && r[k] != ')' {
      if i < 0 && k > 0 {
        assert r[k] == NatToString(-i)[k - 1];
      }
    }
  }

  /** How a list of precedences is laid out: empty only for no precedences,
      no ")" anywhere, the first precedence up to the first ",", and a ","
      exactly when there is more than one. */
  lemma {:induction false} JoinIntsShape(xs: seq<int>)
    ensures xs == [] <==> JoinInts(xs) == []
    ensures ')' !in JoinInts(xs)
    ensures xs != [] ==> Before(JoinInts(xs), ',') == IntToString(xs[0])
    ensures ',' in JoinInts(xs) <==> |xs| > 1
    ensures |xs| > 1 ==> JoinInts(xs) == IntToString(xs[0]) + [','] + (" " + JoinInts(xs[1..]))
  {
    if xs != [] {
      var h := IntToString(xs[0]);
      IntToStringHasNoSeparator(xs[0]);
      if |xs| == 1 {
        BeforeAbsent(h, ',');
      } else {
        JoinIntsShape(xs[1..]);
        var rest := " " + JoinInts(xs[1..]);
        assert JoinInts(xs) == h + [','] + rest;
        BeforeSeparator(h, rest, ',');
        assert (h + [','] + rest)[|h|] == ',';
        forall k | 0 <= k < |h + [','] + rest| ensures (h + [','] + rest)[k] != ')' {
          if k < |h| {
            assert (h + [','] + rest)[k] == h[k];
          } else if k > |h| + 1 {
            assert (h + [','] + rest)[k] == JoinInts(xs[1..])[k - |h| - 2];
          }
        }
      }
    }
  }

  /** Distinct precedence lists are written differently. */
  lemma {:induction false} JoinIntsInjective(xs: seq<int>, ys: seq<int>)
    requires JoinInts(xs) == JoinInts(ys)
    ensures xs == ys
  {
    JoinIntsShape(xs);
    JoinIntsShape(ys);
    if xs != [] {
      IntToStringInjective(xs[0], ys[0]);
      if |xs| > 1 {
        var h := IntToString(xs[0]);
        var rx, ry := " " + JoinInts(xs[1..]), " " + JoinInts(ys[1..]);
        assert (h + [','] + rx)[|h| + 1..] == rx;
        assert (h + [','] + ry)[|h| + 1..] == ry;
        assert rx[1..] == JoinInts(xs[1..]) && ry[1..] == JoinInts(ys[1..]);
        JoinIntsInjective(xs[1..], ys[1..]);
        assert xs == [xs[0]] + xs[1..] && ys == [ys[0]] + ys[1..];
      }
    }
  }

  /** A shift/reduce text is its fixed opening, then the precedence list up
      to the first ")", then the rest. */
  lemma ShiftReduceTextLayout(la: string, sym: string, s: set<int>, p: int)
    ensures Render(ShiftReduce(la, s, sym, p))
            == (la + ": shift (precedence ")
               + (JoinInts(SortedElements(s)) + [')'] + (" / reduce " + sym + " (precedence " + IntToString(p) + ")"))
  {
    ShiftReduceRegroup(la, JoinInts(SortedElements(s)), sym, IntToString(p));
  }

  lemma ShiftReduceRegroup(la: string, j: string, sym: string, i: string)
    ensures la + ": shift (precedence " + j + ") / reduce " + sym + " (precedence " + i + ")"
            == (la + ": shift (precedence ") + (j + [')'] + (" / reduce " + sym + " (precedence " + i + ")"))
  {
    var opening, rest := la + ": shift (precedence ", " / reduce " + sym + " (precedence " + i + ")";
    assert ") / reduce " == [')'] + " / reduce ";
    assert opening + j + ") / reduce " + sym + " (precedence " + i + ")"
           == opening + j + [')'] + rest;
  }

  lemma CommonPrefix(prefix: string, x: string, y: string)
    requires prefix + x == prefix + y
    ensures x == y
  {
    assert (prefix + x)[|prefix|..] == x;
    assert (prefix + y)[|prefix|..] == y;
  }

  lemma CommonFrame(front: string, x: string, y: string, back: string)
    requires front + x + back == front + y + back
    ensures x == y
  {
    assert (front + x + back)[|front|..|front| + |x|] == x;
    assert (front + y + back)[|front|..|front| + |y|] == y;
  }

  /** For one lookahead and one reduce symbol, two shift/reduce records read
      alike only when their shift precedences and reduce precedences agree:
      comparing texts merges only identical records. */
  lemma ShiftReduceTextInjective(la: string, sym: string, s: set<int>, p: int, t: set<int>, q: int)
    requires Render(ShiftReduce(la, s, sym, p)) == Render(ShiftReduce(la, t, sym, q))
    ensures s == t && p == q
  {
    var middle := " / reduce " + sym + " (precedence ";
    var js, jt := JoinInts(SortedElements(s)), JoinInts(SortedElements(t));
    ShiftReduceTextLayout(la, sym, s, p);
    ShiftReduceTextLayout(la, sym, t, q);
    CommonPrefix(la + ": shift (precedence ", js + [')'] + (middle + IntToString(p) + ")"),
                 jt + [')'] + (middle + IntToString(q) + ")"));
    JoinIntsShape(SortedElements(s));
    JoinIntsShape(SortedElements(t));
    SplitAtSeparator(js, middle + IntToString(p) + ")", jt, middle + IntToString(q) + ")", ')');
    CommonFrame(middle, IntToString(p), IntToString(q), ")");
    IntToStringInjective(p, q);
    JoinIntsInjective(SortedElements(s), SortedElements(t));
    assert forall x :: x in s <==> x in t;
  }
}
