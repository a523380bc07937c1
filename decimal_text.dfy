/**
 * The text Java produces when an int is concatenated to a string
 * (Integer.toString: a minus sign for negative values, then the decimal
 * digits without leading zeros), and comma-separated lists of such texts
 * as SortedList.toString and the IntTree traversals print them.
 */
module DecimalText {
  import opened Options

  predicate IsDigit(c: char)
  {
    '0' <= c <= '9'
  }

  predicate AllDigits(s: string)
  {
    forall i :: 0 <= i < |s| ==> IsDigit(s[i])
  }

  function DigitChar(d: int): (c: char)
    requires 0 <= d < 10
    ensures IsDigit(c) && c as int - '0' as int == d
  {
    ('0' as int + d) as char
  }

  /** The decimal digits of n, most significant first, without leading zeros. */
  function Digits(n: nat): (s: string)
    ensures |s| >= 1 && AllDigits(s)
    ensures n >= 10 <==> |s| >= 2
    decreases n
  {
    if n < 10 then [DigitChar(n)] else Digits(n / 10) + [DigitChar(n % 10)]
  }

  /** The number a string of decimal digits denotes. */
  function DigitsValue(s: string): nat
    requires AllDigits(s)
  {
    if s == [] then 0 else 10 * DigitsValue(s[..|s| - 1]) + (s[|s| - 1] as int - '0' as int)
  }

  lemma {:induction false} DigitsRoundTrip(n: nat)
    ensures DigitsValue(Digits(n)) == n
    decreases n
  {
    if n >= 10 {
      var s := Digits(n);
      assert s[..|s| - 1] == Digits(n / 10);
      DigitsRoundTrip(n / 10);
    }
  }

  /** Integer.toString(n). */
  function IntText(n: int): (s: string)
    ensures |s| >= 1 && ',' !in s
  {
    if n < 0 then "-" + Digits(-n) else Digits(n)
  }

  /** Reads back the text of an int; None for anything else. */
  function ParseInt(s: string): (r: Option<int>)
    ensures r.Some? ==> |s| >= 1
  {
    if |s| >= 2 && s[0] == '-' && AllDigits(s[1..]) then Some(0 - DigitsValue(s[1..]))
    else if |s| >= 1 && AllDigits(s) then Some(DigitsValue(s))
    else None
  }

  /** The text of every int reads back as that int. */
  lemma ParseIntText(n: int)
    ensures ParseInt(IntText(n)) == Some(n)
  {
    if n < 0 {
      var d := Digits(-n);
      assert IntText(n) == "-" + d;
      assert ("-" + d)[1..] == d;
      DigitsRoundTrip(-n);
    } else {
      DigitsRoundTrip(n);
    }
  }

  /** Different ints print differently. */
  lemma IntTextInjective(m: int, n: int)
    requires IntText(m) == IntText(n)
    ensures m == n
  {
    ParseIntText(m);
    ParseIntText(n);
  }

  // ---------------------------------------------------------------------
  // Comma-separated lists

  /** The texts of xs separated by commas: "a,b,c". */
  function Joined(xs: seq<int>): string
    decreases |xs|
  {
    if |xs| == 0 then ""
    else if |xs| == 1 then IntText(xs[0])
    else Joined(xs[..|xs| - 1]) + "," + IntText(xs[|xs| - 1])
  }

  /** Appending an element to a non-empty list appends "," and its text. */
  lemma JoinedSnoc(xs: seq<int>, x: int)
    requires xs != []
    ensures Joined(xs + [x]) == Joined(xs) + "," + IntText(x)
  {
    assert (xs + [x])[..|xs|] == xs;
  }

  /** The text of every element followed by a comma: "a,b,c,". */
  function Terminated(xs: seq<int>): string
    decreases |xs|
  {
    if xs == [] then "" else IntText(xs[0]) + "," + Terminated(xs[1..])
  }

  lemma {:induction false} TerminatedAppend(a: seq<int>, b: seq<int>)
    ensures Terminated(a + b) == Terminated(a) + Terminated(b)
    decreases |a|
  {
    if a == [] {
      assert a + b == b;
    } else {
      assert (a + b)[1..] == a[1..] + b;
      TerminatedAppend(a[1..], b);
    }
  }

  /** Dropping the last character of a terminated list leaves the joined list. */
  lemma {:induction false} TerminatedJoined(xs: seq<int>)
    requires |xs| >= 1
    ensures Terminated(xs) == Joined(xs) + ","
    decreases |xs|
  {
    if |xs| >= 2 {
      var init, last := xs[..|xs| - 1], xs[|xs| - 1];
      assert xs == init + [last];
      TerminatedAppend(init, [last]);
      TerminatedJoined(init);
      assert Terminated([last]) == IntText(last) + ",";
    } else {
      assert xs[1..] == [];
    }
  }

  /** The pieces of s between commas, as String.split(",", -1) gives them. */
  function Fields(s: string): (f: seq<string>)
    ensures |f| >= 1
    decreases |s|
  {
    if s == [] then [""]
    else
      var f := Fields(s[..|s| - 1]);
      var c := s[|s| - 1];
      if c == ',' then f + [""] else f[..|f| - 1] + [f[|f| - 1] + [c]]
  }

  lemma {:induction false} FieldsNoComma(s: string)
    requires ',' !in s
    ensures Fields(s) == [s]
    decreases |s|
  {
    if s != [] {
      assert s[..|s| - 1] + [s[|s| - 1]] == s;
      FieldsNoComma(s[..|s| - 1]);
    }
  }

  /** A comma after s opens a new, empty field. */
  lemma FieldsSnocComma(s: string)
    ensures Fields(s + [',']) == Fields(s) + [""]
  {
    assert (s + [','])[..|s|] == s;
  }

  /** Any other character extends the last field of s. */
  lemma FieldsSnocOther(s: string, c: char)
    requires c != ','
    ensures var f := Fields(s); Fields(s + [c]) == f[..|f| - 1] + [f[|f| - 1] + [c]]
  {
    assert (s + [c])[..|s|] == s;
  }

  lemma LastExtend(fa: seq<string>, fb: seq<string>, c: char)
    requires |fb| >= 1
    ensures var f := fa + fb; f[..|f| - 1] + [f[|f| - 1] + [c]] == fa + (fb[..|fb| - 1] + [fb[|fb| - 1] + [c]])
  {
    var f := fa + fb;
    assert f[..|f| - 1] == fa + fb[..|fb| - 1];
    assert f[|f| - 1] == fb[|fb| - 1];
  }

  /** Splitting at one comma splits the fields there. */
  lemma {:induction false} FieldsComma(a: string, b: string)
    ensures Fields(a + "," + b) == Fields(a) + Fields(b)
    decreases |b|
  {
    if b == [] {
      assert a + "," + b == a + [','];
      FieldsSnocComma(a);
    } else {
      var b', c := b[..|b| - 1], b[|b| - 1];
      var t := a + "," + b';
      assert a + "," + b == t + [c] && b == b' + [c];
      assert Fields(t) == Fields(a) + Fields(b') by {
        FieldsComma(a, b');
      }
      FieldsCommaStep(t, b', c, Fields(a), Fields(b'));
    }
  }

  lemma FieldsCommaStep(t: string, b': string, c: char, fa: seq<string>, fb: seq<string>)
    requires Fields(t) == fa + fb && Fields(b') == fb
    ensures Fields(t + [c]) == fa + Fields(b' + [c])
  {
    if c == ',' {
      FieldsSnocComma(t);
      FieldsSnocComma(b');
      assert (fa + fb) + [""] == fa + (fb + [""]);
    } else {
      FieldsOtherStep(t, b', c, fa, fb);
    }
  }

  lemma FieldsOtherStep(t: string, b': string, c: char, fa: seq<string>, fb: seq<string>)
    requires c != ',' && Fields(t) == fa + fb && Fields(b') == fb
    ensures Fields(t + [c]) == fa + Fields(b' + [c])
  {
    FieldsSnocOther(t, c);
    FieldsSnocOther(b', c);
    LastExtend(fa, fb, c);
  }

  /** The text of each element. */
  function Texts(xs: seq<int>): (ts: seq<string>)
    ensures |ts| == |xs|
    decreases |xs|
  {
    if xs == [] then [] else Texts(xs[..|xs| - 1]) + [IntText(xs[|xs| - 1])]
  }

  /** The fields of a joined list are the texts of its elements. */
  lemma {:induction false} FieldsJoined(xs: seq<int>)
    requires |xs| >= 1
    ensures Fields(Joined(xs)) == Texts(xs)
    decreases |xs|
  {
    var last := xs[|xs| - 1];
    FieldsNoComma(IntText(last));
    if |xs| == 1 {
      assert xs[..0] == [];
    } else {
      var init := xs[..|xs| - 1];
      FieldsJoined(init);
      FieldsComma(Joined(init), IntText(last));
    }
  }

  /** Equal texts come from equal lists. */
  lemma {:induction false} TextsInjective(xs: seq<int>, ys: seq<int>)
    requires Texts(xs) == Texts(ys)
    ensures xs == ys
    decreases |xs|
  {
    if xs != [] {
      var n := |xs|;
      assert Texts(xs)[n - 1] == IntText(xs[n - 1]) && Texts(ys)[n - 1] == IntText(ys[n - 1]);
      assert Texts(xs)[..n - 1] == Texts(xs[..n - 1]) && Texts(ys)[..n - 1] == Texts(ys[..n - 1]);
      IntTextInjective(xs[n - 1], ys[n - 1]);
      TextsInjective(xs[..n - 1], ys[..n - 1]);
      assert xs == xs[..n - 1] + [xs[n - 1]] && ys == ys[..n - 1] + [ys[n - 1]];
    }
  }

  /** A joined list determines its elements. */
  lemma JoinedInjective(xs: seq<int>, ys: seq<int>)
    requires |xs| >= 1 && |ys| >= 1 && Joined(xs) == Joined(ys)
    ensures xs == ys
  {
    FieldsJoined(xs);
    FieldsJoined(ys);
    TextsInjective(xs, ys);
  }

  /** How many times c occurs in s. */
  function Occurrences(s: string, c: char): nat
    decreases |s|
  {
    if s == [] then 0 else Occurrences(s[..|s| - 1], c) + (if s[|s| - 1] == c then 1 else 0)
  }

  lemma {:induction false} OccurrencesAppend(a: string, b: string, c: char)
    ensures Occurrences(a + b, c) == Occurrences(a, c) + Occurrences(b, c)
    decreases |b|
  {
    if b == [] {
      assert a + b == a;
    } else {
      assert (a + b)[..|a + b| - 1] == a + b[..|b| - 1];
      OccurrencesAppend(a, b[..|b| - 1], c);
    }
  }

  lemma {:induction false} OccurrencesAbsent(s: string, c: char)
    requires c !in s
    ensures Occurrences(s, c) == 0
    decreases |s|
  {
    if s != [] {
      OccurrencesAbsent(s[..|s| - 1], c);
    }
  }

  /** A joined list of n >= 1 elements has n - 1 commas. */
  lemma {:induction false} JoinedCommas(xs: seq<int>)
    requires |xs| >= 1
    ensures Occurrences(Joined(xs), ',') == |xs| - 1
    decreases |xs|
  {
    OccurrencesAbsent(IntText(xs[|xs| - 1]), ',');
    if |xs| >= 2 {
      var init := xs[..|xs| - 1];
      JoinedCommas(init);
      OccurrencesAppend(Joined(init) + ",", IntText(xs[|xs| - 1]), ',');
      OccurrencesAppend(Joined(init), ",", ',');
      assert Occurrences(",", ',') == 1 by {
        assert ","[..0] == "";
      }
    }
  }
}
