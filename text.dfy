/** The Qt string helpers the converters rely on: `QString::number` for an
    `int`, `QStringList::join`, and what makes their output readable back. */
module Text {

  predicate IsDigit(c: char) {
    '0' <= c <= '9'
  }

  /** The characters `QString::number` writes for an `int`. */
  predicate IsNumberChar(c: char) {
    c == '-' || IsDigit(c)
  }

  const Digits: set<char> := set c: char | IsDigit(c)

  function DigitChar(d: nat): (c: char)
    requires d < 10
    ensures IsDigit(c) && c as int - '0' as int == d
  {
    ('0' as int + d) as char
  }

  /** `QString::number` of a non-negative value: base-10 digits, most
      significant first, with no leading zero. */
  function NatToString(n: nat): (r: string)
    ensures |r| >= 1
    ensures forall k :: 0 <= k < |r| ==> IsDigit(r[k])
    ensures r[0] == '0' ==> n == 0 && |r| == 1
    decreases n
  {
    if n < 10 then [DigitChar(n)] else NatToString(n / 10) + [DigitChar(n % 10)]
  }

  /** `QString::number(int)`: a minus sign for negative values, then the
      digits of the magnitude. */
  function IntToString(i: int): (r: string)
    ensures |r| >= 1 && IsDigit(r[|r| - 1])
    ensures forall k :: 0 <= k < |r| ==> IsNumberChar(r[k])
    ensures r[0] == '-' <==> i < 0
  {
    if i < 0 then "-" + NatToString(-i) else NatToString(i)
  }

  /** The value of a string of decimal digits, most significant first. */
  function DigitsValue(s: string): nat
    requires forall k :: 0 <= k < |s| ==> IsDigit(s[k])
  {
    if |s| == 0 then 0
    else
      assert IsDigit(s[|s| - 1]);
      DigitsValue(s[..|s| - 1]) * 10 + (s[|s| - 1] as int - '0' as int)
  }

  /** Reading an `int` back from its text. */
  function ParseInt(s: string): int
    requires forall k :: 0 <= k < |s| ==> IsNumberChar(s[k])
    requires forall k :: 0 < k < |s| ==> IsDigit(s[k])
  {
    if |s| > 0 && s[0] == '-' then -(DigitsValue(s[1..]) as int)
    else
      assert |s| > 0 ==> IsNumberChar(s[0]);
      DigitsValue(s)
  }

  /** The digits of `n` read back as `n`. */
  lemma {:induction false} NatToStringRoundTrip(n: nat)
    ensures DigitsValue(NatToString(n)) == n
    decreases n
  {
    if n >= 10 {
      NatToStringRoundTrip(n / 10);
      var r := NatToString(n);
      assert r[..|r| - 1] == NatToString(n / 10);
    }
  }

  /** `QString::number` loses nothing: its text reads back as the value. */
  lemma IntToStringRoundTrip(i: int)
    ensures var r := IntToString(i);
      (forall k :: 0 < k < |r| ==> IsDigit(r[k])) && ParseInt(r) == i
  {
    var r := IntToString(i);
    if i < 0 {
      NatToStringRoundTrip(-i);
      assert r[1..] == NatToString(-i);
    } else {
      NatToStringRoundTrip(i);
    }
  }

  /** Hence different values have different texts. */
  lemma IntToStringInjective(i: int, j: int)
    ensures IntToString(i) == IntToString(j) <==> i == j
  {
    IntToStringRoundTrip(i);
    IntToStringRoundTrip(j);
  }

  /** The numbers and names the converters write contain none of `stop`. */
  predicate Avoids(s: string, stop: set<char>) {
    forall k :: 0 <= k < |s| ==> s[k] !in stop
  }

  lemma NumberAvoids(i: int, stop: set<char>)
    requires forall c :: c in stop ==> !IsNumberChar(c)
    ensures Avoids(IntToString(i), stop)
  {
  }

  /** Cutting a text after its last `stop` character is unique: if `a1` and
      `a2` end with a `stop` character and `b1`, `b2` avoid them, `a1 + b1`
      determines both parts. */
  lemma SplitAfterLast(a1: string, b1: string, a2: string, b2: string, stop: set<char>)
    requires |a1| > 0 && a1[|a1| - 1] in stop && Avoids(b1, stop)
    requires |a2| > 0 && a2[|a2| - 1] in stop && Avoids(b2, stop)
    requires a1 + b1 == a2 + b2
    ensures a1 == a2 && b1 == b2
  {
    var s := a1 + b1;
    assert s[|a1| - 1] in stop && s[|a2| - 1] in stop;
    assert forall k :: |a1| <= k < |s| ==> s[k] == b1[k - |a1|];
    assert forall k :: |a2| <= k < |s| ==> s[k] == b2[k - |a2|];
    assert |a1| == |a2|;
    assert a1 == s[..|a1|] && a2 == s[..|a2|];
    assert b1 == s[|a1|..] && b2 == s[|a2|..];
  }

  /** Equal texts with equal endings have equal beginnings. */
  lemma CancelSuffix(a1: string, a2: string, b: string)
    requires a1 + b == a2 + b
    ensures a1 == a2
  {
    assert a1 == (a1 + b)[..|a1|];
    assert a2 == (a2 + b)[..|a2|];
  }

  /** `QStringList::join`: the entries with `sep` between neighbours. */
  function Join(xs: seq<string>, sep: string): (r: string)
    ensures |xs| == 0 ==> r == ""
    ensures |xs| == 1 ==> r == xs[0]
  {
    if |xs| == 0 then ""
    else if |xs| == 1 then xs[0]
    else xs[0] + sep + Join(xs[1..], sep)
  }

  /** A join of two or more entries shows the separator right after the
      first entry. */
  lemma JoinSplits(xs: seq<string>, sep: string)
    requires |xs| >= 2
    ensures Join(xs, sep) == xs[0] + (sep + Join(xs[1..], sep))
  {
  }

  /** A join starts with the first entry's first character. */
  lemma JoinStartsWithFirst(xs: seq<string>, sep: string)
    requires |xs| > 0 && |xs[0]| > 0
    ensures |Join(xs, sep)| > 0 && Join(xs, sep)[0] == xs[0][0]
  {
    if |xs| >= 2 {
      JoinSplits(xs, sep);
    }
  }

  /** With entries free of '|', the joined text shows a '|' exactly when
      there are two entries or more. */
  lemma JoinHasBar(xs: seq<string>)
    requires forall i :: 0 <= i < |xs| ==> Avoids(xs[i], {'|'})
    ensures Avoids(Join(xs, " | "), {'|'}) <==> |xs| <= 1
  {
    if |xs| >= 2 {
      JoinSplits(xs, " | ");
      assert Join(xs, " | ")[|xs[0]| + 1] == '|';
    }
  }

  /** Joining with " | " entries that contain no '|' loses nothing: the
      joined text determines the entries. */
  lemma {:induction false} JoinInjective(xs: seq<string>, ys: seq<string>)
    requires |xs| > 0 && |ys| > 0
    requires forall i :: 0 <= i < |xs| ==> Avoids(xs[i], {'|'})
    requires forall i :: 0 <= i < |ys| ==> Avoids(ys[i], {'|'})
    requires Join(xs, " | ") == Join(ys, " | ")
    ensures xs == ys
    decreases |xs|
  {
    JoinHasBar(xs);
    JoinHasBar(ys);
    if |xs| == 1 {
      assert |ys| == 1;
    } else {
      assert |ys| >= 2;
      JoinSplits(xs, " | ");
      JoinSplits(ys, " | ");
      var rx := Join(xs[1..], " | ");
      var ry := Join(ys[1..], " | ");
      assert xs[0] + (" | " + rx) == (xs[0] + " ") + ("| " + rx);
      assert ys[0] + (" | " + ry) == (ys[0] + " ") + ("| " + ry);
      SplitBeforeFirst(xs[0] + " ", "| " + rx, ys[0] + " ", "| " + ry, {'|'});
      assert xs[0] == (xs[0] + " ")[..|xs[0]|];
      assert ys[0] == (ys[0] + " ")[..|ys[0]|];
      assert rx == ("| " + rx)[2..];
      assert ry == ("| " + ry)[2..];
      JoinInjective(xs[1..], ys[1..]);
      assert xs == [xs[0]] + xs[1..];
      assert ys == [ys[0]] + ys[1..];
    }
  }

  /** Cutting a text before its first `stop` character is unique. */
  lemma SplitBeforeFirst(a1: string, b1: string, a2: string, b2: string, stop: set<char>)
    requires Avoids(a1, stop) && |b1| > 0 && b1[0] in stop
    requires Avoids(a2, stop) && |b2| > 0 && b2[0] in stop
    requires a1 + b1 == a2 + b2
    ensures a1 == a2 && b1 == b2
  {
    var s := a1 + b1;
    assert s[|a1|] in stop && s[|a2|] in stop;
    assert forall k :: 0 <= k < |a1| ==> s[k] == a1[k];
    assert forall k :: 0 <= k < |a2| ==> s[k] == a2[k];
    assert |a1| == |a2|;
    assert a1 == s[..|a1|] && a2 == s[..|a2|];
    assert b1 == s[|a1|..] && b2 == s[|a2|..];
  }
}
