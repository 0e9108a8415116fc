/** Strings as the database and the printed keys use them: a total order, decimal numerals,
    and the three-part keys that join a queue, a job id and a timestamp with one separator. */
module Text {

  /** Lexicographic order. It stands for the one collation used throughout. */
  predicate Less(a: string, b: string) {
    if b == [] then false
    else if a == [] then true
    else a[0] < b[0] || (a[0] == b[0] && Less(a[1..], b[1..]))
  }

  lemma {:induction false} LessAsymmetric(a: string, b: string)
    ensures !(Less(a, b) && Less(b, a))
  {
    if a != [] && b != [] { LessAsymmetric(a[1..], b[1..]); }
  }

  lemma {:induction false} LessTotal(a: string, b: string)
    ensures a == b || Less(a, b) || Less(b, a)
  {
    if a != [] && b != [] {
      LessTotal(a[1..], b[1..]);
      assert a == [a[0]] + a[1..] && b == [b[0]] + b[1..];
    }
  }

  lemma {:induction false} LessTransitive(a: string, b: string, c: string)
    ensures Less(a, b) && Less(b, c) ==> Less(a, c)
  {
    if a != [] && b != [] && c != [] { LessTransitive(a[1..], b[1..], c[1..]); }
  }

  /** The first difference decides; a proper prefix comes first. */
  lemma {:induction false} LessIff(a: string, b: string)
    ensures Less(a, b) <==>
            exists k: nat :: k <= |a| && k < |b| && a[..k] == b[..k] && (k == |a| || a[k] < b[k])
  {
    if a == [] && b != [] {
      assert a[..0] == b[..0];
    } else if a != [] && b != [] {
      LessIff(a[1..], b[1..]);
      if a[0] < b[0] {
        assert a[..0] == b[..0];
      } else if a[0] == b[0] && Less(a[1..], b[1..]) {
        var k: nat :| k <= |a[1..]| && k < |b[1..]| && a[1..][..k] == b[1..][..k] &&
            (k == |a[1..]| || a[1..][k] < b[1..][k]);
        assert a[..k + 1] == [a[0]] + a[1..][..k] && b[..k + 1] == [b[0]] + b[1..][..k];
      }
      if k: nat :| 0 < k <= |a| && k < |b| && a[..k] == b[..k] && (k == |a| || a[k] < b[k]) {
        assert a[0] == a[..k][0] == b[..k][0] == b[0];
        assert a[1..][..k - 1] == a[..k][1..] == b[..k][1..] == b[1..][..k - 1];
      }
    }
  }

  function Digit(n: nat): (c: char)
    requires n < 10
    ensures '0' <= c <= '9' && (c as int) - ('0' as int) == n
  {
    (('0' as int) + n) as char
  }

  function Digits(n: nat): (s: string)
    ensures |s| > 0 && forall i :: 0 <= i < |s| ==> '0' <= s[i] <= '9'
  {
    if n < 10 then [Digit(n)] else Digits(n / 10) + [Digit(n % 10)]
  }

  function Decimal(z: int): (s: string)
    ensures |s| > 0 && forall i :: 0 <= i < |s| ==> '0' <= s[i] <= '9' || (i == 0 && z < 0 && s[i] == '-')
  {
    if z < 0 then ['-'] + Digits(-z) else Digits(z)
  }

  function Value(s: string): int {
    if s == [] then 0 else Value(s[..|s| - 1]) * 10 + (s[|s| - 1] as int) - ('0' as int)
  }

  lemma {:induction false} ValueOfDigits(n: nat)
    ensures Value(Digits(n)) == n
  {
    var s := Digits(n);
    if n < 10 {
      assert s[..0] == [];
    } else {
      ValueOfDigits(n / 10);
      assert s[..|s| - 1] == Digits(n / 10);
    }
  }

  lemma SignShows(z: int)
    ensures Decimal(z)[0] == '-' <==> z < 0
    ensures z < 0 ==> Decimal(z)[1..] == Digits(-z)
  {
    hide Value;
    if z < 0 {
      assert Decimal(z) == ['-'] + Digits(-z);
    } else {
      assert '0' <= Digits(z)[0];
    }
  }

  lemma DecimalInjective(a: int, b: int)
    requires Decimal(a) == Decimal(b)
    ensures a == b
  {
    SignShows(a);
    SignShows(b);
    ValueOfDigits(if a < 0 then -a else a);
    ValueOfDigits(if b < 0 then -b else b);
    hide Digits, Value;
  }

  /** `queue<sep>jobId<sep>timestamp`, with the timestamp in milliseconds. */
  function JobText(sep: char, queue: string, jobId: string, timestamp: int): string {
    queue + [sep] + jobId + [sep] + Decimal(timestamp)
  }

  lemma {:induction false} FirstSeparator(sep: char, a: string, x: string, b: string, y: string)
    requires sep !in a && sep !in b
    requires a + [sep] + x == b + [sep] + y
    ensures a == b && x == y
  {
    var s := a + [sep] + x;
    var t := b + [sep] + y;
    assert s[|a|] == sep && forall i :: 0 <= i < |a| ==> s[i] == a[i] != sep;
    assert t[|b|] == sep && forall i :: 0 <= i < |b| ==> t[i] == b[i] != sep;
    assert |a| == |b|;
    assert a == s[..|a|] && b == t[..|b|];
    assert x == s[|a| + 1..] && y == t[|b| + 1..];
  }

  lemma {:induction false} LastSeparator(sep: char, a: string, x: string, b: string, y: string)
    requires sep !in x && sep !in y
    requires a + [sep] + x == b + [sep] + y
    ensures a == b && x == y
  {
    var s := a + [sep] + x;
    var t := b + [sep] + y;
    assert s[|a|] == sep && forall i :: |a| < i < |s| ==> s[i] == x[i - |a| - 1] != sep;
    assert t[|b|] == sep && forall i :: |b| < i < |t| ==> t[i] == y[i - |b| - 1] != sep;
    assert |a| == |b|;
    assert a == s[..|a|] && b == t[..|b|];
    assert x == s[|a| + 1..] && y == t[|b| + 1..];
  }

  lemma JobTextSplits(sep: char, queue: string, jobId: string, timestamp: int)
    ensures JobText(sep, queue, jobId, timestamp) == queue + [sep] + (jobId + [sep] + Decimal(timestamp))
    ensures JobText(sep, queue, jobId, timestamp) == (queue + [sep] + jobId) + [sep] + Decimal(timestamp)
  {
    hide Decimal;
  }

  /** Printed keys agree exactly when the timestamps agree and the joined names do, whatever the names contain. */
  lemma JobTextAgreesIff(sep: char, q1: string, j1: string, t1: int, q2: string, j2: string, t2: int)
    requires sep !in Decimal(t1) && sep !in Decimal(t2)
    ensures JobText(sep, q1, j1, t1) == JobText(sep, q2, j2, t2) <==>
            t1 == t2 && q1 + [sep] + j1 == q2 + [sep] + j2
  {
    hide Decimal;
    JobTextSplits(sep, q1, j1, t1);
    JobTextSplits(sep, q2, j2, t2);
    hide JobText;
    if JobText(sep, q1, j1, t1) == JobText(sep, q2, j2, t2) {
      LastSeparator(sep, q1 + [sep] + j1, Decimal(t1), q2 + [sep] + j2, Decimal(t2));
      DecimalInjective(t1, t2);
    }
  }

  /** A printed key determines its parts when neither queue name contains the separator and
      neither numeral does. Job ids may contain it freely. */
  lemma JobTextInjective(sep: char, q1: string, j1: string, t1: int, q2: string, j2: string, t2: int)
    requires sep !in q1 && sep !in q2
    requires sep !in Decimal(t1) && sep !in Decimal(t2)
    requires JobText(sep, q1, j1, t1) == JobText(sep, q2, j2, t2)
    ensures q1 == q2 && j1 == j2 && t1 == t2
  {
    hide Decimal;
    JobTextSplits(sep, q1, j1, t1);
    JobTextSplits(sep, q2, j2, t2);
    hide JobText;
    FirstSeparator(sep, q1, j1 + [sep] + Decimal(t1), q2, j2 + [sep] + Decimal(t2));
    LastSeparator(sep, j1, Decimal(t1), j2, Decimal(t2));
    DecimalInjective(t1, t2);
  }
}
