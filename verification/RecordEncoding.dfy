/**
 The text that internal/compliance/compliance.go feeds to SHA-256 for one
 evidence record: six fields concatenated with no separators. This module
 proves that the text can be taken apart again in one way only.
 */
module RecordEncoding {
  // ---------- Decimal numbers ----------

  function Digit(d: nat): char
    requires d < 10
  {
    '0' + d as char
  }

  predicate IsDigit(c: char) { '0' <= c <= '9' }

  /** fmt's %d for a nonnegative number. */
  function Dec(n: nat): (s: string)
    ensures s != ""
    ensures forall c | c in s :: IsDigit(c)
  {
    if n < 10 then [Digit(n)] else Dec(n / 10) + [Digit(n % 10)]
  }

  /** Exactly w digits, zero-padded. */
  function Fixed(n: nat, w: nat): (s: string)
    ensures |s| == w
    ensures forall c | c in s :: IsDigit(c)
  {
    if w == 0 then "" else Fixed(n / 10, w - 1) + [Digit(n % 10)]
  }

  function Value(s: string): int {
    if s == "" then 0 else Value(s[..|s| - 1]) * 10 + (s[|s| - 1] as int - '0' as int)
  }

  function Pow10(w: nat): nat {
    if w == 0 then 1 else 10 * Pow10(w - 1)
  }

  lemma {:induction false} DecValue(n: nat)
    ensures Value(Dec(n)) == n
  {
    if n >= 10 {
      DecValue(n / 10);
      assert Dec(n)[..|Dec(n)| - 1] == Dec(n / 10);
    }
  }

  lemma {:induction false} FixedValue(n: nat, w: nat)
    requires n < Pow10(w)
    ensures Value(Fixed(n, w)) == n
  {
    if w > 0 {
      FixedValue(n / 10, w - 1);
      assert Fixed(n, w)[..w - 1] == Fixed(n / 10, w - 1);
    }
  }

  // ---------- Timestamps ----------

  /** A UTC instant to the second. */
  datatype Civil = Civil(year: nat, month: nat, day: nat, hour: nat, minute: nat, second: nat) {
    /** Every field but the year has at most two digits. */
    predicate Valid() { month < 100 && day < 100 && hour < 100 && minute < 100 && second < 100 }

    predicate FourDigitYear() { Valid() && year < 10000 }
  }

  /** Go pads the year to four digits and lets longer years run over. */
  function Year(y: nat): (s: string)
    ensures y < 10000 ==> |s| == 4
    ensures forall c | c in s :: IsDigit(c)
  {
    if y < 10000 then Fixed(y, 4) else Dec(y)
  }

  /** time.RFC3339 for a UTC time. */
  function RFC3339(t: Civil): string {
    Year(t.year) + "-" + Fixed(t.month, 2) + "-" + Fixed(t.day, 2) + "T"
    + Fixed(t.hour, 2) + ":" + Fixed(t.minute, 2) + ":" + Fixed(t.second, 2) + "Z"
  }

  lemma {:induction false} TwoDigits(a: nat, b: nat)
    requires a < 100 && b < 100 && Fixed(a, 2) == Fixed(b, 2)
    ensures a == b
  {
    assert Pow10(1) == 10;
    FixedValue(a, 2);
    FixedValue(b, 2);
  }

  lemma {:induction false} FourDigits(a: nat, b: nat)
    requires a < 10000 && b < 10000 && Fixed(a, 4) == Fixed(b, 4)
    ensures a == b
  {
    assert Pow10(2) == 10 * Pow10(1) == 100 && Pow10(4) == 10 * Pow10(3) == 10000;
    FixedValue(a, 4);
    FixedValue(b, 4);
  }

  lemma {:induction false} RFC3339Layout(t: Civil)
    requires t.FourDigitYear()
    ensures var s := RFC3339(t);
            && |s| == 20 && s[4] == '-'
            && s[..4] == Fixed(t.year, 4) && s[5..7] == Fixed(t.month, 2) && s[8..10] == Fixed(t.day, 2)
            && s[11..13] == Fixed(t.hour, 2) && s[14..16] == Fixed(t.minute, 2) && s[17..19] == Fixed(t.second, 2)
  {
  }

  lemma {:induction false} RFC3339Injective(t: Civil, u: Civil)
    requires t.FourDigitYear() && u.FourDigitYear() && RFC3339(t) == RFC3339(u)
    ensures t == u
  {
    RFC3339Layout(t);
    RFC3339Layout(u);
    FourDigits(t.year, u.year);
    TwoDigits(t.month, u.month);
    TwoDigits(t.day, u.day);
    TwoDigits(t.hour, u.hour);
    TwoDigits(t.minute, u.minute);
    TwoDigits(t.second, u.second);
  }

  // ---------- Profile JSON ----------

  /** Where a reader of JSON text stands: braces open, inside a string, after a backslash. */
  datatype Scanner = Scanner(depth: int, inString: bool, escaped: bool)

  function Feed(sc: Scanner, c: char): Scanner {
    if sc.inString then
      if sc.escaped then sc.(escaped := false)
      else if c == '\\' then sc.(escaped := true)
      else if c == '"' then sc.(inString := false)
      else sc
    else if c == '"' then sc.(inString := true)
    else if c == '{' then sc.(depth := sc.depth + 1)
    else if c == '}' then sc.(depth := sc.depth - 1)
    else sc
  }

  const START := Scanner(0, false, false)

  function Scan(from: Scanner, s: string): Scanner {
    if s == "" then from else Feed(Scan(from, s[..|s| - 1]), s[|s| - 1])
  }

  predicate Closed(s: string) { !Scan(START, s).inString && Scan(START, s).depth == 0 }

  /** An object as json.Marshal writes one: its first brace closes at its last character. */
  predicate JSONObject(s: string) {
    s != "" && s[0] == '{' && Closed(s) && forall i | 0 < i < |s| :: !Closed(s[..i])
  }

  lemma {:induction false} JSONObjectsArePrefixFree(a: string, b: string)
    requires JSONObject(a) && JSONObject(b) && a <= b
    ensures a == b
  {
    assert b[..|a|] == a;
  }

  lemma {:induction false} ScanConcat(from: Scanner, a: string, b: string)
    ensures Scan(from, a + b) == Scan(Scan(from, a), b)
    decreases |b|
  {
    if b == "" {
      assert a + b == a;
    } else {
      assert (a + b)[..|a + b| - 1] == a + b[..|b| - 1];
      ScanConcat(from, a, b[..|b| - 1]);
    }
  }

  // ---------- The encoding ----------

  /** The fields that are hashed; of the violations only their number is. */
  datatype Fields = Fields(previousHash: string, profile: string, violations: nat, passed: bool, time: Civil,
      checkedBy: string) {
    predicate WellFormed() { '{' !in previousHash && JSONObject(profile) && time.FourDigitYear() }
  }

  function PassedDigit(passed: bool): string { if passed then "1" else "0" }

  function Encode(f: Fields): string {
    f.previousHash + (f.profile + (Dec(f.violations) + (PassedDigit(f.passed) + (RFC3339(f.time) + f.checkedBy))))
  }

  /** Where p ends inside q, q continues with what follows p. */
  lemma {:induction false} Overlap(p: string, q: string, x: string, y: string)
    requires p + x == q + y && x != ""
    ensures |p| < |q| ==> q[|p|] == x[0]
  {
    if |p| < |q| {
      assert (p + x)[|p|] == x[0] && (q + y)[|p|] == q[|p|];
    }
  }

  lemma {:induction false} SplitAt(p: string, q: string, x: string, y: string)
    requires p + x == q + y && |p| == |q|
    ensures p == q && x == y
  {
    assert (p + x)[..|p|] == p && (q + y)[..|q|] == q;
    assert (p + x)[|p|..] == x && (q + y)[|q|..] == y;
  }

  lemma {:induction false} SplitAtFirst(c: char, p: string, q: string, x: string, y: string)
    requires p + x == q + y && c !in p && c !in q && x != "" && y != "" && x[0] == c == y[0]
    ensures p == q && x == y
  {
    Overlap(p, q, x, y);
    Overlap(q, p, y, x);
    SplitAt(p, q, x, y);
  }

  lemma {:induction false} SplitAtShorterObject(a: string, b: string, x: string, y: string)
    requires a + x == b + y && JSONObject(a) && JSONObject(b) && |a| <= |b|
    ensures a == b && x == y
  {
    assert (a + x)[..|a|] == a && (b + y)[..|a|] == b[..|a|];
    JSONObjectsArePrefixFree(a, b);
    SplitAt(a, b, x, y);
  }

  lemma {:induction false} SplitAtObject(a: string, b: string, x: string, y: string)
    requires a + x == b + y && JSONObject(a) && JSONObject(b)
    ensures a == b && x == y
  {
    if |a| <= |b| {
      SplitAtShorterObject(a, b, x, y);
    } else {
      SplitAtShorterObject(b, a, y, x);
    }
  }

  /** Digits, a flag digit and a four-digit year: the first dash tells how many digits there are. */
  lemma {:induction false} SplitAtDash(m: string, n: string, f: string, g: string, s: string, t: string)
    requires m + (f + s) == n + (g + t) && |f| == |g| == 1
    requires (forall c | c in m + f :: c != '-') && (forall c | c in n + g :: c != '-')
    requires |s| > 4 && |t| > 4 && s[4] == '-' == t[4]
    requires forall i | 0 <= i < 4 :: s[i] != '-' && t[i] != '-'
    ensures m == n && f == g && s == t
  {
    var u, v := m + (f + s), n + (g + t);
    assert u[|m| + 5] == s[4] && v[|n| + 5] == t[4];
    if |m| < |n| {
      NoDashBefore(n, g, t, |m| + 5);
    } else if |n| < |m| {
      NoDashBefore(m, f, s, |n| + 5);
    }
    SplitAt(m, n, f + s, g + t);
    SplitAt(f, g, s, t);
  }

  lemma {:induction false} NoDashBefore(m: string, f: string, s: string, i: nat)
    requires |f| == 1 && |s| > 4 && i < |m| + 5
    requires forall c | c in m + f :: c != '-'
    requires forall k | 0 <= k < 4 :: s[k] != '-'
    ensures (m + (f + s))[i] != '-'
  {
    if i <= |m| {
      assert (m + f)[i] in m + f;
      assert (m + (f + s))[i] == (m + f)[i];
    } else {
      assert (m + (f + s))[i] == s[i - |m| - 1];
    }
  }

  /** The text determines every hashed field. */
  lemma {:induction false} UniquelyDecodable(a: Fields, b: Fields)
    requires a.WellFormed() && b.WellFormed() && Encode(a) == Encode(b)
    ensures a == b
  {
    var s, t := RFC3339(a.time) + a.checkedBy, RFC3339(b.time) + b.checkedBy;
    var x, y := Dec(a.violations) + (PassedDigit(a.passed) + s), Dec(b.violations) + (PassedDigit(b.passed) + t);
    SplitAtFirst('{', a.previousHash, b.previousHash, a.profile + x, b.profile + y);
    SplitAtObject(a.profile, b.profile, x, y);
    TimeStartsWithYear(a.time, a.checkedBy);
    TimeStartsWithYear(b.time, b.checkedBy);
    SplitAtDash(Dec(a.violations), Dec(b.violations), PassedDigit(a.passed), PassedDigit(b.passed), s, t);
    DecValue(a.violations);
    DecValue(b.violations);
    assert s[..20] == RFC3339(a.time) && t[..20] == RFC3339(b.time);
    assert s[20..] == a.checkedBy && t[20..] == b.checkedBy;
    RFC3339Injective(a.time, b.time);
  }

  lemma {:induction false} TimeStartsWithYear(t: Civil, rest: string)
    requires t.FourDigitYear()
    ensures var s := RFC3339(t) + rest;
            |RFC3339(t)| == 20 && s[4] == '-' && forall i | 0 <= i < 4 :: s[i] != '-'
  {
    RFC3339Layout(t);
    var s := RFC3339(t) + rest;
    forall i | 0 <= i < 4 ensures s[i] != '-' {
      assert s[i] == RFC3339(t)[..4][i] == Fixed(t.year, 4)[i];
      assert IsDigit(Fixed(t.year, 4)[i]);
    }
  }

  // ---------- Years past 9999 ----------

  lemma {:induction false} DecWithLeadingOne(y: nat, w: nat)
    requires y < Pow10(w)
    ensures Dec(Pow10(w) + y) == "1" + Fixed(y, w)
  {
    if w > 0 {
      DecWithLeadingOne(y / 10, w - 1);
      assert (Pow10(w) + y) / 10 == Pow10(w - 1) + y / 10 && (Pow10(w) + y) % 10 == y % 10;
    }
  }

  /** The record ten thousand years earlier that reads the leading one as its flag and f's flag as a digit. */
  function Twin(f: Fields): Fields
    requires f.time.year >= 10000
  {
    f.(violations := 10 * f.violations + (if f.passed then 1 else 0),
       passed := true,
       time := f.time.(year := f.time.year - 10000))
  }

  lemma {:induction false} LeadingOneInYear(t: Civil)
    requires 10000 <= t.year < 20000
    ensures RFC3339(t) == "1" + RFC3339(t.(year := t.year - 10000))
  {
    assert Pow10(2) == 10 * Pow10(1) == 100 && Pow10(4) == 10 * Pow10(3) == 10000;
    DecWithLeadingOne(t.year - 10000, 4);
    assert Year(t.year) == "1" + Year(t.year - 10000);
  }

  lemma {:induction false} Shift(count: string, flag: string, time: string, rest: string)
    ensures count + (flag + (("1" + time) + rest)) == (count + flag) + ("1" + (time + rest))
  {
    assert flag + (("1" + time) + rest) == flag + ("1" + (time + rest));
  }

  lemma {:induction false} TwinCount(violations: nat, passed: bool)
    requires violations > 0
    ensures Dec(10 * violations + (if passed then 1 else 0)) == Dec(violations) + PassedDigit(passed)
  {
    var n := 10 * violations + (if passed then 1 else 0);
    assert n >= 10 && n / 10 == violations && n % 10 == (if passed then 1 else 0);
    assert Dec(n) == Dec(n / 10) + [Digit(n % 10)];
  }

  lemma {:induction false} TwinSharesText(f: Fields)
    requires 10000 <= f.time.year < 20000 && f.violations > 0
    ensures Encode(Twin(f)) == Encode(f)
  {
    var time := RFC3339(Twin(f).time);
    LeadingOneInYear(f.time);
    TwinCount(f.violations, f.passed);
    Shift(Dec(f.violations), PassedDigit(f.passed), time, f.checkedBy);
    var tail := Dec(f.violations) + (PassedDigit(f.passed) + (("1" + time) + f.checkedBy));
    assert Encode(f) == f.previousHash + (f.profile + tail);
    assert Encode(Twin(f)) == f.previousHash + (f.profile + tail);
  }

  lemma {:induction false} FiveDigits(y: nat)
    requires 10000 <= y < 100000
    ensures |Dec(y)| == 5 && Dec(y)[0] == Digit(y / 10000)
  {
    assert Dec(y) == Dec(y / 10) + [Digit(y % 10)];
    assert Dec(y / 10) == Dec(y / 100) + [Digit(y / 10 % 10)];
    assert Dec(y / 100) == Dec(y / 1000) + [Digit(y / 100 % 10)];
    assert Dec(y / 1000) == Dec(y / 10000) + [Digit(y / 1000 % 10)];
    assert Dec(y / 10000) == [Digit(y / 10000)];
  }

  /** The digits up to the first dash. */
  function Front(f: Fields): string {
    Dec(f.violations) + (PassedDigit(f.passed) + Year(f.time.year))
  }

  function FromMonth(f: Fields): string {
    "-" + Fixed(f.time.month, 2) + "-" + Fixed(f.time.day, 2) + "T"
    + Fixed(f.time.hour, 2) + ":" + Fixed(f.time.minute, 2) + ":" + Fixed(f.time.second, 2) + "Z" + f.checkedBy
  }

  lemma {:induction false} EncodeInParts(f: Fields)
    ensures Encode(f) == f.previousHash + (f.profile + (Front(f) + FromMonth(f)))
    ensures '-' !in Front(f)
  {
    assert RFC3339(f.time) + f.checkedBy == Year(f.time.year) + FromMonth(f);
    assert Dec(f.violations) + (PassedDigit(f.passed) + (RFC3339(f.time) + f.checkedBy)) == Front(f) + FromMonth(f);
  }

  /** Equal texts have equal digits up to the first dash. */
  lemma {:induction false} SameFront(f: Fields, g: Fields)
    requires '{' !in f.previousHash && JSONObject(f.profile) && g.WellFormed() && Encode(g) == Encode(f)
    ensures Front(f) == Front(g)
  {
    EncodeInParts(f);
    EncodeInParts(g);
    var x, y := Front(f) + FromMonth(f), Front(g) + FromMonth(g);
    SplitAtFirst('{', f.previousHash, g.previousHash, f.profile + x, g.profile + y);
    SplitAtObject(f.profile, g.profile, x, y);
    SplitAtFirst('-', Front(f), Front(g), FromMonth(f), FromMonth(g));
  }

  lemma {:induction false} NoLeadingZero(n: nat)
    requires n > 0
    ensures Dec(n)[0] != '0'
  {
    if n >= 10 {
      NoLeadingZero(n / 10);
      assert Dec(n)[0] == Dec(n / 10)[0];
    }
  }

  /** Five year digits against four: the year's first digit is g's flag and f's flag is g's last count digit. */
  lemma {:induction false} FrontsOverlap(f: Fields, g: Fields)
    requires Front(f) == Front(g) && 10000 <= f.time.year < 100000 && g.time.year < 10000
    ensures f.time.year < 20000 && f.violations > 0
  {
    FiveDigits(f.time.year);
    var m, n := Dec(f.violations), Dec(g.violations);
    assert |n| == |m| + 1;
    assert Front(f)[|m| + 1] == Dec(f.time.year)[0] && Front(g)[|n|] == PassedDigit(g.passed)[0];
    assert m + PassedDigit(f.passed) == Front(f)[..|m| + 1] == Front(g)[..|n|] == n;
    if g.violations > 0 {
      NoLeadingZero(g.violations);
    }
    assert n[0] == m[0];
  }

  /**
   A year from 10000 to 99999 shares its text with some record of a four-digit
   year exactly when it is below 20000 and there are violations. That record is
   the twin alone: a passed record with violations, which no check produces.
   */
  lemma {:induction false} FiveDigitYearCollidesIff(f: Fields)
    requires f.time.Valid() && '{' !in f.previousHash && JSONObject(f.profile) && 10000 <= f.time.year < 100000
    ensures (exists g: Fields :: g.WellFormed() && Encode(g) == Encode(f)) <==> f.time.year < 20000 && f.violations > 0
    ensures forall g: Fields | g.WellFormed() && Encode(g) == Encode(f) :: g == Twin(f) && g.passed && g.violations > 0
  {
    forall g: Fields | g.WellFormed() && Encode(g) == Encode(f)
      ensures f.time.year < 20000 && f.violations > 0 && g == Twin(f)
    {
      SameFront(f, g);
      FrontsOverlap(f, g);
      TwinSharesText(f);
      UniquelyDecodable(g, Twin(f));
    }
    if f.time.year < 20000 && f.violations > 0 {
      TwinSharesText(f);
      assert Twin(f).WellFormed();
    }
  }
}
