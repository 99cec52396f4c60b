/**
 What json.Marshal writes for the profile of an evidence record
 (internal/compliance/compliance.go): one object, from which the profile can be
 read back.
 */
module ProfileJSON {
  import opened Wrappers
  import opened RecordEncoding

  /** compliance.VMProfile; the pinning bytes are given as their base64 text. */
  datatype VMProfile = VMProfile(
    role: string,
    cpus: int,
    cpuAllocation: string,
    memoryBytes: int,
    numaPolicy: Option<string>,
    hugepagesEnabled: bool,
    cpuPinning: Option<string>,
    memoryReservationBytes: int,
    ballooningAllowed: bool,
    swapAllowed: bool,
    os: string,
    hasHugepagesConfig: bool,
    numaNodeCount: int,
    hugepagesTotalKB: int,
    hostCPUCount: int,
    hostMemoryBytes: int)

  function Hex(d: nat): char
    requires d < 16
  {
    if d < 10 then Digit(d) else 'a' + (d - 10) as char
  }

  /** A quote and a backslash are escaped, and what could end a line or open a tag is written as a code. */
  function EscapedChar(c: char): string {
    if c == '"' || c == '\\' then ['\\', c]
    else if c == '\n' then "\\n"
    else if c == '\r' then "\\r"
    else if c == '\t' then "\\t"
    else if c as int < 32 || c == '<' || c == '>' || c == '&' then
      "\\u00" + [Hex(c as int / 16 % 16), Hex(c as int % 16)]
    else [c]
  }

  function Escaped(s: string): string {
    if s == "" then "" else EscapedChar(s[0]) + Escaped(s[1..])
  }

  function Quoted(s: string): string { "\"" + Escaped(s) + "\"" }

  datatype JSONValue = Null | Str(s: string) | Flag(b: bool) | Num(n: int)

  /** A string, true or false, null, or fmt's %d. */
  function Text(v: JSONValue): string {
    match v
    case Null => "null"
    case Str(s) => Quoted(s)
    case Flag(b) => if b then "true" else "false"
    case Num(n) => if n < 0 then "-" + Dec(-n) else Dec(n)
  }

  function OrNull(s: Option<string>): JSONValue {
    if s.Some? then Str(s.value) else Null
  }

  /** The members' names, in the order of the struct's fields. */
  const NAMES: seq<string> := [
    "role", "cpus", "cpu_allocation", "memory_bytes", "numa_policy", "hugepages_enabled", "cpu_pinning",
    "memory_reservation_bytes", "ballooning_allowed", "swap_allowed", "os", "has_hugepages_config",
    "numa_node_count", "hugepages_total_kb", "host_cpu_count", "host_memory_bytes"]

  function FirstValues(p: VMProfile): seq<JSONValue> {
    [Str(p.role), Num(p.cpus), Str(p.cpuAllocation), Num(p.memoryBytes), OrNull(p.numaPolicy),
     Flag(p.hugepagesEnabled), OrNull(p.cpuPinning), Num(p.memoryReservationBytes)]
  }

  function LastValues(p: VMProfile): seq<JSONValue> {
    [Flag(p.ballooningAllowed), Flag(p.swapAllowed), Str(p.os), Flag(p.hasHugepagesConfig),
     Num(p.numaNodeCount), Num(p.hugepagesTotalKB), Num(p.hostCPUCount), Num(p.hostMemoryBytes)]
  }

  function Values(p: VMProfile): (r: seq<JSONValue>)
    ensures |r| == |NAMES|
  {
    FirstValues(p) + LastValues(p)
  }

  /** The member with its comma, if it is not the first. */
  function Member(name: string, value: JSONValue, first: bool): string {
    (if first then "" else ",") + (Quoted(name) + (":" + Text(value)))
  }

  function Joined(names: seq<string>, values: seq<JSONValue>, first: bool): string
    requires |names| == |values|
    decreases |values|
  {
    if names == [] then ""
    else Member(names[0], values[0], first) + Joined(names[1..], values[1..], false)
  }

  function Marshal(p: VMProfile): string { "{" + Joined(NAMES, Values(p), true) + "}" }

  // ---------- The text is one object ----------

  const OPEN := Scanner(1, false, false)

  /** Text that, read inside one open object, leaves the reader there and never closes it on the way. */
  predicate Flat(s: string) {
    Scan(OPEN, s) == OPEN && forall i | 0 <= i <= |s| :: Scan(OPEN, s[..i]).depth == 1
  }

  lemma {:induction false} FlatConcat(a: string, b: string)
    requires Flat(a) && Flat(b)
    ensures Flat(a + b)
  {
    ScanConcat(OPEN, a, b);
    forall i | 0 <= i <= |a + b| ensures Scan(OPEN, (a + b)[..i]).depth == 1 {
      if i <= |a| {
        assert (a + b)[..i] == a[..i];
      } else {
        assert (a + b)[..i] == a + b[..i - |a|];
        ScanConcat(OPEN, a, b[..i - |a|]);
      }
    }
  }

  /** Outside strings only quotes and braces mean anything. */
  predicate Plain(s: string) {
    forall i | 0 <= i < |s| :: s[i] != '"' && s[i] != '{' && s[i] != '}'
  }

  lemma {:induction false} PlainIsFlat(s: string)
    requires Plain(s)
    ensures Flat(s)
  {
    if s != "" {
      var front := s[..|s| - 1];
      PlainIsFlat(front);
      forall i | 0 <= i <= |s| ensures Scan(OPEN, s[..i]).depth == 1 {
        if i < |s| {
          assert s[..i] == front[..i];
        } else {
          assert s[..i] == s;
        }
      }
    }
  }

  const IN_STRING := Scanner(1, true, false)

  /** Text that, read inside a string, leaves the reader there and never ends it on the way. */
  predicate StaysInString(s: string) {
    Scan(IN_STRING, s) == IN_STRING && forall i | 0 <= i <= |s| :: Scan(IN_STRING, s[..i]).depth == 1
  }

  lemma {:induction false} StaysInStringConcat(a: string, b: string)
    requires StaysInString(a) && StaysInString(b)
    ensures StaysInString(a + b)
  {
    ScanConcat(IN_STRING, a, b);
    forall i | 0 <= i <= |a + b| ensures Scan(IN_STRING, (a + b)[..i]).depth == 1 {
      if i <= |a| {
        assert (a + b)[..i] == a[..i];
      } else {
        assert (a + b)[..i] == a + b[..i - |a|];
        ScanConcat(IN_STRING, a, b[..i - |a|]);
      }
    }
  }

  /** An ordinary character, or an escaped one, neither ends the string nor counts as a brace. */
  lemma {:induction false} OrdinaryStays(s: string)
    requires forall i | 0 <= i < |s| :: s[i] != '"' && s[i] != '\\'
    ensures StaysInString(s)
  {
    if s != "" {
      var front := s[..|s| - 1];
      OrdinaryStays(front);
      forall i | 0 <= i <= |s| ensures Scan(IN_STRING, s[..i]).depth == 1 {
        if i < |s| {
          assert s[..i] == front[..i];
        } else {
          assert s[..i] == s;
        }
      }
    }
  }

  lemma {:induction false} EscapeStays(c: char)
    ensures StaysInString(['\\', c])
  {
    var s := ['\\', c];
    assert s[..0] == "" && s[..1] == ['\\'] && s[..2] == s && s[..1][..0] == "";
    assert Scan(IN_STRING, s[..1]) == Scanner(1, true, true);
    assert Scan(IN_STRING, s) == IN_STRING;
  }

  lemma {:induction false} EscapedStays(s: string)
    ensures StaysInString(Escaped(s))
  {
    if s != "" {
      var e := EscapedChar(s[0]);
      EscapedStays(s[1..]);
      if |e| == 1 {
        OrdinaryStays(e);
      } else {
        EscapeStays(e[1]);
        OrdinaryStays(e[2..]);
        StaysInStringConcat(['\\', e[1]], e[2..]);
        assert e == ['\\', e[1]] + e[2..];
      }
      StaysInStringConcat(e, Escaped(s[1..]));
    }
  }

  lemma {:induction false} QuotedIsFlat(s: string)
    ensures Flat(Quoted(s))
  {
    var e, q := Escaped(s), Quoted(s);
    EscapedStays(s);
    assert Scan(OPEN, "\"") == IN_STRING by { assert "\""[..0] == ""; }
    forall i | 0 < i <= |q| - 1 ensures Scan(OPEN, q[..i]) == Scan(IN_STRING, e[..i - 1]) {
      assert q[..i] == "\"" + e[..i - 1];
      ScanConcat(OPEN, "\"", e[..i - 1]);
    }
    assert e[..|q| - 2] == e && q[..|q|] == q && q[..0] == "";
  }

  lemma {:induction false} NumIsDigits(n: int)
    ensures forall i | 0 <= i < |Text(Num(n))| :: Text(Num(n))[i] == '-' || IsDigit(Text(Num(n))[i])
  {
    var digits := Dec(if n < 0 then -n else n);
    assert forall i | 0 <= i < |digits| :: digits[i] in digits;
  }

  lemma {:induction false} TextIsFlat(v: JSONValue)
    ensures Flat(Text(v))
  {
    if v.Str? {
      QuotedIsFlat(v.s);
    } else {
      assert v.Num? ==> forall i | 0 <= i < |Text(v)| :: Text(v)[i] == '-' || IsDigit(Text(v)[i]) by {
        if v.Num? {
          NumIsDigits(v.n);
        }
      }
      PlainIsFlat(Text(v));
    }
  }

  lemma {:induction false} MemberIsFlat(name: string, value: JSONValue, first: bool)
    ensures Flat(Member(name, value, first))
  {
    PlainIsFlat(":");
    TextIsFlat(value);
    FlatConcat(":", Text(value));
    QuotedIsFlat(name);
    FlatConcat(Quoted(name), ":" + Text(value));
    var comma := if first then "" else ",";
    PlainIsFlat(comma);
    FlatConcat(comma, Quoted(name) + (":" + Text(value)));
  }

  lemma {:induction false} JoinedIsFlat(names: seq<string>, values: seq<JSONValue>, first: bool)
    requires |names| == |values|
    ensures Flat(Joined(names, values, first))
  {
    if names == [] {
      PlainIsFlat("");
    } else {
      MemberIsFlat(names[0], values[0], first);
      JoinedIsFlat(names[1..], values[1..], false);
      FlatConcat(Member(names[0], values[0], first), Joined(names[1..], values[1..], false));
    }
  }

  lemma {:induction false} BracedIsObject(body: string)
    requires Flat(body)
    ensures JSONObject("{" + body + "}")
  {
    var s := "{" + body + "}";
    assert Scan(START, "{") == OPEN by { assert "{"[..0] == ""; }
    forall i | 0 < i < |s| ensures Scan(START, s[..i]) == Scan(OPEN, body[..i - 1]) {
      assert s[..i] == "{" + body[..i - 1];
      ScanConcat(START, "{", body[..i - 1]);
    }
    assert body[..|s| - 2] == body;
  }

  /** Whatever the strings of a profile hold, its text is one object that closes only at its end. */
  lemma {:induction false} MarshalIsObject(p: VMProfile)
    ensures JSONObject(Marshal(p))
  {
    JoinedIsFlat(NAMES, Values(p), true);
    BracedIsObject(Joined(NAMES, Values(p), true));
  }

  /** So no profile's text is a proper prefix of another's. */
  lemma {:induction false} ProfilesArePrefixFree(p: VMProfile, q: VMProfile)
    requires Marshal(p) <= Marshal(q)
    ensures Marshal(p) == Marshal(q)
  {
    MarshalIsObject(p);
    MarshalIsObject(q);
    JSONObjectsArePrefixFree(Marshal(p), Marshal(q));
  }

  // ---------- The text determines the profile ----------

  lemma {:induction false} HexInjective(a: nat, b: nat)
    requires a < 16 && b < 16 && Hex(a) == Hex(b)
    ensures a == b
  {
  }

  /** How long an escape is shows in its first two characters. */
  lemma {:induction false} EscapeLength(c: char)
    ensures var e := EscapedChar(c);
            && (|e| == 1 || |e| == 2 || |e| == 6) && e[0] != '"'
            && (|e| == 1 <==> e[0] != '\\')
            && (|e| == 6 <==> |e| > 1 && e[1] == 'u')
  {
  }

  lemma {:induction false} SameEscape(a: char, b: char)
    requires EscapedChar(a) == EscapedChar(b)
    ensures a == b
  {
    var e, f := EscapedChar(a), EscapedChar(b);
    EscapeLength(a);
    EscapeLength(b);
    if |e| == 6 {
      assert e[4] == f[4] && e[5] == f[5];
      HexInjective(a as int / 16 % 16, b as int / 16 % 16);
      HexInjective(a as int % 16, b as int % 16);
    } else if |e| == 2 {
      assert e[1] == f[1];
    } else {
      assert e[0] == a && f[0] == b;
    }
  }

  lemma {:induction false} EscapedCharDecodes(a: char, b: char, x: string, y: string)
    requires EscapedChar(a) + x == EscapedChar(b) + y
    ensures a == b && x == y
  {
    var e, f := EscapedChar(a), EscapedChar(b);
    EscapeLength(a);
    EscapeLength(b);
    assert (e + x)[0] == e[0] && (f + y)[0] == f[0];
    if |e| > 1 {
      assert (e + x)[1] == e[1] && (f + y)[1] == f[1];
    }
    SplitAt(e, f, x, y);
    SameEscape(a, b);
  }

  lemma {:induction false} Assoc(a: string, b: string, c: string)
    ensures (a + b) + c == a + (b + c)
  {
  }

  lemma {:induction false} QuotedParts(s: string, x: string)
    ensures Quoted(s) + x == "\"" + (Escaped(s) + ("\"" + x))
  {
    var e := Escaped(s);
    Assoc("\"" + e, "\"", x);
    Assoc("\"", e, "\"" + x);
  }

  lemma {:induction false} EscapedParts(s: string, x: string)
    requires s != ""
    ensures Escaped(s) + x == EscapedChar(s[0]) + (Escaped(s[1..]) + x)
    ensures (Escaped(s) + x)[0] == EscapedChar(s[0])[0] != '"'
  {
    EscapeLength(s[0]);
    Assoc(EscapedChar(s[0]), Escaped(s[1..]), x);
  }

  /** A quote ends the string, and every escape before it is read back. */
  lemma {:induction false} EscapedDecodes(s: string, t: string, x: string, y: string)
    requires Escaped(s) + ("\"" + x) == Escaped(t) + ("\"" + y)
    ensures s == t && x == y
  {
    var u, v := "\"" + x, "\"" + y;
    assert u[0] == '"' == v[0] && "" + u == u && "" + v == v;
    if s != "" {
      EscapedParts(s, u);
    }
    if t != "" {
      EscapedParts(t, v);
    }
    assert s == "" <==> t == "";
    if s == "" {
      SplitAt("\"", "\"", x, y);
    } else {
      EscapedCharDecodes(s[0], t[0], Escaped(s[1..]) + u, Escaped(t[1..]) + v);
      EscapedDecodes(s[1..], t[1..], x, y);
    }
  }

  lemma {:induction false} QuotedDecodes(s: string, t: string, x: string, y: string)
    requires Quoted(s) + x == Quoted(t) + y
    ensures s == t && x == y
  {
    QuotedParts(s, x);
    QuotedParts(t, y);
    SplitAt("\"", "\"", Escaped(s) + ("\"" + x), Escaped(t) + ("\"" + y));
    EscapedDecodes(s, t, x, y);
  }

  predicate EndsValue(c: char) { c == ',' || c == '}' }

  /** What follows a member's value. */
  predicate Follows(x: string) { x != "" && EndsValue(x[0]) }

  /** Values that one field can have. */
  predicate SameKind(v: JSONValue, w: JSONValue) {
    && (v.Flag? <==> w.Flag?) && (v.Num? <==> w.Num?)
  }

  lemma {:induction false} UnquotedHasNoEnd(v: JSONValue, i: nat)
    requires !v.Str? && i < |Text(v)|
    ensures !EndsValue(Text(v)[i])
  {
    if v.Num? {
      NumIsDigits(v.n);
    }
  }

  lemma {:induction false} UnquotedSplits(v: JSONValue, w: JSONValue, x: string, y: string)
    requires !v.Str? && !w.Str? && Follows(x) && Follows(y) && Text(v) + x == Text(w) + y
    ensures Text(v) == Text(w) && x == y
  {
    Overlap(Text(v), Text(w), x, y);
    Overlap(Text(w), Text(v), y, x);
    if |Text(v)| < |Text(w)| {
      UnquotedHasNoEnd(w, |Text(v)|);
    }
    if |Text(w)| < |Text(v)| {
      UnquotedHasNoEnd(v, |Text(w)|);
    }
    SplitAt(Text(v), Text(w), x, y);
  }

  lemma {:induction false} SameNumber(m: int, n: int)
    requires Text(Num(m)) == Text(Num(n))
    ensures m == n
  {
    var d, e := Dec(if m < 0 then -m else m), Dec(if n < 0 then -n else n);
    DecValue(if m < 0 then -m else m);
    DecValue(if n < 0 then -n else n);
    assert d[0] in d && e[0] in e;
    assert Text(Num(m))[0] == (if m < 0 then '-' else d[0]) && Text(Num(n))[0] == (if n < 0 then '-' else e[0]);
    if m < 0 {
      assert d == Text(Num(m))[1..] && e == Text(Num(n))[1..];
    }
  }

  lemma {:induction false} TextDecodes(v: JSONValue, w: JSONValue, x: string, y: string)
    requires SameKind(v, w) && Follows(x) && Follows(y) && Text(v) + x == Text(w) + y
    ensures v == w && x == y
  {
    assert (Text(v) + x)[0] == Text(v)[0] && (Text(w) + y)[0] == Text(w)[0];
    if v.Str? && w.Str? {
      QuotedDecodes(v.s, w.s, x, y);
    } else {
      UnquotedSplits(v, w, x, y);
      if v.Num? {
        SameNumber(v.n, w.n);
      } else if v.Flag? {
        assert Text(v)[0] == if v.b then 't' else 'f';
        assert Text(w)[0] == if w.b then 't' else 'f';
      }
    }
  }

  /** Value by value of the same kind. */
  predicate SameShape(vs: seq<JSONValue>, ws: seq<JSONValue>) {
    |vs| == |ws| && forall k | 0 <= k < |vs| :: SameKind(vs[k], ws[k])
  }

  lemma {:induction false} RestFollows(names: seq<string>, values: seq<JSONValue>)
    requires |names| == |values|
    ensures Follows(Joined(names, values, false) + "}")
  {
  }

  function Head(name: string, first: bool): string {
    (if first then "" else ",") + (Quoted(name) + ":")
  }

  lemma {:induction false} MemberParts(name: string, value: JSONValue, first: bool, x: string)
    ensures Member(name, value, first) + x == Head(name, first) + (Text(value) + x)
  {
    var comma, n, v := if first then "" else ",", Quoted(name), Text(value);
    Assoc(n, ":", v);
    Assoc(comma, n + ":", v);
    Assoc(Head(name, first), v, x);
  }

  lemma {:induction false} JoinedParts(names: seq<string>, values: seq<JSONValue>, first: bool)
    requires |names| == |values| && names != []
    ensures Joined(names, values, first) + "}"
         == Head(names[0], first) + (Text(values[0]) + (Joined(names[1..], values[1..], false) + "}"))
  {
    var rest := Joined(names[1..], values[1..], false);
    Assoc(Member(names[0], values[0], first), rest, "}");
    MemberParts(names[0], values[0], first, rest + "}");
  }

  lemma {:induction false} JoinedDecodes(names: seq<string>, vs: seq<JSONValue>, ws: seq<JSONValue>, first: bool)
    requires |names| == |vs| && SameShape(vs, ws)
    requires Joined(names, vs, first) + "}" == Joined(names, ws, first) + "}"
    ensures vs == ws
  {
    if names != [] {
      var x, y := Joined(names[1..], vs[1..], false) + "}", Joined(names[1..], ws[1..], false) + "}";
      var head := Head(names[0], first);
      JoinedParts(names, vs, first);
      JoinedParts(names, ws, first);
      SplitAt(head, head, Text(vs[0]) + x, Text(ws[0]) + y);
      RestFollows(names[1..], vs[1..]);
      RestFollows(names[1..], ws[1..]);
      TextDecodes(vs[0], ws[0], x, y);
      JoinedDecodes(names[1..], vs[1..], ws[1..], false);
      assert vs == [vs[0]] + vs[1..] && ws == [ws[0]] + ws[1..];
    }
  }

  lemma {:induction false} ShapesConcat(
    a: seq<JSONValue>, b: seq<JSONValue>, x: seq<JSONValue>, y: seq<JSONValue>)
    requires SameShape(a, b) && SameShape(x, y)
    ensures SameShape(a + x, b + y)
  {
  }

  lemma {:induction false} ValuesShareShape(p: VMProfile, q: VMProfile)
    ensures SameShape(Values(p), Values(q))
  {
    FirstShareShape(p, q);
    LastShareShape(p, q);
    ShapesConcat(FirstValues(p), FirstValues(q), LastValues(p), LastValues(q));
  }

  lemma {:induction false} FirstShareShape(p: VMProfile, q: VMProfile)
    ensures SameShape(FirstValues(p), FirstValues(q))
  {
  }

  lemma {:induction false} LastShareShape(p: VMProfile, q: VMProfile)
    ensures SameShape(LastValues(p), LastValues(q))
  {
  }

  lemma {:induction false} ValuesInjective(p: VMProfile, q: VMProfile)
    requires Values(p) == Values(q)
    ensures p == q
  {
    assert FirstValues(p) == Values(p)[..8] && FirstValues(q) == Values(q)[..8];
    assert LastValues(p) == Values(p)[8..] && LastValues(q) == Values(q)[8..];
    var a, b, x, y := FirstValues(p), FirstValues(q), LastValues(p), LastValues(q);
    assert a[0] == b[0] && a[1] == b[1] && a[2] == b[2] && a[3] == b[3];
    assert a[4] == b[4] && a[5] == b[5] && a[6] == b[6] && a[7] == b[7];
    assert x[0] == y[0] && x[1] == y[1] && x[2] == y[2] && x[3] == y[3];
    assert x[4] == y[4] && x[5] == y[5] && x[6] == y[6] && x[7] == y[7];
  }

  lemma {:induction false} BracedDecodes(names: seq<string>, vs: seq<JSONValue>, ws: seq<JSONValue>)
    requires |names| == |vs| && SameShape(vs, ws)
    requires "{" + Joined(names, vs, true) + "}" == "{" + Joined(names, ws, true) + "}"
    ensures vs == ws
  {
    Assoc("{", Joined(names, vs, true), "}");
    Assoc("{", Joined(names, ws, true), "}");
    SplitAt("{", "{", Joined(names, vs, true) + "}", Joined(names, ws, true) + "}");
    JoinedDecodes(names, vs, ws, true);
  }

  /** Different profiles have different texts. */
  lemma {:induction false} MarshalIsInjective(p: VMProfile, q: VMProfile)
    requires Marshal(p) == Marshal(q)
    ensures p == q
  {
    ValuesShareShape(p, q);
    BracedDecodes(NAMES, Values(p), Values(q));
    ValuesInjective(p, q);
  }

  /** So equal texts of two records mean equal profiles, field by field, and equal everything else that is hashed. */
  lemma {:induction false} ProfilesDecodable(a: Fields, p: VMProfile, b: Fields, q: VMProfile)
    requires a.profile == Marshal(p) && b.profile == Marshal(q) && '{' !in a.previousHash && '{' !in b.previousHash
    requires a.time.FourDigitYear() && b.time.FourDigitYear() && Encode(a) == Encode(b)
    ensures p == q && a == b
  {
    MarshalIsObject(p);
    MarshalIsObject(q);
    UniquelyDecodable(a, b);
    MarshalIsInjective(p, q);
  }
}
