/**
 The hash chain of internal/compliance/compliance.go: how evidence is appended,
 what the link verifier accepts, and what equal final hashes imply. SHA-256 is a
 parameter; it need only be free of collisions on the texts of the records at hand.
 */
module EvidenceChain {
  import opened Wrappers
  import opened RecordEncoding
  import opened ProfileJSON

  datatype EvidenceRecord = EvidenceRecord(
    rowID: string,    // the table's own key
    checkID: string,
    previousHash: string,
    currentHash: string,
    profile: string,
    violations: seq<string>,
    passed: bool,
    time: Civil,
    createdAt: int,   // the same instant, as the created_at column orders it
    checkedBy: string)
  {
    function Hashed(): Fields { Fields(previousHash, profile, |violations|, passed, time, checkedBy) }
  }

  /** ComputeRecordHash. */
  function RecordHash(H: string -> string, f: Fields): string { H(Encode(f)) }

  predicate IsHex(c: char) { '0' <= c <= '9' || 'a' <= c <= 'f' }

  /** Every output is 64 lower-case hex digits. */
  ghost predicate HexDigest(H: string -> string) {
    forall x :: |H(x)| == 64 && forall c | c in H(x) :: IsHex(c)
  }

  /** No two different records of the list have texts with the same hash. */
  ghost predicate NoCollision(H: string -> string, records: seq<EvidenceRecord>) {
    forall r, q | r in records && q in records && H(Encode(r.Hashed())) == H(Encode(q.Hashed())) ::
      Encode(r.Hashed()) == Encode(q.Hashed())
  }

  /** The record's own hash recomputes, over a JSON profile and a four-digit year. */
  ghost predicate Sealed(H: string -> string, r: EvidenceRecord) {
    && r.currentHash == RecordHash(H, r.Hashed())
    && JSONObject(r.profile) && r.time.FourDigitYear()
    && (r.previousHash == "" || exists x :: r.previousHash == H(x))
  }

  ghost predicate AllSealed(H: string -> string, records: seq<EvidenceRecord>) {
    forall r | r in records :: Sealed(H, r)
  }

  predicate Linked(prev: EvidenceRecord, curr: EvidenceRecord) {
    curr.previousHash == prev.currentHash
  }

  predicate Links(records: seq<EvidenceRecord>) {
    forall i | 0 < i < |records| :: Linked(records[i - 1], records[i])
  }

  /** A chain grown from the empty previous hash. */
  ghost predicate Genuine(H: string -> string, chain: seq<EvidenceRecord>) {
    AllSealed(H, chain) && Links(chain) && (chain != [] ==> chain[0].previousHash == "")
  }

  // ---------- The verifier ----------

  datatype TamperDetail = TamperDetail(recordIndex: nat, recordID: string, expectedHash: string, actualHash: string,
      priorRecordID: string)

  datatype VerificationResult = VerificationResult(valid: bool, chainLength: nat, tamper: Option<TamperDetail>)

  /** The pure verifier names records by check ID, the store's by row ID. */
  datatype Naming = ByCheck | ByRow

  function Name(naming: Naming, r: EvidenceRecord): string {
    if naming == ByCheck then r.checkID else r.rowID
  }

  /** The first broken link is reported; without one the list is valid. */
  ghost predicate Verdict(naming: Naming, records: seq<EvidenceRecord>, r: VerificationResult) {
    && r.chainLength == |records|
    && (r.valid <==> Links(records))
    && (r.valid <==> r.tamper == None)
    && (!r.valid ==>
          var i := r.tamper.value.recordIndex;
          && 0 < i < |records| && !Linked(records[i - 1], records[i]) && Links(records[..i])
          && r.tamper.value.expectedHash == records[i - 1].currentHash
          && r.tamper.value.actualHash == records[i].previousHash
          && r.tamper.value.recordID == Name(naming, records[i])
          && r.tamper.value.priorRecordID == Name(naming, records[i - 1]))
  }

  method VerifyChainPure(records: seq<EvidenceRecord>) returns (r: VerificationResult)
    ensures Verdict(ByCheck, records, r)
  {
    r := VerificationResult(true, |records|, None);
    if |records| == 0 {
      return;
    }
    for i := 1 to |records|
      invariant Links(records[..i])
    {
      var prev, curr := records[i - 1], records[i];
      if curr.previousHash != prev.currentHash {
        r := VerificationResult(false, |records|,
            Some(TamperDetail(i, curr.checkID, prev.currentHash, curr.previousHash, prev.checkID)));
        return;
      }
    }
    assert records[..|records|] == records;
  }

  // ---------- Hashes identify records ----------

  lemma {:induction false} HexHasNoBrace(H: string -> string, r: EvidenceRecord)
    requires HexDigest(H) && Sealed(H, r)
    ensures r.Hashed().WellFormed()
  {
    forall c | c in r.previousHash ensures c != '{' {
      assert IsHex(c);
    }
  }

  /** Only the first record can have an empty previous hash. */
  lemma {:induction false} LaterRecordsHaveParents(H: string -> string, chain: seq<EvidenceRecord>, i: nat)
    requires HexDigest(H) && AllSealed(H, chain) && Links(chain) && 0 < i < |chain|
    ensures chain[i].previousHash != ""
  {
    assert Linked(chain[i - 1], chain[i]) && Sealed(H, chain[i - 1]);
  }

  /** Records with the same hash agree on everything that is hashed. */
  lemma {:induction false} SameHashSameFields(H: string -> string, records: seq<EvidenceRecord>, r: EvidenceRecord,
      q: EvidenceRecord)
    requires HexDigest(H) && NoCollision(H, records) && r in records && q in records
    requires Sealed(H, r) && Sealed(H, q) && r.currentHash == q.currentHash
    ensures r.Hashed() == q.Hashed()
  {
    HexHasNoBrace(H, r);
    HexHasNoBrace(H, q);
    UniquelyDecodable(r.Hashed(), q.Hashed());
  }

  /** In a genuine chain no two records have the same hash. */
  lemma {:induction false} HashesAreDistinct(H: string -> string, chain: seq<EvidenceRecord>, i: nat, j: nat)
    requires HexDigest(H) && Genuine(H, chain) && NoCollision(H, chain) && i < j < |chain|
    ensures chain[i].currentHash != chain[j].currentHash
  {
    if chain[i].currentHash == chain[j].currentHash {
      SameHashSameFields(H, chain, chain[i], chain[j]);
      assert Linked(chain[j - 1], chain[j]) && Sealed(H, chain[j - 1]);
      if i > 0 {
        assert Linked(chain[i - 1], chain[i]);
        HashesAreDistinct(H, chain, i - 1, j - 1);
      }
    }
  }

  /** Two records of a genuine chain link exactly when the second follows the first. */
  lemma {:induction false} LinkedMeansNext(H: string -> string, chain: seq<EvidenceRecord>, a: nat, b: nat)
    requires HexDigest(H) && Genuine(H, chain) && NoCollision(H, chain) && a < |chain| && b < |chain|
    ensures Linked(chain[a], chain[b]) <==> b == a + 1
  {
    assert Sealed(H, chain[a]);
    if b > 0 {
      assert Linked(chain[b - 1], chain[b]);
      if a < b - 1 {
        HashesAreDistinct(H, chain, a, b - 1);
      } else if b - 1 < a {
        HashesAreDistinct(H, chain, b - 1, a);
      }
    }
  }

  // ---------- Which selections the verifier accepts ----------

  /** The records at the given positions, in that order, repeats included. */
  function Select(chain: seq<EvidenceRecord>, idx: seq<nat>): (r: seq<EvidenceRecord>)
    requires forall k | 0 <= k < |idx| :: idx[k] < |chain|
    ensures |r| == |idx|
  {
    seq(|idx|, k requires 0 <= k < |idx| => chain[idx[k]])
  }

  /** A run of neighbouring positions. */
  predicate Consecutive(idx: seq<nat>) {
    forall k | 0 < k < |idx| :: idx[k] == idx[k - 1] + 1
  }

  /**
   Of all lists drawn from a genuine chain, the verifier accepts exactly the runs
   of consecutive records, and otherwise reports the first position that does
   not follow its predecessor.
   */
  lemma {:induction false} AcceptsExactlyTheRuns(
    H: string -> string, chain: seq<EvidenceRecord>, idx: seq<nat>, naming: Naming, r: VerificationResult)
    requires HexDigest(H) && Genuine(H, chain) && NoCollision(H, chain)
    requires forall k | 0 <= k < |idx| :: idx[k] < |chain|
    requires Verdict(naming, Select(chain, idx), r)
    ensures r.valid <==> Consecutive(idx)
    ensures !r.valid ==>
              var i := r.tamper.value.recordIndex;
              0 < i < |idx| && idx[i] != idx[i - 1] + 1 && Consecutive(idx[..i])
  {
    var picked := Select(chain, idx);
    forall k | 0 < k < |idx|
      ensures Linked(picked[k - 1], picked[k]) <==> idx[k] == idx[k - 1] + 1
    {
      LinkedMeansNext(H, chain, idx[k - 1], idx[k]);
    }
    if !r.valid {
      var i := r.tamper.value.recordIndex;
      forall k | 0 < k < i ensures idx[k] == idx[k - 1] + 1 {
        assert Linked(picked[..i][k - 1], picked[..i][k]);
      }
    }
  }

  /**
   A record edited anywhere but in its two hashes still recomputes exactly when
   nothing hashed changed; of the violations that is only their number.
   */
  lemma {:induction false} EditedRecordRecomputesIff(H: string -> string, r: EvidenceRecord, edited: EvidenceRecord)
    requires HexDigest(H) && Sealed(H, r) && NoCollision(H, [r, edited])
    requires edited.previousHash == r.previousHash && edited.currentHash == r.currentHash
    ensures Sealed(H, edited) <==>
              && edited.profile == r.profile && |edited.violations| == |r.violations| && edited.passed == r.passed
              && edited.time == r.time && edited.checkedBy == r.checkedBy
  {
    if Sealed(H, edited) {
      SameHashSameFields(H, [r, edited], r, edited);
      assert edited.Hashed() == r.Hashed();
    }
  }

  // ---------- Equal ends mean equal histories ----------

  /**
   Two lists that link and recompute and end in the same hash agree, counting
   back from the end, on every hashed field for as long as both last.
   */
  lemma {:induction false} SameEndSameTail(H: string -> string, a: seq<EvidenceRecord>, b: seq<EvidenceRecord>, k: nat)
    requires HexDigest(H) && NoCollision(H, a + b) && AllSealed(H, a) && AllSealed(H, b) && Links(a) && Links(b)
    requires k < |a| && k < |b| && a[|a| - 1].currentHash == b[|b| - 1].currentHash
    ensures a[|a| - 1 - k].currentHash == b[|b| - 1 - k].currentHash
    ensures a[|a| - 1 - k].Hashed() == b[|b| - 1 - k].Hashed()
        && a[|a| - 1 - k].previousHash == b[|b| - 1 - k].previousHash
  {
    var i, j := |a| - 1 - k, |b| - 1 - k;
    if k > 0 {
      SameEndSameTail(H, a, b, k - 1);
      assert Linked(a[i], a[i + 1]) && Linked(b[j], b[j + 1]);
    }
    assert a[i] == (a + b)[i] && b[j] == (a + b)[|a| + j];
    SameHashSameFields(H, a + b, a[i], b[j]);
    assert a[i].Hashed().previousHash == b[j].Hashed().previousHash;
  }

  lemma {:induction false} NoLonger(H: string -> string, a: seq<EvidenceRecord>, b: seq<EvidenceRecord>)
    requires HexDigest(H) && NoCollision(H, a + b) && Genuine(H, a) && Genuine(H, b)
    requires a != [] && b != [] && a[|a| - 1].currentHash == b[|b| - 1].currentHash
    ensures |b| <= |a|
  {
    if |a| < |b| {
      SameEndSameTail(H, a, b, |a| - 1);
      LaterRecordsHaveParents(H, b, |b| - |a|);
    }
  }

  lemma {:induction false} NoCollisionSwaps(H: string -> string, a: seq<EvidenceRecord>, b: seq<EvidenceRecord>)
    requires NoCollision(H, a + b)
    ensures NoCollision(H, b + a)
  {
    forall r | r in b + a ensures r in a + b {
      assert r in a || r in b;
    }
  }

  /** Two genuine chains that end in the same hash are equally long and agree record by record. */
  lemma {:induction false} SameEndSameHistory(H: string -> string, a: seq<EvidenceRecord>, b: seq<EvidenceRecord>)
    requires HexDigest(H) && NoCollision(H, a + b) && Genuine(H, a) && Genuine(H, b)
    requires a != [] && b != [] && a[|a| - 1].currentHash == b[|b| - 1].currentHash
    ensures |a| == |b|
    ensures forall i | 0 <= i < |a| :: a[i].Hashed() == b[i].Hashed()
  {
    NoLonger(H, a, b);
    NoCollisionSwaps(H, a, b);
    NoLonger(H, b, a);
    forall i | 0 <= i < |a| ensures a[i].Hashed() == b[i].Hashed() {
      SameEndSameTail(H, a, b, |a| - 1 - i);
    }
  }

  // ---------- The store ----------

  /** ORDER BY created_at ASC, equal times in insertion order. */
  function InsertByTime(ordered: seq<EvidenceRecord>, r: EvidenceRecord): seq<EvidenceRecord> {
    if ordered == [] || ordered[|ordered| - 1].createdAt <= r.createdAt then ordered + [r]
    else InsertByTime(ordered[..|ordered| - 1], r) + [ordered[|ordered| - 1]]
  }

  function OrderByTime(rows: seq<EvidenceRecord>): (r: seq<EvidenceRecord>) {
    if rows == [] then [] else InsertByTime(OrderByTime(rows[..|rows| - 1]), rows[|rows| - 1])
  }

  /** What one check contributes: everything but the two hashes. */
  datatype Input = Input(
    rowID: string,
    checkID: string,
    profile: VMProfile,
    violations: seq<string>,
    passed: bool,
    time: Civil,
    createdAt: int)

  function PreviousHash(rows: seq<EvidenceRecord>): string {
    var existing := OrderByTime(rows);
    if existing == [] then "" else existing[|existing| - 1].currentHash
  }

  function NewRecord(H: string -> string, rows: seq<EvidenceRecord>, input: Input): EvidenceRecord {
    var prev := PreviousHash(rows);
    var f := Fields(prev, Marshal(input.profile), |input.violations|, input.passed, input.time, "hana-guardrails");
    EvidenceRecord(
      input.rowID, input.checkID, prev, RecordHash(H, f), f.profile,
      input.violations, input.passed, input.time, input.createdAt, f.checkedBy)
  }

  /** One row after another, each made from the ones before it. */
  function Grown(make: (seq<EvidenceRecord>, Input) -> EvidenceRecord, inputs: seq<Input>): (rows: seq<EvidenceRecord>)
    ensures |rows| == |inputs|
  {
    if inputs == [] then []
    else
      var rows := Grown(make, inputs[..|inputs| - 1]);
      rows + [make(rows, inputs[|inputs| - 1])]
  }

  lemma {:induction false} GrownAt(
    make: (seq<EvidenceRecord>, Input) -> EvidenceRecord, inputs: seq<Input>, k: nat)
    requires k < |inputs|
    ensures Grown(make, inputs)[k] == make(Grown(make, inputs)[..k], inputs[k])
  {
    var n := |inputs| - 1;
    var rows := Grown(make, inputs[..n]);
    assert (rows + [make(rows, inputs[n])])[..n] == rows;
    if k < n {
      GrownAt(make, inputs[..n], k);
      assert (rows + [make(rows, inputs[n])])[..k] == rows[..k];
    }
  }

  /** The table after a run of GenerateEvidence calls, in insertion order. */
  function Generated(H: string -> string, inputs: seq<Input>): (rows: seq<EvidenceRecord>)
    ensures |rows| == |inputs|
  {
    Grown((rows, input) => NewRecord(H, rows, input), inputs)
  }

  /** The record holds what the check found, word for word, and chains to the given hash. */
  predicate Carries(r: EvidenceRecord, input: Input, previousHash: string) {
    && r.rowID == input.rowID && r.checkID == input.checkID && r.previousHash == previousHash
    && r.profile == Marshal(input.profile) && r.violations == input.violations && r.passed == input.passed
    && r.time == input.time && r.createdAt == input.createdAt && r.checkedBy == "hana-guardrails"
  }

  class EvidenceStore {
    const H: string -> string
    var rows: seq<EvidenceRecord>

    constructor (H: string -> string)
      ensures this.H == H && rows == []
    {
      this.H := H;
      rows := [];
    }

    /** Appends one record under the store's lock; a failing insert appends nothing. */
    method GenerateEvidence(input: Input, insertOk: bool) returns (r: Option<EvidenceRecord>)
      modifies this`rows
      ensures insertOk ==>
          r == Some(NewRecord(H, old(rows), input)) && rows == old(rows) + [NewRecord(H, old(rows), input)]
      ensures insertOk ==> Carries(r.value, input, PreviousHash(old(rows)))
      ensures !insertOk ==> r == None && rows == old(rows)
    {
      var existing := OrderByTime(rows);
      var previousHash := "";
      if |existing| > 0 {
        previousHash := existing[|existing| - 1].currentHash;
      }
      var profileJSON := Marshal(input.profile);
      var text := previousHash + (profileJSON + (Dec(|input.violations|) + (PassedDigit(input.passed)
                  + (RFC3339(input.time) + "hana-guardrails"))));
      var record := EvidenceRecord(
        input.rowID, input.checkID, previousHash, H(text), profileJSON,
        input.violations, input.passed, input.time, input.createdAt, "hana-guardrails");
      if !insertOk {
        return None;
      }
      rows := rows + [record];
      return Some(record);
    }

    method VerifyEvidenceChain() returns (r: VerificationResult)
      ensures Verdict(ByRow, OrderByTime(rows), r)
    {
      var evidence := OrderByTime(rows);
      r := VerificationResult(true, |evidence|, None);
      if |evidence| == 0 {
        return;
      }
      for i := 1 to |evidence|
        invariant Links(evidence[..i])
      {
        var prev, curr := evidence[i - 1], evidence[i];
        if curr.previousHash != prev.currentHash {
          r := VerificationResult(
            false, |evidence|, Some(TamperDetail(i, curr.rowID, prev.currentHash, curr.previousHash, prev.rowID)));
          return;
        }
      }
      assert evidence[..|evidence|] == evidence;
    }
  }

  predicate TimeOrdered(rows: seq<EvidenceRecord>) {
    forall i, j | 0 <= i < j < |rows| :: rows[i].createdAt <= rows[j].createdAt
  }

  lemma {:induction false} InsertKeepsAll(ordered: seq<EvidenceRecord>, r: EvidenceRecord)
    ensures multiset(InsertByTime(ordered, r)) == multiset(ordered) + multiset{r}
  {
    if ordered != [] && ordered[|ordered| - 1].createdAt > r.createdAt {
      InsertKeepsAll(ordered[..|ordered| - 1], r);
      assert ordered == ordered[..|ordered| - 1] + [ordered[|ordered| - 1]];
    }
  }

  lemma {:induction false} InsertOrders(ordered: seq<EvidenceRecord>, r: EvidenceRecord)
    requires TimeOrdered(ordered)
    ensures TimeOrdered(InsertByTime(ordered, r))
  {
    if ordered != [] && ordered[|ordered| - 1].createdAt > r.createdAt {
      var front, last := ordered[..|ordered| - 1], ordered[|ordered| - 1];
      InsertOrders(front, r);
      InsertStaysBefore(front, r, last.createdAt);
    }
  }

  lemma {:induction false} InsertStaysBefore(ordered: seq<EvidenceRecord>, r: EvidenceRecord, time: int)
    requires r.createdAt <= time && forall k | 0 <= k < |ordered| :: ordered[k].createdAt <= time
    ensures forall k | 0 <= k < |InsertByTime(ordered, r)| :: InsertByTime(ordered, r)[k].createdAt <= time
  {
    if ordered != [] && ordered[|ordered| - 1].createdAt > r.createdAt {
      InsertStaysBefore(ordered[..|ordered| - 1], r, time);
    }
  }

  lemma {:induction false} OrderByTimeOrders(rows: seq<EvidenceRecord>)
    ensures TimeOrdered(OrderByTime(rows)) && multiset(OrderByTime(rows)) == multiset(rows)
  {
    if rows != [] {
      var front, last := rows[..|rows| - 1], rows[|rows| - 1];
      OrderByTimeOrders(front);
      InsertOrders(OrderByTime(front), last);
      InsertKeepsAll(OrderByTime(front), last);
      assert rows == front + [last];
    }
  }

  lemma {:induction false} LatestGoesLast(ordered: seq<EvidenceRecord>, r: EvidenceRecord)
    requires ordered == [] || ordered[|ordered| - 1].createdAt <= r.createdAt
    ensures InsertByTime(ordered, r) == ordered + [r]
  {
  }

  lemma {:induction false} OrderedStaysPut(rows: seq<EvidenceRecord>)
    requires TimeOrdered(rows)
    ensures OrderByTime(rows) == rows
  {
    if rows != [] {
      var front, last := rows[..|rows| - 1], rows[|rows| - 1];
      assert TimeOrdered(front) && (front == [] || front[|front| - 1].createdAt <= last.createdAt);
      OrderedStaysPut(front);
      LatestGoesLast(front, last);
      assert rows == front + [last];
    }
  }

  /** The record a new one chains to is the latest so far. */
  lemma {:induction false} ChainsToTheLatest(rows: seq<EvidenceRecord>) returns (latest: EvidenceRecord)
    requires rows != []
    ensures latest in rows && PreviousHash(rows) == latest.currentHash
    ensures forall r | r in rows :: r.createdAt <= latest.createdAt
  {
    OrderByTimeOrders(rows);
    var ordered := OrderByTime(rows);
    assert |multiset(ordered)| == |multiset(rows)| == |rows|;
    latest := ordered[|ordered| - 1];
    assert latest in multiset(rows);
    forall r | r in rows ensures r.createdAt <= latest.createdAt {
      assert r in multiset(ordered);
    }
  }

  predicate FourDigitYears(inputs: seq<Input>) {
    forall x | x in inputs :: x.time.FourDigitYear()
  }

  lemma {:induction false} GeneratedAreSealed(H: string -> string, inputs: seq<Input>)
    requires FourDigitYears(inputs)
    ensures AllSealed(H, Generated(H, inputs))
  {
    if inputs != [] {
      var n := |inputs| - 1;
      GeneratedAreSealed(H, inputs[..n]);
      var rows := Generated(H, inputs[..n]);
      assert inputs[n] in inputs;
      if rows != [] {
        var latest := ChainsToTheLatest(rows);
        assert latest.currentHash == H(Encode(latest.Hashed()));
      }
      MarshalIsObject(inputs[n].profile);
      assert Sealed(H, NewRecord(H, rows, inputs[n]));
    }
  }

  /** Every record was made from the ones before it. */
  lemma {:induction false} GeneratedAt(H: string -> string, inputs: seq<Input>, k: nat)
    requires k < |inputs|
    ensures Generated(H, inputs)[k] == NewRecord(H, Generated(H, inputs)[..k], inputs[k])
  {
    GrownAt((rows, input) => NewRecord(H, rows, input), inputs, k);
  }

  predicate ClockNeverBack(inputs: seq<Input>) {
    forall i, j | 0 <= i < j < |inputs| :: inputs[i].createdAt <= inputs[j].createdAt
  }

  lemma {:induction false} GeneratedTimes(H: string -> string, inputs: seq<Input>, k: nat)
    requires k < |inputs|
    ensures Generated(H, inputs)[k].createdAt == inputs[k].createdAt
  {
    GeneratedAt(H, inputs, k);
  }

  lemma {:induction false} SteadyClockIsOrdered(H: string -> string, inputs: seq<Input>)
    requires ClockNeverBack(inputs)
    ensures TimeOrdered(Generated(H, inputs))
  {
    var rows := Generated(H, inputs);
    forall i, j | 0 <= i < j < |rows| ensures rows[i].createdAt <= rows[j].createdAt {
      GeneratedTimes(H, inputs, i);
      GeneratedTimes(H, inputs, j);
    }
  }

  /** With a clock that never steps back, generation yields a genuine chain in reading order. */
  lemma {:induction false} SteadyClockIsGenuine(H: string -> string, inputs: seq<Input>)
    requires FourDigitYears(inputs) && ClockNeverBack(inputs)
    ensures OrderByTime(Generated(H, inputs)) == Generated(H, inputs) && Genuine(H, Generated(H, inputs))
  {
    var rows := Generated(H, inputs);
    GeneratedAreSealed(H, inputs);
    SteadyClockIsOrdered(H, inputs);
    OrderedStaysPut(rows);
    forall k | 0 < k < |rows| ensures Linked(rows[k - 1], rows[k]) {
      ChainsToPredecessor(H, inputs, k);
    }
    if rows != [] {
      ChainsToPredecessor(H, inputs, 0);
    }
  }

  lemma {:induction false} OrderedPreviousHash(rows: seq<EvidenceRecord>)
    requires TimeOrdered(rows)
    ensures PreviousHash(rows) == if rows == [] then "" else rows[|rows| - 1].currentHash
  {
    OrderedStaysPut(rows);
  }

  lemma {:induction false} ChainsToPredecessor(H: string -> string, inputs: seq<Input>, k: nat)
    requires k < |inputs| && TimeOrdered(Generated(H, inputs))
    ensures var rows := Generated(H, inputs);
            rows[k].previousHash == if k == 0 then "" else rows[k - 1].currentHash
  {
    var rows := Generated(H, inputs);
    var earlier := rows[..k];
    assert TimeOrdered(earlier);
    OrderedPreviousHash(earlier);
    assert rows[k] == NewRecord(H, earlier, inputs[k]) by {
      GeneratedAt(H, inputs, k);
    }
  }

  /** If the reading order verifies, it is a genuine chain. */
  lemma {:induction false} ValidReadingIsGenuine(H: string -> string, inputs: seq<Input>)
    requires HexDigest(H) && FourDigitYears(inputs) && Links(OrderByTime(Generated(H, inputs)))
    ensures Genuine(H, OrderByTime(Generated(H, inputs)))
  {
    var rows := Generated(H, inputs);
    var ordered := OrderByTime(rows);
    GeneratedAreSealed(H, inputs);
    OrderByTimeOrders(rows);
    forall r | r in ordered ensures Sealed(H, r) {
      assert r in multiset(rows);
    }
    if rows != [] {
      GeneratedAt(H, inputs, 0);
      assert rows[0] in multiset(ordered);
      var p :| 0 <= p < |ordered| && ordered[p] == rows[0];
      if p > 0 {
        LaterRecordsHaveParents(H, ordered, p);
      }
    }
  }

  /** A record that links to an earlier one in a valid reading order is not older than it. */
  lemma {:induction false} LinkedIsNotOlder(H: string -> string, ordered: seq<EvidenceRecord>, r: EvidenceRecord,
      latest: EvidenceRecord)
    requires HexDigest(H) && Genuine(H, ordered) && NoCollision(H, ordered) && TimeOrdered(ordered)
    requires r in ordered && latest in ordered && Linked(latest, r)
    ensures latest.createdAt <= r.createdAt
  {
    var a :| 0 <= a < |ordered| && ordered[a] == latest;
    var b :| 0 <= b < |ordered| && ordered[b] == r;
    LinkedMeansNext(H, ordered, a, b);
  }

  /** In a store whose reading order is a genuine chain, no record is older than one before it. */
  lemma {:induction false} GenuineReadingIsSteady(H: string -> string, inputs: seq<Input>, i: nat, j: nat)
    requires HexDigest(H) && i < j < |inputs| && NoCollision(H, OrderByTime(Generated(H, inputs)))
    requires Genuine(H, OrderByTime(Generated(H, inputs)))
    ensures inputs[i].createdAt <= inputs[j].createdAt
  {
    var rows := Generated(H, inputs);
    var ordered := OrderByTime(rows);
    OrderByTimeOrders(rows);
    GeneratedTimes(H, inputs, i);
    GeneratedTimes(H, inputs, j);
    GeneratedAt(H, inputs, j);
    var latest := ChainsToTheLatest(rows[..j]);
    assert rows[..j][i] == rows[i];
    assert rows[j] in multiset(ordered);
    assert latest in rows && latest in multiset(ordered);
    LinkedIsNotOlder(H, ordered, rows[j], latest);
  }

  lemma {:induction false} NoCollisionPermutes(H: string -> string, a: seq<EvidenceRecord>, b: seq<EvidenceRecord>)
    requires NoCollision(H, a) && multiset(a) == multiset(b)
    ensures NoCollision(H, b)
  {
    forall r | r in b ensures r in a {
      assert r in multiset(b);
    }
  }

  /**
   An untouched store verifies exactly when the clock never stepped back between
   its records: a record stamped earlier than one already stored is read before
   it and breaks the chain for good.
   */
  lemma {:induction false} UntouchedStoreVerifiesIff(H: string -> string, inputs: seq<Input>, naming: Naming,
      r: VerificationResult)
    requires HexDigest(H) && FourDigitYears(inputs) && NoCollision(H, Generated(H, inputs))
    requires Verdict(naming, OrderByTime(Generated(H, inputs)), r)
    ensures r.valid <==> ClockNeverBack(inputs)
  {
    if ClockNeverBack(inputs) {
      SteadyClockIsGenuine(H, inputs);
    }
    if r.valid {
      ValidReadingIsGenuine(H, inputs);
      OrderByTimeOrders(Generated(H, inputs));
      NoCollisionPermutes(H, Generated(H, inputs), OrderByTime(Generated(H, inputs)));
      forall i, j | 0 <= i < j < |inputs| ensures inputs[i].createdAt <= inputs[j].createdAt {
        GenuineReadingIsSteady(H, inputs, i, j);
      }
    }
  }
}
