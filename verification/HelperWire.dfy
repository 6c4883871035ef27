/** The fixed wire protocol between the adapter and the native helper: decimal arguments and success records. */
module HelperWire {
  import opened Bytes
  import opened Splitting
  import opened Wrappers
  import Decimal
  import Hex
  import Unicode

  const ZERO: byte := '0' as int
  const NINE: byte := '9' as int
  const TAB: byte := 9
  const LF: byte := 10

  // ---- Decimal arguments.

  function DecimalBytes(n: nat): (r: seq<byte>)
    ensures |r| >= 1
  {
    var ds := Decimal.Digits(n);
    seq(|ds|, i requires 0 <= i < |ds| => ZERO + ds[i])
  }

  predicate Numeral(value: seq<byte>) {
    |value| >= 1 && (value[0] == ZERO ==> |value| == 1) && forall i :: 0 <= i < |value| ==> ZERO <= value[i] <= NINE
  }

  function DigitsOf(value: seq<byte>): (ds: seq<Decimal.digit>)
    requires forall i :: 0 <= i < |value| ==> ZERO <= value[i] <= NINE
    ensures |ds| == |value| && forall i :: 0 <= i < |value| ==> ds[i] == value[i] - ZERO
  {
    seq(|value|, i requires 0 <= i < |value| => value[i] - ZERO)
  }

  lemma NumeralOfPrinted(n: nat)
    ensures Numeral(DecimalBytes(n)) && Decimal.Value(DigitsOf(DecimalBytes(n))) == n
  {
    Decimal.ReadPrinted(n);
    assert DigitsOf(DecimalBytes(n)) == Decimal.Digits(n);
  }

  lemma PrintedOfNumeral(value: seq<byte>)
    requires Numeral(value)
    ensures DecimalBytes(Decimal.Value(DigitsOf(value))) == value
  {
    Decimal.PrintRead(DigitsOf(value));
  }

  /** `parse_u64`: it inverts canonical decimal printing and accepts nothing else. */
  method ParseU64(value: seq<byte>, maximum: u64) returns (r: Option<u64>)
    ensures r.Some? ==> r.value <= maximum && value == DecimalBytes(r.value)
    ensures r.None? ==> forall n: nat :: n <= maximum ==> value != DecimalBytes(n)
  {
    forall n: nat ensures Numeral(DecimalBytes(n)) && Decimal.Value(DigitsOf(DecimalBytes(n))) == n {
      NumeralOfPrinted(n);
    }
    if |value| == 0 || (value[0] == ZERO && |value| != 1) {
      return None;
    }
    for cursor := 0 to |value|
      invariant forall i :: 0 <= i < cursor ==> ZERO <= value[i] <= NINE
    {
      if value[cursor] < ZERO || value[cursor] > NINE {
        return None;
      }
    }
    PrintedOfNumeral(value);
    var parsed := Strtoull(value);
    if parsed >= TWO_64 || parsed > maximum {
      return None;
    }
    r := Some(parsed);
  }

  /** The digits read by `strtoull`, before its range check. */
  method Strtoull(value: seq<byte>) returns (n: nat)
    requires forall i :: 0 <= i < |value| ==> ZERO <= value[i] <= NINE
    ensures n == Decimal.Value(DigitsOf(value))
  {
    n := 0;
    var ds := DigitsOf(value);
    for i := 0 to |value|
      invariant n == Decimal.Value(ds[..i])
    {
      n := 10 * n + (value[i] - ZERO);
      assert ds[..i + 1][..i] == ds[..i];
    }
    assert ds[..|value|] == ds;
  }

  // ---- Success records.

  datatype Operation =
    InspectCreate | ExecuteCreate | InspectReplace | ExecuteReplace | InspectMkdir | ExecuteMkdir | TreeCommitment

  predicate IsExecute(op: Operation) { op.ExecuteCreate? || op.ExecuteReplace? || op.ExecuteMkdir? }

  /** The digests the adapter expects; the helper prints as many for every operation it can complete. */
  function DigestCount(op: Operation): (n: nat)
    ensures 1 <= n <= 3
  {
    if op.InspectReplace? then 2 else if op.ExecuteReplace? then 3 else if IsExecute(op) then 2 else 1
  }

  /** The text of a record; both sides of the wire write and read it as characters. */
  type line = seq<int>

  function OkText(): line { Ascii("OK") }

  predicate AllDigests(ds: seq<line>) { forall i :: 0 <= i < |ds| ==> Hex.IsLowercaseDigest(ds[i]) }

  /** `printf("OK\t%s...\n", ...)` */
  function PrintRecord(ds: seq<line>): (r: line) {
    Join<int>([OkText()] + ds, TAB) + [LF]
  }

  /** `parseHelperSuccess` after decoding */
  function ParseText(text: line, op: Operation): (r: Option<seq<line>>) {
    if text == [] || text[|text| - 1] != LF || LF in text[..|text| - 1] then None
    else
      var fields := Split<int>(text[..|text| - 1], TAB);
      if fields[0] != OkText() || |fields| != DigestCount(op) + 1 then None
      else if !AllDigests(fields[1..]) then None
      else Some(fields[1..])
  }

  /** `parseHelperSuccess` */
  function ParseRecord(bytes: seq<byte>, op: Operation): (r: Option<seq<line>>) {
    match Unicode.DecodeText(bytes)
    case None => None
    case Some(text) => ParseText(text, op)
  }

  lemma {:induction false} JoinHolds(parts: seq<line>, sep: int)
    requires |parts| >= 1 && sep != LF && 0 <= sep < 128
    requires forall p :: p in parts ==> LF !in p && Unicode.AllAscii(p)
    ensures LF !in Join<int>(parts, sep) && Unicode.AllAscii(Join<int>(parts, sep))
  {
    assert parts[0] in parts;
    if |parts| > 1 {
      JoinHolds(parts[1..], sep);
    }
  }

  lemma DigestHolds(d: line)
    requires Hex.IsLowercaseDigest(d)
    ensures TAB !in d && LF !in d && Unicode.AllAscii(d)
  {
  }

  lemma OkHolds()
    ensures OkText() != [] && OkText()[0] == 'O' as int && TAB !in OkText() && LF !in OkText() && Unicode.AllAscii(OkText())
  {
  }

  /** A printed record is plain ASCII, and its text is read back to exactly its digests. */
  lemma TextRoundTrip(op: Operation, ds: seq<line>)
    requires |ds| == DigestCount(op) && AllDigests(ds)
    ensures ParseText(PrintRecord(ds), op) == Some(ds) && Unicode.AllAscii(PrintRecord(ds))
  {
    hide Split, Join, Hex.IsLowercaseDigest, OkText, Unicode.AllAscii;
    var parts := [OkText()] + ds;
    OkHolds();
    forall p | p in parts ensures TAB !in p && LF !in p && Unicode.AllAscii(p) {
      if p != OkText() { DigestHolds(p); }
    }
    JoinHolds(parts, TAB);
    SplitJoin<int>(parts, TAB);
    var text := PrintRecord(ds);
    assert text[..|text| - 1] == Join<int>(parts, TAB);
    assert parts[1..] == ds;
    StillAscii(Join<int>(parts, TAB));
  }

  lemma StillAscii(s: line)
    requires Unicode.AllAscii(s)
    ensures Unicode.AllAscii(s + [LF])
  {
  }

  lemma OnlyRecordTexts(op: Operation, text: line)
    requires ParseText(text, op).Some?
    ensures var ds := ParseText(text, op).value; |ds| == DigestCount(op) && AllDigests(ds) && text == PrintRecord(ds)
  {
    hide Split, Join, AllDigests, OkText;
    var body := text[..|text| - 1];
    var fields := Split<int>(body, TAB);
    JoinSplit<int>(body, TAB);
    assert fields == [OkText()] + fields[1..];
    assert text == body + [LF];
  }

  /** Every success record the helper prints is read back to exactly its digests. */
  lemma RecordRoundTrip(op: Operation, ds: seq<line>) returns (bytes: seq<byte>)
    requires |ds| == DigestCount(op) && AllDigests(ds)
    ensures bytes == PrintRecord(ds) && ParseRecord(bytes, op) == Some(ds)
  {
    hide ParseText, PrintRecord, Unicode.DecodeText, AllDigests;
    TextRoundTrip(op, ds);
    bytes := AsOctets(PrintRecord(ds));
    Unicode.AsciiDecodes(bytes, bytes);
  }

  lemma AsOctets(s: line) returns (bytes: seq<byte>)
    requires Unicode.AllAscii(s)
    ensures bytes == s
  {
    bytes := s;
  }

  /** The adapter accepts exactly the printed records of valid digests, and those behind one byte order mark. */
  lemma AcceptedIff(op: Operation, bytes: seq<byte>, ds: seq<line>)
    ensures ParseRecord(bytes, op) == Some(ds) <==>
      |ds| == DigestCount(op) && AllDigests(ds) && (bytes == PrintRecord(ds) || bytes == Unicode.MARK + PrintRecord(ds))
  {
    hide ParseText, PrintRecord, Unicode.DecodeText, AllDigests;
    if ParseRecord(bytes, op) == Some(ds) {
      var text := Unicode.DecodeText(bytes).value;
      OnlyRecordTexts(op, text);
      TextRoundTrip(op, ds);
      var octets := AsOctets(text);
      Unicode.AsciiDecodes(bytes, octets);
    }
    if |ds| == DigestCount(op) && AllDigests(ds) {
      TextRoundTrip(op, ds);
      var octets := AsOctets(PrintRecord(ds));
      Unicode.AsciiDecodes(bytes, octets);
    }
  }

  /** So what is accepted is not always what was printed: a byte order mark goes unnoticed. */
  lemma MarkIsAccepted(op: Operation, ds: seq<line>) returns (bytes: seq<byte>)
    requires |ds| == DigestCount(op) && AllDigests(ds)
    ensures ParseRecord(bytes, op) == Some(ds) && forall es :: bytes != PrintRecord(es)
  {
    hide ParseRecord, AllDigests, Join;
    var record := RecordRoundTrip(op, ds);
    bytes := Unicode.MARK + record;
    AcceptedIff(op, bytes, ds);
    forall es ensures bytes != PrintRecord(es) {
      BeginsWithOk(es);
    }
  }

  lemma BeginsWithOk(ds: seq<line>)
    ensures PrintRecord(ds) != [] && PrintRecord(ds)[0] == 'O' as int
  {
    var parts := [OkText()] + ds;
    assert Join<int>(parts, TAB)[0] == OkText()[0];
  }
}
