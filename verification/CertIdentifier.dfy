/** RFC 9773 certificate identifiers: the parser and the canonical printer. */
module CertIdentifier {
  import opened Prelude
  import Base64

  /** The issuer's key identifier and the serial number. */
  datatype Id = Id(aki: Bytes, serial: nat)

  /** big.Int.Bytes: big-endian, no leading zero, nothing at all for zero. */
  function Magnitude(n: nat): (b: Bytes)
    ensures b != [] ==> b[0] != 0
    ensures n == 0 <==> b == []
  {
    if n == 0 then [] else Magnitude(n / 256) + [(n % 256) as Byte]
  }

  lemma {:induction false} MagnitudeRoundTrip(n: nat)
    ensures FromBigEndian(Magnitude(n)) == n
  {
    if n > 0 {
      MagnitudeRoundTrip(n / 256);
      assert Magnitude(n)[..|Magnitude(n)| - 1] == Magnitude(n / 256);
    }
  }

  lemma {:induction false} LeadingZero(b: Bytes)
    ensures FromBigEndian([0] + b) == FromBigEndian(b)
  {
    if b != [] {
      assert ([0] + b)[..|b|] == [0] + b[..|b| - 1];
      LeadingZero(b[..|b| - 1]);
    } else {
      assert [0] + b == [0];
      assert [0 as Byte][..0] == [];
    }
  }

  predicate HighBit(b: Byte) {
    b >= 128
  }

  /** The position of the first dot, as strings.Cut finds it; |s| when there is none. */
  function FirstDot(s: string): (i: nat)
    ensures i <= |s|
    ensures i < |s| ==> s[i] == '.'
    ensures forall j :: 0 <= j < i ==> s[j] != '.'
  {
    if s == "" || s[0] == '.' then 0 else 1 + FirstDot(s[1..])
  }

  function Parse(raw: string): Option<Id> {
    var dot := FirstDot(raw);
    if dot == |raw| then None
    else
      var aki := Base64.Decode(raw[..dot]);
      var serial := Base64.Decode(raw[dot + 1..]);
      if aki.None? || serial.None? || aki.value == [] || serial.value == [] || HighBit(serial.value[0]) then None
      else Some(Id(aki.value, FromBigEndian(serial.value)))
  }

  /** The serial's DER content octets: a zero in front when the sign bit would be set. */
  function SerialOctets(n: nat): (b: Bytes)
    ensures b != [] && !HighBit(b[0])
  {
    var m := Magnitude(n);
    if m == [] || HighBit(m[0]) then [0] + m else m
  }

  function Print(id: Id): string {
    Base64.Encode(id.aki) + "." + Base64.Encode(SerialOctets(id.serial))
  }

  /** Parsing the printed form gives the identifier back. */
  lemma RoundTrip(id: Id)
    requires id.aki != []
    ensures Parse(Print(id)) == Some(id)
  {
    var a, s := Base64.Encode(id.aki), Base64.Encode(SerialOctets(id.serial));
    Base64.RoundTrip(id.aki);
    Base64.RoundTrip(SerialOctets(id.serial));
    var raw := Print(id);
    var dot := FirstDot(raw);
    assert raw[|a|] == '.';
    assert forall i :: 0 <= i < |a| ==> raw[i] == a[i];
    assert dot == |a|;
    assert raw[..dot] == a && raw[dot + 1..] == s;
    MagnitudeRoundTrip(id.serial);
    LeadingZero(Magnitude(id.serial));
  }

  lemma PrintInjective(a: Id, b: Id)
    requires a.aki != [] && b.aki != []
    ensures Print(a) == Print(b) <==> a == b
  {
    RoundTrip(a);
    RoundTrip(b);
  }

  lemma ParsedHasIssuer(raw: string)
    requires Parse(raw).Some?
    ensures Parse(raw).value.aki != []
  {
  }

  /** Printing what was parsed is canonical: doing it twice changes nothing. */
  lemma ParsePrintIdempotent(raw: string)
    requires Parse(raw).Some?
    ensures var canonical := Print(Parse(raw).value);
            && Parse(canonical) == Parse(raw)
            && Print(Parse(canonical).value) == canonical
  {
    ParsedHasIssuer(raw);
    RoundTrip(Parse(raw).value);
  }

  /** Two accepted spellings name one certificate exactly when they print the same. */
  lemma SpellingsAgree(raw1: string, raw2: string)
    requires Parse(raw1).Some? && Parse(raw2).Some?
    ensures Print(Parse(raw1).value) == Print(Parse(raw2).value) <==> Parse(raw1) == Parse(raw2)
  {
    ParsedHasIssuer(raw1);
    ParsedHasIssuer(raw2);
    PrintInjective(Parse(raw1).value, Parse(raw2).value);
  }

  /**
   What is accepted, part by part: what decodes to some octets before the first dot, and
   behind it to those of a number that is not negative.
   */
  lemma ParsedExactly(left: string, right: string)
    requires '.' !in left
    ensures Parse(left) == None
    ensures var aki, octets := Base64.Decode(left), Base64.Decode(right);
            if aki.Some? && octets.Some? && aki.value != [] && octets.value != [] && octets.value[0] < 128
            then Parse(left + "." + right) == Some(Id(aki.value, FromBigEndian(octets.value)))
            else Parse(left + "." + right) == None
  {
    var raw := left + "." + right;
    assert raw[|left|] == '.' && forall i :: 0 <= i < |left| ==> raw[i] == left[i];
    assert FirstDot(raw) == |left| && raw[..|left|] == left && raw[|left| + 1..] == right;
  }

  /** The serial is printed as its DER content octets: of the number, never negative, and none too many. */
  lemma SerialIsMinimal(n: nat)
    ensures var b := SerialOctets(n);
            && b != [] && FromBigEndian(b) == n && b[0] < 128
            && (|b| > 1 && b[0] == 0 ==> b[1] >= 128)
  {
    MagnitudeRoundTrip(n);
    LeadingZero(Magnitude(n));
  }
}
