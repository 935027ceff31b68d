/** Unpadded base64url (RFC 4648 section 5), decoding as leniently as Go's RawURLEncoding. */
module Base64 {
  import opened Prelude

  type Sextet = x: int | 0 <= x < 64

  // ---------- sextets and letters ----------

  function Letter(v: Sextet): char {
    if v < 26 then 'A' + v as char
    else if v < 52 then 'a' + (v - 26) as char
    else if v < 62 then '0' + (v - 52) as char
    else if v == 62 then '-'
    else '_'
  }

  function Value(c: char): Option<Sextet> {
    if 'A' <= c <= 'Z' then Some(c as int - 'A' as int)
    else if 'a' <= c <= 'z' then Some(c as int - 'a' as int + 26)
    else if '0' <= c <= '9' then Some(c as int - '0' as int + 52)
    else if c == '-' then Some(62)
    else if c == '_' then Some(63)
    else None
  }

  lemma LetterRoundTrip(v: Sextet)
    ensures Value(Letter(v)) == Some(v)
    ensures Letter(v) != '.' && Letter(v) != '\n' && Letter(v) != '\r'
  {
  }

  function Letters(vs: seq<Sextet>): string {
    if vs == [] then "" else [Letter(vs[0])] + Letters(vs[1..])
  }

  /** One character outside the alphabet spoils all of it. */
  function Values(s: string): Option<seq<Sextet>> {
    if s == "" then Some([])
    else
      var v, rest := Value(s[0]), Values(s[1..]);
      if v.None? || rest.None? then None else Some([v.value] + rest.value)
  }

  /** The decoder skips line breaks wherever they are. */
  function StripBreaks(s: string): string {
    if s == "" then ""
    else if s[0] == '\r' || s[0] == '\n' then StripBreaks(s[1..])
    else [s[0]] + StripBreaks(s[1..])
  }

  lemma {:induction false} LettersRoundTrip(vs: seq<Sextet>)
    ensures Values(StripBreaks(Letters(vs))) == Some(vs)
    ensures '.' !in Letters(vs)
  {
    if vs != [] {
      LetterRoundTrip(vs[0]);
      LettersRoundTrip(vs[1..]);
      var rest := Letters(vs[1..]);
      assert ([Letter(vs[0])] + rest)[1..] == rest;
      assert ([Letter(vs[0])] + StripBreaks(rest))[1..] == StripBreaks(rest);
      assert vs == [vs[0]] + vs[1..];
    }
  }

  // ---------- bytes and sextets ----------

  function Front(x: Byte): Sextet {
    x as int / 4
  }

  function Across(x: Byte, y: Byte): Sextet {
    x as int % 4 * 16 + y as int / 16
  }

  function Along(y: Byte, z: Byte): Sextet {
    y as int % 16 * 4 + z as int / 64
  }

  function Back(z: Byte): Sextet {
    z as int % 64
  }

  function First(v0: Sextet, v1: Sextet): Byte {
    (v0 * 4 + v1 / 16) as Byte
  }

  function Second(v1: Sextet, v2: Sextet): Byte {
    (v1 % 16 * 16 + v2 / 4) as Byte
  }

  function Third(v2: Sextet, v3: Sextet): Byte {
    (v2 % 4 * 64 + v3) as Byte
  }

  /** Three bytes at a time, the last group short and padded with zero bits. */
  function Split(b: Bytes): seq<Sextet> {
    if |b| == 0 then []
    else if |b| == 1 then [Front(b[0]), Across(b[0], 0)]
    else if |b| == 2 then [Front(b[0]), Across(b[0], b[1]), Along(b[1], 0)]
    else [Front(b[0]), Across(b[0], b[1]), Along(b[1], b[2]), Back(b[2])] + Split(b[3..])
  }

  /** Groups of four; the unused low bits of a short last group are ignored. */
  function Join(vs: seq<Sextet>): Option<Bytes> {
    if |vs| == 0 then Some([])
    else if |vs| == 1 then None
    else if |vs| == 2 then Some([First(vs[0], vs[1])])
    else if |vs| == 3 then Some([First(vs[0], vs[1]), Second(vs[1], vs[2])])
    else
      var rest := Join(vs[4..]);
      if rest.None? then None
      else Some([First(vs[0], vs[1]), Second(vs[1], vs[2]), Third(vs[2], vs[3])] + rest.value)
  }

  /** A group's sextets give its bytes back. */
  lemma GroupRoundTrip(x: Byte, y: Byte, z: Byte)
    ensures First(Front(x), Across(x, y)) == x
    ensures Second(Across(x, y), Along(y, z)) == y
    ensures Third(Along(y, z), Back(z)) == z
  {
  }

  /** A whole group in front of what joins to b. */
  lemma JoinFour(v0: Sextet, v1: Sextet, v2: Sextet, v3: Sextet, vs: seq<Sextet>, b: Bytes)
    requires Join(vs) == Some(b)
    ensures Join([v0, v1, v2, v3] + vs) == Some([First(v0, v1), Second(v1, v2), Third(v2, v3)] + b)
  {
    assert ([v0, v1, v2, v3] + vs)[4..] == vs;
  }

  lemma JoinGroup(x: Byte, y: Byte, z: Byte, vs: seq<Sextet>, b: Bytes)
    requires Join(vs) == Some(b)
    ensures Join([Front(x), Across(x, y), Along(y, z), Back(z)] + vs) == Some([x, y, z] + b)
  {
    GroupRoundTrip(x, y, z);
    JoinFour(Front(x), Across(x, y), Along(y, z), Back(z), vs, b);
  }

  lemma JoinTwo(v0: Sextet, v1: Sextet)
    ensures Join([v0, v1]) == Some([First(v0, v1)])
  {
  }

  lemma JoinThree(v0: Sextet, v1: Sextet, v2: Sextet)
    ensures Join([v0, v1, v2]) == Some([First(v0, v1), Second(v1, v2)])
  {
  }

  lemma JoinOneByte(x: Byte, zero: Byte)
    ensures Join([Front(x), Across(x, zero)]) == Some([x])
  {
    GroupRoundTrip(x, zero, zero);
    JoinTwo(Front(x), Across(x, zero));
  }

  lemma JoinTwoBytes(x: Byte, y: Byte, zero: Byte)
    ensures Join([Front(x), Across(x, y), Along(y, zero)]) == Some([x, y])
  {
    GroupRoundTrip(x, y, zero);
    JoinThree(Front(x), Across(x, y), Along(y, zero));
  }

  lemma {:induction false} JoinSplit(b: Bytes)
    ensures Join(Split(b)) == Some(b)
  {
    if |b| == 1 {
      JoinOneByte(b[0], 0);
      assert b == [b[0]];
    } else if |b| == 2 {
      JoinTwoBytes(b[0], b[1], 0);
      assert b == [b[0], b[1]];
    } else if |b| >= 3 {
      JoinSplit(b[3..]);
      JoinGroup(b[0], b[1], b[2], Split(b[3..]), b[3..]);
      assert b == [b[0], b[1], b[2]] + b[3..];
    }
  }

  // ---------- the encoding ----------

  function Encode(b: Bytes): string {
    Letters(Split(b))
  }

  function Decode(s: string): Option<Bytes> {
    var vs := Values(StripBreaks(s));
    if vs.None? then None else Join(vs.value)
  }

  /** Decoding undoes encoding, and what is encoded carries no dot. */
  lemma RoundTrip(b: Bytes)
    ensures Decode(Encode(b)) == Some(b)
    ensures '.' !in Encode(b)
  {
    LettersRoundTrip(Split(b));
    JoinSplit(b);
  }

  // ---------- as RFC 4648 defines it ----------

  /** Table 2 of section 5, by where its runs begin and end. */
  lemma LetterTable()
    ensures Letter(0) == 'A' && Letter(25) == 'Z' && Letter(26) == 'a' && Letter(51) == 'z'
    ensures Letter(52) == '0' && Letter(61) == '9' && Letter(62) == '-' && Letter(63) == '_'
    ensures forall v: Sextet :: v < 61 && v != 25 && v != 51 ==> Letter(v + 1) == Letter(v) + 1 as char
  {
  }

  lemma {:induction false} LettersAt(vs: seq<Sextet>)
    ensures |Letters(vs)| == |vs|
    ensures forall i :: 0 <= i < |vs| ==> Letters(vs)[i] == Letter(vs[i])
  {
    if vs != [] {
      LettersAt(vs[1..]);
    }
  }

  /** Byte i of what is to be encoded, and zero bits after the end. */
  function Padded(b: Bytes, i: nat): nat {
    if i < |b| then b[i] as nat else 0
  }

  /** The bits of group g, most significant first, as a number. */
  function GroupOf(b: Bytes, g: nat): nat {
    Padded(b, 3 * g) * 0x1_0000 + Padded(b, 3 * g + 1) * 0x100 + Padded(b, 3 * g + 2)
  }

  /** The six bits at place k of a 24-bit group. */
  function SixBits(n: nat, k: nat): (v: Sextet)
    requires k < 4
    decreases 4 - k
  {
    if k == 3 then n % 64 else SixBits(n / 64, k + 1)
  }

  lemma DigitsAt(a: Sextet, b: Sextet, c: Sextet, d: Sextet)
    ensures var n := ((a * 64 + b) * 64 + c) * 64 + d;
            SixBits(n, 0) == a && SixBits(n, 1) == b && SixBits(n, 2) == c && SixBits(n, 3) == d
  {
    var ab := a * 64 + b;
    var abc := ab * 64 + c;
    var n := abc * 64 + d;
    assert n / 64 == abc && n % 64 == d;
    assert abc / 64 == ab && abc % 64 == c;
    assert ab / 64 == a && ab % 64 == b;
    assert SixBits(n, 2) == SixBits(abc, 3);
    assert SixBits(n, 1) == SixBits(abc, 2) == SixBits(ab, 3);
    assert SixBits(n, 0) == SixBits(abc, 1) == SixBits(ab, 2) == SixBits(a, 3);
  }

  lemma GroupIsBits(x: Byte, y: Byte, z: Byte)
    ensures var n := x as nat * 0x1_0000 + y as nat * 0x100 + z as nat;
            && Front(x) == SixBits(n, 0) && Across(x, y) == SixBits(n, 1)
            && Along(y, z) == SixBits(n, 2) && Back(z) == SixBits(n, 3)
  {
    DigitsAt(Front(x), Across(x, y), Along(y, z), Back(z));
  }

  lemma FirstGroup(b: Bytes, k: nat)
    requires k < 4 && k < |Split(b)|
    ensures Split(b)[k] == SixBits(GroupOf(b, 0), k)
  {
    var x, y, z := Padded(b, 0) as Byte, Padded(b, 1) as Byte, Padded(b, 2) as Byte;
    GroupIsBits(x, y, z);
    assert Split(b)[k] == [Front(x), Across(x, y), Along(y, z), Back(z)][k];
  }

  lemma GroupShifts(b: Bytes, g: nat)
    requires |b| >= 3 && g > 0
    ensures GroupOf(b, g) == GroupOf(b[3..], g - 1)
  {
    assert forall i: nat :: Padded(b, i + 3) == Padded(b[3..], i);
  }

  lemma SplitShifts(b: Bytes)
    requires |b| >= 3
    ensures |Split(b)| == |Split(b[3..])| + 4 && Split(b)[4..] == Split(b[3..])
  {
  }

  lemma {:induction false} SplitAtPlace(b: Bytes, g: nat, k: nat)
    requires k < 4 && 4 * g + k < |Split(b)|
    ensures Split(b)[4 * g + k] == SixBits(GroupOf(b, g), k)
  {
    if g == 0 {
      FirstGroup(b, k);
    } else {
      SplitShifts(b);
      GroupShifts(b, g);
      SplitAtPlace(b[3..], g - 1, k);
      assert Split(b)[4 * g + k] == Split(b)[4..][4 * (g - 1) + k];
    }
  }

  lemma {:induction false} SplitLength(b: Bytes)
    ensures |Split(b)| == (4 * |b| + 2) / 3
  {
    if |b| >= 3 {
      SplitLength(b[3..]);
    }
  }

  /** Without padding, every six bits of the bytes in turn, the last ones filled up with zero bits, as a letter of the table. */
  lemma EncodesByTable(b: Bytes, g: nat, k: nat)
    requires k < 4 && 4 * g + k < |Encode(b)|
    ensures |Encode(b)| == (4 * |b| + 2) / 3
    ensures Encode(b)[4 * g + k] == Letter(SixBits(GroupOf(b, g), k))
  {
    LettersAt(Split(b));
    SplitLength(b);
    SplitAtPlace(b, g, k);
  }

  // ---------- what is decoded ----------

  /** A character has a value exactly when it is the letter of that value. */
  lemma ValueExactly(c: char, v: Sextet)
    ensures Value(c) == Some(v) <==> Letter(v) == c
  {
  }

  predicate Break(c: char) {
    c == '\r' || c == '\n'
  }

  lemma {:induction false} StripConcat(s: string, t: string)
    ensures StripBreaks(s + t) == StripBreaks(s) + StripBreaks(t)
  {
    if s == "" {
      assert s + t == t;
    } else {
      assert (s + t)[1..] == s[1..] + t;
      StripConcat(s[1..], t);
      assert [s[0]] + (StripBreaks(s[1..]) + StripBreaks(t)) == ([s[0]] + StripBreaks(s[1..])) + StripBreaks(t);
    }
  }

  /** A line break anywhere makes no difference. */
  lemma BreaksAreIgnored(s: string, c: char, t: string)
    requires Break(c)
    ensures Decode(s + [c] + t) == Decode(s + t)
  {
    StripConcat(s + [c], t);
    StripConcat(s, [c]);
    StripConcat(s, t);
    assert [c][1..] == "" && StripBreaks(s) + "" == StripBreaks(s);
  }

  lemma {:induction false} StripNothing(s: string)
    requires forall i :: 0 <= i < |s| ==> !Break(s[i])
    ensures StripBreaks(s) == s
  {
    if s != "" {
      StripNothing(s[1..]);
      assert s == [s[0]] + s[1..];
    }
  }

  predicate InAlphabet(c: char) {
    exists v: Sextet :: Letter(v) == c
  }

  lemma {:induction false} ValuesExactly(s: string)
    ensures Values(s).Some? <==> forall i :: 0 <= i < |s| ==> InAlphabet(s[i])
    ensures Values(s).Some? ==> |Values(s).value| == |s|
  {
    if s != "" {
      ValuesExactly(s[1..]);
      if Value(s[0]).Some? {
        ValueExactly(s[0], Value(s[0]).value);
      } else {
        forall v: Sextet ensures Letter(v) != s[0] {
          ValueExactly(s[0], v);
        }
      }
      assert forall i :: 0 < i < |s| ==> s[i] == s[1..][i - 1];
    }
  }

  lemma {:induction false} JoinExactly(vs: seq<Sextet>)
    ensures Join(vs).Some? <==> |vs| % 4 != 1
  {
    if |vs| >= 4 {
      JoinExactly(vs[4..]);
    }
  }

  /** Without line breaks, what decodes is exactly what is of the alphabet and has no single letter left over. */
  lemma DecodedExactly(s: string)
    requires forall i :: 0 <= i < |s| ==> !Break(s[i])
    ensures Decode(s).Some? <==> |s| % 4 != 1 && forall i :: 0 <= i < |s| ==> InAlphabet(s[i])
  {
    StripNothing(s);
    ValuesExactly(s);
    if Values(s).Some? {
      JoinExactly(Values(s).value);
    }
  }
}
