/** DNS identifiers: cleaning an order's names, and matching a CSR or a certificate against them. */
module Identifiers {
  const MAX_IDENTIFIERS: nat := 100

  /** unicode.IsSpace. */
  predicate IsSpace(c: char) {
    || c in {'\t', '\n', '\r', ' ', '\U{B}', '\U{C}', '\U{85}', '\U{A0}', '\U{1680}', '\U{2028}', '\U{2029}'}
    || c in {'\U{202F}', '\U{205F}', '\U{3000}'}
    || '\U{2000}' <= c <= '\U{200A}'
  }

  /**
   unicode.ToLower as far as a host name can tell: the ASCII letters, and the two
   other letters whose lower case is ASCII. Any other letter is refused either way.
   */
  function LowerChar(c: char): char {
    if 'A' <= c <= 'Z' then (c as int + 32) as char
    else if c == '\U{212A}' then 'k'
    else if c == '\U{130}' then 'i'
    else c
  }

  function Lower(s: string): (r: string)
    ensures |r| == |s|
    ensures forall i :: 0 <= i < |s| ==> r[i] == LowerChar(s[i])
  {
    if s == "" then "" else [LowerChar(s[0])] + Lower(s[1..])
  }

  function TrimSpace(s: string): string {
    if s == "" then ""
    else if IsSpace(s[0]) then TrimSpace(s[1..])
    else if IsSpace(s[|s| - 1]) then TrimSpace(s[..|s| - 1])
    else s
  }

  function TrimDot(s: string): string {
    if s != "" && s[|s| - 1] == '.' then s[..|s| - 1] else s
  }

  /** strings.Split on a dot. */
  function Labels(s: string): (ls: seq<string>)
    ensures |ls| > 0
  {
    if s == "" then [""]
    else
      var rest := Labels(s[1..]);
      if s[0] == '.' then [""] + rest else [[s[0]] + rest[0]] + rest[1..]
  }

  predicate HostChar(c: char) {
    'a' <= c <= 'z' || '0' <= c <= '9' || c == '-'
  }

  predicate Digit(c: char) {
    '0' <= c <= '9'
  }

  predicate HostLabel(l: string) {
    && 0 < |l| <= 63 && l[0] != '-' && l[|l| - 1] != '-'
    && forall i :: 0 <= i < |l| ==> HostChar(l[i])
  }

  function WithoutWildcard(name: string): string {
    if "*." <= name then name[2..] else name
  }

  /** A host name (RFC 1123), perhaps under a wildcard: never one whose last label is all digits. */
  predicate HostName(name: string) {
    var n := WithoutWildcard(name);
    var ls := Labels(n);
    && n != "" && |n| <= 253
    && (forall i :: 0 <= i < |ls| ==> HostLabel(ls[i]))
    && !AllDigits(ls[|ls| - 1])
  }

  predicate AllDigits(l: string) {
    forall i :: 0 <= i < |l| ==> Digit(l[i])
  }

  method IsDNSName(name: string) returns (ok: bool)
    ensures ok <==> HostName(name)
  {
    var n := WithoutWildcard(name);
    if n == "" || |n| > 253 {
      return false;
    }
    var labels := Labels(n);
    for i := 0 to |labels|
      invariant forall k :: 0 <= k < i ==> HostLabel(labels[k])
    {
      var part := labels[i];
      if |part| == 0 || |part| > 63 || part[0] == '-' || part[|part| - 1] == '-' {
        assert !HostLabel(part);
        return false;
      }
      for j := 0 to |part|
        invariant forall k :: 0 <= k < j ==> HostChar(part[k])
      {
        if !HostChar(part[j]) {
          assert !HostLabel(part);
          return false;
        }
      }
    }
    var last := labels[|labels| - 1];
    for j := 0 to |last|
      invariant forall k :: 0 <= k < j ==> Digit(last[k])
    {
      if !Digit(last[j]) {
        return true;
      }
    }
    return false;
  }

  /** An address in disguise is never a host name: digits and dots alone are refused. */
  lemma AddressIsNoHostName(name: string)
    requires forall i :: 0 <= i < |name| ==> Digit(name[i]) || name[i] == '.'
    ensures !HostName(name)
  {
    LabelsOfDigits(name);
    if name != "" {
      assert name[0] != '*';
    }
    assert "*."[0] == '*';
    assert WithoutWildcard(name) == name;
  }

  lemma {:induction false} LabelsOfDigits(s: string)
    requires forall i :: 0 <= i < |s| ==> Digit(s[i]) || s[i] == '.'
    ensures forall i :: 0 <= i < |Labels(s)| ==> AllDigits(Labels(s)[i])
  {
    if s != "" {
      LabelsOfDigits(s[1..]);
    }
  }

  predicate All<T(!new)>(p: T -> bool, xs: seq<T>) {
    xs == [] || (All(p, xs[..|xs| - 1]) && p(xs[|xs| - 1]))
  }

  lemma {:induction false} AllHolds<T(!new)>(p: T -> bool, xs: seq<T>, i: nat)
    requires All(p, xs) && i < |xs|
    ensures p(xs[i])
  {
    if i < |xs| - 1 {
      AllHolds(p, xs[..|xs| - 1], i);
    }
  }

  lemma AllOneMore<T(!new)>(p: T -> bool, xs: seq<T>, i: nat)
    requires i < |xs| && All(p, xs[..i]) && p(xs[i])
    ensures All(p, xs[..i + 1])
  {
    assert xs[..i + 1][..i] == xs[..i];
  }

  // ---------- an order's identifiers ----------

  datatype Identifier = Identifier(kind: string, value: string)

  datatype Problem = Fine | NoIdentifiers | TooMany | NotDns | NotAName

  function Cleaned(id: Identifier): string {
    Lower(TrimDot(TrimSpace(id.value)))
  }

  predicate Orderable(id: Identifier) {
    id.kind == "dns" && HostName(Cleaned(id))
  }

  /** What a function makes of each of a list. */
  function Image<T>(f: T -> string, xs: seq<T>): set<string> {
    if xs == [] then {} else Image(f, xs[..|xs| - 1]) + {f(xs[|xs| - 1])}
  }

  lemma ImageOneMore<T>(f: T -> string, xs: seq<T>, i: nat)
    requires i < |xs|
    ensures Image(f, xs[..i + 1]) == Image(f, xs[..i]) + {f(xs[i])}
  {
    assert xs[..i + 1][..i] == xs[..i];
  }

  lemma {:induction false} ImageExactly<T>(f: T -> string, xs: seq<T>, n: string)
    ensures n in Image(f, xs) <==> exists i :: 0 <= i < |xs| && f(xs[i]) == n
  {
    if xs != [] {
      var front := xs[..|xs| - 1];
      ImageExactly(f, front, n);
      assert forall i :: 0 <= i < |front| ==> front[i] == xs[i];
    }
  }

  /** The names of a list of identifiers, cleaned. */
  function NamesIn(ids: seq<Identifier>): set<string> {
    Image(Cleaned, ids)
  }

  function Elements(names: seq<string>): set<string> {
    set n | n in names
  }

  /** The first n identifiers can be ordered. */
  predicate OrderableUpTo(ids: seq<Identifier>, n: nat)
    requires n <= |ids|
  {
    All(Orderable, ids[..n])
  }

  predicate HostNames(names: seq<string>) {
    All(HostName, names)
  }

  /** names lists `seen`, each name once, and every one a host name. */
  predicate Lists(names: seq<string>, seen: set<string>) {
    && Elements(names) == seen
    && (forall i, j :: 0 <= i < j < |names| ==> names[i] != names[j])
    && HostNames(names)
  }

  lemma ListsOneMore(names: seq<string>, seen: set<string>, value: string)
    requires Lists(names, seen) && HostName(value) && value !in seen
    ensures Lists(names + [value], seen + {value})
  {
    assert forall n :: n in names + [value] <==> n in names || n == value;
    assert (names + [value])[..|names|] == names;
  }

  /** What is asked of one identifier, and the name it gives. */
  method CleanOne(id: Identifier) returns (value: string, problem: Problem)
    ensures value == Cleaned(id)
    ensures problem in {Fine, NotDns, NotAName} && (problem == Fine <==> Orderable(id))
    ensures problem == Fine ==> HostName(value)
  {
    value := Lower(TrimDot(TrimSpace(id.value)));
    if id.kind != "dns" {
      return value, NotDns;
    }
    var named := IsDNSName(value);
    problem := if named then Fine else NotAName;
  }

  lemma OrderableOneMore(ids: seq<Identifier>, i: nat)
    requires i < |ids| && OrderableUpTo(ids, i) && Orderable(ids[i])
    ensures OrderableUpTo(ids, i + 1)
  {
    AllOneMore(Orderable, ids, i);
  }

  /** What the first i identifiers have come to: each can be ordered, and their names are listed once. */
  predicate CleanedTo(input: seq<Identifier>, i: nat, out: seq<string>, seen: set<string>)
    requires i <= |input|
  {
    seen == NamesIn(input[..i]) && Lists(out, seen) && OrderableUpTo(input, i)
  }

  lemma CleanedNext(input: seq<Identifier>, i: nat, out: seq<string>, seen: set<string>, value: string)
    requires i < |input| && CleanedTo(input, i, out, seen) && Orderable(input[i])
    requires value == Cleaned(input[i]) && HostName(value)
    ensures if value in seen then CleanedTo(input, i + 1, out, seen)
            else CleanedTo(input, i + 1, out + [value], seen + {value})
  {
    ImageOneMore(Cleaned, input, i);
    OrderableOneMore(input, i);
    if value in seen {
      assert seen + {value} == seen;
    } else {
      ListsOneMore(out, seen, value);
    }
  }

  /** The identifiers of an order within bounds, one after another. */
  method CleanEach(input: seq<Identifier>) returns (out: seq<string>, problem: Problem)
    ensures problem in {Fine, NotDns, NotAName} && (problem == Fine <==> OrderableUpTo(input, |input|))
    ensures problem == Fine ==> Lists(out, NamesIn(input))
  {
    var seen: set<string> := {};
    out := [];
    for i := 0 to |input|
      invariant CleanedTo(input, i, out, seen)
    {
      var value, refused := CleanOne(input[i]);
      if refused != Fine {
        if OrderableUpTo(input, |input|) {
          AllHolds(Orderable, input[..|input|], i);
        }
        return [], refused;
      }
      CleanedNext(input, i, out, seen, value);
      if value !in seen {
        seen := seen + {value};
        out := out + [value];
      }
    }
    assert input[..|input|] == input;
    return out, Fine;
  }

  /**
   Lower-cases and de-duplicates: what comes out is each cleaned name once, and
   every one a host name; or the order is refused, exactly when it must be.
   */
  method CleanIdentifiers(input: seq<Identifier>) returns (out: seq<string>, problem: Problem)
    ensures problem == Fine <==> 0 < |input| <= 100 && OrderableUpTo(input, |input|)
    ensures problem == NoIdentifiers <==> input == []
    ensures problem == TooMany <==> |input| > 100
    ensures problem == Fine ==> Lists(out, NamesIn(input))
  {
    if |input| == 0 {
      return [], NoIdentifiers;
    }
    if |input| > MAX_IDENTIFIERS {
      return [], TooMany;
    }
    out, problem := CleanEach(input);
  }

  // ---------- a CSR, and a certificate ----------

  /** The parts of a CSR that name something. */
  datatype Csr = Csr(dnsNames: seq<string>, commonName: string, otherNames: nat)

  function CsrNames(csr: Csr): set<string> {
    Image(Lower, csr.dnsNames) + if csr.commonName != "" then {Lower(csr.commonName)} else {}
  }

  /** Sets of one size, one inside the other, are one set: how both matchers compare. */
  lemma SameSizeSubset(a: set<string>, b: set<string>)
    requires a <= b && |a| == |b|
    ensures a == b
  {
    assert |b - a| == |b| - |a|;
  }

  method SameSet(asked: set<string>, want: set<string>) returns (same: bool)
    ensures same <==> asked == want
  {
    if |asked| != |want| {
      return false;
    }
    var todo := asked;
    while todo != {}
      invariant todo <= asked && asked - todo <= want
      decreases todo
    {
      var name :| name in todo;
      if name !in want {
        return false;
      }
      todo := todo - {name};
    }
    SameSizeSubset(asked, want);
    return true;
  }

  method AskedNames(csr: Csr) returns (asked: set<string>)
    ensures asked == CsrNames(csr)
  {
    asked := {};
    for i := 0 to |csr.dnsNames|
      invariant asked == Image(Lower, csr.dnsNames[..i])
    {
      ImageOneMore(Lower, csr.dnsNames, i);
      asked := asked + {Lower(csr.dnsNames[i])};
    }
    assert csr.dnsNames[..|csr.dnsNames|] == csr.dnsNames;
    var cn := Lower(csr.commonName);
    if cn != "" {
      asked := asked + {cn};
    }
  }

  method Ordered(names: seq<string>) returns (want: set<string>)
    ensures want == Elements(names)
  {
    want := {};
    for i := 0 to |names|
      invariant want == Elements(names[..i])
    {
      want := want + {names[i]};
    }
    assert names[..|names|] == names;
  }

  /** A CSR matches when it asks for exactly the names ordered, and nothing else. */
  method CsrMatchesOrder(csr: Csr, ordered: seq<string>) returns (ok: bool)
    ensures ok <==> csr.otherNames == 0 && CsrNames(csr) == Elements(ordered)
  {
    if csr.otherNames > 0 {
      return false;
    }
    var asked := AskedNames(csr);
    var want := Ordered(ordered);
    ok := SameSet(asked, want);
  }

  function CertName(name: string): string {
    Lower(TrimDot(name))
  }

  /** The names of a certificate, blank ones aside. */
  function CertNames(names: seq<string>): set<string> {
    Image(CertName, names) - {""}
  }

  method SameNames(commonName: string, sans: seq<string>, want: set<string>) returns (same: bool)
    ensures same <==> CertNames([commonName] + sans) == want
  {
    var all := [commonName] + sans;
    var have: set<string> := {};
    for i := 0 to |all|
      invariant have == CertNames(all[..i])
    {
      ImageOneMore(CertName, all, i);
      var name := CertName(all[i]);
      if name != "" {
        have := have + {name};
      }
    }
    assert all[..|all|] == all;
    same := SameSet(have, want);
  }

  // ---------- what cleaning does to a name ----------

  /**
   Lower-casing takes A to Z to a to z, in step, and the Kelvin sign and the dotted
   capital I to k and i; it leaves every other character as it is.
   */
  lemma LowerExactly(c: char)
    ensures 'A' <= c <= 'Z' ==> 'a' <= LowerChar(c) <= 'z' && LowerChar(c) - c == 'a' - 'A'
    ensures LowerChar(c) != c <==> 'A' <= c <= 'Z' || c == '\U{212A}' || c == '\U{130}'
    ensures LowerChar('\U{212A}') == 'k' && LowerChar('\U{130}') == 'i'
  {
  }

  function Joined(ls: seq<string>): string
    requires ls != []
  {
    if |ls| == 1 then ls[0] else ls[0] + "." + Joined(ls[1..])
  }

  /** The labels are what stands between the dots. */
  lemma {:induction false} LabelsBetweenDots(s: string)
    ensures Joined(Labels(s)) == s
    ensures forall i :: 0 <= i < |Labels(s)| ==> '.' !in Labels(s)[i]
  {
    if s != "" {
      LabelsBetweenDots(s[1..]);
      var rest := Labels(s[1..]);
      assert s == [s[0]] + s[1..];
      if s[0] == '.' {
        assert ([""] + rest)[1..] == rest;
      } else {
        var head := [s[0]] + rest[0];
        assert ([head] + rest[1..])[1..] == rest[1..];
        if |rest| > 1 {
          assert head + "." + Joined(rest[1..]) == [s[0]] + (rest[0] + "." + Joined(rest[1..]));
        }
      }
    }
  }

  predicate Blank(s: string) {
    forall i :: 0 <= i < |s| ==> IsSpace(s[i])
  }

  lemma {:induction false} TrimsBlanks(before: string, s: string, after: string)
    requires Blank(before) && Blank(after) && s != "" && !IsSpace(s[0]) && !IsSpace(s[|s| - 1])
    ensures TrimSpace(before + s + after) == s
    decreases |before| + |after|
  {
    var all := before + s + after;
    if before != "" {
      assert all[1..] == before[1..] + s + after;
      TrimsBlanks(before[1..], s, after);
    } else if after != "" {
      assert all[0] == s[0] && all[|all| - 1] == after[|after| - 1];
      assert all[..|all| - 1] == before + s + after[..|after| - 1];
      TrimsBlanks(before, s, after[..|after| - 1]);
    } else {
      assert all == s;
    }
  }

  predicate NameChar(c: char) {
    HostChar(c) || c == '.' || c == '*'
  }

  /** A character of a host name, or one that is lowered to it, is no blank. */
  lemma HostCharsAreNoBlanks(c: char)
    requires HostChar(LowerChar(c)) || LowerChar(c) == '.' || LowerChar(c) == '*'
    ensures !IsSpace(c)
  {
  }

  lemma {:induction false} JoinedChars(ls: seq<string>)
    requires ls != [] && forall i :: 0 <= i < |ls| ==> HostLabel(ls[i])
    ensures Joined(ls) != "" && Joined(ls)[|Joined(ls)| - 1] != '.'
    ensures forall i :: 0 <= i < |Joined(ls)| ==> NameChar(Joined(ls)[i])
  {
    if |ls| > 1 {
      JoinedChars(ls[1..]);
    }
  }

  lemma HostNameChars(name: string)
    requires HostName(name)
    ensures name != "" && name[|name| - 1] != '.'
    ensures forall i :: 0 <= i < |name| ==> NameChar(name[i])
  {
    var n := WithoutWildcard(name);
    LabelsBetweenDots(n);
    JoinedChars(Labels(n));
    WithWildcard(name, n);
  }

  lemma WithWildcard(name: string, n: string)
    requires n == WithoutWildcard(name) && n != "" && n[|n| - 1] != '.'
    requires forall i :: 0 <= i < |n| ==> NameChar(n[i])
    ensures name != "" && name[|name| - 1] == n[|n| - 1]
    ensures forall i :: 0 <= i < |name| ==> NameChar(name[i])
  {
    assert name == n || name == ['*', '.'] + n;
  }

  lemma LowerAt(s: string, i: nat)
    requires i < |s|
    ensures |Lower(s)| == |s| && Lower(s)[i] == LowerChar(s[i])
  {
  }

  lemma SpelledAt(name: string, spelled: string, i: nat)
    requires Lower(spelled) == name && i < |name| && NameChar(name[i])
    ensures |spelled| == |name| && !IsSpace(spelled[i]) && (name[i] != '.' ==> spelled[i] != '.')
  {
    LowerAt(spelled, i);
    HostCharsAreNoBlanks(spelled[i]);
  }

  lemma SpelledEnds(name: string, spelled: string)
    requires name != "" && name[|name| - 1] != '.' && Lower(spelled) == name
    requires NameChar(name[0]) && NameChar(name[|name| - 1])
    ensures |spelled| == |name|
    ensures !IsSpace(spelled[0]) && !IsSpace(spelled[|spelled| - 1]) && spelled[|spelled| - 1] != '.'
  {
    SpelledAt(name, spelled, 0);
    SpelledAt(name, spelled, |name| - 1);
  }

  /** A name with a dot at its end or not. */
  function Spelling(spelled: string, dot: bool): string {
    if dot then spelled + "." else spelled
  }

  lemma DotTrimmed(spelled: string, dot: bool)
    requires spelled != "" && spelled[|spelled| - 1] != '.'
    ensures TrimDot(Spelling(spelled, dot)) == spelled
  {
    if dot {
      assert (spelled + ".")[..|spelled|] == spelled;
    }
  }

  lemma SpellingTrimmed(name: string, spelled: string, dot: bool, before: string, after: string)
    requires name != "" && name[|name| - 1] != '.' && Lower(spelled) == name
    requires NameChar(name[0]) && NameChar(name[|name| - 1])
    requires Blank(before) && Blank(after)
    ensures TrimDot(TrimSpace(before + Spelling(spelled, dot) + after)) == spelled
  {
    SpelledEnds(name, spelled);
    HostCharsAreNoBlanks('.');
    TrimsBlanks(before, Spelling(spelled, dot), after);
    DotTrimmed(spelled, dot);
  }

  /**
   However a host name is spelled, in any case, with a dot at its end or not, and with
   blanks around it, it is cleaned to that name.
   */
  lemma SpellingsClean(kind: string, name: string, spelled: string, dot: bool, before: string, after: string)
    requires HostName(name) && Lower(spelled) == name && Blank(before) && Blank(after)
    ensures var id := Identifier(kind, before + Spelling(spelled, dot) + after);
            Cleaned(id) == name && (Orderable(id) <==> kind == "dns")
  {
    HostNameChars(name);
    SpellingTrimmed(name, spelled, dot, before, after);
  }

  lemma {:induction false} LowerFront(s: string)
    requires s != ""
    ensures Lower(s) == Lower(s[..|s| - 1]) + [LowerChar(s[|s| - 1])]
  {
    if |s| == 1 {
      assert s[..0] == "" && s[1..] == "";
    } else {
      LowerFront(s[1..]);
      assert s[..|s| - 1][1..] == s[1..][..|s| - 2];
      var middle, last := Lower(s[1..][..|s| - 2]), [LowerChar(s[|s| - 1])];
      assert [LowerChar(s[0])] + (middle + last) == ([LowerChar(s[0])] + middle) + last;
    }
  }

  predicate EndsInDot(s: string) {
    s != "" && s[|s| - 1] == '.'
  }

  lemma LowerTrimmed(s: string)
    ensures EndsInDot(s) ==> Lower(s) == CertName(s) + "."
    ensures !EndsInDot(s) ==> CertName(s) == Lower(s) && !EndsInDot(Lower(s))
  {
    if EndsInDot(s) {
      LowerFront(s);
    } else if s != "" {
      LowerAt(s, |s| - 1);
    }
  }

  lemma OneDotAside(trimmed: string, all: string, name: string)
    requires name != "" && !EndsInDot(name)
    requires all == trimmed + "." || (all == trimmed && !EndsInDot(all))
    ensures trimmed == name <==> all == name || all == name + "."
  {
    assert EndsInDot(name + ".") && (name + ".")[..|name|] == name;
    assert EndsInDot(trimmed + ".") && (trimmed + ".")[..|trimmed|] == trimmed;
  }

  /** A name of a certificate counts as this one exactly when they differ in case, and in one dot at the end, at most. */
  lemma CertNameExactly(spelled: string, name: string)
    requires name != "" && name[|name| - 1] != '.'
    ensures CertName(spelled) == name <==> Lower(spelled) == name || Lower(spelled) == name + "."
  {
    LowerTrimmed(spelled);
    OneDotAside(CertName(spelled), Lower(spelled), name);
  }

  // ---------- what a host name is, label by label ----------

  const LETTERS_DIGITS_HYPHEN := "abcdefghijklmnopqrstuvwxyz0123456789-"
  const DIGITS := "0123456789"

  lemma HostCharExactly(c: char)
    ensures HostChar(c) <==> c in LETTERS_DIGITS_HYPHEN
  {
  }

  lemma DigitExactly(c: char)
    ensures Digit(c) <==> c in DIGITS
  {
  }

  lemma {:induction false} NoDotsOneLabel(l: string, rest: string)
    requires '.' !in l
    ensures Labels(l) == [l]
    ensures Labels(l + "." + rest) == [l] + Labels(rest)
  {
    if l == "" {
      assert l + "." + rest == "." + rest && ("." + rest)[1..] == rest;
    } else {
      NoDotsOneLabel(l[1..], rest);
      assert l == [l[0]] + l[1..];
      assert (l + "." + rest)[1..] == l[1..] + "." + rest;
      assert ([l[1..]] + Labels(rest))[1..] == Labels(rest) && [l[1..]][1..] == [];
      assert [l] + [] == [l];
    }
  }

  lemma {:induction false} LabelsOfJoined(ls: seq<string>)
    requires ls != [] && forall i :: 0 <= i < |ls| ==> '.' !in ls[i]
    ensures Labels(Joined(ls)) == ls
  {
    if |ls| == 1 {
      NoDotsOneLabel(ls[0], "");
      assert ls == [ls[0]];
    } else {
      var rest := Joined(ls[1..]);
      LabelsOfJoined(ls[1..]);
      NoDotsOneLabel(ls[0], rest);
      assert ls == [ls[0]] + ls[1..];
    }
  }

  predicate WellFormed(l: string) {
    1 <= |l| <= 63 && l[0] != '-' && l[|l| - 1] != '-' && forall c :: c in l ==> c in LETTERS_DIGITS_HYPHEN
  }

  lemma WellFormedExactly(l: string)
    ensures WellFormed(l) <==> HostLabel(l)
    ensures AllDigits(l) <==> forall c :: c in l ==> c in DIGITS
  {
    forall c: char ensures (HostChar(c) <==> c in LETTERS_DIGITS_HYPHEN) && (Digit(c) <==> c in DIGITS) {
      HostCharExactly(c);
      DigitExactly(c);
    }
  }

  lemma JoinedBegins(ls: seq<string>)
    requires ls != [] && '.' !in ls[0] && ls[0] != "*"
    ensures !("*." <= Joined(ls))
  {
    var n := Joined(ls);
    if |ls[0]| == 0 {
      assert n != "" ==> n[0] == '.';
    } else if |ls[0]| == 1 {
      assert n[0] == ls[0][0] && ls[0] == [ls[0][0]];
    } else {
      assert n[1] == ls[0][1];
    }
  }

  /** Of the name without its wildcard, told by its labels. */
  predicate WellFormedName(n: string, ls: seq<string>)
    requires ls != []
  {
    && 1 <= |n| <= 253
    && (forall i :: 0 <= i < |ls| ==> WellFormed(ls[i]))
    && exists c :: c in ls[|ls| - 1] && c !in DIGITS
  }

  lemma HostNameByLabels(name: string, n: string, ls: seq<string>)
    requires n == WithoutWildcard(name) && ls == Labels(n)
    ensures HostName(name) <==> WellFormedName(n, ls)
  {
    forall i | 0 <= i < |ls| ensures WellFormed(ls[i]) <==> HostLabel(ls[i]) {
      WellFormedExactly(ls[i]);
    }
    WellFormedExactly(ls[|ls| - 1]);
  }

  lemma WildcardStripped(name: string, ls: seq<string>)
    requires ls != [] && '.' !in ls[0]
    requires name == "*." + Joined(ls) || (name == Joined(ls) && ls[0] != "*")
    ensures WithoutWildcard(name) == Joined(ls)
  {
    if name == "*." + Joined(ls) {
      assert name[2..] == Joined(ls);
    } else {
      JoinedBegins(ls);
    }
  }

  /**
   A host name is labels joined by dots, perhaps under a wildcard label: at most 253
   characters without that, each label of 1 to 63 letters, digits and inner hyphens, and
   the last not of digits alone.
   */
  lemma HostNameExactly(name: string, ls: seq<string>)
    requires ls != [] && forall i :: 0 <= i < |ls| ==> '.' !in ls[i]
    requires name == "*." + Joined(ls) || (name == Joined(ls) && ls[0] != "*")
    ensures HostName(name) <==> WellFormedName(Joined(ls), ls)
  {
    LabelsOfJoined(ls);
    WildcardStripped(name, ls);
    HostNameByLabels(name, Joined(ls), ls);
  }

  // ---------- what the matchers compare ----------

  /** A CSR asks for its DNS names and, when it has one, its common name, in lower case. */
  lemma CsrNamesExactly(csr: Csr, n: string)
    ensures n in CsrNames(csr) <==>
              || (exists i :: 0 <= i < |csr.dnsNames| && Lower(csr.dnsNames[i]) == n)
              || (csr.commonName != "" && Lower(csr.commonName) == n)
  {
    ImageExactly(Lower, csr.dnsNames, n);
  }

  lemma CertNamesExactly(names: seq<string>, n: string)
    ensures n in CertNames(names) <==> n != "" && exists i :: 0 <= i < |names| && CertName(names[i]) == n
  {
    ImageExactly(CertName, names, n);
  }
}
