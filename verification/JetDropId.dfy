/**
 Printing and parsing of jet drop ids and record indexes.  Strings are byte
 strings: every character stands for one byte.
 */
module JetDropId {
  import opened Common
  import JetTree

  datatype JetDropId = JetDropId(jet: string, pulse: int)

  const INT64_LIMIT := 0x8000_0000_0000_0000
  const MAX_JET := 216

  predicate IsInt64(n: int) {
    -INT64_LIMIT <= n < INT64_LIMIT
  }

  // ---------------------------------------------------------------------
  // Decimal numbers
  // ---------------------------------------------------------------------

  predicate IsDigit(c: char) {
    '0' <= c <= '9'
  }

  predicate AllDigits(s: string) {
    forall i :: 0 <= i < |s| ==> IsDigit(s[i])
  }

  function PrintNat(n: nat): string {
    if n < 10 then [n as char + '0'] else PrintNat(n / 10) + [(n % 10) as char + '0']
  }

  function NatValue(s: string): nat
    requires AllDigits(s)
  {
    if s == "" then 0 else 10 * NatValue(s[..|s| - 1]) + (s[|s| - 1] - '0') as nat
  }

  function PrintInt(n: int): string {
    if n < 0 then "-" + PrintNat(-n) else PrintNat(n)
  }

  /** Base 10, 64 bits: an optional sign, then at least one digit, then the range check. */
  function ParseInt(s: string): Option<int> {
    var signed := s != "" && (s[0] == '+' || s[0] == '-');
    var digits := if signed then s[1..] else s;
    if digits == "" || !AllDigits(digits) then None else
      var n: int := if signed && s[0] == '-' then 0 - NatValue(digits) else NatValue(digits);
      if IsInt64(n) then Some(n) else None
  }

  lemma {:induction false} PrintNatReads(n: nat)
    ensures PrintNat(n) != "" && AllDigits(PrintNat(n)) && NatValue(PrintNat(n)) == n
  {
    if n < 10 {
      assert PrintNat(n)[..0] == "";
    } else {
      PrintNatReads(n / 10);
      var s := PrintNat(n);
      assert s[..|s| - 1] == PrintNat(n / 10);
    }
  }

  lemma PrintIntReads(n: int)
    requires IsInt64(n)
    ensures ParseInt(PrintInt(n)) == Some(n)
  {
    PrintNatReads(if n < 0 then -n else n);
    var s := PrintInt(n);
    if n < 0 {
      assert s[1..] == PrintNat(-n);
    } else {
      assert IsDigit(s[0]);
    }
  }

  /** Neither a separator nor an escape occurs in a printed number. */
  predicate Plain(s: string) {
    forall i :: 0 <= i < |s| ==> s[i] != ':' && s[i] != '%' && s[i] != '+'
  }

  lemma PrintIntPlain(n: int)
    ensures Plain(PrintInt(n))
  {
    PrintNatReads(if n < 0 then -n else n);
  }

  // ---------------------------------------------------------------------
  // Splitting and unescaping
  // ---------------------------------------------------------------------

  function Split(s: string, c: char): (parts: seq<string>)
    ensures parts != []
  {
    if s == "" then [""] else
      var rest := Split(s[1..], c);
      if s[0] == c then [""] + rest else [[s[0]] + rest[0]] + rest[1..]
  }

  lemma {:induction false} SplitNone(s: string, c: char)
    requires c !in s
    ensures Split(s, c) == [s]
  {
    if s != "" {
      SplitNone(s[1..], c);
      assert [s[0]] + s[1..] == s;
      assert s[0] in s;
    }
  }

  lemma {:induction false} SplitPair(a: string, b: string, c: char)
    requires c !in a && c !in b
    ensures Split(a + [c] + b, c) == [a, b]
  {
    var s := a + [c] + b;
    if a == "" {
      assert s[1..] == b;
      SplitNone(b, c);
    } else {
      assert s[1..] == a[1..] + [c] + b;
      assert s[0] == a[0] && a[0] in a;
      SplitPair(a[1..], b, c);
      assert [a[0]] + a[1..] == a;
    }
  }

  predicate IsHex(c: char) {
    IsDigit(c) || 'a' <= c <= 'f' || 'A' <= c <= 'F'
  }

  function HexValue(c: char): nat
    requires IsHex(c)
  {
    if IsDigit(c) then (c - '0') as nat
    else if 'a' <= c <= 'f' then (c - 'a') as nat + 10
    else (c - 'A') as nat + 10
  }

  /** url.QueryUnescape: "%XX" is a byte, "+" a space, a malformed escape an error. */
  function QueryUnescape(s: string): Option<string> {
    if s == "" then Some("")
    else if s[0] == '%' then
      if |s| < 3 || !IsHex(s[1]) || !IsHex(s[2]) then None
      else
        match QueryUnescape(s[3..])
        case None => None
        case Some(rest) => Some([(16 * HexValue(s[1]) + HexValue(s[2])) as char] + rest)
    else
      match QueryUnescape(s[1..])
      case None => None
      case Some(rest) => Some([if s[0] == '+' then ' ' else s[0]] + rest)
  }

  lemma {:induction false} UnescapePlain(s: string)
    requires '%' !in s && '+' !in s
    ensures QueryUnescape(s) == Some(s)
  {
    if s != "" {
      UnescapePlain(s[1..]);
      assert s[0] in s && [s[0]] + s[1..] == s;
    }
  }

  // ---------------------------------------------------------------------
  // Every spelling of a byte string
  // ---------------------------------------------------------------------

  /** A hexadecimal digit of either case. */
  predicate DigitOf(c: char, v: nat)
    requires v < 16
  {
    c == "0123456789abcdef"[v] || c == "0123456789ABCDEF"[v]
  }

  lemma DigitValue(c: char, v: nat)
    requires v < 16
    ensures DigitOf(c, v) <==> IsHex(c) && HexValue(c) == v
  {
  }

  /** Ways to write one byte: itself, a plus for a space, or an escape. */
  predicate Spells(p: string, c: char) {
    || (p == [c] && c != '%' && c != '+')
    || (p == "+" && c == ' ')
    || (|p| == 3 && p[0] == '%' && (c as int) < 256 && DigitOf(p[1], c as int / 16) && DigitOf(p[2], c as int % 16))
  }

  predicate Spelling(ps: seq<string>, s: string) {
    |ps| == |s| && forall i :: 0 <= i < |s| ==> Spells(ps[i], s[i])
  }

  function Concat(ps: seq<string>): string {
    if ps == [] then "" else ps[0] + Concat(ps[1..])
  }

  lemma UnescapeFirst(p: string, c: char, rest: string)
    requires Spells(p, c)
    ensures QueryUnescape(p + rest) == match QueryUnescape(rest) case None => None case Some(s) => Some([c] + s)
  {
    var t := p + rest;
    if |p| == 3 && p[0] == '%' {
      DigitValue(p[1], c as int / 16);
      DigitValue(p[2], c as int % 16);
      assert t[3..] == rest && t[1] == p[1] && t[2] == p[2];
    } else {
      assert t[1..] == rest;
    }
  }

  lemma {:induction false} UnescapeSpelling(ps: seq<string>, s: string)
    requires Spelling(ps, s)
    ensures QueryUnescape(Concat(ps)) == Some(s)
    decreases |s|
  {
    if s != "" {
      UnescapeSpelling(ps[1..], s[1..]);
      UnescapeFirst(ps[0], s[0], Concat(ps[1..]));
      assert [s[0]] + s[1..] == s;
    }
  }

  lemma {:induction false} SpellingOf(t: string) returns (ps: seq<string>)
    requires QueryUnescape(t).Some?
    ensures Spelling(ps, QueryUnescape(t).value) && Concat(ps) == t
    decreases |t|
  {
    if t == "" {
      ps := [];
    } else {
      var k := if t[0] == '%' then 3 else 1;
      var rest := SpellingOf(t[k..]);
      var c := QueryUnescape(t).value[0];
      if k == 3 {
        DigitValue(t[1], c as int / 16);
        DigitValue(t[2], c as int % 16);
      }
      assert Spells(t[..k], c);
      ps := [t[..k]] + rest;
      assert ps[1..] == rest && t == t[..k] + t[k..];
    }
  }

  /** Unescaping yields exactly the byte strings that the text spells. */
  lemma UnescapeExactly(t: string, s: string)
    ensures QueryUnescape(t) == Some(s) <==> exists ps :: Spelling(ps, s) && Concat(ps) == t
  {
    if QueryUnescape(t) == Some(s) {
      var ps := SpellingOf(t);
    }
    if ps :| Spelling(ps, s) && Concat(ps) == t {
      UnescapeSpelling(ps, s);
    }
  }

  // ---------------------------------------------------------------------
  // Jet drop ids
  // ---------------------------------------------------------------------

  /** The regular expression of a printed jet id: a star, or 1 to 216 binary digits. */
  predicate MatchesJet(s: string) {
    s == "*" || (1 <= |s| <= MAX_JET && JetTree.Binary(s))
  }

  function NewJetDropId(jet: string, pulse: int): JetDropId {
    JetDropId(if jet == "*" then "" else jet, pulse)
  }

  function Parse(s: string): Option<JetDropId> {
    match QueryUnescape(s)
    case None => None
    case Some(plain) =>
      var parts := Split(plain, ':');
      if |parts| != 2 || !MatchesJet(parts[0]) then None else
        match ParseInt(parts[1])
        case None => None
        case Some(pulse) => Some(NewJetDropId(parts[0], pulse))
  }

  function PrintJet(id: JetDropId): string {
    if id.jet == "" then "*" else id.jet
  }

  function Print(id: JetDropId): string {
    PrintJet(id) + ":" + PrintInt(id.pulse)
  }

  predicate Valid(id: JetDropId) {
    JetTree.Binary(id.jet) && |id.jet| <= MAX_JET && IsInt64(id.pulse)
  }

  /** Parsing what was printed gives the id back. */
  lemma PrintThenParse(id: JetDropId)
    requires Valid(id)
    ensures Parse(Print(id)) == Some(id)
  {
    var jet, number := PrintJet(id), PrintInt(id.pulse);
    PrintIntPlain(id.pulse);
    assert Plain(jet);
    UnescapePlain(Print(id));
    SplitPair(jet, number, ':');
    PrintIntReads(id.pulse);
  }

  /** Printing a parsed id yields a canonical string for the same id. */
  lemma ParseThenPrint(s: string)
    requires Parse(s).Some?
    ensures Parse(Print(Parse(s).value)) == Parse(s)
  {
    PrintThenParse(Parse(s).value);
  }

  lemma {:induction false} SplitJoins(s: string, c: char)
    ensures |Split(s, c)| == 1 ==> Split(s, c) == [s] && c !in s
    ensures |Split(s, c)| == 2 ==>
      var parts := Split(s, c); s == parts[0] + [c] + parts[1] && c !in parts[0] && c !in parts[1]
  {
    if s != "" {
      SplitJoins(s[1..], c);
      assert s == [s[0]] + s[1..];
    }
  }

  /** What a printed jet may look like, and which jet it stands for. */
  predicate JetText(text: string, jet: string) {
    (text == "*" && jet == "") || (1 <= |text| <= 216 && text == jet && forall c :: c in text ==> c == '0' || c == '1')
  }

  /** An optional sign and decimal digits, within 64 bits. */
  predicate NumberText(text: string, n: int) {
    && -0x8000_0000_0000_0000 <= n <= 0x7fff_ffff_ffff_ffff
    && ((text != "" && AllDigits(text) && n == NatValue(text))
        || (|text| > 1 && text[0] == '+' && AllDigits(text[1..]) && n == NatValue(text[1..]))
        || (|text| > 1 && text[0] == '-' && AllDigits(text[1..]) && n == 0 - NatValue(text[1..])))
  }

  lemma ParsesNumber(text: string, n: int)
    ensures ParseInt(text) == Some(n) <==> NumberText(text, n)
  {
  }

  lemma BinaryText(text: string)
    ensures JetTree.Binary(text) <==> forall c :: c in text ==> c == '0' || c == '1'
  {
    if forall c :: c in text ==> c == '0' || c == '1' {
      forall i | 0 <= i < |text| ensures text[i] == '0' || text[i] == '1' {
        assert text[i] in text;
      }
    }
  }

  lemma MatchesText(text: string, jet: string)
    ensures MatchesJet(text) && NewJetDropId(text, 0).jet == jet <==> JetText(text, jet)
  {
    BinaryText(text);
    assert text == "*" ==> text[0] in text;
  }

  ghost predicate IdText(plain: string, jetText: string, number: string, id: JetDropId) {
    plain == jetText + ":" + number && JetText(jetText, id.jet) && NumberText(number, id.pulse)
  }

  /** Exactly which texts are read as an id. */
  lemma ParsesExactly(s: string, id: JetDropId)
    ensures Parse(s) == Some(id) <==>
      exists plain, jetText, number :: QueryUnescape(s) == Some(plain) && IdText(plain, jetText, number, id)
  {
    if Parse(s) == Some(id) {
      var plain := QueryUnescape(s).value;
      var parts := Split(plain, ':');
      SplitJoins(plain, ':');
      MatchesText(parts[0], id.jet);
      ParsesNumber(parts[1], id.pulse);
      assert IdText(plain, parts[0], parts[1], id);
    }
    if plain, jetText, number :| QueryUnescape(s) == Some(plain) && IdText(plain, jetText, number, id) {
      NoColon(jetText, id.jet, number, id.pulse);
      SplitPair(jetText, number, ':');
      MatchesText(jetText, id.jet);
      ParsesNumber(number, id.pulse);
    }
  }

  lemma NoColon(jetText: string, jet: string, number: string, n: int)
    requires JetText(jetText, jet) && NumberText(number, n)
    ensures ':' !in jetText && ':' !in number
  {
    assert number != "" && number == [number[0]] + number[1..];
  }

  /** Printing tells the valid ids apart. */
  lemma PrintIsInjective(a: JetDropId, b: JetDropId)
    requires Valid(a) && Valid(b) && Print(a) == Print(b)
    ensures a == b
  {
    PrintThenParse(a);
    PrintThenParse(b);
  }

  // ---------------------------------------------------------------------
  // Record indexes
  // ---------------------------------------------------------------------

  function CheckIndex(s: string): Option<(int, int)> {
    var parts := Split(s, ':');
    if |parts| != 2 then None else
      match (ParseInt(parts[0]), ParseInt(parts[1]))
      case (Some(pulse), Some(order)) => Some((pulse, order))
      case _ => None
  }

  function PrintIndex(pulse: int, order: int): string {
    PrintInt(pulse) + ":" + PrintInt(order)
  }

  /** The printed index of a record is read back as its pulse number and order. */
  lemma IndexRoundTrip(pulse: int, order: int)
    requires IsInt64(pulse) && IsInt64(order)
    ensures CheckIndex(PrintIndex(pulse, order)) == Some((pulse, order))
  {
    PrintIntPlain(pulse);
    PrintIntPlain(order);
    SplitPair(PrintInt(pulse), PrintInt(order), ':');
    PrintIntReads(pulse);
    PrintIntReads(order);
  }

  /** Exactly which texts are read as an index. */
  lemma IndexExactly(s: string, pulse: int, order: int)
    ensures CheckIndex(s) == Some((pulse, order)) <==>
      exists a, b :: s == a + ":" + b && NumberText(a, pulse) && NumberText(b, order)
  {
    if CheckIndex(s) == Some((pulse, order)) {
      var parts := Split(s, ':');
      SplitJoins(s, ':');
      ParsesNumber(parts[0], pulse);
      ParsesNumber(parts[1], order);
      assert s == parts[0] + ":" + parts[1];
    }
    if a, b :| s == a + ":" + b && NumberText(a, pulse) && NumberText(b, order) {
      NoColon("*", "", a, pulse);
      NoColon("*", "", b, order);
      SplitPair(a, b, ':');
      ParsesNumber(a, pulse);
      ParsesNumber(b, order);
    }
  }
}
