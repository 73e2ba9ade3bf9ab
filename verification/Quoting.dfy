/** manifest.Quote and Unquote. */
module Quoting {
  import opened Indices
  import opened Paths
  import opened Strings

  /** nonnormal_char_re */
  predicate Nonnormal(c: char) {
    IsSpace(c) || c == '\\' || c == '"' || c == '\''
  }

  function HexDigit(n: nat): (c: char)
    requires n < 16
    ensures !Nonnormal(c) && HexValue(c) == Some(n)
  {
    if n < 10 then ('0' as int + n) as char else ('a' as int + n - 10) as char
  }

  function HexValue(c: char): (r: Option<nat>)
    ensures r.Some? ==> r.value < 16
  {
    if '0' <= c <= '9' then Some(c as int - '0' as int)
    else if 'a' <= c <= 'f' then Some(c as int - 'a' as int + 10)
    else if 'A' <= c <= 'F' then Some(c as int - 'A' as int + 10)
    else None
  }

  /** "\\x%02x" for the characters that need it. */
  function QuotedChar(c: char): Bytes {
    if Nonnormal(c) then "\\x" + [HexDigit(c as int / 16), HexDigit(c as int % 16)] else [c]
  }

  function QuotedChars(s: Bytes): Bytes {
    if s == "" then "" else QuotedChar(s[0]) + QuotedChars(s[1..])
  }

  function Quoted(s: Bytes): Bytes {
    if exists c :: c in s && Nonnormal(c) then "\"" + QuotedChars(s) + "\"" else s
  }

  method Quote(s: Bytes) returns (r: Bytes)
    ensures r == Quoted(s)
  {
    if !exists c :: c in s && Nonnormal(c) {
      return s;
    }
    var slist := "";
    for n := 0 to |s|
      invariant slist + QuotedChars(s[n..]) == QuotedChars(s)
    {
      assert s[n..][0] == s[n] && s[n..][1..] == s[n + 1..];
      Assoc(slist, QuotedChar(s[n]), QuotedChars(s[n + 1..]));
      slist := slist + QuotedChar(s[n]);
    }
    r := "\"" + slist + "\"";
  }

  /** chr(int(two characters, 16)); int takes a sign and surrounding whitespace. */
  function HexPair(a: char, b: char): (r: Option<char>)
    ensures r.Some? ==> r.value as int < 256
  {
    match (HexValue(a), HexValue(b))
    case (Some(x), Some(y)) => Some((16 * x + y) as char)
    case (Some(x), None) => if IsSpace(b) then Some(x as char) else None
    case (None, Some(y)) => if IsSpace(a) || a == '+' || (a == '-' && y == 0) then Some(y as char) else None
    case _ => None
  }

  /** The characters after the opening quote; None stands for an exception. */
  function UnquotedRest(t: Bytes): Option<Bytes>
    decreases |t|
  {
    if |t| <= 1 then Some("")
    else if t[0] == '\\' then
      if |t| < 4 || t[1] != 'x' then None
      else match (HexPair(t[2], t[3]), UnquotedRest(t[4..]))
        case (Some(c), Some(rest)) => Some([c] + rest)
        case _ => None
    else match UnquotedRest(t[1..])
      case Some(rest) => Some([t[0]] + rest)
      case None => None
  }

  function Unquoted(q: Bytes): Option<Bytes> {
    if q == "" then None
    else if q[0] != '"' then Some(q)
    else if q[|q| - 1] != '"' then None
    else UnquotedRest(q[1..])
  }

  function After(done: Bytes, rest: Option<Bytes>): Option<Bytes> {
    if rest.Some? then Some(done + rest.value) else None
  }

  lemma AfterNothing(rest: Option<Bytes>)
    ensures After("", rest) == rest
  {
    assert rest.Some? ==> "" + rest.value == rest.value;
  }

  lemma AfterOne(done: Bytes, c: char, rest: Option<Bytes>)
    ensures After(done, if rest.Some? then Some([c] + rest.value) else None) == After(done + [c], rest)
  {
    if rest.Some? {
      Assoc(done, [c], rest.value);
    }
  }

  method Unquote(quotedString: Bytes) returns (r: Option<Bytes>)
    ensures r == Unquoted(quotedString)
  {
    var q := quotedString;
    if q == "" {
      return None;
    }
    if q[0] != '"' {
      return Some(q);
    }
    if q[0] != q[|q| - 1] {
      return None;
    }
    var returnList := "";
    var i := 1;
    AfterNothing(Unquoted(q));
    while i < |q| - 1
      invariant 1 <= i <= |q| + 2 && After(returnList, UnquotedRest(if i < |q| then q[i..] else "")) == Unquoted(q)
    {
      if q[i] == '\\' {
        if q[i + 1] != 'x' || i + 3 >= |q| || HexPair(q[i + 2], q[i + 3]).None? {
          return None;
        }
        AfterOne(returnList, HexPair(q[i + 2], q[i + 3]).value, UnquotedRest(q[i + 4..]));
        returnList := returnList + [HexPair(q[i + 2], q[i + 3]).value];
        i := i + 4;
      } else {
        AfterOne(returnList, q[i], UnquotedRest(q[i + 1..]));
        returnList := returnList + [q[i]];
        i := i + 1;
      }
    }
    r := Some(returnList);
    assert returnList + "" == returnList;
  }

  lemma {:induction false} UnquotedQuotedChars(s: Bytes)
    ensures UnquotedRest(QuotedChars(s) + "\"") == Some(s)
  {
    if s != "" {
      var c, rest := s[0], QuotedChars(s[1..]) + "\"";
      var t := QuotedChars(s) + "\"";
      UnquotedQuotedChars(s[1..]);
      Assoc(QuotedChar(c), QuotedChars(s[1..]), "\"");
      assert t == QuotedChar(c) + rest && [c] + s[1..] == s;
      if Nonnormal(c) {
        assert HexPair(HexDigit(c as int / 16), HexDigit(c as int % 16)) == Some(c);
        assert t[4..] == rest;
      } else {
        assert t[1..] == rest;
      }
    }
  }

  /** Unquote undoes Quote on everything but the empty string, which it rejects. */
  lemma QuoteRoundTrip(s: Bytes)
    ensures Unquoted(Quoted(s)) == if s == "" then None else Some(s)
  {
    UnquotedQuotedChars(s);
    var q := "\"" + QuotedChars(s) + "\"";
    assert q[1..] == QuotedChars(s) + "\"";
    assert s != "" ==> s[0] in s;
  }

  lemma {:induction false} QuotedCharsNoSpace(s: Bytes)
    ensures NoSpace(QuotedChars(s))
  {
    if s != "" {
      QuotedCharsNoSpace(s[1..]);
    }
  }

  lemma QuotedNoSpace(s: Bytes)
    ensures NoSpace(Quoted(s)) && (s != "" ==> Quoted(s) != "")
  {
    QuotedCharsNoSpace(s);
  }

  // ----- the quoted form, character by character

  /** Whitespace, backslashes and both quotes are replaced. */
  predicate Replaced(c: char) {
    c in " \t\n\r\\\"'" || c as int == 11 || c as int == 12
  }

  /** A character as it stands in quoted text: itself, or \x and its two hexadecimal digits in lower case. */
  predicate StandsFor(part: Bytes, c: char) {
    if Replaced(c) then
      var digits := "0123456789abcdef";
      part == ['\\', 'x', digits[c as int / 16], digits[c as int % 16]]
    else part == [c]
  }

  ghost predicate StandFor(parts: seq<Bytes>, s: Bytes) {
    |parts| == |s| && forall i :: 0 <= i < |s| ==> StandsFor(parts[i], s[i])
  }

  function Concat(parts: seq<Bytes>): Bytes {
    if parts == [] then "" else parts[0] + Concat(parts[1..])
  }

  lemma QuotedCharStands(c: char)
    ensures StandsFor(QuotedChar(c), c)
  {
    assert Nonnormal(c) <==> Replaced(c);
  }

  lemma {:induction false} QuotedCharsStand(s: Bytes) returns (parts: seq<Bytes>)
    ensures StandFor(parts, s) && QuotedChars(s) == Concat(parts)
  {
    parts := [];
    if s != "" {
      var later := QuotedCharsStand(s[1..]);
      QuotedCharStands(s[0]);
      parts := [QuotedChar(s[0])] + later;
      assert parts[1..] == later;
    }
  }

  /**
   * A string without characters to replace is left as it is; any other stands between double quotes, each
   * character as itself or as its hexadecimal form, and no character that is replaced stands there.
   */
  lemma QuotedForm(s: Bytes)
    ensures (forall c :: c in s ==> !Replaced(c)) ==> Quoted(s) == s
    ensures (exists c :: c in s && Replaced(c)) ==>
              exists parts :: StandFor(parts, s) && Quoted(s) == "\"" + Concat(parts) + "\""
    ensures (exists c :: c in s && Replaced(c)) ==>
              forall c :: c in Quoted(s)[1..|Quoted(s)| - 1] && Replaced(c) ==> c == '\\'
  {
    var parts := QuotedCharsStand(s);
    assert forall c :: Nonnormal(c) <==> Replaced(c);
    QuotedCharsKeep(s);
    var q := "\"" + QuotedChars(s) + "\"";
    assert q[1..|q| - 1] == QuotedChars(s);
  }

  lemma {:induction false} QuotedCharsKeep(s: Bytes)
    ensures forall c :: c in QuotedChars(s) && Replaced(c) ==> c == '\\'
  {
    if s != "" { QuotedCharsKeep(s[1..]); }
  }

  // ----- what unquoting accepts

  predicate IsHex(c: char) {
    '0' <= c <= '9' || 'a' <= c <= 'f' || 'A' <= c <= 'F'
  }

  /** int(two characters, 16) takes two digits in either case, one digit beside a blank or after a sign. */
  lemma HexPairIff(a: char, b: char)
    ensures HexPair(a, b).Some? <==>
            (IsHex(a) && (IsHex(b) || IsSpace(b))) || (IsHex(b) && (IsSpace(a) || a == '+' || (a == '-' && b == '0')))
  {
  }

  lemma HexDigitIs(c: char, i: nat)
    requires i < 16 && (c == "0123456789abcdef"[i] || c == "0123456789ABCDEF"[i])
    ensures HexValue(c) == Some(i)
  {
  }

  /** The value of two digits, and of one beside a blank or after a plus. */
  lemma HexPairIs(a: char, b: char, i: nat, j: nat)
    requires i < 16 && (a == "0123456789abcdef"[i] || a == "0123456789ABCDEF"[i])
    requires j < 16 && (b == "0123456789abcdef"[j] || b == "0123456789ABCDEF"[j])
    ensures HexPair(a, b) == Some((16 * i + j) as char)
    ensures forall c :: IsSpace(c) ==> HexPair(a, c) == Some(i as char)
    ensures forall c :: IsSpace(c) || c == '+' ==> HexPair(c, b) == Some(j as char)
  {
    HexDigitIs(a, i);
    HexDigitIs(b, j);
  }

  /** What a part of quoted text is read as. */
  predicate ReadsAs(part: Bytes, c: char) {
    (part == [c] && c != '\\') || (|part| == 4 && part[..2] == "\\x" && HexPair(part[2], part[3]) == Some(c))
  }

  /** Any text between double quotes is read part by part, in whichever case its digits are. */
  lemma {:induction false} UnquotedByParts(parts: seq<Bytes>, s: Bytes)
    requires |parts| == |s| && forall i :: 0 <= i < |s| ==> ReadsAs(parts[i], s[i])
    ensures UnquotedRest(Concat(parts) + "\"") == Some(s)
    ensures Unquoted("\"" + Concat(parts) + "\"") == Some(s)
  {
    var t := Concat(parts) + "\"";
    if parts != [] {
      var rest := Concat(parts[1..]) + "\"";
      UnquotedByParts(parts[1..], s[1..]);
      assert t == parts[0] + rest && [s[0]] + s[1..] == s;
      assert parts[0] == [s[0]] ==> t[1..] == rest;
      assert |parts[0]| == 4 ==> t[4..] == rest && t[..2] == parts[0][..2];
      assert ReadsAs(parts[0], s[0]);
    }
    assert ("\"" + Concat(parts) + "\"")[1..] == t;
  }
}
