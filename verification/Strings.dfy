/**
 * The string methods the program relies on: join, split, strip and the decimal form of a number. They are
 * what the names of files and of tar members, and the lines of a manifest, are put together with and cut by.
 */
module Strings {
  import opened Indices
  import opened Paths

  // ----- sep.join(parts) and s.split(sep)

  function JoinOn(parts: seq<Bytes>, sep: char): Bytes {
    if parts == [] then "" else if |parts| == 1 then parts[0] else parts[0] + [sep] + JoinOn(parts[1..], sep)
  }

  function FirstOf(s: Bytes, c: char): (p: nat)
    ensures p <= |s| && (p < |s| ==> s[p] == c) && forall q :: 0 <= q < p ==> s[q] != c
  {
    if s == "" || s[0] == c then 0 else 1 + FirstOf(s[1..], c)
  }

  function SplitOn(s: Bytes, sep: char): seq<Bytes>
    decreases |s|
  {
    var p := FirstOf(s, sep);
    if p == |s| then [s] else [s[..p]] + SplitOn(s[p + 1..], sep)
  }

  lemma FirstOfAfter(part: Bytes, sep: char, rest: Bytes)
    requires sep !in part
    ensures FirstOf(part + [sep] + rest, sep) == |part|
    ensures FirstOf(part, sep) == |part|
    ensures (part + [sep] + rest)[..|part|] == part && (part + [sep] + rest)[|part| + 1..] == rest
  {
    var s := part + [sep] + rest;
    assert forall q :: 0 <= q < |part| ==> s[q] == part[q] && part[q] in part;
    assert s[|part|] == sep;
  }

  lemma {:induction false} SplitOnJoinOn(parts: seq<Bytes>, sep: char)
    requires parts != [] && forall p :: p in parts ==> sep !in p
    ensures SplitOn(JoinOn(parts, sep), sep) == parts
  {
    if |parts| == 1 {
      FirstOfAfter(parts[0], sep, "");
    } else {
      SplitOnJoinOn(parts[1..], sep);
      FirstOfAfter(parts[0], sep, JoinOn(parts[1..], sep));
    }
  }

  lemma {:induction false} JoinOnLast(parts: seq<Bytes>, last: Bytes, sep: char)
    requires parts != []
    ensures JoinOn(parts + [last], sep) == JoinOn(parts, sep) + [sep] + last
  {
    if |parts| > 1 {
      JoinOnLast(parts[1..], last, sep);
      assert (parts + [last])[1..] == parts[1..] + [last];
    } else {
      assert (parts + [last])[1..] == [last];
    }
  }

  // ----- "%d" and int

  predicate IsDigit(c: char) {
    '0' <= c <= '9'
  }

  predicate AllDigits(s: Bytes) {
    s != "" && forall c :: c in s ==> IsDigit(c)
  }

  function Decimal(n: nat): (s: Bytes)
    ensures AllDigits(s)
  {
    var digit := ('0' as int + n % 10) as char;
    if n < 10 then [digit] else Decimal(n / 10) + [digit]
  }

  function DecimalValue(s: Bytes): nat
    requires forall c :: c in s ==> IsDigit(c)
  {
    if s == "" then 0
    else
      assert s[|s| - 1] in s && IsDigit(s[|s| - 1]);
      10 * DecimalValue(s[..|s| - 1]) + (s[|s| - 1] as int - '0' as int)
  }

  lemma {:induction false} DecimalRoundTrip(n: nat)
    ensures DecimalValue(Decimal(n)) == n
  {
    if n < 10 {
      assert Decimal(n)[..0] == "";
    } else {
      DecimalRoundTrip(n / 10);
      assert Decimal(n)[..|Decimal(n)| - 1] == Decimal(n / 10);
    }
  }

  /** "%d" of any integer. */
  function Formatted(n: int): (s: Bytes)
    ensures s != ""
  {
    if n < 0 then "-" + Decimal(-n) else Decimal(n)
  }

  /** int(s), for a string without whitespace. */
  function ParseInt(s: Bytes): Option<int> {
    if s != "" && s[0] in "+-" then
      if !AllDigits(s[1..]) then None
      else
        var n: int := DecimalValue(s[1..]);
        Some(if s[0] == '-' then -n else n)
    else if AllDigits(s) then Some(DecimalValue(s))
    else None
  }

  lemma ParseFormatted(n: int)
    ensures ParseInt(Formatted(n)) == Some(n)
  {
    var s := Formatted(n);
    if n < 0 {
      DecimalRoundTrip(-n);
      assert s[1..] == Decimal(-n) && s[0] == '-';
    } else {
      DecimalRoundTrip(n);
      assert s[0] in s && IsDigit(s[0]);
    }
  }

  // ----- s.split() and s.strip()

  predicate IsSpace(c: char) {
    9 <= c as int <= 13 || c == ' '
  }

  predicate NoSpace(s: Bytes) {
    forall c :: c in s ==> !IsSpace(c)
  }

  predicate AllSpace(s: Bytes) {
    forall c :: c in s ==> IsSpace(c)
  }

  function WordEnd(s: Bytes): (n: nat)
    ensures n <= |s| && (n < |s| ==> IsSpace(s[n])) && NoSpace(s[..n])
  {
    if s == "" || IsSpace(s[0]) then 0
    else
      assert s[..1 + WordEnd(s[1..])] == [s[0]] + s[1..][..WordEnd(s[1..])];
      1 + WordEnd(s[1..])
  }

  function Words(s: Bytes): seq<Bytes>
    decreases |s|
  {
    if s == "" then []
    else if IsSpace(s[0]) then Words(s[1..])
    else [s[..WordEnd(s)]] + Words(s[WordEnd(s)..])
  }

  lemma {:induction false} WordsSkip(sp: Bytes, s: Bytes)
    requires AllSpace(sp)
    ensures Words(sp + s) == Words(s)
  {
    if sp == "" {
      assert sp + s == s;
    } else {
      assert (sp + s)[0] in sp && (sp + s)[1..] == sp[1..] + s;
      WordsSkip(sp[1..], s);
    }
  }

  lemma {:induction false} WordEndAt(w: Bytes, s: Bytes)
    requires NoSpace(w) && (s == "" || IsSpace(s[0]))
    ensures WordEnd(w + s) == |w|
  {
    if w == "" {
      assert w + s == s;
    } else {
      assert (w + s)[0] in w && (w + s)[1..] == w[1..] + s;
      WordEndAt(w[1..], s);
    }
  }

  lemma WordsTake(w: Bytes, s: Bytes)
    requires w != "" && NoSpace(w) && (s == "" || IsSpace(s[0]))
    ensures Words(w + s) == [w] + Words(s)
  {
    WordEndAt(w, s);
    assert (w + s)[0] in w;
    assert (w + s)[..|w|] == w && (w + s)[|w|..] == s;
  }

  function RStrip(s: Bytes): (r: Bytes)
    ensures r <= s
  {
    if s != "" && IsSpace(s[|s| - 1]) then RStrip(s[..|s| - 1]) else s
  }

  function LStrip(s: Bytes): Bytes {
    if s != "" && IsSpace(s[0]) then LStrip(s[1..]) else s
  }

  function Strip(s: Bytes): Bytes {
    RStrip(LStrip(s))
  }

  lemma {:induction false} RStripSpaces(s: Bytes, sp: Bytes)
    requires AllSpace(sp) && s != "" && !IsSpace(s[|s| - 1])
    ensures RStrip(s + sp) == s
  {
    if sp == "" {
      assert s + sp == s;
    } else {
      var t := s + sp;
      assert t[|t| - 1] in sp && t[..|t| - 1] == s + sp[..|sp| - 1];
      RStripSpaces(s, sp[..|sp| - 1]);
    }
  }
}
