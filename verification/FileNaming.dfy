/**
 * file_naming: short file names without prefixes. A name is built from its fields, with the times and the
 * volume number in base 36, and parsed by the field patterns of its kind.
 */
module FileNaming {
  import opened Indices
  import opened Paths
  import opened Strings

  // ----- base 36

  function Digit36(n: nat): char
    requires n < 36
  {
    if n <= 9 then ('0' as int + n) as char else ('a' as int + n - 10) as char
  }

  function ToBase36(n: nat): (s: Bytes)
    ensures IsBase36(s)
  {
    if n < 36 then [Digit36(n)] else ToBase36(n / 36) + [Digit36(n % 36)]
  }

  predicate IsDigit36(c: char) {
    '0' <= c <= '9' || 'a' <= c <= 'z'
  }

  /** [0-9a-z]+ */
  predicate IsBase36(s: Bytes) {
    s != "" && forall c :: c in s ==> IsDigit36(c)
  }

  function DigitValue(c: char): nat
    requires IsDigit36(c)
  {
    if '0' <= c <= '9' then c as int - '0' as int else c as int - 'a' as int + 10
  }

  function Value36(s: Bytes): nat
    requires forall c :: c in s ==> IsDigit36(c)
  {
    if s == "" then 0
    else
      assert s[|s| - 1] in s;
      36 * Value36(s[..|s| - 1]) + DigitValue(s[|s| - 1])
  }

  /** None stands for the assertion that every digit is in range. */
  method FromBase36(s: Bytes) returns (total: Option<nat>)
    ensures total == if forall c :: c in s ==> IsDigit36(c) then Some(Value36(s)) else None
  {
    var sum := 0;
    for i := 0 to |s|
      invariant forall c :: c in s[..i] ==> IsDigit36(c)
      invariant sum == Value36(s[..i])
    {
      if !IsDigit36(s[i]) {
        assert s[i] in s;
        return None;
      }
      assert s[..i + 1] == s[..i] + [s[i]] && s[..i + 1][..i] == s[..i];
      sum := sum * 36 + DigitValue(s[i]);
    }
    assert s[..|s|] == s;
    total := Some(sum);
  }

  lemma {:induction false} Base36RoundTrip(n: nat)
    ensures Value36(ToBase36(n)) == n
  {
    var s := ToBase36(n);
    if n < 36 {
      assert s[..0] == "";
    } else {
      Base36RoundTrip(n / 36);
      assert s[..|s| - 1] == ToBase36(n / 36);
    }
  }

  // ----- get

  datatype Type = Full | Inc | FullSig | NewSig

  function GetSuffix(encrypted: bool, gzipped: bool): Bytes {
    if encrypted then ".g" else if gzipped then ".z" else ""
  }

  /** None stands for a failed assertion. */
  function Get(t: Type, volume: nat, manifest: bool, encrypted: bool, gzipped: bool, partial: bool,
               prevtime: nat, curtime: nat): Option<Bytes>
  {
    var tail := (if partial then ".p" else "") + GetSuffix(encrypted, gzipped);
    var cur, prev := ToBase36(curtime), ToBase36(prevtime);
    if t.FullSig? || t.NewSig? then
      if volume != 0 || manifest then None
      else if t.FullSig? then Some("dfs" + "." + cur + "." + "st" + tail)
      else Some("dns" + "." + prev + "." + cur + "." + "st" + tail)
    else if (volume != 0) == manifest then None
    else
      var volString := if volume != 0 then ToBase36(volume) + "." + "dt" else "m";
      if t.Full? then Some("df" + "." + cur + "." + volString + tail)
      else Some("di" + "." + prev + "." + cur + "." + volString + tail)
  }

  /** A name is refused for signatures with a volume or a manifest, and without one or with both for anything else. */
  lemma GetFailsIff(
    t: Type, volume: nat, manifest: bool, encrypted: bool, gzipped: bool, partial: bool, prevtime: nat, curtime: nat)
    ensures Get(t, volume, manifest, encrypted, gzipped, partial, prevtime, curtime) == None <==>
            if t in {FullSig, NewSig} then volume != 0 || manifest
            else (volume != 0 && manifest) || (volume == 0 && !manifest)
  {
  }

  // ----- parse

  datatype ParseResults = ParseResults(
    t: Type, manifest: bool, volume: Option<nat>, time: Option<nat>, start: Option<nat>, end: Option<nat>,
    encrypted: bool, compressed: bool, partial: bool)

  /** Ignored is None, Failed a failed assertion. */
  datatype Outcome = Ignored | Failed | Parsed(pr: ParseResults)

  /** The expression ^head, some base-36 fields, the given marker and ($|.), on the fields between dots. */
  predicate Matches(parts: seq<Bytes>, head: Bytes, fields: nat, marker: Bytes) {
    && |parts| >= fields + 2 && parts[0] == head && parts[fields + 1] == marker
    && forall k :: 1 <= k <= fields ==> IsBase36(parts[k])
  }

  /** Whether (.p)? takes part in the match. */
  predicate PartialAfter(parts: seq<Bytes>, k: nat) {
    k < |parts| && parts[k] == "p"
  }

  function CheckFull(parts: seq<Bytes>): Outcome {
    var m1, m2 := Matches(parts, "df", 2, "dt"), Matches(parts, "df", 1, "m");
    if (m1 || m2) && Value36(parts[1]) != 0 then
      var time := Some(Value36(parts[1]));
      if m1 then
        if Value36(parts[2]) == 0 then Failed
        else Parsed(ParseResults(Full, false, Some(Value36(parts[2])), time, None, None, false, false, false))
      else Parsed(ParseResults(Full, true, None, time, None, None, false, false, PartialAfter(parts, 3)))
    else Ignored
  }

  function CheckInc(parts: seq<Bytes>): Outcome {
    var m1, m2 := Matches(parts, "di", 3, "dt"), Matches(parts, "di", 2, "m");
    if (m1 || m2) && Value36(parts[1]) != 0 && Value36(parts[2]) != 0 then
      var start, end := Some(Value36(parts[1])), Some(Value36(parts[2]));
      if m1 then
        if Value36(parts[3]) == 0 then Failed
        else Parsed(ParseResults(Inc, false, Some(Value36(parts[3])), None, start, end, false, false, false))
      else Parsed(ParseResults(Inc, true, None, None, start, end, false, false, PartialAfter(parts, 4)))
    else Ignored
  }

  function CheckSig(parts: seq<Bytes>): Outcome {
    if Matches(parts, "dfs", 1, "st") then
      if Value36(parts[1]) == 0 then Ignored
      else Parsed(ParseResults(
        FullSig, false, None, Some(Value36(parts[1])), None, None, false, false, PartialAfter(parts, 3)))
    else if Matches(parts, "dns", 2, "st") && Value36(parts[1]) != 0 && Value36(parts[2]) != 0 then
      Parsed(ParseResults(
        NewSig, false, None, None, Some(Value36(parts[1])), Some(Value36(parts[2])), false, false,
        PartialAfter(parts, 4)))
    else Ignored
  }

  function Checked(parts: seq<Bytes>): Outcome {
    if !CheckFull(parts).Ignored? then CheckFull(parts)
    else if !CheckInc(parts).Ignored? then CheckInc(parts)
    else CheckSig(parts)
  }

  predicate EndsWith(s: Bytes, suffix: Bytes) {
    |suffix| <= |s| && s[|s| - |suffix|..] == suffix
  }

  function Parse(filename: Bytes): Outcome {
    var parts := SplitOn(filename, '.');
    var pr := Checked(parts);
    if !pr.Parsed? then pr
    else Parsed(pr.pr.(compressed := EndsWith(filename, ".z"), encrypted := EndsWith(filename, ".g")))
  }

  // ----- parse after get

  /** The fields of a name between its dots, without the partial mark and the suffix. */
  function Fields(t: Type, volume: nat, prevtime: nat, curtime: nat): seq<Bytes> {
    var cur, prev := ToBase36(curtime), ToBase36(prevtime);
    match t
    case Full => if volume != 0 then ["df", cur, ToBase36(volume), "dt"] else ["df", cur, "m"]
    case Inc => if volume != 0 then ["di", prev, cur, ToBase36(volume), "dt"] else ["di", prev, cur, "m"]
    case FullSig => ["dfs", cur, "st"]
    case NewSig => ["dns", prev, cur, "st"]
  }

  function Tail(partial: bool, encrypted: bool, gzipped: bool): seq<Bytes> {
    (if partial then ["p"] else []) + (if encrypted then ["g"] else if gzipped then ["z"] else [])
  }

  lemma Dot(parts: seq<Bytes>, last: Bytes)
    requires parts != []
    ensures JoinOn(parts + [last], '.') == JoinOn(parts, '.') + "." + last
  {
    JoinOnLast(parts, last, '.');
  }

  lemma JoinedTail(parts: seq<Bytes>, partial: bool, encrypted: bool, gzipped: bool)
    requires parts != []
    ensures JoinOn(parts + Tail(partial, encrypted, gzipped), '.') ==
            JoinOn(parts, '.') + ((if partial then ".p" else "") + GetSuffix(encrypted, gzipped))
  {
    hide JoinOn;
    var p1, marked := parts + if partial then ["p"] else [], JoinOn(parts, '.') + if partial then ".p" else "";
    assert JoinOn(p1, '.') == marked by {
      if partial { Dot(parts, "p"); } else { assert p1 == parts; }
    }
    var suffix := if encrypted then ["g"] else if gzipped then ["z"] else [];
    assert parts + Tail(partial, encrypted, gzipped) == p1 + suffix;
    assert JoinOn(p1 + suffix, '.') == marked + GetSuffix(encrypted, gzipped) by {
      if encrypted || gzipped {
        Dot(p1, suffix[0]);
        assert "." + "g" == ".g" && "." + "z" == ".z";
      } else {
        assert p1 + suffix == p1;
      }
    }
    Assoc(JoinOn(parts, '.'), if partial then ".p" else "", GetSuffix(encrypted, gzipped));
  }

  lemma JoinedFields(a: Bytes, b: Bytes, c: Bytes, d: Bytes, e: Bytes)
    ensures JoinOn([a, b, c], '.') == a + "." + b + "." + c
    ensures JoinOn([a, b, c, d], '.') == a + "." + b + "." + c + "." + d
    ensures JoinOn([a, b, c, d, e], '.') == a + "." + b + "." + c + "." + d + "." + e
  {
    Dot([a], b);
    assert JoinOn([a], '.') == a;
    hide JoinOn;
    Dot([a] + [b], c);
    Dot([a, b, c], d);
    Dot([a, b, c, d], e);
    assert [a] + [b] + [c] == [a, b, c] && [a, b, c] + [d] == [a, b, c, d] && [a, b, c, d] + [e] == [a, b, c, d, e];
  }

  lemma Regroup(head: Bytes, a: Bytes, b: Bytes, c: Bytes)
    ensures head + (a + b + c) == head + a + b + c
  {
  }

  /** get puts dots between these fields. */
  lemma NameOfFields(
    t: Type, volume: nat, manifest: bool, encrypted: bool, gzipped: bool, partial: bool, prevtime: nat, curtime: nat)
    requires Get(t, volume, manifest, encrypted, gzipped, partial, prevtime, curtime).Some?
    ensures Get(t, volume, manifest, encrypted, gzipped, partial, prevtime, curtime).value ==
            JoinOn(Fields(t, volume, prevtime, curtime) + Tail(partial, encrypted, gzipped), '.')
  {
    hide JoinOn, Tail, ToBase36;
    var cur, prev, vol := ToBase36(curtime), ToBase36(prevtime), ToBase36(volume);
    JoinedTail(Fields(t, volume, prevtime, curtime), partial, encrypted, gzipped);
    match t
    case Full =>
      Regroup("df" + "." + cur + ".", vol, ".", "dt");
      JoinedFields("df", cur, if volume != 0 then vol else "m", "dt", "");
    case Inc =>
      Regroup("di" + "." + prev + "." + cur + ".", vol, ".", "dt");
      JoinedFields("di", prev, cur, if volume != 0 then vol else "m", "dt");
    case FullSig =>
      JoinedFields("dfs", cur, "st", "", "");
    case NewSig =>
      JoinedFields("dns", prev, cur, "st", "");
  }

  /** What parse should make of a name that get made. */
  function Expected(
    t: Type, volume: nat, encrypted: bool, gzipped: bool, partial: bool, prevtime: nat, curtime: nat): ParseResults
  {
    var inc := t.Inc? || t.NewSig?;
    ParseResults(
      t, (t.Full? || t.Inc?) && volume == 0, if volume == 0 then None else Some(volume),
      if inc then None else Some(curtime), if inc then Some(prevtime) else None, if inc then Some(curtime) else None,
      encrypted, gzipped && !encrypted, partial && volume == 0)
  }

  lemma FieldsHaveNoDot(
    t: Type, volume: nat, encrypted: bool, gzipped: bool, partial: bool, prevtime: nat, curtime: nat)
    ensures forall f :: f in Fields(t, volume, prevtime, curtime) + Tail(partial, encrypted, gzipped) ==> '.' !in f
  {
  }

  lemma SuffixOf(front: Bytes, last: Bytes)
    requires last in {"m", "dt", "st", "p", "g", "z"}
    ensures EndsWith(front + "." + last, ".g") == (last == "g")
    ensures EndsWith(front + "." + last, ".z") == (last == "z")
  {
    var name := front + "." + last;
    assert name[|name| - 1] == last[|last| - 1];
    assert |last| == 1 ==> name[|name| - 2..] == "." + last;
  }

  lemma SuffixFlags(parts: seq<Bytes>, partial: bool, encrypted: bool, gzipped: bool)
    requires |parts| > 1 && parts[|parts| - 1] in {"m", "dt", "st"}
    ensures var name := JoinOn(parts + Tail(partial, encrypted, gzipped), '.');
      EndsWith(name, ".g") == encrypted && EndsWith(name, ".z") == (gzipped && !encrypted)
  {
    hide JoinOn, EndsWith;
    var all := parts + Tail(partial, encrypted, gzipped);
    var front, last := all[..|all| - 1], all[|all| - 1];
    assert all == front + [last];
    assert last == if encrypted then "g" else if gzipped then "z" else if partial then "p" else parts[|parts| - 1];
    Dot(front, last);
    SuffixOf(JoinOn(front, '.'), last);
  }

  lemma Heads()
    ensures "df" != "di" && "df" != "dfs" && "df" != "dns" && "di" != "dfs" && "di" != "dns" && "dfs" != "dns"
    ensures "dt" != "m" && "p" != "dt" && "p" != "g" && "p" != "z" && "g" != "dt" && "z" != "dt"
  {
  }

  predicate PositiveTimes(t: Type, prevtime: nat, curtime: nat) {
    curtime != 0 && (t.Inc? || t.NewSig? ==> prevtime != 0)
  }

  lemma FieldsChecked(
    t: Type, volume: nat, partial: bool, encrypted: bool, gzipped: bool, prevtime: nat, curtime: nat)
    requires t.FullSig? || t.NewSig? ==> volume == 0
    ensures Checked(Fields(t, volume, prevtime, curtime) + Tail(partial, encrypted, gzipped)) ==
            if PositiveTimes(t, prevtime, curtime)
            then Parsed(Expected(t, volume, false, false, partial, prevtime, curtime)) else Ignored
  {
    Base36RoundTrip(curtime);
    Base36RoundTrip(prevtime);
    Base36RoundTrip(volume);
    Heads();
    hide ToBase36, Value36, IsBase36;
    match t
    case Full =>
    case Inc =>
    case FullSig =>
    case NewSig =>
  }

  /** Parsing what get made recovers everything, if and only if the times are positive. */
  lemma NameRoundTripIff(
    t: Type, volume: nat, manifest: bool, encrypted: bool, gzipped: bool, partial: bool, prevtime: nat, curtime: nat)
    requires Get(t, volume, manifest, encrypted, gzipped, partial, prevtime, curtime).Some?
    ensures Parse(Get(t, volume, manifest, encrypted, gzipped, partial, prevtime, curtime).value) ==
            Parsed(Expected(t, volume, encrypted, gzipped, partial, prevtime, curtime))
       <==> PositiveTimes(t, prevtime, curtime)
  {
    hide JoinOn, SplitOn, EndsWith, Tail, ToBase36, CheckFull, CheckInc, CheckSig;
    var fields, tail := Fields(t, volume, prevtime, curtime), Tail(partial, encrypted, gzipped);
    NameOfFields(t, volume, manifest, encrypted, gzipped, partial, prevtime, curtime);
    FieldsHaveNoDot(t, volume, encrypted, gzipped, partial, prevtime, curtime);
    SplitOnJoinOn(fields + tail, '.');
    SuffixFlags(fields, partial, encrypted, gzipped);
    FieldsChecked(t, volume, partial, encrypted, gzipped, prevtime, curtime);
  }
}
