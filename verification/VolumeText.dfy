/**
 * VolumeInfo.to_string and from_string: the lines that describe one volume in a manifest, written in any order
 * of the hashes and read back line by line.
 */
module VolumeText {
  import opened Indices
  import opened Paths
  import opened Quoting
  import opened Strings
  import opened TarNames
  import opened Volumes

  // ----- to_string

  const INDENT := "    "
  const STARTING := "StartingPath"
  const ENDING := "EndingPath"
  const HASH := "Hash"

  function IndexText(i: Index): Bytes {
    if i == [] then "." else Quoted(Join(i))
  }

  function BlockText(block: Option<int>): Bytes {
    if block.Some? && block.value != 0 then Formatted(block.value) else " "
  }

  function PathLine(name: Bytes, gap: Bytes, i: Index, block: Option<int>): Bytes {
    INDENT + name + gap + IndexText(i) + (" " + BlockText(block))
  }

  function HashLine(name: Bytes, data: Bytes): Bytes {
    INDENT + HASH + " " + name + (" " + data)
  }

  function Header(n: nat): Bytes {
    "Volume " + Decimal(n) + ":"
  }

  function HashLines(hashes: map<Bytes, Bytes>, keys: seq<Bytes>): seq<Bytes>
    requires forall k :: k in keys ==> k in hashes
  {
    if keys == [] then []
    else
      assert keys[0] in keys;
      [HashLine(keys[0], hashes[keys[0]])] + HashLines(hashes, keys[1..])
  }

  function TextLines(v: VolumeInfo, keys: seq<Bytes>): seq<Bytes>
    requires forall k :: k in keys ==> k in v.hashes
  {
    [Header(v.number),
     PathLine(STARTING, "   ", v.startIndex, v.startBlock),
     PathLine(ENDING, "     ", v.endIndex, v.endBlock)] + HashLines(v.hashes, keys)
  }

  /** The keys of a dictionary in the order in which it iterates. */
  ghost predicate Enumerates(keys: seq<Bytes>, hashes: map<Bytes, Bytes>) {
    forall k :: k in keys <==> k in hashes
  }

  method ToString(v: VolumeInfo, keys: seq<Bytes>) returns (text: Bytes)
    requires Enumerates(keys, v.hashes)
    ensures text == JoinOn(TextLines(v, keys), '\n')
  {
    var start := IndexToString(v.startIndex);
    var end := IndexToString(v.endIndex);
    var slist := ["Volume " + Decimal(v.number) + ":",
                  INDENT + STARTING + "   " + start + (" " + BlockText(v.startBlock)),
                  INDENT + ENDING + "     " + end + (" " + BlockText(v.endBlock))];
    for n := 0 to |keys|
      invariant slist + HashLines(v.hashes, keys[n..]) == TextLines(v, keys)
    {
      assert keys[n..][0] == keys[n] && keys[n..][1..] == keys[n + 1..];
      Assoc(slist, [HashLine(keys[n], v.hashes[keys[n]])], HashLines(v.hashes, keys[n + 1..]));
      slist := slist + [HashLine(keys[n], v.hashes[keys[n]])];
    }
    assert slist + [] == slist;
    text := JoinOn(slist, '\n');
  }

  method IndexToString(index: Index) returns (s: Bytes)
    ensures s == IndexText(index)
  {
    if index == [] {
      return ".";
    }
    s := Quote(Join(index));
  }

  lemma HashLineAt(hashes: map<Bytes, Bytes>, keys: seq<Bytes>, k: nat)
    requires (forall key :: key in keys ==> key in hashes) && k < |keys|
    ensures |HashLines(hashes, keys)| == |keys|
    ensures HashLines(hashes, keys)[k] == "    Hash " + keys[k] + " " + hashes[keys[k]]
    decreases |keys|
  {
    assert keys[0] in keys;
    if |keys| > 1 { HashLineAt(hashes, keys[1..], if k == 0 then 0 else k - 1); }
    var name, data := keys[0], hashes[keys[0]];
    assert "    " + "Hash" + " " + name + (" " + data) == "    Hash " + name + " " + data;
  }

  /** The printed path lines, with . for the root and a blank for no block or block 0. */
  lemma PathLinePrinted(i: Index, block: Option<int>)
    ensures var index := if i == [] then "." else Quoted(JoinOn(i, '/'));
      var number := if block == None || block == Some(0) then " " else Formatted(block.value);
      PathLine(STARTING, "   ", i, block) == "    StartingPath   " + index + " " + number &&
      PathLine(ENDING, "     ", i, block) == "    EndingPath     " + index + " " + number
  {
    hide Quoted, JoinOn, Formatted;
    var index, number := IndexText(i), BlockText(block);
    assert "    " + "StartingPath" + "   " + index + (" " + number) == "    StartingPath   " + index + " " + number;
    assert "    " + "EndingPath" + "     " + index + (" " + number) == "    EndingPath     " + index + " " + number;
  }

  /** The printed lines: the number, both ends, and a line for each hash. */
  lemma PrintedLines(v: VolumeInfo, keys: seq<Bytes>)
    requires forall k :: k in keys ==> k in v.hashes
    ensures |TextLines(v, keys)| == 3 + |keys|
    ensures TextLines(v, keys)[0] == "Volume " + Decimal(v.number) + ":"
    ensures TextLines(v, keys)[1] == PathLine(STARTING, "   ", v.startIndex, v.startBlock)
    ensures TextLines(v, keys)[2] == PathLine(ENDING, "     ", v.endIndex, v.endBlock)
    ensures forall k :: 0 <= k < |keys| ==>
                          TextLines(v, keys)[3 + k] == "    Hash " + keys[k] + " " + v.hashes[keys[k]]
  {
    hide HashLines, PathLine, Decimal;
    assert |HashLines(v.hashes, keys)| == |keys| by {
      if keys == [] { NoHashLines(v.hashes); } else { HashLineAt(v.hashes, keys, 0); }
    }
    forall k | 0 <= k < |keys| ensures TextLines(v, keys)[3 + k] == "    Hash " + keys[k] + " " + v.hashes[keys[k]] {
      HashLineAt(v.hashes, keys, k);
    }
  }

  // ----- from_string

  /** What has been set so far. */
  datatype Draft = Draft(
    start: Option<Index>, startBlock: Option<int>, end: Option<Index>, endBlock: Option<int>, hashes: map<Bytes, Bytes>)

  function Lower(s: Bytes): (r: Bytes)
    ensures |r| == |s|
  {
    seq(|s|, i requires 0 <= i < |s| => if 'A' <= s[i] <= 'Z' then (s[i] as int + 32) as char else s[i])
  }

  /** Letter by letter; what is no capital stays. */
  lemma LowerCase(s: Bytes, t: Bytes)
    ensures Lower("ABCDEFGHIJKLMNOPQRSTUVWXYZ") == "abcdefghijklmnopqrstuvwxyz"
    ensures Lower(s + t) == Lower(s) + Lower(t)
    ensures (forall c :: c in s ==> c < 'A' || 'Z' < c) ==> Lower(s) == s
  {
    assert forall i :: 0 <= i < |s| ==> s[i] in s;
  }

  function DigitsEnd(s: Bytes): (n: nat)
    ensures n <= |s| && (n < |s| ==> !IsDigit(s[n])) && forall k :: 0 <= k < n ==> IsDigit(s[k])
  {
    if s == "" || !IsDigit(s[0]) then 0 else 1 + DigitsEnd(s[1..])
  }

  /** "^Volume ([0-9]+):", in any case */
  function ParseHeader(line: Bytes): Option<nat> {
    if |line| < 7 || Lower(line[..7]) != "volume " then None
    else
      var rest := line[7..];
      var n := DigitsEnd(rest);
      if 0 < n < |rest| && rest[n] == ':' then Some(DecimalValue(rest[..n])) else None
  }

  function StringToIndex(s: Bytes): Option<Index> {
    match Unquoted(s)
    case None => None
    case Some(".") => Some([])
    case Some(t) => Some(Split(t))
  }

  /** The index and the block of a path line; None stands for an exception. */
  function ParsePath(words: seq<Bytes>): Option<(Index, Option<int>)> {
    if |words| < 2 || StringToIndex(words[1]).None? then None
    else if |words| == 2 then Some((StringToIndex(words[1]).value, None))
    else match ParseInt(words[2])
      case None => None
      case Some(block) => Some((StringToIndex(words[1]).value, Some(block)))
  }

  function ParseWords(words: seq<Bytes>, d: Draft): Option<Draft> {
    if words == [] then None
    else
      var name := Lower(words[0]);
      if name == "startingpath" then
        match ParsePath(words)
        case None => None
        case Some((i, block)) => Some(d.(start := Some(i), startBlock := block))
      else if name == "endingpath" then
        match ParsePath(words)
        case None => None
        case Some((i, block)) => Some(d.(end := Some(i), endBlock := block))
      else if name == "hash" then
        if |words| < 3 then None else Some(d.(hashes := d.hashes[words[1] := words[2]]))
      else Some(d)
  }

  function ParseLine(line: Bytes, d: Draft): Option<Draft> {
    if line == "" then Some(d) else ParseWords(Words(line), d)
  }

  function ParseLines(lines: seq<Bytes>, d: Draft): Option<Draft> {
    if lines == [] then Some(d)
    else match ParseLine(lines[0], d)
      case None => None
      case Some(next) => ParseLines(lines[1..], next)
  }

  const NO_FIELDS := Draft(None, None, None, None, map[])

  function Finished(number: nat, d: Draft): Option<VolumeInfo> {
    if d.start.None? || d.end.None? then None
    else Some(VolumeInfo(number, d.start.value, d.startBlock, d.end.value, d.endBlock, d.hashes))
  }

  /** What a text says; None stands for an exception. */
  function Parsed(s: Bytes): Option<VolumeInfo> {
    var linelist := SplitOn(Strip(s), '\n');
    match (ParseHeader(linelist[0]), ParseLines(linelist[1..], NO_FIELDS))
    case (Some(number), Some(d)) => Finished(number, d)
    case _ => None
  }

  method FromString(s: Bytes) returns (r: Option<VolumeInfo>)
    ensures r == Parsed(s)
  {
    var linelist := SplitOn(Strip(s), '\n');
    var number := ParseHeader(linelist[0]);
    if number.None? {
      return None;
    }
    var d := NO_FIELDS;
    for n := 1 to |linelist|
      invariant ParseLines(linelist[n..], d) == ParseLines(linelist[1..], NO_FIELDS)
    {
      assert linelist[n..][0] == linelist[n] && linelist[n..][1..] == linelist[n + 1..];
      var next := ParseLine(linelist[n], d);
      if next.None? {
        return None;
      }
      d := next.value;
    }
    r := Finished(number.value, d);
  }

  // ----- what from_string takes from any text

  /** A line whose first word, in any case, is this one. */
  predicate Named(line: Bytes, name: Bytes) {
    line != "" && Words(line) != [] && Lower(Words(line)[0]) == name
  }

  /** The words give this index and this block. */
  predicate GivesPath(words: seq<Bytes>, i: Index, block: Option<int>) {
    && |words| >= 2 && Unquoted(words[1]).Some?
    && i == (if Unquoted(words[1]).value == "." then [] else SplitOn(Unquoted(words[1]).value, '/'))
    && (if |words| == 2 then block.None? else block.Some? && block == ParseInt(words[2]))
  }

  ghost predicate GoodPath(words: seq<Bytes>) {
    exists i, block :: GivesPath(words, i, block)
  }

  /** No exception for this line; one that is blank but not empty raises an IndexError. */
  ghost predicate GoodLine(line: Bytes) {
    && (line != "" ==> Words(line) != [])
    && (Named(line, "startingpath") || Named(line, "endingpath") ==> GoodPath(Words(line)))
    && (Named(line, "hash") ==> |Words(line)| >= 3)
  }

  /** The words of the last line of this name. */
  function LastWords(lines: seq<Bytes>, name: Bytes): Option<seq<Bytes>> {
    if lines == [] then None
    else if Named(lines[|lines| - 1], name) then Some(Words(lines[|lines| - 1]))
    else LastWords(lines[..|lines| - 1], name)
  }

  /** The hash in the last line that has one of this kind. */
  function LastHash(lines: seq<Bytes>, key: Bytes): Option<Bytes> {
    if lines == [] then None
    else
      var words := Words(lines[|lines| - 1]);
      if Named(lines[|lines| - 1], "hash") && |words| >= 3 && words[1] == key then Some(words[2])
      else LastHash(lines[..|lines| - 1], key)
  }

  ghost predicate GivenBy(words: Option<seq<Bytes>>, i: Option<Index>, block: Option<int>) {
    match words
    case None => i.None? && block.None?
    case Some(w) => i.Some? && GivesPath(w, i.value, block)
  }

  /** Every field is what the last line of its name says. */
  ghost predicate Says(lines: seq<Bytes>, d: Draft) {
    && GivenBy(LastWords(lines, "startingpath"), d.start, d.startBlock)
    && GivenBy(LastWords(lines, "endingpath"), d.end, d.endBlock)
    && forall key :: LastHash(lines, key) == if key in d.hashes then Some(d.hashes[key]) else None
  }

  lemma PathGiven(words: seq<Bytes>)
    ensures ParsePath(words).Some? <==> GoodPath(words)
    ensures forall i, block :: GivesPath(words, i, block) <==> ParsePath(words) == Some((i, block))
  {
    forall i, block ensures GivesPath(words, i, block) <==> ParsePath(words) == Some((i, block)) {}
    if ParsePath(words).Some? { assert GivesPath(words, ParsePath(words).value.0, ParsePath(words).value.1); }
  }

  lemma {:induction false} ParseLinesLast(lines: seq<Bytes>, line: Bytes, d: Draft)
    ensures ParseLines(lines + [line], d) ==
            if ParseLines(lines, d).None? then None else ParseLine(line, ParseLines(lines, d).value)
    decreases |lines|
  {
    hide ParseLine;
    if lines == [] {
      assert [line][1..] == [] && lines + [line] == [line];
    } else {
      assert (lines + [line])[1..] == lines[1..] + [line];
      if ParseLine(lines[0], d).Some? { ParseLinesLast(lines[1..], line, ParseLine(lines[0], d).value); }
    }
  }

  lemma LastStep(front: seq<Bytes>, line: Bytes)
    ensures forall name :: LastWords(front + [line], name) ==
                           if Named(line, name) then Some(Words(line)) else LastWords(front, name)
    ensures forall key :: LastHash(front + [line], key) ==
                          if Named(line, "hash") && |Words(line)| >= 3 && Words(line)[1] == key
                          then Some(Words(line)[2]) else LastHash(front, key)
  {
    hide Words, Named;
    var lines := front + [line];
    assert lines[|lines| - 1] == line && lines[..|lines| - 1] == front;
  }

  /** Which field a line sets. */
  lemma LineSets(line: Bytes, d: Draft)
    ensures var path := ParsePath(Words(line));
      ParseLine(line, d) ==
      if line == "" then Some(d)
      else if Words(line) == [] then None
      else if Named(line, "startingpath") then
        if path.None? then None else Some(d.(start := Some(path.value.0), startBlock := path.value.1))
      else if Named(line, "endingpath") then
        if path.None? then None else Some(d.(end := Some(path.value.0), endBlock := path.value.1))
      else if Named(line, "hash") then
        if |Words(line)| < 3 then None else Some(d.(hashes := d.hashes[Words(line)[1] := Words(line)[2]]))
      else Some(d)
  {
    hide Words, Lower, ParsePath;
  }

  lemma OneNameEach(line: Bytes)
    ensures !(Named(line, "startingpath") && Named(line, "endingpath"))
    ensures !(Named(line, "startingpath") && Named(line, "hash")) && !(Named(line, "endingpath") && Named(line, "hash"))
  {
    assert |"startingpath"| != |"endingpath"| && |"startingpath"| != |"hash"| && |"endingpath"| != |"hash"|;
  }

  lemma LineSays(front: seq<Bytes>, line: Bytes, d: Draft)
    requires Says(front, d)
    ensures ParseLine(line, d).Some? <==> GoodLine(line)
    ensures ParseLine(line, d).Some? ==> Says(front + [line], ParseLine(line, d).value)
  {
    LineSets(line, d);
    LastStep(front, line);
    OneNameEach(line);
    PathGiven(Words(line));
    assert line == "" || Words(line) == [] ==> forall name :: !Named(line, name);
    hide Words, Lower, ParsePath, GivesPath, Named, ParseLine, LastWords, LastHash, GoodPath;
  }

  /**
   * The lines after the first: one that is blank but not empty, a path line without a readable path and a hash
   * line without two more words raise; otherwise each field is that of the last line of its name, in any case.
   */
  lemma {:induction false} LinesSay(lines: seq<Bytes>)
    ensures ParseLines(lines, NO_FIELDS).Some? <==> forall l :: l in lines ==> GoodLine(l)
    ensures ParseLines(lines, NO_FIELDS).Some? ==> Says(lines, ParseLines(lines, NO_FIELDS).value)
  {
    hide GoodLine, ParseLine;
    if lines != [] {
      var front, line := lines[..|lines| - 1], lines[|lines| - 1];
      assert lines == front + [line];
      LinesSay(front);
      ParseLinesLast(front, line, NO_FIELDS);
      hide Says;
      if ParseLines(front, NO_FIELDS).Some? { LineSays(front, line, ParseLines(front, NO_FIELDS).value); }
    }
  }

  /** The first line is the word Volume in any case, a number and a colon. */
  lemma HeaderIff(line: Bytes, n: nat)
    ensures ParseHeader(line) == Some(n) <==>
            exists digits, tail :: |line| >= 7 && Lower(line[..7]) == "volume " && AllDigits(digits) &&
              line[7..] == digits + ":" + tail && DecimalValue(digits) == n
  {
    if digits, tail :|
      |line| >= 7 && AllDigits(digits) && line[7..] == digits + ":" + tail && DecimalValue(digits) == n
    {
      assert digits + ":" + tail == digits + (":" + tail);
      DigitsEndAt(digits, ":" + tail);
      assert line[7..][..|digits|] == digits;
    }
    if ParseHeader(line) == Some(n) {
      var rest := line[7..];
      var k := DigitsEnd(rest);
      assert rest == rest[..k] + ":" + rest[k + 1..];
      assert AllDigits(rest[..k]);
    }
  }

  /** Any text: the volume it gives has the number of its first line and the fields of the others. */
  lemma ParsedSays(s: Bytes)
    ensures var lines := SplitOn(Strip(s), '\n');
      match Parsed(s)
      case None =>
        ParseHeader(lines[0]).None? || (exists l :: l in lines[1..] && !GoodLine(l)) ||
        LastWords(lines[1..], "startingpath").None? || LastWords(lines[1..], "endingpath").None?
      case Some(v) =>
        ParseHeader(lines[0]) == Some(v.number) && (forall l :: l in lines[1..] ==> GoodLine(l)) &&
        Says(lines[1..], Draft(Some(v.startIndex), v.startBlock, Some(v.endIndex), v.endBlock, v.hashes))
  {
    var lines := SplitOn(Strip(s), '\n');
    LinesSay(lines[1..]);
    hide Words, ParseHeader, Strip, SplitOn, GoodLine, ParseLines, LastWords, LastHash;
  }

  // ----- the lines of a text, read back

  ghost predicate Word(s: Bytes) {
    s != "" && NoSpace(s)
  }

  lemma TwoWords(sp: Bytes, first: Bytes, gap: Bytes, second: Bytes, tail: Bytes)
    requires AllSpace(sp) && Word(first) && AllSpace(gap) && gap != "" && Word(second)
    requires tail == "" || IsSpace(tail[0])
    ensures Words(sp + first + gap + second + tail) == [first, second] + Words(tail)
  {
    hide Words;
    var a, b, c := second + tail, gap + (second + tail), first + (gap + (second + tail));
    assert sp + first + gap + second + tail == sp + c;
    assert IsSpace(b[0]) by { assert gap[0] in gap; }
    WordsSkip(sp, c);
    WordsTake(first, b);
    WordsSkip(gap, a);
    WordsTake(second, tail);
    Assoc([first], [second], Words(tail));
  }

  lemma OneWord(word: Bytes)
    requires Word(word)
    ensures Words(" " + word) == [word]
  {
    WordsSkip(" ", word);
    WordsTake(word, "");
    assert word + "" == word && [word] + Words("") == [word];
  }

  lemma FormattedIsWord(n: int)
    ensures Word(Formatted(n)) && !IsSpace(Formatted(n)[|Formatted(n)| - 1])
  {
    var s := Formatted(n);
    assert s[|s| - 1] in s;
  }

  /** The words of a block field, and of the same field at the end of a stripped text. */
  lemma BlockWords(block: Option<int>)
    ensures Words(" " + BlockText(block)) ==
            if block.Some? && block.value != 0 then [Formatted(block.value)] else []
  {
    if block.Some? && block.value != 0 {
      FormattedIsWord(block.value);
      OneWord(Formatted(block.value));
    } else {
      assert " " + " " + "" == " " + BlockText(block);
      WordsSkip(" " + " ", "");
    }
  }

  lemma IndexTextRead(i: Index)
    requires ValidIndex(i)
    ensures Word(IndexText(i)) && StringToIndex(IndexText(i)) == Some(i)
  {
    if i != [] {
      JoinShape(i);
      SplitJoin(i);
      QuoteRoundTrip(Join(i));
      QuotedNoSpace(Join(i));
    }
  }

  /** How a path line is read: both blocks None and 0 leave the field empty. */
  function BlockRead(block: Option<int>): Option<int> {
    if block.Some? && block.value != 0 then block else None
  }

  lemma PathLineRead(name: Bytes, gap: Bytes, i: Index, block: Option<int>, tail: Bytes)
    requires Word(name) && AllSpace(gap) && gap != "" && ValidIndex(i)
    requires tail == " " + BlockText(block) || (BlockRead(block).None? && tail == "")
    ensures var words := Words(INDENT + name + gap + IndexText(i) + tail);
      |words| >= 2 && words[0] == name && ParsePath(words) == Some((i, BlockRead(block)))
  {
    hide IndexText, StringToIndex, ParseInt, BlockText, Formatted, Words;
    IndexTextRead(i);
    TwoWords(INDENT, name, gap, IndexText(i), tail);
    if tail == "" {
      assert Words("") == [] by { WordsOfNothing(); }
    } else {
      BlockWords(block);
      if BlockRead(block).Some? {
        ParseFormatted(block.value);
      }
    }
  }

  lemma WordsOfNothing()
    ensures Words("") == []
  {
  }

  lemma HashLineRead(name: Bytes, data: Bytes)
    requires Word(name) && Word(data)
    ensures Words(HashLine(name, data)) == [HASH, name, data]
  {
    TwoWords(INDENT, HASH, " ", name, " " + data);
    OneWord(data);
  }

  lemma Labels()
    ensures Lower(STARTING) == "startingpath" && Lower(ENDING) == "endingpath" && Lower(HASH) == "hash"
    ensures Word(STARTING) && Word(ENDING) && Word(HASH)
  {
  }

  lemma HashLineParsed(name: Bytes, data: Bytes, d: Draft)
    requires Word(name) && Word(data)
    ensures ParseLine(HashLine(name, data), d) == Some(d.(hashes := d.hashes[name := data]))
  {
    HashLineRead(name, data);
    Labels();
  }

  function Added(base: map<Bytes, Bytes>, hashes: map<Bytes, Bytes>, keys: seq<Bytes>): map<Bytes, Bytes>
    requires forall k :: k in keys ==> k in hashes
    decreases |keys|
  {
    if keys == [] then base
    else
      assert keys[0] in keys;
      Added(base[keys[0] := hashes[keys[0]]], hashes, keys[1..])
  }

  lemma {:induction false} AddedAll(base: map<Bytes, Bytes>, hashes: map<Bytes, Bytes>, keys: seq<Bytes>)
    requires forall k :: k in keys ==> k in hashes
    ensures forall k :: k in Added(base, hashes, keys) <==> k in base || k in keys
    ensures forall k :: k in keys ==> Added(base, hashes, keys)[k] == hashes[k]
    ensures forall k :: k in base && k !in keys ==> Added(base, hashes, keys)[k] == base[k]
    decreases |keys|
  {
    if keys != [] {
      assert keys[0] in keys;
      AddedAll(base[keys[0] := hashes[keys[0]]], hashes, keys[1..]);
    }
  }

  lemma {:induction false} HashLinesRead(hashes: map<Bytes, Bytes>, keys: seq<Bytes>, d: Draft)
    requires forall k :: k in keys ==> k in hashes && Word(k) && Word(hashes[k])
    ensures ParseLines(HashLines(hashes, keys), d) == Some(d.(hashes := Added(d.hashes, hashes, keys)))
    decreases |keys|
  {
    hide ParseLine, HashLine;
    if keys != [] {
      var key := keys[0];
      assert key in keys;
      HashLineParsed(key, hashes[key], d);
      HashLinesRead(hashes, keys[1..], d.(hashes := d.hashes[key := hashes[key]]));
    }
  }

  // ----- the text, cut into lines again

  lemma {:induction false} RStripLast(front: Bytes, last: Bytes)
    requires RStrip(last) != ""
    ensures RStrip(front + last) == front + RStrip(last)
  {
    var s := front + last;
    assert s[|s| - 1] == last[|last| - 1];
    if IsSpace(last[|last| - 1]) {
      assert s[..|s| - 1] == front + last[..|last| - 1];
      RStripLast(front, last[..|last| - 1]);
    }
  }

  /** Stripping the text only shortens its last line. */
  lemma StrippedLines(front: seq<Bytes>, last: Bytes)
    requires front != [] && front[0] != "" && !IsSpace(front[0][0]) && RStrip(last) != ""
    requires forall l :: l in front + [last] ==> '\n' !in l
    ensures SplitOn(Strip(JoinOn(front + [last], '\n')), '\n') == front + [RStrip(last)]
  {
    var text, head := JoinOn(front + [last], '\n'), JoinOn(front, '\n');
    JoinOnLast(front, last, '\n');
    assert head[0] == front[0][0] && text[0] == head[0];
    assert LStrip(text) == text;
    RStripLast(head + ['\n'], last);
    JoinOnLast(front, RStrip(last), '\n');
    forall l | l in front + [RStrip(last)] ensures '\n' !in l {
      assert l in front ==> l in front + [last];
      assert last in front + [last];
    }
    SplitOnJoinOn(front + [RStrip(last)], '\n');
  }

  lemma {:induction false} DigitsEndAt(digits: Bytes, rest: Bytes)
    requires forall c :: c in digits ==> IsDigit(c)
    requires rest != "" && !IsDigit(rest[0])
    ensures DigitsEnd(digits + rest) == |digits|
  {
    if digits == "" {
      assert digits + rest == rest;
    } else {
      assert (digits + rest)[0] in digits && (digits + rest)[1..] == digits[1..] + rest;
      DigitsEndAt(digits[1..], rest);
    }
  }

  lemma HeaderParsed(n: nat)
    ensures ParseHeader(Header(n)) == Some(n)
  {
    var line := Header(n);
    assert line[..7] == "Volume " && line[7..] == Decimal(n) + ":";
    assert Lower("Volume ") == "volume ";
    DigitsEndAt(Decimal(n), ":");
    assert (Decimal(n) + ":")[..|Decimal(n)|] == Decimal(n);
    DecimalRoundTrip(n);
  }

  lemma StartLineParsed(i: Index, block: Option<int>, d: Draft)
    requires ValidIndex(i)
    ensures ParseLine(PathLine(STARTING, "   ", i, block), d) ==
            Some(d.(start := Some(i), startBlock := BlockRead(block)))
  {
    hide Words, ParsePath, IndexText, BlockText, Lower;
    Labels();
    PathLineRead(STARTING, "   ", i, block, " " + BlockText(block));
  }

  lemma EndLineParsed(i: Index, block: Option<int>, tail: Bytes, d: Draft)
    requires ValidIndex(i) && (tail == " " + BlockText(block) || (BlockRead(block).None? && tail == ""))
    ensures ParseLine(INDENT + ENDING + "     " + IndexText(i) + tail, d) ==
            Some(d.(end := Some(i), endBlock := BlockRead(block)))
  {
    hide Words, ParsePath, IndexText, BlockText, Lower;
    Labels();
    PathLineRead(ENDING, "     ", i, block, tail);
  }

  /** What is left of the last path line after strip. */
  lemma EndLineStripped(i: Index, block: Option<int>) returns (tail: Bytes)
    requires ValidIndex(i)
    ensures tail == " " + BlockText(block) || (BlockRead(block).None? && tail == "")
    ensures RStrip(PathLine(ENDING, "     ", i, block)) == INDENT + ENDING + "     " + IndexText(i) + tail
  {
    var line, base := PathLine(ENDING, "     ", i, block), INDENT + ENDING + "     " + IndexText(i);
    IndexTextRead(i);
    if BlockRead(block).Some? {
      FormattedIsWord(block.value);
      tail := " " + BlockText(block);
      assert line == base + tail && line[|line| - 1] == tail[|tail| - 1];
    } else {
      tail := "";
      assert line == base + "  " && base[|base| - 1] == IndexText(i)[|IndexText(i)| - 1];
      assert base[|base| - 1] in IndexText(i);
      RStripSpaces(base, "  ");
      assert base + tail == base;
    }
  }

  lemma {:induction false} OneLineEach(hashes: map<Bytes, Bytes>, keys: seq<Bytes>)
    requires forall k :: k in keys ==> k in hashes && Word(k) && Word(hashes[k])
    ensures forall l :: l in HashLines(hashes, keys) ==> '\n' !in l
    ensures keys != [] ==> HashLines(hashes, keys) != []
    ensures keys != [] ==> var last := HashLines(hashes, keys)[|HashLines(hashes, keys)| - 1];
      last != "" && !IsSpace(last[|last| - 1])
    decreases |keys|
  {
    if keys != [] {
      var line := HashLine(keys[0], hashes[keys[0]]);
      assert keys[0] in keys;
      assert line[|line| - 1] == hashes[keys[0]][|hashes[keys[0]]| - 1];
      assert line[|line| - 1] in hashes[keys[0]];
      OneLineEach(hashes, keys[1..]);
    }
  }

  lemma PathLinesAreOneLine(v: VolumeInfo)
    requires ValidIndex(v.startIndex) && ValidIndex(v.endIndex)
    ensures '\n' !in PathLine(STARTING, "   ", v.startIndex, v.startBlock)
    ensures '\n' !in PathLine(ENDING, "     ", v.endIndex, v.endBlock)
  {
    IndexTextRead(v.startIndex);
    IndexTextRead(v.endIndex);
  }

  ghost predicate Printable(v: VolumeInfo) {
    && ValidIndex(v.startIndex) && ValidIndex(v.endIndex)
    && (forall k :: k in v.hashes ==> Word(k) && Word(v.hashes[k]))
  }

  /** The lines that from_string sees are the printed ones, but for the end of the last. */
  lemma TextCutIntoLines(v: VolumeInfo, keys: seq<Bytes>) returns (tail: Bytes)
    requires Printable(v) && Enumerates(keys, v.hashes)
    ensures tail == " " + BlockText(v.endBlock) || (BlockRead(v.endBlock).None? && tail == "")
    ensures SplitOn(Strip(JoinOn(TextLines(v, keys), '\n')), '\n') ==
            [Header(v.number), PathLine(STARTING, "   ", v.startIndex, v.startBlock),
             INDENT + ENDING + "     " + IndexText(v.endIndex) + tail] + HashLines(v.hashes, keys)
  {
    hide IndexText, BlockText, HashLines, RStrip, Strip, SplitOn, JoinOn;
    var lines, hashLines := TextLines(v, keys), HashLines(v.hashes, keys);
    var front, last := lines[..|lines| - 1], lines[|lines| - 1];
    assert lines == front + [last] && lines[2..] == [lines[2]] + hashLines;
    PathLinesAreOneLine(v);
    OneLineEach(v.hashes, keys);
    assert front[0] == Header(v.number);
    if keys == [] {
      assert hashLines == [] by { NoHashLines(v.hashes); }
      tail := EndLineStripped(v.endIndex, v.endBlock);
    } else {
      tail := " " + BlockText(v.endBlock);
      assert last == hashLines[|hashLines| - 1];
      RStripSpaces(last, "");
      assert last + "" == last;
    }
    StrippedLines(front, last);
  }

  lemma NoHashLines(hashes: map<Bytes, Bytes>)
    ensures HashLines(hashes, []) == []
  {
  }

  /** from_string reads back what to_string printed, except that block 0 becomes None. */
  lemma VolumeTextRead(v: VolumeInfo, keys: seq<Bytes>)
    requires Printable(v) && Enumerates(keys, v.hashes)
    ensures Parsed(JoinOn(TextLines(v, keys), '\n')) ==
            Some(v.(startBlock := BlockRead(v.startBlock), endBlock := BlockRead(v.endBlock)))
  {
    hide ParseHeader, ParseLine, HashLines, IndexText, BlockText, SplitOn, Strip, JoinOn, TextLines, Header;
    var tail := TextCutIntoLines(v, keys);
    var end := INDENT + ENDING + "     " + IndexText(v.endIndex) + tail;
    var d1 := NO_FIELDS.(start := Some(v.startIndex), startBlock := BlockRead(v.startBlock));
    var d2 := d1.(end := Some(v.endIndex), endBlock := BlockRead(v.endBlock));
    HeaderParsed(v.number);
    StartLineParsed(v.startIndex, v.startBlock, NO_FIELDS);
    EndLineParsed(v.endIndex, v.endBlock, tail, d1);
    HashLinesRead(v.hashes, keys, d2);
    AddedAll(map[], v.hashes, keys);
    assert Added(map[], v.hashes, keys) == v.hashes;
    var start, later := PathLine(STARTING, "   ", v.startIndex, v.startBlock), HashLines(v.hashes, keys);
    assert ParseLines([start, end] + later, NO_FIELDS) == ParseLines(later, d2);
    assert ([Header(v.number), start, end] + later)[1..] == [start, end] + later;
  }

  /** The round trip is exact but for a block number 0. */
  lemma VolumeTextRoundTripIff(v: VolumeInfo, keys: seq<Bytes>)
    requires Printable(v) && Enumerates(keys, v.hashes)
    ensures Parsed(JoinOn(TextLines(v, keys), '\n')) == Some(v) <==> v.startBlock != Some(0) && v.endBlock != Some(0)
  {
    VolumeTextRead(v, keys);
  }
}
