/** The names of tar members and how the reader takes them apart. */
module TarNames {
  import opened Indices
  import opened Paths
  import opened DiffDir
  import opened PatchDir
  import opened Strings

  /** A tar member: its header fields and its data. */
  datatype TarEntry = TarEntry(
    name: Bytes, kind: Kind, mode: int, uid: int, gid: int, mtime: int, data: Bytes)

  // ----- "/".join and split("/")

  predicate ValidComponent(c: Component) {
    c != "" && c != "." && c != ".." && '/' !in c
  }

  predicate ValidIndex(i: Index) {
    forall c :: c in i ==> ValidComponent(c)
  }

  function Join(i: Index): Bytes {
    JoinOn(i, '/')
  }

  function Split(s: Bytes): seq<Bytes> {
    SplitOn(s, '/')
  }

  lemma {:induction false} SplitJoin(i: Index)
    requires i != [] && ValidIndex(i)
    ensures Split(Join(i)) == i
  {
    SplitOnJoinOn(i, '/');
  }

  lemma {:induction false} JoinShape(i: Index)
    requires i != [] && ValidIndex(i)
    ensures Join(i) != "" && Join(i) != "." && !EndsWithSlash(Join(i))
  {
    assert ValidComponent(i[0]);
    if |i| == 1 {
      assert Join(i)[|i[0]| - 1] in i[0];
    } else {
      var rest := Join(i[1..]);
      JoinShape(i[1..]);
      assert Join(i)[|Join(i)| - 1] == rest[|rest| - 1];
      assert |Join(i)| > 1;
    }
  }

  // ----- the position of the last slash

  /** The position of the last slash, or |s| without one. */
  function LastSlash(s: Bytes): (p: nat)
    ensures p <= |s| && (p < |s| ==> s[p] == '/')
  {
    if s == "" then 0
    else if s[|s| - 1] == '/' then |s| - 1
    else
      var p := LastSlash(s[..|s| - 1]);
      if p == |s| - 1 then |s| else p
  }

  lemma {:induction false} LastSlashBefore(x: Bytes, y: Bytes)
    requires '/' !in y
    ensures LastSlash(x + "/" + y) == |x|
  {
    var s := x + "/" + y;
    if y == "" {
      assert s[|s| - 1] == '/';
    } else {
      assert s[|s| - 1] == y[|y| - 1];
      assert s[..|s| - 1] == x + "/" + y[..|y| - 1];
      LastSlashBefore(x, y[..|y| - 1]);
    }
  }

  // ----- delta tars

  /** ti.name as get_tarinfo sets it. */
  function TarinfoName(p: ROPath): Bytes {
    (if p.index == [] then "." else Join(p.index)) + (if p.IsDir() then "/" else "")
  }

  /** add_prefix. */
  function AddPrefix(prefix: Bytes, name: Bytes): Bytes {
    if name == "." then prefix + "/" else prefix + "/" + name
  }

  /** get_tarinfo_name: directory members always end in a slash. */
  function ReadName(e: TarEntry): Bytes {
    if e.kind.Dir? && !EndsWithSlash(e.name) then e.name + "/" else e.name
  }

  predicate EndsWithSlash(s: Bytes) {
    s != "" && s[|s| - 1] == '/'
  }

  datatype Label = Label(index: Index, difftype: DiffType, multivol: bool)

  /** The index a stripped name stands for; ".." is refused. */
  function NameToIndex(name: Bytes): Result<Index> {
    if name == "." || name == "" then Ok([])
    else if ".." in Split(name) then Err
    else Ok(Split(name))
  }

  /** name with prefix cut off and one trailing slash dropped. */
  function StripName(name: Bytes, prefix: Bytes): Bytes
    requires prefix <= name
  {
    DropSlash(name[|prefix|..])
  }

  function DropSlash(s: Bytes): Bytes {
    if EndsWithSlash(s) then s[..|s| - 1] else s
  }

  /** What the multivol regular expression captures after the difftype, rest beginning with a slash. */
  function MultivolName(rest: Bytes): Result<Bytes> {
    var p := LastSlash(rest);
    if p == |rest| || !AllDigits(rest[p + 1..]) then Err
    else if p == 0 then Ok("")
    else Ok(rest[1..p])
  }

  function LabelName(name: Result<Bytes>, difftype: DiffType, multivol: bool): Result<Label> {
    match name
    case Err => Err
    case Ok(n) =>
      match NameToIndex(n)
      case Err => Err
      case Ok(index) => Ok(Label(index, difftype, multivol))
  }

  function MultivolWord(d: DiffType): Bytes {
    if d.Diff? then "multivol_diff" else "multivol_snapshot"
  }

  /** get_index_from_tarinfo. */
  function GetIndex(e: TarEntry): Result<Label> {
    var name := ReadName(e);
    if "snapshot/" <= name then LabelName(Ok(StripName(name, "snapshot/")), Snapshot, false)
    else if "diff/" <= name then LabelName(Ok(StripName(name, "diff/")), Diff, false)
    else if "deleted/" <= name then LabelName(Ok(StripName(name, "deleted/")), Deleted, false)
    else if MultivolWord(Diff) + "/" <= name then
      LabelName(MultivolName(name[|MultivolWord(Diff)|..]), Diff, true)
    else if MultivolWord(Snapshot) + "/" <= name then
      LabelName(MultivolName(name[|MultivolWord(Snapshot)|..]), Snapshot, true)
    else Err
  }

  function DiffTypeName(d: DiffType): Bytes {
    match d
    case Snapshot => "snapshot"
    case Diff => "diff"
    case Deleted => "deleted"
    case Signature => "signature"
    case Plain => ""
  }

  function SingleName(p: ROPath): Bytes {
    AddPrefix(DiffTypeName(if p.Exists() then p.difftype else Deleted), TarinfoName(p))
  }

  function VolumeName(p: ROPath, n: nat): Bytes {
    MultivolWord(p.difftype) + VolumeSuffix(TarinfoName(p), n)
  }

  function VolumeSuffix(name: Bytes, n: nat): Bytes {
    "/" + name + "/" + Decimal(n)
  }

  /** The name in a header is the path itself: its components between slashes, one more at the end for a directory. */
  lemma TarinfoNameIsPath(p: ROPath)
    requires ValidIndex(p.index)
    ensures var name := TarinfoName(p);
      var stem := if p.kind.Dir? then name[..|name| - 1] else name;
      name == (if p.kind.Dir? then stem + "/" else stem) && stem != "" && stem[|stem| - 1] != '/' &&
      if p.index == [] then stem == "." else Split(stem) == p.index
  {
    if p.index != [] {
      JoinShape(p.index);
      SplitJoin(p.index);
    }
    var stem := if p.index == [] then "." else Join(p.index);
    assert (stem + "/")[..|stem|] == stem && stem + "" == stem;
  }

  lemma SingleNameOf(p: ROPath)
    ensures var rest := if TarinfoName(p) == "." then "" else TarinfoName(p);
      (p.kind.Missing? ==> SingleName(p) == "deleted/" + rest) &&
      (!p.kind.Missing? && p.difftype.Snapshot? ==> SingleName(p) == "snapshot/" + rest) &&
      (!p.kind.Missing? && p.difftype.Diff? ==> SingleName(p) == "diff/" + rest)
  {
    var name := TarinfoName(p);
    assert "snapshot" + "/" == "snapshot/" && "diff" + "/" == "diff/" && "deleted" + "/" == "deleted/";
    assert "snapshot/" + "" == "snapshot/" && "diff/" + "" == "diff/" && "deleted/" + "" == "deleted/";
  }

  lemma VolumeNameOf(p: ROPath, n: nat)
    ensures p.difftype.Snapshot? ==> VolumeName(p, n) == "multivol_snapshot/" + TarinfoName(p) + "/" + Decimal(n)
    ensures p.difftype.Diff? ==> VolumeName(p, n) == "multivol_diff/" + TarinfoName(p) + "/" + Decimal(n)
  {
    assert "multivol_snapshot" + "/" == "multivol_snapshot/" && "multivol_diff" + "/" == "multivol_diff/";
  }

  /** A delta path as get_delta_iter yields it. */
  predicate ValidDelta(p: ROPath) {
    IsPatch(p) && ValidIndex(p.index) && (p.difftype.Deleted? ==> p == DeletedPath(p.index))
  }

  lemma SingleLabel(e: TarEntry, d: DiffType, rest: Bytes)
    requires (d.Diff? || d.Snapshot? || d.Deleted?) && ReadName(e) == DiffTypeName(d) + "/" + rest
    ensures GetIndex(e) == LabelName(Ok(DropSlash(rest)), d, false)
  {
    var name := ReadName(e);
    PrefixCut(DiffTypeName(d) + "/", rest);
    match d
    case Snapshot => assert DiffTypeName(d) + "/" == "snapshot/";
    case Diff =>
      assert DiffTypeName(d) + "/" == "diff/";
      assert !("snapshot/" <= name) by { assert name[0] == 'd'; }
    case Deleted =>
      assert DiffTypeName(d) + "/" == "deleted/";
      assert !("snapshot/" <= name) && !("diff/" <= name) by { assert name[0] == 'd' && name[1] == 'e'; }
  }

  /** A one-block entry names its index and difftype. */
  lemma SingleNameLabel(p: ROPath, e: TarEntry)
    requires ValidDelta(p) && e.name == SingleName(p) && (e.kind.Dir? <==> p.IsDir())
    ensures GetIndex(e) == Ok(Label(p.index, p.difftype, false))
  {
    var rest := if TarinfoName(p) == "." then "" else TarinfoName(p);
    StemOf(p);
    var name := DiffTypeName(p.difftype) + "/" + rest;
    assert e.name == name;
    assert p.IsDir() ==> name[|name| - 1] == rest[|rest| - 1] == '/';
    SingleLabel(e, p.difftype, rest);
  }

  lemma StemOf(p: ROPath)
    requires ValidIndex(p.index)
    ensures var rest := if TarinfoName(p) == "." then "" else TarinfoName(p);
      NameToIndex(DropSlash(rest)) == Ok(p.index) && (p.IsDir() ==> EndsWithSlash(rest))
  {
    if p.index == [] {
      assert TarinfoName(p) == if p.IsDir() then "./" else ".";
    } else {
      var name := Join(p.index);
      JoinShape(p.index);
      JoinIndex(p.index);
      if p.IsDir() {
        assert (name + "/")[..|name|] == name && EndsWithSlash(name + "/");
        assert |name + "/"| > 1;
      } else {
        assert name + "" == name;
      }
    }
  }

  lemma JoinIndex(i: Index)
    requires i != [] && ValidIndex(i)
    ensures NameToIndex(Join(i)) == Ok(i)
  {
    JoinShape(i);
    SplitJoin(i);
    assert forall c :: c in i ==> ValidComponent(c);
  }

  /** Every block of a split file names the same index and difftype. */
  lemma VolumeNameLabel(p: ROPath, n: nat, e: TarEntry)
    requires ValidDelta(p) && p.IsReg() && e.name == VolumeName(p, n) && !e.kind.Dir?
    ensures GetIndex(e) == Ok(Label(p.index, p.difftype, true))
  {
    var name := TarinfoName(p);
    assert NameToIndex(name) == Ok(p.index) by {
      if p.index != [] {
        JoinIndex(p.index);
        assert Join(p.index) + "" == Join(p.index);
      }
    }
    VolumeSuffixName(name, n);
    MultivolLabel(e, p.difftype, VolumeSuffix(name, n));
  }

  lemma VolumeSuffixName(name: Bytes, n: nat)
    ensures MultivolName(VolumeSuffix(name, n)) == Ok(name)
  {
    var rest := VolumeSuffix(name, n);
    LastSlashBefore("/" + name, Decimal(n));
    assert rest[|name| + 2..] == Decimal(n);
    assert rest[1..|name| + 1] == name;
  }

  lemma PrefixCut(word: Bytes, rest: Bytes)
    ensures word <= word + rest && (word + rest)[|word|..] == rest
  {
  }

  lemma MultivolLabel(e: TarEntry, d: DiffType, rest: Bytes)
    requires !e.kind.Dir? && (d.Diff? || d.Snapshot?) && rest != "" && rest[0] == '/'
    requires e.name == MultivolWord(d) + rest
    ensures GetIndex(e) == LabelName(MultivolName(rest), d, true)
  {
    var word := MultivolWord(d);
    assert e.name == (word + "/") + rest[1..];
    PrefixCut(word, rest);
    PrefixCut(word + "/", rest[1..]);
    NotSingle(e.name, word, rest);
    if d.Snapshot? { NotMultivolDiff(e.name, rest); }
  }

  lemma NotSingle(name: Bytes, word: Bytes, rest: Bytes)
    requires name == word + rest && word != "" && word[0] == 'm'
    ensures !("snapshot/" <= name) && !("diff/" <= name) && !("deleted/" <= name)
  {
    assert name[0] == 'm';
  }

  lemma NotMultivolDiff(name: Bytes, rest: Bytes)
    requires name == MultivolWord(Snapshot) + rest
    ensures !(MultivolWord(Diff) + "/" <= name)
  {
    assert name[9] == 's' && (MultivolWord(Diff) + "/")[9] == 'd';
  }

  // ----- what the reader accepts

  /** The index of a name, which never goes up. */
  predicate Stands(stem: Bytes, index: Index) {
    if stem == "." || stem == "" then index == [] else index == SplitOn(stem, '/') && ".." !in index
  }

  predicate SingleWord(word: Bytes, d: DiffType) {
    match d
    case Snapshot => word == "snapshot/"
    case Diff => word == "diff/"
    case Deleted => word == "deleted/"
    case _ => false
  }

  predicate VolumeWord(word: Bytes, d: DiffType) {
    match d
    case Snapshot => word == "multivol_snapshot/"
    case Diff => word == "multivol_diff/"
    case _ => false
  }

  /** One of the five words, a stem and for a single member perhaps a slash, for a volume its number. */
  predicate NamedBy(word: Bytes, stem: Bytes, end: Bytes, name: Bytes, tag: Label) {
    && Stands(stem, tag.index) && name == word + stem + end
    && if tag.multivol then
         VolumeWord(word, tag.difftype) &&
         ((end != "" && end[0] == '/' && AllDigits(end[1..])) || (stem == "" && AllDigits(end)))
       else SingleWord(word, tag.difftype) && (end == "" || end == "/")
  }

  ghost predicate IsNamed(name: Bytes, tag: Label) {
    exists word, stem, end :: NamedBy(word, stem, end, name, tag)
  }

  lemma StripNamed(name: Bytes, word: Bytes, d: DiffType, tag: Label)
    requires word <= name && SingleWord(word, d)
    requires LabelName(Ok(StripName(name, word)), d, false) == Ok(tag)
    ensures IsNamed(name, tag)
  {
    var rest := name[|word|..];
    var stem := DropSlash(rest);
    var end := if EndsWithSlash(rest) then "/" else "";
    SlashDropped(rest);
    assert name == word + rest;
    Assoc(word, stem, end);
    hide DropSlash, EndsWithSlash;
    assert NamedBy(word, stem, end, name, tag);
  }

  lemma SlashDropped(s: Bytes)
    ensures s == DropSlash(s) + if EndsWithSlash(s) then "/" else ""
  {
    assert s + "" == s;
    if EndsWithSlash(s) { assert s == s[..|s| - 1] + [s[|s| - 1]]; }
  }

  /** What the multivol expression captures stands between the word and the number. */
  lemma MultivolParts(rest: Bytes) returns (stem: Bytes, end: Bytes)
    requires rest != "" && rest[0] == '/' && MultivolName(rest).Ok?
    ensures rest == "/" + stem + end && MultivolName(rest) == Ok(stem)
    ensures (end != "" && end[0] == '/' && AllDigits(end[1..])) || (stem == "" && AllDigits(end))
  {
    var p := LastSlash(rest);
    if p == 0 {
      stem, end := "", rest[1..];
    } else {
      stem, end := rest[1..p], rest[p..];
    }
  }

  lemma VolumeNamed(name: Bytes, word: Bytes, d: DiffType, tag: Label)
    requires word + "/" <= name && VolumeWord(word + "/", d)
    requires LabelName(MultivolName(name[|word|..]), d, true) == Ok(tag)
    ensures IsNamed(name, tag)
  {
    var rest := name[|word|..];
    CutWord(name, word);
    var stem, end := MultivolParts(rest);
    RegroupName(word, stem, end);
    hide MultivolName, LastSlash, AllDigits, EndsWithSlash;
    assert NamedBy(word + "/", stem, end, name, tag);
  }

  lemma CutWord(name: Bytes, word: Bytes)
    requires word + "/" <= name
    ensures name == word + name[|word|..] && name[|word|] == '/'
  {
    assert (word + "/")[|word|] == '/';
  }

  lemma RegroupName(word: Bytes, stem: Bytes, end: Bytes)
    ensures word + ("/" + stem + end) == word + "/" + stem + end
  {
  }

  /** A name is accepted only as what it says, and refused if it would go up or begins with no known word. */
  lemma AcceptedNames(e: TarEntry)
    ensures GetIndex(e).Ok? ==> IsNamed(ReadName(e), GetIndex(e).value)
  {
    var name := ReadName(e);
    hide LabelName, StripName, MultivolName, IsNamed;
    if GetIndex(e).Ok? {
      var tag := GetIndex(e).value;
      if "snapshot/" <= name {
        StripNamed(name, "snapshot/", Snapshot, tag);
      } else if "diff/" <= name {
        StripNamed(name, "diff/", Diff, tag);
      } else if "deleted/" <= name {
        StripNamed(name, "deleted/", Deleted, tag);
      } else if MultivolWord(Diff) + "/" <= name {
        assert MultivolWord(Diff) + "/" == "multivol_diff/";
        VolumeNamed(name, MultivolWord(Diff), Diff, tag);
      } else {
        assert MultivolWord(Snapshot) + "/" == "multivol_snapshot/";
        VolumeNamed(name, MultivolWord(Snapshot), Snapshot, tag);
      }
    }
  }
}
