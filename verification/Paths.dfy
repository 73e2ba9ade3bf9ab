/** ROPaths: the entries of a tree, of a signature set and of a delta. */
module Paths {
  import opened Indices

  datatype Option<+T> = None | Some(value: T)

  /** The type field together with the fields that only that type has. */
  datatype Kind =
    | Missing
    | Reg
    | Dir
    | Fifo
    | Sym(target: Bytes)
    | Chr(major: int, minor: int)
    | Blk(major: int, minor: int)

  /** Plain marks a path of a source tree, which has no difftype. */
  datatype DiffType = Plain | Snapshot | Diff | Deleted | Signature

  /** data is the content of the associated file object, empty when there is none. */
  datatype ROPath = ROPath(
    index: Index, kind: Kind, mode: int, uid: int, gid: int, mtime: int, difftype: DiffType, data: Bytes)
  {
    predicate Exists() { !kind.Missing? }
    predicate IsReg() { kind.Reg? }
    predicate IsDir() { kind.Dir? }

    predicate PermsEqual(other: ROPath) {
      mode == other.mode && gid == other.gid && uid == other.uid
    }

    /** __eq__: compares metadata only, never sizes or data. */
    predicate Equal(other: ROPath) {
      if !Exists() && !other.Exists() then
        true
      else if Exists() != other.Exists() then
        false
      else if kind.Reg? || kind.Dir? || kind.Fifo? then
        kind == other.kind && PermsEqual(other) &&
        (mtime == other.mtime || (mtime <= 0 && other.mtime <= 0))
      else if kind.Sym? then
        kind == other.kind
      else
        kind == other.kind && PermsEqual(other)
    }

    /** What a restore has to reproduce. */
    predicate SameFile(other: ROPath) {
      index == other.index && Equal(other) && (IsReg() ==> data == other.data)
    }
  }

  /** The attributes __eq__ looks at, in a form where equality is identity. */
  datatype Identity =
    | Nothing
    | Link(target: Bytes)
    | Device(kind: Kind, mode: int, uid: int, gid: int)
    | Node(kind: Kind, mode: int, uid: int, gid: int, mtime: nat)

  function NonNegative(n: int): (r: nat)
    ensures r == n || (n < 0 && r == 0)
  {
    if n < 0 then 0 else n
  }

  function IdentityOf(p: ROPath): Identity {
    match p.kind
    case Missing => Nothing
    case Sym(target) => Link(target)
    case Chr(_, _) => Device(p.kind, p.mode, p.uid, p.gid)
    case Blk(_, _) => Device(p.kind, p.mode, p.uid, p.gid)
    case _ => Node(p.kind, p.mode, p.uid, p.gid, NonNegative(p.mtime))
  }

  /** __eq__ is an equivalence: it holds exactly when the identities coincide. */
  lemma EqualIffSameIdentity(p: ROPath, q: ROPath)
    ensures p.Equal(q) <==> IdentityOf(p) == IdentityOf(q)
  {
    match p.kind
    case Missing =>
    case Sym(_) =>
    case Chr(_, _) =>
    case Blk(_, _) =>
    case _ =>
  }

  /** A tar header stores no negative mtime. */
  function Archived(p: ROPath): (r: ROPath)
    ensures r.Equal(p) && r.index == p.index && r.kind == p.kind
  {
    p.(mtime := NonNegative(p.mtime))
  }

  // ----- streams of paths in index order

  ghost predicate Sorted(s: seq<ROPath>) {
    forall i, j :: 0 <= i < j < |s| ==> Less(s[i].index, s[j].index)
  }

  function Lookup(s: seq<ROPath>, i: Index): (r: Option<ROPath>)
    ensures r.Some? ==> r.value in s && r.value.index == i
    ensures r.None? ==> forall p :: p in s ==> p.index != i
  {
    if s == [] then None
    else if s[0].index == i then Some(s[0])
    else Lookup(s[1..], i)
  }

  /** A sorted stream is determined by what it holds at each index. */
  lemma {:induction false} SortedExtensional(s: seq<ROPath>, t: seq<ROPath>)
    requires Sorted(s) && Sorted(t)
    requires forall i :: Lookup(s, i) == Lookup(t, i)
    ensures s == t
  {
    OrderFacts();
    assert s != [] ==> Lookup(s, s[0].index).Some?;
    assert t != [] ==> Lookup(t, t[0].index).Some?;
    if s != [] && t != [] {
      assert s[0] in t && t[0] in s;
      assert s[0] == t[0];
      forall i ensures Lookup(s[1..], i) == Lookup(t[1..], i) {
        assert Lookup(s, i) == Lookup(t, i);
        if i == s[0].index {
          assert Lookup(s[1..], i).None? && Lookup(t[1..], i).None?;
        }
      }
      SortedExtensional(s[1..], t[1..]);
      assert s == [s[0]] + s[1..] && t == [t[0]] + t[1..];
    }
  }
}
