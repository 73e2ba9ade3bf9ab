/** Buffers around librsync. */
module LibrsyncBuffers {
  import opened Indices
  import opened Paths

  /** One call of maker.cycle. */
  datatype Cycle<+S> = Cycle(eof: bool, used: int, out: Bytes, next: S)

  datatype Maker<!S> = Maker(start: S, cycle: (S, Bytes) -> Cycle<S>)

  /** What a maker does: what it was given and has made so far, and the total output for a total input. */
  datatype Meaning<!S> = Meaning(
    alive: S -> bool, given: S -> Bytes, made: S -> Bytes, rank: S -> nat, output: Bytes -> Bytes)

  /** The total output depends only on the total input, whose end is an empty block; no cycle stalls for ever. */
  ghost predicate LawfulCycle<S>(m: Maker<S>, w: Meaning<S>, s: S, buf: Bytes) {
    var c := m.cycle(s, buf);
    && 0 <= c.used <= |buf|
    && w.given(c.next) == w.given(s) + buf[..c.used] && w.made(c.next) == w.made(s) + c.out
    && (c.eof ==> forall more: Bytes :: (buf == "" ==> more == "") ==>
          w.output(w.given(s) + buf + more) == w.made(c.next))
    && (!c.eof ==> w.alive(c.next) && (c.used == 0 ==> w.rank(c.next) < w.rank(s)))
  }

  ghost predicate Lawful<S(!new)>(m: Maker<S>, w: Meaning<S>) {
    && w.alive(m.start) && w.given(m.start) == "" && w.made(m.start) == ""
    && forall s, buf :: w.alive(s) ==> LawfulCycle(m, w, s, buf)
  }

  /** A signature maker is done only at the end of its input. */
  ghost predicate Patient<S(!new)>(m: Maker<S>, w: Meaning<S>) {
    forall s, buf :: w.alive(s) && m.cycle(s, buf).eof ==> buf == ""
  }

  lemma LawfulExists() returns (m: Maker<Bytes>, w: Meaning<Bytes>)
    ensures Lawful(m, w) && Patient(m, w)
  {
    m := Maker("", (s: Bytes, buf: Bytes) => Cycle(buf == "", |buf|, buf, s + buf));
    w := Meaning(s => true, s => s, s => s, s => 0, b => b);
    forall s, buf | w.alive(s) ensures LawfulCycle(m, w, s, buf) {
      assert buf[..|buf|] == buf;
      assert buf == "" ==> s + buf + "" == s + buf;
    }
  }

  /** What has been made never has to be taken back, whatever input is still to come. */
  lemma {:induction false} MadeIsPrefix<S(!new)>(m: Maker<S>, w: Meaning<S>, s: S, rest: Bytes)
    requires Lawful(m, w) && w.alive(s)
    ensures w.made(s) <= w.output(w.given(s) + rest)
    decreases |rest|, w.rank(s)
  {
    assert LawfulCycle(m, w, s, rest);
    var c := m.cycle(s, rest);
    if c.eof {
      assert w.given(s) + rest + "" == w.given(s) + rest;
    } else {
      MadeIsPrefix(m, w, c.next, rest[c.used..]);
      assert rest[..c.used] + rest[c.used..] == rest;
      Assoc(w.given(s), rest[..c.used], rest[c.used..]);
    }
  }

  /** A readable file; a read may be short, but is only empty at the end. */
  class InFile {
    var rest: Bytes

    constructor (content: Bytes)
      ensures rest == content
    {
      rest := content;
    }

    method Read(length: int) returns (buf: Bytes)
      requires length >= -1
      modifies this
      ensures buf + rest == old(rest)
      ensures length == -1 ==> rest == ""
      ensures length >= 0 ==> |buf| <= length
      ensures buf == "" && length != 0 ==> rest == ""
    {
      var n := if length == -1 || length > |rest| then |rest| else length;
      buf := rest[..n];
      rest := rest[n..];
    }
  }

  const BLOCKSIZE := 65536

  class LikeFile<S(!new)> {
    const maker: Maker<S>
    ghost const meaning: Meaning<S>
    /** All that infile holds at the start. */
    ghost const source: Bytes
    /** All that reads have returned. */
    ghost var delivered: Bytes

    const infile: InFile
    var state: S
    var inbuf: Bytes
    var outbuf: Bytes
    var eof: bool
    var infileEof: bool

    ghost function Output(): Bytes {
      meaning.output(source)
    }

    /** The input is the part given to the maker, the buffered part and the unread part. */
    ghost predicate Feeding()
      reads this, infile
    {
      && meaning.alive(state)
      && meaning.given(state) + (inbuf + infile.rest) == source
      && (infileEof ==> infile.rest == "")
    }

    ghost predicate Valid()
      reads this, infile
    {
      && Lawful(maker, meaning)
      && delivered + outbuf == meaning.made(state)
      && (if eof then meaning.made(state) == Output() else Feeding())
    }

    constructor (maker: Maker<S>, infile: InFile, ghost meaning: Meaning<S>)
      requires Lawful(maker, meaning)
      ensures Valid() && source == infile.rest && Output() == meaning.output(infile.rest) && delivered == ""
      ensures this.infile == infile
    {
      this.maker, this.infile, this.meaning, source, delivered := maker, infile, meaning, infile.rest, "";
      state, inbuf, outbuf, eof, infileEof := maker.start, "", "", false, false;
    }

    method AddToInbuf()
      requires !infileEof && Feeding()
      modifies this`inbuf, this`infileEof, infile
      ensures Feeding() && (inbuf == "" ==> infileEof)
      ensures inbuf + infile.rest == old(inbuf + infile.rest)
    {
      ghost var left := inbuf + infile.rest;
      while |inbuf| < BLOCKSIZE
        invariant Feeding() && inbuf + infile.rest == left
        invariant inbuf == "" ==> !infileEof
        decreases |infile.rest|
      {
        ghost var had := inbuf;
        var newIn := infile.Read(BLOCKSIZE);
        Assoc(had, newIn, infile.rest);
        if newIn == "" {
          infileEof := true;
          break;
        }
        inbuf := inbuf + newIn;
      }
    }

    /** The empty block, which ends the input, is only given when all input has been. */
    method CycleOnce()
      requires Valid() && !eof && (inbuf == "" ==> infile.rest == "")
      modifies this`state, this`inbuf, this`outbuf, this`eof
      ensures Valid() && (eof || Decreased(old(Left()), old(meaning.rank(state))))
    {
      assert LawfulCycle(maker, meaning, state, inbuf);
      var c := maker.cycle(state, inbuf);
      ghost var given := meaning.given(state);
      Assoc(given, inbuf, infile.rest);
      Assoc(given, inbuf[..c.used], inbuf[c.used..] + infile.rest);
      Assoc(inbuf[..c.used], inbuf[c.used..], infile.rest);
      assert inbuf[..c.used] + inbuf[c.used..] == inbuf;
      Assoc(delivered, outbuf, c.out);
      eof, state := c.eof, c.next;
      inbuf := inbuf[c.used..];
      outbuf := outbuf + c.out;
    }

    ghost function Left(): nat
      reads this, infile
    {
      |inbuf| + |infile.rest|
    }

    ghost predicate Decreased(left: nat, rank: nat)
      reads this, infile
    {
      Left() < left || (Left() == left && meaning.rank(state) < rank)
    }

    method AddToOutbufOnce()
      requires Valid() && !eof
      modifies this`inbuf, this`infileEof, this`state, this`outbuf, this`eof, infile
      ensures Valid() && (eof || Decreased(old(Left()), old(meaning.rank(state))))
    {
      if !infileEof {
        ghost var left := inbuf + infile.rest;
        AddToInbuf();
        assert |left| == Left();
      }
      CycleOnce();
    }

    /** The slice of the total output that the next length bytes make up. */
    ghost function Slice(length: int): Bytes
      requires length >= -1 && |delivered| <= |Output()|
      reads this
    {
      if length == -1 then Output()[|delivered|..] else UpTo(Output()[|delivered|..], length)
    }

    method Read(length: int) returns (buf: Bytes)
      requires Valid() && length >= -1
      modifies this, infile
      ensures Valid() && |old(delivered)| <= |Output()| && buf == old(Slice(length))
      ensures delivered == old(delivered) + buf
    {
      while !eof && (length == -1 || |outbuf| < length)
        invariant Valid() && delivered == old(delivered)
        decreases !eof, Left(), meaning.rank(state)
      {
        AddToOutbufOnce();
      }
      MadeSoFar();
      var realLen := if length == -1 || length > |outbuf| then |outbuf| else length;
      buf := outbuf[..realLen];
      assert buf == Slice(length);
      assert buf + outbuf[realLen..] == outbuf;
      Assoc(delivered, buf, outbuf[realLen..]);
      delivered := delivered + buf;
      outbuf := outbuf[realLen..];
    }

    lemma MadeSoFar()
      requires Valid()
      ensures delivered + outbuf <= Output() && (eof ==> delivered + outbuf == Output())
    {
      if !eof {
        MadeIsPrefix(maker, meaning, state, inbuf + infile.rest);
      }
    }
  }

  function Sum(lengths: seq<nat>): nat {
    if lengths == [] then 0 else Sum(lengths[..|lengths| - 1]) + lengths[|lengths| - 1]
  }

  function UpTo(all: Bytes, n: nat): Bytes {
    if n <= |all| then all[..n] else all
  }

  lemma UpToStep(all: Bytes, n: nat, k: nat)
    ensures var m := |UpTo(all, n)|;
      UpTo(all, n) + UpTo(all[m..], k) == UpTo(all, n + k)
  {
  }

  lemma SumStep(lengths: seq<nat>, n: nat)
    requires n < |lengths|
    ensures Sum(lengths[..n + 1]) == Sum(lengths[..n]) + lengths[n]
  {
    assert lengths[..n + 1][..n] == lengths[..n];
  }

  /** However the reads are cut, together they return the same bytes, short only at the end. */
  method ReadInPieces<S(!new)>(maker: Maker<S>, ghost meaning: Meaning<S>, content: Bytes, lengths: seq<nat>)
    returns (got: Bytes, rest: Bytes)
    requires Lawful(maker, meaning)
    ensures got == UpTo(meaning.output(content), Sum(lengths)) && got + rest == meaning.output(content)
  {
    hide Lawful, Sum;
    var infile := new InFile(content);
    var file := new LikeFile(maker, infile, meaning);
    got := "";
    ghost var all := meaning.output(content);
    assert Sum(lengths[..0]) == 0 by { EmptySum(lengths[..0]); }
    for n := 0 to |lengths|
      invariant file.Valid() && file.Output() == all && file.delivered == got && fresh(file) && fresh(file.infile)
      invariant got == UpTo(all, Sum(lengths[..n]))
    {
      SumStep(lengths, n);
      UpToStep(all, Sum(lengths[..n]), lengths[n]);
      var buf := file.Read(lengths[n]);
      got := got + buf;
    }
    assert lengths[..|lengths|] == lengths;
    rest := file.Read(-1);
  }

  lemma EmptySum(lengths: seq<nat>)
    ensures lengths == [] ==> Sum(lengths) == 0
  {
  }

  class SigGenerator<S(!new)> {
    ghost const meaning: Meaning<S>
    /** getsig has been called. */
    ghost var finished: bool

    const sigMaker: Maker<S>
    var state: S
    var buffer: Bytes
    var sigstringList: seq<Bytes>

    /** Everything update was called with. */
    ghost function Seen(): Bytes
      reads this
    {
      meaning.given(state) + buffer
    }

    ghost predicate Valid()
      reads this
    {
      && Lawful(sigMaker, meaning) && Patient(sigMaker, meaning)
      && Concat(sigstringList) == meaning.made(state)
      && (!finished ==> meaning.alive(state))
    }

    constructor (sigMaker: Maker<S>, ghost meaning: Meaning<S>)
      requires Lawful(sigMaker, meaning) && Patient(sigMaker, meaning)
      ensures Valid() && !finished && Seen() == "" && this.meaning == meaning
    {
      this.sigMaker, this.meaning := sigMaker, meaning;
      state, buffer, sigstringList, finished := sigMaker.start, "", [], false;
    }

    method ProcessBuffer() returns (eof: bool)
      requires Valid() && !finished
      modifies this
      ensures Valid() && finished == eof && (eof ==> old(buffer) == "")
      ensures if eof then Concat(sigstringList) == meaning.output(old(Seen())) else Seen() == old(Seen())
      ensures |buffer| <= |old(buffer)|
      ensures !eof && |buffer| == |old(buffer)| ==> meaning.rank(state) < old(meaning.rank(state))
    {
      assert LawfulCycle(sigMaker, meaning, state, buffer);
      var c := sigMaker.cycle(state, buffer);
      Assoc(meaning.given(state), buffer[..c.used], buffer[c.used..]);
      assert buffer[..c.used] + buffer[c.used..] == buffer;
      assert meaning.given(state) + buffer + "" == Seen();
      ConcatLast(sigstringList, c.out);
      eof, state, finished := c.eof, c.next, c.eof;
      buffer := buffer[c.used..];
      sigstringList := sigstringList + [c.out];
    }

    method Update(buf: Bytes)
      requires Valid() && !finished
      modifies this
      ensures Valid() && !finished && Seen() == old(Seen()) + buf
    {
      Assoc(meaning.given(state), buffer, buf);
      buffer := buffer + buf;
      ghost var seen := Seen();
      while |buffer| >= BLOCKSIZE
        invariant Valid() && !finished && Seen() == seen
        decreases |buffer|, meaning.rank(state)
      {
        var premature := ProcessBuffer();
        assert !premature;
      }
    }

    method GetSig() returns (sig: Bytes)
      requires Valid() && !finished
      modifies this
      ensures Valid() && finished && sig == meaning.output(old(Seen()))
    {
      ghost var seen := Seen();
      var eof := ProcessBuffer();
      while !eof
        invariant Valid() && finished == eof
        invariant if eof then Concat(sigstringList) == meaning.output(seen) else Seen() == seen
        decreases !eof, |buffer|, meaning.rank(state)
      {
        eof := ProcessBuffer();
      }
      sig := Concat(sigstringList);
    }
  }

  function Concat(blocks: seq<Bytes>): Bytes {
    if blocks == [] then "" else Concat(blocks[..|blocks| - 1]) + blocks[|blocks| - 1]
  }

  lemma ConcatLast(blocks: seq<Bytes>, last: Bytes)
    ensures Concat(blocks + [last]) == Concat(blocks) + last
  {
    assert (blocks + [last])[..|blocks|] == blocks;
  }

  class FileWithSignature<S(!new)> {
    /** All that infile holds at the start. */
    ghost const source: Bytes

    const infile: InFile
    const sigGen: SigGenerator<S>
    var activatedCallback: bool
    /** The argument of the callback. */
    var reported: Option<Bytes>

    ghost predicate Valid()
      reads this, infile, sigGen
    {
      && sigGen.Valid()
      && (if activatedCallback then infile.rest == "" && reported == Some(sigGen.meaning.output(source))
          else reported.None? && !sigGen.finished && sigGen.Seen() + infile.rest == source)
    }

    constructor (infile: InFile, maker: Maker<S>, ghost meaning: Meaning<S>)
      requires Lawful(maker, meaning) && Patient(maker, meaning)
      ensures Valid() && source == infile.rest && this.infile == infile && !activatedCallback
      ensures fresh(sigGen) && sigGen.meaning == meaning
    {
      this.infile, source := infile, infile.rest;
      sigGen := new SigGenerator(maker, meaning);
      activatedCallback, reported := false, None;
    }

    method Read(length: int) returns (buf: Bytes)
      requires Valid() && !activatedCallback && length >= -1
      modifies infile, sigGen
      ensures Valid() && buf + infile.rest == old(infile.rest)
      ensures buf == "" && length != 0 ==> infile.rest == ""
    {
      ghost var seen := sigGen.Seen();
      buf := infile.Read(length);
      Assoc(seen, buf, infile.rest);
      sigGen.Update(buf);
    }

    /** The callback gets the signature of the whole file, however much of it was read before. */
    method Close()
      requires Valid()
      modifies this, infile, sigGen
      ensures Valid() && activatedCallback && reported == Some(sigGen.meaning.output(source))
      ensures old(activatedCallback) ==> reported == old(reported)
    {
      if !activatedCallback {
        var buf := Read(32 * 1024);
        while buf != ""
          invariant Valid() && !activatedCallback && (buf == "" ==> infile.rest == "")
          decreases |buf| + |infile.rest|
        {
          buf := Read(32 * 1024);
        }
        assert sigGen.Seen() + infile.rest == sigGen.Seen();
        var sig := sigGen.GetSig();
        activatedCallback, reported := true, Some(sig);
      }
    }
  }

  /** The reported signature does not depend on the reads before close. */
  method SignatureAfterReads<S(!new)>(
    maker: Maker<S>, ghost meaning: Meaning<S>, content: Bytes, lengths: seq<nat>) returns (sig: Bytes)
    requires Lawful(maker, meaning) && Patient(maker, meaning)
    ensures sig == meaning.output(content)
  {
    var infile := new InFile(content);
    var file := new FileWithSignature(infile, maker, meaning);
    for n := 0 to |lengths|
      invariant file.Valid() && !file.activatedCallback && file.source == content && file.sigGen.meaning == meaning
      invariant fresh(file) && fresh(file.infile) && fresh(file.sigGen)
    {
      var _ := file.Read(lengths[n]);
    }
    file.Close();
    sig := file.reported.value;
  }
}
