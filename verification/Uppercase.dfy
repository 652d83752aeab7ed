/**
 * The buffered upper-case filter, src/apps/sem11/task10_3.c:8-36 and 86-119, and the one that
 * reads byte by byte, src/apps/sem11/task10_2.c:61-71.
 */
module Uppercase {
  import opened Descriptors

  newtype Byte = b: int | 0 <= b < 256

  /** The byte that, read as a signed char, is -1 like the end marker. */
  const MARKER: Byte := 255

  /** A char of the buffer converted to int. */
  function SignExtend(b: Byte): int {
    if b < 128 then b as int else b as int - 256
  }

  /** An int converted to char. */
  function ToByte(c: int): Byte
    requires -128 <= c < 128
  {
    (if c < 0 then c + 256 else c) as Byte
  }

  /** The byte written for a char. */
  function Upper(b: Byte): Byte {
    var c := SignExtend(b);
    if 'a' as int <= c <= 'z' as int then ToByte(c - 'a' as int + 'A' as int) else b
  }

  /** A char holds the value of its byte modulo 256, from -128 to 127; the conversion back undoes that. */
  lemma SignExtendIs(b: Byte)
    ensures -128 <= SignExtend(b) <= 127 && (SignExtend(b) == b as int || SignExtend(b) == b as int - 256)
    ensures ToByte(SignExtend(b)) == b
  {
  }

  lemma ToByteIs(c: int)
    requires -128 <= c <= 127
    ensures SignExtend(ToByte(c)) == c
  {
  }

  /** The first k bytes in upper case. */
  function UpperTo(s: seq<Byte>, k: nat): seq<Byte>
    requires k <= |s|
  {
    if k == 0 then [] else UpperTo(s, k - 1) + [Upper(s[k - 1])]
  }

  /** The first marker from index i on, or the end of s. */
  function MarkerFrom(s: seq<Byte>, i: nat): (r: nat)
    requires i <= |s|
    ensures i <= r <= |s|
    ensures forall k :: i <= k < r ==> s[k] != MARKER
    ensures r < |s| ==> s[r] == MARKER
    decreases |s| - i
  {
    if i == |s| || s[i] == MARKER then i else MarkerFrom(s, i + 1)
  }

  /** The state of a buffered input; `source` and `next` stand for the descriptor and its position. */
  class FileReadState {
    const buf: array<Byte>
    const source: seq<ReadResult<Byte>>
    var next: nat
    var lc: int
    var dataSize: nat
    var dataOffset: nat
    var eof: bool
    /** Where in the stream the buffer starts. */
    ghost var start: nat

    /** How many bytes of the stream have been handed out. */
    ghost function Position(): nat
      reads this
    {
      start + dataOffset
    }

    /** The first n bytes of the buffer are those of the stream. */
    ghost predicate Holds(n: nat)
      requires n <= buf.Length
      reads this, buf
    {
      start + n <= |Stream(source)| && forall k :: 0 <= k < n ==> buf[k] == Stream(source)[start + k]
    }

    /** The byte handed out last, sign-extended, or -1 before the first one. */
    ghost function Last(): int
      requires Position() <= |Stream(source)|
      reads this
    {
      if Position() == 0 then -1 else SignExtend(Stream(source)[Position() - 1])
    }

    ghost predicate Valid()
      reads this, buf
    {
      && dataOffset <= dataSize <= buf.Length
      && WellCut(source, buf.Length)
      && Position() <= |Stream(source)| && lc == Last()
      && if eof then Position() == |Stream(source)| else Holds(dataSize) && Delivered(source, next, start + dataSize)
    }

    constructor (bufsize: nat, source: seq<ReadResult<Byte>>)
      requires WellCut(source, bufsize)
      ensures Valid() && fresh(buf) && buf.Length == bufsize
      ensures this.source == source && Position() == 0 && lc == -1
    {
      buf := new Byte[bufsize](_ => 0);
      this.source := source;
      next := 0;
      lc := -1;
      dataSize, dataOffset, start := 0, 0, 0;
      eof := false;
    }

    /** `call_read`: fills the front of the buffer with the next bytes of the stream. */
    method CallRead() returns (r: int)
      requires WellCut(source, buf.Length) && Delivered(source, next, start)
      modifies this`next, buf
      ensures r <= buf.Length && (r <= 0 <==> start == |Stream(source)|)
      ensures r > 0 ==> Holds(r) && Delivered(source, next, start + r)
    {
      NextRead(source, next, start);
      if next >= |source| {
        return 0;
      }
      var result := source[next];
      next := next + 1;
      if result.Failed? {
        return -1;
      }
      forall i | 0 <= i < |result.bytes| {
        buf[i] := result.bytes[i];
      }
      return |result.bytes|;
    }

    /** The most recent character, or -1 before the first one. */
    method LastChar() returns (c: int)
      requires Valid()
      ensures Position() <= |Stream(source)|
      ensures c == if Position() == 0 then -1 else SignExtend(Stream(source)[Position() - 1])
    {
      c := lc;
    }

    /** The first part of `nextchar`: reads on when the buffer is used up. */
    method Refill()
      requires Valid()
      modifies this, buf
      ensures Valid() && Position() == old(Position()) && lc == old(lc)
      ensures if Position() == |Stream(source)| then eof else !eof && dataOffset < dataSize
    {
      if eof || dataOffset < dataSize {
        return;
      }
      ghost var was := start;
      start := start + dataSize;
      var r := CallRead();
      if r <= 0 {
        start := was;
        eof := true;
        return;
      }
      dataOffset := 0;
      dataSize := r;
    }

    /**
     * However the source is cut into reads: the next byte of the stream, sign-extended, and once
     * the stream is over -1 for ever.
     */
    method NextChar() returns (c: int)
      requires Valid()
      modifies this, buf
      ensures Valid() && old(Position()) <= |Stream(source)|
      ensures old(Position()) == |Stream(source)| ==> c == -1 && Position() == old(Position()) && lc == old(lc)
      ensures old(Position()) < |Stream(source)| ==>
                c == SignExtend(Stream(source)[old(Position())]) && Position() == old(Position()) + 1 && lc == c
    {
      Refill();
      if eof {
        return -1;
      }
      lc := SignExtend(buf[dataOffset]);
      dataOffset := dataOffset + 1;
      c := lc;
    }
  }

  /** The buffered program: writes the stream up to the first byte 0xFF, in upper case. */
  method BufferedUpper(input: FileReadState) returns (out: seq<Byte>)
    requires input.Valid() && input.Position() == 0
    modifies input, input.buf
    ensures out == UpperTo(Stream(input.source), MarkerFrom(Stream(input.source), 0))
  {
    ghost var stream := Stream(input.source);
    ghost var k := 0;
    out := [];
    var code := input.NextChar();
    while code != -1
      invariant input.Valid()
      invariant k <= |stream| && out == UpperTo(stream, k)
      invariant MarkerFrom(stream, k) == MarkerFrom(stream, 0)
      invariant if k == |stream| then code == -1 else code == SignExtend(stream[k]) && input.Position() == k + 1
      decreases |stream| - k
    {
      var c := code;
      if 'a' as int <= c <= 'z' as int {
        c := c - 'a' as int;
        c := c + 'A' as int;
      }
      out := out + [ToByte(c)];
      k := k + 1;
      code := input.NextChar();
    }
  }

  /** The unbuffered program: a read of one byte for every byte, until a read fails. */
  method UnbufferedUpper(source: seq<ReadResult<Byte>>) returns (out: seq<Byte>)
    requires WellCut(source, 1)
    ensures out == UpperTo(Stream(source), |Stream(source)|)
  {
    out := [];
    var i := 0;
    NextRead(source, 0, 0);
    while HasData(source, i)
      decreases |source| - i
      invariant Delivered(source, i, i)
      invariant i <= |Stream(source)| && out == UpperTo(Stream(source), i)
      invariant !HasData(source, i) ==> i == |Stream(source)|
    {
      var c := SignExtend(source[i].bytes[0]);
      if 'a' as int <= c <= 'z' as int {
        c := c - 'a' as int;
        c := c + 'A' as int;
      }
      NextRead(source, i, i);
      out := out + [ToByte(c)];
      i := i + 1;
      NextRead(source, i, i);
    }
  }

  /** One byte is written for each, with a change of case for the letters a to z and none else. */
  lemma {:induction false} UpperToAt(s: seq<Byte>, k: nat, i: nat)
    requires k <= |s|
    ensures |UpperTo(s, k)| == k
    ensures i < k ==> UpperTo(s, k)[i] == if 97 <= s[i] <= 122 then s[i] - 32 else s[i]
  {
    if k > 0 {
      UpperToAt(s, k - 1, if i < k - 1 then i else 0);
    }
  }

  /** The two programs write the same bytes exactly on the streams without a byte 0xFF. */
  lemma ProgramsAgree(s: seq<Byte>)
    ensures UpperTo(s, MarkerFrom(s, 0)) == UpperTo(s, |s|) <==> 255 !in s
  {
    UpperToAt(s, |s|, 0);
    UpperToAt(s, MarkerFrom(s, 0), 0);
  }

  /** A single byte 0xFF is dropped by the one and copied by the other. */
  lemma MarkerIsDropped()
    ensures UpperTo([255], MarkerFrom([255], 0)) == [] && UpperTo([255], 1) == [255]
  {
    assert Upper(MARKER) == MARKER;
    assert UpperTo([MARKER], 0) == [];
  }

  /** Both programs on one stream, cut in any way for the first and byte by byte for the second. */
  method RunBoth(bufsize: nat, source: seq<ReadResult<Byte>>) returns (buffered: seq<Byte>, unbuffered: seq<Byte>)
    requires WellCut(source, bufsize)
    ensures buffered == unbuffered <==> 255 !in Stream(source)
  {
    var input := new FileReadState(bufsize, source);
    buffered := BufferedUpper(input);
    StreamOneByOne(Stream(source), 0);
    unbuffered := UnbufferedUpper(OneByOne(Stream(source)));
    ProgramsAgree(Stream(source));
  }
}
