/** What successive `read` calls on a file descriptor deliver. */
module Descriptors {

  /** A positive count with that many bytes, or 0 or -1: end of file or an error. */
  datatype ReadResult<T> = Data(bytes: seq<T>) | Failed

  /** No read delivers nothing, or more than was asked for. */
  predicate WellCut<T>(source: seq<ReadResult<T>>, max: nat) {
    forall i :: 0 <= i < |source| && source[i].Data? ==> 1 <= |source[i].bytes| <= max
  }

  /** Does read number i deliver anything? */
  predicate HasData<T>(source: seq<ReadResult<T>>, i: nat) {
    i < |source| && source[i].Data?
  }

  /** The bytes delivered from read number i on, up to the first failing read. */
  function StreamFrom<T>(source: seq<ReadResult<T>>, i: nat): seq<T>
    decreases |source| - i
  {
    if HasData(source, i) then source[i].bytes + StreamFrom(source, i + 1) else []
  }

  function Stream<T>(source: seq<ReadResult<T>>): seq<T> {
    StreamFrom(source, 0)
  }

  /** The reads before number i have delivered the first k bytes of the stream. */
  ghost predicate Delivered<T>(source: seq<ReadResult<T>>, i: nat, k: nat) {
    k <= |Stream(source)| && StreamFrom(source, i) == Stream(source)[k..]
  }

  /** A read delivers the next bytes of the stream; one that fails, or is one too many, ends it. */
  lemma NextRead<T>(source: seq<ReadResult<T>>, i: nat, k: nat)
    requires Delivered(source, i, k)
    ensures !HasData(source, i) ==> k == |Stream(source)|
    ensures HasData(source, i) ==>
              var bytes := source[i].bytes;
              && Delivered(source, i + 1, k + |bytes|)
              && forall j :: 0 <= j < |bytes| ==> bytes[j] == Stream(source)[k + j]
  {
    if HasData(source, i) {
      var bytes, rest := source[i].bytes, Stream(source)[k..];
      assert rest[|bytes|..] == Stream(source)[k + |bytes|..];
      assert forall j :: 0 <= j < |bytes| ==> bytes[j] == rest[j];
    }
  }

  /** The same bytes, one per read. */
  function OneByOne<T>(s: seq<T>): seq<ReadResult<T>> {
    seq(|s|, i requires 0 <= i < |s| => Data([s[i]]))
  }

  lemma {:induction false} StreamOneByOne<T>(s: seq<T>, i: nat)
    requires i <= |s|
    ensures StreamFrom(OneByOne(s), i) == s[i..]
    decreases |s| - i
  {
    if i < |s| {
      StreamOneByOne(s, i + 1);
    }
  }
}
