/**
 * The growing string, src/utils/string.c:4-55.
 *
 * Whether `realloc` succeeds is a parameter of each call.  A block of n + 1 characters holds a
 * string of capacity n and its terminator.
 */
module GrowString {
  import opened Memory
  import opened Powers

  const SIZE_MAX := WORD64 - 1

  // ----- the effect of appending, on values

  /** Content and capacity, and the cost so far: characters moved by `realloc`, number of growths. */
  datatype Value = Value(content: seq<char>, capacity: nat, moved: nat, growths: nat) {
    /** The size of the whole block, which is what `realloc` moves. */
    function BlockSize(): nat {
      if capacity == 0 then 0 else capacity + 1
    }
  }

  const EMPTY := Value([], 0, 0, 0)

  predicate Accepts(v: Value, src: seq<char>, granted: bool) {
    |v.content| + |src| <= v.capacity || granted
  }

  /** Appending doubles what is needed, when that exceeds the capacity; without memory nothing changes. */
  function Append(v: Value, src: seq<char>, granted: bool): Value {
    var required := |v.content| + |src|;
    if required <= v.capacity then v.(content := v.content + src)
    else if granted then Value(v.content + src, 2 * required, v.moved + v.BlockSize(), v.growths + 1)
    else v
  }

  /** One call: what is appended, and whether memory is granted if it is needed. */
  datatype Call = Call(src: seq<char>, granted: bool)

  function AppendAll(calls: seq<Call>): Value {
    if calls == [] then EMPTY
    else Append(AppendAll(calls[..|calls| - 1]), calls[|calls| - 1].src, calls[|calls| - 1].granted)
  }

  function Concat(calls: seq<Call>): seq<char> {
    if calls == [] then [] else Concat(calls[..|calls| - 1]) + calls[|calls| - 1].src
  }

  /** The amortised invariant of a string that only ever was appended to. */
  predicate Amortised(v: Value) {
    && |v.content| <= v.capacity <= 2 * |v.content|
    && v.moved <= v.capacity
    && 2 * Pow2(v.growths) <= v.capacity + 2
  }

  lemma AppendKeepsAmortised(v: Value, src: seq<char>, granted: bool)
    requires Amortised(v)
    ensures Amortised(Append(v, src, granted))
  {
  }

  /**
   * Any sequence of appends, refused ones included: the capacity is at most twice the length, all
   * growths together moved no more characters than that, and they were at most log2(length + 1).
   */
  lemma {:induction false} AppendsAreCheap(calls: seq<Call>)
    ensures Amortised(AppendAll(calls))
    ensures AppendAll(calls).moved <= 2 * |AppendAll(calls).content|
    ensures Pow2(AppendAll(calls).growths) <= |AppendAll(calls).content| + 1
  {
    if calls != [] {
      var front, last := calls[..|calls| - 1], calls[|calls| - 1];
      AppendsAreCheap(front);
      AppendKeepsAmortised(AppendAll(front), last.src, last.granted);
    }
  }

  /** The calls that succeed, in order. */
  function Successes(calls: seq<Call>): seq<Call> {
    if calls == [] then []
    else
      var front, last := calls[..|calls| - 1], calls[|calls| - 1];
      Successes(front) + if Accepts(AppendAll(front), last.src, last.granted) then [last] else []
  }

  /** The content is the concatenation of what the successful calls appended. */
  lemma {:induction false} ContentIsConcatenation(calls: seq<Call>)
    ensures AppendAll(calls).content == Concat(Successes(calls))
    ensures (forall i :: 0 <= i < |calls| ==> calls[i].granted) ==> Successes(calls) == calls
  {
    if calls != [] {
      var front, last := calls[..|calls| - 1], calls[|calls| - 1];
      ContentIsConcatenation(front);
      assert Successes(calls) != Successes(front) ==> Successes(calls)[..|Successes(calls)| - 1] == Successes(front);
    }
  }

  // ----- the string in memory

  class String {
    var data: array?<char>
    var len: nat
    var capacity: nat
    ghost var moved: nat
    ghost var growths: nat

    ghost predicate Valid()
      reads this
    {
      && len <= capacity < SIZE_MAX
      && if data == null then capacity == 0 else capacity > 0 && data.Length == capacity + 1
    }

    ghost predicate Terminated()
      requires Valid()
      reads this, data
    {
      data != null ==> data[len] == '\0'
    }

    ghost function Contents(): (v: Value)
      requires Valid()
      reads this, data
    {
      Value(if data == null then [] else data[..len], capacity, moved, growths)
    }

    /** `string_init`. */
    constructor ()
      ensures Valid() && Terminated() && Contents() == EMPTY && data == null
    {
      capacity, len := 0, 0;
      data := null;
      moved, growths := 0, 0;
    }

    /** `string_destruct`: back to the initial state, from any state. */
    method Destruct()
      requires Valid()
      modifies this
      ensures Valid() && Terminated() && data == null
      ensures Contents().content == [] && Contents().capacity == 0
    {
      if data != null {
        data := null;
        capacity := 0;
        len := 0;
      }
    }

    /** `string_reserve`: refuses unless the capacity grows. */
    method Reserve(n: nat, granted: bool) returns (r: int)
      requires Valid() && n < SIZE_MAX
      modifies this
      ensures Valid() && len == old(len)
      ensures r == if n > old(capacity) && granted then 0 else -1
      ensures r == -1 ==> data == old(data) && Contents() == old(Contents())
      ensures r == 0 ==> data != null && fresh(data) && data.Length == n + 1
      ensures r == 0 ==> moved == old(moved) + if old(data) == null then 0 else old(data.Length)
      ensures r == 0 ==>
                Contents() == Value(old(Contents().content), n, old(moved + Contents().BlockSize()), old(growths) + 1)
      ensures r == 0 && old(data) != null && old(Terminated()) ==> Terminated()
    {
      if n <= capacity {
        return -1;
      }
      var memory := Realloc(data, n + 1, granted);
      if memory == null {
        return -1;
      }
      assert data != null ==> memory[..len] == data[..len];
      moved, growths := moved + Contents().BlockSize(), growths + 1;
      data := memory;
      capacity := n;
      return 0;
    }

    /** The last lines of `string_append_buffer`, with room for the copy and a new terminator. */
    method CopyToEnd(src: seq<char>)
      requires Valid() && data != null && len + |src| <= capacity
      modifies this`len, data
      ensures Valid() && Terminated()
      ensures Contents() == old(Contents()).(content := old(Contents().content) + src)
    {
      ghost var content := Contents().content;
      CopyInto(data, len, src);
      len := len + |src|;
      data[len] := '\0';
      assert data[..len] == content + src;
    }

    /**
     * `string_append_buffer`: memory for twice the new length is asked for when the capacity does
     * not suffice; the refusal of `Reserve` to shrink never gets in the way.
     */
    method AppendBuffer(src: array<char>, n: nat, granted: bool) returns (r: int)
      requires Valid() && n <= src.Length && src != data
      requires data != null || n > 0
      requires len + n <= capacity || 2 * (len + n) < SIZE_MAX
      modifies this, data
      ensures Valid()
      ensures Contents() == Append(old(Contents()), src[..n], granted)
      ensures r == if old(len) + n <= old(capacity) || granted then 0 else -1
      ensures r == -1 || old(len) + n <= old(capacity) ==> capacity == old(capacity) && data == old(data)
      ensures r == 0 && old(len) + n > old(capacity) ==> capacity == 2 * (old(len) + n)
      ensures r == 0 ==> data != null && data[..len] == old(Contents().content) + src[..n] && data[len] == '\0'
      ensures r == -1 ==> Contents() == old(Contents()) && (old(Terminated()) ==> Terminated())
      ensures src[..] == old(src[..])
      ensures data == old(data) || fresh(data)
    {
      var requiredCapacity := len + n;
      if requiredCapacity > capacity {
        r := Reserve(2 * requiredCapacity, granted);
        if r == -1 {
          return;
        }
      }
      CopyToEnd(src[..n]);
      r := 0;
    }
  }

  // ----- any sequence of appends to one string

  /** An append within the contract: not of nothing to a string without memory, and without overflow. */
  predicate Allowed(v: Value, src: seq<char>) {
    var required := |v.content| + |src|;
    (v.capacity > 0 || src != []) && (required <= v.capacity || 2 * required < SIZE_MAX)
  }

  lemma AppendOneMore(calls: seq<Call>, k: nat)
    requires k < |calls|
    ensures AppendAll(calls[..k + 1]) == Append(AppendAll(calls[..k]), calls[k].src, calls[k].granted)
  {
    assert calls[..k + 1][..k] == calls[..k];
  }

  /** One append of a whole buffer that does not belong to the string. */
  method AppendNext(s: String, src: array<char>, granted: bool)
    requires s.Valid() && s.Terminated() && src != s.data && Allowed(s.Contents(), src[..])
    modifies s, s.data
    ensures s.Valid() && s.Terminated() && (s.data == old(s.data) || fresh(s.data))
    ensures s.Contents() == Append(old(s.Contents()), old(src[..]), granted)
  {
    assert src[..src.Length] == src[..];
    var r := s.AppendBuffer(src, src.Length, granted);
  }

  /** A new string after appending each of the buffers, whatever memory is granted. */
  method AppendEach(srcs: seq<array<char>>, grants: seq<bool>, ghost calls: seq<Call>) returns (s: String)
    requires |srcs| == |grants| == |calls|
    requires forall k :: 0 <= k < |calls| ==> calls[k] == Call(srcs[k][..], grants[k])
    requires forall k :: 0 <= k < |calls| ==> Allowed(AppendAll(calls[..k]), calls[k].src)
    ensures s.Valid() && s.Terminated() && fresh(s) && (s.data == null || fresh(s.data))
    ensures s.Contents() == AppendAll(calls) && s.Contents().content == Concat(Successes(calls))
    ensures s.capacity <= 2 * s.len && s.moved <= 2 * s.len && Pow2(s.growths) <= s.len + 1
  {
    s := new String();
    for i := 0 to |srcs|
      invariant fresh(s) && s.Valid() && s.Terminated() && (s.data == null || fresh(s.data))
      invariant s.Contents() == AppendAll(calls[..i])
    {
      AppendOneMore(calls, i);
      assert calls[i] == Call(srcs[i][..], grants[i]) && Allowed(AppendAll(calls[..i]), calls[i].src);
      AppendNext(s, srcs[i], grants[i]);
    }
    assert calls[..|srcs|] == calls;
    AppendsAreCheap(calls);
    ContentIsConcatenation(calls);
  }
}
