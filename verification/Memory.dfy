/** The block operations of the C library that both growing buffers use. */
module Memory {

  /** `realloc` to a larger block: a fresh block that begins like the old one, or nothing. */
  method Realloc(oldBlock: array?<char>, size: nat, granted: bool) returns (memory: array?<char>)
    requires oldBlock != null ==> oldBlock.Length <= size
    ensures (memory != null) == granted
    ensures granted ==> fresh(memory) && memory.Length == size
    ensures granted && oldBlock != null ==> forall k :: 0 <= k < oldBlock.Length ==> memory[k] == oldBlock[k]
  {
    if !granted {
      return null;
    }
    var block := new char[size];
    if oldBlock != null {
      forall k | 0 <= k < oldBlock.Length {
        block[k] := oldBlock[k];
      }
    }
    memory := block;
  }

  /** `memcpy(dst + at, src, |src|)`. */
  method CopyInto(dst: array<char>, at: nat, src: seq<char>)
    requires at + |src| <= dst.Length
    modifies dst
    ensures forall k :: 0 <= k < dst.Length ==>
              dst[k] == if at <= k < at + |src| then src[k - at] else old(dst[k])
  {
    forall k | 0 <= k < |src| {
      dst[at + k] := src[k];
    }
  }
}
