/**
 Memory-mapped files.  A mapping may be longer than its file; the bytes past
 the end of the file are taken to behave like a zero-filled extension of it.
 */
module Mapping {
  import opened Bytes

  function Max(a: nat, b: nat): nat {
    if a >= b then a else b
  }

  function Pow2(k: nat): (p: nat)
    ensures p > 0
  {
    if k == 0 then 1 else 2 * Pow2(k - 1)
  }

  /** Map the first `length` bytes of a file that holds `file`. */
  method MapFile(file: seq<Byte>, length: nat) returns (m: array<Byte>)
    requires |file| <= length
    ensures fresh(m) && m.Length == length
    ensures m[..|file|] == file
    ensures forall i :: |file| <= i < length ==> m[i] == 0
  {
    m := new Byte[length](i => if 0 <= i < |file| then file[i] else 0);
  }

  /** Copy `bytes` into the mapping from position `at` on. */
  method CopyInto(m: array<Byte>, at: nat, bytes: seq<Byte>)
    requires at + |bytes| <= m.Length
    modifies m
    ensures m[..] == old(m[..at]) + bytes + old(m[at + |bytes|..])
    ensures m[..at + |bytes|] == old(m[..at]) + bytes
    ensures forall i :: at + |bytes| <= i < m.Length ==> m[i] == old(m[i])
  {
    forall i | 0 <= i < |bytes| {
      m[at + i] := bytes[i];
    }
  }
}
