/**
 Bytes and the C string functions the modelled code calls.
 */
module Bytes {

  type Byte = bv8

  /** A C string without its terminating NUL. */
  type CString = s: seq<Byte> | NulFree(s) witness []

  predicate NulFree(s: seq<Byte>) {
    forall i :: 0 <= i < |s| ==> s[i] != 0
  }

  lemma Regrouped(a: seq<Byte>, b: seq<Byte>, c: seq<Byte>)
    ensures a + b + c == a + (b + c)
  {
  }

  /** memcpy(buf + at, data, |data|) */
  method CopyTo(buf: array<Byte>, at: nat, data: seq<Byte>)
    requires at + |data| <= buf.Length
    modifies buf
    ensures buf[..] == old(buf[..at]) + data + old(buf[at + |data|..])
  {
    forall i | 0 <= i < |data| {
      buf[at + i] := data[i];
    }
  }
}
