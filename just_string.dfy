/** The growable, NUL-terminated string buffer of just_string.c.

    A `JString` is the heap record `struct string_s`: a `size` field and an
    owned byte array `data`.  The logical string is never cached: like the C
    code, every member that needs it scans `data` for its first zero byte.

    Allocation (malloc/realloc) is modelled only by its outcome: each
    allocating operation takes a boolean `granted` saying whether the
    allocator answered with memory or with NULL.  Bytes that realloc adds
    at the end of a grown block are arbitrary.
 */
module JustString {

  newtype byte = b: int | 0 <= b < 256

  function Min(a: nat, b: nat): nat { if a <= b then a else b }

  /** C `strlen`: the index of the first zero byte. */
  function Strlen(b: seq<byte>): (n: nat)
    requires 0 in b
    ensures n < |b| && b[n] == 0
    ensures forall i :: 0 <= i < n ==> b[i] != 0
  {
    if b[0] == 0 then 0
    else
      assert 0 in b[1..] by {
        var k :| 0 <= k < |b| && b[k] == 0;
        assert b[1..][k - 1] == 0;
      }
      1 + Strlen(b[1..])
  }

  /** What a C reader of `d` sees: the longest prefix of `d` without a zero byte. */
  function CutAtNul(d: seq<byte>): (r: seq<byte>)
    ensures r <= d
    ensures 0 !in r
    ensures |r| < |d| ==> d[|r|] == 0
  {
    var b := d + [0];
    var n := Strlen(b);
    assert b[..n] == d[..n] by {
      if n < |d| {} else { assert n == |d|; }
    }
    d[..n]
  }

  /** strlen never looks past the first zero byte, so a NUL-free prefix only shifts it. */
  lemma StrlenAfterNulFree(c: seq<byte>, b: seq<byte>)
    requires 0 !in c && 0 in b
    ensures 0 in c + b
    ensures Strlen(c + b) == |c| + Strlen(b)
  {
    var n := Strlen(b);
    var cb := c + b;
    assert cb[|c| + n] == 0;
    forall i | 0 <= i < |c| + n ensures cb[i] != 0 {
      if i < |c| { assert cb[i] == c[i]; } else { assert cb[i] == b[i - |c|]; }
    }
  }

  /** A chunk whose first zero byte sits at `j` is read as its first `j` bytes. */
  lemma CutAtFirstNul(d: seq<byte>, j: nat)
    requires j < |d| && d[j] == 0 && 0 !in d[..j]
    ensures CutAtNul(d) == d[..j]
  {
  }

  class JString {
    /** The capacity the last successful allocation asked for (0 after new_string). */
    var size: nat
    /** The owned block; `data.Length` is the number of bytes really allocated. */
    var data: array<byte>
    /** Whether free_string has been applied to this record (no C field: the model's record of its lifetime). */
    var released: bool

    /** A live record: `size` reports the allocated length, except for the
        one byte new_string allocates while recording size 0. */
    ghost predicate Valid()
      reads this
    {
      !released && (size == data.Length || (size == 0 && data.Length == 1))
    }

    /** The block holds a zero byte, so strlen on it is defined. */
    ghost predicate Terminated()
      reads this, data
    {
      0 in data[..]
    }

    /** The logical string: the bytes before the first zero byte. */
    ghost function Contents(): (c: seq<byte>)
      reads this, data
      requires Terminated()
      ensures 0 !in c && |c| < data.Length && data[|c|] == 0
      ensures c == data[..|c|]
    {
      data[..Strlen(data[..])]
    }

    /** The record new_string builds once both allocations succeed: one zero byte, size 0. */
    constructor Empty()
      ensures Valid() && Terminated() && fresh(data)
      ensures size == 0 && data[..] == [0]
    {
      var block := new byte[1];
      block[0] := 0;
      data := block;
      size := 0;
      released := false;
    }

    /** new_string: NULL unless both the record and its one-byte block are allocated. */
    static method NewString(recordGranted: bool, dataGranted: bool) returns (s: JString?)
      ensures s == null <==> !(recordGranted && dataGranted)
      ensures s != null ==> fresh(s) && fresh(s.data) && s.Valid() && s.Terminated()
      ensures s != null ==> s.size == 0 && s.data.Length == 1 && s.data[..] == [0] && s.Contents() == []
    {
      if !recordGranted {
        return null;
      }
      if !dataGranted {
        return null;
      }
      s := new JString.Empty();
    }

    /** get_string: the block itself, read-only. */
    method GetString() returns (view: seq<byte>)
      requires !released
      ensures view == data[..]
      ensures Terminated() ==> view[..|Contents()|] == Contents() && view[|Contents()|] == 0
    {
      view := data[..];
    }

    /** free_string: releases the block and the record; nothing may use it afterwards. */
    method FreeString()
      requires !released
      modifies this
      ensures released
      ensures data == old(data) && size == old(size)
    {
      released := true;
    }

    /** resize_string: realloc to exactly `newSize` bytes.  On refusal the
        whole record is released and -1 returned; on success the common prefix
        of old and new block is kept, size becomes `newSize` and 0 is returned. */
    method ResizeString(newSize: nat, granted: bool) returns (rc: int)
      requires Valid()
      modifies this
      ensures rc == (if granted then 0 else -1)
      ensures !granted ==> released && data == old(data) && size == old(size)
      ensures granted ==> Valid() && fresh(data) && size == newSize && data.Length == newSize
      ensures granted ==> data[..Min(old(data.Length), newSize)] == old(data[..Min(data.Length, newSize)])
      ensures granted && old(Terminated()) && newSize > |old(Contents())| ==>
                Terminated() && Contents() == old(Contents())
    {
      if !granted {
        FreeString();
        return -1;
      }
      ghost var before := data[..];
      ghost var wasTerminated := Terminated();
      var keep := Min(data.Length, newSize);
      var moreMem := new byte[newSize];
      forall i | 0 <= i < keep {
        moreMem[i] := data[i];
      }
      data := moreMem;
      size := newSize;
      assert data[..keep] == before[..keep];
      if wasTerminated && newSize > Strlen(before) {
        var n := Strlen(before);
        assert data[n] == before[n];
        assert data[..n] == before[..n];
        assert 0 in data[..];
        StrlenAfterNulFree(data[..n], data[n..]);
        assert data[..] == data[..n] + data[n..];
      }
      rc := 0;
    }

    /** append_len_string: grows the block to strlen + dataLen + 1, copies the
        first `dataLen` bytes of `d` at the old terminator and writes a new one.
        A refused realloc releases the record and nothing is copied. */
    method AppendLenString(d: seq<byte>, dataLen: nat, granted: bool) returns (rc: int)
      requires Valid() && Terminated() && dataLen <= |d|
      modifies this
      ensures rc == (if granted then 0 else -1)
      ensures !granted ==> released && data == old(data) && data[..] == old(data[..]) && size == old(size)
      ensures granted ==> Valid() && Terminated() && fresh(data)
      ensures granted ==> data[..] == old(Contents()) + d[..dataLen] + [0]
      ensures granted ==> size == |old(Contents())| + dataLen + 1
      ensures granted ==> Contents() == old(Contents()) + CutAtNul(d[..dataLen])
    {
      var sLen := Strlen(data[..]);
      ghost var prefix := data[..sLen];
      rc := ResizeString(dataLen + sLen + 1, granted);
      if rc != 0 {
        return -1;
      }
      assert data[..sLen] == prefix by {
        assert data[..sLen] == data[..Min(old(data.Length), dataLen + sLen + 1)][..sLen];
      }
      forall i | 0 <= i < dataLen {
        data[sLen + i] := d[i];
      }
      data[sLen + dataLen] := 0;
      assert data[..] == prefix + d[..dataLen] + [0];
      // the logical string of the new block
      StrlenAfterNulFree(prefix, d[..dataLen] + [0]);
      assert CutAtNul(d[..dataLen]) == (d[..dataLen] + [0])[..Strlen(d[..dataLen] + [0])];
      assert data[..] == prefix + (d[..dataLen] + [0]);
      rc := 0;
    }

    /** append_string: append_len_string with the length strlen(d). */
    method AppendString(d: seq<byte>, granted: bool) returns (rc: int)
      requires Valid() && Terminated() && 0 in d
      modifies this
      ensures rc == (if granted then 0 else -1)
      ensures !granted ==> released && data == old(data) && data[..] == old(data[..]) && size == old(size)
      ensures granted ==> Valid() && Terminated() && fresh(data)
      ensures granted ==> data[..] == old(Contents()) + d[..Strlen(d)] + [0]
      ensures granted ==> size == |old(Contents())| + Strlen(d) + 1
      ensures granted ==> Contents() == old(Contents()) + d[..Strlen(d)]
    {
      rc := AppendLenString(d, Strlen(d), granted);
    }
  }
}
