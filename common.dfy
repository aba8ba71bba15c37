/** Shared types of the tool and the two growable buffers of common.h:
    `StringArray` (an array of owned strings) and `GrowableString`
    (a byte buffer that is kept NUL-terminated). */
module Common {

  /** A C `char` seen as an unsigned byte. */
  newtype byte = x: int | 0 <= x < 256

  /** A string or raw buffer as a sequence of bytes. */
  type Str = seq<byte>

  const NUL: byte := 0

  /** `Status_OK` with a payload, or `Status_FAILED`. */
  datatype Result<T> = Ok(value: T) | Failed

  /** What `strlen`/`strcmp` see of a buffer: the bytes before the first NUL. */
  function CString(s: Str): (r: Str)
    ensures NUL !in r
    ensures r <= s
    ensures |r| < |s| ==> s[|r|] == NUL
  {
    if s == [] || s[0] == NUL then [] else [s[0]] + CString(s[1..])
  }

  lemma {:induction false} CStringOfCString(s: Str)
    requires NUL !in s
    ensures CString(s) == s
  {
    if s != [] {
      CStringOfCString(s[1..]);
    }
  }

  const STRING_ARRAY_INITIAL_CAPACITY: nat := 16
  const GROWABLE_STRING_INITIAL_CAPACITY: nat := 16

  /** common.h `StringArray`: `size` strings stored in a buffer of `capacity` slots. */
  class StringArray {
    var size: nat
    var capacity: nat
    var strings: array<Str>
    /** The stored strings, in insertion order. */
    ghost var Contents: seq<Str>
    ghost var Repr: set<object>

    ghost predicate Valid()
      reads this, Repr
    {
      && Repr == {this, strings}
      && strings.Length == capacity
      && size <= capacity
      && Contents == strings[..size]
    }

    /** stringArrayNew */
    constructor ()
      ensures Valid() && fresh(Repr)
      ensures capacity == STRING_ARRAY_INITIAL_CAPACITY && Contents == []
    {
      capacity := STRING_ARRAY_INITIAL_CAPACITY;
      size := 0;
      strings := new Str[STRING_ARRAY_INITIAL_CAPACITY];
      Contents := [];
      Repr := {this, strings};
    }

    /** stringArrayAdd: stores `str` at index `size` and returns that index;
        the buffer doubles when the new size would exceed the capacity. */
    method Add(str: Str) returns (index: nat)
      requires Valid() && capacity > 0
      modifies Repr
      ensures Valid() && fresh(Repr - old(Repr))
      ensures index == old(size) && size == old(size) + 1
      ensures Contents == old(Contents) + [str]
      ensures capacity == if old(size) + 1 > old(capacity) then 2 * old(capacity) else old(capacity)
    {
      size := size + 1;
      if size > capacity {
        capacity := capacity * 2;
        var grown := new Str[capacity];
        forall k | 0 <= k < size - 1 {
          grown[k] := strings[k];
        }
        strings := grown;
        Repr := {this, strings};
      }
      index := size - 1;
      strings[index] := str;
      Contents := Contents + [str];
    }

    /** stringArrayAddCopy: stores a copy of the first `length` bytes of `str`. */
    method AddCopy(str: Str, length: nat) returns (index: nat)
      requires Valid() && capacity > 0
      requires length <= |str|
      modifies Repr
      ensures Valid() && fresh(Repr - old(Repr))
      ensures index == old(size) && size == old(size) + 1
      ensures Contents == old(Contents) + [str[..length]]
      ensures capacity == if old(size) + 1 > old(capacity) then 2 * old(capacity) else old(capacity)
    {
      index := Add(str[..length]);
    }

    /** stringArrayGet */
    method Get(i: nat) returns (s: Str)
      requires Valid() && i < size
      ensures s == Contents[i]
    {
      s := strings[i];
    }

    /** stringArrayFree: releases every string and the buffer. */
    method Free()
      requires Valid()
      modifies Repr
      ensures Valid() && fresh(Repr - old(Repr))
      ensures size == 0 && capacity == 0 && Contents == []
    {
      for i := 0 to size
        invariant strings == old(strings) && Repr == old(Repr)
      {
        strings[i] := [];
      }
      strings := new Str[0];
      Repr := {this, strings};
      capacity := 0;
      size := 0;
      Contents := [];
    }
  }

  /** common.h `GrowableString`: `size` bytes followed by a NUL in a buffer of `capacity` bytes. */
  class GrowableString {
    var size: nat
    var capacity: nat
    var data: array<byte>
    /** The bytes appended so far. */
    ghost var Contents: Str
    ghost var Repr: set<object>

    ghost predicate Valid()
      reads this, Repr
    {
      && Repr == {this, data}
      && data.Length == capacity
      && size < capacity
      && Contents == data[..size]
    }

    /** growableStringNew */
    constructor ()
      ensures Valid() && fresh(Repr)
      ensures capacity == GROWABLE_STRING_INITIAL_CAPACITY && Contents == []
    {
      capacity := GROWABLE_STRING_INITIAL_CAPACITY;
      size := 0;
      data := new byte[GROWABLE_STRING_INITIAL_CAPACITY];
      Contents := [];
      Repr := {this, data};
    }

    /** growableStringAppend: appends `c`, keeps a NUL after the contents and
        doubles the buffer when it would not hold the contents and the NUL. */
    method Append(c: byte)
      requires Valid()
      modifies Repr
      ensures Valid() && fresh(Repr - old(Repr))
      ensures Contents == old(Contents) + [c]
      ensures data[size] == NUL
      ensures capacity == if old(size) + 2 > old(capacity) then 2 * old(capacity) else old(capacity)
    {
      size := size + 1;
      if size + 1 > capacity {
        capacity := capacity * 2;
        var grown := new byte[capacity];
        forall k | 0 <= k < size - 1 {
          grown[k] := data[k];
        }
        data := grown;
        Repr := {this, data};
      }
      data[size - 1] := c;
      data[size] := NUL;
      Contents := Contents + [c];
    }

    /** growableStringFree */
    method Free()
      requires Valid()
      modifies Repr
      ensures fresh(Repr - old(Repr))
      ensures size == 0 && capacity == 0 && data.Length == 0
    {
      data := new byte[0];
      Repr := {this, data};
      capacity := 0;
      size := 0;
    }
  }
}
