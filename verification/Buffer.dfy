/** The receive buffer: an array with a fill level and a read cursor, searched,
    consumed and compacted in place. */
module Buffer {
  import opened Text

  const BUF_CHUNK := 64 * 1024

  class EslBuffer {
    var store: array<char>
    var length: nat
    var position: nat

    ghost predicate Valid()
      reads this
    {
      position <= length <= store.Length
    }

    /** The unread bytes. */
    function Data(): (s: Bytes)
      reads this, store
      requires Valid()
      ensures |s| == length - position
    {
      store[position..length]
    }

    constructor ()
      ensures Valid() && fresh(store)
      ensures Data() == [] && position == 0
    {
      store := new char[BUF_CHUNK](_ => '\0');
      length := 0;
      position := 0;
    }

    /** `len`: how much is unread. */
    function Len(): (n: nat)
      reads this, store
      requires Valid()
      ensures n == |Data()|
    {
      length - position
    }

    /** `reserve`: move to a larger array when `space` more bytes do not fit. */
    method Reserve(space: nat)
      requires Valid()
      modifies this`store
      ensures Valid() && (store == old(store) || fresh(store))
      ensures store.Length >= length + space
      ensures store[..length] == old(store[..length])
    {
      if store.Length - length < space {
        var grow := if space < BUF_CHUNK then BUF_CHUNK else space;
        var bigger := new char[length + grow](_ => '\0');
        forall i | 0 <= i < length {
          bigger[i] := store[i];
        }
        store := bigger;
      }
    }

    method ExtendFromSlice(bytes: Bytes)
      requires Valid()
      modifies this`store, this`length, store
      ensures Valid() && (store == old(store) || fresh(store))
      ensures position == old(position)
      ensures length == old(length) + |bytes|
      ensures Data() == old(Data()) + bytes
    {
      Reserve(|bytes|);
      forall i | 0 <= i < |bytes| {
        store[length + i] := bytes[i];
      }
      length := length + |bytes|;
    }

    /** Skips `count` bytes; refuses to skip more than there are. */
    method Advance(count: nat) returns (ok: bool)
      requires Valid()
      modifies this`position
      ensures Valid()
      ensures ok <==> count <= old(|Data()|)
      ensures Data() == if ok then old(Data())[count..] else old(Data())
      ensures position == old(position) + if ok then count else 0
    {
      ok := count <= Len();
      if ok {
        position := position + count;
      }
    }

    /** The first place where a non-empty pattern occurs in the unread bytes. */
    method FindPattern(pattern: Bytes) returns (r: Option<nat>)
      requires Valid()
      ensures r == if pattern == [] then None else Find(Data(), pattern)
    {
      var data := Data();
      if pattern == [] || |data| < |pattern| {
        return None;
      }
      var i := 0;
      while i <= |data| - |pattern|
        invariant 0 <= i <= |data| - |pattern| + 1
        invariant forall j: nat :: j < i ==> !IsAt(data, pattern, j)
      {
        if data[i..i + |pattern|] == pattern {
          FindIsFirst(data, pattern, i);
          return Some(i);
        }
        i := i + 1;
      }
      return None;
    }

    /** The bytes before the pattern; the pattern itself is dropped. */
    method ExtractUntilPattern(pattern: Bytes) returns (r: Option<Bytes>)
      requires Valid()
      modifies this`position
      ensures Valid() && position >= old(position)
      ensures match (if pattern == [] then None else Find(old(Data()), pattern))
        case None => r.None? && Data() == old(Data()) && position == old(position)
        case Some(p) =>
          && p + |pattern| <= |old(Data())|
          && r == Some(old(Data())[..p])
          && Data() == old(Data())[p + |pattern|..]
    {
      var p := FindPattern(pattern);
      if p.None? {
        return None;
      }
      r := Some(Data()[..p.value]);
      assert IsAt(Data(), pattern, p.value);
      var ok := Advance(p.value + |pattern|);
    }

    /** Exactly `count` bytes, once that many are there. */
    method ExtractBytes(count: nat) returns (r: Option<Bytes>)
      requires Valid()
      modifies this`position
      ensures Valid() && position >= old(position)
      ensures r.Some? <==> count <= |old(Data())|
      ensures r.Some? ==> r.value == old(Data())[..count] && Data() == old(Data())[count..]
      ensures r.None? ==> Data() == old(Data()) && position == old(position)
    {
      if Len() >= count {
        r := Some(Data()[..count]);
        var ok := Advance(count);
      } else {
        r := None;
      }
    }

    /** Moves the unread bytes to the front of the array, in place. */
    method Compact()
      requires Valid()
      modifies this`length, this`position, store
      ensures Valid() && position == 0 && length == |Data()|
      ensures Data() == old(Data())
    {
      if position > 0 {
        var remaining := Len();
        var i := 0;
        while i < remaining
          invariant 0 <= i <= remaining && position == old(position) && length == old(length)
          invariant forall j | 0 <= j < i :: store[j] == old(store[position + j])
          invariant forall j | position + i <= j < length :: store[j] == old(store[j])
        {
          store[i] := store[position + i];
          i := i + 1;
        }
        length := remaining;
        position := 0;
      }
    }

    /** `check_size_limits` measures the whole fill level, read bytes included. */
    method CheckSizeLimits(limit: nat) returns (size: Option<nat>)
      requires Valid()
      ensures size == if length > limit then Some(length) else None
    {
      size := if length > limit then Some(length) else None;
    }
  }
}
