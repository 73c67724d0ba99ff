/** Byte buffers: the typed-array operations the client code builds on. */
module Buffers {

  newtype Byte = x: int | 0 <= x < 256
  type Bytes = seq<Byte>

  /** The parts one after the other. */
  function Flatten<T>(parts: seq<seq<T>>): (whole: seq<T>)
    ensures |parts| == 1 ==> whole == parts[0]
  {
    if parts == [] then [] else parts[0] + Flatten(parts[1..])
  }

  lemma {:induction false} FlattenAppend<T>(parts: seq<seq<T>>, more: seq<seq<T>>)
    ensures Flatten(parts + more) == Flatten(parts) + Flatten(more)
  {
    if parts == [] {
      assert parts + more == more;
    } else {
      FlattenAppend(parts[1..], more);
      assert (parts + more)[1..] == parts[1..] + more;
      assert parts[0] + (Flatten(parts[1..]) + Flatten(more)) == Flatten(parts) + Flatten(more);
    }
  }

  lemma FlattenPush<T>(parts: seq<seq<T>>, last: seq<T>)
    ensures Flatten(parts + [last]) == Flatten(parts) + last
  {
    FlattenAppend(parts, [last]);
    assert Flatten([last]) == last + Flatten<T>([]);
  }

  lemma FlattenPrefix<T>(parts: seq<seq<T>>, k: nat)
    requires k < |parts|
    ensures Flatten(parts[..k + 1]) == Flatten(parts[..k]) + parts[k]
    ensures |Flatten(parts[..k + 1])| <= |Flatten(parts)|
  {
    assert parts[..k + 1] == parts[..k] + [parts[k]];
    FlattenPush(parts[..k], parts[k]);
    FlattenAppend(parts[..k + 1], parts[k + 1..]);
    assert parts == parts[..k + 1] + parts[k + 1..];
  }

  /** `dst.set(src, offset)` of a typed array. */
  method SetBytes(dst: array<Byte>, src: Bytes, offset: nat)
    requires offset + |src| <= dst.Length
    modifies dst
    ensures dst[..] == old(dst[..offset]) + src + old(dst[offset + |src|..])
  {
    for i := 0 to |src|
      invariant dst[..offset] == old(dst[..offset])
      invariant dst[offset..offset + i] == src[..i]
      invariant dst[offset + i..] == old(dst[offset + i..])
    {
      dst[offset + i] := src[i];
      assert dst[offset..offset + i + 1] == dst[offset..offset + i] + [src[i]];
    }
    assert dst[..] == dst[..offset] + dst[offset..offset + |src|] + dst[offset + |src|..];
  }

  /** Allocates one buffer for all parts and copies each part to its offset. */
  method Concatenate(parts: seq<Bytes>) returns (joined: Bytes)
    ensures joined == Flatten(parts)
  {
    var total := 0;
    for k := 0 to |parts|
      invariant total == |Flatten(parts[..k])|
    {
      FlattenPrefix(parts, k);
      total := total + |parts[k]|;
    }
    assert parts[..|parts|] == parts;
    var out := new Byte[total];
    var offset := 0;
    for k := 0 to |parts|
      invariant offset == |Flatten(parts[..k])| <= total
      invariant out[..offset] == Flatten(parts[..k])
    {
      FlattenPrefix(parts, k);
      SetBytes(out, parts[k], offset);
      offset := offset + |parts[k]|;
    }
    joined := out[..];
  }
}
