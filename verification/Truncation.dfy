/** What the chunked decryptor makes of a ciphertext that was cut short, when its hash is not checked. */
module Truncation {
  import opened Arithmetic
  import opened Attachments
  import opened Buffers
  import opened Wrappers

  /** No part of the box from its start on, but the whole of it, opens. */
  ghost predicate BoxFailsWhenCut(c: ChunkCipher, q: Bytes, index: nat) {
    forall t | t < SealChunk(c, q, index) && t != [] :: OpenChunk(c, t, index).None?
  }

  /** True of all boxes of `p`, as authenticated encryption makes it but for guesses. */
  ghost predicate BoxesFailWhenCut(c: ChunkCipher, p: Bytes, chunk: nat, index: nat)
    requires chunk > 0
    decreases |p|
  {
    p == [] ||
    (BoxFailsWhenCut(c, p[..Min(chunk, |p|)], index) && BoxesFailWhenCut(c, p[Min(chunk, |p|)..], chunk, index + 1))
  }

  /** The first `i` boxes of `p` are the boxes of its first `i` chunks. */
  lemma {:induction false} FirstBoxes(c: ChunkCipher, p: Bytes, chunk: nat, index: nat, i: nat, end: nat)
    requires chunk > 0 && i <= |Sealed(c, p, chunk, index)| && end == Min(i * chunk, |p|)
    ensures Sealed(c, p, chunk, index)[..i] == Sealed(c, p[..end], chunk, index)
    decreases i
  {
    if i == 0 {
      assert p[..end] == [];
    } else {
      var m := Min(chunk, |p|);
      RestOfEnd(i, chunk, |p|);
      FirstBoxes(c, p[m..], chunk, index + 1, i - 1, end - m);
      OneMoreBox(c, p, chunk, index, i, end, m);
    }
  }

  lemma RestOfEnd(i: nat, chunk: nat, n: nat)
    requires i > 0 && chunk > 0
    ensures Min(i * chunk, n) - Min(chunk, n) == Min((i - 1) * chunk, n - Min(chunk, n))
  {
    Distribute(i - 1, 1, chunk);
    if i > 1 {
      MultipleAtLeast(i - 1, chunk);
    }
  }

  lemma OneMoreBox(c: ChunkCipher, p: Bytes, chunk: nat, index: nat, i: nat, end: nat, m: nat)
    requires chunk > 0 && 0 < i <= |Sealed(c, p, chunk, index)| && m == Min(chunk, |p|) <= end <= |p|
    requires Sealed(c, p[m..], chunk, index + 1)[..i - 1] == Sealed(c, p[m..][..end - m], chunk, index + 1)
    ensures Sealed(c, p, chunk, index)[..i] == Sealed(c, p[..end], chunk, index)
  {
    assert p != [];
    var tail := Sealed(c, p[m..], chunk, index + 1);
    assert Sealed(c, p, chunk, index) == [SealChunk(c, p[..m], index)] + tail;
    assert ([SealChunk(c, p[..m], index)] + tail)[..i] == [SealChunk(c, p[..m], index)] + tail[..i - 1];
    assert p[..end] == p[..m] + p[m..][..end - m];
    SealedFront(c, p[..m], p[m..][..end - m], chunk, index);
  }

  /** Cut between boxes, a ciphertext opens as the text of the boxes that are left. */
  lemma CutBetweenBoxesOpens(c: ChunkCipher, p: Bytes, chunk: nat, i: nat)
    requires LawfulChunks(c)
    requires chunk > 0 && i <= |Sealed(c, p, chunk, 0)|
    ensures OpenChunks(c, Flatten(Sealed(c, p, chunk, 0)[..i]), chunk, 0) == Some(p[..Min(i * chunk, |p|)])
  {
    var front := p[..Min(i * chunk, |p|)];
    FirstBoxes(c, p, chunk, 0, i, |front|);
    OpensSealed(c, front, [], chunk, 0);
    assert Flatten(Sealed(c, front, chunk, 0)) + [] == Flatten(Sealed(c, front, chunk, 0));
  }

  /** Cut anywhere else it does not open. */
  lemma {:induction false} OpensOnlyBetweenBoxes(c: ChunkCipher, p: Bytes, chunk: nat, index: nat, ct: Bytes)
    returns (i: nat)
    requires LawfulChunks(c)
    requires chunk > 0 && BoxesFailWhenCut(c, p, chunk, index)
    requires ct <= Flatten(Sealed(c, p, chunk, index)) && OpenChunks(c, ct, chunk, index).Some?
    ensures i <= |Sealed(c, p, chunk, index)| && ct == Flatten(Sealed(c, p, chunk, index)[..i])
    decreases |p|
  {
    if ct == [] {
      i := 0;
    } else {
      var m := Min(chunk, |p|);
      var box, tail := SealChunk(c, p[..m], index), Sealed(c, p[m..], chunk, index + 1);
      assert Sealed(c, p, chunk, index) == [box] + tail;
      FlattenCons(box, tail, []);
      FrontOfTwo(ct, box, Flatten(tail));
      if |ct| < |box| {
        CutBoxFails(c, p[..m], chunk, index, ct);
      } else {
        var rest := ct[|box|..];
        OpenFront(c, p[..m], rest, chunk, index);
        var j := OpensOnlyBetweenBoxes(c, p[m..], chunk, index + 1, rest);
        i := j + 1;
        FlattenCons(box, tail[..j], []);
        assert ([box] + tail)[..i] == [box] + tail[..j];
      }
    }
  }

  lemma FrontOfTwo(t: Bytes, a: Bytes, b: Bytes)
    requires t <= a + b
    ensures |t| < |a| ==> t < a
    ensures |t| >= |a| ==> t == a + t[|a|..] && t[|a|..] <= b
  {
    if |t| < |a| {
      assert a[..|t|] == (a + b)[..|t|];
    } else {
      assert (a + b)[..|t|] == a + b[..|t| - |a|];
    }
  }

  lemma CutBoxFails(c: ChunkCipher, q: Bytes, chunk: nat, index: nat, t: Bytes)
    requires LawfulChunks(c)
    requires 0 < |q| <= chunk && t != [] && t < SealChunk(c, q, index) && BoxFailsWhenCut(c, q, index)
    ensures OpenChunks(c, t, chunk, index).None?
  {
    assert t[..|t|] == t;
  }

  /**
   * Where a ciphertext may be cut: what is left opens exactly when the cut is
   * between two boxes, and then as the text of the boxes before it. Without the
   * hash a missing end goes unnoticed there, and only there.
   */
  lemma CutOpensExactly(c: ChunkCipher, p: Bytes, chunk: nat, ct: Bytes, q: Bytes)
    requires LawfulChunks(c)
    requires chunk > 0 && BoxesFailWhenCut(c, p, chunk, 0) && ct <= Chunked(c, p, chunk)
    ensures OpenChunks(c, ct, chunk, 0) == Some(q) <==> exists i: nat :: CutAfter(c, p, chunk, i, ct, q)
  {
    if OpenChunks(c, ct, chunk, 0) == Some(q) {
      var i := OpensOnlyBetweenBoxes(c, p, chunk, 0, ct);
      CutBetweenBoxesOpens(c, p, chunk, i);
      assert CutAfter(c, p, chunk, i, ct, q);
    }
    if i: nat :| CutAfter(c, p, chunk, i, ct, q) {
      CutBetweenBoxesOpens(c, p, chunk, i);
    }
  }

  /** `ct` is the first `i` boxes of `p`, and `q` their text. */
  ghost predicate CutAfter(c: ChunkCipher, p: Bytes, chunk: nat, i: nat, ct: Bytes, q: Bytes)
    requires chunk > 0
  {
    var boxes := Sealed(c, p, chunk, 0);
    i <= |boxes| && ct == Flatten(boxes[..i]) && q == p[..Min(i * chunk, |p|)]
  }
}
