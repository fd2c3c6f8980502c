/**
 * Searching a byte buffer for a token: the `windows(n).position(|w| w == token)`
 * idiom the stream engine uses both for the multipart delimiter and for the
 * blank line that ends a part's headers.
 */
module ByteSearch {
  import opened Wrappers

  /** One octet of the HTTP body. */
  type Byte = b: int | 0 <= b < 256

  /** `t` occurs in `s` starting at offset `p`. */
  ghost predicate OccursAt(s: seq<Byte>, t: seq<Byte>, p: nat)
  {
    p + |t| <= |s| && s[p..p + |t|] == t
  }

  ghost predicate Contains(s: seq<Byte>, t: seq<Byte>)
  {
    exists p: nat :: OccursAt(s, t, p)
  }

  /** `p` is the offset of the leftmost occurrence of `t` in `s`. */
  ghost predicate IsFirstOccurrence(s: seq<Byte>, t: seq<Byte>, p: nat)
  {
    OccursAt(s, t, p) && forall q: nat :: q < p ==> !OccursAt(s, t, q)
  }

  /** The window scan started at offset `i`. */
  function FindFrom(s: seq<Byte>, t: seq<Byte>, i: nat): (r: Option<nat>)
    requires |t| > 0
    decreases |s| - i
    ensures r.Some? ==> i <= r.value && OccursAt(s, t, r.value)
    ensures r.Some? ==> forall q: nat :: i <= q < r.value ==> !OccursAt(s, t, q)
    ensures r.None? ==> forall q: nat :: i <= q ==> !OccursAt(s, t, q)
  {
    if i + |t| > |s| then None
    else if s[i..i + |t|] == t then Some(i)
    else FindFrom(s, t, i + 1)
  }

  /**
   * Offset of the first window of `s` equal to `t`; none when `s` is shorter
   * than `t` or holds no such window. Rust's `windows(0)` panics, hence the
   * non-empty token, which every caller in the engine supplies.
   */
  function Find(s: seq<Byte>, t: seq<Byte>): (r: Option<nat>)
    requires |t| > 0
    ensures r.Some? ==> IsFirstOccurrence(s, t, r.value)
    ensures r.None? <==> !Contains(s, t)
    ensures |s| < |t| ==> r.None?
  {
    FindFrom(s, t, 0)
  }

  /** A token has one first occurrence. */
  lemma FirstOccurrenceUnique(s: seq<Byte>, t: seq<Byte>, p: nat, q: nat)
    requires IsFirstOccurrence(s, t, p) && IsFirstOccurrence(s, t, q)
    ensures p == q
  {
  }

  /**
   * Nothing that lies wholly before the first occurrence of `t` contains `t`:
   * a slice `s[k..p]` ending at the first occurrence `p` is free of the token.
   */
  lemma {:induction false} FreeBeforeFirst(s: seq<Byte>, t: seq<Byte>, p: nat, k: nat)
    requires |t| > 0
    requires IsFirstOccurrence(s, t, p)
    requires k <= p
    ensures !Contains(s[k..p], t)
  {
    forall j: nat | j + |t| <= p - k
      ensures !OccursAt(s[k..p], t, j)
    {
      var window, original := s[k..p][j..j + |t|], s[k + j..k + j + |t|];
      forall i | 0 <= i < |t|
        ensures window[i] == original[i]
      {
      }
      assert window == original;
      assert !OccursAt(s, t, k + j);
    }
  }

  /**
   * The engine reads only when the buffer holds no token, so a token that a
   * read completes ends inside the new chunk: it straddles the join or lies
   * wholly in the chunk.
   */
  lemma {:induction false} TokenAfterReadEndsInChunk(s: seq<Byte>, c: seq<Byte>, t: seq<Byte>)
    requires |t| > 0
    requires !Contains(s, t)
    requires Contains(s + c, t)
    ensures Find(s + c, t).Some? && Find(s + c, t).value + |t| > |s|
  {
    forall q: nat | q + |t| <= |s|
      ensures !OccursAt(s + c, t, q)
    {
      assert (s + c)[q..q + |t|] == s[q..q + |t|];
      assert !OccursAt(s, t, q);
    }
  }
}
