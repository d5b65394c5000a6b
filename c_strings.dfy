/**
 * The C library copies the server performs on its fixed buffers: a copy of
 * known bytes (sprintf of a literal, strcpy, strncpy of a NUL-free source
 * of known length) and strncpy from a buffer that may hold a NUL.
 */
module CStrings {
  import opened HttpTypes

  /** The index of the first NUL among the first `n` bytes, or `n`. */
  function CStrLen(src: seq<byte>, n: nat): (len: nat)
    requires n <= |src|
    ensures len <= n && NulFree(src[..len])
    ensures len < n ==> src[len] == NUL
    decreases n
  {
    if n == 0 then 0
    else
      var len := CStrLen(src, n - 1);
      if len < n - 1 then len
      else
        assert src[..n - 1] == src[..len];
        if src[n - 1] == NUL then n - 1 else
          assert src[..n] == src[..n - 1] + [src[n - 1]];
          n
  }

  /** `n` NUL bytes. */
  function Zeros(n: nat): (z: seq<byte>)
    ensures |z| == n && forall k | 0 <= k < n :: z[k] == NUL
  {
    seq(n, k => NUL)
  }

  /**
   * What strncpy(dst, src, n) stores: the bytes of `src` before its first
   * NUL, then NULs, `n` bytes in all.
   */
  function StrNCpy(src: seq<byte>, n: nat): (r: seq<byte>)
    requires n <= |src|
    ensures |r| == n
  {
    var len := CStrLen(src, n);
    src[..len] + Zeros(n - len)
  }

  /** From a source with no NUL in its first `n` bytes, strncpy copies them unchanged. */
  lemma StrNCpyNulFree(src: seq<byte>, n: nat)
    requires n <= |src| && NulFree(src[..n])
    ensures StrNCpy(src, n) == src[..n]
  {
    var len := CStrLen(src, n);
    if len < n {
      assert src[..n][len] == NUL;
    }
  }

  /** strncpy stops at the first NUL: what it stores past that point is NUL. */
  lemma StrNCpyStopsAtNul(src: seq<byte>, n: nat, k: nat)
    requires k < n <= |src| && src[k] == NUL
    ensures forall j | k <= j < n :: StrNCpy(src, n)[j] == NUL
    ensures StrNCpy(src, n)[..k] == StrNCpy(src, k)
  {
  }

  /**
   * Copies `src` into `dst` from index `at`: the effect of sprintf, strcpy
   * and strncpy of known bytes.
   */
  method CopyInto(dst: array<byte>, at: nat, src: seq<byte>)
    requires at + |src| <= dst.Length
    modifies dst
    ensures forall j | 0 <= j < dst.Length :: dst[j] == if at <= j < at + |src| then src[j - at] else old(dst[j])
  {
    var i := 0;
    while i < |src|
      invariant 0 <= i <= |src|
      invariant forall k | 0 <= k < dst.Length ::
                  dst[k] == if at <= k < at + i then src[k - at] else old(dst[k])
    {
      dst[at + i] := src[i];
      i := i + 1;
    }
  }

  /**
   * strncpy(&dst[at], src, n) with `src` another buffer: byte by byte until
   * the first NUL, then NULs up to `n` bytes.
   */
  method StrNCpyInto(dst: array<byte>, at: nat, src: array<byte>, n: nat)
    requires dst != src && at + n <= dst.Length && n <= src.Length
    modifies dst
    ensures dst[..] == old(dst[..at]) + StrNCpy(src[..], n) + old(dst[at + n..])
  {
    ghost var copy := StrNCpy(src[..], n);
    ghost var len := CStrLen(src[..], n);
    var i := 0;
    var ended := false;
    while i < n
      invariant 0 <= i <= n
      invariant ended <==> len < i
      invariant forall k | 0 <= k < dst.Length ::
                  dst[k] == if at <= k < at + i then copy[k - at] else old(dst[k])
    {
      if !ended && src[i] == NUL {
        ended := true;
      }
      if !ended {
        assert i < len || (i == len && len == n) by {
          if len < i {
            assert false;
          } else if len == i && len < n {
            assert src[len] == NUL;
          }
        }
      }
      dst[at + i] := if ended then NUL else src[i];
      i := i + 1;
    }
    assert dst[..] == old(dst[..at]) + copy + old(dst[at + n..]);
  }
}
