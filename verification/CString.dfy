/** The byte-buffer helpers of the kernel's own string library. */
module CString {
  import opened Bytes

  /** A buffer with the bytes from `at` on replaced. */
  ghost function Spliced(bytes: seq<byte>, at: nat, data: seq<byte>): seq<byte>
    requires at + |data| <= |bytes|
  {
    bytes[..at] + data + bytes[at + |data|..]
  }

  /** Copies n bytes between two separate buffers. */
  method Memcpy(dest: array<byte>, d: nat, src: array<byte>, s: nat, n: nat)
    requires dest != src && d + n <= dest.Length && s + n <= src.Length
    modifies dest
    ensures dest[..] == Spliced(old(dest[..]), d, src[s..s + n])
  {
    for i := 0 to n
      invariant dest[..d + i] == old(dest[..d]) + src[s..s + i]
      invariant dest[d + i..] == old(dest[d + i..])
    {
      dest[d + i] := src[s + i];
      assert dest[..d + i + 1] == dest[..d + i] + [src[s + i]];
    }
    assert dest[..] == dest[..d + n] + dest[d + n..];
  }

  /** Compares the first n bytes; the sign is that of the first difference. */
  method Memcmp(s1: seq<byte>, s2: seq<byte>, n: nat) returns (r: int)
    requires n <= |s1| && n <= |s2|
    ensures r == 0 <==> s1[..n] == s2[..n]
    ensures r != 0 ==> exists i | 0 <= i < n :: s1[..i] == s2[..i] && (if r < 0 then s1[i] < s2[i] else s1[i] > s2[i])
  {
    for i := 0 to n
      invariant s1[..i] == s2[..i]
    {
      if s1[i] < s2[i] {
        assert s1[..n][i] != s2[..n][i];
        return -1;
      } else if s1[i] > s2[i] {
        assert s1[..n][i] != s2[..n][i];
        return 1;
      }
      assert s1[..i + 1] == s1[..i] + [s1[i]];
    }
    return 0;
  }

  /** The length of the C string held in a buffer: the bytes before the first zero. A buffer without a zero counts
      whole. */
  function Length(s: seq<byte>): (n: nat)
    ensures n <= |s| && forall k | 0 <= k < n :: s[k] != 0
    ensures n < |s| ==> s[n] == 0
  {
    if s == [] || s[0] == 0 then 0 else 1 + Length(s[1..])
  }

  /** The C string itself. */
  function Str(s: seq<byte>): seq<byte> {
    s[..Length(s)]
  }

  lemma LengthUnique(s: seq<byte>, n: nat)
    requires n <= |s| && forall k | 0 <= k < n :: s[k] != 0
    requires n < |s| ==> s[n] == 0
    ensures Length(s) == n
  {
  }

  /** Comparing over the length of the second string tells whether it is a prefix of the first. */
  lemma PrefixByLength(s: seq<byte>, prefix: seq<byte>)
    requires Length(prefix) <= |s|
    ensures s[..Length(prefix)] == prefix[..Length(prefix)] <==> Str(prefix) <= Str(s)
  {
    if s[..Length(prefix)] == Str(prefix) {
      forall k | 0 <= k < Length(prefix)
        ensures s[k] != 0
      {
        assert s[..Length(prefix)][k] == prefix[k];
      }
      assert Length(prefix) <= Length(s);
      assert Str(s)[..Length(prefix)] == s[..Length(prefix)];
    }
    if Str(prefix) <= Str(s) {
      assert Str(s)[..Length(prefix)] == s[..Length(prefix)];
    }
  }

  method Strlen(s: seq<byte>) returns (i: nat)
    ensures i == Length(s)
  {
    i := 0;
    while i < |s| && s[i] != 0
      invariant i <= |s| && forall k | 0 <= k < i :: s[k] != 0
    {
      i := i + 1;
    }
    LengthUnique(s, i);
  }
}
