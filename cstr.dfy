/**
  C strings as the D3L routines see them: a character buffer holds the text
  before its first NUL.
*/
module CText {

  /** A NUL-free character sequence: what a C string holds before its terminator. */
  predicate NoNul(s: string)
  {
    '\0' !in s
  }

  /** The C string a character buffer holds: everything before its first NUL. */
  function CStr(b: seq<char>): (r: string)
    ensures |r| <= |b| && r == b[..|r|]
    ensures NoNul(r)
    ensures |r| < |b| ==> b[|r|] == '\0'
    decreases |b|
  {
    if |b| == 0 || b[0] == '\0' then [] else [b[0]] + CStr(b[1..])
  }

  /** A buffer whose first `k` characters are not NUL and whose `k`-th is NUL holds those `k`. */
  lemma {:induction false} CStrAt(b: seq<char>, k: nat)
    requires k < |b| && NoNul(b[..k]) && b[k] == '\0'
    ensures CStr(b) == b[..k]
  {
  }

  /** `k` NUL characters: the rest of a zero-filled buffer. */
  function Nuls(k: nat): (r: seq<char>)
    ensures |r| == k && forall i :: 0 <= i < k ==> r[i] == '\0'
  {
    seq(k, _ => '\0')
  }

  /** Text written at the start of a zero-filled buffer, with room for its NUL, is the C string the buffer holds. */
  lemma {:induction false} CStrPadded(s: string, k: nat)
    requires NoNul(s) && k > 0
    ensures CStr(s + Nuls(k)) == s
  {
    var b := s + Nuls(k);
    assert b[..|s|] == s;
    CStrAt(b, |s|);
  }

  /** A fresh zero-filled buffer of `size` characters with `s` written at its start, as `sprintf` leaves it. */
  method NewText(s: string, size: nat) returns (buf: array<char>)
    requires NoNul(s) && |s| < size
    ensures fresh(buf) && buf.Length == size
    ensures buf[..] == s + Nuls(size - |s|)
    ensures CStr(buf[..]) == s
  {
    buf := new char[size](i => if 0 <= i < |s| then s[i] else '\0');
    assert buf[..] == s + Nuls(size - |s|);
    CStrPadded(s, size - |s|);
  }
}
